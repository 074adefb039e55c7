/**
 Byte strings and the order `bytes.Compare` gives them. Rows, labels and
 visibility expressions are all byte strings; a `nil` slice, where the
 difference from an empty one matters, is `Option<Row>.None`.
 */
module Bytes {

  type Byte = x: int | 0 <= x < 256
  type Row = seq<Byte>

  /** Lexicographic order, unsigned, a proper prefix first. */
  function Compare(a: Row, b: Row): (c: int)
    ensures -1 <= c <= 1
  {
    if a == [] || b == [] then
      if a == [] && b == [] then 0 else if a == [] then -1 else 1
    else if a[0] != b[0] then
      if a[0] < b[0] then -1 else 1
    else
      Compare(a[1..], b[1..])
  }

  predicate Less(a: Row, b: Row) { Compare(a, b) < 0 }

  predicate AtMost(a: Row, b: Row) { Compare(a, b) <= 0 }

  /** Sorted without repeats. */
  predicate StrictlySorted(rows: seq<Row>) { forall i, j | 0 <= i < j < |rows| :: Less(rows[i], rows[j]) }

  function RowSet(rows: seq<Row>): set<Row> { set r | r in rows }

  /** `append(row, 0)`: the row that immediately follows `a`. */
  function Successor(a: Row): Row { a + [0] }

  lemma {:induction false} CompareEqual(a: Row, b: Row)
    ensures Compare(a, b) == 0 <==> a == b
  {
    if a != [] && b != [] && a[0] == b[0] {
      CompareEqual(a[1..], b[1..]);
      assert a == [a[0]] + a[1..] && b == [b[0]] + b[1..];
    }
  }

  lemma {:induction false} CompareAntisymmetric(a: Row, b: Row)
    ensures Compare(a, b) == -Compare(b, a)
  {
    if a != [] && b != [] && a[0] == b[0] {
      CompareAntisymmetric(a[1..], b[1..]);
    }
  }

  lemma {:induction false} CompareTransitive(a: Row, b: Row, c: Row)
    requires AtMost(a, b) && AtMost(b, c)
    ensures AtMost(a, c)
    ensures Less(a, b) || Less(b, c) ==> Less(a, c)
  {
    if a != [] && b != [] && c != [] && a[0] == b[0] == c[0] {
      CompareTransitive(a[1..], b[1..], c[1..]);
    }
  }

  lemma {:induction false} CommonPrefix(p: Row, a: Row, b: Row)
    ensures Compare(p + a, p + b) == Compare(a, b)
  {
    if p == [] {
      assert p + a == a && p + b == b;
    } else {
      CommonPrefix(p[1..], a, b);
      assert (p + a)[1..] == p[1..] + a && (p + b)[1..] == p[1..] + b;
    }
  }

  /** The first byte that differs decides, and a row precedes every extension of it. */
  lemma FirstByteDecides(p: Row, x: Byte, a: Row, y: Byte, b: Row)
    ensures x != y ==> (Less(p + [x] + a, p + [y] + b) <==> x < y)
    ensures Less(p, p + [x] + a)
  {
    assert p + [x] + a == p + ([x] + a) && p + [y] + b == p + ([y] + b) && p == p + [];
    CommonPrefix(p, [x] + a, [y] + b);
    CommonPrefix(p, [], [x] + a);
  }

  /** Nothing sorts between a row and its successor. */
  lemma {:induction false} SuccessorIsNext(a: Row, b: Row)
    ensures Less(a, b) <==> AtMost(Successor(a), b)
    ensures Less(b, Successor(a)) <==> AtMost(b, a)
  {
    if a == [] || b == [] || a[0] != b[0] {
      if b != [] && a == [] {
        assert Successor(a)[1..] == [];
      }
    } else {
      SuccessorIsNext(a[1..], b[1..]);
      assert Successor(a)[1..] == Successor(a[1..]);
    }
    CompareAntisymmetric(a, b);
    CompareAntisymmetric(Successor(a), b);
  }

  /** Adding the successor byte on both sides changes no comparison. */
  lemma SuccessorMonotone(a: Row, b: Row)
    ensures AtMost(Successor(a), Successor(b)) <==> AtMost(a, b)
  {
    SuccessorIsNext(a, Successor(b));
    SuccessorIsNext(b, a);
    CompareAntisymmetric(a, b);
  }
}
