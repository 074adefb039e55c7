/** The set of visibility labels a principal carries, kept as a sorted slice. */
module Authorizations {
  import opened Bytes
  import opened VisibilityTree
  import opened VisibilityNormal

  /** `index` splits the labels into those before `x` and the rest. */
  predicate SplitsAt(labels: seq<Row>, x: Row, index: nat) {
    && index <= |labels|
    && (forall i | 0 <= i < index :: Less(labels[i], x))
    && (forall i | index <= i < |labels| :: AtMost(x, labels[i]))
  }

  /** Where a split falls, membership is one comparison away. */
  lemma SplitDecides(labels: seq<Row>, x: Row, index: nat)
    requires StrictlySorted(labels) && SplitsAt(labels, x, index)
    ensures x in labels <==> index < |labels| && labels[index] == x
  {
    CompareEqual(x, x);
    if i :| 0 <= i < |labels| && labels[i] == x {
      if i > index {
        assert Less(labels[index], labels[i]) && AtMost(x, labels[index]);
        CompareAntisymmetric(labels[index], x);
      }
    }
  }

  /** Sorted labels as leaf expressions, whose order is the same. */
  function Leaves(labels: seq<Row>): seq<Expr> {
    seq(|labels|, i requires 0 <= i < |labels| => Leaf(labels[i]))
  }

  /** A set of labels has exactly one sorted listing. */
  lemma SortedUnique(a: seq<Row>, b: seq<Row>)
    requires StrictlySorted(a) && StrictlySorted(b)
    ensures a == b <==> RowSet(a) == RowSet(b)
  {
    if RowSet(a) == RowSet(b) {
      LeafMembers(a);
      LeafMembers(b);
      AscendingUnique(Leaves(a), Leaves(b));
      assert |a| == |Leaves(a)| == |Leaves(b)| == |b|;
      forall i | 0 <= i < |a| ensures a[i] == b[i] {
        assert Leaves(a)[i].raw == a[i] && Leaves(b)[i].raw == b[i];
      }
    }
  }

  lemma LeafMembers(a: seq<Row>)
    requires StrictlySorted(a)
    ensures StrictlyAscending(Leaves(a)) && Members(Leaves(a)) == set x | x in RowSet(a) :: Leaf(x)
  {
    forall i, j | 0 <= i < j < |a| ensures Order(Leaves(a)[i], Leaves(a)[j]) < 0 {
      assert Less(a[i], a[j]);
    }
    forall t | t in Members(Leaves(a)) ensures t.Leaf? && t.raw in RowSet(a) {
      var i :| 0 <= i < |Leaves(a)| && Leaves(a)[i] == t;
      assert a[i] in RowSet(a);
    }
    forall x | x in RowSet(a) ensures Leaf(x) in Members(Leaves(a)) {
      var i :| 0 <= i < |a| && a[i] == x;
      assert Leaves(a)[i] == Leaf(x);
    }
  }

  class Labels {
    var labels: seq<Row>

    ghost predicate Valid()
      reads this
    {
      StrictlySorted(labels)
    }

    ghost function Held(): set<Row>
      reads this
    {
      RowSet(labels)
    }

    constructor ()
      ensures Valid() && Held() == {}
    {
      labels := [];
    }

    /** `sort.Search` for the first label not before `x`. */
    method Search(x: Row) returns (index: nat, found: bool)
      requires Valid()
      ensures SplitsAt(labels, x, index)
      ensures found <==> x in Held()
      ensures found <==> index < |labels| && labels[index] == x
    {
      var low, high := 0, |labels|;
      while low < high
        invariant 0 <= low <= high <= |labels|
        invariant forall i | 0 <= i < low :: Less(labels[i], x)
        invariant forall i | high <= i < |labels| :: AtMost(x, labels[i])
      {
        var middle := (low + high) / 2;
        CompareAntisymmetric(labels[middle], x);
        if Compare(labels[middle], x) >= 0 {
          forall i | middle <= i < |labels| ensures AtMost(x, labels[i]) {
            if i > middle { CompareTransitive(x, labels[middle], labels[i]); }
          }
          high := middle;
        } else {
          forall i | 0 <= i <= middle ensures Less(labels[i], x) {
            if i < middle { CompareTransitive(labels[i], labels[middle], x); }
          }
          low := middle + 1;
        }
      }
      index := low;
      found := index < |labels| && labels[index] == x;
      SplitDecides(labels, x, index);
    }

    method Add(x: Row) returns (changed: bool)
      requires Valid()
      modifies this
      ensures Valid() && Held() == old(Held()) + {x}
      ensures changed <==> x !in old(Held())
    {
      var index, found := Search(x);
      if found {
        return false;
      }
      forall i | index <= i < |labels| ensures Less(x, labels[i]) {
        CompareEqual(x, labels[i]);
        assert labels[i] in Held();
      }
      labels := labels[..index] + [x] + labels[index..];
      return true;
    }

    method Remove(x: Row) returns (changed: bool)
      requires Valid()
      modifies this
      ensures Valid() && Held() == old(Held()) - {x}
      ensures changed <==> x in old(Held())
    {
      var index, found := Search(x);
      if !found {
        return false;
      }
      ghost var before := labels;
      labels := labels[..index] + labels[index + 1..];
      forall y ensures y in labels <==> y in before && y != x {
        DropOne(before, index, y);
      }
      return true;
    }

    method Contains(x: Row) returns (held: bool)
      requires Valid()
      ensures held <==> x in Held()
    {
      var _, found := Search(x);
      held := found;
    }

    /** Comparing the slices position by position compares the sets. */
    method Equal(other: Labels) returns (same: bool)
      requires Valid() && other.Valid()
      ensures same <==> Held() == other.Held()
    {
      SortedUnique(labels, other.labels);
      if |labels| != |other.labels| {
        return false;
      }
      for i := 0 to |labels|
        invariant forall j | 0 <= j < i :: labels[j] == other.labels[j]
      {
        if labels[i] != other.labels[i] {
          return false;
        }
      }
      return true;
    }
  }

  lemma DropOne(labels: seq<Row>, index: nat, y: Row)
    requires StrictlySorted(labels) && index < |labels|
    ensures y in labels[..index] + labels[index + 1..] <==> y in labels && y != labels[index]
  {
    var rest := labels[..index] + labels[index + 1..];
    CompareEqual(y, y);
    forall i | 0 <= i < |labels| && i != index ensures labels[i] in rest && labels[i] != labels[index] {
      CompareEqual(labels[i], labels[index]);
      assert labels[i] == if i < index then rest[i] else rest[i - 1];
      CompareAntisymmetric(labels[i], labels[index]);
    }
  }

  /** Evaluation is monotone in the labels held. */
  lemma EvaluateMonotone(e: Row, n: Node, fewer: set<Row>, more: set<Row>)
    requires Spanned(e, n) && ValidExpr(Shape(n)) && fewer <= more
    requires Evaluate(e, n, fewer).Ok? && Evaluate(e, n, fewer).value
    ensures Evaluate(e, n, more).Ok? && Evaluate(e, n, more).value
  {
    EvaluateIsHolds(e, n, fewer);
    EvaluateIsHolds(e, n, more);
    HoldsMonotone(Shape(n), fewer, more);
  }
}
