/** Accumulo keys and the total order everything else rests on. */
module Keys {
  import opened Bytes

  const MAX_TIMESTAMP: int := 0x7fff_ffff_ffff_ffff

  type Timestamp = t: int | -0x8000_0000_0000_0000 <= t <= 0x7fff_ffff_ffff_ffff

  datatype Key = Key(row: Row, family: Row, qualifier: Row, visibility: Row, timestamp: Timestamp, deleted: bool)

  /** Row and column ascending, newest version first, deletion markers before live entries. */
  function CompareKeys(k: Key, other: Key): (c: int)
    ensures -1 <= c <= 1
  {
    if Compare(k.row, other.row) != 0 then Compare(k.row, other.row)
    else if Compare(k.family, other.family) != 0 then Compare(k.family, other.family)
    else if Compare(k.qualifier, other.qualifier) != 0 then Compare(k.qualifier, other.qualifier)
    else if Compare(k.visibility, other.visibility) != 0 then Compare(k.visibility, other.visibility)
    else if other.timestamp < k.timestamp then -1
    else if other.timestamp > k.timestamp then 1
    else if k.deleted == other.deleted then 0
    else if k.deleted then -1
    else 1
  }

  predicate Before(a: Key, b: Key) { CompareKeys(a, b) < 0 }

  /** The components in the order in which they decide; each only when all before it are the same. */
  lemma FirstDifferenceDecides(a: Key, b: Key)
    ensures a.row != b.row ==> (Before(a, b) <==> Less(a.row, b.row))
    ensures a.row == b.row && a.family != b.family ==> (Before(a, b) <==> Less(a.family, b.family))
    ensures a.row == b.row && a.family == b.family && a.qualifier != b.qualifier ==>
              (Before(a, b) <==> Less(a.qualifier, b.qualifier))
    ensures a == b.(visibility := a.visibility, timestamp := a.timestamp, deleted := a.deleted) ==>
              (a.visibility != b.visibility ==> (Before(a, b) <==> Less(a.visibility, b.visibility)))
    ensures a == b.(timestamp := a.timestamp, deleted := a.deleted) && a.timestamp != b.timestamp ==>
              (Before(a, b) <==> a.timestamp > b.timestamp)
    ensures a == b.(deleted := a.deleted) && a.deleted != b.deleted ==> (Before(a, b) <==> a.deleted)
  {
    CompareEqual(a.row, b.row);
    CompareEqual(a.family, b.family);
    CompareEqual(a.qualifier, b.qualifier);
    CompareEqual(a.visibility, b.visibility);
  }

  lemma KeysEqual(a: Key, b: Key)
    ensures CompareKeys(a, b) == 0 <==> a == b
  {
    CompareEqual(a.row, b.row);
    CompareEqual(a.family, b.family);
    CompareEqual(a.qualifier, b.qualifier);
    CompareEqual(a.visibility, b.visibility);
  }

  lemma KeysAntisymmetric(a: Key, b: Key)
    ensures CompareKeys(a, b) == -CompareKeys(b, a)
  {
    CompareAntisymmetric(a.row, b.row);
    CompareAntisymmetric(a.family, b.family);
    CompareAntisymmetric(a.qualifier, b.qualifier);
    CompareAntisymmetric(a.visibility, b.visibility);
  }

  /** Equal components are the same, so only the first difference matters. */
  lemma SameOrDiffer(a: Row, b: Row, c: Row)
    ensures Compare(a, b) == 0 <==> a == b
    ensures Compare(b, c) == 0 <==> b == c
    ensures Compare(a, c) == 0 <==> a == c
    ensures AtMost(a, b) && AtMost(b, c) ==> AtMost(a, c) && (Less(a, b) || Less(b, c) ==> Less(a, c))
  {
    CompareEqual(a, b);
    CompareEqual(b, c);
    CompareEqual(a, c);
    if AtMost(a, b) && AtMost(b, c) { CompareTransitive(a, b, c); }
  }

  lemma KeysTransitive(a: Key, b: Key, c: Key)
    requires CompareKeys(a, b) <= 0 && CompareKeys(b, c) <= 0
    ensures CompareKeys(a, c) <= 0
    ensures Before(a, b) || Before(b, c) ==> Before(a, c)
  {
    hide Compare;
    SameOrDiffer(a.row, b.row, c.row);
    SameOrDiffer(a.family, b.family, c.family);
    SameOrDiffer(a.qualifier, b.qualifier, c.qualifier);
    SameOrDiffer(a.visibility, b.visibility, c.visibility);
  }

  /** The smallest live key of a row, or of the row right after it. */
  function FirstKeyOfRow(row: Row, following: bool): Key {
    Key(if following then Successor(row) else row, [], [], [], MAX_TIMESTAMP, false)
  }

  /** A live key is at or after the first key of a row exactly when its row is. */
  lemma FirstKeyIsFirst(row: Row, k: Key)
    ensures !k.deleted ==> (Before(k, FirstKeyOfRow(row, false)) <==> Less(k.row, row))
    ensures Less(k.row, row) ==> Before(k, FirstKeyOfRow(row, false))
    ensures Less(row, k.row) ==> Before(FirstKeyOfRow(row, false), k)
  {
    CompareAntisymmetric(k.row, row);
  }

  /** The one key a row boundary misses: a tombstone with empty columns at the largest timestamp. */
  lemma TombstoneBeforeFirstKey(row: Row, k: Key)
    requires k.row == row
    ensures Before(k, FirstKeyOfRow(row, false)) <==> k == FirstKeyOfRow(row, false).(deleted := true)
  {
    KeysEqual(k, FirstKeyOfRow(row, false));
    CompareEqual(k.row, row);
    CompareEqual(k.family, []);
    CompareEqual(k.qualifier, []);
    CompareEqual(k.visibility, []);
  }

  /** The boundary after a row, for every key: rows up to it, and the tombstone of the row after it. */
  lemma FirstKeyFollows(row: Row, k: Key)
    ensures Before(k, FirstKeyOfRow(row, true)) <==>
            AtMost(k.row, row) || k == FirstKeyOfRow(row, true).(deleted := true)
  {
    var next := FirstKeyOfRow(row, true);
    assert next == FirstKeyOfRow(Successor(row), false);
    FirstKeyIsFirst(Successor(row), k);
    SuccessorIsNext(row, k.row);
    CompareEqual(k.row, Successor(row));
    CompareAntisymmetric(k.row, Successor(row));
    if k.row == Successor(row) {
      TombstoneBeforeFirstKey(Successor(row), k);
    }
  }
}
