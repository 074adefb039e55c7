/** Scan ranges: their effective key bounds, what they contain, and how they meet a tablet. */
module Ranges {
  import opened Wrappers
  import opened Bytes
  import opened Keys
  import opened TabletExtents

  datatype Range = Range(
    startKey: Option<Key>,
    endKey: Option<Key>,
    startRowOnly: bool,
    endRowOnly: bool,
    startInclusive: bool,
    endInclusive: bool)

  datatype RangeError = EndPrecedesStart | DeletedBound

  /** `keyForRow`: a bound that names a row and nothing else. */
  function KeyForRow(row: Row): Key { Key(row, [], [], [], 0, false) }

  function RowBound(row: Option<Row>): Option<Key> { if row.None? then None else Some(KeyForRow(row.value)) }

  function NewRange(startRow: Option<Row>, startInclusive: bool, endRow: Option<Row>, endInclusive: bool)
    : (r: Result<Range, RangeError>)
    ensures r.Ok? ==> LiveBounds(r.value)
  {
    if startRow.Some? && endRow.Some? && Less(endRow.value, startRow.value) then Err(EndPrecedesStart)
    else Ok(Range(RowBound(startRow), RowBound(endRow), startRow.Some?, endRow.Some?, startInclusive, endInclusive))
  }

  function NewKeyRange(start: Option<Key>, startInclusive: bool, end: Option<Key>, endInclusive: bool)
    : (r: Result<Range, RangeError>)
    ensures r.Ok? ==> LiveBounds(r.value)
  {
    if (start.Some? && start.value.deleted) || (end.Some? && end.value.deleted) then Err(DeletedBound)
    else if start.Some? && end.Some? && Before(end.value, start.value) then Err(EndPrecedesStart)
    else Ok(Range(start, end, false, false, startInclusive, endInclusive))
  }

  /** What both constructors guarantee of the bounds: none is a deletion marker. */
  predicate LiveBounds(r: Range) {
    (r.startKey.Some? ==> !r.startKey.value.deleted) && (r.endKey.Some? ==> !r.endKey.value.deleted)
  }

  /** The lower bound as a key and whether it is included. */
  function EffectiveStart(r: Range): (Option<Key>, bool) {
    if r.startKey.None? then (None, r.startInclusive)
    else if r.startRowOnly then (Some(FirstKeyOfRow(r.startKey.value.row, !r.startInclusive)), true)
    else (r.startKey, r.startInclusive)
  }

  function EffectiveEnd(r: Range): (Option<Key>, bool) {
    if r.endKey.None? then (None, r.endInclusive)
    else if r.endRowOnly then (Some(FirstKeyOfRow(r.endKey.value.row, r.endInclusive)), false)
    else (r.endKey, r.endInclusive)
  }

  predicate AfterEnd(r: Range, k: Key) {
    var (end, inclusive) := EffectiveEnd(r);
    end.Some? && if inclusive then CompareKeys(end.value, k) < 0 else CompareKeys(end.value, k) <= 0
  }

  predicate BeforeStart(r: Range, k: Key) {
    var (start, inclusive) := EffectiveStart(r);
    start.Some? && if inclusive then CompareKeys(k, start.value) < 0 else CompareKeys(k, start.value) <= 0
  }

  predicate Contains(r: Range, k: Key) { !BeforeStart(r, k) && !AfterEnd(r, k) }

  /** The row a scan of the range is routed by; a missing row routes like the empty one. */
  function RoutingRow(r: Range): Option<Row> {
    if r.startKey.None? then None
    else if r.startInclusive || !r.startRowOnly then Some(r.startKey.value.row)
    else Some(Successor(r.startKey.value.row))
  }

  function RowOrEmpty(row: Option<Row>): Row { if row.None? then [] else row.value }

  predicate FitsTablet(r: Range, t: Extent) {
    if r.endKey.None? then t.endRow.None?
    else if t.endRow.None? then true
    else
      var stop := if r.endInclusive then Successor(r.endKey.value.row) else r.endKey.value.row;
      AtMost(stop, Successor(t.endRow.value))
  }

  // ---- A tablet's own range ----

  /** The tombstone that sorts before the first key after a row. */
  predicate StrayTombstone(row: Option<Row>, k: Key) {
    row.Some? && k == FirstKeyOfRow(row.value, true).(deleted := true)
  }

  /**
   The rows of an extent as a range: containing a key and holding its row are
   the same for every key but two, the tombstones that sort before the first
   key after the previous end row and after the end row.
   */
  lemma ExtentRangeHoldsItsRows(e: Extent, k: Key)
    requires ValidExtent(e)
    ensures NewRange(e.prevRow, false, e.endRow, true).Ok?
    ensures (Contains(NewRange(e.prevRow, false, e.endRow, true).value, k) <==> Holds(e, k.row)) <==>
            !StrayTombstone(e.prevRow, k) && !StrayTombstone(e.endRow, k)
  {
    hide CompareKeys;
    if e.prevRow.Some? {
      FirstKeyFollows(e.prevRow.value, k);
      if e.endRow.Some? { StrayRows(e.prevRow.value, e.endRow.value); }
    }
    if e.endRow.Some? {
      FirstKeyFollows(e.endRow.value, k);
      KeysAntisymmetric(FirstKeyOfRow(e.endRow.value, true), k);
      SuccessorIsNext(e.endRow.value, e.endRow.value);
      CompareEqual(e.endRow.value, e.endRow.value);
    }
    if e.prevRow.Some? {
      SuccessorIsNext(e.prevRow.value, e.prevRow.value);
      CompareEqual(e.prevRow.value, e.prevRow.value);
    }
  }

  lemma StrayRows(prev: Row, end: Row)
    requires Less(prev, end)
    ensures AtMost(Successor(prev), end) && !AtMost(Successor(end), prev) && !AtMost(end, prev)
    ensures Successor(prev) != Successor(end) && !Less(end, prev)
  {
    SuccessorIsNext(prev, end);
    SuccessorIsNext(end, prev);
    SuccessorIsNext(end, end);
    CompareEqual(end, end);
    CompareAntisymmetric(prev, end);
    CompareAntisymmetric(prev, Successor(end));
    assert Successor(prev)[..|prev|] == prev && Successor(end)[..|end|] == end;
  }

  /** What a row range contains, in rows alone; it is refused exactly when its end precedes its start. */
  lemma RowRangeContains(start: Option<Row>, startInclusive: bool, end: Option<Row>, endInclusive: bool, k: Key)
    ensures var r := NewRange(start, startInclusive, end, endInclusive);
            && (r.Ok? <==> !(start.Some? && end.Some? && Less(end.value, start.value)))
            && (r.Ok? && !k.deleted ==>
                  (Contains(r.value, k) <==>
                    && (start.Some? ==>
                          if startInclusive then AtMost(start.value, k.row) else Less(start.value, k.row))
                    && (end.Some? ==> if endInclusive then AtMost(k.row, end.value) else Less(k.row, end.value))))
  {
    hide CompareKeys;
    if start.Some? {
      FirstKeyIsFirst(start.value, k);
      FirstKeyFollows(start.value, k);
      CompareAntisymmetric(k.row, start.value);
    }
    if end.Some? {
      FirstKeyIsFirst(end.value, k);
      FirstKeyFollows(end.value, k);
      KeysAntisymmetric(FirstKeyOfRow(end.value, false), k);
      KeysAntisymmetric(FirstKeyOfRow(end.value, true), k);
    }
  }

  /** What a key range contains, for every key; refused exactly for a deletion marker or an end before the start. */
  lemma KeyRangeContains(start: Option<Key>, startInclusive: bool, end: Option<Key>, endInclusive: bool, k: Key)
    ensures var r := NewKeyRange(start, startInclusive, end, endInclusive);
            && (r.Ok? <==>
                  && (start.Some? ==> !start.value.deleted) && (end.Some? ==> !end.value.deleted)
                  && !(start.Some? && end.Some? && Before(end.value, start.value)))
            && (r.Ok? ==>
                  (Contains(r.value, k) <==>
                    && (start.Some? ==> Before(start.value, k) || (startInclusive && k == start.value))
                    && (end.Some? ==> Before(k, end.value) || (endInclusive && k == end.value))))
  {
    if start.Some? {
      KeysEqual(k, start.value);
      KeysAntisymmetric(k, start.value);
    }
    if end.Some? {
      KeysEqual(k, end.value);
      KeysAntisymmetric(k, end.value);
    }
  }

  // ---- Clipping at a tablet's end ----

  /** The part of the range up to the end of the tablet. */
  function Clipped(r: Range, end: Row): Range {
    r.(endKey := Some(KeyForRow(end)), endRowOnly := true, endInclusive := true)
  }

  /** The part of the range after the end of the tablet. */
  function Remaining(r: Range, end: Row): Range {
    r.(startKey := Some(KeyForRow(end)), startRowOnly := true, startInclusive := false)
  }

  /** A range that does not fit reaches at least the first key after the tablet. */
  lemma EndBeyondTablet(r: Range, end: Row, k: Key)
    requires LiveBounds(r) && r.endKey.Some?
    requires var stop := if r.endInclusive then Successor(r.endKey.value.row) else r.endKey.value.row;
             !AtMost(stop, Successor(end))
    requires Before(k, FirstKeyOfRow(end, true))
    ensures !AfterEnd(r, k)
  {
    var row, bound := r.endKey.value.row, FirstKeyOfRow(end, true);
    var last := EffectiveEnd(r).0.value;
    CompareAntisymmetric(row, Successor(end));
    if r.endInclusive {
      SuccessorMonotone(row, end);
      CompareAntisymmetric(row, end);
      SuccessorIsNext(end, row);
      SuccessorIsNext(row, row);
      CompareEqual(row, row);
      if r.endRowOnly {
        CompareAntisymmetric(Successor(end), Successor(row));
        SuccessorMonotone(end, row);
      }
    }
    FirstKeyIsFirst(Successor(end), last);
    KeysAntisymmetric(bound, last);
    assert CompareKeys(bound, last) <= 0;
    KeysTransitive(k, bound, last);
    KeysAntisymmetric(k, last);
  }

  /** A range starts inside the tablet its routing row falls in. */
  lemma StartWithinTablet(r: Range, end: Row, k: Key)
    requires AtMost(RowOrEmpty(RoutingRow(r)), end)
    requires !Before(k, FirstKeyOfRow(end, true))
    ensures !BeforeStart(r, k)
  {
    if r.startKey.Some? {
      var start, bound := EffectiveStart(r).0.value, FirstKeyOfRow(end, true);
      assert start.row == RowOrEmpty(RoutingRow(r));
      FirstKeyFollows(end, start);
      KeysAntisymmetric(k, bound);
      KeysTransitive(start, bound, k);
      KeysAntisymmetric(start, k);
    }
  }

  /** Clipping splits a range in two: every key of it is in exactly one part. */
  lemma ClipSplits(r: Range, t: Extent, k: Key)
    requires LiveBounds(r) && Holds(t, RowOrEmpty(RoutingRow(r))) && !FitsTablet(r, t)
    ensures t.endRow.Some?
    ensures Contains(r, k) <==> Contains(Clipped(r, t.endRow.value), k) || Contains(Remaining(r, t.endRow.value), k)
    ensures Contains(Clipped(r, t.endRow.value), k) ==> Before(k, FirstKeyOfRow(t.endRow.value, true))
    ensures Contains(Remaining(r, t.endRow.value), k) ==> !Before(k, FirstKeyOfRow(t.endRow.value, true))
  {
    hide Compare, CompareKeys;
    var end := t.endRow.value;
    var bound := FirstKeyOfRow(end, true);
    KeysAntisymmetric(bound, k);
    if Before(k, bound) {
      if r.endKey.Some? { EndBeyondTablet(r, end, k); }
    } else {
      StartWithinTablet(r, end, k);
    }
  }

  // ---- When a range stays inside its tablet ----

  /** The end that `FitsTablet` misjudges: a key, excluded, in the row right after the tablet. */
  predicate EndsJustPast(r: Range, t: Extent) {
    && r.endKey.Some? && t.endRow.Some? && !r.endRowOnly && !r.endInclusive
    && r.endKey.value.row == Successor(t.endRow.value)
    && r.endKey.value != FirstKeyOfRow(t.endRow.value, true)
  }

  lemma KeyAtOrAfterStart(r: Range, t: Extent, k: Key)
    requires Holds(t, RowOrEmpty(RoutingRow(r))) && !BeforeStart(r, k)
    ensures t.prevRow.Some? ==> !AtMost(k.row, t.prevRow.value)
  {
    if t.prevRow.Some? {
      var prev := t.prevRow.value;
      if r.startKey.Some? {
        var start := EffectiveStart(r).0.value;
        assert AtMost(start.row, k.row) by { KeysAntisymmetric(k, start); CompareAntisymmetric(k.row, start.row); }
        if AtMost(k.row, prev) { CompareTransitive(start.row, k.row, prev); }
      }
    }
  }

  /** Inside a fitting range every live key is in a row of the tablet, except past the misjudged end. */
  lemma FittingKeysInside(r: Range, t: Extent, k: Key)
    requires Holds(t, RowOrEmpty(RoutingRow(r))) && FitsTablet(r, t) && !EndsJustPast(r, t)
    requires !k.deleted && Contains(r, k)
    ensures Holds(t, k.row)
  {
    KeyAtOrAfterStart(r, t, k);
    if t.endRow.Some? {
      var end, bound := t.endRow.value, FirstKeyOfRow(t.endRow.value, true);
      FirstKeyFollows(end, k);
      if !Before(k, bound) {
        FitsBound(r, t, k);
      }
    }
  }

  lemma FitsBound(r: Range, t: Extent, k: Key)
    requires t.endRow.Some? && FitsTablet(r, t) && !EndsJustPast(r, t)
    requires !Before(k, FirstKeyOfRow(t.endRow.value, true))
    ensures AfterEnd(r, k)
  {
    var end, bound := t.endRow.value, FirstKeyOfRow(t.endRow.value, true);
    var row, last := r.endKey.value.row, EffectiveEnd(r).0.value;
    KeysAntisymmetric(k, bound);
    SuccessorMonotone(row, end);
    CompareEqual(row, Successor(end));
    SuccessorIsNext(end, row);
    if r.endRowOnly {
      FirstKeyFollows(end, last);
      CompareEqual(last.row, Successor(end));
      KeysEqual(last, bound);
      assert CompareKeys(last, bound) <= 0;
      KeysTransitive(last, bound, k);
    } else if r.endInclusive {
      FirstKeyFollows(end, last);
      KeysTransitive(last, bound, k);
    } else if row == Successor(end) {
      KeysEqual(last, bound);
    } else {
      CompareAntisymmetric(end, row);
      FirstKeyFollows(end, last);
      KeysTransitive(last, bound, k);
    }
  }

  /**
   A range that fits its tablet holds only live keys of the tablet if and only
   if it does not end just past it; otherwise the first key after the tablet is
   in the range.
   */
  lemma FitsMeansInside(r: Range, t: Extent)
    requires LiveBounds(r) && Holds(t, RowOrEmpty(RoutingRow(r))) && FitsTablet(r, t)
    ensures (forall k: Key | !k.deleted && Contains(r, k) :: Holds(t, k.row)) <==> !EndsJustPast(r, t)
  {
    if EndsJustPast(r, t) {
      var end, k := t.endRow.value, FirstKeyOfRow(t.endRow.value, true);
      KeysEqual(k, k);
      StartWithinTablet(r, end, k);
      FirstKeyIsFirst(Successor(end), r.endKey.value);
      KeysEqual(k, r.endKey.value);
      CompareEqual(k.row, r.endKey.value.row);
      KeysAntisymmetric(k, r.endKey.value);
      assert Contains(r, k);
      SuccessorIsNext(end, end);
      CompareEqual(end, end);
      CompareAntisymmetric(end, Successor(end));
    } else {
      forall k: Key | !k.deleted && Contains(r, k) ensures Holds(t, k.row) {
        FittingKeysInside(r, t, k);
      }
    }
  }

  /**
   A range fits a tablet if and only if no live key before its end is in a row
   past the tablet, or it ends just past it. So it is never split for nothing.
   */
  lemma FitsExactlyWhen(r: Range, t: Extent)
    requires LiveBounds(r)
    ensures FitsTablet(r, t) <==>
            t.endRow.None? || EndsJustPast(r, t) ||
            forall k: Key | !k.deleted && !AfterEnd(r, k) :: AtMost(k.row, t.endRow.value)
  {
    if t.endRow.Some? {
      var end, bound := t.endRow.value, FirstKeyOfRow(t.endRow.value, true);
      if FitsTablet(r, t) && !EndsJustPast(r, t) {
        forall k: Key | !k.deleted && !AfterEnd(r, k) ensures AtMost(k.row, end) {
          FirstKeyFollows(end, k);
          if !Before(k, bound) { FitsBound(r, t, k); }
        }
      } else if !FitsTablet(r, t) {
        MisfitReaches(r, end);
        SuccessorIsNext(end, end);
        CompareEqual(end, end);
        CompareAntisymmetric(end, Successor(end));
        JustPastMisfit(r, t);
        assert !bound.deleted && !AfterEnd(r, bound) && !AtMost(bound.row, end);
      } else {
        JustPastFits(r, t);
      }
    }
  }

  lemma JustPastMisfit(r: Range, t: Extent)
    requires !FitsTablet(r, t)
    ensures !EndsJustPast(r, t)
  {
    if EndsJustPast(r, t) { JustPastFits(r, t); }
  }

  lemma JustPastFits(r: Range, t: Extent)
    requires EndsJustPast(r, t)
    ensures FitsTablet(r, t)
  {
    CompareEqual(r.endKey.value.row, Successor(t.endRow.value));
  }

  /** A range that does not fit holds the first key after the tablet, as far as its end is concerned. */
  lemma MisfitReaches(r: Range, end: Row)
    requires LiveBounds(r)
    requires r.endKey.Some? ==>
               var stop := if r.endInclusive then Successor(r.endKey.value.row) else r.endKey.value.row;
               !AtMost(stop, Successor(end))
    ensures !AfterEnd(r, FirstKeyOfRow(end, true))
  {
    if r.endKey.Some? {
      var bound, row, last := FirstKeyOfRow(end, true), r.endKey.value.row, EffectiveEnd(r).0.value;
      SuccessorMonotone(row, end);
      SuccessorIsNext(end, row);
      CompareAntisymmetric(end, row);
      CompareAntisymmetric(Successor(end), row);
      KeysAntisymmetric(bound, last);
      FirstKeyIsFirst(Successor(end), last);
      if r.endRowOnly {
        if r.endInclusive { FirstKeyFollows(row, bound); } else { FirstKeyIsFirst(row, bound); }
      }
    }
  }
}
