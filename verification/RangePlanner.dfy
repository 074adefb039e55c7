/** Splitting scan ranges at tablet boundaries. */
module RangePlanner {
  import opened Wrappers
  import opened Bytes
  import opened Keys
  import opened TabletExtents
  import opened Ranges

  datatype Segment = Segment(routingRow: Option<Row>, tablet: Extent, range: Range)

  // ---- The tablet map ----

  /** Tablets in row order, each starting where the one before it ends, covering every row. */
  predicate GapFree(ts: seq<Extent>) {
    && ts != [] && ts[0].prevRow.None? && ts[|ts| - 1].endRow.None?
    && (forall i | 0 <= i < |ts| - 1 :: ts[i].endRow.Some? && ts[i + 1].prevRow == ts[i].endRow)
    && (forall i | 0 <= i < |ts| :: ts[i].prevRow.Some? && ts[i].endRow.Some? ==>
          Less(ts[i].prevRow.value, ts[i].endRow.value))
  }

  predicate EndsAtOrAfter(t: Extent, row: Row) { t.endRow.None? || AtMost(row, t.endRow.value) }

  /** `LocateTablet`: the tablet of the map that holds the row. */
  function LocateFrom(ts: seq<Extent>, row: Row, i: nat): (j: nat)
    requires GapFree(ts) && i < |ts| && (i > 0 ==> !AtMost(row, ts[i - 1].endRow.value))
    ensures i <= j < |ts| && Holds(ts[j], row)
    decreases |ts| - i
  {
    if EndsAtOrAfter(ts[i], row) then i else LocateFrom(ts, row, i + 1)
  }

  function Locate(ts: seq<Extent>, row: Row): (j: nat)
    requires GapFree(ts)
    ensures j < |ts| && Holds(ts[j], row)
  {
    LocateFrom(ts, row, 0)
  }

  /** End rows ascend along the map. */
  lemma {:induction false} EndsAscend(ts: seq<Extent>, i: nat, j: nat)
    requires GapFree(ts) && i <= j < |ts| - 1
    ensures AtMost(ts[i].endRow.value, ts[j].endRow.value)
  {
    if i < j {
      EndsAscend(ts, i, j - 1);
      assert ts[j - 1].endRow == ts[j].prevRow;
      CompareTransitive(ts[i].endRow.value, ts[j - 1].endRow.value, ts[j].endRow.value);
    } else {
      CompareEqual(ts[i].endRow.value, ts[i].endRow.value);
    }
  }

  /** The row after a tablet's end is in a later tablet. */
  lemma LocateAdvances(ts: seq<Extent>, i: nat)
    requires GapFree(ts) && i < |ts| && ts[i].endRow.Some?
    ensures Locate(ts, Successor(ts[i].endRow.value)) > i
  {
    var end := ts[i].endRow.value;
    var j := Locate(ts, Successor(end));
    if j <= i {
      EndsAscend(ts, j, i);
      CompareTransitive(Successor(end), ts[j].endRow.value, end);
      SuccessorIsNext(end, end);
      CompareEqual(end, end);
    }
  }

  // ---- Planning ----

  /**
   The answers to the calls of `LocateTablet`, one per call, as the tablets
   split and move in between. None is a location failure, and so is an answer
   that does not hold the row asked for or a list that has run out.
   */
  type Answers = seq<Option<Extent>>

  predicate Answered(answers: Answers, row: Option<Row>) {
    answers != [] && answers[0].Some? && Holds(answers[0].value, RowOrEmpty(row))
  }

  /** The segments and the answers not used. */
  datatype Planned = Planned(segments: seq<Segment>, left: Answers)

  /** `planBatchScan` for one range; None when a tablet could not be located. */
  function PlanRange(answers: Answers, r: Range): Option<Planned> {
    if !Answered(answers, RoutingRow(r)) then None
    else
      var t, left := answers[0].value, answers[1..];
      if FitsTablet(r, t) then Some(Planned([Segment(RoutingRow(r), t, r)], left))
      else
        var end := t.endRow.value;
        var rest := PlanRange(left, Remaining(r, end));
        if rest.None? then None
        else Some(Planned([Segment(RoutingRow(r), t, Clipped(r, end))] + rest.value.segments, rest.value.left))
  }

  datatype PlanError = NilRange(index: nat) | NotLocated(index: nat)

  /** All ranges, in order; a nil range is an error. */
  function PlanRanges(answers: Answers, ranges: seq<Option<Range>>): Result<Planned, PlanError> {
    if ranges == [] then Ok(Planned([], answers))
    else
      var n := |ranges| - 1;
      var front :- PlanRanges(answers, ranges[..n]);
      if ranges[n].None? then Err(NilRange(n))
      else
        var last := PlanRange(front.left, ranges[n].value);
        if last.None? then Err(NotLocated(n))
        else Ok(Planned(front.segments + last.value.segments, last.value.left))
  }

  /** `planBatchScan`: the loop over ranges around the loop over tablets. */
  method PlanBatchScan(answers: Answers, ranges: seq<Option<Range>>) returns (r: Result<Planned, PlanError>)
    ensures r == PlanRanges(answers, ranges)
  {
    hide PlanRange;
    var segments: seq<Segment>, left := [], answers;
    for index := 0 to |ranges|
      invariant PlanRanges(answers, ranges[..index]) == Ok(Planned(segments, left))
    {
      PlanRangesStep(answers, ranges, index);
      if ranges[index].None? {
        return Err(NilRange(index));
      }
      var planned := PlanOneRange(left, ranges[index].value);
      if planned.None? {
        return Err(NotLocated(index));
      }
      segments, left := segments + planned.value.segments, planned.value.left;
    }
    assert ranges[..|ranges|] == ranges;
    r := Ok(Planned(segments, left));
  }

  lemma PlanRangesStep(answers: Answers, ranges: seq<Option<Range>>, n: nat)
    requires n < |ranges| && PlanRanges(answers, ranges[..n]).Ok?
    ensures var front := PlanRanges(answers, ranges[..n]).value;
            if ranges[n].None? then PlanRanges(answers, ranges) == Err(NilRange(n))
            else if PlanRange(front.left, ranges[n].value).None? then PlanRanges(answers, ranges) == Err(NotLocated(n))
            else
              var last := PlanRange(front.left, ranges[n].value).value;
              PlanRanges(answers, ranges[..n + 1]) == Ok(Planned(front.segments + last.segments, last.left))
  {
    hide PlanRange;
    assert ranges[..n + 1][..n] == ranges[..n];
    if PlanRanges(answers, ranges[..n + 1]).Err? {
      PlanRangesStop(answers, ranges, n + 1);
    }
  }

  lemma {:induction false} PlanRangesStop(answers: Answers, ranges: seq<Option<Range>>, n: nat)
    requires n <= |ranges| && PlanRanges(answers, ranges[..n]).Err?
    ensures PlanRanges(answers, ranges) == PlanRanges(answers, ranges[..n])
  {
    hide PlanRange;
    if n == |ranges| {
      assert ranges[..n] == ranges;
    } else {
      var front := ranges[..|ranges| - 1];
      assert front[..n] == ranges[..n];
      PlanRangesStop(answers, front, n);
    }
  }

  method PlanOneRange(answers: Answers, scanRange: Range) returns (planned: Option<Planned>)
    ensures planned == PlanRange(answers, scanRange)
  {
    hide FitsTablet, PlanRange, RoutingRow;
    var segments: seq<Segment>, left := [], answers;
    var remaining := scanRange;
    AfterNothing(PlanRange(answers, scanRange));
    while true
      invariant PlanRange(answers, scanRange) == After(segments, PlanRange(left, remaining))
      decreases |left|
    {
      var routingRow := RoutingRow(remaining);
      PlanStep(left, remaining);
      if !Answered(left, routingRow) {
        return None;
      }
      var tablet := left[0].value;
      left := left[1..];
      if FitsTablet(remaining, tablet) {
        return Some(Planned(segments + [Segment(routingRow, tablet, remaining)], left));
      }
      MisfitIsBounded(remaining, tablet);
      var end := tablet.endRow.value;
      var segment := Segment(routingRow, tablet, Clipped(remaining, end));
      AfterAfter(segments, [segment], PlanRange(left, Remaining(remaining, end)));
      segments := segments + [segment];
      remaining := Remaining(remaining, end);
    }
  }

  /** Segments planned before the rest of a plan. */
  function After(front: seq<Segment>, rest: Option<Planned>): Option<Planned> {
    if rest.None? then None else Some(Planned(front + rest.value.segments, rest.value.left))
  }

  lemma AfterNothing(rest: Option<Planned>)
    ensures After([], rest) == rest
  {
    if rest.Some? {
      assert [] + rest.value.segments == rest.value.segments;
    }
  }

  lemma AfterAfter(a: seq<Segment>, b: seq<Segment>, rest: Option<Planned>)
    ensures After(a, After(b, rest)) == After(a + b, rest)
  {
    if rest.Some? {
      assert a + (b + rest.value.segments) == (a + b) + rest.value.segments;
    }
  }

  lemma PlanStep(answers: Answers, r: Range)
    ensures PlanRange(answers, r) ==
            if !Answered(answers, RoutingRow(r)) then None
            else if FitsTablet(r, answers[0].value) then
              Some(Planned([Segment(RoutingRow(r), answers[0].value, r)], answers[1..]))
            else
              var t, end := answers[0].value, answers[0].value.endRow.value;
              After([Segment(RoutingRow(r), t, Clipped(r, end))], PlanRange(answers[1..], Remaining(r, end)))
  {
  }

  lemma MisfitIsBounded(r: Range, t: Extent)
    requires !FitsTablet(r, t)
    ensures t.endRow.Some?
  {
  }

  // ---- On one map, planning ends ----

  /** The answers a map that does not change gives while a range is planned. */
  function MapAnswers(ts: seq<Extent>, r: Range): Answers
    requires GapFree(ts)
    decreases |ts| - Locate(ts, RowOrEmpty(RoutingRow(r)))
  {
    var i := Locate(ts, RowOrEmpty(RoutingRow(r)));
    if FitsTablet(r, ts[i]) then [Some(ts[i])]
    else
      LocateAdvances(ts, i);
      [Some(ts[i])] + MapAnswers(ts, Remaining(r, ts[i].endRow.value))
  }

  /** On a gap-free map every range is planned, with at most one call for each tablet. */
  lemma {:induction false} PlanningEnds(ts: seq<Extent>, r: Range)
    requires GapFree(ts)
    ensures var answers := MapAnswers(ts, r);
            && |answers| <= |ts| - Locate(ts, RowOrEmpty(RoutingRow(r)))
            && (forall i | 0 <= i < |answers| :: answers[i].Some? && answers[i].value in ts)
            && PlanRange(answers, r).Some? && PlanRange(answers, r).value.left == []
    decreases |ts| - Locate(ts, RowOrEmpty(RoutingRow(r)))
  {
    hide FitsTablet, RoutingRow, Locate, PlanRange;
    var i := Locate(ts, RowOrEmpty(RoutingRow(r)));
    var answers := MapAnswers(ts, r);
    PlanStep(answers, r);
    if FitsTablet(r, ts[i]) {
      assert answers[1..] == [];
    } else {
      MisfitIsBounded(r, ts[i]);
      LocateAdvances(ts, i);
      RoutesPast(r, ts[i].endRow.value);
      PlanningEnds(ts, Remaining(r, ts[i].endRow.value));
      assert answers[1..] == MapAnswers(ts, Remaining(r, ts[i].endRow.value));
    }
  }

  lemma RoutesPast(r: Range, end: Row)
    ensures RowOrEmpty(RoutingRow(Remaining(r, end))) == Successor(end)
  {
  }

  // ---- Partition ----

  /** How many segments contain a key. */
  function Covering(segments: seq<Segment>, k: Key): nat {
    if segments == [] then 0 else (if Contains(segments[0].range, k) then 1 else 0) + Covering(segments[1..], k)
  }

  /**
   The segments partition the range, however the tablets change between two
   calls of the locator: a key of the range is in exactly one of them, any
   other key in none.
   */
  lemma {:induction false} SegmentsPartition(answers: Answers, r: Range, k: Key)
    requires LiveBounds(r) && PlanRange(answers, r).Some?
    ensures Covering(PlanRange(answers, r).value.segments, k) == if Contains(r, k) then 1 else 0
  {
    hide FitsTablet, Contains, LiveBounds, PlanRange, RoutingRow;
    PlanStep(answers, r);
    var t, segments := answers[0].value, PlanRange(answers, r).value.segments;
    if FitsTablet(r, t) {
      assert segments[1..] == [];
    } else {
      ClipSplits(r, t, k);
      var rest := Remaining(r, t.endRow.value);
      RemainingLive(r, t.endRow.value);
      SegmentsPartition(answers[1..], rest, k);
      assert segments[1..] == PlanRange(answers[1..], rest).value.segments;
    }
  }

  lemma RemainingLive(r: Range, end: Row)
    requires LiveBounds(r)
    ensures LiveBounds(Remaining(r, end)) && LiveBounds(Clipped(r, end))
  {
  }

  lemma {:induction false} CoveredBySome(segments: seq<Segment>, k: Key, j: nat)
    requires j < |segments| && Contains(segments[j].range, k)
    ensures Covering(segments, k) >= 1
  {
    if j > 0 {
      CoveredBySome(segments[1..], k, j - 1);
    }
  }

  /** Segments are in key order: every key of one precedes every key of a later one. */
  lemma {:induction false} SegmentsAscend(answers: Answers, r: Range, i: nat, j: nat, a: Key, b: Key)
    requires LiveBounds(r) && PlanRange(answers, r).Some? && i < j < |PlanRange(answers, r).value.segments|
    requires Contains(PlanRange(answers, r).value.segments[i].range, a)
    requires Contains(PlanRange(answers, r).value.segments[j].range, b)
    ensures Before(a, b)
  {
    hide FitsTablet, Contains, LiveBounds, CompareKeys, PlanRange, RoutingRow, Covering;
    PlanStep(answers, r);
    var t, segments := answers[0].value, PlanRange(answers, r).value.segments;
    MisfitIsBounded(r, t);
    var end := t.endRow.value;
    var rest := PlanRange(answers[1..], Remaining(r, end)).value.segments;
    RemainingLive(r, end);
    assert segments[1..] == rest;
    if i > 0 {
      SegmentsAscend(answers[1..], Remaining(r, end), i - 1, j - 1, a, b);
    } else {
      ClipSplits(r, t, a);
      assert rest[j - 1] == segments[j];
      CoveredBySome(rest, b, j - 1);
      SegmentsPartition(answers[1..], Remaining(r, end), b);
      ClipSplits(r, t, b);
      var bound := FirstKeyOfRow(end, true);
      KeysAntisymmetric(b, bound);
      KeysTransitive(a, bound, b);
    }
  }

  // ---- Each segment and its tablet ----

  /** What the planner promises of each segment: routed into its tablet, and fitting it. */
  predicate Placed(s: Segment) {
    && s.routingRow == RoutingRow(s.range) && LiveBounds(s.range)
    && Holds(s.tablet, RowOrEmpty(s.routingRow)) && FitsTablet(s.range, s.tablet)
  }

  /** The range ends in a key, excluded, of a row ending in NUL, and starts no later than the row before. */
  predicate MayEndJustPast(r: Range) {
    && r.endKey.Some? && !r.endRowOnly && !r.endInclusive
    && var row := r.endKey.value.row;
       && row != [] && row[|row| - 1] == 0 && r.endKey.value != FirstKeyOfRow(row, false)
       && AtMost(RowOrEmpty(RoutingRow(r)), row[..|row| - 1])
  }

  lemma ClippedFits(r: Range, t: Extent)
    requires t.endRow.Some? && Holds(t, RowOrEmpty(RoutingRow(r))) && LiveBounds(r)
    ensures Placed(Segment(RoutingRow(r), t, Clipped(r, t.endRow.value)))
  {
    var end := t.endRow.value;
    CompareEqual(Successor(end), Successor(end));
  }

  lemma RemainingKeepsEnd(r: Range, t: Extent)
    requires t.endRow.Some? && Holds(t, RowOrEmpty(RoutingRow(r))) && !MayEndJustPast(r)
    ensures !MayEndJustPast(Remaining(r, t.endRow.value)) && !MayEndJustPast(Clipped(r, t.endRow.value))
  {
    var end := t.endRow.value;
    var rest := Remaining(r, end);
    if MayEndJustPast(rest) {
      var row := r.endKey.value.row;
      SuccessorIsNext(end, end);
      CompareEqual(end, end);
      CompareAntisymmetric(end, Successor(end));
      CompareTransitive(RowOrEmpty(RoutingRow(r)), end, Successor(end));
      CompareTransitive(RowOrEmpty(RoutingRow(r)), Successor(end), row[..|row| - 1]);
    }
  }

  lemma {:induction false} SegmentsPlaced(answers: Answers, r: Range)
    requires LiveBounds(r) && PlanRange(answers, r).Some?
    ensures forall s | s in PlanRange(answers, r).value.segments :: Placed(s)
    ensures !MayEndJustPast(r) ==> forall s | s in PlanRange(answers, r).value.segments :: !MayEndJustPast(s.range)
  {
    hide MayEndJustPast, PlanRange, FitsTablet, Holds, LiveBounds;
    PlanStep(answers, r);
    var t := answers[0].value;
    if !FitsTablet(r, t) {
      MisfitIsBounded(r, t);
      var end := t.endRow.value;
      RemainingLive(r, end);
      ClippedFits(r, t);
      if !MayEndJustPast(r) { RemainingKeepsEnd(r, t); }
      SegmentsPlaced(answers[1..], Remaining(r, end));
    }
  }

  /** A placed segment holds only live keys of its tablet when its range cannot end just past one. */
  lemma SegmentInside(s: Segment, k: Key)
    requires Placed(s) && !MayEndJustPast(s.range) && !k.deleted && Contains(s.range, k)
    ensures Holds(s.tablet, k.row)
  {
    JustPastIsAnticipated(s);
    FittingKeysInside(s.range, s.tablet, k);
  }

  lemma JustPastIsAnticipated(s: Segment)
    requires Placed(s)
    ensures EndsJustPast(s.range, s.tablet) ==> MayEndJustPast(s.range)
  {
    if EndsJustPast(s.range, s.tablet) {
      var end, row := s.tablet.endRow.value, s.range.endKey.value.row;
      assert row[..|row| - 1] == end;
    }
  }

  predicate Inside(s: Segment, k: Key) { !k.deleted && Contains(s.range, k) ==> Holds(s.tablet, k.row) }

  predicate AllInside(segments: seq<Segment>, k: Key) { forall s | s in segments :: Inside(s, k) }

  /** Whatever the locator answers, every segment stays inside its tablet. */
  ghost predicate AlwaysInside(r: Range) {
    forall answers, k: Key | PlanRange(answers, r).Some? :: AllInside(PlanRange(answers, r).value.segments, k)
  }

  /** The same on every map that does not change. */
  ghost predicate InsideOnMaps(r: Range) {
    forall ts, k: Key | GapFree(ts) && PlanRange(MapAnswers(ts, r), r).Some? ::
      AllInside(PlanRange(MapAnswers(ts, r), r).value.segments, k)
  }

  /**
   Every segment stays inside its tablet exactly when the range cannot end just
   past a tablet; tablets that do not change make no difference to that.
   */
  lemma PlansStayInside(r: Range)
    requires LiveBounds(r)
    ensures AlwaysInside(r) <==> !MayEndJustPast(r)
    ensures InsideOnMaps(r) <==> !MayEndJustPast(r)
  {
    hide MayEndJustPast, PlanRange, GapFree, Contains, MapAnswers;
    if !MayEndJustPast(r) {
      forall answers, k: Key | PlanRange(answers, r).Some?
        ensures AllInside(PlanRange(answers, r).value.segments, k)
      {
        SegmentsPlaced(answers, r);
        forall s | s in PlanRange(answers, r).value.segments ensures Inside(s, k) {
          if !k.deleted && Contains(s.range, k) { SegmentInside(s, k); }
        }
      }
    } else {
      var ts, k := EscapingMap(r);
      var segments := PlanRange(MapAnswers(ts, r), r).value.segments;
      assert segments[0] in segments && !AllInside(segments, k);
    }
  }

  /** A map with one boundary, right before the range's end row, for which a key escapes. */
  lemma EscapingMap(r: Range) returns (ts: seq<Extent>, k: Key)
    requires LiveBounds(r) && MayEndJustPast(r)
    ensures GapFree(ts) && PlanRange(MapAnswers(ts, r), r).Some?
    ensures var segments := PlanRange(MapAnswers(ts, r), r).value.segments;
            |segments| == 1 && segments[0].range == r && !Inside(segments[0], k)
  {
    var row := r.endKey.value.row;
    var end := row[..|row| - 1];
    assert Successor(end) == row;
    ts := [Extent([], None, Some(end)), Extent([], Some(end), None)];
    assert EndsAtOrAfter(ts[0], RowOrEmpty(RoutingRow(r)));
    assert Locate(ts, RowOrEmpty(RoutingRow(r))) == 0;
    CompareEqual(row, row);
    assert FitsTablet(r, ts[0]);
    FitsMeansInside(r, ts[0]);
    k :| !k.deleted && Contains(r, k) && !Holds(ts[0], k.row);
    assert MapAnswers(ts, r) == [Some(ts[0])];
    PlanStep(MapAnswers(ts, r), r);
  }
}
