/**
 The streaming cursor over planned segments. The table's entries are fixed
 while it is scanned; tablets split and move freely, and servers refuse stale
 extents, cut batches anywhere and fail anywhere. A session opened on a tablet
 returns the entries of the range whose rows the tablet holds, in key order.
 */
module ResultStream {
  import opened Wrappers
  import opened Bytes
  import opened Keys
  import opened TabletExtents
  import opened Ranges
  import opened RangePlanner

  datatype Entry = Entry(key: Key, value: Row)

  /** Live entries in strict key order. */
  predicate SortedTable(table: seq<Entry>) {
    && (forall i | 0 <= i < |table| :: !table[i].key.deleted)
    && (forall i, j | 0 <= i < j < |table| :: Before(table[i].key, table[j].key))
  }

  /** The entries of a range, in key order. */
  function EntriesIn(table: seq<Entry>, r: Range): seq<Entry> {
    if table == [] then []
    else
      var front, last := table[..|table| - 1], table[|table| - 1];
      EntriesIn(front, r) + (if Contains(r, last.key) then [last] else [])
  }

  /** What a session on one tablet returns. */
  function TabletEntries(table: seq<Entry>, t: Extent, r: Range): seq<Entry> {
    if table == [] then []
    else
      var front, last := table[..|table| - 1], table[|table| - 1];
      TabletEntries(front, t, r) + (if Contains(r, last.key) && Holds(t, last.key.row) then [last] else [])
  }

  // ---- Plans lose nothing and repeat nothing ----

  lemma {:induction false} NothingBeyond(table: seq<Entry>, r: Range)
    requires forall i | 0 <= i < |table| :: !Contains(r, table[i].key)
    ensures EntriesIn(table, r) == []
  {
    if table != [] {
      NothingBeyond(table[..|table| - 1], r);
    }
  }

  /** Clipping a range at a tablet splits its entries into a front and a back. */
  lemma {:induction false} SplitEntries(table: seq<Entry>, r: Range, t: Extent)
    requires SortedTable(table) && LiveBounds(r)
    requires Holds(t, RowOrEmpty(RoutingRow(r))) && !FitsTablet(r, t) && t.endRow.Some?
    ensures EntriesIn(table, Clipped(r, t.endRow.value)) + EntriesIn(table, Remaining(r, t.endRow.value)) ==
            EntriesIn(table, r)
  {
    hide FitsTablet, Contains, CompareKeys, RoutingRow, LiveBounds, Clipped, Remaining;
    if table != [] {
      var front, last := table[..|table| - 1], table[|table| - 1];
      var end := t.endRow.value;
      SplitEntries(front, r, t);
      ClipSplits(r, t, last.key);
      var low, high := EntriesIn(front, Clipped(r, end)), EntriesIn(front, Remaining(r, end));
      Associate(low, high, [last]);
      if Contains(Clipped(r, end), last.key) {
        forall i | 0 <= i < |front| ensures !Contains(Remaining(r, end), front[i].key) {
          ClipSplits(r, t, front[i].key);
          assert Before(table[i].key, last.key);
          KeysTransitive(front[i].key, last.key, FirstKeyOfRow(end, true));
        }
        NothingBeyond(front, Remaining(r, end));
      }
    }
  }

  /** The entries of several segments, one after the other. */
  function SegmentEntries(table: seq<Entry>, segments: seq<Segment>): seq<Entry> {
    if segments == [] then [] else EntriesIn(table, segments[0].range) + SegmentEntries(table, segments[1..])
  }

  /** Reading a plan segment by segment reads the range, wherever the tablets were when it was made. */
  lemma {:induction false} PlanReadsRange(table: seq<Entry>, answers: Answers, r: Range)
    requires SortedTable(table) && LiveBounds(r) && PlanRange(answers, r).Some?
    ensures SegmentEntries(table, PlanRange(answers, r).value.segments) == EntriesIn(table, r)
  {
    hide PlanRange, RoutingRow, FitsTablet, LiveBounds, EntriesIn;
    PlanStep(answers, r);
    var t, segments := answers[0].value, PlanRange(answers, r).value.segments;
    if FitsTablet(r, t) {
      assert segments[1..] == [];
    } else {
      MisfitIsBounded(r, t);
      var rest := Remaining(r, t.endRow.value);
      RemainingLive(r, t.endRow.value);
      PlanReadsRange(table, answers[1..], rest);
      SplitEntries(table, r, t);
      assert segments[1..] == PlanRange(answers[1..], rest).value.segments;
    }
  }

  /** A tablet that the range fits returns the whole range. */
  lemma {:induction false} TabletReadsRange(table: seq<Entry>, s: Segment)
    requires SortedTable(table) && Placed(s) && !MayEndJustPast(s.range)
    ensures TabletEntries(table, s.tablet, s.range) == EntriesIn(table, s.range)
  {
    if table != [] {
      hide Contains, Placed, MayEndJustPast, Holds;
      var front, last := table[..|table| - 1], table[|table| - 1];
      TabletReadsRange(front, s);
      if Contains(s.range, last.key) { SegmentInside(s, last.key); }
    }
  }

  /** What the tablets of a plan return between them. */
  function PlanReturns(table: seq<Entry>, segments: seq<Segment>): seq<Entry> {
    if segments == [] then []
    else TabletEntries(table, segments[0].tablet, segments[0].range) + PlanReturns(table, segments[1..])
  }

  lemma {:induction false} ReturnsEntries(table: seq<Entry>, segments: seq<Segment>)
    requires SortedTable(table) && forall s | s in segments :: Placed(s) && !MayEndJustPast(s.range)
    ensures PlanReturns(table, segments) == SegmentEntries(table, segments)
  {
    hide TabletEntries, EntriesIn, Placed, MayEndJustPast, SortedTable;
    if segments != [] {
      assert segments[0] in segments;
      TabletReadsRange(table, segments[0]);
      ReturnsEntries(table, segments[1..]);
    }
  }

  /** The tablets of every plan return the range's entries, whatever the table and the locator's answers. */
  ghost predicate AlwaysComplete(r: Range) {
    forall table, answers | SortedTable(table) && PlanRange(answers, r).Some? ::
      PlanReturns(table, PlanRange(answers, r).value.segments) == EntriesIn(table, r)
  }

  /** The same on every map that does not change. */
  ghost predicate CompleteOnMaps(r: Range) {
    forall table, ts | SortedTable(table) && GapFree(ts) && PlanRange(MapAnswers(ts, r), r).Some? ::
      PlanReturns(table, PlanRange(MapAnswers(ts, r), r).value.segments) == EntriesIn(table, r)
  }

  /** Both hold exactly when the range cannot end just past a tablet. */
  lemma CompleteExactlyWhen(r: Range)
    requires LiveBounds(r)
    ensures AlwaysComplete(r) <==> !MayEndJustPast(r)
    ensures CompleteOnMaps(r) <==> !MayEndJustPast(r)
  {
    hide PlanRange, EntriesIn, TabletEntries, MayEndJustPast, SortedTable, GapFree, MapAnswers;
    if !MayEndJustPast(r) {
      forall table, answers | SortedTable(table) && PlanRange(answers, r).Some?
        ensures PlanReturns(table, PlanRange(answers, r).value.segments) == EntriesIn(table, r)
      {
        SegmentsPlaced(answers, r);
        ReturnsEntries(table, PlanRange(answers, r).value.segments);
        PlanReadsRange(table, answers, r);
      }
    } else {
      var table, ts := LostEntry(r);
    }
  }

  /** A table of one entry and a map of two tablets that lose it. */
  lemma LostEntry(r: Range) returns (table: seq<Entry>, ts: seq<Extent>)
    requires LiveBounds(r) && MayEndJustPast(r)
    ensures SortedTable(table) && GapFree(ts) && PlanRange(MapAnswers(ts, r), r).Some?
    ensures PlanReturns(table, PlanRange(MapAnswers(ts, r), r).value.segments) != EntriesIn(table, r)
  {
    var k;
    ts, k := EscapingMap(r);
    hide PlanRange, Contains, Holds, MapAnswers;
    var segments := PlanRange(MapAnswers(ts, r), r).value.segments;
    table := [Entry(k, [])];
    OneEntry(table[0], segments[0]);
    assert segments[1..] == [] && table[..0] == [];
  }

  lemma OneEntry(e: Entry, s: Segment)
    ensures TabletEntries([e], s.tablet, s.range) ==
            if Contains(s.range, e.key) && Holds(s.tablet, e.key.row) then [e] else []
  {
    hide Contains, Holds;
    assert [e][..0] == [];
    assert TabletEntries([], s.tablet, s.range) == [];
  }

  // ---- Sources, sessions and the environment ----

  /** A planned segment waiting to be opened. */
  datatype Source = Source(segment: Segment, replannable: bool, replans: nat)

  /** An open server-side scan and what it has still to return. */
  datatype Session = Session(rest: seq<Entry>)

  datatype Error = ScanFailed | RangeSpansTablets | InvalidateFailed | LocateFailed | StreamClosed | ContextDone

  const MAX_REPLANS: nat := 3

  /** How a start ends; a tablet without a server is not started. */
  datatype StartReply = Unhosted | Started | Stale | Refused

  /** Everything that may happen while one source is opened, tablets moving between any two calls. */
  datatype Opening = Opening(
    first: StartReply, invalidateFails: bool, relocated: Answers, second: StartReply, replanned: Answers)

  /** A fetch: at most `count` entries, or everything left when the server says there is no more. */
  datatype Fetching = Fetching(count: nat, more: bool, fails: bool)

  /** One turn of the loop in Next. */
  datatype Turn = Turn(opening: Opening, fetching: Fetching)

  datatype Opened = OpenedSession(session: Session) | Replanned(sources: seq<Source>) | OpenFailed(error: Error)

  /** A source's segment is placed, and its range cannot end just past a tablet. */
  predicate Ready(s: Source) { Placed(s.segment) && !MayEndJustPast(s.segment.range) }

  function SourceEntries(table: seq<Entry>, sources: seq<Source>): seq<Entry> {
    if sources == [] then [] else EntriesIn(table, sources[0].segment.range) + SourceEntries(table, sources[1..])
  }

  lemma Associate(a: seq<Entry>, b: seq<Entry>, c: seq<Entry>)
    ensures (a + b) + c == a + (b + c)
  {
  }

  lemma {:induction false} SourceEntriesConcat(table: seq<Entry>, a: seq<Source>, b: seq<Source>)
    ensures SourceEntries(table, a + b) == SourceEntries(table, a) + SourceEntries(table, b)
  {
    hide EntriesIn;
    if a == [] {
      assert a + b == b;
    } else {
      SourceEntriesConcat(table, a[1..], b);
      assert (a + b)[1..] == a[1..] + b;
      Associate(EntriesIn(table, a[0].segment.range), SourceEntries(table, a[1..]), SourceEntries(table, b));
    }
  }

  function SourcesOf(segments: seq<Segment>, replannable: bool, replans: nat): seq<Source> {
    seq(|segments|, i requires 0 <= i < |segments| => Source(segments[i], replannable, replans))
  }

  lemma {:induction false} SourcesOfEntries(table: seq<Entry>, segments: seq<Segment>, replannable: bool, replans: nat)
    ensures SourceEntries(table, SourcesOf(segments, replannable, replans)) == SegmentEntries(table, segments)
  {
    if segments != [] {
      SourcesOfEntries(table, segments[1..], replannable, replans);
      assert SourcesOf(segments, replannable, replans)[1..] == SourcesOf(segments[1..], replannable, replans);
    }
  }

  /** A range planned again is the same entries in the same order. */
  lemma ReplanKeepsEntries(table: seq<Entry>, answers: Answers, r: Range, replannable: bool, replans: nat)
    requires SortedTable(table) && LiveBounds(r) && !MayEndJustPast(r) && PlanRange(answers, r).Some?
    ensures var sources := SourcesOf(PlanRange(answers, r).value.segments, replannable, replans);
            && SourceEntries(table, sources) == EntriesIn(table, r)
            && forall i | 0 <= i < |sources| :: Ready(sources[i])
  {
    hide PlanRange, MayEndJustPast, Placed, EntriesIn, SourceEntries, SegmentEntries;
    var segments := PlanRange(answers, r).value.segments;
    SourcesOfEntries(table, segments, replannable, replans);
    PlanReadsRange(table, answers, r);
    SegmentsPlaced(answers, r);
    forall i | 0 <= i < |segments| ensures Ready(Source(segments[i], replannable, replans)) {
      assert segments[i] in segments;
    }
  }

  predicate Relocates(source: Source, env: Opening) {
    !env.invalidateFails && Answered(env.relocated, source.segment.routingRow)
  }

  /** `tabletSession.fetch`: the batch, what is left, whether there is more, whether it failed. */
  function Fetch(s: Session, f: Fetching): (seq<Entry>, Session, bool, bool) {
    var n := if f.fails || f.more then (if f.count < |s.rest| then f.count else |s.rest|) else |s.rest|;
    (s.rest[..n], Session(s.rest[n..]), f.more && !f.fails, f.fails)
  }

  /** Servers start every scan and return everything at once. */
  predicate Quiet(turns: seq<Turn>) {
    forall i | 0 <= i < |turns| ::
      turns[i].opening.first.Started? && !turns[i].fetching.fails && !turns[i].fetching.more
  }

  // ---- Schedules that get through ----

  /** The source is started at once, or after one relocation to a tablet its range fits. */
  predicate Starts(source: Source, env: Opening) {
    || env.first.Started?
    || (env.first.Stale? && Relocates(source, env) && env.second.Started? &&
        FitsTablet(source.segment.range, env.relocated[0].value))
  }

  /** It is relocated to a tablet its range does not fit, may be replanned, and every new tablet is located. */
  predicate Replans(source: Source, env: Opening) {
    && env.first.Stale? && Relocates(source, env) && !env.second.Unhosted?
    && !FitsTablet(source.segment.range, env.relocated[0].value)
    && source.replannable && source.replans < MAX_REPLANS
    && PlanRange(env.replanned, source.segment.range).Some?
  }

  /** What is queued, what the open session has left, the batch not handed out, and whether all is done. */
  datatype Position = Position(queue: seq<Source>, open: Option<seq<Entry>>, batch: seq<Entry>, ended: bool)

  /** The sources a replan puts in the place of the first one. */
  function Requeued(queue: seq<Source>, env: Opening): seq<Source>
    requires queue != [] && Replans(queue[0], env)
  {
    SourcesOf(PlanRange(env.replanned, queue[0].segment.range).value.segments, true, queue[0].replans + 1) + queue[1..]
  }

  /** How many entries a server returns of those left. */
  function Batch(f: Fetching, left: nat): nat { if f.more && f.count < left then f.count else left }

  /** A turn goes on, gets to an entry or to the end, or cannot go on. */
  datatype Move = Stuck | Onward(queue: seq<Source>, open: Option<seq<Entry>>) | Arrived(at: Position)

  /**
   One turn: the end, a replan, or a fetch from the session that is open or
   started. Arrived has handed out one entry.
   */
  function OneTurn(table: seq<Entry>, queue: seq<Source>, open: Option<seq<Entry>>, turn: Turn): Move {
    if open.Some? then FetchMove(queue, open.value, turn.fetching)
    else if queue == [] then Arrived(Position([], None, [], true))
    else if Replans(queue[0], turn.opening) then Onward(Requeued(queue, turn.opening), None)
    else if !Starts(queue[0], turn.opening) then Stuck
    else FetchMove(queue[1..], EntriesIn(table, queue[0].segment.range), turn.fetching)
  }

  /** A fetch from a session that has these entries left. */
  function FetchMove(queue: seq<Source>, entries: seq<Entry>, f: Fetching): Move {
    var n := Batch(f, |entries|);
    var kept := if f.more then Some(entries[n..]) else None;
    if f.fails then Stuck
    else if n > 0 then Arrived(Position(queue, kept, entries[1..n], false))
    else Onward(queue, kept)
  }

  /**
   Where these turns lead if they get to an entry or to the end with every source
   started or replanned and no fetch failing; None if they do not.
   */
  function Through(table: seq<Entry>, queue: seq<Source>, open: Option<seq<Entry>>, turns: seq<Turn>): Option<Position>
    decreases |turns|
  {
    if turns == [] then None
    else
      match OneTurn(table, queue, open, turns[0])
      case Stuck => None
      case Onward(later, kept) => Through(table, later, kept, turns[1..])
      case Arrived(at) => Some(at)
  }

  /** Where one call of Next leads, if its turns get through. */
  function AfterNext(table: seq<Entry>, at: Position, turns: seq<Turn>): Option<Position> {
    if at.batch != [] then Some(at.(batch := at.batch[1..]))
    else if at.ended then Some(at)
    else Through(table, at.queue, at.open, turns)
  }

  lemma {:induction false} QuietThrough(
    table: seq<Entry>, queue: seq<Source>, open: Option<seq<Entry>>, turns: seq<Turn>)
    requires Quiet(turns) && |turns| > |queue| + (if open.Some? then 1 else 0)
    ensures var to := Through(table, queue, open, turns);
            to.Some? && to.value.open.None? && |to.value.queue| <= |queue|
    decreases |turns|
  {
    hide EntriesIn, Replans;
    var turn := turns[0];
    assert turn.opening.first.Started? && !turn.fetching.fails && !turn.fetching.more;
    if open.None? && queue != [] {
      StartedStarts(queue[0], turn.opening);
    }
    var first := if queue == [] then [] else EntriesIn(table, queue[0].segment.range);
    var entries := if open.Some? then open.value else first;
    if entries == [] && (open.Some? || queue != []) {
      QuietThrough(table, if open.Some? then queue else queue[1..], None, turns[1..]);
    }
  }

  lemma StartedStarts(source: Source, env: Opening)
    requires env.first.Started?
    ensures Starts(source, env) && !Replans(source, env)
  {
  }

  // ---- The stream ----

  class Stream {
    const table: seq<Entry>
    const expected: seq<Entry>

    var sources: seq<Source>
    var next: nat
    var session: Option<Session>
    var pending: seq<Entry>
    var consumed: nat
    var pendingFatal: Option<Error>
    var current: Option<Entry>
    var fatal: Option<Error>
    var cleanupFailed: bool
    var closed: bool
    var done: bool

    /** Every entry fetched so far, and every entry handed out. */
    var received: seq<Entry>
    var delivered: seq<Entry>
    var opens: nat
    var closes: nat

    /** Everything the stream can still hand out without an error. */
    ghost function Ahead(): seq<Entry>
      requires next <= |sources| && consumed <= |pending|
      reads this
    {
      pending[consumed..] + (if session.Some? then session.value.rest else []) + SourceEntries(table, sources[next..])
    }

    ghost predicate QueueKept()
      reads this
    {
      && SortedTable(table) && next <= |sources| && consumed <= |pending|
      && (forall i | next <= i < |sources| :: Ready(sources[i]))
    }

    /** What the open session has left. */
    ghost function OpenRest(): Option<seq<Entry>>
      reads this
    {
      if session.Some? then Some(session.value.rest) else None
    }

    /** The stream is at this position, with nothing gone wrong. */
    ghost predicate StandsAt(at: Position)
      reads this
    {
      && next <= |sources| && consumed <= |pending|
      && sources[next..] == at.queue && OpenRest() == at.open && pending[consumed..] == at.batch && done == at.ended
      && fatal.None? && pendingFatal.None? && !closed
    }

    /**
     Delivered entries are a prefix of the expected ones; with no error, the rest
     is ahead. Until the stream is closed, whatever was fetched was delivered or
     is pending.
     */
    ghost predicate EntriesKept()
      requires QueueKept()
      reads this
    {
      && (fatal.None? && pendingFatal.None? ==> delivered + Ahead() == expected)
      && delivered + pending[consumed..] <= expected
      && delivered <= received && (!closed ==> received == delivered + pending[consumed..])
    }

    /** At most one session is open, and none once the stream has ended. */
    ghost predicate SessionsKept()
      reads this
    {
      && opens == closes + (if session.Some? then 1 else 0)
      && (done || fatal.Some? || closed ==> session.None? && pending == [] && pendingFatal.None?)
      && (done ==> next == |sources|)
      && (closed ==> done || fatal.Some?)
    }

    ghost predicate Valid()
      reads this
    {
      QueueKept() && EntriesKept() && SessionsKept()
    }

    constructor (entries: seq<Entry>, queue: seq<Source>)
      requires SortedTable(entries) && forall i | 0 <= i < |queue| :: Ready(queue[i])
      ensures Valid() && table == entries && expected == SourceEntries(entries, queue)
      ensures delivered == [] && !done && !closed && fatal.None? && pendingFatal.None? && opens == 0
      ensures sources == queue && next == 0 && session.None? && pending == [] && consumed == 0
    {
      hide EntriesIn, SourceEntries, Ready;
      table, expected := entries, SourceEntries(entries, queue);
      sources, next, session, pending, consumed := queue, 0, None, [], 0;
      pendingFatal, current, fatal, cleanupFailed, closed, done := None, None, None, false, false, false;
      received, delivered, opens, closes := [], [], 0, 0;
      assert queue[0..] == queue;
    }

    /** `recordClose`: releases the session, if any, exactly once. */
    method RecordClose(closeFails: bool)
      modifies this`session, this`closes, this`cleanupFailed
      ensures session.None?
      ensures closes == old(closes) + (if old(session).Some? then 1 else 0)
      ensures cleanupFailed == (old(cleanupFailed) || (old(session).Some? && closeFails))
    {
      if session.Some? {
        session := None;
        closes := closes + 1;
        cleanupFailed := cleanupFailed || closeFails;
      }
    }

    /** `prependSources`. */
    method PrependSources(more: seq<Source>)
      requires next <= |sources|
      modifies this`sources, this`next
      ensures next == 0 && sources == more + old(sources)[old(next)..]
    {
      sources := more + sources[next..];
      next := 0;
    }

    /**
     `tabletSource.open`: two attempts, relocating once after a stale start. A
     start that succeeds opens a session.
     */
    method OpenSource(source: Source, env: Opening) returns (r: Opened)
      requires SortedTable(table) && Ready(source)
      modifies this`opens
      ensures opens == old(opens) + if r.OpenedSession? then 1 else 0
      ensures r.OpenedSession? ==> r.session.rest == EntriesIn(table, source.segment.range)
      ensures r.Replanned? ==> SourceEntries(table, r.sources) == EntriesIn(table, source.segment.range)
      ensures r.Replanned? ==> forall i | 0 <= i < |r.sources| :: Ready(r.sources[i])
      ensures r.Replanned? ==> source.replannable && source.replans < MAX_REPLANS
      ensures r.Replanned? ==> forall i | 0 <= i < |r.sources| :: r.sources[i].replans == source.replans + 1
      ensures Starts(source, env) ==> r.OpenedSession?
      ensures Replans(source, env) ==>
                r == Replanned(
                  SourcesOf(PlanRange(env.replanned, source.segment.range).value.segments, true, source.replans + 1))
    {
      hide MayEndJustPast, EntriesIn, TabletEntries, SourceEntries, FitsTablet, PlanRange;
      var segment := source.segment;
      var tablet := segment.tablet;
      for attempt := 0 to 2
        invariant Holds(tablet, RowOrEmpty(segment.routingRow)) && opens == old(opens)
        invariant attempt == 0 ==> tablet == segment.tablet
        invariant attempt >= 1 ==> env.first.Stale? && Relocates(source, env) && tablet == env.relocated[0].value
        invariant attempt == 2 ==> env.second.Unhosted?
      {
        var start := if attempt == 0 then env.first else env.second;
        if start.Unhosted? {
          return OpenFailed(LocateFailed);
        }
        if !FitsTablet(segment.range, tablet) {
          if !source.replannable || source.replans >= MAX_REPLANS {
            return OpenFailed(RangeSpansTablets);
          }
          var planned := PlanOneRange(env.replanned, segment.range);
          if planned.None? {
            return OpenFailed(LocateFailed);
          }
          ReplanKeepsEntries(table, env.replanned, segment.range, true, source.replans + 1);
          return Replanned(SourcesOf(planned.value.segments, true, source.replans + 1));
        }
        if start.Started? {
          opens := opens + 1;
          TabletReadsRange(table, segment.(tablet := tablet));
          return OpenedSession(Session(TabletEntries(table, tablet, segment.range)));
        }
        if attempt == 1 || !start.Stale? {
          return OpenFailed(ScanFailed);
        }
        if env.invalidateFails {
          return OpenFailed(InvalidateFailed);
        }
        if !Answered(env.relocated, segment.routingRow) {
          return OpenFailed(LocateFailed);
        }
        tablet := env.relocated[0].value;
      }
      return OpenFailed(LocateFailed);
    }

    /** `openNextSession`; the result says whether iteration may continue. */
    method OpenNextSession(env: Opening) returns (ok: bool)
      requires Valid() && session.None? && pending == [] && !done && !closed && fatal.None? && pendingFatal.None?
      modifies this`sources, this`next, this`session, this`opens, this`fatal, this`done
      ensures Valid() && (!ok ==> done || fatal.Some?) && (ok ==> !done && fatal.None?)
      ensures done <==> old(next) == |old(sources)|
      ensures done ==> sources == old(sources) && next == old(next) && fatal.None? && session.None?
      ensures next <= |sources|
      ensures old(next) < |old(sources)| && Starts(old(sources)[old(next)], env) ==>
                && ok && sources == old(sources) && next == old(next) + 1
                && session == Some(Session(EntriesIn(table, old(sources)[old(next)].segment.range)))
      ensures old(next) < |old(sources)| && Replans(old(sources)[old(next)], env) ==>
                ok && session.None? && next == 0 && sources == Requeued(old(sources)[old(next)..], env)
    {
      hide EntriesIn, SourceEntries, Ready, SortedTable, Starts, Replans, PlanRange, Stream.EntriesKept;
      ghost var ahead := Ahead();
      if next >= |sources| {
        done := true;
        AheadKept(this);
        return false;
      }
      var source := sources[next];
      FirstSource(table, sources[next..]);
      assert sources[next..][1..] == sources[next + 1..];
      next := next + 1;
      var outcome := OpenSource(source, env);
      match outcome
      case Replanned(more) =>
        SourceEntriesConcat(table, more, sources[next..]);
        PrependSources(more);
        assert sources[0..] == sources;
        assert Ahead() == ahead;
        AheadKept(this);
        return true;
      case OpenFailed(error) =>
        fatal := Some(error);
        AheadKept(this);
        return false;
      case OpenedSession(s) =>
        session := Some(s);
        assert Ahead() == ahead;
        AheadKept(this);
        return true;
    }

    /** `Next`: one script of turns; a script that runs out is a context that is done. */
    method Next(turns: seq<Turn>, closeFails: bool) returns (ok: bool)
      requires Valid()
      modifies this
      ensures Valid() && closed == old(closed)
      ensures ok ==> current.Some? && delivered == old(delivered) + [current.value]
      ensures !ok ==> delivered == old(delivered) && (done || fatal.Some?)
      ensures old(done) || old(fatal).Some? ==> !ok && done == old(done) && fatal == old(fatal)
      ensures old(consumed) < |old(pending)| ==>
                ok && current == Some(old(pending)[old(consumed)]) && fatal == old(fatal)
      ensures old(consumed) == |old(pending)| && old(pendingFatal).Some? ==> !ok && fatal == old(pendingFatal)
      ensures fatal.None? ==> (ok <==> |old(delivered)| < |expected|)
      ensures forall at | old(StandsAt(at)) && AfterNext(table, at, turns).Some? ::
                StandsAt(AfterNext(table, at, turns).value)
    {
      hide Stream.EntriesKept, Ready, SortedTable, Through;
      assert pending[consumed..] == [] <==> consumed == |pending|;
      if consumed < |pending| {
        Take();
        Finished(this);
        return true;
      }
      DropBatch();
      if pendingFatal.Some? {
        Fail(pendingFatal.value, closeFails);
        return false;
      }
      if closed || done || fatal.Some? {
        Finished(this);
        return false;
      }
      ok := Advance(turns, closeFails);
      Finished(this);
    }

    /** The batch is used up. */
    method DropBatch()
      requires Valid() && consumed == |pending|
      modifies this`pending, this`consumed
      ensures Valid() && pending == []
    {
      hide EntriesIn, SourceEntries, Ready, SortedTable;
      assert pending[consumed..] == [];
      pending, consumed := [], 0;
    }

    /** Ends the stream with an error, its session released. */
    method Fail(error: Error, closeFails: bool)
      requires Valid() && pending == [] && !done && !closed && fatal.None?
      modifies this`session, this`closes, this`cleanupFailed, this`fatal, this`pendingFatal
      ensures Valid() && fatal == Some(error)
    {
      hide EntriesIn, SourceEntries, Ready, SortedTable;
      RecordClose(closeFails);
      fatal, pendingFatal := Some(error), None;
    }

    /** `finishSession` for a tablet session, which never has followers. */
    method FinishSession(closeFails: bool)
      requires Valid() && session.Some? && session.value.rest == [] && !done && !closed && fatal.None?
      modifies this`session, this`closes, this`cleanupFailed
      ensures Valid() && session.None?
    {
      hide EntriesIn, SourceEntries, Ready, SortedTable;
      ghost var ahead := Ahead();
      RecordClose(closeFails);
      assert Ahead() == ahead;
    }

    /** Hands out the next entry of the current batch. */
    method Take()
      requires Valid() && consumed < |pending|
      modifies this`current, this`consumed, this`delivered
      ensures Valid() && current == Some(pending[old(consumed)]) && delivered == old(delivered) + [current.value]
      ensures pending[consumed..] == old(pending[consumed..])[1..]
    {
      hide EntriesIn, SourceEntries, Ready, SortedTable;
      assert pending[consumed..] == [pending[consumed]] + pending[consumed + 1..];
      assert delivered + pending[consumed..] == (delivered + [pending[consumed]]) + pending[consumed + 1..];
      ghost var before := Ahead();
      current := Some(pending[consumed]);
      delivered := delivered + [pending[consumed]];
      consumed := consumed + 1;
      assert before == [current.value] + Ahead();
    }

    /** The loop of `Next`. */
    method Advance(turns: seq<Turn>, closeFails: bool) returns (ok: bool)
      requires Valid() && pending == [] && !done && !closed && fatal.None? && pendingFatal.None?
      modifies this
      ensures Valid() && closed == old(closed)
      ensures ok ==> current.Some? && delivered == old(delivered) + [current.value]
      ensures !ok ==> delivered == old(delivered) && (done || fatal.Some?)
      ensures var to := Through(table, old(sources)[old(next)..], old(OpenRest()), turns);
              to.Some? ==> StandsAt(to.value)
    {
      hide Stream.QueueKept, Stream.EntriesKept, Stream.SessionsKept, Through, OneTurn;
      var n := 0;
      Queued(this);
      ghost var to := Through(table, sources[next..], OpenRest(), turns);
      assert turns[0..] == turns;
      while n < |turns|
        invariant n <= |turns| && Valid() && pending == [] && !done && !closed && fatal.None? && pendingFatal.None?
        invariant delivered == old(delivered) && next <= |sources|
        invariant to.Some? ==> to == Through(table, sources[next..], OpenRest(), turns[n..])
        decreases |turns| - n
      {
        ThroughStep(table, sources[next..], OpenRest(), turns[n..]);
        assert turns[n..][1..] == turns[n + 1..];
        var more;
        ok, more := TakeTurn(turns[n], closeFails);
        n := n + 1;
        if !more {
          return;
        }
      }
      NoTurns(table, sources[next..], OpenRest(), turns[n..]);
      Fail(ContextDone, closeFails);
      ok := false;
    }

    /** One turn of the loop; `more` tells whether it goes on. */
    method TakeTurn(turn: Turn, closeFails: bool) returns (ok: bool, more: bool)
      requires Valid() && pending == [] && !done && !closed && fatal.None? && pendingFatal.None?
      modifies this
      ensures Valid() && !closed && next <= |sources|
      ensures more ==> pending == [] && !done && fatal.None? && pendingFatal.None? && delivered == old(delivered)
      ensures !more && ok ==> current.Some? && delivered == old(delivered) + [current.value]
      ensures !more && !ok ==> delivered == old(delivered) && (done || fatal.Some?)
      ensures match OneTurn(table, old(sources)[old(next)..], old(OpenRest()), turn)
              case Stuck => true
              case Onward(queue, open) => more && sources[next..] == queue && OpenRest() == open
              case Arrived(at) => !more && StandsAt(at)
    {
      hide Stream.QueueKept, Stream.EntriesKept, Stream.SessionsKept, Starts, Replans, OneTurn, Requeued, EntriesIn;
      Queued(this);
      TurnCases(table, sources[next..], OpenRest(), turn);
      if session.None? {
        var open := OpenNextSession(turn.opening);
        if !open {
          Queued(this);
          assert done ==> sources[next..] == [];
          return false, false;
        }
      }
      if session.None? {
        return false, true;
      }
      ok, more := FetchTurn(turn.fetching, closeFails);
    }

    /** The part of a turn with a session open. */
    method FetchTurn(f: Fetching, closeFails: bool) returns (ok: bool, more: bool)
      requires Valid() && session.Some? && pending == [] && !done && !closed && fatal.None? && pendingFatal.None?
      modifies this
      ensures Valid() && !closed && sources == old(sources) && next == old(next) && next <= |sources|
      ensures more ==> pending == [] && !done && fatal.None? && pendingFatal.None? && delivered == old(delivered)
      ensures !more && ok ==> current.Some? && delivered == old(delivered) + [current.value]
      ensures !more && !ok ==> delivered == old(delivered) && (done || fatal.Some?)
      ensures match FetchMove(old(sources)[old(next)..], old(session).value.rest, f)
              case Stuck => true
              case Onward(queue, open) => more && sources[next..] == queue && OpenRest() == open
              case Arrived(at) => !more && StandsAt(at)
    {
      hide Stream.QueueKept, Stream.EntriesKept, Stream.SessionsKept;
      Queued(this);
      ghost var entries := session.value.rest;
      var left, failed := Receive(f);
      assert !f.fails ==> pending == entries[..Batch(f, |entries|)];
      if |pending| > 0 {
        if !failed && !left {
          FinishSession(closeFails);
        }
        ghost var batch := pending;
        assert pending[consumed..] == batch;
        Take();
        Queued(this);
        assert pending[consumed..] == batch[1..];
        return true, false;
      }
      if failed {
        Fail(pendingFatal.value, closeFails);
        return false, false;
      }
      if !left {
        FinishSession(closeFails);
      }
      return false, true;
    }

    /** One fetch: the batch becomes pending, and a failure waits behind it. */
    method Receive(f: Fetching) returns (more: bool, failed: bool)
      requires Valid() && pending == [] && !done && !closed && fatal.None? && pendingFatal.None? && session.Some?
      modifies this`session, this`pending, this`consumed, this`pendingFatal, this`received
      ensures Valid() && session.Some? && consumed == 0
      ensures pending == Fetch(old(session).value, f).0 && received == old(received) + pending
      ensures failed <==> pendingFatal.Some?
      ensures failed == f.fails && more == (f.more && !f.fails)
      ensures session == Some(Fetch(old(session).value, f).1)
      ensures !more && !failed ==> session.value.rest == []
    {
      hide EntriesIn, SourceEntries, Ready, SortedTable;
      var entries, left;
      var r := Fetch(session.value, f);
      entries, left, more, failed := r.0, r.1, r.2, r.3;
      assert session.value.rest == entries + left.rest;
      ghost var ahead := Ahead();
      assert received == delivered + [] == delivered;
      session, pending, consumed, received := Some(left), entries, 0, received + entries;
      assert Ahead() == ahead;
      assert pending[0..] == pending;
      PrefixOf(delivered, pending, left.rest + SourceEntries(table, sources[next..]), expected);
      if failed {
        pendingFatal := Some(ScanFailed);
      }
    }

    /** `Close`: idempotent; drops what was fetched but not handed out. */
    method Close(closeFails: bool)
      requires Valid()
      modifies this`session, this`closes, this`cleanupFailed, this`pending, this`consumed
      modifies this`pendingFatal, this`fatal, this`closed
      ensures Valid() && closed && session.None? && opens == closes
      ensures old(closed) || old(fatal).Some? ==> fatal == old(fatal)
      ensures !done ==> fatal.Some?
      ensures old(fatal).None? && old(pendingFatal).Some? ==> fatal == old(pendingFatal)
    {
      hide Ready, SortedTable, Stream.EntriesKept;
      if closed {
        return;
      }
      closed := true;
      RecordClose(closeFails);
      pending, consumed := [], 0;
      if pendingFatal.Some? {
        fatal, pendingFatal := pendingFatal, None;
      }
      if fatal.None? && !done {
        fatal := Some(StreamClosed);
      }
      ClosedKeeps(this);
    }
  }

  /** As long as what is ahead stays, or there is an error, entries are kept. */
  twostate lemma AheadKept(s: Stream)
    requires old(s.Valid()) && s.QueueKept() && (s.fatal.Some? || s.Ahead() == old(s.Ahead()))
    requires s.delivered == old(s.delivered) && s.received == old(s.received)
    requires s.pending == old(s.pending) && s.consumed == old(s.consumed)
    requires s.closed == old(s.closed) && s.pendingFatal == old(s.pendingFatal)
    requires s.fatal.None? ==> old(s.fatal).None?
    ensures s.EntriesKept()
  {
    hide Stream.Ahead, EntriesIn, SourceEntries, Ready, SortedTable;
  }

  /** Dropping what was not handed out keeps what was. */
  twostate lemma ClosedKeeps(s: Stream)
    requires old(s.Valid()) && s.QueueKept() && s.closed && s.session.None? && s.pending == [] && s.consumed == 0
    requires s.sources == old(s.sources) && s.next == old(s.next)
    requires s.delivered == old(s.delivered) && s.received == old(s.received)
    requires s.fatal.Some? || (old(s.done) && old(s.fatal).None?)
    ensures s.EntriesKept()
  {
    hide EntriesIn, SourceEntries, Ready, SortedTable;
    Shorter(s.delivered, old(s.pending[s.consumed..]), s.expected);
    Nothing(s.delivered);
  }

  lemma Queued(s: Stream)
    requires s.Valid()
    ensures s.next <= |s.sources| && s.consumed <= |s.pending|
  {
  }

  /** A turn by its cases. */
  lemma TurnCases(table: seq<Entry>, queue: seq<Source>, open: Option<seq<Entry>>, turn: Turn)
    ensures open.None? && queue == [] ==> OneTurn(table, queue, open, turn) == Arrived(Position([], None, [], true))
    ensures open.None? && queue != [] && Replans(queue[0], turn.opening) ==>
              OneTurn(table, queue, open, turn) == Onward(Requeued(queue, turn.opening), None)
    ensures open.None? && queue != [] && !Replans(queue[0], turn.opening) && !Starts(queue[0], turn.opening) ==>
              OneTurn(table, queue, open, turn).Stuck?
    ensures open.None? && queue != [] && !Replans(queue[0], turn.opening) && Starts(queue[0], turn.opening) ==>
              OneTurn(table, queue, open, turn) ==
              FetchMove(queue[1..], EntriesIn(table, queue[0].segment.range), turn.fetching)
    ensures open.Some? ==> OneTurn(table, queue, open, turn) == FetchMove(queue, open.value, turn.fetching)
  {
    hide Starts, Replans, Requeued, EntriesIn;
  }

  lemma ThroughStep(table: seq<Entry>, queue: seq<Source>, open: Option<seq<Entry>>, turns: seq<Turn>)
    requires turns != []
    ensures Through(table, queue, open, turns) ==
            match OneTurn(table, queue, open, turns[0])
            case Stuck => None
            case Onward(later, kept) => Through(table, later, kept, turns[1..])
            case Arrived(at) => Some(at)
  {
  }

  lemma NoTurns(table: seq<Entry>, queue: seq<Source>, open: Option<seq<Entry>>, turns: seq<Turn>)
    requires turns == []
    ensures Through(table, queue, open, turns).None?
  {
  }

  lemma FirstSource(table: seq<Entry>, sources: seq<Source>)
    requires sources != []
    ensures SourceEntries(table, sources) ==
            EntriesIn(table, sources[0].segment.range) + SourceEntries(table, sources[1..])
  {
  }

  lemma Nothing(a: seq<Entry>)
    ensures a + [][0..] == a
  {
  }

  lemma Shorter(a: seq<Entry>, b: seq<Entry>, all: seq<Entry>)
    requires a + b <= all
    ensures a <= all
  {
  }

  lemma PrefixOf(a: seq<Entry>, b: seq<Entry>, c: seq<Entry>, all: seq<Entry>)
    requires a + (b + c) == all
    ensures a + b <= all
  {
    assert a + (b + c) == (a + b) + c;
  }

  // ---- Whole runs ----

  datatype Action = NextCall(turns: seq<Turn>, closeFails: bool) | CloseCall(closeFails: bool)

  /** Each range's entries, in the order the ranges were given; a nil range has none. */
  function Expected(table: seq<Entry>, ranges: seq<Option<Range>>): seq<Entry> {
    if ranges == [] then []
    else
      var last := ranges[|ranges| - 1];
      Expected(table, ranges[..|ranges| - 1]) + (if last.Some? then EntriesIn(table, last.value) else [])
  }

  /** A range as the constructors make them, that cannot end just past a tablet. */
  predicate Streamable(r: Option<Range>) { r.Some? ==> LiveBounds(r.value) && !MayEndJustPast(r.value) }

  lemma {:induction false} SegmentEntriesConcat(table: seq<Entry>, a: seq<Segment>, b: seq<Segment>)
    ensures SegmentEntries(table, a + b) == SegmentEntries(table, a) + SegmentEntries(table, b)
  {
    hide EntriesIn;
    if a == [] {
      assert a + b == b;
    } else {
      SegmentEntriesConcat(table, a[1..], b);
      assert (a + b)[1..] == a[1..] + b;
      Associate(EntriesIn(table, a[0].range), SegmentEntries(table, a[1..]), SegmentEntries(table, b));
    }
  }

  /** A plan of several ranges reads each range in turn, every segment ready to be opened. */
  lemma {:induction false} PlanReadsRanges(table: seq<Entry>, answers: Answers, ranges: seq<Option<Range>>)
    requires SortedTable(table) && PlanRanges(answers, ranges).Ok?
    requires forall i | 0 <= i < |ranges| :: Streamable(ranges[i])
    ensures var segments := PlanRanges(answers, ranges).value.segments;
            && SegmentEntries(table, segments) == Expected(table, ranges)
            && forall s | s in segments :: Placed(s) && !MayEndJustPast(s.range)
  {
    hide EntriesIn, PlanRange, Placed, MayEndJustPast, LiveBounds, SortedTable, SegmentEntries;
    if ranges == [] {
      NoSegments(table);
    } else {
      var n := |ranges| - 1;
      PlanReadsRanges(table, answers, ranges[..n]);
      var front := PlanRanges(answers, ranges[..n]).value;
      var last := PlanRange(front.left, ranges[n].value).value;
      assert Streamable(ranges[n]);
      PlanReadsRange(table, front.left, ranges[n].value);
      SegmentsPlaced(front.left, ranges[n].value);
      SegmentEntriesConcat(table, front.segments, last.segments);
    }
  }

  lemma NoSegments(table: seq<Entry>)
    ensures SegmentEntries(table, []) == []
  {
  }

  /** The entries the calls returned, in order. */
  function Gathered(results: seq<Option<Entry>>): seq<Entry> {
    if results == [] then []
    else
      var last := results[|results| - 1];
      Gathered(results[..|results| - 1]) + (if last.Some? then [last.value] else [])
  }

  datatype StreamError = NoRanges | NotPlanned(error: PlanError)

  /** `BatchScanner.Stream`: plans every range and queues its segments. */
  method OpenStream(table: seq<Entry>, answers: Answers, ranges: seq<Option<Range>>)
    returns (r: Result<Stream, StreamError>)
    requires SortedTable(table) && forall i | 0 <= i < |ranges| :: Streamable(ranges[i])
    ensures r.Ok? <==> ranges != [] && PlanRanges(answers, ranges).Ok?
    ensures r.Err? ==> r.error == if ranges == [] then NoRanges else NotPlanned(PlanRanges(answers, ranges).error)
    ensures r.Ok? ==>
              var stream := r.value;
              && fresh(stream) && stream.Valid() && stream.table == table && stream.expected == Expected(table, ranges)
              && stream.delivered == [] && !stream.done && !stream.closed && stream.opens == 0
              && stream.fatal.None? && stream.pendingFatal.None?
              && stream.sources == SourcesOf(PlanRanges(answers, ranges).value.segments, true, 0) && stream.next == 0
              && stream.session.None? && stream.pending == [] && stream.consumed == 0
  {
    hide EntriesIn, SourceEntries, SortedTable, PlanRanges, MayEndJustPast, Placed, Expected, SegmentEntries;
    if ranges == [] {
      return Err(NoRanges);
    }
    var planned := PlanBatchScan(answers, ranges);
    if planned.Err? {
      return Err(NotPlanned(planned.error));
    }
    var segments := planned.value.segments;
    PlanReadsRanges(table, answers, ranges);
    SourcesOfEntries(table, segments, true, 0);
    var sources := SourcesOf(segments, true, 0);
    forall i | 0 <= i < |sources| ensures Ready(sources[i]) {
      assert segments[i] in segments;
    }
    var stream := new Stream(table, sources);
    r := Ok(stream);
  }

  predicate QuietActions(actions: seq<Action>, bound: nat) {
    forall i | 0 <= i < |actions| ::
      actions[i].NextCall? && Quiet(actions[i].turns) && |actions[i].turns| > bound
  }

  /** Where the calls lead, if each gets through. */
  function AfterCalls(table: seq<Entry>, start: Position, actions: seq<Action>): Option<Position> {
    if actions == [] then Some(start)
    else
      var before := AfterCalls(table, start, actions[..|actions| - 1]);
      match actions[|actions| - 1]
      case CloseCall(_) => None
      case NextCall(turns, _) => if before.None? then None else AfterNext(table, before.value, turns)
  }

  function Beginning(segments: seq<Segment>): Position { Position(SourcesOf(segments, true, 0), None, [], false) }

  /**
   Every call gets to an entry or to the end, each source it comes to being
   started, at once or after a relocation, or replanned within the bound.
   Batches may be cut anywhere, also empty.
   */
  predicate GetThrough(table: seq<Entry>, segments: seq<Segment>, actions: seq<Action>) {
    AfterCalls(table, Beginning(segments), actions).Some?
  }

  lemma NoCalls(table: seq<Entry>, start: Position, actions: seq<Action>)
    ensures AfterCalls(table, start, actions[..0]) == Some(start)
  {
  }

  lemma AfterCallsStep(table: seq<Entry>, start: Position, actions: seq<Action>, n: nat)
    requires n < |actions|
    ensures var before := AfterCalls(table, start, actions[..n]);
            AfterCalls(table, start, actions[..n + 1]) ==
            if actions[n].CloseCall? || before.None? then None else AfterNext(table, before.value, actions[n].turns)
  {
    assert actions[..n + 1][..n] == actions[..n];
  }

  lemma QuietGetsThrough(table: seq<Entry>, segments: seq<Segment>, actions: seq<Action>)
    requires QuietActions(actions, |segments| + 1)
    ensures GetThrough(table, segments, actions)
  {
    QuietCalls(table, segments, actions);
  }

  lemma {:induction false} QuietCalls(table: seq<Entry>, segments: seq<Segment>, actions: seq<Action>)
    requires QuietActions(actions, |segments| + 1)
    ensures var to := AfterCalls(table, Beginning(segments), actions);
            to.Some? && to.value.open.None? && |to.value.queue| <= |segments|
  {
    hide Through;
    if actions != [] {
      QuietCalls(table, segments, actions[..|actions| - 1]);
      var at := AfterCalls(table, Beginning(segments), actions[..|actions| - 1]).value;
      if at.batch == [] && !at.ended {
        QuietThrough(table, at.queue, at.open, actions[|actions| - 1].turns);
      }
    }
  }

  function Least(a: nat, b: nat): nat { if a < b then a else b }

  /** What a run showed: each call's entry, what servers returned, how the stream ended, and its sessions. */
  datatype Ran = Ran(
    results: seq<Option<Entry>>, received: seq<Entry>, done: bool, failed: bool, opens: nat, closes: nat)

  method PerformAction(stream: Stream, action: Action) returns (result: Option<Entry>)
    requires stream.Valid()
    modifies stream
    ensures stream.Valid()
    ensures stream.delivered == old(stream.delivered) + if result.Some? then [result.value] else []
    ensures action.CloseCall? || result.None? ==> stream.done || stream.fatal.Some?
    ensures old(stream.done) ==> stream.done
    ensures old(stream.fatal).Some? ==> stream.fatal == old(stream.fatal)
    ensures action.NextCall? ==> stream.closed == old(stream.closed)
    ensures stream.fatal.None? ==> (result.Some? <==> |old(stream.delivered)| < |stream.expected|)
    ensures action.NextCall? ==>
              forall at | old(stream.StandsAt(at)) && AfterNext(stream.table, at, action.turns).Some? ::
                stream.StandsAt(AfterNext(stream.table, at, action.turns).value)
  {
    hide Stream.QueueKept, Stream.EntriesKept, Stream.SessionsKept, AfterNext;
    Queued(stream);
    match action
    case NextCall(turns, closeFails) =>
      var ok := stream.Next(turns, closeFails);
      result := if ok then stream.current else None;
    case CloseCall(closeFails) =>
      stream.Close(closeFails);
      result := None;
      Finished(stream);
  }

  /**
   Every run of a stream, for every schedule of splits, stale assignments,
   replans, cut batches, failures and closes, tablets moving between any two
   calls of the locator: what was handed out is always a prefix of the expected
   entries; a stream that is done without an error has handed out exactly the
   expected entries; a stream that has ended has handed out every entry it
   fetched, also those that came with an error, unless it was closed first; and
   a stream that has ended has closed every session it opened. When every call
   gets through, whatever is relocated, replanned or cut on the way, as many
   calls as there are entries and one more end the stream without an error.
   */
  method RunStream(table: seq<Entry>, answers: Answers, ranges: seq<Option<Range>>, actions: seq<Action>)
    returns (r: Result<Ran, StreamError>)
    requires SortedTable(table) && forall i | 0 <= i < |ranges| :: Streamable(ranges[i])
    ensures r.Ok? <==> ranges != [] && PlanRanges(answers, ranges).Ok?
    ensures r.Ok? ==> |r.value.results| == |actions| && Gathered(r.value.results) <= Expected(table, ranges)
    ensures r.Ok? && r.value.done && !r.value.failed ==> Gathered(r.value.results) == Expected(table, ranges)
    ensures r.Ok? ==> Gathered(r.value.results) <= r.value.received
    ensures r.Ok? && (r.value.done || r.value.failed) && (forall i | 0 <= i < |actions| :: actions[i].NextCall?) ==>
              Gathered(r.value.results) == r.value.received
    ensures r.Ok? ==>
              forall i | 0 <= i < |actions| && (actions[i].CloseCall? || r.value.results[i].None?) ::
                r.value.done || r.value.failed
    ensures r.Ok? ==> r.value.closes <= r.value.opens <= r.value.closes + 1
    ensures r.Ok? && (r.value.done || r.value.failed) ==> r.value.opens == r.value.closes
    ensures r.Ok? && |actions| > |Expected(table, ranges)| ==>
              (GetThrough(table, PlanRanges(answers, ranges).value.segments, actions) ==>
                 r.value.done && !r.value.failed && Gathered(r.value.results) == Expected(table, ranges))
    ensures r.Ok? && |actions| > |Expected(table, ranges)| ==>
              (QuietActions(actions, |PlanRanges(answers, ranges).value.segments| + 1) ==>
                 r.value.done && !r.value.failed)
  {
    hide SortedTable, MayEndJustPast, LiveBounds, Expected, PlanRanges, AfterCalls, AfterNext, QuietActions;
    hide Stream.QueueKept, Stream.EntriesKept, Stream.SessionsKept;
    var stream :- OpenStream(table, answers, ranges);
    var results: seq<Option<Entry>> := [];
    ghost var segments := PlanRanges(answers, ranges).value.segments;
    ghost var start := Beginning(segments);
    assert stream.sources[0..] == stream.sources && stream.pending[0..] == [];
    NoCalls(table, start, actions);
    for n := 0 to |actions|
      invariant stream.Valid() && fresh(stream) && |results| == n
      invariant stream.delivered == Gathered(results)
      invariant (forall i | 0 <= i < n :: actions[i].NextCall?) ==> !stream.closed
      invariant forall i | 0 <= i < n && (actions[i].CloseCall? || results[i].None?) ::
                  stream.done || stream.fatal.Some?
      invariant AfterCalls(table, start, actions[..n]).Some? ==>
                  stream.StandsAt(AfterCalls(table, start, actions[..n]).value)
      invariant AfterCalls(table, start, actions[..n]).Some? ==>
                  |stream.delivered| == Least(n, |stream.expected|) && (n > |stream.expected| ==> stream.done)
    {
      ghost var before := results;
      AfterCallsStep(table, start, actions, n);
      Queued(stream);
      var result := PerformAction(stream, actions[n]);
      results := results + [result];
      assert results[..n] == before;
    }
    Finished(stream);
    assert actions[..|actions|] == actions;
    if QuietActions(actions, |segments| + 1) {
      QuietGetsThrough(table, segments, actions);
    }
    r := Ok(Ran(results, stream.received, stream.done, stream.fatal.Some?, stream.opens, stream.closes));
  }

  lemma Finished(s: Stream)
    requires s.Valid()
    ensures s.delivered <= s.expected
    ensures s.done && s.fatal.None? ==> s.delivered == s.expected
    ensures s.delivered <= s.received
    ensures !s.closed && (s.done || s.fatal.Some?) ==> s.delivered == s.received
    ensures s.closes <= s.opens <= s.closes + 1
    ensures s.done || s.fatal.Some? ==> s.opens == s.closes
  {
    hide EntriesIn;
    assert s.delivered + [] == s.delivered;
    if s.done && s.fatal.None? {
      assert s.sources[s.next..] == [];
      assert s.Ahead() == [];
    }
  }
}
