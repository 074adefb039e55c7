/**
 The bounded rounds that submit split plans to the manager and retry what it
 did not confirm. Each round's replies are a script; where the script of a
 round ends, the caller's context has ended.
 */
module SplitRounds {
  import opened Wrappers
  import opened Bytes
  import opened TabletExtents
  import opened TableSplits

  datatype GroupReply = GroupReply(contextDone: bool, encodeFails: bool, succeeded: bool, fails: bool)

  /** What one round meets: the tablets located, the manager's replies and how the wait after it ends. */
  datatype Round = Round(
    contextDone: bool, locateFails: bool, tablets: seq<Extent>,
    updated: seq<Extent>, refreshFails: bool, replies: seq<GroupReply>, waitFails: bool)

  datatype SplitError = Stopped | OperationFailed | Incomplete(unapplied: nat)

  /** A round as it was carried out: the first `attempted` groups were submitted. */
  datatype Step = Step(round: Round, pending: seq<Row>, plan: SplitPlan, attempted: nat)

  function ReplyTo(round: Round, i: nat): GroupReply {
    if i < |round.replies| then round.replies[i] else GroupReply(true, false, false, false)
  }

  /** The manager was asked to split, and answered that it did. */
  predicate Confirms(reply: GroupReply) { !reply.contextDone && !reply.encodeFails && reply.succeeded }

  predicate Disturbs(reply: GroupReply) { reply.encodeFails || reply.fails }

  // ---- applySplitPlan ----

  /** Non-empty end rows of the extents whose update the manager accepted. */
  function RefreshedRows(plan: SplitPlan, round: Round): set<Row> {
    if plan.existing == [] then {} else ExistingRows(round.updated) - {[]}
  }

  function SplitInto(plan: SplitPlan, round: Round, n: nat): set<Row>
    requires n <= |plan.groups|
  {
    set i, r | 0 <= i < n && Confirms(ReplyTo(round, i)) && r in plan.groups[i].rows :: r
  }

  /** The split requests sent for the first `n` groups: one each, in order, but for those that cannot be encoded. */
  function Requests(plan: SplitPlan, round: Round, n: nat): seq<Group>
    requires n <= |plan.groups|
  {
    if n == 0 then []
    else Requests(plan, round, n - 1) + (if ReplyTo(round, n - 1).encodeFails then [] else [plan.groups[n - 1]])
  }

  predicate WellFormed(s: Step) { s.attempted <= |s.plan.groups| }

  function CompletedRows(s: Step): set<Row>
    requires WellFormed(s)
  {
    RefreshedRows(s.plan, s.round) + SplitInto(s.plan, s.round, s.attempted)
  }

  /** Groups are submitted in order until the context ends, whatever the earlier ones answered. */
  predicate Attempts(s: Step) {
    && WellFormed(s)
    && (forall i | 0 <= i < s.attempted :: !ReplyTo(s.round, i).contextDone)
    && (s.attempted < |s.plan.groups| ==> ReplyTo(s.round, s.attempted).contextDone)
  }

  predicate Fails(s: Step) {
    || (s.plan.existing != [] && s.round.refreshFails)
    || s.attempted < |s.plan.groups|
    || exists i | 0 <= i < s.attempted :: Disturbs(ReplyTo(s.round, i))
  }

  lemma ReplyFails(s: Step, i: nat)
    requires i < s.attempted && i < |s.round.replies|
    requires s.round.replies[i].fails || s.round.replies[i].encodeFails
    ensures Fails(s)
  {
    assert Disturbs(ReplyTo(s.round, i));
  }

  lemma RefreshFails(s: Step)
    requires s.plan.existing != [] && s.round.refreshFails
    ensures Fails(s)
  {
  }

  method RefreshExisting(updated: seq<Extent>) returns (rows: seq<Row>)
    ensures RowSet(rows) == ExistingRows(updated) - {[]}
  {
    hide ExistingRows, RowSet;
    rows := [];
    EmptyRows();
    for n := 0 to |updated|
      invariant RowSet(rows) == ExistingRows(updated[..n]) - {[]}
    {
      assert updated[..n + 1] == updated[..n] + [updated[n]];
      ExistingRowsGrow(updated[..n], updated[n]);
      if updated[n].endRow.Some? && updated[n].endRow.value != [] {
        RowSetSnoc(rows, updated[n].endRow.value);
        rows := rows + [updated[n].endRow.value];
      }
    }
    assert updated[..|updated|] == updated;
  }

  lemma EmptyRows()
    ensures RowSet([]) == {} && ExistingRows([]) == {}
  {
  }

  lemma ExistingRowsGrow(existing: seq<Extent>, e: Extent)
    ensures ExistingRows(existing + [e]) == ExistingRows(existing) + (if e.endRow.Some? then {e.endRow.value} else {})
  {
  }

  lemma SplitIntoGrows(plan: SplitPlan, round: Round, n: nat)
    requires n < |plan.groups|
    ensures SplitInto(plan, round, n + 1) ==
            SplitInto(plan, round, n) + (if Confirms(ReplyTo(round, n)) then RowSet(plan.groups[n].rows) else {})
  {
  }

  lemma RowSetAppend(a: seq<Row>, b: seq<Row>)
    ensures RowSet(a + b) == RowSet(a) + RowSet(b)
  {
  }

  method ApplySplitPlan(plan: SplitPlan, round: Round, ghost pending: seq<Row>)
    returns (completed: seq<Row>, failed: bool, attempted: nat, requests: seq<Group>)
    ensures var s := Step(round, pending, plan, attempted);
      && Attempts(s) && RowSet(completed) == CompletedRows(s) && (failed <==> Fails(s))
      && requests == Requests(plan, round, attempted)
  {
    hide RowSet, SplitInto, ExistingRows;
    completed, failed, attempted, requests := [], false, 0, [];
    EmptyRows();
    if plan.existing != [] {
      completed := RefreshExisting(round.updated);
      failed := round.refreshFails;
    }
    NothingSplit(plan, round);
    while attempted < |plan.groups|
      invariant attempted <= |plan.groups| && requests == Requests(plan, round, attempted)
      invariant forall i | 0 <= i < attempted :: !ReplyTo(round, i).contextDone
      invariant RowSet(completed) == RefreshedRows(plan, round) + SplitInto(plan, round, attempted)
      invariant failed <==>
                  || (plan.existing != [] && round.refreshFails)
                  || exists i | 0 <= i < attempted :: Disturbs(ReplyTo(round, i))
    {
      var reply := ReplyTo(round, attempted);
      if reply.contextDone {
        failed := true;
        return;
      }
      SplitIntoGrows(plan, round, attempted);
      RowSetAppend(completed, plan.groups[attempted].rows);
      if reply.encodeFails {
        failed := true;
      } else {
        requests := requests + [plan.groups[attempted]];
        if reply.succeeded {
          completed := completed + plan.groups[attempted].rows;
        }
        if reply.fails {
          failed := true;
        }
      }
      attempted := attempted + 1;
    }
  }

  lemma NothingSplit(plan: SplitPlan, round: Round)
    ensures SplitInto(plan, round, 0) == {}
  {
  }

  // ---- addSplits ----

  /** The step planned every pending row against the round's tablets and submitted the plan. */
  ghost predicate Sound(s: Step) { Attempts(s) && Plans(s.round.tablets, s.pending, s.plan) }

  /** Each round starts from what the one before left. */
  ghost predicate Chained(requested: seq<Row>, log: seq<Step>, pending: seq<Row>) {
    if log == [] then pending == requested
    else
      var last := log[|log| - 1];
      && Sound(last)
      && Chained(requested, log[..|log| - 1], last.pending)
      && pending == Without(last.pending, CompletedRows(last))
  }

  /** Rows a round both had pending and saw confirmed. */
  ghost function ConfirmedIn(s: Step): set<Row> { if WellFormed(s) then CompletedRows(s) * RowSet(s.pending) else {} }

  ghost function Confirmed(log: seq<Step>): set<Row> {
    if log == [] then {} else Confirmed(log[..|log| - 1]) + ConfirmedIn(log[|log| - 1])
  }

  /** The requested rows are always the disjoint union of confirmed and pending rows. */
  lemma {:induction false} RowsAccounted(requested: seq<Row>, log: seq<Step>, pending: seq<Row>)
    requires Chained(requested, log, pending)
    ensures Confirmed(log) !! RowSet(pending)
    ensures Confirmed(log) + RowSet(pending) == RowSet(requested)
  {
    hide Plans, CompletedRows, RowSet;
    if log != [] {
      var last := log[|log| - 1];
      RowsAccounted(requested, log[..|log| - 1], last.pending);
      WithoutRows(last.pending, CompletedRows(last));
    }
  }

  lemma {:induction false} PendingAscends(requested: seq<Row>, log: seq<Step>, pending: seq<Row>)
    requires Chained(requested, log, pending) && StrictlySorted(requested)
    ensures StrictlySorted(pending)
  {
    if log != [] {
      var last := log[|log| - 1];
      PendingAscends(requested, log[..|log| - 1], last.pending);
      WithoutAscends(last.pending, CompletedRows(last));
    }
  }

  /** The manager's answers describe the table: `before` and `after` are its tablet end rows around the round. */
  ghost predicate Truthful(s: Step, before: set<Row>, after: set<Row>) {
    && before <= after
    && ExistingRows(s.round.tablets) <= before
    && (forall e | e in s.round.updated :: e in s.plan.existing)
    && (WellFormed(s) ==> SplitInto(s.plan, s.round, s.attempted) <= after)
  }

  /** The tablet end rows before the first round, between rounds and after the last, as no tablets merge. */
  ghost predicate TruthfulRun(log: seq<Step>, boundaries: seq<set<Row>>) {
    && |boundaries| == |log| + 1
    && forall k | 0 <= k < |log| :: Truthful(log[k], boundaries[k], boundaries[k + 1])
  }

  lemma CompletedAreBoundaries(s: Step, before: set<Row>, after: set<Row>)
    requires Sound(s) && Truthful(s, before, after)
    ensures CompletedRows(s) <= after
  {
    hide SplitInto, SoundGroup;
    forall r | r in RefreshedRows(s.plan, s.round) ensures r in after {
      var e :| e in s.round.updated && e.endRow == Some(r);
      assert e in s.plan.existing && e in s.round.tablets;
      assert r in ExistingRows(s.round.tablets);
    }
  }

  /** Against a truthful manager, every confirmed row is a tablet boundary when the run ends. */
  lemma {:induction false} ConfirmedAreBoundaries(
    requested: seq<Row>, log: seq<Step>, pending: seq<Row>, boundaries: seq<set<Row>>)
    requires Chained(requested, log, pending) && TruthfulRun(log, boundaries)
    ensures Confirmed(log) <= boundaries[|log|]
  {
    hide Plans, Attempts, CompletedRows;
    if log != [] {
      var n := |log| - 1;
      var front, last := log[..n], log[n];
      assert TruthfulRun(front, boundaries[..n + 1]);
      ConfirmedAreBoundaries(requested, front, last.pending, boundaries[..n + 1]);
      assert Truthful(last, boundaries[n], boundaries[n + 1]);
      CompletedAreBoundaries(last, boundaries[n], boundaries[n + 1]);
    }
  }

  /** A round in which everything submitted is confirmed leaves exactly the rows no tablet holds. */
  lemma CleanRoundLeavesUnresolved(s: Step)
    requires Sound(s) && Ordered(s.round.tablets) && s.attempted == |s.plan.groups|
    requires forall e | e in s.round.tablets :: ValidExtent(e)
    requires [] !in s.pending
    requires forall i | 0 <= i < s.attempted :: Confirms(ReplyTo(s.round, i))
    requires RowSet(s.pending) * ExistingRows(s.plan.existing) <= ExistingRows(s.round.updated)
    ensures RowSet(Without(s.pending, CompletedRows(s))) <= RowSet(s.plan.unresolved)
    ensures forall r | r in RowSet(Without(s.pending, CompletedRows(s))) ::
              forall t | t in s.round.tablets :: !Holds(t, r)
  {
    hide Ordered, Compare;
    WithoutRows(s.pending, CompletedRows(s));
    forall r | r in GroupRows(s.plan.groups) ensures r in CompletedRows(s) {
      var k :| 0 <= k < |s.plan.groups| && r in s.plan.groups[k].rows;
    }
    forall r | r in s.pending && r in ExistingRows(s.plan.existing) ensures r in CompletedRows(s) {
    }
  }

  /** After `n` rounds the wait failed, the context had ended, or the tablets could not be located. */
  predicate Interrupted(rounds: seq<Round>, n: nat)
    requires n <= |rounds|
  {
    || (n > 0 && rounds[n - 1].waitFails)
    || n == |rounds| || rounds[n].contextDone || rounds[n].locateFails
  }

  /**
   `addSplits`: the pending rows sit in the first slots of an array that each
   round filters in place. A script that ends early is a context that ended.
   */
  method AddSplits(slots: array<Row>, attempts: nat, rounds: seq<Round>)
    returns (err: Option<SplitError>, left: nat, log: seq<Step>)
    requires forall n | 0 <= n < |rounds| :: EndsAscend(rounds[n].tablets)
    modifies slots
    ensures left <= slots.Length && Chained(old(slots[..]), log, slots[..left])
    ensures |log| <= attempts && |log| <= |rounds| && forall k | 0 <= k < |log| :: log[k].round == rounds[k]
    ensures err.None? <==> log != [] && left == 0 && !Fails(log[|log| - 1])
    ensures forall k | 0 <= k < |log| - 1 :: !Fails(log[k])
    ensures err.Some? && err.value.Incomplete? ==> |log| == attempts && err.value.unapplied == left
    ensures err == Some(OperationFailed) <==> log != [] && Fails(log[|log| - 1])
    ensures err == Some(Stopped) ==> |log| < attempts && Interrupted(rounds, |log|)
  {
    hide Plans, Attempts, CompletedRows, Fails, EndsAscend, Without;
    ghost var requested := slots[..];
    left, log, err := slots.Length, [], None;
    var attempt := 0;
    while attempt < attempts
      invariant attempt <= attempts && attempt == |log| <= |rounds| && left <= slots.Length
      invariant Chained(requested, log, slots[..left])
      invariant forall k | 0 <= k < |log| :: log[k].round == rounds[k] && !Fails(log[k])
      invariant log != [] ==> left > 0
    {
      if attempt == |rounds| || rounds[attempt].contextDone || rounds[attempt].locateFails {
        return Some(Stopped), left, log;
      }
      var round := rounds[attempt];
      ghost var before := slots[..left];
      var plan := PlanTableSplits(round.tablets, slots[..left]);
      var completed, failed, attempted, requests := ApplySplitPlan(plan, round, slots[..left]);
      var step := Step(round, slots[..left], plan, attempted);
      left := RemoveSplitRows(slots, left, completed);
      ChainedGrows(requested, log, before, step, slots[..left]);
      log := log + [step];
      if failed {
        return Some(OperationFailed), left, log;
      }
      if left == 0 {
        return None, left, log;
      }
      if attempt + 1 < attempts && round.waitFails {
        return Some(Stopped), left, log;
      }
      attempt := attempt + 1;
    }
    err := Some(Incomplete(left));
  }

  lemma ChainedGrows(requested: seq<Row>, log: seq<Step>, before: seq<Row>, step: Step, after: seq<Row>)
    requires Chained(requested, log, before) && Sound(step) && step.pending == before
    requires after == Without(before, CompletedRows(step))
    ensures Chained(requested, log + [step], after)
  {
    hide Plans, Attempts, CompletedRows;
    assert (log + [step])[..|log|] == log;
  }

  datatype Outcome =
    | Refused(index: nat)
    | Ran(err: Option<SplitError>, requested: seq<Row>, pending: seq<Row>, log: seq<Step>)

  /** The whole call: the caller's rows are normalized, then split in rounds. */
  method AddTableSplits(splits: seq<Row>, attempts: nat, rounds: seq<Round>) returns (out: Outcome)
    requires forall n | 0 <= n < |rounds| :: EndsAscend(rounds[n].tablets)
    ensures out.Ran? <==> splits != [] && [] !in splits
    ensures out.Refused? && splits != [] ==> out.index < |splits| && splits[out.index] == []
    ensures out.Ran? ==> RowSet(out.requested) == RowSet(splits) && Chained(out.requested, out.log, out.pending)
    ensures out.Ran? ==>
              && Confirmed(out.log) !! RowSet(out.pending)
              && Confirmed(out.log) + RowSet(out.pending) == RowSet(splits)
    ensures out.Ran? ==> StrictlySorted(out.pending) && |out.log| <= attempts && |out.log| <= |rounds|
    ensures out.Ran? ==> forall k | 0 <= k < |out.log| :: out.log[k].round == rounds[k]
    ensures out.Ran? ==> forall k | 0 <= k < |out.log| - 1 :: !Fails(out.log[k])
    ensures out.Ran? ==>
              (out.err.None? <==> out.log != [] && out.pending == [] && !Fails(out.log[|out.log| - 1]))
    ensures out.Ran? && out.err.Some? && out.err.value.Incomplete? ==>
              |out.log| == attempts && out.err.value.unapplied == |out.pending|
    ensures out.Ran? && out.err == Some(OperationFailed) ==> out.log != [] && Fails(out.log[|out.log| - 1])
    ensures out.Ran? ==>
              forall k, i | 0 <= k < |out.log| && 0 <= i < out.log[k].attempted && i < |rounds[k].replies| ::
                rounds[k].replies[i].fails || rounds[k].replies[i].encodeFails ==>
                  k == |out.log| - 1 && out.err == Some(OperationFailed)
    ensures out.Ran? ==>
              forall k | 0 <= k < |out.log| && out.log[k].plan.existing != [] && rounds[k].refreshFails ::
                k == |out.log| - 1 && out.err == Some(OperationFailed)
    ensures out.Ran? && out.err == Some(Stopped) ==> |out.log| < attempts && Interrupted(rounds, |out.log|)
    ensures out.Ran? && out.err.None? ==> Confirmed(out.log) == RowSet(splits)
    ensures out.Ran? && out.err.None? ==>
      forall boundaries | TruthfulRun(out.log, boundaries) :: RowSet(splits) <= boundaries[|out.log|]
  {
    hide EndsAscend, Plans, CompletedRows, Attempts, Fails, Truthful, Less, StrictlySorted;
    var normalized := NormalizeSplitRows(splits);
    if normalized.Err? {
      return Refused(normalized.error);
    }
    var rows := normalized.value;
    var slots := new Row[|rows|](i requires 0 <= i < |rows| => rows[i]);
    assert slots[..] == rows;
    var err, left, log := AddSplits(slots, attempts, rounds);
    var pending := slots[..left];
    RowsAccounted(rows, log, pending);
    PendingAscends(rows, log, pending);
    forall boundaries | TruthfulRun(log, boundaries) ensures Confirmed(log) <= boundaries[|log|] {
      ConfirmedAreBoundaries(rows, log, pending, boundaries);
    }
    forall k, i | 0 <= k < |log| && 0 <= i < log[k].attempted && i < |rounds[k].replies| &&
                  (rounds[k].replies[i].fails || rounds[k].replies[i].encodeFails)
      ensures Fails(log[k])
    {
      ReplyFails(log[k], i);
    }
    forall k | 0 <= k < |log| && log[k].plan.existing != [] && rounds[k].refreshFails ensures Fails(log[k]) {
      RefreshFails(log[k]);
    }
    out := Ran(err, rows, pending, log);
  }

  /** Every row a run submits is strictly inside the tablet it is submitted for, and was still pending. */
  lemma {:induction false} RequestsStayInside(
    requested: seq<Row>, log: seq<Step>, pending: seq<Row>, k: nat, i: nat, r: Row)
    requires Chained(requested, log, pending)
    requires k < |log| && i < log[k].attempted <= |log[k].plan.groups| && r in log[k].plan.groups[i].rows
    ensures StrictlyInside(log[k].plan.groups[i].extent, r) && log[k].plan.groups[i].extent in log[k].round.tablets
    ensures r in log[k].pending && r in requested && r !in Confirmed(log[..k])
  {
    hide CompletedRows, Attempts, ExistingRows;
    var last := log[|log| - 1];
    var front := log[..|log| - 1];
    if k == |log| - 1 {
      RowsAccounted(requested, front, last.pending);
      var g := last.plan.groups[i];
      assert SoundGroup(last.round.tablets, g);
      assert r in GroupRows(last.plan.groups);
      assert r in RowSet(last.pending);
      assert r in RowSet(requested);
    } else {
      assert front[..k] == log[..k];
      RequestsStayInside(requested, front, last.pending, k, i, r);
    }
  }
}
