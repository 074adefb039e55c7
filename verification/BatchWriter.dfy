/**
 The batch writer: buffering under a memory bound, flushing with bounded
 retries, and a failure latch. Every method is one section the source runs
 while it holds the writer's gate. The tablet servers keep the log of what they
 committed, which only the calls sent to them change; `added` is every mutation
 that entered the buffer and was not taken back out of it.
 */
module BatchWriter {
  import opened Wrappers
  import opened Bytes
  import opened TabletExtents
  import opened WriterPlan
  import opened TabletServers
  import opened WriterSend

  datatype Cause =
    | ContextDone | NilMutation | EmptyMutation | WriterClosed | TableUnresolved | RoutingFailed
    | InvalidateFailed | WaitFailed | SendFailed | RetryExhausted

  /** `latched` is ErrBatchWriterFailed, `automatic` is ErrBatchWriterAutoFlush. */
  datatype Error = Error(cause: Cause, latched: bool, automatic: bool)

  /** The environment of one flush: table resolution, then one round per attempt. */
  datatype Flushing = Flushing(tableResolves: bool, rounds: seq<Round>)

  /** A flush whose script has run out of rounds finds no tablet. */
  function RoundAt(env: Flushing, attempt: nat): Round {
    if attempt < |env.rounds| then env.rounds[attempt] else Round(ByRow(map[]), map[], false, false)
  }

  predicate RoutesByRow(env: Flushing) { forall i | 0 <= i < |env.rounds| :: env.rounds[i].routing.ByRow? }

  // ---- When a flush succeeds ----

  /** The checks between two attempts let the next one run. */
  predicate MayRetry(round: Round, attempt: nat, retries: nat) {
    !round.invalidateFails && attempt < retries && !round.waitFails
  }

  /** Some attempt, from this one on, leaves nothing to retry before anything goes wrong. */
  predicate Settles(env: Flushing, attempt: nat, ms: seq<Mutation>, retries: nat)
    decreases if attempt < retries then retries - attempt else 0
  {
    var round := RoundAt(env, attempt);
    match Plan(round.routing, ms)
    case Err(route) =>
      !route.RouteFailed? && MayRetry(round, attempt, retries) && Settles(env, attempt + 1, ms, retries)
    case Ok(plans) =>
      var outcome := SendAll(plans, round);
      && !outcome.failed
      && (outcome.retry == [] ||
          (MayRetry(round, attempt, retries) && Settles(env, attempt + 1, outcome.retry, retries)))
  }

  predicate FlushSettles(env: Flushing, ms: seq<Mutation>, retries: nat) {
    ms == [] || (env.tableResolves && Settles(env, 0, ms, retries))
  }

  /** Some attempt, from this one on, makes an Apply call before the flush ends. */
  predicate Submits(env: Flushing, attempt: nat, ms: seq<Mutation>, retries: nat)
    decreases if attempt < retries then retries - attempt else 0
  {
    var round := RoundAt(env, attempt);
    match Plan(round.routing, ms)
    case Err(route) =>
      !route.RouteFailed? && MayRetry(round, attempt, retries) && Submits(env, attempt + 1, ms, retries)
    case Ok(plans) =>
      var outcome := SendAll(plans, round);
      || outcome.submitted
      || (!outcome.failed && outcome.retry != [] &&
          MayRetry(round, attempt, retries) && Submits(env, attempt + 1, outcome.retry, retries))
  }

  predicate FlushSubmits(env: Flushing, ms: seq<Mutation>, retries: nat) {
    ms != [] && env.tableResolves && Submits(env, 0, ms, retries)
  }

  // ---- What servers may answer ----

  /** The attempt finds the row's tablet, and its server commits everything. */
  predicate QuietAt(round: Round, row: Row) {
    && round.routing.ByRow?
    && var route := RouteOf(round.routing, 0, row);
       && route.Located?
       && var reply := ReplyOf(round, route.address);
          reply.Closed? && reply.errors.None?
  }

  predicate QuietFor(env: Flushing, row: Row) {
    env.tableResolves && env.rounds != [] && QuietAt(env.rounds[0], row)
  }

  predicate CommitsAll(plan: ServerPlan, round: Round) {
    ReplyOf(round, plan.address).Closed? && ReplyOf(round, plan.address).errors.None?
  }

  /** When every row's tablet is found and every server answers, a flush succeeds. */
  lemma QuietSettles(env: Flushing, ms: seq<Mutation>, retries: nat)
    requires forall m | m in ms :: QuietFor(env, m.row)
    ensures FlushSettles(env, ms, retries)
  {
    hide Plan, SendAll;
    if ms != [] {
      assert QuietFor(env, ms[0].row);
      QuietAttempt(env.rounds[0], ms);
    }
  }

  lemma QuietAttempt(round: Round, ms: seq<Mutation>)
    requires forall m | m in ms :: QuietAt(round, m.row)
    ensures var plan := Plan(round.routing, ms);
            plan.Ok? && !SendAll(plan.value, round).failed && SendAll(plan.value, round).retry == []
  {
    hide Plan, SendAll;
    if ms == [] {
      NothingPlanned(round.routing);
      QuietSend([], round);
    } else {
      QuietPlan(round, ms);
      QuietSend(Plan(round.routing, ms).value, round);
    }
  }

  lemma NothingPlanned(routing: Routing)
    ensures Plan(routing, []) == Ok([])
  {
  }

  lemma {:induction false} QuietPlan(round: Round, ms: seq<Mutation>)
    requires forall m | m in ms :: QuietAt(round, m.row)
    ensures var plan := Plan(round.routing, ms);
            plan.Ok? && forall i | 0 <= i < |plan.value| :: CommitsAll(plan.value[i], round)
  {
    hide Place;
    if ms != [] {
      var front, last := ms[..|ms| - 1], ms[|ms| - 1];
      QuietPlan(round, front);
      assert QuietAt(round, last.row);
      var route := RouteOf(round.routing, 0, last.row);
      PlaceCommits(Plan(round.routing, front).value, route.address, route.extent, last, round);
    }
  }

  lemma {:induction false} PlaceCommits(plans: seq<ServerPlan>, a: string, x: Extent, m: Mutation, round: Round)
    requires forall i | 0 <= i < |plans| :: CommitsAll(plans[i], round)
    requires CommitsAll(ServerPlan(a, []), round)
    ensures forall i | 0 <= i < |Place(plans, a, x, m)| :: CommitsAll(Place(plans, a, x, m)[i], round)
  {
    if plans != [] && plans[0].address != a {
      PlaceCommits(plans[1..], a, x, m, round);
    }
  }

  lemma {:induction false} QuietSend(plans: seq<ServerPlan>, round: Round)
    requires forall i | 0 <= i < |plans| :: CommitsAll(plans[i], round)
    ensures !SendAll(plans, round).failed && SendAll(plans, round).retry == []
  {
    if plans != [] {
      assert CommitsAll(plans[0], round);
      QuietSend(plans[1..], round);
    }
  }

  /** A route that is a tablet or a failure worth retrying. */
  predicate TameRoutes(routing: Routing) {
    match routing
    case ByRow(rows) => forall r | r in rows :: !rows[r].RouteFailed?
    case ByPosition(positions) => forall i | 0 <= i < |positions| :: !positions[i].RouteFailed?
  }

  /** Rows may be missing and sessions may fail to start; the others commit everything. */
  predicate Tame(round: Round) {
    && !round.invalidateFails && !round.waitFails && TameRoutes(round.routing)
    && forall a | a in round.replies ::
         round.replies[a].StartFailed? || (round.replies[a].Closed? && round.replies[a].errors.None?)
  }

  lemma {:induction false} TameSend(plans: seq<ServerPlan>, round: Round)
    requires Tame(round)
    ensures !SendAll(plans, round).failed
  {
    if plans != [] {
      TameSend(plans[1..], round);
    }
  }

  lemma {:induction false} TamePlan(routing: Routing, ms: seq<Mutation>)
    requires TameRoutes(routing)
    ensures Plan(routing, ms).Err? ==> !Plan(routing, ms).error.RouteFailed?
  {
    if ms != [] {
      TamePlan(routing, ms[..|ms| - 1]);
    }
  }

  /**
   As long as the attempts allowed, rows may be missing and sessions fail to
   start; an attempt that then finds every row and every server settles the flush.
   */
  lemma {:induction false} TameSettles(env: Flushing, attempt: nat, last: nat, ms: seq<Mutation>, retries: nat)
    requires attempt <= last <= retries && last < |env.rounds|
    requires forall i | attempt <= i < last :: Tame(env.rounds[i])
    requires forall m | m in ms :: QuietAt(env.rounds[last], m.row)
    ensures Settles(env, attempt, ms, retries)
    decreases last - attempt
  {
    hide Plan, SendAll, QuietAt, Tame;
    var round := env.rounds[attempt];
    if attempt == last {
      QuietAttempt(round, ms);
    } else {
      TameRetries(round, attempt, retries);
      TamePlan(round.routing, ms);
      if Plan(round.routing, ms).Err? {
        TameSettles(env, attempt + 1, last, ms, retries);
      } else {
        var plans := Plan(round.routing, ms).value;
        TameSend(plans, round);
        RoundConserves(round.routing, ms, round);
        var retry := SendAll(plans, round).retry;
        Among(Mutations(Cut(plans, round, true)), retry, ms);
        TameSettles(env, attempt + 1, last, retry, retries);
      }
    }
  }

  lemma TameRetries(round: Round, attempt: nat, retries: nat)
    requires Tame(round)
    ensures TameRoutes(round.routing) && (attempt < retries ==> MayRetry(round, attempt, retries))
  {
  }

  lemma Among(a: seq<Mutation>, b: seq<Mutation>, all: seq<Mutation>)
    requires multiset(a) + multiset(b) == multiset(all)
    ensures forall m | m in b :: m in all
  {
    forall m | m in b ensures m in all {
      assert m in multiset(a) + multiset(b);
    }
  }

  /** So a flush outlives as many such attempts as it may retry. */
  lemma FlushOutlives(env: Flushing, last: nat, ms: seq<Mutation>, retries: nat)
    requires env.tableResolves && last <= retries && last < |env.rounds|
    requires forall i | 0 <= i < last :: Tame(env.rounds[i])
    requires forall m | m in ms :: QuietAt(env.rounds[last], m.row)
    ensures FlushSettles(env, ms, retries)
  {
    TameSettles(env, 0, last, ms, retries);
  }

  /** No attempt beyond those allowed is made: if none of them starts a session, the flush fails. */
  lemma {:induction false} IdleNeverSettles(env: Flushing, attempt: nat, ms: seq<Mutation>, retries: nat)
    requires ms != [] && attempt <= retries
    requires forall i | attempt <= i <= retries :: RoundAt(env, i).replies == map[]
    ensures !Settles(env, attempt, ms, retries)
    decreases retries - attempt
  {
    hide Plan, SendAll;
    var round := RoundAt(env, attempt);
    var plan := Plan(round.routing, ms);
    if plan.Ok? {
      IdleSend(plan.value, round);
      RoundConserves(round.routing, ms, round);
      var outcome := SendAll(plan.value, round);
      SameSize([], outcome.retry, ms);
      if attempt < retries { IdleNeverSettles(env, attempt + 1, outcome.retry, retries); }
    } else if attempt < retries {
      IdleNeverSettles(env, attempt + 1, ms, retries);
    }
  }

  lemma {:induction false} IdleSend(plans: seq<ServerPlan>, round: Round)
    requires round.replies == map[]
    ensures !SendAll(plans, round).failed && !SendAll(plans, round).submitted
  {
    if plans != [] {
      IdleSend(plans[1..], round);
    }
  }

  lemma SameSize(a: seq<Mutation>, b: seq<Mutation>, all: seq<Mutation>)
    requires multiset(a) + multiset(b) == multiset(all)
    ensures |a| + |b| == |all|
  {
    assert |multiset(a) + multiset(b)| == |multiset(all)|;
  }

  /** The report names no extent, one that was not sent, one twice, or a count that cannot be. */
  predicate Garbled(plan: ServerPlan, failed: seq<(Option<Extent>, int)>) {
    exists i | 0 <= i < |failed| ::
      || failed[i].0.None? || failed[i].1 < 0
      || (forall k | 0 <= k < |plan.extents| && plan.extents[k].extent == failed[i].0.value ::
            failed[i].1 > |plan.extents[k].mutations|)
      || exists j | 0 <= j < i :: failed[j].0 == failed[i].0
  }

  /** The session cannot have been a success: a rejection, or no sound word of what was committed. */
  predicate Refuses(plan: ServerPlan, reply: Reply) {
    match reply
    case StartFailed => false
    case ApplyFailed(_, _) => true
    case CloseFailed(_) => true
    case Closed(errors, _) =>
      errors.Some? &&
      (errors.value.violations > 0 || errors.value.authorization != [] || Garbled(plan, errors.value.failed))
  }

  lemma GarbledIsRefused(plan: ServerPlan, failed: seq<(Option<Extent>, int)>)
    requires DistinctExtents(plan.extents) && Garbled(plan, failed)
    ensures !Legible(plan, failed)
  {
    hide FindIn;
    if Legible(plan, failed) {
      var i :| 0 <= i < |failed| &&
        (failed[i].0.None? || failed[i].1 < 0 ||
         (forall k | 0 <= k < |plan.extents| && plan.extents[k].extent == failed[i].0.value ::
            failed[i].1 > |plan.extents[k].mutations|) ||
         exists j | 0 <= j < i :: failed[j].0 == failed[i].0);
      var k :| 0 <= k < |plan.extents| && plan.extents[k].extent == failed[i].0.value;
      FindInOwn(plan.extents, k);
    }
  }

  lemma {:induction false} RefusalFails(plans: seq<ServerPlan>, i: nat, round: Round)
    requires i < |plans| && DistinctExtents(plans[i].extents)
    requires Refuses(plans[i], ReplyOf(round, plans[i].address))
    ensures SendAll(plans, round).failed && SendAll(plans, round).submitted
  {
    hide Legible, Suffixes, Garbled, DistinctExtents;
    var reply := ReplyOf(round, plans[i].address);
    if reply.Closed? && reply.errors.Some? && Garbled(plans[i], reply.errors.value.failed) {
      GarbledIsRefused(plans[i], reply.errors.value.failed);
    }
    if i > 0 {
      RefusalFails(plans[1..], i - 1, round);
    }
  }

  /** What the attempt starts with, if the flush comes to it. */
  function LeftAt(env: Flushing, attempt: nat, ms: seq<Mutation>, retries: nat): Option<seq<Mutation>> {
    if attempt == 0 then Some(ms)
    else
      var before := LeftAt(env, attempt - 1, ms, retries);
      if before.None? then None
      else
        var round := RoundAt(env, attempt - 1);
        if !MayRetry(round, attempt - 1, retries) then None
        else
          match Plan(round.routing, before.value)
          case Err(route) => if route.RouteFailed? then None else before
          case Ok(plans) =>
            var outcome := SendAll(plans, round);
            if outcome.failed || outcome.retry == [] then None else Some(outcome.retry)
  }

  /** The flush comes to an attempt in which a server refuses. */
  predicate RefusedAt(env: Flushing, attempt: nat, ms: seq<Mutation>, retries: nat) {
    && ms != [] && env.tableResolves
    && var left := LeftAt(env, attempt, ms, retries);
       && left.Some?
       && var plan := Plan(RoundAt(env, attempt).routing, left.value);
          plan.Ok? &&
          exists i | 0 <= i < |plan.value| ::
            Refuses(plan.value[i], ReplyOf(RoundAt(env, attempt), plan.value[i].address))
  }

  lemma {:induction false} LeftDecides(env: Flushing, attempt: nat, ms: seq<Mutation>, retries: nat)
    requires LeftAt(env, attempt, ms, retries).Some?
    ensures var left := LeftAt(env, attempt, ms, retries).value;
            && (Settles(env, 0, ms, retries) == Settles(env, attempt, left, retries))
            && (Submits(env, attempt, left, retries) ==> Submits(env, 0, ms, retries))
  {
    hide Plan, SendAll;
    if attempt > 0 {
      LeftDecides(env, attempt - 1, ms, retries);
    }
  }

  /** A rejected mutation is never a success: the flush fails, and fails after an Apply. */
  lemma RefusalEndsFlush(env: Flushing, attempt: nat, ms: seq<Mutation>, retries: nat)
    requires RefusedAt(env, attempt, ms, retries)
    ensures !FlushSettles(env, ms, retries) && FlushSubmits(env, ms, retries)
  {
    hide Plan, SendAll, Refuses, LeftAt;
    var left, round := LeftAt(env, attempt, ms, retries).value, RoundAt(env, attempt);
    LeftDecides(env, attempt, ms, retries);
    var plans := Plan(round.routing, left).value;
    PlanGroups(round.routing, left, "", Extent([], None, None));
    var i :| 0 <= i < |plans| && Refuses(plans[i], ReplyOf(round, plans[i].address));
    RefusalFails(plans, i, round);
  }

  // ---- The account ----

  /** For every row: what was committed, then what is left, is what was added, in order. */
  ghost predicate RowsAccount(log: seq<Mutation>, left: seq<Mutation>, added: seq<Mutation>) {
    forall r: Row :: Rows(log, r) + Rows(left, r) == Rows(added, r)
  }

  ghost predicate RowsPrefix(log: seq<Mutation>, added: seq<Mutation>) {
    forall r: Row :: Rows(log, r) <= Rows(added, r)
  }

  /** Every mutation is committed or left, none twice; `ordered` adds the order within rows. */
  ghost predicate Accounted(log: seq<Mutation>, left: seq<Mutation>, added: seq<Mutation>, ordered: bool) {
    multiset(log) + multiset(left) == multiset(added) && (ordered ==> RowsAccount(log, left, added))
  }

  /** Nothing committed more often than it was added, and rows in order. */
  ghost predicate AtMostOnce(log: seq<Mutation>, added: seq<Mutation>, ordered: bool) {
    multiset(log) <= multiset(added) && (ordered ==> RowsPrefix(log, added))
  }

  lemma AccountedAtMostOnce(log: seq<Mutation>, left: seq<Mutation>, added: seq<Mutation>, ordered: bool)
    requires Accounted(log, left, added, ordered)
    ensures AtMostOnce(log, added, ordered)
  {
    hide Rows;
  }

  lemma AccountedAppend(log: seq<Mutation>, left: seq<Mutation>, added: seq<Mutation>, ordered: bool, m: Mutation)
    requires Accounted(log, left, added, ordered)
    ensures Accounted(log, left + [m], added + [m], ordered)
  {
    hide Rows;
    if ordered {
      forall r: Row ensures Rows(log, r) + Rows(left + [m], r) == Rows(added + [m], r) {
        RowsConcat(left, [m], r);
        RowsConcat(added, [m], r);
        assert Rows(log, r) + (Rows(left, r) + Rows([m], r)) == (Rows(log, r) + Rows(left, r)) + Rows([m], r);
      }
    }
  }

  /** A round moves the account: committed mutations join the log, the others are left. */
  lemma RoundAccount(
    log: seq<Mutation>, left: seq<Mutation>, added: seq<Mutation>, ordered: bool, round: Round)
    requires Accounted(log, left, added, ordered) && Plan(round.routing, left).Ok?
    requires ordered ==> round.routing.ByRow?
    ensures var plans := Plan(round.routing, left).value;
            var outcome, committed := SendAll(plans, round), Mutations(Cut(plans, round, true));
            && AtMostOnce(log + committed, added, ordered)
            && (!outcome.failed ==> Accounted(log + committed, outcome.retry, added, ordered))
            && (!outcome.submitted ==> committed == [])
  {
    hide Plan, SendAll, Cut, Mutations, Rows, ProperServer;
    var plans := Plan(round.routing, left).value;
    var outcome, committed := SendAll(plans, round), Mutations(Cut(plans, round, true));
    RoundConserves(round.routing, left, round);
    PlanGroups(round.routing, left, "", Extent([], None, None));
    assert forall i | 0 <= i < |plans| :: ProperServer(plans[i]);
    RoundRetriesRest(plans, round);
    assert multiset(log + committed) == multiset(log) + multiset(committed);
    if ordered {
      RoundRows(log, left, added, round);
    }
  }

  lemma RoundRows(log: seq<Mutation>, left: seq<Mutation>, added: seq<Mutation>, round: Round)
    requires RowsAccount(log, left, added) && Plan(round.routing, left).Ok? && round.routing.ByRow?
    ensures var plans := Plan(round.routing, left).value;
            var committed, rest := Mutations(Cut(plans, round, true)), Mutations(Cut(plans, round, false));
            RowsAccount(log + committed, rest, added) && RowsPrefix(log + committed, added)
  {
    hide Plan, Cut, Mutations, Rows;
    var plans := Plan(round.routing, left).value;
    var committed, rest := Mutations(Cut(plans, round, true)), Mutations(Cut(plans, round, false));
    forall r: Row ensures Rows(log + committed, r) + Rows(rest, r) == Rows(added, r) {
      RoundKeepsRowOrder(round.routing, left, round, r);
      RowsConcat(log, committed, r);
      assert (Rows(log, r) + Rows(committed, r)) + Rows(rest, r) == Rows(log, r) + (Rows(committed, r) + Rows(rest, r));
    }
  }

  class BatchWriter {
    const maxMemory: nat
    const maxBatch: int
    const maxRetries: nat
    const maxLatency: nat

    var pending: seq<Mutation>
    var pendingBytes: nat
    var pendingSince: Option<nat>
    var failure: Option<Error>
    var closed: bool
    var closeErr: Option<Error>

    const servers: Servers
    var added: seq<Mutation>
    ghost var ordered: bool

    /** The buffer's own books. */
    ghost predicate BufferKept()
      reads this
    {
      && pendingBytes == Total(pending)
      && (pending == [] <==> pendingSince.None?)
    }

    /** The books against the servers, in each of the writer's three conditions. */
    ghost predicate ServersKept()
      reads this, servers
    {
      && (failure.None? && !closed ==> Accounted(servers.log, pending, added, ordered))
      && AtMostOnce(servers.log, added, ordered)
      && (closed && closeErr.None? ==> failure.None? && Accounted(servers.log, [], added, ordered))
      && (failure.Some? || closed ==> pending == [])
    }

    ghost predicate Valid()
      reads this, servers
    {
      0 < maxMemory && BufferKept() && pendingBytes < maxMemory && ServersKept()
    }

    constructor (memory: nat, batch: int, retries: nat, latency: nat)
      requires 0 < memory
      ensures Valid() && failure.None? && !closed && servers.log == [] && added == [] && ordered && fresh(servers)
      ensures maxMemory == memory && maxRetries == retries && maxLatency == latency
    {
      maxMemory, maxBatch, maxRetries, maxLatency := memory, batch, retries, latency;
      pending, pendingBytes, pendingSince := [], 0, None;
      failure, closed, closeErr := None, false, None;
      servers := new Servers();
      added, ordered := [], true;
    }

    /** `clearPendingLocked`. */
    method ClearPending()
      modifies this`pending, this`pendingBytes, this`pendingSince
      ensures pending == [] && BufferKept()
    {
      pending, pendingBytes, pendingSince := [], 0, None;
    }

    /** `finishSubmissionFailure`: latches only when something was submitted. */
    method FinishFailure(submitted: bool, cause: Cause) returns (err: Option<Error>)
      modifies this`pending, this`pendingBytes, this`pendingSince, this`failure
      ensures err.Some? && err.value.latched == submitted && !err.value.automatic && err.value.cause == cause
      ensures submitted ==> failure == err && pending == [] && BufferKept()
      ensures !submitted ==> failure == old(failure) && pending == old(pending)
      ensures !submitted ==> pendingBytes == old(pendingBytes) && pendingSince == old(pendingSince)
    {
      err := Some(Error(cause, submitted, false));
      if !submitted {
        return;
      }
      failure := err;
      ClearPending();
    }

    /** What a flush leaves behind, by how it ended. */
    twostate predicate Flushed(new err: Option<Error>)
      reads this, servers
    {
      && BufferKept() && closed == old(closed) && closeErr == old(closeErr) && added == old(added)
      && AtMostOnce(servers.log, added, ordered) && old(servers.log) <= servers.log
      && (old(failure).Some? ==> err == failure == old(failure) && servers.log == old(servers.log))
      && (err.None? ==> failure.None? && pending == [] && Accounted(servers.log, [], added, ordered))
      && (err.Some? && failure.Some? ==> err == failure && pending == [])
      && (failure.Some? && old(failure).None? ==> servers.applies > old(servers.applies))
      && (err.Some? && failure.None? ==>
            && pending == old(pending) && pendingBytes == old(pendingBytes) && pendingSince == old(pendingSince)
            && servers.log == old(servers.log) && servers.applies == old(servers.applies)
            && Accounted(servers.log, pending, added, ordered))
    }

    /** The checks that end an attempt which must be retried; None lets the next attempt run. */
    method RetryOrFail(round: Round, attempt: nat, submitted: bool) returns (err: Option<Error>)
      modifies this`pending, this`pendingBytes, this`pendingSince, this`failure
      ensures err.None? <==> MayRetry(round, attempt, maxRetries)
      ensures err.Some? && submitted ==> failure == err && pending == [] && BufferKept()
      ensures err.None? || !submitted ==>
                failure == old(failure) && pending == old(pending) &&
                pendingBytes == old(pendingBytes) && pendingSince == old(pendingSince)
    {
      if round.invalidateFails {
        err := FinishFailure(submitted, InvalidateFailed);
      } else if attempt >= maxRetries {
        err := FinishFailure(submitted, RetryExhausted);
      } else if round.waitFails {
        err := FinishFailure(submitted, WaitFailed);
      } else {
        err := None;
      }
    }

    /** Sends one round's plans; what the servers commit follows from what they are sent. */
    method SendRound(plans: seq<ServerPlan>, round: Round, ghost remaining: seq<Mutation>) returns (outcome: Outcome)
      requires Plan(round.routing, remaining) == Ok(plans)
      requires Accounted(servers.log, remaining, added, ordered) && (ordered ==> round.routing.ByRow?)
      modifies servers
      ensures AtMostOnce(servers.log, added, ordered) && old(servers.log) <= servers.log
      ensures !outcome.failed ==> Accounted(servers.log, outcome.retry, added, ordered)
      ensures !outcome.submitted ==>
                servers.log == old(servers.log) && servers.applies == old(servers.applies) && !outcome.failed
      ensures outcome.submitted ==> servers.applies > old(servers.applies)
      ensures outcome == SendAll(plans, round) && servers.applies >= old(servers.applies)
    {
      hide Rows, Plan, SendAll, Cut, Mutations, Accounted, AtMostOnce;
      PlanGroups(round.routing, remaining, "", Extent([], None, None));
      ghost var before := servers.log;
      FailedSubmits(plans, round);
      ghost var effective;
      outcome, effective := SendPlans(servers, plans, round, maxBatch);
      RoundAccount(before, remaining, added, ordered, effective);
    }

    /** `flushLocked`. */
    method FlushLocked(env: Flushing) returns (err: Option<Error>)
      requires BufferKept() && AtMostOnce(servers.log, added, ordered)
      requires failure.Some? ==> pending == []
      requires failure.None? ==> Accounted(servers.log, pending, added, ordered)
      modifies this, servers
      ensures ordered == (old(ordered) && RoutesByRow(env))
      ensures Flushed(err)
      ensures err.None? <==> old(failure).None? && FlushSettles(env, old(pending), maxRetries)
      ensures old(failure).None? ==>
                (failure.Some? <==>
                  !FlushSettles(env, old(pending), maxRetries) && FlushSubmits(env, old(pending), maxRetries))
      ensures forall attempt: nat | RefusedAt(env, attempt, old(pending), maxRetries) :: err.Some? && failure.Some?
    {
      hide Rows, Total, Plan, Accounted, AtMostOnce, Settles, Submits, LeftAt;
      forall attempt: nat | RefusedAt(env, attempt, pending, maxRetries)
        ensures !FlushSettles(env, pending, maxRetries) && FlushSubmits(env, pending, maxRetries)
      {
        RefusalEndsFlush(env, attempt, pending, maxRetries);
      }
      Weaken(servers.log, pending, added, ordered, RoutesByRow(env));
      ordered := ordered && RoutesByRow(env);
      if failure.Some? {
        return failure;
      }
      if pending == [] {
        return None;
      }
      if !env.tableResolves {
        return Some(Error(TableUnresolved, false, false));
      }
      err := Attempts(env);
    }

    /** The attempt loop of `flushLocked`. */
    method Attempts(env: Flushing) returns (err: Option<Error>)
      requires BufferKept()
      requires AtMostOnce(servers.log, added, ordered) && Accounted(servers.log, pending, added, ordered)
      requires failure.None? && (ordered ==> RoutesByRow(env))
      modifies this`pending, this`pendingBytes, this`pendingSince, this`failure, servers
      ensures Flushed(err)
      ensures err.None? <==> Settles(env, 0, old(pending), maxRetries)
      ensures err.Some? ==> (failure.Some? <==> Submits(env, 0, old(pending), maxRetries))
    {
      hide Total, Plan, SendAll, Accounted, AtMostOnce, Settles, Submits;
      var remaining, submitted, attempt := pending, false, 0;
      while true
        invariant attempt <= maxRetries
        invariant Accounted(servers.log, remaining, added, ordered) && AtMostOnce(servers.log, added, ordered)
        invariant old(servers.log) <= servers.log
        invariant unchanged(`pending) && unchanged(`pendingBytes) && unchanged(`pendingSince) && unchanged(`failure)
        invariant submitted ==> servers.applies > old(servers.applies)
        invariant !submitted ==> servers.log == old(servers.log) && servers.applies == old(servers.applies)
        invariant Settles(env, attempt, remaining, maxRetries) == Settles(env, 0, old(pending), maxRetries)
        invariant Submits(env, 0, old(pending), maxRetries) ==
                  (submitted || Submits(env, attempt, remaining, maxRetries))
        decreases maxRetries - attempt
      {
        var round := RoundAt(env, attempt);
        SettlesStep(env, attempt, remaining, maxRetries);
        var planned := PlanMutations(round.routing, remaining);
        if planned.Err? {
          if planned.error.RouteFailed? {
            err := FinishFailure(submitted, RoutingFailed);
            break;
          }
          err := RetryOrFail(round, attempt, submitted);
          if err.Some? {
            break;
          }
        } else {
          var outcome := SendRound(planned.value, round, remaining);
          submitted := submitted || outcome.submitted;
          if outcome.failed {
            err := FinishFailure(submitted, SendFailed);
            break;
          }
          if outcome.retry == [] {
            ClearPending();
            return None;
          }
          err := RetryOrFail(round, attempt, submitted);
          if err.Some? {
            break;
          }
          remaining := outcome.retry;
        }
        attempt := attempt + 1;
      }
    }

    /** `Add`; `input` is None for a nil mutation, and an empty one has no updates. */
    method Add(
      input: Option<Mutation>, hasUpdates: bool, contextDone: bool, now: nat, first: Flushing, second: Flushing)
      returns (err: Option<Error>)
      requires Valid()
      modifies this, servers
      ensures Valid() && old(servers.log) <= servers.log && closed == old(closed)
      ensures old(failure).Some? ==> failure == old(failure) && servers.log == old(servers.log) && added == old(added)
      ensures old(failure).Some? && !old(closed) && !contextDone && input.Some? ==> err == old(failure)
      ensures old(closed) ==>
                err.Some? && added == old(added) && servers.log == old(servers.log) && failure == old(failure)
      ensures err.Some? && failure.None? ==> added == old(added)
      ensures err.None? ==> input.Some? && failure.None? && added == old(added) + [input.value]
      ensures err.None? <==>
                && !contextDone && input.Some? && !old(closed) && old(failure).None? && hasUpdates
                && AddSettles(old(pending), input.value, maxMemory, maxRetries, first, second)
      ensures !contextDone && input.Some? && !old(closed) && old(failure).None? && hasUpdates ==>
                (old(pendingBytes) + input.value.size < maxMemory ==>
                  err.None? && pending == old(pending) + [input.value] && unchanged(servers))
      ensures err.None? && old(pendingBytes) > 0 && old(pendingBytes) + input.value.size > maxMemory ==>
                (input.value.size < maxMemory ==> pending == [input.value])
      ensures err.None? && old(pendingBytes) + input.value.size == maxMemory ==> pending == []
      ensures failure.Some? && old(failure).None? ==>
                err == failure && (added == old(added) || (input.Some? && added == old(added) + [input.value]))
      ensures ordered ==> old(ordered)
      ensures ordered == old(ordered) || !(RoutesByRow(first) && RoutesByRow(second))
    {
      hide Rows, Accounted, AtMostOnce, FlushSettles, FlushSubmits, RefusedAt;
      if contextDone {
        return Some(Error(ContextDone, false, false));
      }
      if input.None? {
        return Some(Error(NilMutation, false, false));
      }
      if closed {
        return Some(Error(WriterClosed, false, false));
      }
      if failure.Some? {
        return failure;
      }
      if !hasUpdates {
        return Some(Error(EmptyMutation, false, false));
      }
      var m := input.value;
      if pendingBytes > 0 && pendingBytes + m.size > maxMemory {
        err := FlushLocked(first);
        if err.Some? {
          return;
        }
      }
      assert [] + [m] == [m];
      err := AddBuffered(m, now, second);
    }

    /** The second half of `Add`: append, and flush when the bound is reached. */
    method AddBuffered(m: Mutation, now: nat, env: Flushing) returns (err: Option<Error>)
      requires Valid() && failure.None? && !closed
      modifies this, servers
      ensures Valid() && old(servers.log) <= servers.log && !closed
      ensures err.None? ==> failure.None? && added == old(added) + [m]
      ensures err.None? <==>
                old(pendingBytes) + m.size < maxMemory || FlushSettles(env, old(pending) + [m], maxRetries)
      ensures old(pendingBytes) + m.size < maxMemory ==>
                err.None? && pending == old(pending) + [m] && unchanged(servers)
      ensures err.None? && old(pendingBytes) + m.size >= maxMemory ==> pending == []
      ensures err.None? && pending != [] ==>
                && pending == old(pending) + [m]
                && pendingSince == (if old(pending) == [] then Some(now) else old(pendingSince))
      ensures err.Some? && failure.None? ==>
                added == old(added) && pending == old(pending) && servers.log == old(servers.log) &&
                pendingBytes == old(pendingBytes) && pendingSince == old(pendingSince)
      ensures failure.Some? ==> err == failure && added == old(added) + [m]
      ensures ordered ==> old(ordered)
      ensures ordered == old(ordered) || !RoutesByRow(env)
    {
      hide Rows, Accounted, AtMostOnce, Total, FlushSettles, FlushSubmits, RefusedAt;
      var previousBytes, previousSince := pendingBytes, pendingSince;
      Append(m, now);
      if pendingBytes < maxMemory {
        return None;
      }
      err := FlushLocked(env);
      if err.Some? && failure.None? {
        TakeBack(m, previousBytes, previousSince);
      }
      NoBytes();
    }

    method Append(m: Mutation, now: nat)
      requires BufferKept() && Accounted(servers.log, pending, added, ordered)
      modifies this`pending, this`pendingBytes, this`pendingSince, this`added
      ensures BufferKept() && Accounted(servers.log, pending, added, ordered) && AtMostOnce(servers.log, added, ordered)
      ensures pending == old(pending) + [m] && added == old(added) + [m]
      ensures pendingSince == if old(pending) == [] then Some(now) else old(pendingSince)
      ensures pendingBytes == old(pendingBytes) + m.size
    {
      hide Rows, Accounted, AtMostOnce, Total;
      if pending == [] {
        pendingSince := Some(now);
      }
      AccountedAppend(servers.log, pending, added, ordered, m);
      TotalSnoc(pending, m);
      pending, added := pending + [m], added + [m];
      pendingBytes := pendingBytes + m.size;
      AccountedAtMostOnce(servers.log, pending, added, ordered);
    }

    /** A failed flush that submitted nothing: the new mutation leaves the buffer again. */
    method TakeBack(ghost m: Mutation, bytes: nat, since: Option<nat>)
      requires Accounted(servers.log, pending, added, ordered) && |pending| > 0 && |added| > 0
      requires pending[|pending| - 1] == m && added[|added| - 1] == m
      requires bytes == Total(pending[..|pending| - 1]) && (|pending| == 1 <==> since.None?)
      modifies this`pending, this`pendingBytes, this`pendingSince, this`added
      ensures BufferKept() && Accounted(servers.log, pending, added, ordered) && AtMostOnce(servers.log, added, ordered)
      ensures pending == old(pending)[..|old(pending)| - 1] && added == old(added)[..|old(added)| - 1]
      ensures pendingBytes == bytes && pendingSince == since
    {
      hide Rows, Accounted, AtMostOnce, Total;
      ghost var before, beforeAdded := pending[..|pending| - 1], added[..|added| - 1];
      assert pending == before + [m] && added == beforeAdded + [m];
      DropOrdered(servers.log, before, beforeAdded, m, ordered);
      pending, added := pending[..|pending| - 1], added[..|added| - 1];
      pendingBytes, pendingSince := bytes, since;
      AccountedAtMostOnce(servers.log, pending, added, ordered);
    }

    method Flush(contextDone: bool, env: Flushing) returns (err: Option<Error>)
      requires Valid()
      modifies this, servers
      ensures Valid() && old(servers.log) <= servers.log && closed == old(closed) && added == old(added)
      ensures old(failure).Some? ==> failure == old(failure) && servers.log == old(servers.log)
      ensures old(failure).Some? && !old(closed) && !contextDone ==> err == old(failure)
      ensures old(closed) ==> err.Some? && servers.log == old(servers.log) && failure == old(failure)
      ensures err.None? ==> failure.None? && pending == [] && Accounted(servers.log, [], added, ordered)
      ensures err.None? <==>
                !contextDone && !old(closed) && old(failure).None? && FlushSettles(env, old(pending), maxRetries)
      ensures !contextDone && !old(closed) ==>
                forall attempt: nat | RefusedAt(env, attempt, old(pending), maxRetries) :: err.Some? && failure.Some?
      ensures err.Some? && failure.None? ==>
                pending == old(pending) && servers.log == old(servers.log) && servers.applies == old(servers.applies) &&
                pendingBytes == old(pendingBytes) && pendingSince == old(pendingSince)
      ensures ordered ==> old(ordered)
      ensures ordered == old(ordered) || !RoutesByRow(env)
    {
      hide Rows, Accounted, AtMostOnce;
      if contextDone {
        return Some(Error(ContextDone, false, false));
      }
      if closed {
        return Some(Error(WriterClosed, false, false));
      }
      err := FlushLocked(env);
    }

    /** `Close`: the first call flushes and drops what it could not commit; later calls repeat its result. */
    method Close(contextDone: bool, env: Flushing) returns (err: Option<Error>)
      requires Valid()
      modifies this, servers
      ensures Valid() && old(servers.log) <= servers.log && added == old(added)
      ensures contextDone ==> closed == old(closed)
      ensures !contextDone ==> closed && err == closeErr
      ensures old(closed) ==> servers.log == old(servers.log) && closeErr == old(closeErr)
      ensures old(failure).Some? ==> failure == old(failure) && servers.log == old(servers.log)
      ensures err.None? ==> failure.None? && Accounted(servers.log, [], added, ordered)
      ensures !contextDone && !old(closed) ==>
                (err.None? <==> old(failure).None? && FlushSettles(env, old(pending), maxRetries))
      ensures ordered ==> old(ordered)
      ensures ordered == old(ordered) || !RoutesByRow(env)
    {
      hide Rows, Accounted, AtMostOnce, FlushSettles, FlushSubmits, RefusedAt;
      if contextDone {
        return Some(Error(ContextDone, false, false));
      }
      if closed {
        return closeErr;
      }
      closed := true;
      var result := FlushLocked(env);
      closeErr := result;
      if closeErr.Some? && failure.None? {
        ClearPending();
      }
      NoBytes();
      err := closeErr;
    }

    /** `automaticFlushStep`: any flush error here is terminal. */
    method AutomaticFlush(now: nat, env: Flushing) returns (active: bool)
      requires Valid()
      modifies this, servers
      ensures Valid() && old(servers.log) <= servers.log && closed == old(closed) && added == old(added)
      ensures old(failure).Some? ==> failure == old(failure) && servers.log == old(servers.log)
      ensures failure.Some? && old(failure).None? ==> failure.value.automatic
      ensures old(failure).None? && !old(closed) && !active ==>
                (failure.None? <==> FlushSettles(env, old(pending), maxRetries))
      ensures old(closed) ==> unchanged(this) && unchanged(servers)
      ensures active ==> unchanged(this) && unchanged(servers)
      ensures active <==> old(pendingSince).Some? && old(pendingSince).value + maxLatency > now
      ensures !active ==> pending == []
      ensures ordered ==> old(ordered)
      ensures ordered == old(ordered) || !RoutesByRow(env)
    {
      hide Rows, Accounted, AtMostOnce;
      if closed || failure.Some? || pending == [] {
        return false;
      }
      if pendingSince.value + maxLatency > now {
        return true;
      }
      var err := FlushLocked(env);
      if err.Some? {
        failure := Some(err.value.(automatic := true));
        ClearPending();
      }
      NoBytes();
      active := false;
    }
  }

  lemma SettlesStep(env: Flushing, attempt: nat, ms: seq<Mutation>, retries: nat)
    ensures var round := RoundAt(env, attempt);
            Settles(env, attempt, ms, retries) ==
            match Plan(round.routing, ms)
            case Err(route) =>
              !route.RouteFailed? && MayRetry(round, attempt, retries) && Settles(env, attempt + 1, ms, retries)
            case Ok(plans) =>
              var outcome := SendAll(plans, round);
              && !outcome.failed
              && (outcome.retry == [] ||
                  (MayRetry(round, attempt, retries) && Settles(env, attempt + 1, outcome.retry, retries)))
    ensures var round := RoundAt(env, attempt);
            Submits(env, attempt, ms, retries) ==
            match Plan(round.routing, ms)
            case Err(route) =>
              !route.RouteFailed? && MayRetry(round, attempt, retries) && Submits(env, attempt + 1, ms, retries)
            case Ok(plans) =>
              var outcome := SendAll(plans, round);
              || outcome.submitted
              || (!outcome.failed && outcome.retry != [] &&
                  MayRetry(round, attempt, retries) && Submits(env, attempt + 1, outcome.retry, retries))
  {
    hide Plan, SendAll;
  }

  lemma Weaken(log: seq<Mutation>, left: seq<Mutation>, added: seq<Mutation>, ordered: bool, also: bool)
    ensures Accounted(log, left, added, ordered) ==> Accounted(log, left, added, ordered && also)
    ensures AtMostOnce(log, added, ordered) ==> AtMostOnce(log, added, ordered && also)
  {
  }

  /** Both flushes an Add may need succeed: one to make room, one at the bound. */
  predicate AddSettles(
    pending: seq<Mutation>, m: Mutation, memory: nat, retries: nat, first: Flushing, second: Flushing)
  {
    var overflows := Total(pending) > 0 && Total(pending) + m.size > memory;
    var buffer := if overflows then [m] else pending + [m];
    && (overflows ==> FlushSettles(first, pending, retries))
    && (Total(buffer) < memory || FlushSettles(second, buffer, retries))
  }

  lemma NoBytes()
    ensures Total([]) == 0
  {
  }

  lemma FailedSubmits(plans: seq<ServerPlan>, round: Round)
    ensures SendAll(plans, round).failed ==> SendAll(plans, round).submitted
  {
    if plans != [] {
      FailureSubmits(plans[0], ReplyOf(round, plans[0].address));
      FailedSubmits(plans[1..], round);
    }
  }

  /** Taking the last mutation back out restores the account from before it was added. */
  lemma DropOrdered(log: seq<Mutation>, left: seq<Mutation>, added: seq<Mutation>, m: Mutation, ordered: bool)
    requires Accounted(log, left + [m], added + [m], ordered)
    ensures Accounted(log, left, added, ordered)
  {
    CancelLast(multiset(log) + multiset(left), multiset(added), m);
    if ordered {
      forall r: Row ensures Rows(log, r) + Rows(left, r) == Rows(added, r) {
        hide Rows;
        RowsConcat(left, [m], r);
        RowsConcat(added, [m], r);
        var tail := Rows([m], r);
        assert (Rows(log, r) + Rows(left, r)) + tail == Rows(added, r) + tail;
        SameEnd(Rows(log, r) + Rows(left, r), Rows(added, r), tail);
      }
    }
  }

  lemma CancelLast(a: multiset<Mutation>, b: multiset<Mutation>, m: Mutation)
    requires a + multiset{m} == b + multiset{m}
    ensures a == b
  {
    assert a == (a + multiset{m}) - multiset{m} && b == (b + multiset{m}) - multiset{m};
  }

  lemma SameEnd(a: seq<Mutation>, b: seq<Mutation>, tail: seq<Mutation>)
    requires a + tail == b + tail
    ensures a == b
  {
    assert |a| == |b|;
    assert a == (a + tail)[..|a|] && b == (b + tail)[..|b|];
  }

  // ---- Whole runs ----

  /** One gate-held section, with everything its environment does. */
  datatype Call =
    | AddCall(input: Option<Mutation>, hasUpdates: bool, contextDone: bool, now: nat, first: Flushing, second: Flushing)
    | FlushCall(contextDone: bool, env: Flushing)
    | CloseCall(contextDone: bool, env: Flushing)
    | AutomaticCall(now: nat, env: Flushing)

  predicate CallRoutesByRow(call: Call) {
    match call
    case AddCall(_, _, _, _, first, second) => RoutesByRow(first) && RoutesByRow(second)
    case FlushCall(_, env) => RoutesByRow(env)
    case CloseCall(_, env) => RoutesByRow(env)
    case AutomaticCall(_, env) => RoutesByRow(env)
  }

  /** The mutations whose Add returned nil, among the first `n` calls, in order. */
  function Accepted(calls: seq<Call>, results: seq<Option<Error>>, n: nat): seq<Mutation>
    requires n <= |results| <= |calls|
  {
    if n == 0 then []
    else
      Accepted(calls, results, n - 1) +
      (if calls[n - 1].AddCall? && calls[n - 1].input.Some? && results[n - 1].None? then [calls[n - 1].input.value]
       else [])
  }

  lemma {:induction false} AcceptedExtends(calls: seq<Call>, results: seq<Option<Error>>, err: Option<Error>, n: nat)
    requires n <= |results| < |calls|
    ensures Accepted(calls, results + [err], n) == Accepted(calls, results, n)
  {
    if n > 0 {
      AcceptedExtends(calls, results, err, n - 1);
    }
  }

  /** Everything accepted so far is committed exactly once, and rows are in order. */
  ghost predicate Settled(log: seq<Mutation>, accepted: seq<Mutation>, byRow: bool) {
    multiset(log) == multiset(accepted) && (byRow ==> forall r: Row :: Rows(log, r) == Rows(accepted, r))
  }

  lemma AccountedSettled(log: seq<Mutation>, added: seq<Mutation>, ordered: bool)
    requires Accounted(log, [], added, ordered)
    ensures Settled(log, added, ordered)
  {
    hide Rows;
    assert multiset(log) + multiset([]) == multiset(log);
    forall r: Row ensures Rows(log, r) + Rows([], r) == Rows(log, r) {
      RowsNothing(r);
    }
  }

  /** A call with a live context, and a mutation with updates if it is an Add. */
  predicate QuietCall(call: Call) {
    match call
    case AddCall(input, hasUpdates, contextDone, _, first, second) =>
      && !contextDone && input.Some? && hasUpdates
      && QuietFor(first, input.value.row) && QuietFor(second, input.value.row)
    case FlushCall(contextDone, _) => !contextDone
    case CloseCall(contextDone, _) => !contextDone
    case AutomaticCall(_, _) => true
  }

  /** The call's flushes are quiet for all these mutations. */
  predicate QuietRows(call: Call, ms: seq<Mutation>) {
    forall m | m in ms ::
      match call
      case AddCall(_, _, _, _, first, second) => QuietFor(first, m.row) && QuietFor(second, m.row)
      case FlushCall(_, env) => QuietFor(env, m.row)
      case CloseCall(_, env) => QuietFor(env, m.row)
      case AutomaticCall(_, env) => QuietFor(env, m.row)
  }

  lemma QuietCallSettles(call: Call, pending: seq<Mutation>, memory: nat, retries: nat)
    requires QuietCall(call) && QuietRows(call, pending)
    ensures match call
            case AddCall(input, _, _, _, first, second) =>
              AddSettles(pending, input.value, memory, retries, first, second)
            case FlushCall(_, env) => FlushSettles(env, pending, retries)
            case CloseCall(_, env) => FlushSettles(env, pending, retries)
            case AutomaticCall(_, env) => FlushSettles(env, pending, retries)
  {
    hide QuietFor, FlushSettles, Total;
    match call
    case AddCall(input, _, _, _, first, second) =>
      QuietSettles(first, pending, retries);
      QuietSettles(second, [input.value], retries);
      QuietSettles(second, pending + [input.value], retries);
    case FlushCall(_, env) => QuietSettles(env, pending, retries);
    case CloseCall(_, env) => QuietSettles(env, pending, retries);
    case AutomaticCall(_, env) => QuietSettles(env, pending, retries);
  }

  /** Every call is quiet, for everything any call offers, and only the last one may close. */
  predicate QuietRun(calls: seq<Call>) {
    forall i | 0 <= i < |calls| ::
      && QuietCall(calls[i]) && (calls[i].CloseCall? ==> i == |calls| - 1)
      && forall j | 0 <= j < |calls| && Offers(calls[j]) :: QuietRows(calls[i], [calls[j].input.value])
  }

  /** Whatever is still pending was accepted, so a quiet run's next call is quiet for it. */
  lemma QuietPending(calls: seq<Call>, results: seq<Option<Error>>, log: seq<Mutation>, pending: seq<Mutation>)
    requires |results| < |calls| && QuietRun(calls)
    requires Accounted(log, pending, Accepted(calls, results, |results|), false)
    ensures QuietRows(calls[|results|], pending)
  {
    hide QuietFor, Accepted, QuietCall;
    var n := |results|;
    forall m | m in pending ensures QuietRows(calls[n], [m]) {
      assert m in multiset(log) + multiset(pending);
      AcceptedFrom(calls, results, n, m);
    }
    assert forall m | m in pending :: m in [m];
  }

  method PerformCall(w: BatchWriter, call: Call) returns (err: Option<Error>)
    requires w.Valid()
    modifies w, w.servers
    ensures w.Valid() && old(w.servers.log) <= w.servers.log
    ensures w.ordered ==> old(w.ordered)
    ensures w.ordered == old(w.ordered) || !CallRoutesByRow(call)
    ensures old(w.failure).Some? ==>
              w.failure == old(w.failure) && w.servers.log == old(w.servers.log) && w.added == old(w.added)
    ensures old(w.closed) ==> w.closed && w.added == old(w.added) && w.servers.log == old(w.servers.log)
    ensures call.AddCall? && err.None? ==>
              call.input.Some? && w.failure.None? && w.added == old(w.added) + [call.input.value]
    ensures (!call.AddCall? || err.Some?) && w.failure.None? ==> w.added == old(w.added)
    ensures old(w.failure).None? && w.failure.Some? && w.added != old(w.added) ==>
              err.Some? && call.AddCall? && call.input.Some? && w.added == old(w.added) + [call.input.value]
    ensures (call.FlushCall? || call.CloseCall?) && err.None? ==>
              w.failure.None? && Settled(w.servers.log, w.added, w.ordered)
    ensures old(w.failure).None? && !old(w.closed) && QuietCall(call) && QuietRows(call, old(w.pending)) ==>
              err.None? && w.failure.None? && w.closed == call.CloseCall?
  {
    hide Accounted, Settled, Rows, Total, FlushSettles, AddSettles, QuietFor;
    hide BatchWriter.ServersKept, BatchWriter.BufferKept;
    if QuietCall(call) && QuietRows(call, w.pending) {
      QuietCallSettles(call, w.pending, w.maxMemory, w.maxRetries);
    }
    match call
    case AddCall(input, hasUpdates, contextDone, now, first, second) =>
      err := w.Add(input, hasUpdates, contextDone, now, first, second);
    case FlushCall(contextDone, env) =>
      err := w.Flush(contextDone, env);
      if err.None? { AccountedSettled(w.servers.log, w.added, w.ordered); }
    case CloseCall(contextDone, env) =>
      err := w.Close(contextDone, env);
      if err.None? { AccountedSettled(w.servers.log, w.added, w.ordered); }
    case AutomaticCall(now, env) =>
      var active := w.AutomaticFlush(now, env);
      err := w.failure;
  }

  /**
   Every run of a writer, against every behaviour of the servers. `logs[i]` is
   what the servers had committed, and `added[i]` what had been added, when call
   `i` returned `results[i]`.

   At each call, what had been added is what was accepted and at most one
   mutation whose Add failed. The log only grows. Nothing is ever committed
   before it was added or more often than it was, so no mutation is committed
   twice when the inputs differ; at every nil return
   of Flush or Close exactly the accepted mutations are committed, each once;
   and when routing follows the row, each row's mutations are committed in the
   order they were added, whatever failed, restarted or was retried. When every
   tablet is found and every server answers, every call returns nil.
   */
  method RunWriter(memory: nat, batch: int, retries: nat, latency: nat, calls: seq<Call>)
    returns (results: seq<Option<Error>>, logs: seq<seq<Mutation>>, added: seq<seq<Mutation>>)
    requires 0 < memory
    ensures |results| == |logs| == |added| == |calls|
    ensures forall i | 0 <= i < |calls| :: AddedBy(calls, results[..i + 1], added[i])
    ensures forall i | 0 <= i < |calls| :: AtMostOnce(logs[i], added[i], AllRouteByRow(calls))
    ensures forall i | 0 <= i < |calls| - 1 :: logs[i] <= logs[i + 1]
    ensures DistinctInputs(calls) ==> forall i | 0 <= i < |calls| :: Distinct(logs[i])
    ensures QuietRun(calls) ==> forall i | 0 <= i < |calls| :: results[i].None?
    ensures forall i | 0 <= i < |calls| && (calls[i].FlushCall? || calls[i].CloseCall?) && results[i].None? ::
              Settled(logs[i], Accepted(calls, results[..i + 1], i + 1), AllRouteByRow(calls))
  {
    hide AtMostOnce, Settled, Accepted, AddedBy, Distinct, DistinctInputs, QuietRun, CallKept, CallRoutesByRow;
    hide BatchWriter.BufferKept, BatchWriter.ServersKept, RunsOn;
    var w := new BatchWriter(memory, batch, retries, latency);
    results, logs, added := [], [], [];
    RunStarts(calls, w);
    while |results| < |calls|
      invariant w.Valid() && fresh(w) && fresh(w.servers) && |results| == |logs| == |added| <= |calls|
      invariant AllRouteByRow(calls) ==> w.ordered
      invariant RunsOn(calls, results, w) && RunKept(calls, results, logs, added, w.ordered)
      invariant forall i | 0 <= i < |logs| - 1 :: logs[i] <= logs[i + 1]
      invariant logs != [] ==> logs[|logs| - 1] == w.servers.log
      invariant QuietRun(calls) ==> forall i | 0 <= i < |results| :: results[i].None?
      decreases |calls| - |results|
    {
      ghost var ordered := w.ordered;
      var err := NextCall(w, calls, results);
      RunStep(calls, results, logs, added, ordered, err, w.servers.log, w.added, w.ordered);
      results, logs, added := results + [err], logs + [w.servers.log], added + [w.added];
    }
    RunEnds(calls, results, logs, added, w.ordered);
  }

  /** How the writer stands to the calls made so far. */
  ghost predicate RunsOn(calls: seq<Call>, results: seq<Option<Error>>, w: BatchWriter)
    requires |results| <= |calls|
    reads w
  {
    && AddedBy(calls, results, w.added)
    && (w.failure.None? ==> Accepted(calls, results, |results|) == w.added)
    && (QuietRun(calls) ==> w.failure.None? && (w.closed ==> |results| == |calls|))
  }

  lemma RunStarts(calls: seq<Call>, w: BatchWriter)
    requires w.added == [] && w.failure.None? && !w.closed
    ensures RunsOn(calls, [], w)
  {
    hide QuietRun;
  }

  method NextCall(w: BatchWriter, calls: seq<Call>, results: seq<Option<Error>>) returns (err: Option<Error>)
    requires w.Valid() && |results| < |calls| && RunsOn(calls, results, w)
    modifies w, w.servers
    ensures w.Valid() && old(w.servers.log) <= w.servers.log
    ensures RunsOn(calls, results + [err], w)
    ensures CallKept(calls, results + [err], w.servers.log, w.added, w.ordered)
    ensures w.ordered ==> old(w.ordered)
    ensures w.ordered == old(w.ordered) || !CallRoutesByRow(calls[|results|])
    ensures QuietRun(calls) ==> err.None?
  {
    hide AtMostOnce, Settled, Accepted, AddedBy, QuietRun, QuietCall, QuietRows, CallKept, CallRoutesByRow;
    hide BatchWriter.BufferKept, BatchWriter.ServersKept;
    ghost var before, wasLatched := w.added, w.failure.Some?;
    if QuietRun(calls) {
      QuietNext(calls, results, w);
    }
    err := PerformCall(w, calls[|results|]);
    AcceptedStep(calls, results, err);
    AddedStep(calls, results, err, before, w.added, wasLatched);
    LogKept(w);
    CallEnds(calls, results + [err], w.servers.log, w.added, w.ordered);
  }

  predicate AllRouteByRow(calls: seq<Call>) { forall i | 0 <= i < |calls| :: CallRoutesByRow(calls[i]) }

  /** What the last of these calls established. */
  ghost predicate CallKept(
    calls: seq<Call>, results: seq<Option<Error>>, log: seq<Mutation>, added: seq<Mutation>, ordered: bool)
    requires 0 < |results| <= |calls|
  {
    var last := |results| - 1;
    && AddedBy(calls, results, added) && AtMostOnce(log, added, ordered)
    && ((calls[last].FlushCall? || calls[last].CloseCall?) && results[last].None? ==>
          Settled(log, Accepted(calls, results, |results|), ordered))
  }

  ghost predicate RunKept(
    calls: seq<Call>, results: seq<Option<Error>>, logs: seq<seq<Mutation>>, added: seq<seq<Mutation>>, ordered: bool)
    requires |logs| == |added| == |results| <= |calls|
  {
    forall i | 0 <= i < |results| :: CallKept(calls, results[..i + 1], logs[i], added[i], ordered)
  }

  lemma CallEnds(
    calls: seq<Call>, results: seq<Option<Error>>, log: seq<Mutation>, added: seq<Mutation>, ordered: bool)
    requires 0 < |results| <= |calls|
    requires AddedBy(calls, results, added) && AtMostOnce(log, added, ordered)
    requires var last := |results| - 1;
             (calls[last].FlushCall? || calls[last].CloseCall?) && results[last].None? ==>
               Settled(log, Accepted(calls, results, |results|), ordered)
    ensures CallKept(calls, results, log, added, ordered)
  {
  }

  lemma CallWeakens(
    calls: seq<Call>, results: seq<Option<Error>>, log: seq<Mutation>, added: seq<Mutation>, ordered: bool,
    still: bool)
    requires 0 < |results| <= |calls| && CallKept(calls, results, log, added, ordered) && (still ==> ordered)
    ensures CallKept(calls, results, log, added, still)
  {
    hide Rows, AddedBy, Accepted;
  }

  lemma QuietNext(calls: seq<Call>, results: seq<Option<Error>>, w: BatchWriter)
    requires w.Valid() && w.failure.None? && !w.closed && |results| < |calls| && QuietRun(calls)
    requires Accepted(calls, results, |results|) == w.added
    ensures QuietCall(calls[|results|]) && QuietRows(calls[|results|], w.pending)
    ensures calls[|results|].CloseCall? ==> |results| + 1 == |calls|
  {
    hide Rows, Total, Accepted, QuietCall, QuietRows;
    QuietPending(calls, results, w.servers.log, w.pending);
  }

  lemma CommittedAtMostOnce(log: seq<Mutation>, added: seq<Mutation>, ordered: bool)
    requires AtMostOnce(log, added, ordered)
    ensures multiset(log) <= multiset(added)
  {
  }

  lemma LogKept(w: BatchWriter)
    requires w.Valid()
    ensures AtMostOnce(w.servers.log, w.added, w.ordered)
  {
  }

  lemma AcceptedStep(calls: seq<Call>, results: seq<Option<Error>>, err: Option<Error>)
    requires |results| < |calls|
    ensures var n := |results|;
            Accepted(calls, results + [err], n + 1) ==
            if calls[n].AddCall? && calls[n].input.Some? && err.None?
            then Accepted(calls, results, n) + [calls[n].input.value]
            else Accepted(calls, results, n)
  {
    assert Accepted(calls, results, |results|) + [] == Accepted(calls, results, |results|);
    AcceptedExtends(calls, results, err, |results|);
  }

  lemma RunStep(
    calls: seq<Call>, results: seq<Option<Error>>, logs: seq<seq<Mutation>>, added: seq<seq<Mutation>>, ordered: bool,
    err: Option<Error>, log: seq<Mutation>, now: seq<Mutation>, still: bool)
    requires |logs| == |added| == |results| < |calls| && RunKept(calls, results, logs, added, ordered)
    requires (still ==> ordered) && CallKept(calls, results + [err], log, now, still)
    ensures RunKept(calls, results + [err], logs + [log], added + [now], still)
  {
    hide CallKept;
    var more := results + [err];
    assert more[..|more|] == more;
    forall i | 0 <= i < |results| ensures CallKept(calls, more[..i + 1], logs[i], added[i], still) {
      assert more[..i + 1] == results[..i + 1];
      CallWeakens(calls, results[..i + 1], logs[i], added[i], ordered, still);
    }
  }

  /** What every call of a finished run established, read off one by one. */
  lemma RunEnds(
    calls: seq<Call>, results: seq<Option<Error>>, logs: seq<seq<Mutation>>, added: seq<seq<Mutation>>, ordered: bool)
    requires |logs| == |added| == |results| == |calls| && RunKept(calls, results, logs, added, ordered)
    requires AllRouteByRow(calls) ==> ordered
    ensures forall i | 0 <= i < |calls| ::
              AddedBy(calls, results[..i + 1], added[i]) && AtMostOnce(logs[i], added[i], AllRouteByRow(calls))
    ensures DistinctInputs(calls) ==> forall i | 0 <= i < |calls| :: Distinct(logs[i])
    ensures forall i | 0 <= i < |calls| && (calls[i].FlushCall? || calls[i].CloseCall?) && results[i].None? ::
              Settled(logs[i], Accepted(calls, results[..i + 1], i + 1), AllRouteByRow(calls))
  {
    hide AddedBy, AtMostOnce, Settled, Accepted, Distinct, DistinctInputs, AllRouteByRow;
    forall i | 0 <= i < |calls|
      ensures CallKept(calls, results[..i + 1], logs[i], added[i], AllRouteByRow(calls))
      ensures DistinctInputs(calls) ==> Distinct(logs[i])
    {
      CallWeakens(calls, results[..i + 1], logs[i], added[i], ordered, AllRouteByRow(calls));
      if DistinctInputs(calls) {
        AddedDistinct(calls, results[..i + 1], added[i]);
        CommittedAtMostOnce(logs[i], added[i], AllRouteByRow(calls));
        NeverTwice(logs[i], added[i]);
      }
    }
  }

  // ---- What a run may have added ----

  predicate Offers(call: Call) { call.AddCall? && call.input.Some? }

  /** An Add that returned an error; its mutation may still have been buffered. */
  predicate Doubtful(calls: seq<Call>, results: seq<Option<Error>>, n: int)
    requires |results| <= |calls|
  {
    0 <= n < |results| && Offers(calls[n]) && results[n].Some?
  }

  /** Added is what was accepted, or that and the mutation of one Add that failed. */
  ghost predicate AddedBy(calls: seq<Call>, results: seq<Option<Error>>, added: seq<Mutation>)
    requires |results| <= |calls|
  {
    var accepted := Accepted(calls, results, |results|);
    added == accepted || exists n | Doubtful(calls, results, n) :: added == accepted + [calls[n].input.value]
  }

  lemma AddedStep(
    calls: seq<Call>, results: seq<Option<Error>>, err: Option<Error>, before: seq<Mutation>, after: seq<Mutation>,
    latched: bool)
    requires |results| < |calls| && AddedBy(calls, results, before)
    requires var call := calls[|results|];
             if latched then after == before && !(call.AddCall? && err.None?)
             else
               && before == Accepted(calls, results, |results|)
               && (after == Accepted(calls, results + [err], |results| + 1) ||
                   (err.Some? && Offers(call) && after == before + [call.input.value]))
    ensures AddedBy(calls, results + [err], after)
  {
    hide Accepted;
    AcceptedStep(calls, results, err);
    var accepted := Accepted(calls, results, |results|);
    if latched {
      if before != accepted {
        var n :| Doubtful(calls, results, n) && before == accepted + [calls[n].input.value];
        assert Doubtful(calls, results + [err], n);
      }
    } else if after != Accepted(calls, results + [err], |results| + 1) {
      assert Doubtful(calls, results + [err], |results|);
    }
  }

  predicate Distinct(ms: seq<Mutation>) { forall i, j | 0 <= i < j < |ms| :: ms[i] != ms[j] }

  /** No two Adds were given the same mutation. */
  predicate DistinctInputs(calls: seq<Call>) {
    forall i, j | 0 <= i < j < |calls| && Offers(calls[i]) && Offers(calls[j]) :: calls[i].input != calls[j].input
  }

  /** Accepted mutations are inputs of calls that returned nil. */
  lemma {:induction false} AcceptedFrom(calls: seq<Call>, results: seq<Option<Error>>, n: nat, m: Mutation)
    requires n <= |results| <= |calls| && m in Accepted(calls, results, n)
    ensures exists i | 0 <= i < n :: Offers(calls[i]) && results[i].None? && calls[i].input.value == m
  {
    if m in Accepted(calls, results, n - 1) {
      AcceptedFrom(calls, results, n - 1, m);
    } else {
      assert Offers(calls[n - 1]);
    }
  }

  lemma {:induction false} AcceptedDistinct(calls: seq<Call>, results: seq<Option<Error>>, n: nat)
    requires n <= |results| <= |calls| && DistinctInputs(calls)
    ensures Distinct(Accepted(calls, results, n))
  {
    if n > 0 {
      AcceptedDistinct(calls, results, n - 1);
      if Offers(calls[n - 1]) && results[n - 1].None? {
        NotAccepted(calls, results, n - 1, n - 1);
      }
    }
  }

  lemma NotAccepted(calls: seq<Call>, results: seq<Option<Error>>, n: nat, k: nat)
    requires n <= |results| <= |calls| && DistinctInputs(calls) && k < |results| && Offers(calls[k])
    requires n <= k || results[k].Some?
    ensures calls[k].input.value !in Accepted(calls, results, n)
  {
    if calls[k].input.value in Accepted(calls, results, n) {
      AcceptedFrom(calls, results, n, calls[k].input.value);
    }
  }

  lemma AddedDistinct(calls: seq<Call>, results: seq<Option<Error>>, added: seq<Mutation>)
    requires |results| <= |calls| && DistinctInputs(calls) && AddedBy(calls, results, added)
    ensures Distinct(added)
  {
    hide Accepted, DistinctInputs;
    var accepted := Accepted(calls, results, |results|);
    AcceptedDistinct(calls, results, |results|);
    if added != accepted {
      var n :| Doubtful(calls, results, n) && added == accepted + [calls[n].input.value];
      NotAccepted(calls, results, |results|, n);
    }
  }

  /** Mutations that are all different are committed at most once each. */
  lemma NeverTwice(log: seq<Mutation>, added: seq<Mutation>)
    requires multiset(log) <= multiset(added) && Distinct(added)
    ensures Distinct(log)
  {
    forall i, j | 0 <= i < j < |log| ensures log[i] != log[j] {
      if log[i] == log[j] {
        OccursTwice(log, i, j);
        OccursOnce(added, log[i]);
      }
    }
  }

  lemma OccursTwice(s: seq<Mutation>, i: nat, j: nat)
    requires i < j < |s| && s[i] == s[j]
    ensures multiset(s)[s[i]] >= 2
  {
    assert s == s[..j] + [s[j]] + s[j + 1..];
    assert s[i] == s[..j][i];
    assert s[i] in multiset(s[..j]);
  }

  lemma {:induction false} OccursOnce(s: seq<Mutation>, m: Mutation)
    requires forall i, j | 0 <= i < j < |s| :: s[i] != s[j]
    ensures multiset(s)[m] <= 1
  {
    if s != [] {
      var front, last := s[..|s| - 1], s[|s| - 1];
      assert s == front + [last];
      OccursOnce(front, m);
      assert forall i | 0 <= i < |front| :: front[i] == s[i] != last;
    }
  }
}
