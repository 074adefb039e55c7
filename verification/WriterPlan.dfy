/**
 One submission round of the batch writer: routing mutations into server and
 extent groups, cutting each group into batches, and reading a server's
 closeUpdate reply. Tablet servers are the environment: a session that never
 started committed nothing, a well-formed reply says which prefix of each
 failed extent was committed and that every other extent was committed whole,
 and any other reply leaves some unknown prefix of each extent committed.
 */
module WriterPlan {
  import opened Wrappers
  import opened Bytes
  import opened TabletExtents

  datatype Mutation = Mutation(id: nat, row: Row, size: nat)

  datatype ExtentPlan = ExtentPlan(extent: Extent, mutations: seq<Mutation>)

  datatype ServerPlan = ServerPlan(address: string, extents: seq<ExtentPlan>)

  // ---- The environment of one round ----

  /** `LocateTablet` for one mutation: a tablet, a retryable failure, or a fatal one. */
  datatype Route = Located(address: string, extent: Extent) | NotLocated | RouteFailed

  /** Routing that depends on the row alone, or arbitrary routing by position. */
  datatype Routing = ByRow(rows: map<Row, Route>) | ByPosition(positions: seq<Route>)

  /** The closeUpdate payload; an absent extent is a nil key. */
  datatype UpdateErrors = UpdateErrors(
    failed: seq<(Option<Extent>, int)>,
    violations: nat,
    authorization: seq<Option<Extent>>)

  /** How one update session went; `kept` is what an ambiguous session committed. */
  datatype Reply =
    | StartFailed
    | ApplyFailed(call: nat, kept: map<Extent, nat>)
    | CloseFailed(kept: map<Extent, nat>)
    | Closed(errors: Option<UpdateErrors>, kept: map<Extent, nat>)

  datatype Round = Round(routing: Routing, replies: map<string, Reply>, invalidateFails: bool, waitFails: bool)

  function RouteOf(routing: Routing, position: nat, row: Row): Route {
    match routing
    case ByRow(rows) => if row in rows then rows[row] else NotLocated
    case ByPosition(positions) => if position < |positions| then positions[position] else NotLocated
  }

  function ReplyOf(round: Round, address: string): Reply {
    if address in round.replies then round.replies[address] else StartFailed
  }

  // ---- Planning ----

  function PlaceIn(extents: seq<ExtentPlan>, x: Extent, m: Mutation): seq<ExtentPlan> {
    if extents == [] then [ExtentPlan(x, [m])]
    else if extents[0].extent == x then [ExtentPlan(x, extents[0].mutations + [m])] + extents[1..]
    else [extents[0]] + PlaceIn(extents[1..], x, m)
  }

  function Place(plans: seq<ServerPlan>, a: string, x: Extent, m: Mutation): seq<ServerPlan> {
    if plans == [] then [ServerPlan(a, PlaceIn([], x, m))]
    else if plans[0].address == a then [ServerPlan(a, PlaceIn(plans[0].extents, x, m))] + plans[1..]
    else [plans[0]] + Place(plans[1..], a, x, m)
  }

  /** The plan of a round, or the first route that is not a tablet. */
  function Plan(routing: Routing, ms: seq<Mutation>): Result<seq<ServerPlan>, Route> {
    if ms == [] then Ok([])
    else
      var last := |ms| - 1;
      var plans :- Plan(routing, ms[..last]);
      match RouteOf(routing, last, ms[last].row)
      case Located(a, x) => Ok(Place(plans, a, x, ms[last]))
      case failure => Err(failure)
  }

  /** All mutations of a server's plan, extent by extent. */
  function ExtentMutations(extents: seq<ExtentPlan>): seq<Mutation> {
    if extents == [] then [] else extents[0].mutations + ExtentMutations(extents[1..])
  }

  function Mutations(plans: seq<ServerPlan>): seq<Mutation> {
    if plans == [] then [] else ExtentMutations(plans[0].extents) + Mutations(plans[1..])
  }

  function FindIn(extents: seq<ExtentPlan>, x: Extent): seq<Mutation> {
    if extents == [] then []
    else if extents[0].extent == x then extents[0].mutations
    else FindIn(extents[1..], x)
  }

  /** The group of a server and extent, empty when there is none. */
  function Find(plans: seq<ServerPlan>, a: string, x: Extent): seq<Mutation> {
    if plans == [] then []
    else if plans[0].address == a then FindIn(plans[0].extents, x)
    else Find(plans[1..], a, x)
  }

  predicate DistinctExtents(extents: seq<ExtentPlan>) {
    forall i, j | 0 <= i < j < |extents| :: extents[i].extent != extents[j].extent
  }

  /** One plan per server, one non-empty group per extent. */
  predicate Proper(plans: seq<ServerPlan>) {
    && (forall i, j | 0 <= i < j < |plans| :: plans[i].address != plans[j].address)
    && (forall i | 0 <= i < |plans| :: ProperServer(plans[i]))
  }

  predicate ProperServer(plan: ServerPlan) {
    && plan.extents != [] && DistinctExtents(plan.extents)
    && (forall j | 0 <= j < |plan.extents| :: plan.extents[j].mutations != [])
  }

  /** The mutations routed to one group, in order. */
  function Routed(routing: Routing, ms: seq<Mutation>, a: string, x: Extent): seq<Mutation> {
    if ms == [] then []
    else
      var last := |ms| - 1;
      Routed(routing, ms[..last], a, x) +
      (if RouteOf(routing, last, ms[last].row) == Located(a, x) then [ms[last]] else [])
  }

  lemma NoExtents(x: Extent)
    ensures FindIn([], x) == [] && ExtentMutations([]) == []
  {
  }

  lemma {:induction false} PlaceInFacts(extents: seq<ExtentPlan>, x: Extent, m: Mutation, y: Extent)
    ensures FindIn(PlaceIn(extents, x, m), y) == if y == x then FindIn(extents, x) + [m] else FindIn(extents, y)
    ensures multiset(ExtentMutations(PlaceIn(extents, x, m))) == multiset(ExtentMutations(extents)) + multiset{m}
  {
    if extents != [] && extents[0].extent != x {
      PlaceInFacts(extents[1..], x, m, y);
    } else if extents != [] {
      var placed := PlaceIn(extents, x, m);
      assert placed[1..] == extents[1..];
    } else {
      assert [m] + [] == [m];
    }
  }

  lemma {:induction false} PlaceInProper(extents: seq<ExtentPlan>, x: Extent, m: Mutation)
    requires DistinctExtents(extents) && forall j | 0 <= j < |extents| :: extents[j].mutations != []
    ensures ProperServer(ServerPlan("", PlaceIn(extents, x, m)))
    ensures forall e | e in PlaceIn(extents, x, m) :: e.extent == x || exists f | f in extents :: f.extent == e.extent
  {
    if extents != [] && extents[0].extent != x {
      var rest := extents[1..];
      PlaceInProper(rest, x, m);
      var placed := PlaceIn(rest, x, m);
      forall i | 0 <= i < |placed| ensures placed[i].extent != extents[0].extent {
        assert placed[i] in placed;
        if placed[i].extent != x {
          var f :| f in rest && f.extent == placed[i].extent;
          var k :| 0 <= k < |rest| && rest[k] == f;
          assert extents[k + 1] == f;
        }
      }
      forall e | e in PlaceIn(extents, x, m)
        ensures e.extent == x || exists f | f in extents :: f.extent == e.extent
      {
        assert e == extents[0] || e in placed;
        assert extents[0] in extents;
        if e in placed && e.extent != x {
          var f :| f in rest && f.extent == e.extent;
          assert f in extents;
        }
      }
    }
  }

  /** Placing a mutation appends it to its own group and touches no other. */
  lemma {:induction false} PlaceFacts(plans: seq<ServerPlan>, a: string, x: Extent, m: Mutation, b: string, y: Extent)
    ensures Find(Place(plans, a, x, m), b, y) ==
            if b == a && y == x then Find(plans, a, x) + [m] else Find(plans, b, y)
    ensures multiset(Mutations(Place(plans, a, x, m))) == multiset(Mutations(plans)) + multiset{m}
  {
    hide PlaceIn, FindIn, ExtentMutations;
    if plans == [] {
      NoExtents(y);
      PlaceInFacts([], x, m, y);
      assert Place(plans, a, x, m)[1..] == [];
    } else if plans[0].address == a {
      PlaceInFacts(plans[0].extents, x, m, y);
      assert Place(plans, a, x, m)[1..] == plans[1..];
    } else {
      PlaceFacts(plans[1..], a, x, m, b, y);
      assert Place(plans, a, x, m)[1..] == Place(plans[1..], a, x, m);
    }
  }

  lemma {:induction false} PlaceProper(plans: seq<ServerPlan>, a: string, x: Extent, m: Mutation)
    requires Proper(plans)
    ensures Proper(Place(plans, a, x, m))
    ensures forall i | 0 <= i < |Place(plans, a, x, m)| ::
              Place(plans, a, x, m)[i].address == a ||
              exists j | 0 <= j < |plans| :: plans[j].address == Place(plans, a, x, m)[i].address
  {
    if plans == [] {
      PlaceInProper([], x, m);
    } else if plans[0].address == a {
      PlaceInProper(plans[0].extents, x, m);
    } else {
      var rest := plans[1..];
      PlaceProper(rest, a, x, m);
      var placed := Place(rest, a, x, m);
      forall i | 0 <= i < |placed| ensures placed[i].address != plans[0].address {
        if placed[i].address != a {
          var j :| 0 <= j < |rest| && rest[j].address == placed[i].address;
          assert plans[j + 1] == rest[j];
        }
      }
      forall i | 0 <= i < |placed| && placed[i].address != a
        ensures exists j | 0 <= j < |plans| :: plans[j].address == placed[i].address
      {
        var j :| 0 <= j < |rest| && rest[j].address == placed[i].address;
        assert plans[j + 1] == rest[j];
      }
    }
  }

  lemma NoPlans(a: string, x: Extent)
    ensures Proper([]) && Mutations([]) == [] && Find([], a, x) == []
  {
  }

  /** The plan loses nothing and adds nothing, and each group is its routed subsequence. */
  lemma {:induction false} PlanGroups(routing: Routing, ms: seq<Mutation>, a: string, x: Extent)
    requires Plan(routing, ms).Ok?
    ensures var plans := Plan(routing, ms).value;
            && Proper(plans) && multiset(Mutations(plans)) == multiset(ms)
            && Find(plans, a, x) == Routed(routing, ms, a, x)
  {
    hide Place, Find, Mutations, Proper, RouteOf;
    if ms == [] {
      NoPlans(a, x);
    } else {
      var last := |ms| - 1;
      PlanGroups(routing, ms[..last], a, x);
      var plans, route := PlanStep(routing, ms);
      PlaceFacts(plans, route.address, route.extent, ms[last], a, x);
      PlaceProper(plans, route.address, route.extent, ms[last]);
    }
  }

  lemma PlanStep(routing: Routing, ms: seq<Mutation>) returns (plans: seq<ServerPlan>, route: Route)
    requires ms != [] && Plan(routing, ms).Ok?
    ensures Plan(routing, ms[..|ms| - 1]) == Ok(plans)
    ensures route == RouteOf(routing, |ms| - 1, ms[|ms| - 1].row) && route.Located?
    ensures Plan(routing, ms) == Ok(Place(plans, route.address, route.extent, ms[|ms| - 1]))
    ensures multiset(ms) == multiset(ms[..|ms| - 1]) + multiset{ms[|ms| - 1]}
  {
    hide Place;
    plans := Plan(routing, ms[..|ms| - 1]).value;
    route := RouteOf(routing, |ms| - 1, ms[|ms| - 1].row);
    assert ms == ms[..|ms| - 1] + [ms[|ms| - 1]];
  }

  // ---- Reading a reply ----

  function FailedCount(failed: seq<(Option<Extent>, int)>, x: Extent): Option<int> {
    if failed == [] then None
    else if failed[0].0 == Some(x) then Some(failed[0].1)
    else FailedCount(failed[1..], x)
  }

  /** A failed entry names an extent of the plan, once, with a count it could have committed. */
  predicate Legible(plan: ServerPlan, failed: seq<(Option<Extent>, int)>) {
    forall i | 0 <= i < |failed| ::
      && failed[i].0.Some? && failed[i].0.value in (set e | e in plan.extents :: e.extent)
      && 0 <= failed[i].1 <= |FindIn(plan.extents, failed[i].0.value)|
      && forall j | 0 <= j < i :: failed[j].0 != failed[i].0
  }

  predicate WellFormedErrors(plan: ServerPlan, errors: UpdateErrors) {
    Legible(plan, errors.failed) && forall i | 0 <= i < |errors.authorization| :: errors.authorization[i].Some?
  }

  function Suffixes(extents: seq<ExtentPlan>, failed: seq<(Option<Extent>, int)>): seq<Mutation> {
    if extents == [] then []
    else
      var x := extents[0];
      (match FailedCount(failed, x.extent)
       case Some(n) => if 0 <= n <= |x.mutations| then x.mutations[n..] else []
       case None => [])
      + Suffixes(extents[1..], failed)
  }

  datatype Decoded = Malformed | Decoded(retry: seq<Mutation>, terminal: bool)

  /** `decodeMutationUpdateErrors`: what to retry, or that nothing can be trusted. */
  function Decode(plan: ServerPlan, errors: Option<UpdateErrors>): Decoded {
    match errors
    case None => Decoded([], false)
    case Some(e) =>
      if !WellFormedErrors(plan, e) then Malformed
      else Decoded(Suffixes(plan.extents, e.failed), e.violations != 0 || e.authorization != [])
  }

  /** What `sendServer` reports: mutations to retry, whether an Apply was sent, whether it failed. */
  datatype Outcome = Outcome(retry: seq<Mutation>, submitted: bool, failed: bool)

  function Send(plan: ServerPlan, reply: Reply): Outcome {
    match reply
    case StartFailed => Outcome(ExtentMutations(plan.extents), false, false)
    case ApplyFailed(_, _) => Outcome([], true, true)
    case CloseFailed(_) => Outcome([], true, true)
    case Closed(errors, _) =>
      match Decode(plan, errors)
      case Malformed => Outcome([], true, true)
      case Decoded(retry, terminal) => if terminal then Outcome([], true, true) else Outcome(retry, true, false)
  }

  // ---- What the servers committed ----

  function Clip(n: int, limit: nat): nat { if n < 0 then 0 else if n > limit then limit else n }

  /** How many of an extent's mutations the session committed. */
  function Committed(plan: ServerPlan, reply: Reply, x: ExtentPlan): (n: nat)
    ensures n <= |x.mutations|
  {
    match reply
    case StartFailed => 0
    case ApplyFailed(_, kept) => if x.extent in kept then Clip(kept[x.extent], |x.mutations|) else 0
    case CloseFailed(kept) => if x.extent in kept then Clip(kept[x.extent], |x.mutations|) else 0
    case Closed(errors, kept) =>
      if errors.None? then |x.mutations|
      else if WellFormedErrors(plan, errors.value) then
        match FailedCount(errors.value.failed, x.extent)
        case Some(n) => Clip(n, |x.mutations|)
        case None => |x.mutations|
      else if x.extent in kept then Clip(kept[x.extent], |x.mutations|) else 0
  }

  function CutIn(plan: ServerPlan, reply: Reply, extents: seq<ExtentPlan>, kept: bool): seq<ExtentPlan> {
    if extents == [] then []
    else
      var x := extents[0];
      var n := Committed(plan, reply, x);
      [x.(mutations := if kept then x.mutations[..n] else x.mutations[n..])] + CutIn(plan, reply, extents[1..], kept)
  }

  /** The plans cut down to what was committed, or to what was not. */
  function Cut(plans: seq<ServerPlan>, round: Round, kept: bool): seq<ServerPlan> {
    if plans == [] then []
    else
      var p := plans[0];
      [p.(extents := CutIn(p, ReplyOf(round, p.address), p.extents, kept))] + Cut(plans[1..], round, kept)
  }

  /** The outcomes of a round put together, as `flushLocked` does. */
  function SendAll(plans: seq<ServerPlan>, round: Round): Outcome {
    if plans == [] then Outcome([], false, false)
    else
      var first, rest := Send(plans[0], ReplyOf(round, plans[0].address)), SendAll(plans[1..], round);
      Outcome((if first.failed then [] else first.retry) + rest.retry,
              first.submitted || rest.submitted, first.failed || rest.failed)
  }

  // ---- Conservation: every mutation is committed or still to be retried ----

  lemma SplitCounts(ms: seq<Mutation>, n: nat)
    requires n <= |ms|
    ensures multiset(ms) == multiset(ms[..n]) + multiset(ms[n..])
  {
    assert ms == ms[..n] + ms[n..];
  }

  lemma {:induction false} CutInConserves(plan: ServerPlan, reply: Reply, extents: seq<ExtentPlan>)
    ensures multiset(ExtentMutations(CutIn(plan, reply, extents, true))) +
            multiset(ExtentMutations(CutIn(plan, reply, extents, false))) == multiset(ExtentMutations(extents))
  {
    if extents != [] {
      hide Committed;
      var x := extents[0];
      var n := Committed(plan, reply, x);
      SplitCounts(x.mutations, n);
      CutInConserves(plan, reply, extents[1..]);
      assert CutIn(plan, reply, extents, true)[1..] == CutIn(plan, reply, extents[1..], true);
      assert CutIn(plan, reply, extents, false)[1..] == CutIn(plan, reply, extents[1..], false);
    }
  }

  lemma {:induction false} CutConserves(plans: seq<ServerPlan>, round: Round)
    ensures multiset(Mutations(Cut(plans, round, true))) + multiset(Mutations(Cut(plans, round, false))) ==
            multiset(Mutations(plans))
  {
    if plans != [] {
      hide CutIn;
      var p := plans[0];
      CutInConserves(p, ReplyOf(round, p.address), p.extents);
      CutConserves(plans[1..], round);
      assert Cut(plans, round, true)[1..] == Cut(plans[1..], round, true);
      assert Cut(plans, round, false)[1..] == Cut(plans[1..], round, false);
    }
  }

  lemma {:induction false} FindInOwn(extents: seq<ExtentPlan>, k: nat)
    requires DistinctExtents(extents) && k < |extents|
    ensures FindIn(extents, extents[k].extent) == extents[k].mutations
  {
    if k > 0 {
      FindInOwn(extents[1..], k - 1);
    }
  }

  lemma {:induction false} FailedCountListed(failed: seq<(Option<Extent>, int)>, x: Extent)
    ensures FailedCount(failed, x).Some? ==> (Some(x), FailedCount(failed, x).value) in failed
  {
    if failed != [] && failed[0].0 != Some(x) {
      FailedCountListed(failed[1..], x);
    }
  }

  lemma LegibleCount(plan: ServerPlan, errors: UpdateErrors, k: nat)
    requires ProperServer(plan) && k < |plan.extents| && WellFormedErrors(plan, errors)
    ensures var n := FailedCount(errors.failed, plan.extents[k].extent);
            n.Some? ==> 0 <= n.value <= |plan.extents[k].mutations|
  {
    var x, failed := plan.extents[k], errors.failed;
    FindInOwn(plan.extents, k);
    FailedCountListed(failed, x.extent);
    if FailedCount(failed, x.extent).Some? {
      var i :| 0 <= i < |failed| && failed[i] == (Some(x.extent), FailedCount(failed, x.extent).value);
      assert 0 <= failed[i].1 <= |x.mutations|;
    }
  }

  /** The retried suffixes are exactly what a well-formed reply left uncommitted. */
  lemma {:induction false} SuffixesAreRest(plan: ServerPlan, reply: Reply, k: nat)
    requires ProperServer(plan) && k <= |plan.extents|
    requires reply.Closed? && reply.errors.Some? && WellFormedErrors(plan, reply.errors.value)
    ensures Suffixes(plan.extents[k..], reply.errors.value.failed) ==
            ExtentMutations(CutIn(plan, reply, plan.extents[k..], false))
    decreases |plan.extents| - k
  {
    hide FailedCount, WellFormedErrors, DistinctExtents;
    if k < |plan.extents| {
      SuffixesAreRest(plan, reply, k + 1);
      assert plan.extents[k..][1..] == plan.extents[k + 1..];
      LegibleCount(plan, reply.errors.value, k);
      assert CutIn(plan, reply, plan.extents[k..], false)[1..] == CutIn(plan, reply, plan.extents[k + 1..], false);
    }
  }

  lemma {:induction false} NothingCut(plan: ServerPlan, reply: Reply, extents: seq<ExtentPlan>)
    requires reply.StartFailed? || (reply.Closed? && reply.errors.None?)
    ensures reply.StartFailed? ==> ExtentMutations(CutIn(plan, reply, extents, false)) == ExtentMutations(extents)
    ensures reply.StartFailed? ==> ExtentMutations(CutIn(plan, reply, extents, true)) == []
    ensures reply.Closed? ==> ExtentMutations(CutIn(plan, reply, extents, false)) == []
  {
    if extents != [] {
      NothingCut(plan, reply, extents[1..]);
      assert CutIn(plan, reply, extents, true)[1..] == CutIn(plan, reply, extents[1..], true);
      assert CutIn(plan, reply, extents, false)[1..] == CutIn(plan, reply, extents[1..], false);
    }
  }

  lemma SendRetriesRest(plan: ServerPlan, reply: Reply)
    requires ProperServer(plan) && !Send(plan, reply).failed
    ensures Send(plan, reply).retry == ExtentMutations(CutIn(plan, reply, plan.extents, false))
    ensures !Send(plan, reply).submitted ==> ExtentMutations(CutIn(plan, reply, plan.extents, true)) == []
  {
    hide CutIn, Suffixes, ExtentMutations, WellFormedErrors;
    if reply.StartFailed? || reply.errors.None? {
      NothingCut(plan, reply, plan.extents);
    } else {
      assert plan.extents[0..] == plan.extents;
      SuffixesAreRest(plan, reply, 0);
    }
  }

  /** A round that did not fail retries exactly what was not committed. */
  lemma {:induction false} RoundRetriesRest(plans: seq<ServerPlan>, round: Round)
    requires forall i | 0 <= i < |plans| :: ProperServer(plans[i])
    ensures !SendAll(plans, round).failed ==> SendAll(plans, round).retry == Mutations(Cut(plans, round, false))
    ensures !SendAll(plans, round).submitted ==> Mutations(Cut(plans, round, true)) == []
  {
    if plans != [] {
      hide Send, CutIn, ExtentMutations;
      var p := plans[0];
      if !Send(p, ReplyOf(round, p.address)).failed {
        SendRetriesRest(p, ReplyOf(round, p.address));
      } else {
        assert Send(p, ReplyOf(round, p.address)).submitted by { FailureSubmits(p, ReplyOf(round, p.address)); }
      }
      RoundRetriesRest(plans[1..], round);
      assert Cut(plans, round, true)[1..] == Cut(plans[1..], round, true);
      assert Cut(plans, round, false)[1..] == Cut(plans[1..], round, false);
    }
  }

  lemma FailureSubmits(plan: ServerPlan, reply: Reply)
    ensures Send(plan, reply).failed ==> Send(plan, reply).submitted
  {
  }

  /** One round, under any routing: nothing is lost, nothing is committed twice. */
  lemma RoundConserves(routing: Routing, ms: seq<Mutation>, round: Round)
    requires Plan(routing, ms).Ok?
    ensures var plans := Plan(routing, ms).value;
            var outcome, committed := SendAll(plans, round), Mutations(Cut(plans, round, true));
            && multiset(committed) <= multiset(ms)
            && (!outcome.failed ==> multiset(committed) + multiset(outcome.retry) == multiset(ms))
            && (!outcome.submitted ==> committed == [])
  {
    hide Plan, SendAll, Cut, Mutations, ProperServer;
    var plans := Plan(routing, ms).value;
    PlanGroups(routing, ms, "", Extent([], None, None));
    CutConserves(plans, round);
    RoundRetriesRest(plans, round);
  }

  // ---- Order: a row's mutations commit in the order they were added ----

  /** The mutations of one row, in order. */
  function Rows(ms: seq<Mutation>, r: Row): seq<Mutation> {
    if ms == [] then []
    else Rows(ms[..|ms| - 1], r) + (if ms[|ms| - 1].row == r then [ms[|ms| - 1]] else [])
  }

  lemma {:induction false} RowsConcat(a: seq<Mutation>, b: seq<Mutation>, r: Row)
    ensures Rows(a + b, r) == Rows(a, r) + Rows(b, r)
  {
    if b == [] {
      assert a + b == a;
    } else {
      RowsConcat(a, b[..|b| - 1], r);
      assert (a + b)[..|a + b| - 1] == a + b[..|b| - 1];
    }
  }

  lemma {:induction false} RowsAbsent(ms: seq<Mutation>, r: Row)
    requires forall m | m in ms :: m.row != r
    ensures Rows(ms, r) == []
  {
    if ms != [] {
      RowsAbsent(ms[..|ms| - 1], r);
    }
  }

  /** Only the group of `a` and `x` holds mutations of row `r`. */
  predicate Confined(plans: seq<ServerPlan>, r: Row, a: string, x: Extent) {
    forall i | 0 <= i < |plans| :: ConfinedIn(plans[i].extents, r, if plans[i].address == a then Some(x) else None)
  }

  predicate ConfinedIn(extents: seq<ExtentPlan>, r: Row, x: Option<Extent>) {
    forall j | 0 <= j < |extents| :: Some(extents[j].extent) != x ==> forall m | m in extents[j].mutations :: m.row != r
  }

  lemma {:induction false} RowsInExtents(extents: seq<ExtentPlan>, r: Row, x: Option<Extent>)
    requires DistinctExtents(extents) && ConfinedIn(extents, r, x)
    ensures Rows(ExtentMutations(extents), r) == if x.Some? then Rows(FindIn(extents, x.value), r) else []
  {
    hide Rows;
    if extents == [] {
      RowsNothing(r);
    } else {
      var first, rest := extents[0], extents[1..];
      RowsConcat(first.mutations, ExtentMutations(rest), r);
      if Some(first.extent) == x {
        assert ConfinedIn(rest, r, None);
        RowsInExtents(rest, r, None);
      } else {
        RowsAbsent(first.mutations, r);
        RowsInExtents(rest, r, x);
      }
    }
  }

  lemma {:induction false} RowsInPlans(plans: seq<ServerPlan>, r: Row, a: string, x: Extent)
    requires forall i, j | 0 <= i < j < |plans| :: plans[i].address != plans[j].address
    requires forall i | 0 <= i < |plans| :: DistinctExtents(plans[i].extents)
    requires Confined(plans, r, a, x)
    ensures Rows(Mutations(plans), r) == Rows(Find(plans, a, x), r)
    ensures (forall i | 0 <= i < |plans| :: plans[i].address != a) ==> Rows(Mutations(plans), r) == []
  {
    hide Rows, DistinctExtents, ConfinedIn, ExtentMutations, FindIn;
    if plans == [] {
      RowsNothing(r);
    } else {
      var first, rest := plans[0], plans[1..];
      RowsConcat(ExtentMutations(first.extents), Mutations(rest), r);
      RowsInExtents(first.extents, r, if first.address == a then Some(x) else None);
      RowsInPlans(rest, r, a, x);
    }
  }

  lemma RowsNothing(r: Row)
    ensures Rows([], r) == []
  {
  }

  lemma {:induction false} FindOwn(plans: seq<ServerPlan>, i: nat, j: nat)
    requires Proper(plans) && i < |plans| && j < |plans[i].extents|
    ensures Find(plans, plans[i].address, plans[i].extents[j].extent) == plans[i].extents[j].mutations
  {
    if i == 0 {
      FindInOwn(plans[0].extents, j);
    } else {
      FindOwn(plans[1..], i - 1, j);
    }
  }

  lemma {:induction false} RoutedFacts(routing: Routing, ms: seq<Mutation>, a: string, x: Extent, r: Row)
    requires routing.ByRow?
    ensures forall m | m in Routed(routing, ms, a, x) :: RouteOf(routing, 0, m.row) == Located(a, x)
    ensures RouteOf(routing, 0, r) == Located(a, x) ==> Rows(Routed(routing, ms, a, x), r) == Rows(ms, r)
  {
    if ms != [] {
      var last := |ms| - 1;
      RoutedFacts(routing, ms[..last], a, x, r);
      var more := if RouteOf(routing, last, ms[last].row) == Located(a, x) then [ms[last]] else [];
      RowsConcat(Routed(routing, ms[..last], a, x), more, r);
      assert more[..0] == [] && Rows(more, r) == if more != [] && ms[last].row == r then more else [];
    }
  }

  /** When routing follows the row, a row's mutations sit in one group. */
  lemma PlanConfines(routing: Routing, ms: seq<Mutation>, r: Row, a: string, x: Extent)
    requires routing.ByRow? && Plan(routing, ms).Ok? && RouteOf(routing, 0, r) == Located(a, x)
    ensures Confined(Plan(routing, ms).value, r, a, x)
  {
    hide Plan, Routed, RouteOf, Find;
    var plans := Plan(routing, ms).value;
    PlanGroups(routing, ms, a, x);
    forall i, j | 0 <= i < |plans| && 0 <= j < |plans[i].extents| &&
                  (plans[i].address != a || plans[i].extents[j].extent != x)
      ensures forall m | m in plans[i].extents[j].mutations :: m.row != r
    {
      var b, y := plans[i].address, plans[i].extents[j].extent;
      PlanGroups(routing, ms, b, y);
      FindOwn(plans, i, j);
      RoutedFacts(routing, ms, b, y, r);
    }
  }

  lemma {:induction false} CutInFacts(plan: ServerPlan, reply: Reply, extents: seq<ExtentPlan>, kept: bool)
    ensures |CutIn(plan, reply, extents, kept)| == |extents|
    ensures forall j | 0 <= j < |extents| ::
              && CutIn(plan, reply, extents, kept)[j].extent == extents[j].extent
              && forall m | m in CutIn(plan, reply, extents, kept)[j].mutations :: m in extents[j].mutations
  {
    if extents != [] {
      hide Committed;
      CutInFacts(plan, reply, extents[1..], kept);
      forall j | 0 <= j < |extents|
        ensures CutIn(plan, reply, extents, kept)[j].extent == extents[j].extent
        ensures forall m | m in CutIn(plan, reply, extents, kept)[j].mutations :: m in extents[j].mutations
      {
        if j > 0 {
          assert CutIn(plan, reply, extents, kept)[j] == CutIn(plan, reply, extents[1..], kept)[j - 1];
        }
      }
    }
  }

  lemma {:induction false} CutShape(plans: seq<ServerPlan>, round: Round, kept: bool)
    ensures |Cut(plans, round, kept)| == |plans|
    ensures forall i | 0 <= i < |plans| ::
              && Cut(plans, round, kept)[i].address == plans[i].address
              && Cut(plans, round, kept)[i].extents ==
                 CutIn(plans[i], ReplyOf(round, plans[i].address), plans[i].extents, kept)
  {
    if plans != [] {
      hide CutIn;
      CutShape(plans[1..], round, kept);
    }
  }

  lemma CutConfines(plans: seq<ServerPlan>, round: Round, kept: bool, r: Row, a: string, x: Extent)
    requires Proper(plans) && Confined(plans, r, a, x)
    ensures var cut := Cut(plans, round, kept);
            && Confined(cut, r, a, x)
            && (forall i, j | 0 <= i < j < |cut| :: cut[i].address != cut[j].address)
            && (forall i | 0 <= i < |cut| :: DistinctExtents(cut[i].extents))
  {
    hide CutIn, Cut;
    var cut := Cut(plans, round, kept);
    CutShape(plans, round, kept);
    forall i | 0 <= i < |cut|
      ensures DistinctExtents(cut[i].extents)
      ensures ConfinedIn(cut[i].extents, r, if cut[i].address == a then Some(x) else None)
    {
      CutInFacts(plans[i], ReplyOf(round, plans[i].address), plans[i].extents, kept);
      assert ProperServer(plans[i]);
      assert ConfinedIn(plans[i].extents, r, if plans[i].address == a then Some(x) else None);
    }
  }

  lemma {:induction false} CutInFind(plan: ServerPlan, reply: Reply, extents: seq<ExtentPlan>, x: Extent)
    returns (n: nat)
    ensures n <= |FindIn(extents, x)|
    ensures FindIn(CutIn(plan, reply, extents, true), x) == FindIn(extents, x)[..n]
    ensures FindIn(CutIn(plan, reply, extents, false), x) == FindIn(extents, x)[n..]
  {
    hide Committed;
    n := 0;
    if extents != [] {
      var kept, rest := CutIn(plan, reply, extents, true), CutIn(plan, reply, extents, false);
      if extents[0].extent == x {
        n := Committed(plan, reply, extents[0]);
      } else {
        assert kept[1..] == CutIn(plan, reply, extents[1..], true);
        assert rest[1..] == CutIn(plan, reply, extents[1..], false);
        n := CutInFind(plan, reply, extents[1..], x);
      }
    }
  }

  /** Each group is cut at one place: a committed prefix and the rest. */
  lemma {:induction false} CutFind(plans: seq<ServerPlan>, round: Round, a: string, x: Extent) returns (n: nat)
    ensures n <= |Find(plans, a, x)|
    ensures Find(Cut(plans, round, true), a, x) == Find(plans, a, x)[..n]
    ensures Find(Cut(plans, round, false), a, x) == Find(plans, a, x)[n..]
  {
    hide CutIn, FindIn;
    n := 0;
    if plans != [] {
      var kept, rest := Cut(plans, round, true), Cut(plans, round, false);
      if plans[0].address == a {
        n := CutInFind(plans[0], ReplyOf(round, a), plans[0].extents, x);
      } else {
        assert kept[1..] == Cut(plans[1..], round, true) && rest[1..] == Cut(plans[1..], round, false);
        n := CutFind(plans[1..], round, a, x);
      }
    }
  }

  /**
   One round, when routing follows the row: for every row, what was committed
   followed by what was not is the row's mutations in their original order.
   */
  lemma RoundKeepsRowOrder(routing: Routing, ms: seq<Mutation>, round: Round, r: Row)
    requires routing.ByRow? && Plan(routing, ms).Ok?
    ensures var plans := Plan(routing, ms).value;
            Rows(Mutations(Cut(plans, round, true)), r) + Rows(Mutations(Cut(plans, round, false)), r) == Rows(ms, r)
  {
    hide Plan, Cut, Mutations, Find, Routed, Rows, Confined;
    var plans := Plan(routing, ms).value;
    var route := RouteOf(routing, 0, r);
    if route.Located? {
      var a, x := route.address, route.extent;
      PlanGroups(routing, ms, a, x);
      PlanConfines(routing, ms, r, a, x);
      CutConfines(plans, round, true, r, a, x);
      CutConfines(plans, round, false, r, a, x);
      RowsInPlans(Cut(plans, round, true), r, a, x);
      RowsInPlans(Cut(plans, round, false), r, a, x);
      var n := CutFind(plans, round, a, x);
      var group := Find(plans, a, x);
      RowsConcat(group[..n], group[n..], r);
      assert group[..n] + group[n..] == group;
      RoutedFacts(routing, ms, a, x, r);
    } else {
      UnroutedAbsent(routing, ms, r);
      RowsAbsent(ms, r);
      PlanGroups(routing, ms, "", Extent([], None, None));
      CutConserves(plans, round);
      AbsentPart(Mutations(Cut(plans, round, true)), ms, r);
      AbsentPart(Mutations(Cut(plans, round, false)), ms, r);
    }
  }

  lemma AbsentPart(part: seq<Mutation>, ms: seq<Mutation>, r: Row)
    requires multiset(part) <= multiset(ms) && forall m | m in ms :: m.row != r
    ensures Rows(part, r) == []
  {
    forall m | m in part ensures m.row != r {
      assert multiset(part)[m] > 0;
      assert m in multiset(ms);
    }
    RowsAbsent(part, r);
  }

  lemma {:induction false} UnroutedAbsent(routing: Routing, ms: seq<Mutation>, r: Row)
    requires routing.ByRow? && Plan(routing, ms).Ok? && !RouteOf(routing, 0, r).Located?
    ensures forall m | m in ms :: m.row != r
  {
    if ms != [] {
      var _, _ := PlanStep(routing, ms);
      UnroutedAbsent(routing, ms[..|ms| - 1], r);
      assert ms == ms[..|ms| - 1] + [ms[|ms| - 1]];
    }
  }
}
