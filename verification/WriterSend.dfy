/** The loops of one submission round, each proved against its specification. */
module WriterSend {
  import opened Wrappers
  import opened TabletExtents
  import opened WriterPlan
  import opened TabletServers

  // ---- plan: grouping with index maps ----

  /** `index` is the position map of the distinct keys `keys`. */
  ghost predicate Indexed<K>(keys: seq<K>, index: map<K, nat>) {
    && (forall i | 0 <= i < |keys| :: keys[i] in index && index[keys[i]] == i)
    && (forall k | k in index :: index[k] < |keys| && keys[index[k]] == k)
  }

  ghost function Extents(extents: seq<ExtentPlan>): seq<Extent> {
    seq(|extents|, i requires 0 <= i < |extents| => extents[i].extent)
  }

  ghost function Addresses(plans: seq<ServerPlan>): seq<string> {
    seq(|plans|, i requires 0 <= i < |plans| => plans[i].address)
  }

  lemma {:induction false} PlaceInAt(extents: seq<ExtentPlan>, x: Extent, m: Mutation, j: nat)
    requires j < |extents| && extents[j].extent == x && forall i | 0 <= i < j :: extents[i].extent != x
    ensures PlaceIn(extents, x, m) == extents[j := ExtentPlan(x, extents[j].mutations + [m])]
  {
    if j > 0 {
      PlaceInAt(extents[1..], x, m, j - 1);
    }
  }

  lemma {:induction false} PlaceInNew(extents: seq<ExtentPlan>, x: Extent, m: Mutation)
    requires forall i | 0 <= i < |extents| :: extents[i].extent != x
    ensures PlaceIn(extents, x, m) == extents + [ExtentPlan(x, [m])]
  {
    if extents != [] {
      PlaceInNew(extents[1..], x, m);
      assert extents == [extents[0]] + extents[1..];
    }
  }

  lemma {:induction false} PlaceAt(plans: seq<ServerPlan>, a: string, x: Extent, m: Mutation, i: nat)
    requires i < |plans| && plans[i].address == a && forall k | 0 <= k < i :: plans[k].address != a
    ensures Place(plans, a, x, m) == plans[i := ServerPlan(a, PlaceIn(plans[i].extents, x, m))]
  {
    if i > 0 {
      PlaceAt(plans[1..], a, x, m, i - 1);
    }
  }

  lemma {:induction false} PlaceNew(plans: seq<ServerPlan>, a: string, x: Extent, m: Mutation)
    requires forall k | 0 <= k < |plans| :: plans[k].address != a
    ensures Place(plans, a, x, m) == plans + [ServerPlan(a, PlaceIn([], x, m))]
  {
    if plans != [] {
      PlaceNew(plans[1..], a, x, m);
      assert plans == [plans[0]] + plans[1..];
    }
  }

  /** Adds one mutation to an extent list whose positions are in `index`. */
  method AddToExtents(extents: seq<ExtentPlan>, index: map<Extent, nat>, x: Extent, m: Mutation)
    returns (extents': seq<ExtentPlan>, index': map<Extent, nat>)
    requires Indexed(Extents(extents), index)
    ensures extents' == PlaceIn(extents, x, m) && Indexed(Extents(extents'), index')
  {
    hide PlaceIn;
    assert forall i | 0 <= i < |extents| :: Extents(extents)[i] == extents[i].extent;
    if x in index {
      var j := index[x];
      PlaceInAt(extents, x, m, j);
      extents' := extents[j := ExtentPlan(x, extents[j].mutations + [m])];
      index' := index;
      assert Extents(extents') == Extents(extents);
    } else {
      PlaceInNew(extents, x, m);
      extents' := extents + [ExtentPlan(x, [m])];
      index' := index[x := |extents|];
      assert Extents(extents') == Extents(extents) + [x];
    }
  }

  /** `plan`: routes each mutation and groups it by server, then by extent. */
  method PlanMutations(routing: Routing, ms: seq<Mutation>) returns (r: Result<seq<ServerPlan>, Route>)
    ensures r == Plan(routing, ms)
  {
    hide Place, PlaceIn, RouteOf;
    var plans: seq<ServerPlan> := [];
    var serverIndexes: map<string, nat> := map[];
    var extentIndexes: seq<map<Extent, nat>> := [];
    for n := 0 to |ms|
      invariant Plan(routing, ms[..n]) == Ok(plans)
      invariant Indexed(Addresses(plans), serverIndexes)
      invariant |extentIndexes| == |plans|
      invariant forall i | 0 <= i < |plans| :: Indexed(Extents(plans[i].extents), extentIndexes[i])
    {
      assert ms[..n + 1][..n] == ms[..n];
      var route := RouteOf(routing, n, ms[n].row);
      if !route.Located? {
        PlanStops(routing, ms, n + 1);
        return Err(route);
      }
      plans, serverIndexes, extentIndexes :=
        AddToPlans(plans, serverIndexes, extentIndexes, route.address, route.extent, ms[n]);
    }
    assert ms[..|ms|] == ms;
    r := Ok(plans);
  }

  lemma {:induction false} PlanStops(routing: Routing, ms: seq<Mutation>, n: nat)
    requires n <= |ms| && Plan(routing, ms[..n]).Err?
    ensures Plan(routing, ms) == Plan(routing, ms[..n])
  {
    if n == |ms| {
      assert ms[..n] == ms;
    } else {
      var front := ms[..|ms| - 1];
      assert front[..n] == ms[..n];
      PlanStops(routing, front, n);
    }
  }

  method AddToPlans(plans: seq<ServerPlan>, servers: map<string, nat>, indexes: seq<map<Extent, nat>>,
                    a: string, x: Extent, m: Mutation)
    returns (plans': seq<ServerPlan>, servers': map<string, nat>, indexes': seq<map<Extent, nat>>)
    requires Indexed(Addresses(plans), servers) && |indexes| == |plans|
    requires forall i | 0 <= i < |plans| :: Indexed(Extents(plans[i].extents), indexes[i])
    ensures plans' == Place(plans, a, x, m)
    ensures Indexed(Addresses(plans'), servers') && |indexes'| == |plans'|
    ensures forall i | 0 <= i < |plans'| :: Indexed(Extents(plans'[i].extents), indexes'[i])
  {
    hide Place, PlaceIn;
    assert forall i | 0 <= i < |plans| :: Addresses(plans)[i] == plans[i].address;
    if a in servers {
      var i := servers[a];
      var extents, index := AddToExtents(plans[i].extents, indexes[i], x, m);
      PlaceAt(plans, a, x, m, i);
      plans', servers', indexes' := plans[i := ServerPlan(a, extents)], servers, indexes[i := index];
      assert Addresses(plans') == Addresses(plans);
    } else {
      assert Extents([]) == [];
      var extents, index := AddToExtents([], map[], x, m);
      PlaceNew(plans, a, x, m);
      plans', servers' := plans + [ServerPlan(a, extents)], servers[a := |plans|];
      indexes' := indexes + [index];
      assert Addresses(plans') == Addresses(plans) + [a];
    }
  }

  // ---- mutationBatches: greedy cutting ----

  function Total(ms: seq<Mutation>): nat {
    if ms == [] then 0 else Total(ms[..|ms| - 1]) + ms[|ms| - 1].size
  }

  function Joined(batches: seq<seq<Mutation>>): seq<Mutation> {
    if batches == [] then [] else Joined(batches[..|batches| - 1]) + batches[|batches| - 1]
  }

  /** No batch is empty, only a single mutation exceeds the bound, and none could take the next one. */
  ghost predicate Greedy(batches: seq<seq<Mutation>>, bound: int) {
    && (forall i | 0 <= i < |batches| :: batches[i] != [] && (|batches[i]| == 1 || Total(batches[i]) <= bound))
    && (forall i | 0 <= i < |batches| - 1 :: Total(batches[i]) + batches[i + 1][0].size > bound)
  }

  method MutationBatches(ms: seq<Mutation>, bound: int) returns (batches: seq<seq<Mutation>>)
    ensures Joined(batches) == ms && Greedy(batches, bound)
  {
    hide Total, Joined;
    var rest := ms;
    batches := [];
    ghost var k: nat := 0;
    NoneJoined();
    while rest != []
      invariant k <= |ms| && rest == ms[k..] && Joined(batches) == ms[..k]
      invariant Greedy(batches, bound)
      invariant batches != [] && rest != [] ==> Total(batches[|batches| - 1]) + rest[0].size > bound
      decreases |rest|
    {
      var batch, left := NextBatch(rest, bound);
      JoinedSnoc(batches, batch);
      GreedySnoc(batches, batch, bound);
      Advance(ms, k, batch, left);
      batches, rest, k := batches + [batch], left, k + |batch|;
    }
    assert ms[..|ms|] == ms;
  }

  lemma NoneJoined()
    ensures Joined([]) == []
  {
  }

  lemma JoinedSnoc(batches: seq<seq<Mutation>>, batch: seq<Mutation>)
    ensures Joined(batches + [batch]) == Joined(batches) + batch
  {
    assert (batches + [batch])[..|batches|] == batches;
  }

  lemma GreedySnoc(batches: seq<seq<Mutation>>, batch: seq<Mutation>, bound: int)
    requires Greedy(batches, bound) && batch != [] && (|batch| == 1 || Total(batch) <= bound)
    requires batches != [] ==> Total(batches[|batches| - 1]) + batch[0].size > bound
    ensures Greedy(batches + [batch], bound)
  {
    hide Total;
  }

  lemma Advance(ms: seq<Mutation>, k: nat, batch: seq<Mutation>, left: seq<Mutation>)
    requires k <= |ms| && ms[k..] == batch + left
    ensures k + |batch| <= |ms| && ms[..k + |batch|] == ms[..k] + batch && ms[k + |batch|..] == left
    ensures batch != [] ==> batch[0] == ms[k..][0]
  {
    assert ms == ms[..k] + (batch + left);
  }

  lemma TotalSnoc(ms: seq<Mutation>, m: Mutation)
    ensures Total(ms + [m]) == Total(ms) + m.size
  {
    assert (ms + [m])[..|ms|] == ms;
  }

  /** The inner loop: fills one batch. */
  method NextBatch(ms: seq<Mutation>, bound: int) returns (batch: seq<Mutation>, rest: seq<Mutation>)
    requires ms != []
    ensures batch != [] && batch + rest == ms && (|batch| == 1 || Total(batch) <= bound)
    ensures rest != [] ==> Total(batch) + rest[0].size > bound
  {
    hide Total;
    batch, rest := [], ms;
    var size := 0;
    NoTotal();
    while rest != []
      invariant |batch| <= |ms| && batch == ms[..|batch|] && rest == ms[|batch|..] && size == Total(batch)
      invariant |batch| <= 1 || size <= bound
      decreases |rest|
    {
      var next := rest[0];
      if |batch| > 0 && size + next.size > bound {
        break;
      }
      TotalSnoc(batch, next);
      batch, size, rest := batch + [next], size + next.size, rest[1..];
    }
  }

  lemma NoTotal()
    ensures Total([]) == 0
  {
  }

  // ---- decodeMutationUpdateErrors ----

  /** The map built from the failed list holds what `FailedCount` finds in it. */
  ghost predicate Tallied(failed: seq<(Option<Extent>, int)>, counts: map<Extent, int>) {
    forall x :: (x in counts <==> FailedCount(failed, x).Some?) &&
                (x in counts ==> FailedCount(failed, x) == Some(counts[x]))
  }

  lemma {:induction false} FailedCountSnoc(failed: seq<(Option<Extent>, int)>, last: (Option<Extent>, int), x: Extent)
    ensures FailedCount(failed + [last], x) ==
            if FailedCount(failed, x).Some? then FailedCount(failed, x)
            else if last.0 == Some(x) then Some(last.1) else None
  {
    var all := failed + [last];
    if failed == [] {
      assert all[1..] == [];
    } else {
      assert all[1..] == failed[1..] + [last];
      FailedCountSnoc(failed[1..], last, x);
    }
  }

  lemma {:induction false} FailedCountFound(failed: seq<(Option<Extent>, int)>, i: nat)
    requires i < |failed| && failed[i].0.Some?
    ensures FailedCount(failed, failed[i].0.value).Some?
  {
    if i > 0 {
      FailedCountFound(failed[1..], i - 1);
    }
  }

  /** The legible prefix of a failed list, one entry at a time. */
  lemma LegibleStep(plan: ServerPlan, failed: seq<(Option<Extent>, int)>, n: nat, counts: map<Extent, int>)
    requires n < |failed| && Legible(plan, failed[..n]) && Tallied(failed[..n], counts)
    ensures Legible(plan, failed[..n + 1]) <==>
            && failed[n].0.Some? && failed[n].0.value in (set e | e in plan.extents :: e.extent)
            && 0 <= failed[n].1 <= |FindIn(plan.extents, failed[n].0.value)|
            && failed[n].0.value !in counts
    ensures failed[n].0.Some? && failed[n].0.value !in counts ==>
            Tallied(failed[..n + 1], counts[failed[n].0.value := failed[n].1])
    ensures !Legible(plan, failed[..n + 1]) ==> !Legible(plan, failed)
  {
    hide FindIn;
    var front, last := failed[..n], failed[n];
    assert failed[..n + 1] == front + [last];
    if last.0.Some? {
      FailedCountListed(front, last.0.value);
      if j :| 0 <= j < n && failed[j].0 == last.0 {
        assert front[j] == failed[j];
        FailedCountFound(front, j);
      }
      forall x ensures FailedCount(front + [last], x) ==
            (if FailedCount(front, x).Some? then FailedCount(front, x)
             else if last.0 == Some(x) then Some(last.1) else None) {
        FailedCountSnoc(front, last, x);
      }
    }
    assert forall i | 0 <= i < n :: failed[..n + 1][i] == front[i] == failed[i];
  }

  method ReadFailed(plan: ServerPlan, failed: seq<(Option<Extent>, int)>) returns (ok: bool, counts: map<Extent, int>)
    requires ProperServer(plan)
    ensures ok <==> Legible(plan, failed)
    ensures ok ==> Tallied(failed, counts)
  {
    counts := map[];
    var submitted := IndexExtents(plan);
    for n := 0 to |failed|
      invariant Legible(plan, failed[..n]) && Tallied(failed[..n], counts)
    {
      LegibleStep(plan, failed, n, counts);
      if failed[n].0.None? {
        return false, counts;
      }
      var key := failed[n].0.value;
      if key !in submitted {
        return false, counts;
      }
      var count := |plan.extents[submitted[key]].mutations|;
      FindInOwn(plan.extents, submitted[key]);
      if failed[n].1 < 0 || failed[n].1 > count {
        return false, counts;
      }
      if key in counts {
        return false, counts;
      }
      counts := counts[key := failed[n].1];
    }
    assert failed[..|failed|] == failed;
    ok := true;
  }

  method IndexExtents(plan: ServerPlan) returns (submitted: map<Extent, nat>)
    ensures submitted.Keys == set e | e in plan.extents :: e.extent
    ensures forall x | x in submitted :: submitted[x] < |plan.extents| && plan.extents[submitted[x]].extent == x
  {
    submitted := map[];
    for i := 0 to |plan.extents|
      invariant forall x | x in submitted :: submitted[x] < |plan.extents| && plan.extents[submitted[x]].extent == x
      invariant forall j | 0 <= j < i :: plan.extents[j].extent in submitted
    {
      submitted := submitted[plan.extents[i].extent := i];
    }
    forall x ensures x in submitted <==> x in (set e | e in plan.extents :: e.extent) {
      if x in submitted { assert plan.extents[submitted[x]] in plan.extents; }
    }
  }

  lemma {:induction false} SuffixesSnoc(extents: seq<ExtentPlan>, n: nat, failed: seq<(Option<Extent>, int)>)
    requires n < |extents|
    ensures Suffixes(extents[..n + 1], failed) == Suffixes(extents[..n], failed) + Suffixes([extents[n]], failed)
  {
    if n == 0 {
      assert extents[..1] == [extents[0]];
    } else {
      assert extents[..n + 1][1..] == extents[1..][..n] && extents[..n][1..] == extents[1..][..n - 1];
      SuffixesSnoc(extents[1..], n - 1, failed);
    }
  }

  /** `decodeMutationUpdateErrors`, with the rejection's descriptive fields left out. */
  method DecodeUpdateErrors(plan: ServerPlan, errors: Option<UpdateErrors>) returns (r: Decoded)
    requires ProperServer(plan)
    ensures r == Decode(plan, errors)
  {
    hide Legible, FailedCount;
    if errors.None? {
      return Decoded([], false);
    }
    var failed := errors.value.failed;
    var ok, counts := ReadFailed(plan, failed);
    if !ok {
      return Malformed;
    }
    var retry := CollectSuffixes(plan, errors.value, counts);
    var authorization := 0;
    for i := 0 to |errors.value.authorization|
      invariant authorization == i
      invariant forall j | 0 <= j < i :: errors.value.authorization[j].Some?
    {
      if errors.value.authorization[i].None? {
        return Malformed;
      }
      authorization := authorization + 1;
    }
    r := Decoded(retry, errors.value.violations != 0 || authorization != 0);
  }

  method CollectSuffixes(plan: ServerPlan, errors: UpdateErrors, counts: map<Extent, int>)
    returns (retry: seq<Mutation>)
    requires ProperServer(plan) && Legible(plan, errors.failed) && Tallied(errors.failed, counts)
    ensures retry == Suffixes(plan.extents, errors.failed)
  {
    hide FailedCount;
    retry := [];
    for n := 0 to |plan.extents|
      invariant retry == Suffixes(plan.extents[..n], errors.failed)
    {
      var x := plan.extents[n];
      SuffixesSnoc(plan.extents, n, errors.failed);
      LegibleCount(plan, UpdateErrors(errors.failed, 0, []), n);
      assert [x][1..] == [];
      if x.extent in counts {
        var committed := counts[x.extent];
        if committed != |x.mutations| {
          retry := retry + x.mutations[committed..];
        } else {
          assert x.mutations[committed..] == [];
        }
      }
    }
    assert plan.extents[..|plan.extents|] == plan.extents;
  }

  // ---- sendServer ----

  /** The servers have received the first `n` extents whole, and nothing else. */
  ghost predicate SentUpTo(servers: Servers, plan: ServerPlan, n: nat)
    requires n <= |plan.extents|
    reads servers
  {
    Received(servers.calls) == plan.extents[..n]
  }

  /** The first `n` extents whole, and a part of the next. */
  ghost predicate SentPartly(servers: Servers, plan: ServerPlan, n: nat, part: seq<Mutation>)
    requires n < |plan.extents|
    reads servers
  {
    Received(servers.calls) == plan.extents[..n] + [ExtentPlan(plan.extents[n].extent, part)]
  }

  /** Applies one extent's batches, up to the call that fails if one does. */
  method ApplyBatches(servers: Servers, plan: ServerPlan, n: nat, bound: int) returns (ok: bool)
    requires ProperServer(plan) && n < |plan.extents| && SentUpTo(servers, plan, n)
    requires servers.reply.ApplyFailed? ==> |servers.calls| <= servers.reply.call
    modifies servers`log, servers`applies, servers`calls
    ensures servers.applies > old(servers.applies)
    ensures ok ==> SentUpTo(servers, plan, n + 1) && servers.log == old(servers.log)
    ensures ok && servers.reply.ApplyFailed? ==> |servers.calls| <= servers.reply.call
    ensures !ok ==> servers.reply.ApplyFailed? && FrontOf(Received(servers.calls), plan.extents)
    ensures !ok ==> servers.log == old(servers.log) + Delivered(servers.address, servers.calls, servers.reply)
  {
    hide Joined, Received, Delivered, Greedy, Total, FrontOf;
    var x := plan.extents[n];
    var batches := MutationBatches(x.mutations, bound);
    BatchesExist(x.mutations, batches);
    for i := 0 to |batches|
      invariant servers.applies == old(servers.applies) + i && servers.log == old(servers.log)
      invariant servers.reply.ApplyFailed? ==> |servers.calls| <= servers.reply.call
      invariant if i == 0 then SentUpTo(servers, plan, n) else SentPartly(servers, plan, n, Joined(batches[..i]))
    {
      ghost var before := servers.calls;
      ok := servers.Apply(x.extent, batches[i]);
      BatchReceived(before, plan, n, batches, i);
      if !ok {
        PartIsFront(plan, n, batches, i + 1);
        return;
      }
    }
    assert batches[..|batches|] == batches;
    assert plan.extents[..n] + [x] == plan.extents[..n + 1];
    ok := true;
  }

  lemma BatchesExist(ms: seq<Mutation>, batches: seq<seq<Mutation>>)
    requires Joined(batches) == ms && ms != []
    ensures batches != []
  {
  }

  lemma BatchReceived(calls: seq<ExtentPlan>, plan: ServerPlan, n: nat, batches: seq<seq<Mutation>>, i: nat)
    requires ProperServer(plan) && n < |plan.extents| && i < |batches|
    requires Received(calls) == plan.extents[..n] +
               if i == 0 then [] else [ExtentPlan(plan.extents[n].extent, Joined(batches[..i]))]
    ensures Received(calls + [ExtentPlan(plan.extents[n].extent, batches[i])]) ==
            plan.extents[..n] + [ExtentPlan(plan.extents[n].extent, Joined(batches[..i + 1]))]
  {
    hide Received, Joined, Gather;
    var call := ExtentPlan(plan.extents[n].extent, batches[i]);
    ReceivedSnoc(calls, call);
    assert batches[..i] + [batches[i]] == batches[..i + 1];
    JoinedSnoc(batches[..i], batches[i]);
    var front := plan.extents[..n];
    if i == 0 {
      NoneJoined();
      assert front + [] == front && [] + batches[i] == batches[i];
      GatherNew(front, call);
    } else {
      GatherLast(front, Joined(batches[..i]), call);
    }
  }

  lemma PartIsFront(plan: ServerPlan, n: nat, batches: seq<seq<Mutation>>, i: nat)
    requires n < |plan.extents| && i <= |batches| && Joined(batches) == plan.extents[n].mutations
    ensures FrontOf(plan.extents[..n] + [ExtentPlan(plan.extents[n].extent, Joined(batches[..i]))], plan.extents)
  {
    hide Joined, FrontOf;
    JoinedPrefix(batches, i);
    FrontWithPart(plan.extents, n, Joined(batches[..i]));
  }

  lemma FrontWithPart(extents: seq<ExtentPlan>, n: nat, part: seq<Mutation>)
    requires n < |extents| && part <= extents[n].mutations
    ensures FrontOf(extents[..n] + [ExtentPlan(extents[n].extent, part)], extents)
  {
    var groups := extents[..n] + [ExtentPlan(extents[n].extent, part)];
    forall i | 0 <= i < |groups|
      ensures groups[i].extent == extents[i].extent && groups[i].mutations <= extents[i].mutations
    {
      if i < n { assert groups[i] == extents[i]; }
    }
  }

  lemma {:induction false} JoinedPrefix(batches: seq<seq<Mutation>>, i: nat)
    requires i <= |batches|
    ensures Joined(batches[..i]) <= Joined(batches)
  {
    if i == |batches| {
      assert batches[..i] == batches;
    } else {
      var front := batches[..|batches| - 1];
      JoinedPrefix(front, i);
      assert front[..i] == batches[..i];
    }
  }

  /**
   `sendServer`: one update session. What the servers commit follows from the
   calls made; it is what the reply says of the plan, a failed Apply's part cut
   down to what had been sent. No call sends anything twice, and a session that
   reached its close sent every extent whole.
   */
  method SendServer(servers: Servers, plan: ServerPlan, reply: Reply, bound: int)
    returns (outcome: Outcome, ghost effective: Reply)
    requires ProperServer(plan)
    modifies servers
    ensures outcome == Send(plan, reply)
    ensures effective == Effective(reply, Received(servers.calls))
    ensures servers.log == old(servers.log) + ExtentMutations(CutIn(plan, effective, plan.extents, true))
    ensures servers.applies >= old(servers.applies)
    ensures outcome.submitted <==> servers.applies > old(servers.applies)
    ensures FrontOf(Received(servers.calls), plan.extents)
    ensures reply.CloseFailed? || reply.Closed? ==> Received(servers.calls) == plan.extents
  {
    hide Decode, ExtentMutations, Suffixes, CutIn, Received, Delivered, Effective, FrontOf;
    var ok := servers.Start(plan.address, reply);
    NothingReceived(plan);
    if !ok {
      effective := Effective(reply, Received(servers.calls));
      NothingStarted(plan, reply);
      return Outcome(ExtentMutations(plan.extents), false, false), effective;
    }
    for n := 0 to |plan.extents|
      invariant servers.reply == reply && servers.address == plan.address && servers.log == old(servers.log)
      invariant SentUpTo(servers, plan, n)
      invariant servers.applies >= old(servers.applies) && (n > 0 ==> servers.applies > old(servers.applies))
      invariant reply.ApplyFailed? ==> |servers.calls| <= reply.call
    {
      ok := ApplyBatches(servers, plan, n, bound);
      if !ok {
        effective := Effective(reply, Received(servers.calls));
        SessionDelivers(plan, servers.calls, reply);
        return Outcome([], true, true), effective;
      }
    }
    assert plan.extents[..|plan.extents|] == plan.extents;
    effective := Effective(reply, Received(servers.calls));
    WholeIsFront(plan.extents);
    SessionDelivers(plan, servers.calls, reply);
    var closed := servers.Close();
    if closed.Err? {
      return Outcome([], true, true), effective;
    }
    var decoded := DecodeUpdateErrors(plan, closed.value);
    if decoded.Malformed? || decoded.terminal {
      return Outcome([], true, true), effective;
    }
    outcome := Outcome(decoded.retry, true, false);
  }

  lemma NothingReceived(plan: ServerPlan)
    ensures Received([]) == [] == plan.extents[..0] && FrontOf([], plan.extents)
  {
  }

  lemma WholeIsFront(extents: seq<ExtentPlan>)
    ensures FrontOf(extents, extents)
  {
  }

  lemma NothingStarted(plan: ServerPlan, reply: Reply)
    requires reply.StartFailed?
    ensures Effective(reply, []) == reply && ExtentMutations(CutIn(plan, reply, plan.extents, true)) == []
  {
    NothingCut(plan, reply, plan.extents);
  }

  /** A session that received a front of the plan; the whole of it, unless an Apply failed. */
  lemma SessionDelivers(plan: ServerPlan, calls: seq<ExtentPlan>, reply: Reply)
    requires ProperServer(plan) && FrontOf(Received(calls), plan.extents)
    requires reply.ApplyFailed? || Received(calls) == plan.extents
    ensures Delivered(plan.address, calls, reply) ==
            ExtentMutations(CutIn(plan, Effective(reply, Received(calls)), plan.extents, true))
  {
    hide ExtentMutations, CutIn, Received, FrontOf;
    var groups := Received(calls);
    if reply.ApplyFailed? {
      PartDelivered(plan, groups, reply, 0);
      assert plan.extents[0..] == plan.extents && groups[0..] == groups;
      assert groups[|groups|..] == [] && (|groups| == 0 ==> groups[|groups|..] == groups);
    }
  }

  /** The outcomes a round's replies lead to do not depend on what a failed Apply kept. */
  predicate SameOutcomes(plans: seq<ServerPlan>, round: Round, other: Round) {
    forall i | 0 <= i < |plans| ::
      Send(plans[i], ReplyOf(round, plans[i].address)) == Send(plans[i], ReplyOf(other, plans[i].address))
  }

  /**
   `sendServerPlans` and the loop over its outcomes: each plan is sent in one
   session, and the servers commit what the round's replies say of the plans.
   */
  method SendPlans(servers: Servers, plans: seq<ServerPlan>, round: Round, bound: int)
    returns (outcome: Outcome, ghost effective: Round)
    requires Proper(plans)
    modifies servers
    ensures outcome == SendAll(plans, round) == SendAll(plans, effective)
    ensures effective == round.(replies := effective.replies) && SameOutcomes(plans, round, effective)
    ensures servers.log == old(servers.log) + Mutations(Cut(plans, effective, true))
    ensures servers.applies >= old(servers.applies)
    ensures outcome.submitted <==> servers.applies > old(servers.applies)
  {
    hide Send, Cut, Mutations, ExtentMutations, CutIn, Effective, Received, FrontOf, ProperServer;
    var retry, submitted, failed := [], false, false;
    effective := round;
    NothingSent(round);
    for i := 0 to |plans|
      invariant Outcome(retry, submitted, failed) == SendAll(plans[..i], round)
      invariant effective == round.(replies := effective.replies) && SameOutcomes(plans, round, effective)
      invariant servers.log == old(servers.log) + Mutations(Cut(plans[..i], effective, true))
      invariant servers.applies >= old(servers.applies)
      invariant submitted <==> servers.applies > old(servers.applies)
      invariant forall j | i <= j < |plans| :: ReplyOf(effective, plans[j].address) == ReplyOf(round, plans[j].address)
    {
      var reply := ReplyOf(round, plans[i].address);
      ghost var sofar := effective;
      var result;
      ghost var kept;
      result, kept := SendServer(servers, plans[i], reply, bound);
      EffectiveSends(plans[i], reply, Received(servers.calls));
      effective := effective.(replies := effective.replies[plans[i].address := kept]);
      SentOneMore(plans, i, sofar, effective);
      SendAllSnoc(plans, i, round);
      submitted := submitted || result.submitted;
      if result.failed {
        failed := true;
      } else {
        retry := retry + result.retry;
      }
    }
    assert plans[..|plans|] == plans;
    outcome := Outcome(retry, submitted, failed);
    SameSendAll(plans, round, effective);
  }

  lemma NothingSent(round: Round)
    ensures Mutations(Cut([], round, true)) == [] && SendAll([], round) == Outcome([], false, false)
  {
  }

  lemma EffectiveSends(plan: ServerPlan, reply: Reply, groups: seq<ExtentPlan>)
    ensures Send(plan, Effective(reply, groups)) == Send(plan, reply)
  {
  }

  lemma {:induction false} SameSendAll(plans: seq<ServerPlan>, round: Round, other: Round)
    requires SameOutcomes(plans, round, other)
    ensures SendAll(plans, round) == SendAll(plans, other)
  {
    hide Send;
    if plans != [] {
      SameSendAll(plans[1..], round, other);
    }
  }

  /** Settling the reply of one more server leaves the earlier plans' cuts alone. */
  lemma SentOneMore(plans: seq<ServerPlan>, i: nat, before: Round, after: Round)
    requires i < |plans| && forall j | 0 <= j < i :: plans[j].address != plans[i].address
    requires forall a | a != plans[i].address :: ReplyOf(after, a) == ReplyOf(before, a)
    ensures Mutations(Cut(plans[..i + 1], after, true)) ==
            Mutations(Cut(plans[..i], before, true)) +
            ExtentMutations(CutIn(plans[i], ReplyOf(after, plans[i].address), plans[i].extents, true))
  {
    hide Cut, CutIn, ExtentMutations, Mutations;
    SameCut(plans[..i], before, after);
    CutSnoc(plans, i, after);
  }

  lemma {:induction false} SameCut(plans: seq<ServerPlan>, before: Round, after: Round)
    requires forall j | 0 <= j < |plans| :: ReplyOf(after, plans[j].address) == ReplyOf(before, plans[j].address)
    ensures Cut(plans, after, true) == Cut(plans, before, true)
  {
    hide CutIn;
    if plans != [] {
      SameCut(plans[1..], before, after);
    }
  }

  lemma {:induction false} CutSnoc(plans: seq<ServerPlan>, i: nat, round: Round)
    requires i < |plans|
    ensures Mutations(Cut(plans[..i + 1], round, true)) ==
            Mutations(Cut(plans[..i], round, true)) +
            ExtentMutations(CutIn(plans[i], ReplyOf(round, plans[i].address), plans[i].extents, true))
  {
    hide CutIn, ExtentMutations;
    if i == 0 {
      assert plans[..1][1..] == [] && plans[..0] == [];
      ConsCut(plans[..1], round);
      NothingSent(round);
    } else {
      assert plans[..i + 1][1..] == plans[1..][..i] && plans[..i][1..] == plans[1..][..i - 1];
      CutSnoc(plans[1..], i - 1, round);
      ConsCut(plans[..i + 1], round);
      ConsCut(plans[..i], round);
    }
  }

  lemma ConsCut(plans: seq<ServerPlan>, round: Round)
    requires plans != []
    ensures Mutations(Cut(plans, round, true)) ==
            ExtentMutations(CutIn(plans[0], ReplyOf(round, plans[0].address), plans[0].extents, true)) +
            Mutations(Cut(plans[1..], round, true))
  {
    hide CutIn, ExtentMutations;
    assert Cut(plans, round, true)[1..] == Cut(plans[1..], round, true);
  }

  lemma {:induction false} SendAllSnoc(plans: seq<ServerPlan>, i: nat, round: Round)
    requires i < |plans|
    ensures var before := SendAll(plans[..i], round);
            var last := Send(plans[i], ReplyOf(round, plans[i].address));
            SendAll(plans[..i + 1], round) ==
            Outcome(before.retry + (if last.failed then [] else last.retry),
                    before.submitted || last.submitted, before.failed || last.failed)
  {
    hide Send;
    if i == 0 {
      assert plans[..1][1..] == [];
    } else {
      assert plans[..i + 1][1..] == plans[1..][..i] && plans[..i][1..] == plans[1..][..i - 1];
      SendAllSnoc(plans[1..], i - 1, round);
    }
  }
}
