/**
 The tablet servers as the batch writer meets them: update sessions that are
 started, applied to and closed. What a session commits is decided by the calls
 it received and by how it ends: of each extent a prefix of what was applied
 to it, all of it where nothing is reported.
 */
module TabletServers {
  import opened Wrappers
  import opened TabletExtents
  import opened WriterPlan

  /** Adds one call to what an extent has received. */
  function Gather(groups: seq<ExtentPlan>, call: ExtentPlan): seq<ExtentPlan> {
    if groups == [] then [call]
    else if groups[0].extent == call.extent then
      [ExtentPlan(call.extent, groups[0].mutations + call.mutations)] + groups[1..]
    else [groups[0]] + Gather(groups[1..], call)
  }

  /** What each extent has received, in the order the extents were first called. */
  function Received(calls: seq<ExtentPlan>): seq<ExtentPlan> {
    if calls == [] then [] else Gather(Received(calls[..|calls| - 1]), calls[|calls| - 1])
  }

  /** What a session commits when it ends after these calls. */
  function Delivered(address: string, calls: seq<ExtentPlan>, reply: Reply): seq<Mutation> {
    ExtentMutations(CutIn(ServerPlan(address, Received(calls)), reply, Received(calls), true))
  }

  class Servers {
    /** Everything committed so far, in order, and how often Apply was called. */
    var log: seq<Mutation>
    var applies: nat

    /** The session that was started last: its server, its calls and how it goes. */
    var address: string
    var calls: seq<ExtentPlan>
    var reply: Reply

    constructor ()
      ensures log == [] && applies == 0
    {
      log, applies, address, calls, reply := [], 0, "", [], StartFailed;
    }

    method Start(address: string, reply: Reply) returns (ok: bool)
      modifies this`address, this`calls, this`reply
      ensures this.address == address && calls == [] && this.reply == reply && ok == !reply.StartFailed?
    {
      this.address, calls, this.reply := address, [], reply;
      ok := !reply.StartFailed?;
    }

    /** A call that fails ends the session; it may have been received all the same. */
    method Apply(extent: Extent, mutations: seq<Mutation>) returns (ok: bool)
      modifies this`log, this`applies, this`calls
      ensures applies == old(applies) + 1 && calls == old(calls) + [ExtentPlan(extent, mutations)]
      ensures ok <==> !(reply.ApplyFailed? && |calls| > reply.call)
      ensures log == old(log) + if ok then [] else Delivered(address, calls, reply)
    {
      calls, applies := calls + [ExtentPlan(extent, mutations)], applies + 1;
      ok := !(reply.ApplyFailed? && |calls| > reply.call);
      if !ok {
        log := log + Delivered(address, calls, reply);
      }
    }

    /** The errors the server reports, or a failure that reports nothing. */
    method Close() returns (r: Result<Option<UpdateErrors>, ()>)
      modifies this`log
      ensures log == old(log) + Delivered(address, calls, reply)
      ensures r == if reply.Closed? then Ok(reply.errors) else Err(())
    {
      log := log + Delivered(address, calls, reply);
      r := if reply.Closed? then Ok(reply.errors) else Err(());
    }
  }

  lemma ReceivedSnoc(calls: seq<ExtentPlan>, call: ExtentPlan)
    ensures Received(calls + [call]) == Gather(Received(calls), call)
  {
    assert (calls + [call])[..|calls|] == calls;
  }

  lemma {:induction false} GatherNew(groups: seq<ExtentPlan>, call: ExtentPlan)
    requires forall i | 0 <= i < |groups| :: groups[i].extent != call.extent
    ensures Gather(groups, call) == groups + [call]
  {
    if groups != [] {
      GatherNew(groups[1..], call);
    }
  }

  lemma {:induction false} GatherLast(groups: seq<ExtentPlan>, part: seq<Mutation>, call: ExtentPlan)
    requires forall i | 0 <= i < |groups| :: groups[i].extent != call.extent
    ensures Gather(groups + [ExtentPlan(call.extent, part)], call) ==
            groups + [ExtentPlan(call.extent, part + call.mutations)]
  {
    var all := groups + [ExtentPlan(call.extent, part)];
    if groups == [] {
      assert all[1..] == [];
    } else {
      GatherLast(groups[1..], part, call);
      assert all[1..] == groups[1..] + [ExtentPlan(call.extent, part)];
    }
  }

  // ---- What a failed Apply committed, seen from the plan ----

  /** Groups are a front of the plan's, the last of them perhaps in part. */
  predicate FrontOf(groups: seq<ExtentPlan>, extents: seq<ExtentPlan>) {
    && |groups| <= |extents|
    && forall i | 0 <= i < |groups| ::
         groups[i].extent == extents[i].extent && groups[i].mutations <= extents[i].mutations
  }

  /** The same reply with what it kept cut down to what was received. */
  function Effective(reply: Reply, groups: seq<ExtentPlan>): Reply {
    if reply.ApplyFailed?
    then ApplyFailed(reply.call, map x | x in reply.kept :: Clip(reply.kept[x], |FindIn(groups, x)|))
    else reply
  }

  lemma {:induction false} FindInAbsent(groups: seq<ExtentPlan>, x: Extent)
    requires forall i | 0 <= i < |groups| :: groups[i].extent != x
    ensures FindIn(groups, x) == []
  {
    if groups != [] {
      FindInAbsent(groups[1..], x);
    }
  }

  /** What was committed of the calls received is what the effective reply says of the plan. */
  lemma {:induction false} PartDelivered(plan: ServerPlan, groups: seq<ExtentPlan>, reply: Reply, k: nat)
    requires reply.ApplyFailed? && DistinctExtents(plan.extents) && FrontOf(groups, plan.extents)
    requires k <= |plan.extents|
    ensures var sent := ServerPlan(plan.address, groups);
            ExtentMutations(CutIn(plan, Effective(reply, groups), plan.extents[k..], true)) ==
            ExtentMutations(CutIn(sent, reply, groups[if k < |groups| then k else |groups|..], true))
    decreases |plan.extents| - k
  {
    hide ExtentMutations, CutIn, Committed, FrontOf, Effective;
    var sent, effective := ServerPlan(plan.address, groups), Effective(reply, groups);
    FrontIsShorter(groups, plan.extents);
    if k == |plan.extents| {
      assert plan.extents[k..] == [] && groups[|groups|..] == [];
      NothingDelivered(plan, sent, effective, reply);
    } else {
      PartDelivered(plan, groups, reply, k + 1);
      assert plan.extents[k..][1..] == plan.extents[k + 1..];
      ConsMutations(plan, effective, plan.extents[k..]);
      if k < |groups| {
        SameDelivered(plan, groups, reply, k);
        assert groups[k..][1..] == groups[k + 1..];
        ConsMutations(sent, reply, groups[k..]);
      } else {
        NoneDelivered(plan, groups, reply, k);
      }
    }
  }

  lemma FrontIsShorter(groups: seq<ExtentPlan>, extents: seq<ExtentPlan>)
    requires FrontOf(groups, extents)
    ensures |groups| <= |extents|
  {
  }

  lemma NothingDelivered(plan: ServerPlan, sent: ServerPlan, effective: Reply, reply: Reply)
    ensures ExtentMutations(CutIn(plan, effective, [], true)) == ExtentMutations(CutIn(sent, reply, [], true))
  {
  }

  lemma SameDelivered(plan: ServerPlan, groups: seq<ExtentPlan>, reply: Reply, k: nat)
    requires reply.ApplyFailed? && DistinctExtents(plan.extents) && FrontOf(groups, plan.extents) && k < |groups|
    ensures var x, n := plan.extents[k], Committed(ServerPlan(plan.address, groups), reply, groups[k]);
            x.mutations[..Committed(plan, Effective(reply, groups), x)] == groups[k].mutations[..n]
  {
    FindInOwn(groups, k);
  }

  lemma NoneDelivered(plan: ServerPlan, groups: seq<ExtentPlan>, reply: Reply, k: nat)
    requires reply.ApplyFailed? && DistinctExtents(plan.extents) && FrontOf(groups, plan.extents)
    requires |groups| <= k < |plan.extents|
    ensures Committed(plan, Effective(reply, groups), plan.extents[k]) == 0
  {
    FindInAbsent(groups, plan.extents[k].extent);
  }

  lemma ConsMutations(plan: ServerPlan, reply: Reply, extents: seq<ExtentPlan>)
    requires extents != []
    ensures ExtentMutations(CutIn(plan, reply, extents, true)) ==
            extents[0].mutations[..Committed(plan, reply, extents[0])] +
            ExtentMutations(CutIn(plan, reply, extents[1..], true))
  {
    assert CutIn(plan, reply, extents, true)[1..] == CutIn(plan, reply, extents[1..], true);
  }
}
