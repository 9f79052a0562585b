/**
 Counting acks, and schedules that complete nodes: what one repeated ack suffices for, and that
 every run in which all nodes have started can still be completed by all of them, with or
 without messages looping back to their own senders.
 */
module AdkgCompletion {
  import opened Wrappers
  import opened Polynomials
  import opened Interpolation
  import opened CyclicGroup
  import opened Feldman
  import opened MapSums
  import opened AdkgNode
  import opened AdkgRuns
  import opened AdkgTheorems

  // ---------- counting acks ----------

  lemma AddAckCount(acks: Acks, sender: string, valid: bool)
    ensures ValidAcks(AddAck(acks, sender, valid)) == ValidAcks(acks) + if valid then 1 else 0
  {
    var acks' := AddAck(acks, sender, valid);
    var counts, counts' := AckCounts(acks), AckCounts(acks');
    var entry := if sender in acks then acks[sender] else [];
    assert Init(entry + [(sender, valid)]) == entry;
    assert counts'[sender] == CountValid(entry) + if valid then 1 else 0;
    IntSumRemove(counts', sender);
    if sender in acks {
      IntSumRemove(counts, sender);
      assert counts' - {sender} == counts - {sender};
    } else {
      assert counts' - {sender} == counts;
    }
  }

  lemma AckCountNonNegative(acks: Acks)
    ensures ValidAcks(acks) >= 0
  {
    IntSumNonNegative(AckCounts(acks));
  }

  lemma {:induction false} IntSumNonNegative(m: map<string, int>)
    requires forall k :: k in m ==> m[k] >= 0
    ensures IntSum(m) >= 0
    decreases |m|
  {
    if m != map[] {
      var k :| k in m && IntSum(m) == IntSum(m - {k}) + m[k];
      IntSumNonNegative(m - {k});
    }
  }

  ghost function ValidAckers(acks: Acks): set<string> {
    set a | a in acks && CountValid(acks[a]) > 0
  }

  lemma ValidAckAddsAcker(acks: Acks, sender: string)
    ensures ValidAckers(AddAck(acks, sender, true)) == ValidAckers(acks) + {sender}
  {
    var acks' := AddAck(acks, sender, true);
    var entry := if sender in acks then acks[sender] else [];
    assert Init(entry + [(sender, true)]) == entry;
    assert CountValid(acks'[sender]) == CountValid(entry) + 1;
    forall a | a != sender
      ensures a in ValidAckers(acks') <==> a in ValidAckers(acks)
    {
    }
  }

  /** Valid acks come from someone. */
  lemma NoAckersNoAcks(acks: Acks)
    requires ValidAckers(acks) == {}
    ensures ValidAcks(acks) == 0
  {
    forall a | a in acks
      ensures AckCounts(acks)[a] == 0
    {
      assert a !in ValidAckers(acks);
    }
    IntSumZero(AckCounts(acks));
  }

  // ---------- delivering acks ----------

  /** Valid acks addressed to a started node. */
  ghost predicate AcksTo(s: System, id: string, acks: seq<Message>) {
    && id in s.nodes && id in s.polys && s.nodes[id].id == id
    && forall i :: 0 <= i < |acks| ==>
         acks[i] in s.network && acks[i].ShareAck? && acks[i].receiverId == id && acks[i].valid
  }

  function DeliverEach(id: string, acks: seq<Message>): seq<Step> {
    seq(|acks|, i requires 0 <= i < |acks| => Deliver(id, acks[i], true))
  }

  lemma DeliverEachLast(steps: seq<Step>, id: string, acks: seq<Message>)
    requires acks != []
    ensures steps + DeliverEach(id, Init(acks)) + [Deliver(id, Last(acks), true)] == steps + DeliverEach(id, acks)
  {
    assert DeliverEach(id, acks) == DeliverEach(id, Init(acks)) + [Deliver(id, Last(acks), true)];
  }

  /** From s to s', node id has counted n more valid acks, and nothing else has happened. */
  ghost predicate AcksCounted(s: System, s': System, id: string, n: nat) {
    && s'.nodes.Keys == s.nodes.Keys && s'.polys == s.polys && s'.network == s.network
    && (forall r :: r in s.nodes && r != id ==>
          s'.nodes[r] == s.nodes[r] && (r in s.checks ==> r in s'.checks && s'.checks[r] == s.checks[r]))
    && id in s.nodes
    && var v, v' := s.nodes[id], s'.nodes[id];
       && v'.id == v.id && v'.t == v.t && v'.shares == v.shares && v'.commitments == v.commitments
       && ValidAcks(v'.acks) == ValidAcks(v.acks) + n
       && (n > 0 && ValidAcks(v'.acks) >= v.t ==>
             v'.secretKeyShare.Some? && id in s'.checks && s'.checks[id] == v')
  }

  function Senders(ms: seq<Message>): set<string> {
    set i | 0 <= i < |ms| :: ms[i].senderId
  }

  /** From s to s', exactly `senders` have joined the valid ackers of node id. */
  ghost predicate AckersJoined(s: System, s': System, id: string, senders: set<string>) {
    && id in s.nodes && id in s'.nodes
    && ValidAckers(s'.nodes[id].acks) == ValidAckers(s.nodes[id].acks) + senders
  }

  lemma ValidAckHandled(g: PrimeGroup, v: NodeState, m: Message)
    requires m.ShareAck? && m.receiverId == v.id && m.valid
    ensures var v' := AfterAck(g, v, m).0;
            && v'.id == v.id && v'.t == v.t && v'.shares == v.shares && v'.commitments == v.commitments
            && ValidAcks(v'.acks) == ValidAcks(v.acks) + 1
            && ValidAckers(v'.acks) == ValidAckers(v.acks) + {m.senderId}
            && (ValidAcks(v'.acks) >= v.t <==> Fires(v, m))
            && (Fires(v, m) ==> v'.secretKeyShare.Some?)
  {
    AddAckCount(v.acks, m.senderId, m.valid);
    ValidAckAddsAcker(v.acks, m.senderId);
    AckStores(g, v, m);
    CheckStores(g, v.(acks := AddAck(v.acks, m.senderId, m.valid)));
  }

  lemma OneAckCounted(g: PrimeGroup, s: System, id: string, m: Message)
    requires Enabled(g, s, Deliver(id, m, true)) && m.ShareAck? && m.valid
    requires s.nodes[id].id == id && m.receiverId == id
    ensures AcksCounted(s, Apply(g, s, Deliver(id, m, true)), id, 1)
    ensures AckersJoined(s, Apply(g, s, Deliver(id, m, true)), id, {m.senderId})
  {
    var s' := Apply(g, s, Deliver(id, m, true));
    ValidAckHandled(g, s.nodes[id], m);
    assert s'.network == s.network;
    assert s'.nodes[id] == AfterAck(g, s.nodes[id], m).0;
  }

  lemma SendersLast(ms: seq<Message>)
    requires ms != []
    ensures Senders(ms) == Senders(Init(ms)) + {Last(ms).senderId}
  {
    assert ms == Init(ms) + [Last(ms)];
    assert forall x :: x in Senders(ms) ==> x in Senders(Init(ms)) + {Last(ms).senderId};
  }

  /** Acks on the network can be delivered in sequence, and each delivery counts. */
  lemma {:induction false} DeliverAcks(g: PrimeGroup, steps: seq<Step>, states: seq<System>, id: string,
        acks: seq<Message>)
      returns (states': seq<System>)
    requires Run(g, steps, states) && AcksTo(Last(states), id, acks)
    ensures Run(g, steps + DeliverEach(id, acks), states') && states <= states'
    ensures AcksCounted(Last(states), Last(states'), id, |acks|)
    ensures AckersJoined(Last(states), Last(states'), id, Senders(acks))
  {
    if acks == [] {
      states' := states;
      assert steps + DeliverEach(id, acks) == steps;
      assert Senders(acks) == {};
    } else {
      var before := DeliverAcks(g, steps, states, id, Init(acks));
      var step := Deliver(id, Last(acks), true);
      OneAckCounted(g, Last(before), id, Last(acks));
      RunExtends(g, steps + DeliverEach(id, Init(acks)), before, step);
      states' := before + [Apply(g, Last(before), step)];
      DeliverEachLast(steps, id, acks);
      SendersLast(acks);
    }
  }

  /** The number of further valid acks that make a node's check fire. */
  ghost function AcksLeft(v: NodeState): nat {
    if ValidAcks(v.acks) >= v.t then 1 else v.t - ValidAcks(v.acks)
  }

  /**
   One valid ack, delivered as often as acks are left, completes its receiver in an extension of
   any run, and adds its sender alone to the ackers.
   */
  lemma ReplayCompletes(g: PrimeGroup, steps: seq<Step>, states: seq<System>, id: string, m: Message)
      returns (steps': seq<Step>, states': seq<System>)
    requires Run(g, steps, states) && id in Last(states).nodes && id in Last(states).polys
    requires m in Last(states).network && m.ShareAck? && m.receiverId == id && m.valid
    ensures Run(g, steps + steps', states') && states <= states'
    ensures |steps'| == AcksLeft(Last(states).nodes[id])
    ensures forall i :: 0 <= i < |steps'| ==> steps'[i] == Deliver(id, m, true)
    ensures id in Last(states').nodes && Last(states').nodes[id].secretKeyShare.Some?
    ensures AckersJoined(Last(states), Last(states'), id, {m.senderId})
    ensures AcksCounted(Last(states), Last(states'), id, |steps'|)
  {
    var acks := seq(AcksLeft(Last(states).nodes[id]), i => m);
    NodeInvariant(g, steps, states, |states| - 1, id);
    steps' := DeliverEach(id, acks);
    states' := DeliverAcks(g, steps, states, id, acks);
    AckCountNonNegative(Last(states).nodes[id].acks);
    assert acks[0].senderId in Senders(acks);
    assert Senders(acks) == {m.senderId};
  }

  // ---------- every run can be completed ----------

  /** Those of `ids` whose messages reach r. */
  function Peers(ids: set<string>, loopback: bool, r: string): set<string> {
    if loopback then ids else ids - {r}
  }

  predicate Delivers(plan: seq<Step>, loopback: bool) {
    forall i :: 0 <= i < |plan| ==> plan[i].Deliver? && Reaches(loopback, plan[i].m.senderId, plan[i].id)
  }

  /** One plan after another is a plan. */
  lemma JoinPlans(steps: seq<Step>, plan: seq<Step>, plan': seq<Step>, loopback: bool)
    requires Delivers(plan, loopback) && Delivers(plan', loopback)
    ensures Delivers(plan + plan', loopback) && steps + (plan + plan') == steps + plan + plan'
  {
  }

  ghost predicate Deliverable(g: PrimeGroup, s: System, plan: seq<Step>) {
    forall i :: 0 <= i < |plan| ==> plan[i].Deliver? && Enabled(g, s, plan[i])
  }

  lemma StaysEnabled(g: PrimeGroup, s: System, s': System, step: Step)
    requires Extends(s, s') && step.Deliver? && Enabled(g, s, step)
    ensures Enabled(g, s', step)
  {
  }

  /** Deliveries possible now remain possible, so they can be made one after the other. */
  lemma {:induction false} RunPlan(g: PrimeGroup, steps: seq<Step>, states: seq<System>, plan: seq<Step>)
      returns (states': seq<System>)
    requires Run(g, steps, states) && Deliverable(g, Last(states), plan)
    ensures Run(g, steps + plan, states') && states <= states'
  {
    if plan == [] {
      states' := states;
      assert steps + plan == steps;
    } else {
      var before := RunPlan(g, steps, states, Init(plan));
      assert before[|states| - 1] == Last(states);
      RunMonotone(g, steps + Init(plan), before, |states| - 1, |before| - 1);
      StaysEnabled(g, Last(states), Last(before), Last(plan));
      RunExtends(g, steps + Init(plan), before, Last(plan));
      states' := before + [Apply(g, Last(before), Last(plan))];
      assert steps + Init(plan) + [Last(plan)] == steps + plan;
    }
  }

  /** A started node's proposal has been published. */
  lemma {:induction false} ProposalPublished(g: PrimeGroup, steps: seq<Step>, states: seq<System>, k: nat, d: string)
    requires Run(g, steps, states) && k < |states| && d in states[k].polys
    ensures d in states[k].nodes && ProposalOf(g, states[k].nodes[d], states[k].polys[d]) in states[k].network
  {
    if k > 0 {
      var s, step := states[k - 1], steps[k - 1];
      assert StepAt(g, steps, states, k - 1);
      if d in s.polys {
        ProposalPublished(g, steps, states, k - 1, d);
        StepExtends(g, s, step);
        assert NodeExtends(s.nodes[d], states[k].nodes[d]);
      } else {
        assert step.Start? && step.id == d;
      }
    }
  }

  /** Nodes deal for all they reach, and reach enough for every threshold. */
  ghost predicate Configured(s: System, loopback: bool) {
    && PeerCount(s, loopback) > 0
    && (forall r, d {:trigger InRange(s, r, d)} ::
          r in s.nodes && d in s.nodes && Reaches(loopback, d, r) ==> InRange(s, r, d))
    && ThresholdsUpTo(s, PeerCount(s, loopback))
  }

  ghost predicate AllStarted(s: System, loopback: bool) {
    s.polys.Keys == s.nodes.Keys && Configured(s, loopback)
  }

  /** How many nodes reach each node. */
  ghost function PeerCount(s: System, loopback: bool): int {
    if loopback then |s.nodes| else |s.nodes| - 1
  }

  ghost predicate ThresholdsUpTo(s: System, n: int) {
    forall r {:trigger ThresholdUpTo(s, r, n)} :: r in s.nodes ==> ThresholdUpTo(s, r, n)
  }

  predicate ThresholdUpTo(s: System, r: string, n: int)
    requires r in s.nodes
  {
    s.nodes[r].t <= n
  }

  /** d deals a share for r. */
  ghost predicate InRange(s: System, r: string, d: string)
    requires r in s.nodes && d in s.nodes
  {
    1 <= s.nodes[r].idx <= s.nodes[d].n
  }

  /** Delivering d's proposal to r in range stores its share and sends an ack. */
  lemma ProposalHandled(g: PrimeGroup, s: System, r: string, d: string, m: Message)
    requires r in s.nodes && d in s.nodes && d in s.polys && s.nodes[d].id == d && s.nodes[r].id == r
    requires m == ProposalOf(g, s.nodes[d], s.polys[d]) && 1 <= s.nodes[r].idx <= s.nodes[d].n
    requires Enabled(g, s, Deliver(r, m, true))
    ensures var s' := Apply(g, s, Deliver(r, m, true));
            d in s'.nodes[r].shares && ShareAck(r, d, true) in s'.network
  {
    DealingAccepted(g, s.polys[d], s.nodes[d].n, s.nodes[r].idx);
    var h := Handle(g, s.nodes[r], m, true);
    assert h.published == Some(ShareAck(r, d, true));
  }

  /** The deliveries of every node's proposal to every node it reaches. */
  ghost predicate IsExchange(g: PrimeGroup, s: System, loopback: bool, plan: seq<Step>)
    requires s.polys.Keys <= s.nodes.Keys
  {
    && (forall r, d {:trigger Planned(g, s, plan, r, d)} ::
          r in s.nodes && d in s.polys && Reaches(loopback, d, r) ==> Planned(g, s, plan, r, d))
    && forall i :: 0 <= i < |plan| ==>
         && plan[i].Deliver? && plan[i].id in s.nodes && plan[i].m.senderId in s.polys
         && Reaches(loopback, plan[i].m.senderId, plan[i].id)
         && plan[i].m == ProposalOf(g, s.nodes[plan[i].m.senderId], s.polys[plan[i].m.senderId])
  }

  ghost predicate Planned(g: PrimeGroup, s: System, plan: seq<Step>, r: string, d: string)
    requires d in s.nodes && d in s.polys
  {
    Deliver(r, ProposalOf(g, s.nodes[d], s.polys[d]), true) in plan
  }

  lemma ExchangeExists(g: PrimeGroup, s: System, loopback: bool) returns (plan: seq<Step>)
    requires s.polys.Keys <= s.nodes.Keys
    requires forall d :: d in s.nodes ==> s.nodes[d].id == d
    ensures IsExchange(g, s, loopback, plan)
  {
    var all := set r, d | r in s.nodes.Keys && d in s.polys.Keys
      && Reaches(loopback, d, r) :: Deliver(r, ProposalOf(g, s.nodes[d], s.polys[d]), true);
    plan := SetToSeq(all);
    forall r, d | r in s.nodes && d in s.polys && Reaches(loopback, d, r)
      ensures Planned(g, s, plan, r, d)
    {
      assert Deliver(r, ProposalOf(g, s.nodes[d], s.polys[d]), true) in all;
    }
    forall i | 0 <= i < |plan|
      ensures plan[i].Deliver? && plan[i].id in s.nodes && plan[i].m.senderId in s.polys
      ensures Reaches(loopback, plan[i].m.senderId, plan[i].id)
      ensures plan[i].m == ProposalOf(g, s.nodes[plan[i].m.senderId], s.polys[plan[i].m.senderId])
    {
      assert plan[i] in all;
    }
  }

  /** After the exchange every node stores a share from each node that reaches it, and has acked it. */
  ghost predicate Exchanged(s: System, loopback: bool) {
    forall r, d {:trigger Holds(s, r, d)} ::
      r in s.nodes && d in s.nodes && Reaches(loopback, d, r) ==> Holds(s, r, d)
  }

  ghost predicate Holds(s: System, r: string, d: string)
    requires r in s.nodes
  {
    d in s.nodes[r].shares && ShareAck(r, d, true) in s.network
  }

  lemma {:induction false} PlanKeepsMembers(g: PrimeGroup, steps: seq<Step>, states: seq<System>, k: nat,
        j: nat, members: set<string>, loopback: bool)
    requires Run(g, steps, states) && k <= j < |states| && Within(states[k], members, loopback)
    requires forall i :: k <= i < j ==> steps[i].Deliver?
    requires forall i :: k <= i < j && steps[i].m.ShareProposal? ==>
               steps[i].m.senderId in Peers(members, loopback, steps[i].id)
    ensures Within(states[j], members, loopback)
  {
    if k < j {
      PlanKeepsMembers(g, steps, states, k, j - 1, members, loopback);
      assert StepAt(g, steps, states, j - 1);
      DeliveryKeepsMembers(g, states[j - 1], steps[j - 1], members, loopback);
    }
  }

  /** Nodes hold shares only from those of `members` that reach them. */
  ghost predicate Within(s: System, members: set<string>, loopback: bool) {
    forall r :: r in s.nodes ==> s.nodes[r].shares.Keys <= Peers(members, loopback, r)
  }

  lemma DeliveryKeepsMembers(g: PrimeGroup, s: System, step: Step, members: set<string>, loopback: bool)
    requires Enabled(g, s, step) && step.Deliver? && Within(s, members, loopback)
    requires step.m.ShareProposal? ==> step.m.senderId in Peers(members, loopback, step.id)
    ensures Within(Apply(g, s, step), members, loopback)
  {
    var v := s.nodes[step.id];
    var v' := Handle(g, v, step.m, step.publishOk).state;
    if step.m.ShareAck? {
      AckStores(g, v, step.m);
    }
    assert v'.shares.Keys <= Peers(members, loopback, step.id);
  }

  lemma StateFacts(g: PrimeGroup, steps: seq<Step>, states: seq<System>, k: nat)
    requires Run(g, steps, states) && k < |states|
    ensures states[k].polys.Keys <= states[k].nodes.Keys
    ensures forall d :: d in states[k].nodes ==> states[k].nodes[d].id == d
  {
    RunInvariant(g, steps, states, k);
    forall d | d in states[k].nodes
      ensures states[k].nodes[d].id == d
    {
      assert NodeInv(g, states[k], d);
    }
  }

  lemma ExchangeDeliverable(g: PrimeGroup, steps: seq<Step>, states: seq<System>, loopback: bool, plan: seq<Step>)
    requires Run(g, steps, states) && Last(states).polys.Keys == Last(states).nodes.Keys
    requires IsExchange(g, Last(states), loopback, plan)
    ensures Deliverable(g, Last(states), plan)
  {
    forall i | 0 <= i < |plan|
      ensures plan[i].Deliver? && Enabled(g, Last(states), plan[i])
    {
      ProposalPublished(g, steps, states, |states| - 1, plan[i].m.senderId);
    }
  }

  lemma ExchangeResult(g: PrimeGroup, steps: seq<Step>, states: seq<System>, loopback: bool, plan: seq<Step>,
        states': seq<System>)
    requires Run(g, steps, states) && AllStarted(Last(states), loopback)
    requires Run(g, steps + plan, states') && states <= states'
    requires IsExchange(g, Last(states), loopback, plan)
    requires forall d :: d in Last(states).nodes ==> Last(states).nodes[d].id == d
    ensures Extends(Last(states), Last(states')) && Exchanged(Last(states'), loopback)
  {
    var s := Last(states);
    PrefixExtends(g, states, steps + plan, states');
    forall r, d | r in s.nodes && d in s.nodes && Reaches(loopback, d, r)
      ensures r in Last(states').nodes && Holds(Last(states'), r, d)
    {
      assert InRange(s, r, d) && Planned(g, s, plan, r, d);
      ExchangeDelivers(g, steps, states, plan, states', r, d);
    }
  }

  lemma Exchange(g: PrimeGroup, steps: seq<Step>, states: seq<System>, loopback: bool)
      returns (plan: seq<Step>, states': seq<System>)
    requires Run(g, steps, states) && AllStarted(Last(states), loopback)
    ensures Run(g, steps + plan, states') && states <= states'
    ensures Exchanged(Last(states'), loopback) && IsExchange(g, Last(states), loopback, plan)
    ensures Extends(Last(states), Last(states'))
  {
    StateFacts(g, steps, states, |states| - 1);
    plan := ExchangeExists(g, Last(states), loopback);
    ExchangeDeliverable(g, steps, states, loopback, plan);
    states' := RunPlan(g, steps, states, plan);
    ExchangeResult(g, steps, states, loopback, plan, states');
  }

  /** The exchange brings in no shares from outside. */
  lemma ExchangeWithin(g: PrimeGroup, steps: seq<Step>, states: seq<System>, loopback: bool, plan: seq<Step>,
        states': seq<System>)
    requires Run(g, steps, states) && Run(g, steps + plan, states') && states <= states'
    requires Last(states).polys.Keys <= Last(states).nodes.Keys && IsExchange(g, Last(states), loopback, plan)
    requires Within(Last(states), Last(states).nodes.Keys, loopback)
    ensures Within(Last(states'), Last(states).nodes.Keys, loopback)
  {
    var s, now := Last(states), |states| - 1;
    assert states'[now] == s;
    forall i | now <= i < |states'| - 1
      ensures var step := (steps + plan)[i];
              step.Deliver? && step.m.senderId in Peers(s.nodes.Keys, loopback, step.id)
    {
      assert (steps + plan)[i] == plan[i - now];
    }
    PlanKeepsMembers(g, steps + plan, states', now, |states'| - 1, s.nodes.Keys, loopback);
  }

  lemma ExchangeDelivers(g: PrimeGroup, steps: seq<Step>, states: seq<System>, plan: seq<Step>,
        states': seq<System>, r: string, d: string)
    requires Run(g, steps, states) && Run(g, steps + plan, states') && states <= states'
    requires r in Last(states).nodes && d in Last(states).nodes && d in Last(states).polys
    requires InRange(Last(states), r, d) && Planned(g, Last(states), plan, r, d)
    requires Last(states).nodes[d].id == d && Last(states).nodes[r].id == r
    ensures r in Last(states').nodes && Holds(Last(states'), r, d)
  {
    var m := ProposalOf(g, Last(states).nodes[d], Last(states).polys[d]);
    var i :| 0 <= i < |plan| && plan[i] == Deliver(r, m, true);
    var now := |states| - 1;
    assert states'[now] == Last(states) && (steps + plan)[|steps| + i] == plan[i];
    Delivered(g, steps + plan, states', now, |steps| + i, r, d);
  }

  lemma HandledLater(g: PrimeGroup, s: System, mid: System, r: string, d: string, m: Message)
    requires r in s.nodes && d in s.nodes && d in s.polys && s.nodes[d].id == d && s.nodes[r].id == r
    requires m == ProposalOf(g, s.nodes[d], s.polys[d]) && InRange(s, r, d)
    requires Extends(s, mid) && Enabled(g, mid, Deliver(r, m, true))
    ensures r in mid.nodes && Holds(Apply(g, mid, Deliver(r, m, true)), r, d)
  {
    assert NodeExtends(s.nodes[d], mid.nodes[d]) && NodeExtends(s.nodes[r], mid.nodes[r]);
    ProposalHandled(g, mid, r, d, m);
  }

  lemma HoldsLater(s: System, s': System, r: string, d: string)
    requires Extends(s, s') && r in s.nodes && Holds(s, r, d)
    ensures r in s'.nodes && Holds(s', r, d)
  {
    assert NodeExtends(s.nodes[r], s'.nodes[r]);
  }

  /** The effect of one delivery of the exchange is still there at the end. */
  lemma Delivered(g: PrimeGroup, steps: seq<Step>, states: seq<System>, now: nat, at: nat, r: string, d: string)
    requires Run(g, steps, states) && now <= at < |steps|
    requires r in states[now].nodes && d in states[now].nodes && d in states[now].polys && InRange(states[now], r, d)
    requires states[now].nodes[d].id == d && states[now].nodes[r].id == r
    requires steps[at] == Deliver(r, ProposalOf(g, states[now].nodes[d], states[now].polys[d]), true)
    ensures r in Last(states).nodes && Holds(Last(states), r, d)
  {
    RunMonotone(g, steps, states, now, at);
    assert StepAt(g, steps, states, at);
    HandledLater(g, states[now], states[at], r, d, steps[at].m);
    RunMonotone(g, steps, states, at + 1, |states| - 1);
    HoldsLater(states[at + 1], Last(states), r, d);
  }

  /** The nodes in `done` have completed over what they stored in s. */
  ghost predicate RoundsDone(s: System, s': System, done: seq<string>) {
    && s'.nodes.Keys == s.nodes.Keys && s'.polys == s.polys && s'.network == s.network
    && (forall r :: r in s.nodes ==>
          s'.nodes[r].id == s.nodes[r].id && s'.nodes[r].t == s.nodes[r].t && s'.nodes[r].shares == s.nodes[r].shares)
    && forall k :: 0 <= k < |done| ==>
         done[k] in s.nodes && done[k] in s'.checks && s'.checks[done[k]].shares == s.nodes[done[k]].shares
  }

  lemma RoundAdded(s: System, s1: System, s2: System, done: seq<string>, id: string, n: nat)
    requires RoundsDone(s, s1, done) && AcksCounted(s1, s2, id, n)
    requires id in s2.checks && s2.checks[id].shares == s2.nodes[id].shares
    ensures RoundsDone(s, s2, done + [id])
  {
  }

  /** After the exchange, the acks for d of all nodes that reach it are on the network. */
  lemma AcksFor(s: System, loopback: bool, d: string) returns (acks: seq<Message>)
    requires Exchanged(s, loopback) && d in s.nodes
    ensures |acks| == PeerCount(s, loopback)
    ensures forall i :: 0 <= i < |acks| ==>
              && acks[i] in s.network && acks[i].ShareAck? && acks[i].receiverId == d && acks[i].valid
              && Reaches(loopback, acks[i].senderId, d)
  {
    var peers := SetToSeq(Peers(s.nodes.Keys, loopback, d));
    PeersCounted(s, loopback, d);
    acks := seq(|peers|, i requires 0 <= i < |peers| => ShareAck(peers[i], d, true));
    forall i | 0 <= i < |acks|
      ensures acks[i] in s.network && Reaches(loopback, peers[i], d)
    {
      assert peers[i] in peers && Holds(s, peers[i], d);
    }
  }

  /** One node receives the acks of all nodes that reach it. */
  lemma AckRound(g: PrimeGroup, steps: seq<Step>, states: seq<System>, s: System, loopback: bool,
        done: seq<string>, d: string)
      returns (plan: seq<Step>, states': seq<System>)
    requires Run(g, steps, states) && RoundsDone(s, Last(states), done) && Exchanged(s, loopback)
    requires CanComplete(s, d, PeerCount(s, loopback))
    ensures Run(g, steps + plan, states') && states <= states' && RoundsDone(s, Last(states'), done + [d])
    ensures Delivers(plan, loopback)
  {
    var acks := AcksFor(s, loopback, d);
    plan := DeliverEach(d, acks);
    states' := DeliverAcks(g, steps, states, d, acks);
    AckCountNonNegative(Last(states).nodes[d].acks);
    RoundAdded(s, Last(states), Last(states'), done, d, |acks|);
  }

  lemma PeersCounted(s: System, loopback: bool, d: string)
    requires d in s.nodes
    ensures |Peers(s.nodes.Keys, loopback, d)| == PeerCount(s, loopback)
  {
    assert |s.nodes.Keys| == |s.nodes|;
    if !loopback {
      assert s.nodes.Keys == (s.nodes.Keys - {d}) + {d};
    }
  }

  /** One node after the other receives the acks of all nodes that reach it. */
  lemma {:induction false} AckRounds(g: PrimeGroup, steps: seq<Step>, states: seq<System>, loopback: bool,
        todo: seq<string>)
      returns (plan: seq<Step>, states': seq<System>)
    requires Run(g, steps, states) && Exchanged(Last(states), loopback)
    requires forall k :: 0 <= k < |todo| ==> CanComplete(Last(states), todo[k], PeerCount(Last(states), loopback))
    ensures Run(g, steps + plan, states') && states <= states' && RoundsDone(Last(states), Last(states'), todo)
    ensures Delivers(plan, loopback)
  {
    if todo == [] {
      plan, states' := [], states;
      assert steps + plan == steps;
    } else {
      var d := Last(todo);
      assert CanComplete(Last(states), todo[|todo| - 1], PeerCount(Last(states), loopback));
      var plan1, states1 := AckRounds(g, steps, states, loopback, Init(todo));
      var plan2, states2 := AckRound(g, steps + plan1, states1, Last(states), loopback, Init(todo), d);
      plan, states' := plan1 + plan2, states2;
      JoinPlans(steps, plan1, plan2, loopback);
      assert todo == Init(todo) + [d];
    }
  }

  ghost predicate CanComplete(s: System, d: string, n: int) {
    d in s.nodes && d in s.polys && s.nodes[d].id == d && s.nodes[d].t <= n && n > 0
  }

  lemma ReadyForRounds(g: PrimeGroup, steps: seq<Step>, states: seq<System>, s: System, loopback: bool,
        all: seq<string>)
    requires Run(g, steps, states) && Extends(s, Last(states)) && AllStarted(s, loopback) && Lists(s, all)
    ensures forall k :: 0 <= k < |all| ==> CanComplete(Last(states), all[k], PeerCount(s, loopback))
    ensures PeerCount(Last(states), loopback) == PeerCount(s, loopback) && Last(states).polys == s.polys
  {
    var s' := Last(states);
    StateFacts(g, steps, states, |states| - 1);
    assert s'.polys.Keys == s.polys.Keys;
    assert |s'.nodes| == |s'.nodes.Keys| == |s.nodes.Keys| == |s.nodes|;
    forall k | 0 <= k < |all|
      ensures CanComplete(s', all[k], PeerCount(s, loopback))
    {
      assert NodeExtends(s.nodes[all[k]], s'.nodes[all[k]]) && ThresholdUpTo(s, all[k], PeerCount(s, loopback));
    }
  }

  /** All nodes have completed, over at least the dealings that reach them. */
  ghost predicate AllCompleted(s: System, loopback: bool) {
    forall r {:trigger CompletedAt(s, loopback, r)} :: r in s.nodes ==> CompletedAt(s, loopback, r)
  }

  ghost predicate CompletedAt(s: System, loopback: bool, r: string) {
    r in s.checks && Peers(s.nodes.Keys, loopback, r) <= s.checks[r].shares.Keys
  }

  /** All nodes have completed, over exactly the dealings that reach them. */
  ghost predicate CompletedExactly(s: System, loopback: bool) {
    forall r {:trigger CompletedExactlyAt(s, loopback, r)} :: r in s.nodes ==> CompletedExactlyAt(s, loopback, r)
  }

  ghost predicate CompletedExactlyAt(s: System, loopback: bool, r: string) {
    r in s.checks && s.checks[r].shares.Keys == Peers(s.nodes.Keys, loopback, r)
  }

  lemma RoundsComplete(g: PrimeGroup, steps: seq<Step>, states: seq<System>, s: System, loopback: bool)
      returns (plan: seq<Step>, states': seq<System>)
    requires Run(g, steps, states) && AllStarted(s, loopback) && Extends(s, Last(states))
    requires Exchanged(Last(states), loopback)
    ensures Run(g, steps + plan, states') && Delivers(plan, loopback) && states <= states'
    ensures Last(states').nodes.Keys == s.nodes.Keys && Last(states').polys == s.polys
    ensures AllCompleted(Last(states'), loopback)
    ensures SharesKept(Last(states), Last(states'))
  {
    var all := ListNodes(s);
    ReadyForRounds(g, steps, states, s, loopback, all);
    plan, states' := AckRounds(g, steps, states, loopback, all);
    Finish(s, Last(states), Last(states'), loopback, all);
  }

  /**
   From every state of every run in which all nodes have started, deliveries alone can complete
   every node over the dealings of all nodes that reach it, and no others unless nodes already
   hold others.  Without loopback no message is delivered to its own sender.
   */
  lemma CompletionReachable(g: PrimeGroup, steps: seq<Step>, states: seq<System>, loopback: bool)
      returns (plan: seq<Step>, states': seq<System>)
    requires Run(g, steps, states) && AllStarted(Last(states), loopback)
    ensures Run(g, steps + plan, states') && Delivers(plan, loopback) && states <= states'
    ensures Last(states').nodes.Keys == Last(states).nodes.Keys && Last(states').polys == Last(states).polys
    ensures AllCompleted(Last(states'), loopback)
    ensures Within(Last(states), Last(states).nodes.Keys, loopback) ==> CompletedExactly(Last(states'), loopback)
  {
    var plan1, states1 := Exchange(g, steps, states, loopback);
    var plan2, states2 := RoundsComplete(g, steps + plan1, states1, Last(states), loopback);
    plan, states' := plan1 + plan2, states2;
    JoinPlans(steps, plan1, plan2, loopback);
    if Within(Last(states), Last(states).nodes.Keys, loopback) {
      ExchangeWithin(g, steps, states, loopback, plan1, states1);
      FinishWithin(Last(states1), Last(states'), loopback);
    }
  }

  lemma Finish(s: System, s1: System, s2: System, loopback: bool, all: seq<string>)
    requires Extends(s, s1) && Exchanged(s1, loopback) && RoundsDone(s1, s2, all)
    requires Covers(s, all)
    ensures AllCompleted(s2, loopback) && s2.polys == s1.polys && s2.nodes.Keys == s.nodes.Keys
    ensures SharesKept(s1, s2)
  {
    forall r | r in s2.nodes
      ensures CompletedAt(s2, loopback, r) && s2.checks[r].shares == s1.nodes[r].shares
    {
      assert Listed(all, r);
      var k :| 0 <= k < |all| && all[k] == r;
      assert forall d :: d in s1.nodes && Reaches(loopback, d, r) ==> Holds(s1, r, d);
    }
  }

  /** The checks recorded in s2 are over the shares stored in s1. */
  ghost predicate SharesKept(s1: System, s2: System) {
    forall r :: r in s2.nodes ==> r in s2.checks && r in s1.nodes && s2.checks[r].shares == s1.nodes[r].shares
  }

  lemma FinishWithin(s1: System, s2: System, loopback: bool)
    requires s2.nodes.Keys == s1.nodes.Keys && AllCompleted(s2, loopback) && SharesKept(s1, s2)
    requires Within(s1, s1.nodes.Keys, loopback)
    ensures CompletedExactly(s2, loopback)
  {
    forall r | r in s2.nodes
      ensures CompletedExactlyAt(s2, loopback, r)
    {
      assert CompletedAt(s2, loopback, r);
    }
  }

  /** Nodes have different indices, and there are more of them than any threshold. */
  ghost predicate Distinguished(s: System) {
    && (forall a, b {:trigger Apart(s, a, b)} :: a in s.nodes && b in s.nodes && a != b ==> Apart(s, a, b))
    && ThresholdsUpTo(s, |s.nodes| - 1)
  }

  ghost predicate Apart(s: System, a: string, b: string)
    requires a in s.nodes && b in s.nodes
  {
    s.nodes[a].idx != s.nodes[b].idx
  }

  /**
   From any state in which all nodes have started and hold no shares but from nodes that reach
   them, deliveries lead to a state in which all nodes, at distinct indices, have completed over
   the commitments of all, and hold exactly the shares that reach them.
   */
  lemma PremisesReachable(g: PrimeGroup, steps: seq<Step>, states: seq<System>, loopback: bool)
      returns (plan: seq<Step>, states': seq<System>, nodes: seq<string>)
    requires Run(g, steps, states) && AllStarted(Last(states), loopback) && Distinguished(Last(states))
    requires Within(Last(states), Last(states).nodes.Keys, loopback)
    ensures Run(g, steps + plan, states') && Delivers(plan, loopback) && states <= states'
    ensures Last(states').nodes.Keys == Last(states).nodes.Keys && Last(states').polys == Last(states).polys
    ensures Lists(Last(states'), nodes) && Covers(Last(states'), nodes) && DistinctIdx(Last(states'), nodes)
    ensures CompletedBy(Last(states'), nodes, Last(states').nodes.Keys)
    ensures CompletedExactly(Last(states'), loopback)
  {
    plan, states' := CompletionReachable(g, steps, states, loopback);
    nodes := ListNodes(Last(states));
    PrefixExtends(g, states, steps + plan, states');
    DistinctLater(Last(states), Last(states'), nodes);
    EnoughLater(Last(states), Last(states'), nodes);
    CompletedByAll(g, steps + plan, states', loopback, nodes);
    assert |Last(states').nodes| == |Last(states').nodes.Keys|;
  }

  /** With loopback, agreement can always still be reached: everyone's shares give everyone's secrets. */
  lemma AgreementReachable(g: PrimeGroup, steps: seq<Step>, states: seq<System>)
      returns (plan: seq<Step>, states': seq<System>, nodes: seq<string>)
    requires Run(g, steps, states) && AllStarted(Last(states), true) && Distinguished(Last(states))
    requires Within(Last(states), Last(states).nodes.Keys, true)
    ensures Run(g, steps + plan, states') && Delivers(plan, true) && states <= states'
    ensures Lists(Last(states'), nodes) && Agree(g, Last(states'), nodes, Last(states).nodes.Keys)
  {
    plan, states', nodes := PremisesReachable(g, steps, states, true);
    var s := Last(states');
    forall k | 0 <= k < |nodes|
      ensures nodes[k] in s.checks && nodes[k] in s.checks[nodes[k]].shares
    {
      assert CompletedExactlyAt(s, true, nodes[k]);
    }
    KeyAgreement(g, steps + plan, states', |states'| - 1, nodes, s.nodes.Keys);
  }

  /** The value each node dealt at its own index. */
  function OwnDealings(s: System, nodes: seq<string>): (shares: seq<Share>)
    requires forall k :: 0 <= k < |nodes| ==> nodes[k] in s.nodes && nodes[k] in s.polys
    ensures |shares| == |nodes|
    ensures forall k :: 0 <= k < |nodes| ==>
              shares[k] == (s.nodes[nodes[k]].idx, Eval(s.polys[nodes[k]], s.nodes[nodes[k]].idx))
  {
    seq(|nodes|, k requires 0 <= k < |nodes| =>
      (s.nodes[nodes[k]].idx, Eval(s.polys[nodes[k]], s.nodes[nodes[k]].idx)))
  }

  /**
   Without loopback all nodes still complete, over everyone else's dealings: every public key is
   that of everyone's secrets, and the shares reconstruct these less what the own dealings do.
   */
  lemma CompletionWithoutLoopback(g: PrimeGroup, steps: seq<Step>, states: seq<System>)
      returns (plan: seq<Step>, states': seq<System>, nodes: seq<string>)
    requires Run(g, steps, states) && AllStarted(Last(states), false) && Distinguished(Last(states))
    requires Within(Last(states), Last(states).nodes.Keys, false)
    ensures Run(g, steps + plan, states') && Delivers(plan, false) && states <= states'
    ensures var s := Last(states');
            && s.nodes.Keys == s.polys.Keys == Last(states).nodes.Keys && s.polys == Last(states).polys
            && Lists(s, nodes) && DistinctIdx(s, nodes) && Done(g, s, nodes)
            && (forall d :: d in s.polys ==> s.polys[d] != [])
            && AgreeUpToMissing(g, s, nodes, IntSum(Secrets(s.polys, s.polys.Keys)))
            && MissingShares(g, s, nodes) == OwnDealings(s, nodes)
  {
    plan, states', nodes := PremisesReachable(g, steps, states, false);
    var s := Last(states');
    KeyAgreementIff(g, steps + plan, states', |states'| - 1, nodes, s.nodes.Keys);
    OnlyOwnMissing(g, steps + plan, states', nodes);
  }

  lemma OnlyOwnMissing(g: PrimeGroup, steps: seq<Step>, states: seq<System>, nodes: seq<string>)
    requires Run(g, steps, states) && CompletedExactly(Last(states), false) && Done(g, Last(states), nodes)
    ensures forall k :: 0 <= k < |nodes| ==> nodes[k] in Last(states).polys
    ensures MissingShares(g, Last(states), nodes) == OwnDealings(Last(states), nodes)
  {
    var s := Last(states);
    forall k | 0 <= k < |nodes|
      ensures nodes[k] in s.polys
      ensures MissingOwn(g, s.checks[nodes[k]]) == Eval(s.polys[nodes[k]], s.nodes[nodes[k]].idx)
    {
      assert CompletedExactlyAt(s, false, nodes[k]);
      OwnDealingMissing(g, steps, states, |states| - 1, nodes[k]);
    }
  }

  lemma OwnDealingMissing(g: PrimeGroup, steps: seq<Step>, states: seq<System>, k: nat, r: string)
    requires Run(g, steps, states) && k < |states| && r in states[k].nodes && r in states[k].checks
    requires r !in states[k].checks[r].shares && OwnContained(g, states[k].checks[r])
    ensures r in states[k].polys
    ensures MissingOwn(g, states[k].checks[r]) == Eval(states[k].polys[r], states[k].nodes[r].idx)
  {
    NodeInvariant(g, steps, states, k, r);
    CheckFacts(g, steps, states, k, r);
    CommittedCommit(g, states[k].polys[r]);
  }

  lemma PrefixExtends(g: PrimeGroup, states: seq<System>, steps': seq<Step>, states': seq<System>)
    requires states != [] && Run(g, steps', states') && states <= states'
    ensures Extends(Last(states), Last(states'))
  {
    assert states'[|states| - 1] == Last(states);
    RunMonotone(g, steps', states', |states| - 1, |states'| - 1);
  }

  /** Each node once. */
  ghost predicate Lists(s: System, nodes: seq<string>) {
    && nodes != [] && |nodes| == |s.nodes|
    && (forall k :: 0 <= k < |nodes| ==> nodes[k] in s.nodes)
    && forall i, j :: 0 <= i < j < |nodes| ==> nodes[i] != nodes[j]
  }

  ghost predicate Covers(s: System, nodes: seq<string>) {
    forall r {:trigger Listed(nodes, r)} :: r in s.nodes ==> Listed(nodes, r)
  }

  predicate Listed(nodes: seq<string>, r: string) {
    r in nodes
  }

  lemma ListNodes(s: System) returns (nodes: seq<string>)
    requires |s.nodes| > 0
    ensures Lists(s, nodes) && Covers(s, nodes)
  {
    nodes := SetToSeq(s.nodes.Keys);
    assert |s.nodes| == |s.nodes.Keys|;
  }

  lemma DistinctLater(s: System, s': System, nodes: seq<string>)
    requires Extends(s, s') && Distinguished(s) && Lists(s, nodes)
    ensures DistinctIdx(s', nodes)
  {
    forall k, l | 0 <= k < l < |nodes|
      ensures nodes[k] in s'.nodes && nodes[l] in s'.nodes && s'.nodes[nodes[k]].idx != s'.nodes[nodes[l]].idx
    {
      var a, b := nodes[k], nodes[l];
      assert Apart(s, a, b);
      assert NodeExtends(s.nodes[a], s'.nodes[a]) && NodeExtends(s.nodes[b], s'.nodes[b]);
    }
  }

  predicate Outnumber(s: System, nodes: seq<string>) {
    && (forall k :: 0 <= k < |nodes| ==> nodes[k] in s.nodes)
    && forall d :: d in s.nodes ==> |nodes| >= s.nodes[d].t + 1
  }

  lemma EnoughLater(s: System, s': System, nodes: seq<string>)
    requires Extends(s, s') && Distinguished(s) && Lists(s, nodes)
    ensures Outnumber(s', nodes)
  {
    forall d | d in s'.nodes
      ensures |nodes| >= s'.nodes[d].t + 1
    {
      assert NodeExtends(s.nodes[d], s'.nodes[d]) && ThresholdUpTo(s, d, |s.nodes| - 1);
    }
  }

  lemma CompletedByAll(g: PrimeGroup, steps: seq<Step>, states: seq<System>, loopback: bool, nodes: seq<string>)
    requires Run(g, steps, states) && CompletedExactly(Last(states), loopback) && Outnumber(Last(states), nodes)
    ensures CompletedBy(Last(states), nodes, Last(states).nodes.Keys)
  {
    var s := Last(states);
    forall k | 0 <= k < |nodes|
      ensures nodes[k] in s.checks && s.checks[nodes[k]].commitments.Keys == s.nodes.Keys
    {
      assert CompletedExactlyAt(s, loopback, nodes[k]);
      CheckFacts(g, steps, states, |states| - 1, nodes[k]);
    }
  }
}
