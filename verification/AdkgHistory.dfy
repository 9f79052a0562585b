/**
 What a node holds, publishes and reports, as a function of the messages delivered to it: every
 handler is described by its effects over whole runs.
 */
module AdkgHistory {
  import opened Wrappers
  import opened PrimeField
  import opened Polynomials
  import opened Interpolation
  import opened CyclicGroup
  import opened Feldman
  import opened MapSums
  import opened AdkgNode
  import opened AdkgRuns
  import opened AdkgTheorems
  import opened AdkgCompletion

  // ---------- one message ----------

  /** The proposal carries a share at idx that satisfies the Feldman equation. */
  ghost predicate Takes(g: PrimeGroup, idx: U64, m: Message) {
    && m.ShareProposal? && 1 <= idx <= |m.shares|
    && CommitEval(g, m.commitments, idx) == g.Exp(m.shares[idx - 1])
  }

  /** A handler reports a publishing error exactly for a proposal it takes but cannot ack. */
  lemma PublishFailedIff(g: PrimeGroup, v: NodeState, m: Message, publishOk: bool)
    ensures Handle(g, v, m, publishOk).outcome == PublishFailed <==> Takes(g, v.idx, m) && !publishOk
  {
    if m.ShareAck? {
      NeverPublishes(g, v, m, publishOk);
    }
  }

  lemma NeverPublishes(g: PrimeGroup, v: NodeState, m: Message, publishOk: bool)
    requires m.ShareAck?
    ensures Handle(g, v, m, publishOk).published == None
    ensures Handle(g, v, m, publishOk).outcome == Finished || Handle(g, v, m, publishOk).outcome == Panicked
  {
  }

  /** It publishes exactly the valid ack of a proposal it takes. */
  lemma PublishedIff(g: PrimeGroup, v: NodeState, m: Message, publishOk: bool)
    ensures Handle(g, v, m, publishOk).published ==
            if Takes(g, v.idx, m) && publishOk then Some(ShareAck(v.id, m.senderId, true)) else None
  {
    if m.ShareAck? {
      NeverPublishes(g, v, m, publishOk);
    }
  }

  /** With `PanicIff`, this fixes every outcome. */
  lemma FinishedIff(g: PrimeGroup, v: NodeState, m: Message, publishOk: bool)
    ensures Handle(g, v, m, publishOk).outcome == Finished <==>
            !(Takes(g, v.idx, m) && !publishOk) && !(Fires(v, m) && !AllNonEmpty(v.commitments))
  {
    PanicIff(g, v, m, publishOk);
    PublishFailedIff(g, v, m, publishOk);
  }

  /** An ack to another node, which every node receives, changes nothing anywhere. */
  lemma AckToOtherIgnored(g: PrimeGroup, s: System, id: string, m: Message, publishOk: bool)
    requires Possible(g, s, Deliver(id, m, publishOk)) && m.ShareAck? && m.receiverId != s.nodes[id].id
    ensures Apply(g, s, Deliver(id, m, publishOk)) == s
    ensures Handle(g, s.nodes[id], m, publishOk) == Handled(s.nodes[id], None, Finished)
  {
    assert s.nodes[id := s.nodes[id]] == s.nodes;
  }

  // ---------- what nodes publish ----------

  /** In every run, a proposal under a node's identity is its dealing, and is taken at its n indices alone. */
  lemma NodeProposal(g: PrimeGroup, steps: seq<Step>, states: seq<System>, k: nat, m: Message, idx: U64)
    requires Run(g, steps, states) && k < |states| && m in states[k].network
    requires m.ShareProposal? && m.senderId in states[k].nodes
    ensures var s, d := states[k], m.senderId;
            && d in s.polys && |s.polys[d]| == s.nodes[d].t + 1
            && |m.shares| == s.nodes[d].n
            && (forall i :: 0 <= i < |m.shares| ==> m.shares[i] == Eval(s.polys[d], i + 1) % g.order)
            && |m.commitments| == |s.polys[d]|
            && (forall j :: 0 <= j < |m.commitments| ==> m.commitments[j] == g.Exp(s.polys[d][j]))
            && (Takes(g, idx, m) <==> 1 <= idx <= s.nodes[d].n)
  {
    var s := states[k];
    RunInvariant(g, steps, states, k);
    NodeInvariant(g, steps, states, k, m.senderId);
    assert MessageInv(g, s, m);
    DealingAccepted(g, s.polys[m.senderId], s.nodes[m.senderId].n, idx);
  }

  /** Every started node has published its one proposal. */
  lemma StartedProposal(g: PrimeGroup, steps: seq<Step>, states: seq<System>, k: nat, d: string) returns (m: Message)
    requires Run(g, steps, states) && k < |states| && d in states[k].polys
    ensures m in states[k].network && m.ShareProposal? && m.senderId == d && d in states[k].nodes
    ensures forall m' :: m' in states[k].network && m'.ShareProposal? && m'.senderId == d ==> m' == m
  {
    ProposalPublished(g, steps, states, k, d);
    NodeInvariant(g, steps, states, k, d);
    RunInvariant(g, steps, states, k);
    m := ProposalOf(g, states[k].nodes[d], states[k].polys[d]);
    forall m' | m' in states[k].network && m'.ShareProposal? && m'.senderId == d
      ensures m' == m
    {
      assert MessageInv(g, states[k], m');
    }
  }

  // ---------- what nodes record ----------

  ghost predicate AcksFrom(step: Step, r: string, a: string) {
    step.Deliver? && step.id == r && step.m.ShareAck? && step.m.receiverId == r && step.m.senderId == a
  }

  /** The acks of a to r that were delivered to r, in order. */
  ghost function AckLog(steps: seq<Step>, r: string, a: string): seq<(string, bool)> {
    if steps == [] then []
    else AckLog(Init(steps), r, a) + if AcksFrom(Last(steps), r, a) then [(a, Last(steps).m.valid)] else []
  }

  ghost predicate RecordsLog(v: NodeState, a: string, log: seq<(string, bool)>) {
    if a in v.acks then log == v.acks[a] != [] else log == []
  }

  lemma CheckedAcks(g: PrimeGroup, v: NodeState)
    ensures Checked(g, v).0.acks == v.acks
  {
    CheckStores(g, v);
  }

  lemma HandledAcks(g: PrimeGroup, v: NodeState, m: Message, publishOk: bool)
    ensures Handle(g, v, m, publishOk).state.acks ==
            if m.ShareAck? && m.receiverId == v.id then AddAck(v.acks, m.senderId, m.valid) else v.acks
  {
    if m.ShareAck? && m.receiverId == v.id {
      CheckedAcks(g, v.(acks := AddAck(v.acks, m.senderId, m.valid)));
    }
  }

  lemma StepRecords(g: PrimeGroup, s: System, step: Step, r: string, a: string, log: seq<(string, bool)>)
    requires Possible(g, s, step) && r in s.nodes && s.nodes[r].id == r && RecordsLog(s.nodes[r], a, log)
    ensures r in Apply(g, s, step).nodes
    ensures RecordsLog(Apply(g, s, step).nodes[r], a,
                       log + if AcksFrom(step, r, a) then [(a, step.m.valid)] else [])
  {
    if step.Deliver? && step.id == r {
      HandledAcks(g, s.nodes[r], step.m, step.publishOk);
    } else {
      assert Apply(g, s, step).nodes[r].acks == s.nodes[r].acks;
    }
  }

  /** In every run, forged identities included, the acks recorded are exactly those delivered, in order. */
  lemma {:induction false} AcksRecorded(g: PrimeGroup, steps: seq<Step>, states: seq<System>, k: nat, r: string,
        a: string)
    requires OpenRun(g, steps, states) && k < |states| && r in states[0].nodes
    ensures r in states[k].nodes && states[k].nodes[r].id == r
    ensures RecordsLog(states[k].nodes[r], a, AckLog(steps[..k], r, a))
  {
    if k > 0 {
      AcksRecorded(g, steps, states, k - 1, r, a);
      assert OpenStepAt(g, steps, states, k - 1);
      StepRecords(g, states[k - 1], steps[k - 1], r, a, AckLog(steps[..k - 1], r, a));
      StepExtends(g, states[k - 1], steps[k - 1]);
      assert NodeExtends(states[k - 1].nodes[r], states[k].nodes[r]);
      assert Init(steps[..k]) == steps[..k - 1] && Last(steps[..k]) == steps[k - 1];
    }
  }

  // ---------- what nodes store ----------

  ghost predicate TakesFrom(g: PrimeGroup, idx: U64, step: Step, r: string, d: string) {
    step.Deliver? && step.id == r && step.m.senderId == d && Takes(g, idx, step.m)
  }

  /** The proposal under identity d that r, at index idx, took most recently. */
  ghost function LatestTaken(g: PrimeGroup, idx: U64, steps: seq<Step>, r: string, d: string): Option<Message> {
    if steps == [] then None
    else if TakesFrom(g, idx, Last(steps), r, d) then Some(Last(steps).m)
    else LatestTaken(g, idx, Init(steps), r, d)
  }

  /** v stores what `latest` carries for it; without it, only its own dealing c's commitments. */
  ghost predicate StoresTaken(g: PrimeGroup, v: NodeState, d: string, latest: Option<Message>, own: Option<Poly>) {
    match latest
    case Some(m) =>
      && m.ShareProposal? && 1 <= v.idx <= |m.shares|
      && d in v.shares && v.shares[d] == m.shares[v.idx - 1]
      && d in v.commitments && v.commitments[d] == m.commitments
    case None =>
      && d !in v.shares
      && (d in v.commitments <==> d == v.id && own.Some?)
      && (d in v.commitments ==> v.commitments[d] == Commit(g, own.value))
  }

  function OwnPoly(s: System, r: string): Option<Poly> {
    if r in s.polys then Some(s.polys[r]) else None
  }

  /** A proposal that is taken is stored under its sender, and anything else leaves what is stored. */
  lemma HandledStores(g: PrimeGroup, v: NodeState, m: Message, publishOk: bool)
    ensures var v' := Handle(g, v, m, publishOk).state;
            && v'.id == v.id && v'.idx == v.idx
            && v'.shares == (if Takes(g, v.idx, m) then v.shares[m.senderId := m.shares[v.idx - 1]] else v.shares)
            && v'.commitments ==
               if Takes(g, v.idx, m) then v.commitments[m.senderId := m.commitments] else v.commitments
  {
    if m.ShareAck? {
      AckStores(g, v, m);
    }
  }

  lemma HandleStoresTaken(g: PrimeGroup, v: NodeState, m: Message, publishOk: bool, d: string,
        latest: Option<Message>, own: Option<Poly>)
    requires StoresTaken(g, v, d, latest, own)
    ensures StoresTaken(g, Handle(g, v, m, publishOk).state, d,
                        if m.senderId == d && Takes(g, v.idx, m) then Some(m) else latest, own)
  {
    HandledStores(g, v, m, publishOk);
  }

  lemma StepStoresTaken(g: PrimeGroup, s: System, step: Step, r: string, d: string, latest: Option<Message>)
    requires Possible(g, s, step) && r in s.nodes && s.nodes[r].id == r
    requires r !in s.polys ==> latest == None
    requires StoresTaken(g, s.nodes[r], d, latest, OwnPoly(s, r))
    ensures r in Apply(g, s, step).nodes
    ensures StoresTaken(g, Apply(g, s, step).nodes[r], d,
                        if TakesFrom(g, s.nodes[r].idx, step, r, d) then Some(step.m) else latest,
                        OwnPoly(Apply(g, s, step), r))
  {
    if step.Deliver? && step.id == r {
      HandleStoresTaken(g, s.nodes[r], step.m, step.publishOk, d, latest, OwnPoly(s, r));
    }
  }

  /** A node takes nothing before it has started. */
  lemma StepTakesLate(g: PrimeGroup, s: System, step: Step, r: string, d: string, idx: U64)
    requires Possible(g, s, step) && r !in Apply(g, s, step).polys
    ensures r !in s.polys && !TakesFrom(g, idx, step, r, d)
  {
  }

  /**
   In every run, forged identities included, a node stores under each identity the share and the
   commitments of the proposal it took most recently, whatever it stored before; where it took
   none, only its own commitments, once it has started.
   */
  lemma {:induction false} LatestProposalStored(g: PrimeGroup, steps: seq<Step>, states: seq<System>, k: nat,
        r: string, d: string)
    requires OpenRun(g, steps, states) && k < |states| && r in states[0].nodes
    ensures r in states[k].nodes && states[k].nodes[r].id == r && states[k].nodes[r].idx == states[0].nodes[r].idx
    ensures var latest := LatestTaken(g, states[0].nodes[r].idx, steps[..k], r, d);
            && StoresTaken(g, states[k].nodes[r], d, latest, OwnPoly(states[k], r))
            && (r !in states[k].polys ==> latest == None)
  {
    if k > 0 {
      var idx, s := states[0].nodes[r].idx, states[k - 1];
      LatestProposalStored(g, steps, states, k - 1, r, d);
      assert OpenStepAt(g, steps, states, k - 1);
      StepStoresTaken(g, s, steps[k - 1], r, d, LatestTaken(g, idx, steps[..k - 1], r, d));
      StepExtends(g, s, steps[k - 1]);
      assert NodeExtends(s.nodes[r], states[k].nodes[r]);
      if r !in states[k].polys {
        StepTakesLate(g, s, steps[k - 1], r, d, idx);
      }
      assert Init(steps[..k]) == steps[..k - 1] && Last(steps[..k]) == steps[k - 1];
    }
  }
}
