/**
 What every run keeps even where identities are forged: nothing here depends on who sent a
 message, only on what the handlers check.
 */
module AdkgOpenRuns {
  import opened Wrappers
  import opened PrimeField
  import opened Polynomials
  import opened CyclicGroup
  import opened Feldman
  import opened MapSums
  import opened AdkgNode
  import opened AdkgRuns

  /** A node's keys are the sums over what it stored at its most recent firing check. */
  ghost predicate OpenChecks(g: PrimeGroup, s: System, v: NodeState) {
    && (v.secretKeyShare.Some? <==> v.id in s.checks)
    && (v.id !in s.checks ==> v.publicKey == None)
    && (v.id in s.checks ==> CheckedFrom(g, v, s.checks[v.id]))
  }

  /** The keys of v are the sums over c, an earlier state of the same node. */
  ghost predicate CheckedFrom(g: PrimeGroup, v: NodeState, c: NodeState) {
    && StoredInv(g, true, c) && c.id == v.id && c.idx == v.idx && c.shares.Keys <= v.shares.Keys
    && v.secretKeyShare == Some(IntSum(c.shares) % g.order)
    && (AllNonEmpty(c.commitments) ==> v.publicKey == Some(PointSum(g, Heads(c.commitments))))
  }

  ghost predicate OpenNodeInv(g: PrimeGroup, s: System, r: string)
    requires r in s.nodes
  {
    var v := s.nodes[r];
    && v.id == r
    && (r !in s.polys ==> v == Fresh(r, v.n, v.t, v.idx))
    && StoredInv(g, r in s.polys, v) && OpenChecks(g, s, v) && (r in s.checks ==> r in s.polys)
  }

  ghost predicate OpenInv(g: PrimeGroup, s: System) {
    && (forall r {:trigger OpenNodeInv(g, s, r)} :: r in s.nodes ==> OpenNodeInv(g, s, r))
    && (forall m :: m in s.network ==> WellFormed(g, m))
  }

  lemma OpenInitial(g: PrimeGroup, s: System)
    requires Initial(s)
    ensures OpenInv(g, s)
  {
  }

  lemma OpenUntouched(g: PrimeGroup, s: System, s': System, r: string)
    requires r in s.nodes && OpenNodeInv(g, s, r) && r in s'.nodes && s'.nodes[r] == s.nodes[r]
    requires r in s.polys <==> r in s'.polys
    requires r in s.checks <==> r in s'.checks
    requires r in s.checks ==> s'.checks[r] == s.checks[r]
    ensures OpenNodeInv(g, s', r)
  {
  }

  /** Only `id` changes, and only well-formed messages appear. */
  lemma OpenLocalStep(g: PrimeGroup, s: System, s': System, id: string, sent: set<Message>)
    requires OpenInv(g, s) && Local(s, s', id, sent)
    requires id in s.nodes ==> OpenNodeInv(g, s', id)
    requires forall m :: m in sent ==> WellFormed(g, m)
    ensures OpenInv(g, s')
  {
    forall r | r in s'.nodes
      ensures OpenNodeInv(g, s', r)
    {
      if r != id {
        assert OpenNodeInv(g, s, r);
        OpenUntouched(g, s, s', r);
      }
    }
  }

  lemma ProposalWellFormed(g: PrimeGroup, v: NodeState, c: Poly)
    ensures WellFormed(g, ProposalOf(g, v, c))
  {
    CommitContained(g, c);
    var m := ProposalOf(g, v, c);
    forall i | 0 <= i < |m.shares|
      ensures IsScalar(g.order, m.shares[i])
    {
      assert m.shares[i] == Eval(c, i + 1) % g.order;
    }
  }

  lemma OpenStart(g: PrimeGroup, s: System, id: string, c: Poly)
    requires OpenInv(g, s) && Possible(g, s, Start(id, c))
    ensures OpenInv(g, Apply(g, s, Start(id, c)))
  {
    assert OpenNodeInv(g, s, id);
    CommitContained(g, c);
    ProposalWellFormed(g, s.nodes[id], c);
    OpenLocalStep(g, s, Apply(g, s, Start(id, c)), id, {ProposalOf(g, s.nodes[id], c)});
  }

  lemma OpenOutside(g: PrimeGroup, s: System, m: Message)
    requires OpenInv(g, s) && Possible(g, s, Outside(m))
    ensures OpenInv(g, Apply(g, s, Outside(m)))
  {
    var s' := Apply(g, s, Outside(m));
    if m.senderId in s.nodes {
      assert OpenNodeInv(g, s, m.senderId);
      OpenUntouched(g, s, s', m.senderId);
    }
    OpenLocalStep(g, s, s', m.senderId, {m});
  }

  lemma ProposalStored(g: PrimeGroup, started: bool, v: NodeState, m: Message)
    requires StoredInv(g, started, v) && m.ShareProposal? && WellFormed(g, m)
    ensures StoredInv(g, started, AfterProposal(g, v, m))
  {
  }

  lemma ProposalChecks(g: PrimeGroup, s: System, s': System, v: NodeState, m: Message)
    requires OpenChecks(g, s, v) && m.ShareProposal? && s'.checks == s.checks
    ensures OpenChecks(g, s', AfterProposal(g, v, m))
  {
  }

  lemma OpenProposal(g: PrimeGroup, s: System, id: string, m: Message, publishOk: bool)
    requires OpenInv(g, s) && Possible(g, s, Deliver(id, m, publishOk)) && m.ShareProposal?
    ensures OpenInv(g, Apply(g, s, Deliver(id, m, publishOk)))
  {
    var s' := Apply(g, s, Deliver(id, m, publishOk));
    assert OpenNodeInv(g, s, id);
    ProposalStored(g, true, s.nodes[id], m);
    ProposalChecks(g, s, s', s.nodes[id], m);
    assert s'.nodes[id] == AfterProposal(g, s.nodes[id], m);
    OpenLocalStep(g, s, s', id, Published(Handle(g, s.nodes[id], m, publishOk).published));
  }

  /** A check that finds enough acks sets the keys from the state it leaves. */
  lemma FiredFrom(g: PrimeGroup, v: NodeState, m: Message)
    requires StoredInv(g, true, v) && Fires(v, m)
    ensures CheckedFrom(g, AfterAck(g, v, m).0, AfterAck(g, v, m).0)
  {
    AckStores(g, v, m);
  }

  lemma QuietFrom(g: PrimeGroup, s: System, v: NodeState, m: Message)
    requires OpenChecks(g, s, v) && m.ShareAck? && !Fires(v, m)
    ensures OpenChecks(g, s, AfterAck(g, v, m).0)
  {
    var v' := AfterAck(g, v, m).0;
    assert v' == v || v' == v.(acks := v'.acks);
  }

  lemma OpenAckNode(g: PrimeGroup, s: System, s': System, id: string, m: Message)
    requires id in s.nodes && OpenNodeInv(g, s, id) && id in s.polys && m.ShareAck?
    requires id in s'.nodes && s'.nodes[id] == AfterAck(g, s.nodes[id], m).0 && s'.polys == s.polys
    requires s'.checks == if Fires(s.nodes[id], m) then s.checks[id := s'.nodes[id]] else s.checks
    ensures OpenNodeInv(g, s', id)
  {
    AckStores(g, s.nodes[id], m);
    if Fires(s.nodes[id], m) {
      FiredFrom(g, s.nodes[id], m);
    } else {
      QuietFrom(g, s, s.nodes[id], m);
    }
  }

  lemma OpenAck(g: PrimeGroup, s: System, id: string, m: Message, publishOk: bool)
    requires OpenInv(g, s) && Possible(g, s, Deliver(id, m, publishOk)) && m.ShareAck?
    ensures OpenInv(g, Apply(g, s, Deliver(id, m, publishOk)))
  {
    var s' := Apply(g, s, Deliver(id, m, publishOk));
    assert OpenNodeInv(g, s, id);
    OpenAckNode(g, s, s', id, m);
    OpenLocalStep(g, s, s', id, {});
  }

  /** The open invariant holds in every state of every run, forged identities or not. */
  lemma {:induction false} OpenInvariant(g: PrimeGroup, steps: seq<Step>, states: seq<System>, k: nat)
    requires OpenRun(g, steps, states) && k < |states|
    ensures OpenInv(g, states[k])
  {
    if k == 0 {
      OpenInitial(g, states[0]);
    } else {
      OpenInvariant(g, steps, states, k - 1);
      assert OpenStepAt(g, steps, states, k - 1);
      var s := states[k - 1];
      match steps[k - 1]
      case Start(id, c) => OpenStart(g, s, id, c);
      case Outside(m) => OpenOutside(g, s, m);
      case Deliver(id, m, publishOk) =>
        if m.ShareProposal? {
          OpenProposal(g, s, id, m, publishOk);
        } else {
          OpenAck(g, s, id, m, publishOk);
        }
    }
  }

  lemma OpenNode(g: PrimeGroup, steps: seq<Step>, states: seq<System>, k: nat, r: string)
    requires OpenRun(g, steps, states) && k < |states| && r in states[k].nodes
    ensures OpenNodeInv(g, states[k], r)
  {
    OpenInvariant(g, steps, states, k);
    assert OpenNodeInv(g, states[k], r);
  }
}
