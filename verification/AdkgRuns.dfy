/**
 Runs of the key generation: nodes start once, and messages on the network are delivered to any
 node, in any order, any number of times or never.  Outsiders may publish anything well formed
 under identities that are not the nodes' own; in open runs, under any identity.
 */
module AdkgRuns {
  import opened Wrappers
  import opened PrimeField
  import opened Polynomials
  import opened Interpolation
  import opened CyclicGroup
  import opened Feldman
  import opened MapSums
  import opened AdkgNode

  /**
   `polys` records the polynomial each started node dealt, and `checks` each node's state right
   after its most recent completion check that found enough acks.
   */
  datatype System = System(
    nodes: map<string, NodeState>,
    polys: map<string, Poly>,
    network: set<Message>,
    checks: map<string, NodeState>)

  datatype Step =
    | Start(id: string, coeffs: Poly)
    | Deliver(id: string, m: Message, publishOk: bool)
    | Outside(m: Message)

  ghost predicate Initial(s: System) {
    && s.polys == map[] && s.network == {} && s.checks == map[]
    && forall r :: r in s.nodes ==> var v := s.nodes[r]; v == Fresh(r, v.n, v.t, v.idx)
  }

  datatype Parameters = Parameters(n: U64, t: U64, idx: U64)

  /** Whatever parameters nodes are given, they can start with exactly these and nothing else. */
  lemma InitialSystem(params: map<string, Parameters>) returns (s: System)
    ensures Initial(s) && s.nodes.Keys == params.Keys
    ensures forall r :: r in params ==> var v := s.nodes[r];
              v.id == r && v.n == params[r].n && v.t == params[r].t && v.idx == params[r].idx
  {
    s := System(map r | r in params :: Fresh(r, params[r].n, params[r].t, params[r].idx), map[], {}, map[]);
  }

  /** An initial system is one in which nothing has happened. */
  lemma InitialIff(s: System)
    ensures Initial(s) <==>
            && s.polys == map[] && s.network == {} && s.checks == map[]
            && forall r :: r in s.nodes ==> var v := s.nodes[r];
                 && v.id == r && v.secretKeyShare == None && v.publicKey == None
                 && v.commitments == map[] && v.shares == map[] && v.acks == map[]
  {
    forall r | r in s.nodes
      ensures var v := s.nodes[r];
              v == Fresh(r, v.n, v.t, v.idx) <==>
              && v.id == r && v.secretKeyShare == None && v.publicKey == None
              && v.commitments == map[] && v.shares == map[] && v.acks == map[]
    {
    }
  }

  ghost predicate Dealable(p: Modulus, t: U64, c: Poly) {
    |c| == t + 1 && forall j :: 0 <= j < |c| ==> IsScalar(p, c[j])
  }

  /** What can happen at all: anyone may publish any well-formed message under any identity. */
  ghost predicate Possible(g: PrimeGroup, s: System, step: Step) {
    match step
    case Start(id, c) => id in s.nodes && id !in s.polys && Dealable(g.order, s.nodes[id].t, c)
    case Deliver(id, m, _) => id in s.nodes && id in s.polys && m in s.network
    case Outside(m) => WellFormed(g, m)
  }

  /** What can happen where the identities of the nodes are authentic. */
  ghost predicate Enabled(g: PrimeGroup, s: System, step: Step) {
    Possible(g, s, step) && (step.Outside? ==> step.m.senderId !in s.nodes)
  }

  /** Handling m makes the node's completion check fire. */
  ghost predicate Fires(v: NodeState, m: Message) {
    m.ShareAck? && m.receiverId == v.id && ValidAcks(AddAck(v.acks, m.senderId, m.valid)) >= v.t
  }

  function Published(m: Option<Message>): set<Message> {
    match m
    case None => {}
    case Some(m) => {m}
  }

  ghost function Apply(g: PrimeGroup, s: System, step: Step): System
    requires Possible(g, s, step)
  {
    match step
    case Start(id, c) =>
      s.(nodes := s.nodes[id := Started(g, s.nodes[id], c)],
         polys := s.polys[id := c],
         network := s.network + {ProposalOf(g, s.nodes[id], c)})
    case Deliver(id, m, publishOk) =>
      var h := Handle(g, s.nodes[id], m, publishOk);
      s.(nodes := s.nodes[id := h.state],
         network := s.network + Published(h.published),
         checks := if Fires(s.nodes[id], m) then s.checks[id := h.state] else s.checks)
    case Outside(m) =>
      s.(network := s.network + {m})
  }

  ghost predicate Run(g: PrimeGroup, steps: seq<Step>, states: seq<System>) {
    && |states| == |steps| + 1
    && Initial(states[0])
    && forall i {:trigger StepAt(g, steps, states, i)} :: 0 <= i < |steps| ==> StepAt(g, steps, states, i)
  }

  ghost predicate StepAt(g: PrimeGroup, steps: seq<Step>, states: seq<System>, i: nat)
    requires i < |steps| && |states| == |steps| + 1
  {
    Enabled(g, states[i], steps[i]) && states[i + 1] == Apply(g, states[i], steps[i])
  }

  /** A run in which identities may be forged. */
  ghost predicate OpenRun(g: PrimeGroup, steps: seq<Step>, states: seq<System>) {
    && |states| == |steps| + 1
    && Initial(states[0])
    && forall i {:trigger OpenStepAt(g, steps, states, i)} :: 0 <= i < |steps| ==> OpenStepAt(g, steps, states, i)
  }

  ghost predicate OpenStepAt(g: PrimeGroup, steps: seq<Step>, states: seq<System>, i: nat)
    requires i < |steps| && |states| == |steps| + 1
  {
    Possible(g, states[i], steps[i]) && states[i + 1] == Apply(g, states[i], steps[i])
  }

  lemma RunIsOpen(g: PrimeGroup, steps: seq<Step>, states: seq<System>)
    requires Run(g, steps, states)
    ensures OpenRun(g, steps, states)
  {
    forall i: nat | i < |steps|
      ensures OpenStepAt(g, steps, states, i)
    {
      assert StepAt(g, steps, states, i);
    }
  }

  // ---------- the invariant ----------

  /** What a node stores, whoever it is from: verified shares, and its own commitments once started. */
  ghost predicate StoredInv(g: PrimeGroup, started: bool, v: NodeState) {
    && v.commitments.Keys == v.shares.Keys + (if started then {v.id} else {})
    && (forall d :: d in v.commitments ==> Contained(g, v.commitments[d]))
    && forall d :: d in v.shares ==>
         v.idx > 0 && IsScalar(g.order, v.shares[d]) && Accepts(g, v.commitments[d], v.idx, v.shares[d])
  }

  /** With authentic identities, what it stores under a node is what that node dealt. */
  ghost predicate LocalInv(g: PrimeGroup, ids: set<string>, polys: map<string, Poly>, v: NodeState) {
    && StoredInv(g, v.id in polys, v)
    && forall d :: d in v.commitments && d in ids ==> d in polys && v.commitments[d] == Commit(g, polys[d])
  }

  /** Acks a node recorded from other nodes are valid, and their senders store its share. */
  ghost predicate AcksInv(s: System, v: NodeState) {
    forall a, i :: a in v.acks && 0 <= i < |v.acks[a]| ==>
      v.acks[a][i].0 == a && (a in s.nodes ==> v.acks[a][i].1 && v.id in s.nodes[a].shares)
  }

  /** A node's keys are the sums over what it stored at its most recent firing check. */
  ghost predicate ChecksInv(g: PrimeGroup, s: System, v: NodeState) {
    && (v.secretKeyShare.Some? <==> v.id in s.checks)
    && (v.id in s.checks ==>
          var c := s.checks[v.id];
          && v.id in s.polys
          && LocalInv(g, s.nodes.Keys, s.polys, c)
          && c.id == v.id && c.idx == v.idx
          && c.shares.Keys <= v.shares.Keys
          && v.secretKeyShare == Some(IntSum(c.shares) % g.order)
          && (AllNonEmpty(c.commitments) ==> v.publicKey == Some(PointSum(g, Heads(c.commitments)))))
  }

  ghost predicate NodeInv(g: PrimeGroup, s: System, r: string)
    requires r in s.nodes
  {
    var v := s.nodes[r];
    && v.id == r
    && (r !in s.polys ==> v == Fresh(r, v.n, v.t, v.idx))
    && (r in s.polys ==> Dealable(g.order, v.t, s.polys[r]))
    && LocalInv(g, s.nodes.Keys, s.polys, v)
    && AcksInv(s, v)
    && ChecksInv(g, s, v)
  }

  /** A node's proposals carry its dealing, and its acks are backed by a stored share. */
  ghost predicate MessageInv(g: PrimeGroup, s: System, m: Message) {
    && WellFormed(g, m)
    && (m.senderId in s.nodes ==>
          && m.senderId in s.polys
          && match m
             case ShareProposal(d, _, _) => m == ProposalOf(g, s.nodes[d], s.polys[d])
             case ShareAck(a, d, valid) => valid && d in s.nodes[a].shares)
  }

  ghost predicate SystemInv(g: PrimeGroup, s: System) {
    && s.polys.Keys <= s.nodes.Keys
    && (forall r {:trigger NodeInv(g, s, r)} :: r in s.nodes ==> NodeInv(g, s, r))
    && (forall m {:trigger MessageInv(g, s, m)} :: m in s.network ==> MessageInv(g, s, m))
  }

  // ---------- every step keeps it ----------

  /** What every step leaves alone or only lets grow. */
  ghost predicate Extends(s: System, s': System) {
    && s'.nodes.Keys == s.nodes.Keys && s.network <= s'.network
    && (forall d :: d in s.polys ==> d in s'.polys && s'.polys[d] == s.polys[d])
    && (forall r :: r in s.nodes ==> NodeExtends(s.nodes[r], s'.nodes[r]))
  }

  ghost predicate NodeExtends(v: NodeState, v': NodeState) {
    && v'.id == v.id && v'.idx == v.idx && v'.n == v.n && v'.t == v.t
    && v.shares.Keys <= v'.shares.Keys
    && (v.secretKeyShare.Some? ==> v'.secretKeyShare.Some?)
  }

  lemma StepExtends(g: PrimeGroup, s: System, step: Step)
    requires Possible(g, s, step)
    ensures Extends(s, Apply(g, s, step))
  {
  }

  lemma InitialInv(g: PrimeGroup, s: System)
    requires Initial(s)
    ensures SystemInv(g, s)
  {
  }

  lemma LocalInvExtends(g: PrimeGroup, s: System, s': System, v: NodeState)
    requires LocalInv(g, s.nodes.Keys, s.polys, v) && Extends(s, s')
    requires v.id in s.polys || v.id !in s'.polys
    ensures LocalInv(g, s'.nodes.Keys, s'.polys, v)
  {
  }

  lemma MessageExtends(g: PrimeGroup, s: System, s': System, m: Message)
    requires MessageInv(g, s, m) && Extends(s, s')
    ensures MessageInv(g, s', m)
  {
  }

  lemma AcksExtend(s: System, s': System, v: NodeState)
    requires AcksInv(s, v) && Extends(s, s')
    ensures AcksInv(s', v)
  {
    forall a, i | a in v.acks && 0 <= i < |v.acks[a]|
      ensures v.acks[a][i].0 == a
      ensures a in s'.nodes ==> v.acks[a][i].1 && v.id in s'.nodes[a].shares
    {
      if a in s'.nodes {
        assert NodeExtends(s.nodes[a], s'.nodes[a]);
      }
    }
  }

  lemma ChecksExtend(g: PrimeGroup, s: System, s': System, v: NodeState)
    requires ChecksInv(g, s, v) && Extends(s, s')
    requires v.id in s.checks <==> v.id in s'.checks
    requires v.id in s.checks ==> s'.checks[v.id] == s.checks[v.id]
    ensures ChecksInv(g, s', v)
  {
    if v.id in s.checks {
      LocalInvExtends(g, s, s', s.checks[v.id]);
    }
  }

  /** A node that a step does not touch keeps its part of the invariant. */
  lemma UntouchedNode(g: PrimeGroup, s: System, s': System, r: string)
    requires r in s.nodes && NodeInv(g, s, r) && Extends(s, s') && s'.nodes[r] == s.nodes[r]
    requires r in s.polys <==> r in s'.polys
    requires r in s.checks <==> r in s'.checks
    requires r in s.checks ==> s'.checks[r] == s.checks[r]
    ensures NodeInv(g, s', r)
  {
    LocalInvExtends(g, s, s', s.nodes[r]);
    AcksExtend(s, s', s.nodes[r]);
    ChecksExtend(g, s, s', s.nodes[r]);
  }

  /** Only `id` changes, and only `sent` messages appear. */
  ghost predicate Local(s: System, s': System, id: string, sent: set<Message>) {
    && s'.network == s.network + sent
    && s'.nodes.Keys == s.nodes.Keys
    && forall r :: r in s.nodes && r != id ==>
         && s'.nodes[r] == s.nodes[r]
         && (r in s.polys <==> r in s'.polys)
         && (r in s.checks <==> r in s'.checks)
         && (r in s.checks ==> s'.checks[r] == s.checks[r])
  }

  lemma LocalStep(g: PrimeGroup, s: System, s': System, id: string, sent: set<Message>)
    requires SystemInv(g, s) && Extends(s, s') && Local(s, s', id, sent)
    requires s'.polys.Keys <= s.polys.Keys + {id} * s.nodes.Keys
    requires id in s.nodes ==> NodeInv(g, s', id)
    requires forall m :: m in sent ==> MessageInv(g, s', m)
    ensures SystemInv(g, s')
  {
    forall r | r in s'.nodes
      ensures NodeInv(g, s', r)
    {
      if r != id {
        assert NodeInv(g, s, r);
        UntouchedNode(g, s, s', r);
      }
    }
    forall m | m in s'.network
      ensures MessageInv(g, s', m)
    {
      if m in s.network {
        assert MessageInv(g, s, m);
        MessageExtends(g, s, s', m);
      }
    }
  }

  lemma StartedLocal(g: PrimeGroup, s: System, id: string, c: Poly)
    requires id in s.nodes && NodeInv(g, s, id) && Enabled(g, s, Start(id, c))
    ensures LocalInv(g, s.nodes.Keys, s.polys[id := c], Started(g, s.nodes[id], c))
  {
    CommitContained(g, c);
  }

  lemma ProposalInv(g: PrimeGroup, s: System, id: string, c: Poly)
    requires id in s.nodes && s.nodes[id].id == id && id in s.polys && s.polys[id] == c
    ensures MessageInv(g, s, ProposalOf(g, s.nodes[id], c))
  {
    CommitContained(g, c);
    var m := ProposalOf(g, s.nodes[id], c);
    forall i | 0 <= i < |m.shares|
      ensures IsScalar(g.order, m.shares[i])
    {
      assert m.shares[i] == Eval(c, i + 1) % g.order;
    }
  }

  lemma StartedNode(g: PrimeGroup, s: System, s': System, id: string, c: Poly)
    requires id in s.nodes && NodeInv(g, s, id) && Enabled(g, s, Start(id, c)) && Extends(s, s')
    requires s'.polys == s.polys[id := c] && s'.checks == s.checks
    requires s'.nodes[id] == Started(g, s.nodes[id], c)
    ensures NodeInv(g, s', id)
  {
    StartedLocal(g, s, id, c);
    assert s.nodes[id].acks == map[] && id !in s.checks;
  }

  lemma StartSends(g: PrimeGroup, s: System, s': System, id: string, c: Poly)
    requires id in s.nodes && s.nodes[id].id == id && Extends(s, s')
    requires id in s'.polys && s'.polys[id] == c
    requires s'.nodes[id] == Started(g, s.nodes[id], c)
    ensures MessageInv(g, s', ProposalOf(g, s.nodes[id], c))
  {
    ProposalInv(g, s', id, c);
    assert ProposalOf(g, s'.nodes[id], c) == ProposalOf(g, s.nodes[id], c);
  }

  lemma StartShape(g: PrimeGroup, s: System, id: string, c: Poly)
    requires Enabled(g, s, Start(id, c))
    ensures var s' := Apply(g, s, Start(id, c));
            && Extends(s, s') && Local(s, s', id, {ProposalOf(g, s.nodes[id], c)})
            && s'.polys == s.polys[id := c] && s'.checks == s.checks
            && s'.nodes[id] == Started(g, s.nodes[id], c)
  {
    StepExtends(g, s, Start(id, c));
  }

  lemma StartKeeps(g: PrimeGroup, s: System, id: string, c: Poly)
    requires SystemInv(g, s) && Enabled(g, s, Start(id, c))
    ensures SystemInv(g, Apply(g, s, Start(id, c)))
  {
    var s' := Apply(g, s, Start(id, c));
    StartShape(g, s, id, c);
    StartedNode(g, s, s', id, c);
    StartSends(g, s, s', id, c);
    LocalStep(g, s, s', id, {ProposalOf(g, s.nodes[id], c)});
  }

  lemma OutsideKeeps(g: PrimeGroup, s: System, m: Message)
    requires SystemInv(g, s) && Enabled(g, s, Outside(m))
    ensures SystemInv(g, Apply(g, s, Outside(m)))
  {
    StepExtends(g, s, Outside(m));
    LocalStep(g, s, Apply(g, s, Outside(m)), m.senderId, {m});
  }

  lemma ProposalKeepsLocal(g: PrimeGroup, ids: set<string>, polys: map<string, Poly>, v: NodeState, m: Message)
    requires LocalInv(g, ids, polys, v) && m.ShareProposal? && WellFormed(g, m)
    requires m.senderId in ids ==> m.senderId in polys && m.commitments == Commit(g, polys[m.senderId])
    ensures LocalInv(g, ids, polys, AfterProposal(g, v, m))
  {
  }

  lemma ProposalNode(g: PrimeGroup, s: System, s': System, id: string, m: Message)
    requires id in s.nodes && NodeInv(g, s, id) && id in s.polys && Extends(s, s')
    requires m.ShareProposal? && MessageInv(g, s, m)
    requires s'.polys == s.polys && s'.checks == s.checks
    requires s'.nodes[id] == AfterProposal(g, s.nodes[id], m)
    ensures NodeInv(g, s', id)
  {
    var v, v' := s.nodes[id], s'.nodes[id];
    ProposalKeepsLocal(g, s.nodes.Keys, s.polys, v, m);
    AcksExtend(s, s', v);
    ChecksExtend(g, s, s', v);
    GrownChecks(g, s', v, v');
  }

  lemma GrownChecks(g: PrimeGroup, s: System, v: NodeState, v': NodeState)
    requires ChecksInv(g, s, v) && v.shares.Keys <= v'.shares.Keys
    requires v' == v.(shares := v'.shares, commitments := v'.commitments)
    ensures ChecksInv(g, s, v')
  {
  }

  /** The ack a node sends is backed: the share it verified is now stored. */
  lemma AckBacked(g: PrimeGroup, s: System, s': System, id: string, m: Message)
    requires id in s.nodes && s.nodes[id].id == id && id in s'.polys && Extends(s, s')
    requires m.ShareProposal? && Verified(g, s.nodes[id].idx, m.shares, m.commitments)
    requires s'.nodes[id] == AfterProposal(g, s.nodes[id], m)
    ensures MessageInv(g, s', ShareAck(id, m.senderId, true))
  {
  }

  lemma ProposalShape(g: PrimeGroup, s: System, id: string, m: Message, publishOk: bool)
    requires Enabled(g, s, Deliver(id, m, publishOk)) && m.ShareProposal?
    ensures var s' := Apply(g, s, Deliver(id, m, publishOk));
            && Extends(s, s') && Local(s, s', id, Published(Handle(g, s.nodes[id], m, publishOk).published))
            && s'.polys == s.polys && s'.checks == s.checks
            && s'.nodes[id] == AfterProposal(g, s.nodes[id], m)
  {
    StepExtends(g, s, Deliver(id, m, publishOk));
  }

  lemma DeliverProposalKeeps(g: PrimeGroup, s: System, id: string, m: Message, publishOk: bool)
    requires SystemInv(g, s) && Enabled(g, s, Deliver(id, m, publishOk)) && m.ShareProposal?
    ensures SystemInv(g, Apply(g, s, Deliver(id, m, publishOk)))
  {
    var s' := Apply(g, s, Deliver(id, m, publishOk));
    ProposalShape(g, s, id, m, publishOk);
    assert NodeInv(g, s, id) && MessageInv(g, s, m);
    ProposalNode(g, s, s', id, m);
    if Verified(g, s.nodes[id].idx, m.shares, m.commitments) {
      AckBacked(g, s, s', id, m);
    }
    LocalStep(g, s, s', id, Published(Handle(g, s.nodes[id], m, publishOk).published));
  }

  /** An ack touches neither shares nor commitments. */
  lemma AckStores(g: PrimeGroup, v: NodeState, m: Message)
    requires m.ShareAck?
    ensures var v' := AfterAck(g, v, m).0;
            v' == v.(acks := v'.acks, secretKeyShare := v'.secretKeyShare, publicKey := v'.publicKey)
  {
    if m.receiverId == v.id {
      CheckStores(g, v.(acks := AddAck(v.acks, m.senderId, m.valid)));
    }
  }

  lemma CheckStores(g: PrimeGroup, v: NodeState)
    ensures var v' := Checked(g, v).0;
            v' == v.(secretKeyShare := v'.secretKeyShare, publicKey := v'.publicKey)
  {
  }

  lemma SameStored(g: PrimeGroup, ids: set<string>, polys: map<string, Poly>, v: NodeState, v': NodeState)
    requires LocalInv(g, ids, polys, v)
    requires v' == v.(acks := v'.acks, secretKeyShare := v'.secretKeyShare, publicKey := v'.publicKey)
    ensures LocalInv(g, ids, polys, v')
  {
  }

  lemma AckKeepsNode(g: PrimeGroup, s: System, s': System, id: string, v': NodeState)
    requires id in s.nodes && NodeInv(g, s, id) && id in s.polys && Extends(s, s') && s'.polys == s.polys
    requires s'.nodes[id] == v'
    requires LocalInv(g, s.nodes.Keys, s.polys, v') && AcksInv(s, v') && ChecksInv(g, s', v')
    ensures NodeInv(g, s', id)
  {
    LocalInvExtends(g, s, s', v');
    AcksExtend(s, s', v');
  }

  lemma DeliverAckKeeps(g: PrimeGroup, s: System, id: string, m: Message, publishOk: bool)
    requires SystemInv(g, s) && Enabled(g, s, Deliver(id, m, publishOk)) && m.ShareAck?
    ensures SystemInv(g, Apply(g, s, Deliver(id, m, publishOk)))
  {
    var s' := Apply(g, s, Deliver(id, m, publishOk));
    var v, v' := s.nodes[id], AfterAck(g, s.nodes[id], m).0;
    assert s'.nodes[id] == v';
    StepExtends(g, s, Deliver(id, m, publishOk));
    assert NodeInv(g, s, id) && MessageInv(g, s, m);
    AckStores(g, v, m);
    SameStored(g, s.nodes.Keys, s.polys, v, v');
    AckRecorded(g, s, v, m);
    CheckRecorded(g, s, s', v, m);
    AckKeepsNode(g, s, s', id, v');
    LocalStep(g, s, s', id, {});
  }

  lemma AckRecorded(g: PrimeGroup, s: System, v: NodeState, m: Message)
    requires m.ShareAck? && MessageInv(g, s, m) && AcksInv(s, v)
    ensures AcksInv(s, AfterAck(g, v, m).0)
  {
    var v' := AfterAck(g, v, m).0;
    if m.receiverId == v.id {
      CheckStores(g, v.(acks := AddAck(v.acks, m.senderId, m.valid)));
      var entry := if m.senderId in v.acks then v.acks[m.senderId] else [];
      forall a, i | a in v'.acks && 0 <= i < |v'.acks[a]|
        ensures v'.acks[a][i].0 == a
        ensures a in s.nodes ==> v'.acks[a][i].1 && v.id in s.nodes[a].shares
      {
        if a == m.senderId && i == |entry| {
          assert v'.acks[a][i] == (a, m.valid);
        } else {
          assert a in v.acks && v'.acks[a][i] == v.acks[a][i];
        }
      }
    }
  }

  lemma CheckRecorded(g: PrimeGroup, s: System, s': System, v: NodeState, m: Message)
    requires m.ShareAck? && v.id in s.polys && Extends(s, s') && s'.polys == s.polys
    requires LocalInv(g, s.nodes.Keys, s.polys, v) && ChecksInv(g, s, v)
    requires s'.checks == if Fires(v, m) then s.checks[v.id := AfterAck(g, v, m).0] else s.checks
    ensures ChecksInv(g, s', AfterAck(g, v, m).0)
  {
    var v' := AfterAck(g, v, m).0;
    if Fires(v, m) {
      AckStores(g, v, m);
      SameStored(g, s.nodes.Keys, s.polys, v, v');
    } else {
      assert v' == v || v' == v.(acks := v'.acks);
      ChecksExtend(g, s, s', v);
    }
  }

  lemma StepKeeps(g: PrimeGroup, s: System, step: Step)
    requires SystemInv(g, s) && Enabled(g, s, step)
    ensures SystemInv(g, Apply(g, s, step))
  {
    match step
    case Start(id, c) => StartKeeps(g, s, id, c);
    case Outside(m) => OutsideKeeps(g, s, m);
    case Deliver(id, m, publishOk) =>
      if m.ShareProposal? {
        DeliverProposalKeeps(g, s, id, m, publishOk);
      } else {
        DeliverAckKeeps(g, s, id, m, publishOk);
      }
  }

  /** The invariant holds in every state of every run. */
  lemma {:induction false} RunInvariant(g: PrimeGroup, steps: seq<Step>, states: seq<System>, k: nat)
    requires Run(g, steps, states) && k < |states|
    ensures SystemInv(g, states[k])
  {
    if k == 0 {
      InitialInv(g, states[0]);
    } else {
      RunInvariant(g, steps, states, k - 1);
      assert StepAt(g, steps, states, k - 1);
      StepKeeps(g, states[k - 1], steps[k - 1]);
    }
  }

  /** The invariant at one node. */
  lemma NodeInvariant(g: PrimeGroup, steps: seq<Step>, states: seq<System>, k: nat, r: string)
    requires Run(g, steps, states) && k < |states| && r in states[k].nodes
    ensures NodeInv(g, states[k], r)
  {
    RunInvariant(g, steps, states, k);
    assert NodeInv(g, states[k], r);
  }

  /** What the most recent firing check of a node saw, and the keys it set. */
  lemma CheckFacts(g: PrimeGroup, steps: seq<Step>, states: seq<System>, k: nat, r: string)
    requires Run(g, steps, states) && k < |states| && r in states[k].nodes && r in states[k].checks
    ensures var s, v, c := states[k], states[k].nodes[r], states[k].checks[r];
            && LocalInv(g, s.nodes.Keys, s.polys, c)
            && c.id == r && c.idx == v.idx && r in s.polys
            && v.secretKeyShare == Some(IntSum(c.shares) % g.order)
            && (AllNonEmpty(c.commitments) ==> v.publicKey == Some(PointSum(g, Heads(c.commitments))))
  {
    NodeInvariant(g, steps, states, k, r);
  }

  lemma RunExtends(g: PrimeGroup, steps: seq<Step>, states: seq<System>, step: Step)
    requires Run(g, steps, states) && Enabled(g, Last(states), step)
    ensures Run(g, steps + [step], states + [Apply(g, Last(states), step)])
  {
    var steps', states' := steps + [step], states + [Apply(g, Last(states), step)];
    forall i: nat | i < |steps'|
      ensures StepAt(g, steps', states', i)
    {
      if i < |steps| {
        assert StepAt(g, steps, states, i);
      }
    }
  }

  /** Along a run, the state only extends. */
  lemma {:induction false} RunMonotone(g: PrimeGroup, steps: seq<Step>, states: seq<System>, i: nat, j: nat)
    requires Run(g, steps, states) && i <= j < |states|
    ensures Extends(states[i], states[j])
  {
    if i < j {
      RunMonotone(g, steps, states, i, j - 1);
      assert StepAt(g, steps, states, j - 1);
      StepExtends(g, states[j - 1], steps[j - 1]);
      ExtendsTransitive(states[i], states[j - 1], states[j]);
    }
  }

  lemma ExtendsTransitive(a: System, b: System, c: System)
    requires Extends(a, b) && Extends(b, c)
    ensures Extends(a, c)
  {
    forall r | r in a.nodes
      ensures NodeExtends(a.nodes[r], c.nodes[r])
    {
      assert NodeExtends(a.nodes[r], b.nodes[r]) && NodeExtends(b.nodes[r], c.nodes[r]);
    }
  }
}
