/**
 Runs of the live key generation.  Any node may be told to deal any number of times; messages are
 delivered to any node in any order, repeatedly or never; anyone may publish any validation.
 Share distributions are the nodes' own.
 */
module DkgRuns {
  import opened Wrappers
  import opened PrimeField
  import opened Polynomials
  import opened CyclicGroup
  import opened Feldman
  import opened MapSums
  import opened DkgNode

  /**
   `dealings` records who dealt what, `handled` how many validations each node has handled, and
   `keys` each node's state at, and result of, its most recent group key computation.
   */
  datatype System = System(
    nodes: map<string, NodeState>,
    dealings: set<(string, Poly)>,
    network: set<Message>,
    handled: map<string, int>,
    keys: map<string, (NodeState, Point)>)

  datatype Step =
    | Start(id: string, polynomial: Poly, sendOk: bool)
    | Deliver(id: string, m: Message, sendOk: bool)
    | Outside(m: Message)

  ghost predicate Initial(s: System) {
    && s.dealings == {} && s.network == {} && s.keys == map[]
    && s.handled.Keys == s.nodes.Keys
    && forall r :: r in s.nodes ==>
         s.nodes[r] == Fresh(r, s.nodes[r].threshold, s.nodes[r].totalNodes) && s.handled[r] == 0
  }

  datatype Parameters = Parameters(threshold: U64, totalNodes: U64)

  /** Whatever parameters nodes are given, they can start with exactly these and nothing else. */
  lemma InitialSystem(params: map<string, Parameters>) returns (s: System)
    ensures Initial(s) && s.nodes.Keys == params.Keys
    ensures forall r :: r in params ==> var v := s.nodes[r];
              v.id == r && v.threshold == params[r].threshold && v.totalNodes == params[r].totalNodes
  {
    s := System(map r | r in params :: Fresh(r, params[r].threshold, params[r].totalNodes),
                {}, {}, map r | r in params :: 0, map[]);
  }

  /** An initial system is one in which nothing has happened. */
  lemma InitialIff(s: System)
    ensures Initial(s) <==>
            && s.dealings == {} && s.network == {} && s.keys == map[] && s.handled.Keys == s.nodes.Keys
            && forall r :: r in s.nodes ==> var v := s.nodes[r];
                 && v.id == r && v.status == New && s.handled[r] == 0
                 && v.commitments == map[] && v.shares == map[] && v.validations == map[]
  {
    forall r | r in s.nodes
      ensures var v := s.nodes[r];
              v == Fresh(r, v.threshold, v.totalNodes) <==>
              && v.id == r && v.status == New
              && v.commitments == map[] && v.shares == map[] && v.validations == map[]
    {
    }
  }

  ghost predicate Dealable(p: Modulus, threshold: U64, c: Poly) {
    |c| == threshold + 1 && forall j :: 0 <= j < |c| ==> IsScalar(p, c[j])
  }

  ghost predicate Enabled(g: PrimeGroup, s: System, step: Step) {
    match step
    case Start(id, c, _) => id in s.nodes && Dealable(g.order, s.nodes[id].threshold, c)
    case Deliver(id, m, _) => id in s.nodes && id in s.handled && m in s.network
    case Outside(m) => m.ShareValidation?
  }

  function Sent(m: Option<Message>): set<Message> {
    match m
    case None => {}
    case Some(m) => {m}
  }

  function HandledAfter(handled: map<string, int>, id: string, m: Message): map<string, int>
    requires id in handled
  {
    if m.ShareValidation? then handled[id := handled[id] + 1] else handled
  }

  function KeysAfter(keys: map<string, (NodeState, Point)>, id: string, h: Handled): map<string, (NodeState, Point)> {
    match h.groupKey
    case None => keys
    case Some(key) => keys[id := (h.state, key)]
  }

  ghost function Apply(g: PrimeGroup, s: System, step: Step): System
    requires Enabled(g, s, step)
  {
    match step
    case Start(id, c, sendOk) =>
      var s' := s.(nodes := s.nodes[id := s.nodes[id].(status := Started)]);
      if sendOk
      then s'.(dealings := s.dealings + {(id, c)}, network := s.network + {DistributionOf(g, s.nodes[id], c)})
      else s'
    case Deliver(id, m, sendOk) =>
      var h := Handle(g, s.nodes[id], m, sendOk);
      s.(nodes := s.nodes[id := h.state],
         network := s.network + Sent(h.sent),
         handled := HandledAfter(s.handled, id, m),
         keys := KeysAfter(s.keys, id, h))
    case Outside(m) =>
      s.(network := s.network + {m})
  }

  ghost predicate Run(g: PrimeGroup, steps: seq<Step>, states: seq<System>) {
    && |states| == |steps| + 1
    && Initial(states[0])
    && forall i {:trigger StepAt(g, steps, states, i)} :: 0 <= i < |steps| ==> StepAt(g, steps, states, i)
  }

  ghost predicate StepAt(g: PrimeGroup, steps: seq<Step>, states: seq<System>, i: nat)
    requires i < |steps| && |states| == |steps| + 1
  {
    Enabled(g, states[i], steps[i]) && states[i + 1] == Apply(g, states[i], steps[i])
  }

  // ---------- the invariant ----------

  /** Vectors of commitments that a node has published for one of its polynomials. */
  ghost predicate Dealt(g: PrimeGroup, s: System, d: string, comms: seq<Point>) {
    && Contained(g, comms)
    && d in s.nodes
    && (d, Committed(g, comms)) in s.dealings
    && |comms| == s.nodes[d].threshold + 1
  }

  /** A node stores, under each dealer, that dealer's exact evaluation at the node's own index. */
  ghost predicate StoredInv(g: PrimeGroup, s: System, v: NodeState) {
    && v.shares.Keys == v.commitments.Keys
    && forall d :: d in v.shares ==>
         && Dealt(g, s, d, v.commitments[d])
         && 1 <= IndexOf(v.id) <= s.nodes[d].totalNodes
         && v.shares[d] == KeyShare(IndexOf(v.id), Eval(Committed(g, v.commitments[d]), IndexOf(v.id)) % g.order)
  }

  function ListLengths(validations: map<string, seq<bool>>): (m: map<string, int>)
    ensures m.Keys == validations.Keys
  {
    map d | d in validations :: |validations[d]|
  }

  ghost predicate NodeInv(g: PrimeGroup, s: System, r: string)
    requires r in s.nodes && r in s.handled
  {
    var v := s.nodes[r];
    && v.id == r
    && StoredInv(g, s, v)
    && IntSum(ListLengths(v.validations)) == s.handled[r]
    && (r in s.keys ==> KeyInv(g, s, v, s.keys[r].0, s.keys[r].1))
  }

  /** The latest group key was computed in a complete state c, from the shares of that state. */
  ghost predicate KeyInv(g: PrimeGroup, s: System, v: NodeState, c: NodeState, key: Point) {
    && c.id == v.id && c.threshold == v.threshold
    && Complete(c) && StoredInv(g, s, c) && key == GroupKey(g, c.shares)
  }

  ghost predicate MessageInv(g: PrimeGroup, s: System, m: Message) {
    m.ShareDistribution? ==>
      && Dealt(g, s, m.sender, m.commitments)
      && m.shares == Deal(g.order, Committed(g, m.commitments), s.nodes[m.sender].totalNodes)
  }

  ghost predicate SystemInv(g: PrimeGroup, s: System) {
    && s.handled.Keys == s.nodes.Keys
    && (forall r {:trigger NodeInv(g, s, r)} :: r in s.nodes ==> NodeInv(g, s, r))
    && (forall m {:trigger MessageInv(g, s, m)} :: m in s.network ==> MessageInv(g, s, m))
  }

  // ---------- every step keeps it ----------

  ghost predicate Extends(s: System, s': System) {
    && s'.nodes.Keys == s.nodes.Keys && s.dealings <= s'.dealings
    && forall r :: r in s.nodes ==> var v, v' := s.nodes[r], s'.nodes[r];
         v'.id == v.id && v'.threshold == v.threshold && v'.totalNodes == v.totalNodes
  }

  lemma StepExtends(g: PrimeGroup, s: System, step: Step)
    requires Enabled(g, s, step)
    ensures Extends(s, Apply(g, s, step))
  {
  }

  lemma InitialInv(g: PrimeGroup, s: System)
    requires Initial(s)
    ensures SystemInv(g, s)
  {
    forall r | r in s.nodes
      ensures NodeInv(g, s, r)
    {
      assert ListLengths(s.nodes[r].validations) == map[];
    }
  }

  lemma StoredExtends(g: PrimeGroup, s: System, s': System, v: NodeState)
    requires StoredInv(g, s, v) && Extends(s, s')
    ensures StoredInv(g, s', v)
  {
  }

  lemma MessageExtends(g: PrimeGroup, s: System, s': System, m: Message)
    requires MessageInv(g, s, m) && Extends(s, s')
    ensures MessageInv(g, s', m)
  {
  }

  /** A node keeps its part of the invariant when it stores, counts and has computed what it had. */
  lemma SameNode(g: PrimeGroup, s: System, s': System, r: string)
    requires r in s.nodes && r in s.handled && r in s'.handled && NodeInv(g, s, r) && Extends(s, s')
    requires s'.nodes[r] == s.nodes[r].(status := s'.nodes[r].status) && s'.handled[r] == s.handled[r]
    requires r in s'.keys ==> r in s.keys && s'.keys[r] == s.keys[r]
    ensures NodeInv(g, s', r)
  {
    StoredExtends(g, s, s', s.nodes[r]);
    if r in s'.keys {
      StoredExtends(g, s, s', s.keys[r].0);
    }
  }

  ghost predicate Local(s: System, s': System, id: string, sent: set<Message>) {
    && s'.nodes.Keys == s.nodes.Keys && s'.handled.Keys == s.handled.Keys
    && s'.network == s.network + sent
    && forall r :: r in s.nodes && r != id ==>
         && s'.nodes[r] == s.nodes[r]
         && (r in s.handled ==> s'.handled[r] == s.handled[r])
         && (r in s'.keys ==> r in s.keys && s'.keys[r] == s.keys[r])
  }

  lemma LocalStep(g: PrimeGroup, s: System, s': System, id: string, sent: set<Message>)
    requires SystemInv(g, s) && Extends(s, s') && Local(s, s', id, sent)
    requires id in s.nodes ==> NodeInv(g, s', id)
    requires forall m :: m in sent ==> MessageInv(g, s', m)
    ensures SystemInv(g, s')
  {
    forall r | r in s'.nodes
      ensures NodeInv(g, s', r)
    {
      if r != id {
        assert NodeInv(g, s, r);
        SameNode(g, s, s', r);
      }
    }
    forall m | m in s'.network
      ensures MessageInv(g, s', m)
    {
      if m in s.network {
        assert MessageInv(g, s, m);
        MessageExtends(g, s, s', m);
      }
    }
  }

  lemma StartKeeps(g: PrimeGroup, s: System, id: string, c: Poly, sendOk: bool)
    requires SystemInv(g, s) && Enabled(g, s, Start(id, c, sendOk))
    ensures SystemInv(g, Apply(g, s, Start(id, c, sendOk)))
  {
    var s' := Apply(g, s, Start(id, c, sendOk));
    var sent := if sendOk then {DistributionOf(g, s.nodes[id], c)} else {};
    StepExtends(g, s, Start(id, c, sendOk));
    assert NodeInv(g, s, id);
    SameNode(g, s, s', id);
    CommittedCommit(g, c);
    assert forall m :: m in sent ==> MessageInv(g, s', m);
    LocalStep(g, s, s', id, sent);
  }

  lemma OutsideKeeps(g: PrimeGroup, s: System, m: Message)
    requires SystemInv(g, s) && Enabled(g, s, Outside(m))
    ensures SystemInv(g, Apply(g, s, Outside(m)))
  {
    StepExtends(g, s, Outside(m));
    if m.sender in s.nodes {
      assert NodeInv(g, s, m.sender);
      SameNode(g, s, Apply(g, s, Outside(m)), m.sender);
    }
    LocalStep(g, s, Apply(g, s, Outside(m)), m.sender, {m});
  }

  /** A dealing of n shares holds exactly one share for each index from 1 to n. */
  lemma FindInDealing(p: Modulus, c: Poly, n: U64, i: U64)
    ensures Find(Deal(p, c, n), i) == if 1 <= i <= n then Some(KeyShare(i, Eval(c, i) % p)) else None
  {
    var shares := Deal(p, c, n);
    if 1 <= i <= n {
      assert shares[i - 1].index == i;
    }
  }

  lemma DistributionStored(g: PrimeGroup, s: System, v: NodeState, m: Message)
    requires StoredInv(g, s, v) && MessageInv(g, s, m) && m.ShareDistribution?
    ensures StoredInv(g, s, AfterDistribution(v, m))
  {
    FindInDealing(g.order, Committed(g, m.commitments), s.nodes[m.sender].totalNodes, IndexOf(v.id));
  }

  lemma DistributionShape(g: PrimeGroup, s: System, id: string, m: Message, sendOk: bool)
    requires Enabled(g, s, Deliver(id, m, sendOk)) && m.ShareDistribution? && s.handled.Keys == s.nodes.Keys
    ensures var s' := Apply(g, s, Deliver(id, m, sendOk));
            && Extends(s, s') && Local(s, s', id, Sent(Handle(g, s.nodes[id], m, sendOk).sent))
            && s'.nodes[id] == AfterDistribution(s.nodes[id], m)
            && s'.handled == s.handled && s'.keys == s.keys
  {
    StepExtends(g, s, Deliver(id, m, sendOk));
  }

  lemma DistributionNode(g: PrimeGroup, s: System, s': System, id: string, m: Message)
    requires id in s.nodes && id in s.handled && NodeInv(g, s, id) && Extends(s, s')
    requires m.ShareDistribution? && MessageInv(g, s, m)
    requires s'.nodes[id] == AfterDistribution(s.nodes[id], m) && s'.handled == s.handled && s'.keys == s.keys
    ensures NodeInv(g, s', id)
  {
    DistributionStored(g, s, s.nodes[id], m);
    StoredExtends(g, s, s', s'.nodes[id]);
    if id in s.keys {
      StoredExtends(g, s, s', s.keys[id].0);
    }
  }

  lemma DeliverDistributionKeeps(g: PrimeGroup, s: System, id: string, m: Message, sendOk: bool)
    requires SystemInv(g, s) && Enabled(g, s, Deliver(id, m, sendOk)) && m.ShareDistribution?
    ensures SystemInv(g, Apply(g, s, Deliver(id, m, sendOk)))
  {
    var s' := Apply(g, s, Deliver(id, m, sendOk));
    DistributionShape(g, s, id, m, sendOk);
    assert NodeInv(g, s, id) && MessageInv(g, s, m);
    DistributionNode(g, s, s', id, m);
    LocalStep(g, s, s', id, Sent(Handle(g, s.nodes[id], m, sendOk).sent));
  }

  lemma ValidationCounted(v: NodeState, m: Message)
    requires m.ShareValidation?
    ensures IntSum(ListLengths(AfterValidation(v, m).validations)) == IntSum(ListLengths(v.validations)) + 1
  {
    var lengths, lengths' := ListLengths(v.validations), ListLengths(AfterValidation(v, m).validations);
    IntSumRemove(lengths', m.dealer);
    if m.dealer in lengths {
      IntSumRemove(lengths, m.dealer);
      assert lengths' - {m.dealer} == lengths - {m.dealer};
    } else {
      assert lengths' - {m.dealer} == lengths;
    }
  }

  lemma ValidationShape(g: PrimeGroup, s: System, id: string, m: Message, sendOk: bool)
    requires Enabled(g, s, Deliver(id, m, sendOk)) && m.ShareValidation? && s.handled.Keys == s.nodes.Keys
    ensures Local(s, Apply(g, s, Deliver(id, m, sendOk)), id, {})
  {
    var s' := Apply(g, s, Deliver(id, m, sendOk));
    assert Handle(g, s.nodes[id], m, sendOk).sent == None;
    assert s'.network == s.network + {};
  }

  lemma ValidationHandled(g: PrimeGroup, v: NodeState, m: Message, sendOk: bool)
    requires m.ShareValidation?
    ensures var h := Handle(g, v, m, sendOk);
            && h.state == AfterValidation(v, m)
            && (h.groupKey.Some? ==> Complete(h.state) && h.groupKey.value == GroupKey(g, h.state.shares))
  {
  }

  lemma ValidationNode(g: PrimeGroup, s: System, s': System, id: string, m: Message, h: Handled)
    requires id in s.nodes && id in s.handled && NodeInv(g, s, id) && Extends(s, s') && m.ShareValidation?
    requires h.state == AfterValidation(s.nodes[id], m)
    requires h.groupKey.Some? ==> Complete(h.state) && h.groupKey.value == GroupKey(g, h.state.shares)
    requires s'.nodes[id] == h.state && s'.handled == HandledAfter(s.handled, id, m)
    requires s'.keys == KeysAfter(s.keys, id, h)
    ensures NodeInv(g, s', id)
  {
    var v := s.nodes[id];
    ValidationCounted(v, m);
    StoredExtends(g, s, s', v);
    assert StoredInv(g, s', h.state);
    if id in s.keys {
      StoredExtends(g, s, s', s.keys[id].0);
    }
  }

  lemma DeliverValidationKeeps(g: PrimeGroup, s: System, id: string, m: Message, sendOk: bool)
    requires SystemInv(g, s) && Enabled(g, s, Deliver(id, m, sendOk)) && m.ShareValidation?
    ensures SystemInv(g, Apply(g, s, Deliver(id, m, sendOk)))
  {
    var s' := Apply(g, s, Deliver(id, m, sendOk));
    StepExtends(g, s, Deliver(id, m, sendOk));
    ValidationShape(g, s, id, m, sendOk);
    ValidationHandled(g, s.nodes[id], m, sendOk);
    assert NodeInv(g, s, id);
    ValidationNode(g, s, s', id, m, Handle(g, s.nodes[id], m, sendOk));
    LocalStep(g, s, s', id, {});
  }

  lemma StepKeeps(g: PrimeGroup, s: System, step: Step)
    requires SystemInv(g, s) && Enabled(g, s, step)
    ensures SystemInv(g, Apply(g, s, step))
  {
    match step
    case Start(id, c, sendOk) => StartKeeps(g, s, id, c, sendOk);
    case Outside(m) => OutsideKeeps(g, s, m);
    case Deliver(id, m, sendOk) =>
      if m.ShareDistribution? {
        DeliverDistributionKeeps(g, s, id, m, sendOk);
      } else {
        DeliverValidationKeeps(g, s, id, m, sendOk);
      }
  }

  lemma {:induction false} RunInvariant(g: PrimeGroup, steps: seq<Step>, states: seq<System>, k: nat)
    requires Run(g, steps, states) && k < |states|
    ensures SystemInv(g, states[k])
  {
    if k == 0 {
      InitialInv(g, states[0]);
    } else {
      RunInvariant(g, steps, states, k - 1);
      assert StepAt(g, steps, states, k - 1);
      StepKeeps(g, states[k - 1], steps[k - 1]);
    }
  }

  lemma NodeInvariant(g: PrimeGroup, steps: seq<Step>, states: seq<System>, k: nat, r: string)
    requires Run(g, steps, states) && k < |states| && r in states[k].nodes
    ensures r in states[k].handled && NodeInv(g, states[k], r)
  {
    RunInvariant(g, steps, states, k);
    assert NodeInv(g, states[k], r);
  }
}
