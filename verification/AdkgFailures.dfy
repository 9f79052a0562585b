/**
 Runs in which the key generation fails its caller: completion with too few ackers, keys that do
 not belong together, nodes that cannot reconstruct the key they hold, and a panic.
 */
module AdkgFailures {
  import opened Wrappers
  import opened PrimeField
  import opened Polynomials
  import opened Interpolation
  import opened CyclicGroup
  import opened Feldman
  import opened MapSums
  import opened AdkgNode
  import opened AdkgRuns
  import opened AdkgTheorems
  import opened AdkgCompletion

  // ---------- one node and an outsider ----------

  lemma {:induction false} LongerId(ids: set<string>) returns (x: string)
    ensures forall y :: y in ids ==> |y| < |x|
  {
    if ids == {} {
      x := "";
    } else {
      var y :| y in ids;
      var z := LongerId(ids - {y});
      x := if |y| < |z| then z else y + "x";
    }
  }

  /** Outsiders can publish a valid ack for any node. */
  lemma OutsiderAcks(g: PrimeGroup, steps: seq<Step>, states: seq<System>, x: string, r: string)
      returns (m: Message, states': seq<System>)
    requires Run(g, steps, states) && x !in Last(states).nodes
    ensures m == ShareAck(x, r, true)
    ensures Run(g, steps + [Outside(m)], states') && states <= states'
    ensures Last(states') == Last(states).(network := Last(states).network + {m})
  {
    m := ShareAck(x, r, true);
    RunExtends(g, steps, states, Outside(m));
    states' := states + [Apply(g, Last(states), Outside(m))];
  }

  lemma OneDealable(p: Modulus, t: U64)
    ensures Dealable(p, t, One(t))
  {
  }

  ghost predicate NoShares(s: System) {
    forall a :: a in s.nodes ==> s.nodes[a].shares == map[]
  }

  lemma StartOne(g: PrimeGroup, s: System, r: string) returns (states: seq<System>)
    requires Initial(s) && r in s.nodes
    ensures Run(g, [Start(r, One(s.nodes[r].t))], states) && states[0] == s
    ensures var s' := Last(states);
            && s'.nodes.Keys == s.nodes.Keys && s'.polys == map[r := One(s.nodes[r].t)]
            && s'.nodes[r] == Started(g, s.nodes[r], One(s.nodes[r].t)) && NoShares(s')
  {
    var step := Start(r, One(s.nodes[r].t));
    OneDealable(g.order, s.nodes[r].t);
    assert Run(g, [], [s]);
    RunExtends(g, [], [s], step);
    states := [s, Apply(g, s, step)];
    assert [s] + [Apply(g, s, step)] == states && [] + [step] == [step];
  }

  // ---------- too few ackers ----------

  ghost predicate AcksSuffice(v: NodeState) {
    v.secretKeyShare.Some? ==> ValidAcks(v.acks) >= v.t
  }

  lemma CheckedSuffices(g: PrimeGroup, v: NodeState)
    requires AcksSuffice(v)
    ensures AcksSuffice(Checked(g, v).0)
  {
    CheckStores(g, v);
  }

  lemma HandledSuffices(g: PrimeGroup, v: NodeState, m: Message, publishOk: bool)
    requires AcksSuffice(v)
    ensures AcksSuffice(Handle(g, v, m, publishOk).state)
  {
    if m.ShareAck? {
      var v' := v.(acks := AddAck(v.acks, m.senderId, m.valid));
      AddAckCount(v.acks, m.senderId, m.valid);
      CheckedSuffices(g, v');
      assert AfterAck(g, v, m).0 == if m.receiverId == v.id then Checked(g, v').0 else v;
    }
  }

  /** A completed node has recorded as many valid acks as its threshold. */
  lemma {:induction false} CompletedHasAcks(g: PrimeGroup, steps: seq<Step>, states: seq<System>, k: nat, r: string)
    requires OpenRun(g, steps, states) && k < |states| && r in states[k].nodes
    ensures AcksSuffice(states[k].nodes[r])
  {
    if k > 0 {
      assert OpenStepAt(g, steps, states, k - 1);
      var s, step := states[k - 1], steps[k - 1];
      CompletedHasAcks(g, steps, states, k - 1, r);
      if step.Deliver? && step.id == r {
        HandledSuffices(g, s.nodes[r], step.m, step.publishOk);
      }
    }
  }

  ghost predicate Completed(s: System, r: string) {
    r in s.nodes && s.nodes[r].secretKeyShare.Some?
  }

  /** In every run from s0, r completes only with as many distinct valid ackers as its threshold. */
  ghost predicate AlwaysEnoughAckers(g: PrimeGroup, s0: System, r: string) {
    forall steps, states :: Run(g, steps, states) && states[0] == s0 && Completed(Last(states), r) ==>
      |ValidAckers(Last(states).nodes[r].acks)| >= Last(states).nodes[r].t
  }

  /** The ack rule guarantees as many ackers as the threshold exactly for thresholds up to one. */
  lemma DistinctAckersIff(g: PrimeGroup, s0: System, r: string)
    requires Initial(s0) && r in s0.nodes
    ensures AlwaysEnoughAckers(g, s0, r) <==> s0.nodes[r].t <= 1
  {
    if s0.nodes[r].t <= 1 {
      forall steps, states | Run(g, steps, states) && states[0] == s0 && Completed(Last(states), r)
        ensures |ValidAckers(Last(states).nodes[r].acks)| >= Last(states).nodes[r].t
      {
        EnoughAckers(g, steps, states, r);
      }
    } else {
      var steps, states := OneAcker(g, s0, r);
      assert Completed(Last(states), r);
    }
  }

  lemma EnoughAckers(g: PrimeGroup, steps: seq<Step>, states: seq<System>, r: string)
    requires Run(g, steps, states) && r in states[0].nodes && states[0].nodes[r].t <= 1
    requires Completed(Last(states), r)
    ensures |ValidAckers(Last(states).nodes[r].acks)| >= Last(states).nodes[r].t
  {
    RunMonotone(g, steps, states, 0, |states| - 1);
    assert NodeExtends(states[0].nodes[r], Last(states).nodes[r]);
    RunIsOpen(g, steps, states);
    CompletedHasAcks(g, steps, states, |states| - 1, r);
    if ValidAckers(Last(states).nodes[r].acks) == {} {
      NoAckersNoAcks(Last(states).nodes[r].acks);
    }
  }

  lemma NoSharesLater(s: System, s': System, r: string, n: nat)
    requires NoShares(s) && AcksCounted(s, s', r, n)
    ensures NoShares(s')
  {
  }

  /** r has just started, and an outsider x has acked its dealing. */
  lemma StartAcked(g: PrimeGroup, s0: System, r: string)
      returns (steps: seq<Step>, states: seq<System>, x: string, m: Message)
    requires Initial(s0) && r in s0.nodes
    ensures Run(g, steps, states) && states[0] == s0 && x !in s0.nodes && m == ShareAck(x, r, true)
    ensures var s := Last(states);
            && s.nodes.Keys == s0.nodes.Keys && NoShares(s) && r in s.polys && m in s.network
            && s.nodes[r].t == s0.nodes[r].t && s.nodes[r].acks == map[]
  {
    var start := Start(r, One(s0.nodes[r].t));
    var states1 := StartOne(g, s0, r);
    x := LongerId(s0.nodes.Keys);
    m, states := OutsiderAcks(g, [start], states1, x, r);
    steps := [start] + [Outside(m)];
  }

  /** From its start on, one outsider's ack can complete any node, with no share held anywhere. */
  lemma OneAcker(g: PrimeGroup, s0: System, r: string) returns (steps: seq<Step>, states: seq<System>)
    requires Initial(s0) && r in s0.nodes
    ensures Run(g, steps, states) && states[0] == s0
    ensures Completed(Last(states), r) && |ValidAckers(Last(states).nodes[r].acks)| == 1
    ensures ValidAckers(Last(states).nodes[r].acks) !! s0.nodes.Keys
    ensures NoShares(Last(states)) && Last(states).nodes[r].t == s0.nodes[r].t
  {
    var steps1, states1, x, m := StartAcked(g, s0, r);
    var replay;
    replay, states := ReplayCompletes(g, steps1, states1, r, m);
    steps := steps1 + replay;
    NoSharesLater(Last(states1), Last(states), r, |replay|);
    assert ValidAckers(Last(states).nodes[r].acks) == {x};
  }

  /** In every run from s0, r completes only with as many valid ackers among the nodes. */
  ghost predicate AlwaysEnoughNodeAckers(g: PrimeGroup, s0: System, r: string) {
    forall steps, states :: Run(g, steps, states) && states[0] == s0 && Completed(Last(states), r) ==>
      |ValidAckers(Last(states).nodes[r].acks) * s0.nodes.Keys| >= Last(states).nodes[r].t
  }

  /** The nodes that store a share of r's dealing. */
  ghost function Holders(s: System, r: string): set<string> {
    set a | a in s.nodes && r in s.nodes[a].shares
  }

  /** In every run from s0, r completes only once more nodes than its degree hold shares of its dealing. */
  ghost predicate AlwaysRecoverable(g: PrimeGroup, s0: System, r: string) {
    forall steps, states :: Run(g, steps, states) && states[0] == s0 && Completed(Last(states), r) ==>
      |Holders(Last(states), r)| >= Last(states).nodes[r].t + 1
  }

  /**
   Of nodes, which alone hold shares, the rule guarantees none: as many node ackers as the
   threshold exactly at threshold zero, and enough holders to recover the dealing never.
   */
  lemma NodeAckersIff(g: PrimeGroup, s0: System, r: string)
    requires Initial(s0) && r in s0.nodes
    ensures AlwaysEnoughNodeAckers(g, s0, r) <==> s0.nodes[r].t == 0
    ensures !AlwaysRecoverable(g, s0, r)
  {
    var steps, states := OneAcker(g, s0, r);
    assert Completed(Last(states), r);
    assert ValidAckers(Last(states).nodes[r].acks) * s0.nodes.Keys == {};
    assert Holders(Last(states), r) == {};
    if s0.nodes[r].t == 0 {
      forall steps, states | Run(g, steps, states) && states[0] == s0 && Completed(Last(states), r)
        ensures Last(states).nodes[r].t == 0
      {
        RunMonotone(g, steps, states, 0, |states| - 1);
        assert NodeExtends(s0.nodes[r], Last(states).nodes[r]);
      }
    }
  }

  // ---------- keys that do not belong together ----------

  /**
   r has completed over f, the joint polynomial of `commitments`, without its own dealing: its
   public key is that of f, and its secret share is on f only if its own dealing is zero there.
   */
  ghost predicate ShortByOwn(g: PrimeGroup, s: System, r: string, commitments: map<string, seq<Point>>)
    requires r in s.nodes && r in s.polys && forall d :: d in commitments ==> Contained(g, commitments[d])
  {
    var v, f := s.nodes[r], JointPoly(CommittedPolys(g, commitments));
    && v.publicKey == Some(g.Exp(Eval(f, 0)))
    && v.secretKeyShare == Some((Eval(f, v.idx) - Eval(s.polys[r], v.idx)) % g.order)
    && (v.secretKeyShare == Some(Eval(f, v.idx) % g.order) <==> Eval(s.polys[r], v.idx) % g.order == 0)
  }

  /** From any run, a started node can complete over just what it has stored. */
  lemma CheckReachable(g: PrimeGroup, steps: seq<Step>, states: seq<System>, r: string)
      returns (steps': seq<Step>, states': seq<System>)
    requires Run(g, steps, states) && r in Last(states).nodes && r in Last(states).polys
    ensures Run(g, steps + steps', states') && states <= states' && Last(states').polys == Last(states).polys
    ensures var v, s' := Last(states).nodes[r], Last(states');
            && r in s'.nodes && r in s'.checks && s'.nodes[r].secretKeyShare.Some?
            && s'.checks[r].shares == v.shares && s'.checks[r].commitments == v.commitments
  {
    var x := LongerId(Last(states).nodes.Keys);
    var m, states1 := OutsiderAcks(g, steps, states, x, r);
    var replay;
    replay, states' := ReplayCompletes(g, steps + [Outside(m)], states1, r, m);
    steps' := [Outside(m)] + replay;
    assert steps + steps' == steps + [Outside(m)] + replay;
  }

  /** If it lacks its own share, its keys then belong together only if its own dealing is zero. */
  lemma MismatchReachable(g: PrimeGroup, steps: seq<Step>, states: seq<System>, r: string)
      returns (steps': seq<Step>, states': seq<System>)
    requires Run(g, steps, states) && r in Last(states).nodes && r in Last(states).polys
    requires r !in Last(states).nodes[r].shares && AllNonEmpty(Last(states).nodes[r].commitments)
    ensures Run(g, steps + steps', states') && states <= states' && Last(states').polys == Last(states).polys
    ensures Completed(Last(states'), r)
    ensures var commitments := Last(states).nodes[r].commitments;
            && (forall d :: d in commitments ==> Contained(g, commitments[d]))
            && ShortByOwn(g, Last(states'), r, commitments)
  {
    steps', states' := CheckReachable(g, steps, states, r);
    RunIsOpen(g, steps + steps', states');
    LocalKeyConsistency(g, steps + steps', states', |states'| - 1, r);
    OwnDealingMissing(g, steps + steps', states', |states'| - 1, r);
  }

  /** In particular, every node can be led to keys that do not belong together. */
  lemma KeysDifferReachable(g: PrimeGroup, s0: System, r: string) returns (steps: seq<Step>, states: seq<System>)
    requires Initial(s0) && r in s0.nodes
    ensures Run(g, steps, states) && states[0] == s0 && Completed(Last(states), r)
    ensures Last(states).nodes[r].secretKeyShare == Some(0)
    ensures Last(states).nodes[r].publicKey == Some(g.Exp(1)) && g.Exp(1) != g.Exp(0)
  {
    var c := One(s0.nodes[r].t);
    var states1 := StartOne(g, s0, r);
    var rest;
    rest, states := MismatchReachable(g, [Start(r, c)], states1, r);
    steps := [Start(r, c)] + rest;
    var commitments := Last(states1).nodes[r].commitments;
    OneDealable(g.order, s0.nodes[r].t);
    CommittedCommit(g, c);
    var polys := CommittedPolys(g, commitments);
    assert polys == map[r := c];
    forall y: int
      ensures Eval(JointPoly(polys), y) == 1
    {
      SoleValue(r, c, y);
      EvalOne(s0.nodes[r].t, y);
    }
    EvalOne(s0.nodes[r].t, s0.nodes[r].idx);
    ModSmall(g.order, 0);
    ModSmall(g.order, 1);
    ExpInjective(g, 1, 0);
    RunMonotone(g, steps, states, 0, |states| - 1);
    assert NodeExtends(s0.nodes[r], Last(states).nodes[r]);
  }

  lemma SoleValue(r: string, c: Poly, x: int)
    ensures Eval(JointPoly(map[r := c]), x) == Eval(c, x)
  {
    var polys := map[r := c];
    JointEval(polys, x);
    IntSumRemove(Values(polys, x), r);
    assert Values(polys, x) - {r} == map[];
  }

  // ---------- nodes that cannot reconstruct the key they hold ----------

  /** From s0 to s the nodes in `ids`, and they alone, have started; no share has arrived anywhere. */
  ghost predicate StartedOnly(s0: System, s: System, ids: set<string>) {
    && s.nodes.Keys == s0.nodes.Keys && s.polys.Keys == ids
    && (forall r :: r in s0.nodes ==> r in s.nodes && SameParameters(s0.nodes[r], s.nodes[r]))
    && forall d :: d in s.polys && d in s0.nodes ==> s.polys[d] == One(s0.nodes[d].t)
  }

  predicate SameParameters(v: NodeState, v': NodeState) {
    v'.id == v.id && v'.idx == v.idx && v'.n == v.n && v'.t == v.t && v'.shares == v.shares
  }

  predicate Starts(steps: seq<Step>) {
    forall i :: 0 <= i < |steps| ==> steps[i].Start?
  }

  lemma StartedOneMore(g: PrimeGroup, s0: System, s: System, ids: set<string>, d: string)
    requires StartedOnly(s0, s, ids) && d in s0.nodes
    requires Enabled(g, s, Start(d, One(s0.nodes[d].t)))
    ensures StartedOnly(s0, Apply(g, s, Start(d, One(s0.nodes[d].t))), ids + {d})
  {
  }

  lemma StartNext(g: PrimeGroup, s0: System, steps: seq<Step>, states: seq<System>, ids: set<string>, d: string)
      returns (steps': seq<Step>, states': seq<System>)
    requires Run(g, steps, states) && StartedOnly(s0, Last(states), ids) && Starts(steps)
    requires d in s0.nodes && d !in ids
    ensures Run(g, steps', states') && states <= states' && Starts(steps')
    ensures StartedOnly(s0, Last(states'), ids + {d})
  {
    var step := Start(d, One(s0.nodes[d].t));
    OneDealable(g.order, s0.nodes[d].t);
    assert SameParameters(s0.nodes[d], Last(states).nodes[d]);
    RunExtends(g, steps, states, step);
    steps', states' := steps + [step], states + [Apply(g, Last(states), step)];
    StartedOneMore(g, s0, Last(states), ids, d);
  }

  lemma NoneStarted(g: PrimeGroup, s0: System)
    requires Initial(s0)
    ensures Run(g, [], [s0]) && StartedOnly(s0, s0, {})
  {
  }

  lemma {:induction false} StartAll(g: PrimeGroup, s0: System, ids: set<string>)
      returns (steps: seq<Step>, states: seq<System>)
    requires Initial(s0) && ids <= s0.nodes.Keys
    ensures Run(g, steps, states) && states[0] == s0 && Starts(steps)
    ensures StartedOnly(s0, Last(states), ids)
  {
    if ids == {} {
      steps, states := [], [s0];
      NoneStarted(g, s0);
    } else {
      var d :| d in ids;
      var steps1, states1 := StartAll(g, s0, ids - {d});
      steps, states := StartNext(g, s0, steps1, states1, ids - {d}, d);
      PutBack(ids, d);
    }
  }

  lemma ConfiguredLater(s0: System, s: System)
    requires StartedOnly(s0, s, s0.nodes.Keys)
    requires Configured(s0, false) && Distinguished(s0)
    ensures AllStarted(s, false) && Distinguished(s)
  {
    assert |s.nodes| == |s.nodes.Keys| == |s0.nodes.Keys| == |s0.nodes|;
    forall r, d | r in s.nodes && d in s.nodes && Reaches(false, d, r)
      ensures InRange(s, r, d)
    {
      assert InRange(s0, r, d);
    }
    forall r | r in s.nodes
      ensures ThresholdUpTo(s, r, |s.nodes| - 1)
    {
      assert ThresholdUpTo(s0, r, |s0.nodes| - 1);
    }
    forall a, b | a in s.nodes && b in s.nodes && a != b
      ensures Apart(s, a, b)
    {
      assert Apart(s0, a, b);
    }
  }

  /** Some node dealt 1 everywhere and lacks it: what is missing reconstructs 1, not 0. */
  lemma OnesMissing(g: PrimeGroup, s: System, nodes: seq<string>)
    requires nodes != [] && DistinctIdx(s, nodes)
    requires forall k :: 0 <= k < |nodes| ==>
               && nodes[k] in s.nodes && nodes[k] in s.polys
               && s.polys[nodes[k]] == One(s.nodes[nodes[k]].t)
    ensures Reconstruct(g.order, OwnDealings(s, nodes)) == 1
  {
    var p, shares := g.order, OwnDealings(s, nodes);
    forall k | 0 <= k < |shares|
      ensures shares[k].1 == Eval([1], shares[k].0) % p
    {
      EvalOne(s.nodes[nodes[k]].t, s.nodes[nodes[k]].idx);
      ModSmall(p, 1);
      assert Eval([1], shares[k].0) == 1 + shares[k].0 * Eval([], shares[k].0);
    }
    forall i, j | 0 <= i < j < |shares|
      ensures shares[i].0 != shares[j].0
    {
      assert s.nodes[nodes[i]].idx != s.nodes[nodes[j]].idx;
    }
    JointSecret(p, [1], shares);
    EvalAtZero([1]);
    ModSmall(p, 1);
  }

  /** Nodes start and messages are delivered, but none from outside and none to its own sender. */
  predicate Ordinary(steps: seq<Step>) {
    forall i :: 0 <= i < |steps| ==> steps[i].Start? || (steps[i].Deliver? && steps[i].m.senderId != steps[i].id)
  }

  /** Every node has completed, and none holds the public key of what all shares reconstruct. */
  ghost predicate Disagree(g: PrimeGroup, s: System, nodes: seq<string>) {
    && Lists(s, nodes) && DistinctIdx(s, nodes)
    && (forall k :: 0 <= k < |nodes| ==> s.nodes[nodes[k]].secretKeyShare.Some? && s.nodes[nodes[k]].publicKey.Some?)
    && forall k :: 0 <= k < |nodes| ==>
         s.nodes[nodes[k]].publicKey != Some(g.Exp(Reconstruct(g.order, SecretShares(s, nodes))))
  }

  lemma NoneFits(g: PrimeGroup, s: System, nodes: seq<string>, secret: int)
    requires Lists(s, nodes) && DistinctIdx(s, nodes) && Done(g, s, nodes)
    requires AgreeUpToMissing(g, s, nodes, secret)
    requires Reconstruct(g.order, MissingShares(g, s, nodes)) != 0
    ensures Disagree(g, s, nodes)
  {
    var shared := g.Exp(Reconstruct(g.order, SecretShares(s, nodes)));
    if shared == g.Exp(secret) {
      assert KeysFit(g, s, nodes);
    }
  }

  lemma AllOnesStarted(g: PrimeGroup, s0: System)
      returns (starts: seq<Step>, states: seq<System>)
    requires Initial(s0) && Configured(s0, false) && Distinguished(s0)
    ensures Run(g, starts, states) && states[0] == s0 && Starts(starts) && StartedOnly(s0, Last(states), s0.nodes.Keys)
    ensures AllStarted(Last(states), false) && Distinguished(Last(states))
    ensures Within(Last(states), Last(states).nodes.Keys, false)
  {
    starts, states := StartAll(g, s0, s0.nodes.Keys);
    ConfiguredLater(s0, Last(states));
  }

  lemma StartsThenDelivers(starts: seq<Step>, plan: seq<Step>)
    requires Starts(starts) && Delivers(plan, false)
    ensures Ordinary(starts + plan)
  {
  }

  /**
   Where nothing loops back, agreement can fail with honest nodes and full delivery: wherever at
   least two nodes, more than any threshold, deal for each other's distinct indices, ordinary
   steps alone lead to a disagreement of all.
   */
  lemma DisagreementReachable(g: PrimeGroup, s0: System)
      returns (steps: seq<Step>, states: seq<System>, nodes: seq<string>)
    requires Initial(s0) && Configured(s0, false) && Distinguished(s0)
    ensures Run(g, steps, states) && states[0] == s0 && Ordinary(steps)
    ensures Last(states).nodes.Keys == s0.nodes.Keys && Disagree(g, Last(states), nodes)
  {
    var starts, states1 := AllOnesStarted(g, s0);
    var plan;
    plan, states, nodes := CompletionWithoutLoopback(g, starts, states1);
    steps := starts + plan;
    StartsThenDelivers(starts, plan);
    OnesAreMissing(g, s0, states1, steps, states, nodes);
    NoneFits(g, Last(states), nodes, IntSum(Secrets(Last(states).polys, Last(states).polys.Keys)));
  }

  lemma OnesAreMissing(g: PrimeGroup, s0: System, states1: seq<System>, steps: seq<Step>, states: seq<System>,
        nodes: seq<string>)
    requires states1 != [] && StartedOnly(s0, Last(states1), s0.nodes.Keys)
    requires Run(g, steps, states) && states1 <= states
    requires Last(states).polys == Last(states1).polys && nodes != [] && DistinctIdx(Last(states), nodes)
    requires forall k :: 0 <= k < |nodes| ==> nodes[k] in Last(states).nodes && nodes[k] in Last(states).polys
    ensures Reconstruct(g.order, OwnDealings(Last(states), nodes)) == 1
  {
    var s := Last(states);
    PrefixExtends(g, states1, steps, states);
    forall k | 0 <= k < |nodes|
      ensures s.polys[nodes[k]] == One(s.nodes[nodes[k]].t)
    {
      assert NodeExtends(Last(states1).nodes[nodes[k]], s.nodes[nodes[k]]);
    }
    OnesMissing(g, s, nodes);
  }

  // ---------- a panic ----------

  /** A proposal that any node with an index up to the number of its zero shares accepts. */
  function VoidProposal(x: string, n: nat): Message {
    ShareProposal(x, Zeros(n), [])
  }

  lemma VoidStored(g: PrimeGroup, v: NodeState, x: string)
    requires v.idx >= 1
    ensures var v' := AfterProposal(g, v, VoidProposal(x, v.idx));
            v' == v.(shares := v.shares[x := 0], commitments := v.commitments[x := []])
  {
    EmptyCommitments(g, v.idx, Zeros(v.idx));
    ModSmall(g.order, 0);
  }

  lemma OutsiderVoid(g: PrimeGroup, steps: seq<Step>, states: seq<System>, x: string, r: string)
      returns (steps': seq<Step>, states': seq<System>)
    requires Run(g, steps, states) && x !in Last(states).nodes
    requires r in Last(states).nodes && r in Last(states).polys && Last(states).nodes[r].idx >= 1
    ensures Run(g, steps + steps', states') && states <= states'
    ensures var s, s' := Last(states), Last(states');
            && s'.nodes.Keys == s.nodes.Keys && s'.polys == s.polys
            && x in s'.nodes[r].commitments && s'.nodes[r].commitments[x] == []
  {
    var s, m := Last(states), VoidProposal(x, Last(states).nodes[r].idx);
    VoidStored(g, s.nodes[r], x);
    RunExtends(g, steps, states, Outside(m));
    var states1 := states + [Apply(g, s, Outside(m))];
    var step := Deliver(r, m, true);
    RunExtends(g, steps + [Outside(m)], states1, step);
    states' := states1 + [Apply(g, Last(states1), step)];
    steps' := [Outside(m), step];
    assert steps + [Outside(m)] + [step] == steps + steps';
  }

  /** Acks are delivered until the next one fires the check. */
  lemma AcksButOne(g: PrimeGroup, steps: seq<Step>, states: seq<System>, r: string, m: Message)
      returns (plan: seq<Step>, states': seq<System>)
    requires Run(g, steps, states) && r in Last(states).nodes && r in Last(states).polys
    requires m in Last(states).network && m.ShareAck? && m.receiverId == r && m.valid
    ensures Run(g, steps + plan, states') && states <= states'
    ensures AcksCounted(Last(states), Last(states'), r, AcksLeft(Last(states).nodes[r]) - 1)
  {
    var acks := seq(AcksLeft(Last(states).nodes[r]) - 1, i => m);
    NodeInvariant(g, steps, states, |states| - 1, r);
    plan := DeliverEach(r, acks);
    states' := DeliverAcks(g, steps, states, r, acks);
  }

  /** From any run, an outsider's empty vector can make any started node with an index panic. */
  lemma PanicReachable(g: PrimeGroup, steps: seq<Step>, states: seq<System>, r: string)
      returns (steps': seq<Step>, states': seq<System>, m: Message)
    requires Run(g, steps, states)
    requires r in Last(states).nodes && r in Last(states).polys && Last(states).nodes[r].idx >= 1
    ensures Run(g, steps + steps', states') && states <= states'
    ensures Enabled(g, Last(states'), Deliver(r, m, true))
    ensures Handle(g, Last(states').nodes[r], m, true).outcome == Panicked
  {
    var x := LongerId(Last(states).nodes.Keys);
    var steps1, states1 := OutsiderVoid(g, steps, states, x, r);
    var states2, plan;
    m, states2 := OutsiderAcks(g, steps + steps1, states1, x, r);
    plan, states' := AcksButOne(g, steps + steps1 + [Outside(m)], states2, r, m);
    steps' := steps1 + [Outside(m)] + plan;
    assert steps + steps1 + [Outside(m)] + plan == steps + steps';
    NodeInvariant(g, steps + steps', states', |states'| - 1, r);
    PanicNext(g, Last(states').nodes[r], x, m);
  }

  lemma PanicNext(g: PrimeGroup, v: NodeState, x: string, m: Message)
    requires x in v.commitments && v.commitments[x] == []
    requires m == ShareAck(x, v.id, true) && ValidAcks(v.acks) + 1 >= v.t
    ensures Handle(g, v, m, true).outcome == Panicked
  {
    AddAckCount(v.acks, x, true);
    PanicIff(g, v, m, true);
  }
}
