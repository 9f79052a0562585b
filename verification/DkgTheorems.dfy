/** What whole runs of the live key generation guarantee. */
module DkgTheorems {
  import opened Wrappers
  import opened PrimeField
  import opened Polynomials
  import opened Interpolation
  import opened CyclicGroup
  import opened Feldman
  import opened MapSums
  import opened DkgNode
  import opened DkgRuns

  /** Every share of a dealing satisfies the Feldman equation for the dealt commitments. */
  lemma DealingVerifies(g: PrimeGroup, c: Poly, n: U64, share: KeyShare)
    requires share in Deal(g.order, c, n)
    ensures 1 <= share.index <= n && Accepts(g, Commit(g, c), share.index, share.value)
  {
    var i :| 0 <= i < n && Deal(g.order, c, n)[i] == share;
    AcceptsIff(g, c, share.index, share.value);
    ModSmall(g.order, share.value);
  }

  /** A distribution is stored, as the exact evaluation, at exactly the indices it was dealt for. */
  lemma SelectedShare(g: PrimeGroup, v: NodeState, dealer: NodeState, c: Poly)
    ensures var i, v' := IndexOf(v.id), AfterDistribution(v, DistributionOf(g, dealer, c));
            if 1 <= i <= dealer.totalNodes
            then v' == v.(shares := v.shares[dealer.id := KeyShare(i, Eval(c, i) % g.order)],
                          commitments := v.commitments[dealer.id := Commit(g, c)])
            else v' == v
  {
    FindInDealing(g.order, c, dealer.totalNodes, IndexOf(v.id));
  }

  /** In every run, whatever a node stores under a dealer is one of its dealings at the node's index. */
  lemma StoredSharesExact(g: PrimeGroup, steps: seq<Step>, states: seq<System>, k: nat, r: string, d: string)
      returns (c: Poly)
    requires Run(g, steps, states) && k < |states| && r in states[k].nodes && d in states[k].nodes[r].shares
    ensures (d, c) in states[k].dealings && d in states[k].nodes[r].commitments
    ensures states[k].nodes[r].commitments[d] == Commit(g, c)
    ensures states[k].nodes[r].shares[d] == KeyShare(IndexOf(r), Eval(c, IndexOf(r)) % g.order)
    ensures Accepts(g, Commit(g, c), IndexOf(r), states[k].nodes[r].shares[d].value)
  {
    NodeInvariant(g, steps, states, k, r);
    var v := states[k].nodes[r];
    assert Dealt(g, states[k], d, v.commitments[d]);
    c := Committed(g, v.commitments[d]);
    CommitCommitted(g, v.commitments[d]);
    AcceptsIff(g, c, IndexOf(r), v.shares[d].value);
    ModSmall(g.order, v.shares[d].value);
  }

  /** The distribution of dealer d most recently delivered to r. */
  ghost function LatestFrom(steps: seq<Step>, r: string, d: string): Option<Message> {
    if steps == [] then None
    else
      var step := Last(steps);
      if DeliversFrom(step, r, d) then Some(step.m) else LatestFrom(Init(steps), r, d)
  }

  ghost predicate DealsFor(s: System, d: string, r: string) {
    d in s.nodes && 1 <= IndexOf(r) <= s.nodes[d].totalNodes
  }

  /** What r stores under d is what the given distribution of d carries for it. */
  ghost predicate StoresFrom(v: NodeState, d: string, m: Message)
    requires m.ShareDistribution?
  {
    && d in v.shares && Find(m.shares, IndexOf(v.id)) == Some(v.shares[d])
    && d in v.commitments && v.commitments[d] == m.commitments
  }

  /** v stores what `latest` carries for it, provided that d deals for v at all. */
  ghost predicate StoresLatest(deals: bool, v: NodeState, d: string, latest: Option<Message>) {
    match latest
    case None => d !in v.shares
    case Some(m) =>
      m.ShareDistribution? && if deals then StoresFrom(v, d, m) else d !in v.shares
  }

  lemma DeliveredStored(g: PrimeGroup, s: System, v: NodeState, m: Message)
    requires m.ShareDistribution? && MessageInv(g, s, m)
    ensures var v' := AfterDistribution(v, m);
            if DealsFor(s, m.sender, v.id) then StoresFrom(v', m.sender, m) else v' == v
  {
    FindInDealing(g.order, Committed(g, m.commitments), s.nodes[m.sender].totalNodes, IndexOf(v.id));
  }

  lemma HandleStoresLatest(g: PrimeGroup, s: System, v: NodeState, m: Message, sendOk: bool, d: string,
        latest: Option<Message>)
    requires MessageInv(g, s, m) && StoresLatest(DealsFor(s, d, v.id), v, d, latest)
    ensures StoresLatest(DealsFor(s, d, v.id), Handle(g, v, m, sendOk).state, d,
              if m.ShareDistribution? && m.sender == d then Some(m) else latest)
  {
    if m.ShareDistribution? {
      DeliveredStored(g, s, v, m);
      assert Handle(g, v, m, sendOk).state == AfterDistribution(v, m);
    } else {
      assert Handle(g, v, m, sendOk).state == AfterValidation(v, m);
    }
  }

  ghost predicate DeliversFrom(step: Step, r: string, d: string) {
    step.Deliver? && step.id == r && step.m.ShareDistribution? && step.m.sender == d
  }

  lemma StepStoresLatest(g: PrimeGroup, s: System, step: Step, r: string, d: string, latest: Option<Message>)
    requires SystemInv(g, s) && Enabled(g, s, step) && r in s.nodes
    requires StoresLatest(DealsFor(s, d, r), s.nodes[r], d, latest)
    ensures r in Apply(g, s, step).nodes
    ensures StoresLatest(DealsFor(s, d, r), Apply(g, s, step).nodes[r], d,
              if DeliversFrom(step, r, d) then Some(step.m) else latest)
  {
    assert NodeInv(g, s, r);
    if step.Deliver? && step.id == r {
      assert MessageInv(g, s, step.m);
      HandleStoresLatest(g, s, s.nodes[r], step.m, step.sendOk, d, latest);
    } else {
      assert Apply(g, s, step).nodes[r] == s.nodes[r].(status := Apply(g, s, step).nodes[r].status);
    }
  }

  /**
   In every run a node stores, of each dealer, the distribution most recently delivered to it,
   and of exactly those dealers whose distributions were delivered and cover its index.
   */
  lemma {:induction false} LatestDistributionStored(g: PrimeGroup, steps: seq<Step>, states: seq<System>, k: nat,
        r: string, d: string)
    requires Run(g, steps, states) && k < |states| && r in states[k].nodes
    ensures StoresLatest(DealsFor(states[k], d, r), states[k].nodes[r], d, LatestFrom(steps[..k], r, d))
  {
    if k > 0 {
      assert StepAt(g, steps, states, k - 1);
      StepExtends(g, states[k - 1], steps[k - 1]);
      RunInvariant(g, steps, states, k - 1);
      LatestDistributionStored(g, steps, states, k - 1, r, d);
      StepStoresLatest(g, states[k - 1], steps[k - 1], r, d, LatestFrom(steps[..k - 1], r, d));
      assert Init(steps[..k]) == steps[..k - 1] && Last(steps[..k]) == steps[k - 1];
    }
  }

  /** No dealer deals for the index the node looks for. */
  ghost predicate Unindexed(s: System, r: string) {
    forall d :: d in s.nodes ==> !(1 <= IndexOf(r) <= s.nodes[d].totalNodes)
  }

  /**
   A node whose id gives no index in range stores nothing and answers no message with a
   validation; with a threshold of at least one it never computes a group key.
   */
  lemma UnindexedNodeIsIdle(g: PrimeGroup, steps: seq<Step>, states: seq<System>, k: nat, r: string)
    requires Run(g, steps, states) && k < |states| && r in states[k].nodes && Unindexed(states[k], r)
    ensures states[k].nodes[r].shares == map[] && states[k].nodes[r].commitments == map[]
    ensures forall m, sendOk :: m in states[k].network ==> Handle(g, states[k].nodes[r], m, sendOk).sent == None
    ensures states[k].nodes[r].threshold >= 1 ==> r !in states[k].keys
  {
    var s := states[k];
    RunInvariant(g, steps, states, k);
    NodeInvariant(g, steps, states, k, r);
    NothingStored(g, s, s.nodes[r]);
    forall m, sendOk | m in s.network
      ensures Handle(g, s.nodes[r], m, sendOk).sent == None
    {
      assert MessageInv(g, s, m);
      if m.ShareDistribution? {
        FindInDealing(g.order, Committed(g, m.commitments), s.nodes[m.sender].totalNodes, IndexOf(r));
      }
    }
    if r in s.keys {
      NothingStored(g, s, s.keys[r].0);
    }
  }

  /** With ids that are not decimal, as peer ids are not, every node is such a node. */
  lemma PeerIdNodesAreIdle(g: PrimeGroup, steps: seq<Step>, states: seq<System>, k: nat, r: string, at: nat)
    requires Run(g, steps, states) && k < |states| && r in states[k].nodes
    requires at < |r| && !IsDigit(r[at]) && (at > 0 || r[0] != '+')
    requires forall d :: d in states[k].nodes ==> states[k].nodes[d].totalNodes < U64_MAX
    ensures states[k].nodes[r].shares == map[]
    ensures states[k].nodes[r].threshold >= 1 ==> r !in states[k].keys
  {
    OtherIdsDoNotParse(r, at);
    UnindexedNodeIsIdle(g, steps, states, k, r);
  }

  lemma NothingStored(g: PrimeGroup, s: System, v: NodeState)
    requires StoredInv(g, s, v) && Unindexed(s, v.id)
    ensures v.shares == map[] && v.commitments == map[]
  {
    assert v.shares.Keys <= s.nodes.Keys;
    assert forall d :: d in s.nodes ==> d !in v.shares;
    assert v.shares.Keys == {};
  }

  /** The validation lists hold one entry for each validation handled. */
  lemma ValidationsConserved(g: PrimeGroup, steps: seq<Step>, states: seq<System>, k: nat, r: string)
    requires Run(g, steps, states) && k < |states| && r in states[k].nodes
    ensures r in states[k].handled
    ensures IntSum(ListLengths(states[k].nodes[r].validations)) == states[k].handled[r]
  {
    NodeInvariant(g, steps, states, k, r);
  }

  ghost predicate Handles(step: Step, r: string) {
    step.Deliver? && step.id == r && step.m.ShareValidation?
  }

  ghost function HandledCount(steps: seq<Step>, r: string): int {
    if steps == [] then 0 else HandledCount(Init(steps), r) + if Handles(Last(steps), r) then 1 else 0
  }

  lemma StepKeepsNodes(g: PrimeGroup, s: System, step: Step)
    requires Enabled(g, s, step)
    ensures Apply(g, s, step).nodes.Keys == s.nodes.Keys
  {
    StepExtends(g, s, step);
  }

  lemma StepCounts(g: PrimeGroup, s: System, step: Step, r: string)
    requires Enabled(g, s, step) && r in s.handled
    ensures r in Apply(g, s, step).handled
    ensures Apply(g, s, step).handled[r] == s.handled[r] + if Handles(step, r) then 1 else 0
  {
  }

  /** The counter is the number of validations delivered to the node in the run so far. */
  lemma {:induction false} HandledIsDelivered(g: PrimeGroup, steps: seq<Step>, states: seq<System>, k: nat, r: string)
    requires Run(g, steps, states) && k < |states| && r in states[k].nodes
    ensures r in states[k].handled && states[k].handled[r] == HandledCount(steps[..k], r)
  {
    if k > 0 {
      assert StepAt(g, steps, states, k - 1);
      StepKeepsNodes(g, states[k - 1], steps[k - 1]);
      HandledIsDelivered(g, steps, states, k - 1, r);
      StepCounts(g, states[k - 1], steps[k - 1], r);
      assert Init(steps[..k]) == steps[..k - 1] && Last(steps[..k]) == steps[k - 1];
    }
  }

  /** A group key is only ever computed in a state where every list and the shares reach the threshold. */
  lemma GroupKeyGated(g: PrimeGroup, steps: seq<Step>, states: seq<System>, k: nat, r: string)
    requires Run(g, steps, states) && k < |states| && r in states[k].nodes && r in states[k].keys
    ensures var t, (c, key) := states[k].nodes[r].threshold, states[k].keys[r];
            && (forall d :: d in c.validations ==> |c.validations[d]| >= t)
            && |c.shares| >= t
            && key == GroupKey(g, c.shares)
  {
    NodeInvariant(g, steps, states, k, r);
  }

  /** Handling a validation computes the key of the stored shares exactly when both counts are reached. */
  lemma GroupKeyIff(g: PrimeGroup, steps: seq<Step>, states: seq<System>, k: nat, r: string)
    requires Run(g, steps, states) && k < |steps| && Handles(steps[k], r)
    ensures r in states[k + 1].nodes && r in states[k + 1].handled
    ensures var s, s', v := states[k], states[k + 1], states[k + 1].nodes[r];
            if (forall d :: d in v.validations ==> |v.validations[d]| >= v.threshold) && |v.shares| >= v.threshold
            then r in s'.keys && s'.keys[r] == (v, g.Exp(IntSum(ShareValues(v.shares))))
            else s'.keys == s.keys
  {
    assert StepAt(g, steps, states, k);
    var v := states[k].nodes[r];
    GroupKeyIsExp(g, AfterValidation(v, steps[k].m).shares);
  }

  // ---------- what the group key is ----------

  /** A group key is the joint polynomial of the stored dealings at the node's index, in the exponent. */
  lemma GroupKeyIsJointValue(g: PrimeGroup, s: System, c: NodeState)
    requires StoredInv(g, s, c)
    ensures AllNonEmpty(c.commitments) && forall d :: d in c.commitments ==> Contained(g, c.commitments[d])
    ensures GroupKey(g, c.shares) == g.Exp(Eval(JointPoly(CommittedPolys(g, c.commitments)), IndexOf(c.id)))
  {
    var p, i := g.order, IndexOf(c.id);
    assert forall d :: d in c.commitments ==> Dealt(g, s, d, c.commitments[d]);
    var polys := CommittedPolys(g, c.commitments);
    forall d | d in c.shares
      ensures Cong(p, ShareValues(c.shares)[d], Values(polys, i)[d])
    {
      CongMod(p, Eval(polys[d], i));
    }
    GroupKeyIsExp(g, c.shares);
    IntSumCong(p, ShareValues(c.shares), Values(polys, i));
    ExpCong(g, IntSum(ShareValues(c.shares)), IntSum(Values(polys, i)));
    JointEval(polys, i);
  }

  ghost function KeyPoints(s: System, nodes: seq<string>): (points: seq<IndexedPoint>)
    requires forall k :: 0 <= k < |nodes| ==> nodes[k] in s.keys
    ensures |points| == |nodes|
    ensures forall k :: 0 <= k < |nodes| ==> points[k] == (IndexOf(nodes[k]), s.keys[nodes[k]].1)
  {
    seq(|nodes|, k requires 0 <= k < |nodes| => (IndexOf(nodes[k]), s.keys[nodes[k]].1))
  }

  /** r stored everything in `all`, or everything but its own entry, as no node gets its own broadcast. */
  predicate UpToOwn(r: string, stored: map<string, seq<Point>>, all: map<string, seq<Point>>) {
    stored == all || (r in all && stored == all - {r})
  }

  /** The point, at r's index, of its own dealing where that is missing. */
  function OwnPoint(g: PrimeGroup, r: string, stored: map<string, seq<Point>>, all: map<string, seq<Point>>): Point
    requires UpToOwn(r, stored, all)
  {
    if stored == all then g.identity else CommitEval(g, all[r], IndexOf(r))
  }

  ghost predicate AllContained(g: PrimeGroup, all: map<string, seq<Point>>) {
    forall d :: d in all ==> Contained(g, all[d])
  }

  ghost function OwnValue(g: PrimeGroup, r: string, stored: map<string, seq<Point>>,
                          all: map<string, seq<Point>>): int
    requires UpToOwn(r, stored, all) && AllContained(g, all)
  {
    if stored == all then 0 else Eval(Committed(g, all[r]), IndexOf(r))
  }

  lemma OwnPointIsExp(g: PrimeGroup, r: string, stored: map<string, seq<Point>>, all: map<string, seq<Point>>)
    requires UpToOwn(r, stored, all) && AllContained(g, all)
    ensures OwnPoint(g, r, stored, all) == g.Exp(OwnValue(g, r, stored, all))
  {
    if stored == all {
      ExpZero(g);
    } else {
      CommitCommitted(g, all[r]);
      CommitEvalIsExp(g, Committed(g, all[r]), IndexOf(r));
    }
  }

  /** What was stored falls short of the joint polynomial by exactly the own value. */
  lemma StoredFallsShort(g: PrimeGroup, r: string, stored: map<string, seq<Point>>, all: map<string, seq<Point>>)
    requires UpToOwn(r, stored, all) && AllContained(g, all)
    ensures AllContained(g, stored)
    ensures Eval(JointPoly(CommittedPolys(g, stored)), IndexOf(r)) ==
            Eval(JointPoly(CommittedPolys(g, all)), IndexOf(r)) - OwnValue(g, r, stored, all)
  {
    if stored != all {
      var values, i := Values(CommittedPolys(g, all), IndexOf(r)), IndexOf(r);
      JointEval(CommittedPolys(g, all), i);
      JointEval(CommittedPolys(g, stored), i);
      IntSumRemove(values, r);
      assert values - {r} == Values(CommittedPolys(g, stored), i);
    }
  }

  /** Nodes with distinct indices that computed their group keys over `all`, up to their own dealings. */
  ghost predicate KeyedUpToOwn(s: System, nodes: seq<string>, all: map<string, seq<Point>>) {
    && (forall k :: 0 <= k < |nodes| ==>
          nodes[k] in s.nodes && nodes[k] in s.keys && UpToOwn(nodes[k], s.keys[nodes[k]].0.commitments, all))
    && (forall k, l :: 0 <= k < l < |nodes| ==> IndexOf(nodes[k]) != IndexOf(nodes[l]))
  }

  ghost function OwnPoints(g: PrimeGroup, s: System, nodes: seq<string>,
                           all: map<string, seq<Point>>): (points: seq<IndexedPoint>)
    requires KeyedUpToOwn(s, nodes, all)
    ensures |points| == |nodes|
    ensures forall k :: 0 <= k < |nodes| ==>
              points[k] == (IndexOf(nodes[k]), OwnPoint(g, nodes[k], s.keys[nodes[k]].0.commitments, all))
  {
    seq(|nodes|, k requires 0 <= k < |nodes| =>
      (IndexOf(nodes[k]), OwnPoint(g, nodes[k], s.keys[nodes[k]].0.commitments, all)))
  }

  /** What points interpolate to: each weighted by the Lagrange coefficient of its index. */
  function Interpolated(g: PrimeGroup, points: seq<IndexedPoint>): Point {
    WeightedPoints(g, points, points)
  }

  /**
   The group keys and the missing own points together interpolate to the joint public key, so that
   the keys alone do exactly when the own points interpolate to the identity.
   */
  ghost predicate InterpolateUpToOwn(g: PrimeGroup, s: System, nodes: seq<string>, all: map<string, seq<Point>>) {
    && KeyedUpToOwn(s, nodes, all) && AllNonEmpty(all)
    && var keys, own, joint := Interpolated(g, KeyPoints(s, nodes)), Interpolated(g, OwnPoints(g, s, nodes, all)),
                               PointSum(g, Heads(all));
       && g.plus(keys, own) == joint
       && (keys == joint <==> own == g.identity)
  }

  ghost function OwnShares(g: PrimeGroup, s: System, nodes: seq<string>,
                           all: map<string, seq<Point>>): (shares: seq<Share>)
    requires KeyedUpToOwn(s, nodes, all) && AllContained(g, all)
    ensures |shares| == |nodes|
    ensures forall k :: 0 <= k < |nodes| ==>
              shares[k] == (IndexOf(nodes[k]), OwnValue(g, nodes[k], s.keys[nodes[k]].0.commitments, all))
  {
    seq(|nodes|, k requires 0 <= k < |nodes| =>
      (IndexOf(nodes[k]), OwnValue(g, nodes[k], s.keys[nodes[k]].0.commitments, all)))
  }

  lemma OwnPointsOfShares(g: PrimeGroup, s: System, nodes: seq<string>, all: map<string, seq<Point>>)
    requires KeyedUpToOwn(s, nodes, all) && AllContained(g, all)
    ensures PointsOf(g, OwnPoints(g, s, nodes, all), OwnShares(g, s, nodes, all))
    ensures DistinctIndices(OwnShares(g, s, nodes, all))
  {
    forall k | 0 <= k < |nodes|
      ensures OwnPoints(g, s, nodes, all)[k].1 == g.Exp(OwnShares(g, s, nodes, all)[k].1)
    {
      OwnPointIsExp(g, nodes[k], s.keys[nodes[k]].0.commitments, all);
    }
  }

  lemma KeyFallsShort(g: PrimeGroup, steps: seq<Step>, states: seq<System>, k: nat, r: string,
        all: map<string, seq<Point>>)
    requires Run(g, steps, states) && k < |states| && r in states[k].nodes && r in states[k].keys
    requires UpToOwn(r, states[k].keys[r].0.commitments, all) && AllContained(g, all)
    ensures states[k].keys[r].1 == g.Exp(Eval(JointPoly(CommittedPolys(g, all)), IndexOf(r)) -
                                         OwnValue(g, r, states[k].keys[r].0.commitments, all))
  {
    NodeInvariant(g, steps, states, k, r);
    GroupKeyIsJointValue(g, states[k], states[k].keys[r].0);
    StoredFallsShort(g, r, states[k].keys[r].0.commitments, all);
  }

  lemma KeysFallShort(g: PrimeGroup, steps: seq<Step>, states: seq<System>, k: nat, nodes: seq<string>,
        all: map<string, seq<Point>>)
    requires Run(g, steps, states) && k < |states| && KeyedUpToOwn(states[k], nodes, all) && AllContained(g, all)
    ensures ShortPoints(g, JointPoly(CommittedPolys(g, all)), KeyPoints(states[k], nodes),
                        OwnShares(g, states[k], nodes, all))
  {
    var points, own := KeyPoints(states[k], nodes), OwnShares(g, states[k], nodes, all);
    forall i | 0 <= i < |nodes|
      ensures ShortPoint(g, JointPoly(CommittedPolys(g, all)), points[i], own[i])
    {
      KeyFallsShort(g, steps, states, k, nodes[i], all);
    }
  }

  lemma PartIsWholeIff(g: PrimeGroup, a: Point, b: Point)
    requires g.Contains(a) && g.Contains(b)
    ensures a == g.plus(a, b) <==> b == g.identity
  {
    var x, y := Log(g, a), Log(g, b);
    ExpAdd(g, x, y);
    ExpZero(g);
    ExpInjective(g, x, x + y);
    ExpInjective(g, y, 0);
    CongIff(g.order, x, x + y);
    CongIff(g.order, y, 0);
    assert x - (x + y) == 0 - y && y - 0 == y;
    if Cong(g.order, y, 0) {
      CongSym(g.order, y, 0);
    }
    if Cong(g.order, x, x + y) {
      CongSym(g.order, x, x + y);
    }
  }

  lemma WeightedPointsContained(g: PrimeGroup, points: seq<IndexedPoint>, shares: seq<Share>)
    requires PointsOf(g, points, shares)
    ensures g.Contains(Interpolated(g, points))
  {
    WeightedPointsOf(g, points, shares);
    ExpContained(g, WeightedSum(g.order, shares, shares));
  }

  /**
   In every run, enough nodes that computed their keys over the same commitments, each with or
   without its own, interpolate up to their own dealings.
   */
  lemma GroupKeysUpToOwn(g: PrimeGroup, steps: seq<Step>, states: seq<System>, k: nat, nodes: seq<string>,
        all: map<string, seq<Point>>)
    requires Run(g, steps, states) && k < |states| && KeyedUpToOwn(states[k], nodes, all)
    requires AllNonEmpty(all) && AllContained(g, all) && forall d :: d in all ==> |all[d]| <= |nodes|
    ensures InterpolateUpToOwn(g, states[k], nodes, all)
  {
    var s, f := states[k], JointPoly(CommittedPolys(g, all));
    var keys, own, shares := KeyPoints(s, nodes), OwnPoints(g, s, nodes, all), OwnShares(g, s, nodes, all);
    KeysFallShort(g, steps, states, k, nodes, all);
    OwnPointsOfShares(g, s, nodes, all);
    JointLength(CommittedPolys(g, all), |nodes|);
    ShortInterpolation(g, f, keys, own, shares);
    ShortPointsOf(g, f, keys, shares);
    HeadSum(g, all);
    WeightedPointsContained(g, keys, Rest(f, shares));
    WeightedPointsContained(g, own, shares);
    PartIsWholeIff(g, Interpolated(g, keys), Interpolated(g, own));
  }

  lemma {:induction false} IdentityPoints(g: PrimeGroup, all: seq<IndexedPoint>, points: seq<IndexedPoint>)
    requires forall k :: 0 <= k < |points| ==> points[k].1 == g.identity
    ensures WeightedPoints(g, all, points) == g.identity
  {
    if points != [] {
      IdentityPoints(g, all, Init(points));
      var w := Weight(g.order, all, Last(points).0);
      ExpZero(g);
      TimesReduced(g, 0, w);
      ExpAdd(g, 0, 0);
    }
  }

  /** Nodes with distinct indices that computed their group keys over the same commitments. */
  ghost predicate KeyedOver(s: System, nodes: seq<string>, commitments: map<string, seq<Point>>) {
    && (forall k :: 0 <= k < |nodes| ==>
          nodes[k] in s.nodes && nodes[k] in s.keys && s.keys[nodes[k]].0.commitments == commitments)
    && (forall k, l :: 0 <= k < l < |nodes| ==> IndexOf(nodes[k]) != IndexOf(nodes[l]))
  }

  /** Stored commitments are nonempty, and no longer than their dealers' thresholds demand. */
  lemma StoredCommitments(g: PrimeGroup, s: System, c: NodeState, n: int)
    requires StoredInv(g, s, c)
    requires forall d :: d in c.commitments && d in s.nodes ==> n >= s.nodes[d].threshold + 1
    ensures AllNonEmpty(c.commitments) && AllContained(g, c.commitments)
    ensures forall d :: d in c.commitments ==> |c.commitments[d]| <= n
  {
    forall d | d in c.commitments
      ensures Contained(g, c.commitments[d]) && 0 < |c.commitments[d]| <= n
    {
      assert Dealt(g, s, d, c.commitments[d]);
    }
  }

  /**
   With all own dealings delivered back, or dealers and key holders apart, the group keys are
   shares of the joint public key: threshold + 1 of them interpolate to the sum of the
   constant-term commitments.
   */
  lemma GroupKeysInterpolate(g: PrimeGroup, steps: seq<Step>, states: seq<System>, k: nat,
                             nodes: seq<string>, commitments: map<string, seq<Point>>)
    requires Run(g, steps, states) && k < |states|
    requires nodes != [] && KeyedOver(states[k], nodes, commitments)
    requires forall d :: d in commitments && d in states[k].nodes ==> |nodes| >= states[k].nodes[d].threshold + 1
    ensures AllNonEmpty(commitments)
    ensures Interpolated(g, KeyPoints(states[k], nodes)) == PointSum(g, Heads(commitments))
  {
    var s := states[k];
    NodeInvariant(g, steps, states, k, nodes[0]);
    StoredCommitments(g, s, s.keys[nodes[0]].0, |nodes|);
    GroupKeysUpToOwn(g, steps, states, k, nodes, commitments);
    IdentityPoints(g, OwnPoints(g, s, nodes, commitments), OwnPoints(g, s, nodes, commitments));
  }

  // ---------- when the group key is the joint public key ----------

  lemma SameExpIff(g: PrimeGroup, a: int, b: int)
    ensures g.Exp(a) == g.Exp(b) <==> (a - b) % g.order == 0
  {
    ExpInjective(g, a, b);
    CongIff(g.order, a, b);
    DividesMod(g.order, a - b);
  }

  /**
   A point is the joint public key of some commitments exactly when their joint polynomial takes
   the same value at index i as at zero.
   */
  ghost predicate IsJointIffLevel(g: PrimeGroup, commitments: map<string, seq<Point>>, i: U64, key: Point)
    requires AllNonEmpty(commitments) && forall d :: d in commitments ==> Contained(g, commitments[d])
  {
    var f := JointPoly(CommittedPolys(g, commitments));
    key == PointSum(g, Heads(commitments)) <==> (Eval(f, i) - Eval(f, 0)) % g.order == 0
  }

  lemma ValueIsJointIffLevel(g: PrimeGroup, commitments: map<string, seq<Point>>, i: U64)
    requires AllNonEmpty(commitments) && forall d :: d in commitments ==> Contained(g, commitments[d])
    ensures IsJointIffLevel(g, commitments, i, g.Exp(Eval(JointPoly(CommittedPolys(g, commitments)), i)))
  {
    var f := JointPoly(CommittedPolys(g, commitments));
    HeadSum(g, commitments);
    SameExpIff(g, Eval(f, i), Eval(f, 0));
  }

  lemma KeyIsJointIffLevel(g: PrimeGroup, s: System, c: NodeState)
    requires StoredInv(g, s, c)
    ensures AllNonEmpty(c.commitments) && forall d :: d in c.commitments ==> Contained(g, c.commitments[d])
    ensures IsJointIffLevel(g, c.commitments, IndexOf(c.id), GroupKey(g, c.shares))
  {
    GroupKeyIsJointValue(g, s, c);
    ValueIsJointIffLevel(g, c.commitments, IndexOf(c.id));
  }

  /** In every run this decides whether a computed group key is the joint public key. */
  lemma GroupKeyIsJointKeyIff(g: PrimeGroup, steps: seq<Step>, states: seq<System>, k: nat, r: string)
    requires Run(g, steps, states) && k < |states| && r in states[k].nodes && r in states[k].keys
    ensures var (c, key) := states[k].keys[r];
            && AllNonEmpty(c.commitments) && (forall d :: d in c.commitments ==> Contained(g, c.commitments[d]))
            && IsJointIffLevel(g, c.commitments, IndexOf(r), key)
  {
    NodeInvariant(g, steps, states, k, r);
    KeyIsJointIffLevel(g, states[k], states[k].keys[r].0);
  }

  /** The shares held at index i of the dealings `polys`. */
  function SharesAt(p: Modulus, polys: map<string, Poly>, i: U64): (shares: map<string, KeyShare>)
    ensures shares.Keys == polys.Keys
  {
    map d | d in polys :: KeyShare(i, Eval(polys[d], i) % p)
  }

  function CommitAll(g: PrimeGroup, polys: map<string, Poly>): (commitments: map<string, seq<Point>>)
    ensures commitments.Keys == polys.Keys
    ensures forall d :: d in polys ==> commitments[d] == Commit(g, polys[d])
  {
    map d | d in polys :: Commit(g, polys[d])
  }

  /** One dealing of the given degree by each dealer. */
  ghost predicate Dealings(p: Modulus, degrees: map<string, U64>, polys: map<string, Poly>) {
    polys.Keys == degrees.Keys && forall d :: d in polys ==> Dealable(p, degrees[d], polys[d])
  }

  /** The group key at index i of the dealings `polys` is the sum of their constant-term commitments. */
  ghost predicate KeyIsJoint(g: PrimeGroup, polys: map<string, Poly>, i: U64) {
    && AllNonEmpty(CommitAll(g, polys))
    && GroupKey(g, SharesAt(g.order, polys, i)) == PointSum(g, Heads(CommitAll(g, polys)))
  }

  lemma SharesAtSum(p: Modulus, polys: map<string, Poly>, i: U64)
    ensures Cong(p, IntSum(ShareValues(SharesAt(p, polys, i))), IntSum(Values(polys, i)))
  {
    var shares := SharesAt(p, polys, i);
    forall d | d in polys
      ensures Cong(p, ShareValues(shares)[d], Values(polys, i)[d])
    {
      CongMod(p, Eval(polys[d], i));
    }
    IntSumCong(p, ShareValues(shares), Values(polys, i));
  }

  lemma HeadsSum(g: PrimeGroup, polys: map<string, Poly>)
    requires AllNonEmpty(CommitAll(g, polys))
    ensures PointSum(g, Heads(CommitAll(g, polys))) == g.Exp(IntSum(Values(polys, 0)))
  {
    var heads := Heads(CommitAll(g, polys));
    forall d | d in polys
      ensures g.Exp(Values(polys, 0)[d]) == heads[d]
    {
      EvalAtZero(polys[d]);
    }
    PointSumOfExps(g, heads, Values(polys, 0));
  }

  lemma KeyIsJointWhen(g: PrimeGroup, polys: map<string, Poly>, i: U64)
    requires AllNonEmpty(CommitAll(g, polys))
    ensures KeyIsJoint(g, polys, i) <==> g.Exp(IntSum(Values(polys, i))) == g.Exp(IntSum(Values(polys, 0)))
  {
    var shares := SharesAt(g.order, polys, i);
    GroupKeyIsExp(g, shares);
    SharesAtSum(g.order, polys, i);
    ExpCong(g, IntSum(ShareValues(shares)), IntSum(Values(polys, i)));
    HeadsSum(g, polys);
  }

  /** Dealings of which the first is X, and the others zero. */
  function LinearDealings(degrees: map<string, U64>, first: string): (polys: map<string, Poly>)
    requires first in degrees && degrees[first] >= 1
    ensures polys.Keys == degrees.Keys
  {
    map d | d in degrees :: if d == first then [0, 1] + Zeros(degrees[d] - 1) else Zeros(degrees[d] as int + 1)
  }

  lemma LinearDealingsDealt(p: Modulus, degrees: map<string, U64>, first: string)
    requires first in degrees && degrees[first] >= 1
    ensures Dealings(p, degrees, LinearDealings(degrees, first))
  {
  }

  lemma LinearEval(degree: U64, x: int)
    requires degree >= 1
    ensures Eval([0, 1] + Zeros(degree - 1), x) == x
  {
    var zeros := Zeros(degree - 1);
    var c: Poly := [0, 1] + zeros;
    EvalZeros(degree - 1, x);
    assert c[1..] == [1] + zeros && c[1..][1..] == zeros;
    assert Eval(c[1..], x) == 1 + x * Eval(zeros, x);
  }

  /** Together they are the polynomial X. */
  lemma LinearDealingsSum(degrees: map<string, U64>, first: string, x: int)
    requires first in degrees && degrees[first] >= 1
    ensures IntSum(Values(LinearDealings(degrees, first), x)) == x
  {
    var values := Values(LinearDealings(degrees, first), x);
    LinearEval(degrees[first], x);
    forall d | d in degrees && d != first
      ensures values[d] == 0
    {
      EvalZeros(degrees[d] as int + 1, x);
    }
    IntSumRemove(values, first);
    IntSumZero(values - {first});
  }

  lemma ScalarsApart(g: PrimeGroup, i: U64)
    requires i >= 1
    ensures g.Exp(i) != g.Exp(0)
  {
    ExpInjective(g, i, 0);
    ModSmall(g.order, i);
    ModSmall(g.order, 0);
  }

  lemma LinearDealingsDiffer(g: PrimeGroup, degrees: map<string, U64>, first: string, i: U64)
    requires first in degrees && degrees[first] >= 1 && i >= 1
    ensures !KeyIsJoint(g, LinearDealings(degrees, first), i)
  {
    var polys := LinearDealings(degrees, first);
    LinearDealingsSum(degrees, first, i);
    LinearDealingsSum(degrees, first, 0);
    if KeyIsJoint(g, polys, i) {
      KeyIsJointWhen(g, polys, i);
      ScalarsApart(g, i);
    }
  }

  lemma ConstantValues(polys: map<string, Poly>, x: int)
    requires forall d :: d in polys ==> |polys[d]| == 1
    ensures Values(polys, x) == Values(polys, 0)
  {
    forall d | d in polys
      ensures Eval(polys[d], x) == Eval(polys[d], 0)
    {
      assert polys[d][1..] == [];
    }
  }

  lemma ConstantsJoint(g: PrimeGroup, polys: map<string, Poly>, i: U64)
    requires forall d :: d in polys ==> |polys[d]| == 1
    ensures KeyIsJoint(g, polys, i)
  {
    ConstantValues(polys, i);
    KeyIsJointWhen(g, polys, i);
  }

  /**
   Over any dealers and at any index, the group key is the joint public key for all dealings
   exactly when no dealer has a degree above zero.
   */
  lemma JointForAllDealingsIff(g: PrimeGroup, degrees: map<string, U64>, i: U64)
    requires i >= 1
    ensures (forall polys :: Dealings(g.order, degrees, polys) ==> KeyIsJoint(g, polys, i)) <==>
            forall d :: d in degrees ==> degrees[d] == 0
  {
    if d :| d in degrees && degrees[d] != 0 {
      LinearDealingsDealt(g.order, degrees, d);
      LinearDealingsDiffer(g, degrees, d, i);
    } else {
      forall polys | Dealings(g.order, degrees, polys)
        ensures KeyIsJoint(g, polys, i)
      {
        ConstantsJoint(g, polys, i);
      }
    }
  }
}
