/**
 What the live key generation's keys are worth: when every key of every run is the joint public
 key, and when the keys of several nodes interpolate to it.
 */
module DkgOutcomes {
  import opened Wrappers
  import opened PrimeField
  import opened Polynomials
  import opened Interpolation
  import opened CyclicGroup
  import opened Feldman
  import opened MapSums
  import opened DkgNode
  import opened DkgRuns
  import opened DkgTheorems
  import opened DkgCompletion

  // ---------- when all keys are joint ----------

  /** The latest group key of r is the joint public key of the dealings it was computed over. */
  ghost predicate KeyJointAt(g: PrimeGroup, s: System, r: string)
    requires r in s.keys
  {
    var (c, key) := s.keys[r];
    AllNonEmpty(c.commitments) && key == PointSum(g, Heads(c.commitments))
  }

  ghost predicate HasKey(s: System, r: string) {
    r in s.nodes && r in s.keys
  }

  /** In every run from s0, every group key is a joint public key. */
  ghost predicate AlwaysJoint(g: PrimeGroup, s0: System) {
    forall steps, states, r ::
      Run(g, steps, states) && states[0] == s0 && HasKey(Last(states), r) ==> KeyJointAt(g, Last(states), r)
  }

  /** The nodes whose dealings cover r. */
  ghost function Coverers(s: System, r: string): set<string> {
    set d | d in s.nodes && DealsFor(s, d, r)
  }

  /** r can compute no key but a joint one: it is covered too little to compute any, or by constants alone. */
  ghost predicate OnlyJoint(s0: System, r: string)
    requires r in s0.nodes
  {
    || |Coverers(s0, r)| < s0.nodes[r].threshold
    || forall d :: d in Coverers(s0, r) ==> s0.nodes[d].threshold == 0
  }

  lemma SubsetSize<T>(a: set<T>, b: set<T>)
    requires a <= b
    ensures |a| <= |b|
  {
    assert b == a + (b - a);
  }

  /** Parameters never change. */
  lemma {:induction false} ParametersKept(g: PrimeGroup, steps: seq<Step>, states: seq<System>, k: nat)
    requires Run(g, steps, states) && k < |states|
    ensures states[k].nodes.Keys == states[0].nodes.Keys
    ensures forall r :: r in states[0].nodes ==> SameParameters(states[0].nodes[r], states[k].nodes[r])
  {
    if k > 0 {
      ParametersKept(g, steps, states, k - 1);
      assert StepAt(g, steps, states, k - 1);
      StepExtends(g, states[k - 1], steps[k - 1]);
    }
  }

  /** A key needs as many dealers that cover its node as the node's threshold. */
  lemma KeyIsCovered(g: PrimeGroup, steps: seq<Step>, states: seq<System>, r: string)
    requires Run(g, steps, states) && HasKey(Last(states), r) && r in states[0].nodes
    ensures var c := Last(states).keys[r].0;
            && c.commitments.Keys <= Coverers(states[0], r)
            && states[0].nodes[r].threshold <= |Coverers(states[0], r)|
  {
    var s, c := Last(states), Last(states).keys[r].0;
    NodeInvariant(g, steps, states, |states| - 1, r);
    ParametersKept(g, steps, states, |states| - 1);
    forall d | d in c.shares
      ensures d in Coverers(states[0], r)
    {
      assert Dealt(g, s, d, c.commitments[d]);
      assert SameParameters(states[0].nodes[d], s.nodes[d]);
    }
    SubsetSize(c.shares.Keys, Coverers(states[0], r));
    assert |c.shares| == |c.shares.Keys| && SameParameters(states[0].nodes[r], s.nodes[r]);
  }

  lemma ShortIsJoint(g: PrimeGroup, commitments: map<string, seq<Point>>, i: U64, key: Point)
    requires AllNonEmpty(commitments) && forall d :: d in commitments ==> Contained(g, commitments[d])
    requires forall d :: d in commitments ==> |commitments[d]| <= 1
    requires IsJointIffLevel(g, commitments, i, key)
    ensures key == PointSum(g, Heads(commitments))
  {
    var polys := CommittedPolys(g, commitments);
    JointLength(polys, 1);
    ShortPolyConstant(JointPoly(polys), i);
    ModSmall(g.order, 0);
  }

  lemma ShortPolyConstant(f: Poly, x: int)
    requires |f| <= 1
    ensures Eval(f, x) == Eval(f, 0)
  {
    if f != [] {
      assert f[1..] == [];
    }
  }

  lemma ShortStored(g: PrimeGroup, steps: seq<Step>, states: seq<System>, r: string)
    requires Run(g, steps, states) && HasKey(Last(states), r) && r in states[0].nodes
    requires forall d :: d in Coverers(states[0], r) ==> states[0].nodes[d].threshold == 0
    ensures var c := Last(states).keys[r].0; forall d :: d in c.commitments ==> |c.commitments[d]| <= 1
  {
    var s, c := Last(states), Last(states).keys[r].0;
    KeyIsCovered(g, steps, states, r);
    NodeInvariant(g, steps, states, |states| - 1, r);
    ParametersKept(g, steps, states, |states| - 1);
    forall d | d in c.commitments
      ensures |c.commitments[d]| <= 1
    {
      assert Dealt(g, s, d, c.commitments[d]);
      assert SameParameters(states[0].nodes[d], s.nodes[d]);
    }
  }

  /** Where it can compute only joint keys, it does. */
  lemma OnlyJointKeys(g: PrimeGroup, steps: seq<Step>, states: seq<System>, r: string)
    requires Run(g, steps, states) && HasKey(Last(states), r) && r in states[0].nodes && OnlyJoint(states[0], r)
    ensures KeyJointAt(g, Last(states), r)
  {
    var (c, key) := Last(states).keys[r];
    KeyIsCovered(g, steps, states, r);
    ShortStored(g, steps, states, r);
    GroupKeyIsJointKeyIff(g, steps, states, |states| - 1, r);
    ShortIsJoint(g, c.commitments, IndexOf(r), key);
  }

  lemma CommitAllRecovered(g: PrimeGroup, polys: map<string, Poly>)
    requires forall d, j :: d in polys && 0 <= j < |polys[d]| ==> IsScalar(g.order, polys[d][j])
    ensures AllContained(g, CommitAll(g, polys)) && CommittedPolys(g, CommitAll(g, polys)) == polys
  {
    forall d | d in polys
      ensures Contained(g, Commit(g, polys[d])) && Committed(g, Commit(g, polys[d])) == polys[d]
    {
      CommittedCommit(g, polys[d]);
    }
  }

  lemma LinearSum(degrees: map<string, U64>, first: string, x: int)
    requires first in degrees && degrees[first] >= 1
    ensures Eval(JointPoly(LinearDealings(degrees, first)), x) == x
  {
    JointEval(LinearDealings(degrees, first), x);
    LinearDealingsSum(degrees, first, x);
  }

  lemma LinearRecovered(g: PrimeGroup, degrees: map<string, U64>, first: string)
    requires first in degrees && degrees[first] >= 1
    ensures var polys := LinearDealings(degrees, first);
            AllContained(g, CommitAll(g, polys)) && CommittedPolys(g, CommitAll(g, polys)) == polys
  {
    LinearDealingsDealt(g.order, degrees, first);
    CommitAllRecovered(g, LinearDealings(degrees, first));
  }

  lemma LinearNotLevel(g: PrimeGroup, commitments: map<string, seq<Point>>, polys: map<string, Poly>, i: U64,
        key: Point)
    requires AllNonEmpty(commitments) && forall d :: d in commitments ==> Contained(g, commitments[d])
    requires CommittedPolys(g, commitments) == polys && i >= 1
    requires Eval(JointPoly(polys), i) == i && Eval(JointPoly(polys), 0) == 0
    requires IsJointIffLevel(g, commitments, i, key)
    ensures key != PointSum(g, Heads(commitments))
  {
    ModSmall(g.order, i);
  }

  /** Over the dealings of X by one dealer and zero by the others, no key is joint. */
  lemma LinearKeyNotJoint(g: PrimeGroup, steps: seq<Step>, states: seq<System>, degrees: map<string, U64>,
        first: string, r: string)
    requires Run(g, steps, states) && first in degrees && degrees[first] >= 1 && IndexOf(r) >= 1
    requires Keyed(g, Last(states), LinearDealings(degrees, first), r)
    ensures !KeyJointAt(g, Last(states), r)
  {
    var (c, key) := Last(states).keys[r];
    GroupKeyIsJointKeyIff(g, steps, states, |states| - 1, r);
    LinearRecovered(g, degrees, first);
    LinearSum(degrees, first, IndexOf(r));
    LinearSum(degrees, first, 0);
    LinearNotLevel(g, c.commitments, LinearDealings(degrees, first), IndexOf(r), key);
  }

  ghost function Degrees(s0: System, dealers: set<string>): (degrees: map<string, U64>)
    requires dealers <= s0.nodes.Keys
    ensures degrees.Keys == dealers && forall d :: d in dealers ==> degrees[d] == s0.nodes[d].threshold
  {
    map d | d in dealers :: s0.nodes[d].threshold
  }

  /** The nodes whose dealings reach and cover r. */
  ghost function Suppliers(s: System, loopback: bool, r: string): set<string> {
    set d | d in s.nodes && DealsFor(s, d, r) && Reaches(loopback, d, r)
  }

  /** Enough dealings reach r, not all of degree zero, and so does a validation of some node. */
  ghost predicate Misleads(s0: System, loopback: bool, r: string) {
    && r in s0.nodes && s0.nodes[r].threshold <= |Suppliers(s0, loopback, r)|
    && (exists d :: d in Suppliers(s0, loopback, r) && s0.nodes[d].threshold >= 1)
    && exists w :: w in s0.nodes && Reaches(loopback, w, r) && Suppliers(s0, loopback, w) != {}
  }

  /** Such a node can be led by starts and deliveries alone to a key that is not joint. */
  lemma WrongKeyReachable(g: PrimeGroup, s0: System, loopback: bool, r: string)
      returns (steps: seq<Step>, states: seq<System>)
    requires Initial(s0) && Misleads(s0, loopback, r)
    ensures Run(g, steps, states) && states[0] == s0 && Ordinary(steps, loopback)
    ensures HasKey(Last(states), r) && !KeyJointAt(g, Last(states), r)
  {
    var first :| first in Suppliers(s0, loopback, r) && s0.nodes[first].threshold >= 1;
    var polys := LinearDealings(Degrees(s0, s0.nodes.Keys), first);
    LinearCanDeal(g.order, s0, first);
    MisledIsGated(s0, loopback, polys, r);
    steps, states := KeysFromStart(g, s0, loopback, polys, s0.nodes.Keys, {r});
    assert Keyed(g, Last(states), Mine(s0, loopback, polys, r), r);
    LinearMine(s0, loopback, first, r);
    LinearKeyNotJoint(g, steps, states, Degrees(s0, Suppliers(s0, loopback, r)), first, r);
  }

  lemma LinearCanDeal(p: Modulus, s0: System, first: string)
    requires first in s0.nodes && s0.nodes[first].threshold >= 1
    ensures CanDeal(p, s0, LinearDealings(Degrees(s0, s0.nodes.Keys), first))
  {
    LinearDealingsDealt(p, Degrees(s0, s0.nodes.Keys), first);
  }

  lemma MineOfAll(s0: System, loopback: bool, polys: map<string, Poly>, r: string)
    requires polys.Keys == s0.nodes.Keys
    ensures Mine(s0, loopback, polys, r).Keys == Suppliers(s0, loopback, r)
  {
  }

  lemma SupplierValidates(s0: System, loopback: bool, polys: map<string, Poly>, w: string, r: string)
    requires polys.Keys == s0.nodes.Keys && Reaches(loopback, w, r) && Suppliers(s0, loopback, w) != {}
    ensures Validates(s0, loopback, polys, w, r)
  {
    MineOfAll(s0, loopback, polys, w);
  }

  lemma MisledIsGated(s0: System, loopback: bool, polys: map<string, Poly>, r: string)
    requires Misleads(s0, loopback, r) && polys.Keys == s0.nodes.Keys
    ensures AllGated(s0, loopback, polys, s0.nodes.Keys, {r})
  {
    var w :| w in s0.nodes && Reaches(loopback, w, r) && Suppliers(s0, loopback, w) != {};
    SupplierValidates(s0, loopback, polys, w, r);
    MineOfAll(s0, loopback, polys, r);
    assert |Mine(s0, loopback, polys, r)| == |Mine(s0, loopback, polys, r).Keys|;
  }

  lemma LinearMine(s0: System, loopback: bool, first: string, r: string)
    requires first in Suppliers(s0, loopback, r) && s0.nodes[first].threshold >= 1
    ensures Mine(s0, loopback, LinearDealings(Degrees(s0, s0.nodes.Keys), first), r) ==
            LinearDealings(Degrees(s0, Suppliers(s0, loopback, r)), first)
  {
  }

  lemma CoveredIsMisled(s0: System, r: string)
    requires r in s0.nodes && !OnlyJoint(s0, r)
    ensures Misleads(s0, true, r)
  {
    assert Suppliers(s0, true, r) == Coverers(s0, r);
    var d :| d in Coverers(s0, r) && s0.nodes[d].threshold != 0;
    assert d in Suppliers(s0, true, r) && Reaches(true, r, r);
  }

  /**
   In every system, every group key of every run is a joint public key exactly when each node is
   covered by fewer dealers than its threshold, or by dealers of degree zero alone.
   */
  lemma AlwaysJointIff(g: PrimeGroup, s0: System)
    requires Initial(s0)
    ensures AlwaysJoint(g, s0) <==> forall r :: r in s0.nodes ==> OnlyJoint(s0, r)
  {
    if r :| r in s0.nodes && !OnlyJoint(s0, r) {
      CoveredIsMisled(s0, r);
      var steps, states := WrongKeyReachable(g, s0, true, r);
    } else {
      forall steps, states, r | Run(g, steps, states) && states[0] == s0 && HasKey(Last(states), r)
        ensures KeyJointAt(g, Last(states), r)
      {
        ParametersKept(g, steps, states, |states| - 1);
        OnlyJointKeys(g, steps, states, r);
      }
    }
  }

  ghost predicate Uniform(s0: System, threshold: U64) {
    forall r :: r in s0.nodes ==> s0.nodes[r].threshold == threshold
  }

  /** With one threshold for all: exactly at zero, or where no node is covered by that many dealers. */
  lemma AlwaysJointUniformIff(g: PrimeGroup, s0: System, threshold: U64)
    requires Initial(s0) && Uniform(s0, threshold)
    ensures AlwaysJoint(g, s0) <==>
            threshold == 0 || forall r :: r in s0.nodes ==> |Coverers(s0, r)| < threshold
  {
    AlwaysJointIff(g, s0);
    if threshold > 0 {
      forall r | r in s0.nodes
        ensures OnlyJoint(s0, r) <==> |Coverers(s0, r)| < threshold
      {
        if |Coverers(s0, r)| >= threshold {
          assert Coverers(s0, r) != {};
          var d :| d in Coverers(s0, r);
        }
      }
    }
  }

  // ---------- interpolation, reached ----------

  /** Nodes with different indices. */
  ghost predicate IndexedApart(rs: set<string>) {
    forall a, b :: a in rs && b in rs && a != b ==> IndexOf(a) != IndexOf(b)
  }

  /** The dealings cover all of `rs` that they reach. */
  ghost predicate AllCovered(s0: System, loopback: bool, dealers: set<string>, rs: set<string>) {
    forall d, r :: d in dealers && r in rs && Reaches(loopback, d, r) ==> DealsFor(s0, d, r)
  }

  /** In s0, the nodes `rs`, at different indices and enough, can compute keys over `polys`. */
  ghost predicate CanInterpolate(p: Modulus, s0: System, loopback: bool, polys: map<string, Poly>, rs: set<string>) {
    && Initial(s0) && rs <= s0.nodes.Keys && CanDeal(p, s0, polys) && IndexedApart(rs)
    && AllCovered(s0, loopback, polys.Keys, rs)
    && AllGated(s0, loopback, polys, rs, rs) && NoLonger(polys, |rs|)
  }

  ghost predicate NoLonger(polys: map<string, Poly>, n: int) {
    forall d :: d in polys ==> |polys[d]| <= n
  }

  lemma MineAll(s0: System, loopback: bool, polys: map<string, Poly>, rs: set<string>, r: string)
    requires AllCovered(s0, loopback, polys.Keys, rs) && r in rs
    ensures Mine(s0, loopback, polys, r) == if loopback then polys else polys - {r}
  {
  }

  lemma KeyedMine(g: PrimeGroup, s0: System, s: System, loopback: bool, polys: map<string, Poly>, rs: set<string>,
        r: string)
    requires AllCovered(s0, loopback, polys.Keys, rs) && r in rs && Keyed(g, s, Mine(s0, loopback, polys, r), r)
    ensures UpToOwn(r, s.keys[r].0.commitments, CommitAll(g, polys))
    ensures loopback || r !in polys ==> s.keys[r].0.commitments == CommitAll(g, polys)
    ensures !loopback && r in polys ==> s.keys[r].0.commitments == CommitAll(g, polys) - {r}
  {
    MineAll(s0, loopback, polys, rs, r);
    assert CommitAll(g, polys - {r}) == CommitAll(g, polys) - {r};
    if r !in polys {
      assert polys - {r} == polys;
    }
  }

  /** Each of `nodes` holds a key over `polys`, without its own dealing unless messages loop back. */
  ghost predicate KeyedWith(g: PrimeGroup, s: System, nodes: seq<string>, loopback: bool, polys: map<string, Poly>) {
    && KeyedUpToOwn(s, nodes, CommitAll(g, polys))
    && forall k :: 0 <= k < |nodes| ==>
         (s.keys[nodes[k]].0.commitments == CommitAll(g, polys) <==> loopback || nodes[k] !in polys)
  }

  lemma KeyedTogether(g: PrimeGroup, s0: System, s: System, loopback: bool, polys: map<string, Poly>,
        rs: set<string>)
      returns (nodes: seq<string>)
    requires IndexedApart(rs) && AllCovered(s0, loopback, polys.Keys, rs)
    requires AllKeyed(g, s0, s, loopback, polys, rs)
    ensures DrawnFrom(nodes, rs) && KeyedWith(g, s, nodes, loopback, polys)
  {
    nodes := SetToSeq(rs);
    forall k | 0 <= k < |nodes|
      ensures nodes[k] in rs && nodes[k] in s.nodes && nodes[k] in s.keys
      ensures UpToOwn(nodes[k], s.keys[nodes[k]].0.commitments, CommitAll(g, polys))
      ensures s.keys[nodes[k]].0.commitments == CommitAll(g, polys) <==> loopback || nodes[k] !in polys
    {
      assert nodes[k] in nodes;
      assert Keyed(g, s, Mine(s0, loopback, polys, nodes[k]), nodes[k]);
      KeyedMine(g, s0, s, loopback, polys, rs, nodes[k]);
    }
    forall k, l | 0 <= k < l < |nodes|
      ensures IndexOf(nodes[k]) != IndexOf(nodes[l])
    {
      assert nodes[k] in nodes && nodes[l] in nodes;
    }
  }

  lemma DealtCommitments(g: PrimeGroup, s0: System, polys: map<string, Poly>)
    requires CanDeal(g.order, s0, polys)
    ensures AllNonEmpty(CommitAll(g, polys)) && AllContained(g, CommitAll(g, polys))
  {
    forall d | d in polys
      ensures Contained(g, Commit(g, polys[d])) && Commit(g, polys[d]) != []
    {
      CommitContained(g, polys[d]);
    }
  }

  lemma NothingMissing(g: PrimeGroup, s: System, nodes: seq<string>, loopback: bool, polys: map<string, Poly>)
    requires KeyedWith(g, s, nodes, loopback, polys) && InterpolateUpToOwn(g, s, nodes, CommitAll(g, polys))
    requires loopback || forall k :: 0 <= k < |nodes| ==> nodes[k] !in polys
    ensures Interpolated(g, KeyPoints(s, nodes)) == PointSum(g, Heads(CommitAll(g, polys)))
  {
    var own := OwnPoints(g, s, nodes, CommitAll(g, polys));
    IdentityPoints(g, own, own);
  }

  /** As many entries as `rs` has members, all of them members. */
  predicate DrawnFrom(nodes: seq<string>, rs: set<string>) {
    |nodes| == |rs| && forall k :: 0 <= k < |nodes| ==> nodes[k] in rs
  }

  /** The nodes hold keys over `polys` that interpolate up to their own dealings. */
  ghost predicate KeysHeld(g: PrimeGroup, s: System, loopback: bool, polys: map<string, Poly>, rs: set<string>,
                          nodes: seq<string>)
  {
    && DrawnFrom(nodes, rs) && KeyedWith(g, s, nodes, loopback, polys)
    && InterpolateUpToOwn(g, s, nodes, CommitAll(g, polys))
  }

  /** Starts and deliveries lead such nodes to keys that interpolate up to their own dealings. */
  lemma InterpolationReachable(g: PrimeGroup, s0: System, loopback: bool, polys: map<string, Poly>, rs: set<string>)
      returns (steps: seq<Step>, states: seq<System>, nodes: seq<string>)
    requires CanInterpolate(g.order, s0, loopback, polys, rs)
    ensures Run(g, steps, states) && states[0] == s0 && Ordinary(steps, loopback)
    ensures KeysHeld(g, Last(states), loopback, polys, rs, nodes)
  {
    steps, states := KeysFromStart(g, s0, loopback, polys, rs, rs);
    nodes := KeyedTogether(g, s0, Last(states), loopback, polys, rs);
    DealtCommitments(g, s0, polys);
    GroupKeysUpToOwn(g, steps, states, |states| - 1, nodes, CommitAll(g, polys));
  }

  /** The keys interpolate to the joint key of `polys`. */
  ghost predicate JointKeysHeld(g: PrimeGroup, s: System, loopback: bool, polys: map<string, Poly>,
                               rs: set<string>, nodes: seq<string>)
  {
    && KeysHeld(g, s, loopback, polys, rs, nodes)
    && Interpolated(g, KeyPoints(s, nodes)) == PointSum(g, Heads(CommitAll(g, polys)))
  }

  lemma HeldIsJoint(g: PrimeGroup, s: System, loopback: bool, polys: map<string, Poly>, rs: set<string>,
        nodes: seq<string>)
    requires KeysHeld(g, s, loopback, polys, rs, nodes) && (loopback || rs !! polys.Keys)
    ensures JointKeysHeld(g, s, loopback, polys, rs, nodes)
  {
    NothingMissing(g, s, nodes, loopback, polys);
  }

  /** They do to the joint key, where messages loop back or the dealers are other nodes. */
  lemma HeldReachable(g: PrimeGroup, s0: System, loopback: bool, polys: map<string, Poly>, rs: set<string>)
      returns (steps: seq<Step>, states: seq<System>, nodes: seq<string>)
    requires CanInterpolate(g.order, s0, loopback, polys, rs)
    ensures Run(g, steps, states) && states[0] == s0 && Ordinary(steps, loopback)
    ensures KeysHeld(g, Last(states), loopback, polys, rs, nodes)
    ensures loopback || rs !! polys.Keys ==> JointKeysHeld(g, Last(states), loopback, polys, rs, nodes)
  {
    steps, states, nodes := InterpolationReachable(g, s0, loopback, polys, rs);
    if loopback || rs !! polys.Keys {
      HeldIsJoint(g, Last(states), loopback, polys, rs, nodes);
    }
  }

  // ---------- nodes named by their indices ----------

  ghost function DecimalIds(a: nat, b: nat): (ids: set<string>) {
    set i: nat | a <= i < b :: Decimal(i)
  }

  lemma {:induction false} DecimalIdsCount(a: nat, b: nat)
    requires a <= b
    ensures |DecimalIds(a, b)| == b - a
  {
    if a == b {
      assert DecimalIds(a, b) == {};
    } else {
      DecimalIdsCount(a, b - 1);
      assert DecimalIds(a, b) == DecimalIds(a, b - 1) + {Decimal(b - 1)};
      forall i: nat | a <= i < b - 1
        ensures Decimal(i) != Decimal(b - 1)
      {
        assert DecimalValue(Decimal(i)) == i && DecimalValue(Decimal(b - 1)) == b - 1;
      }
      assert Decimal(b - 1) !in DecimalIds(a, b - 1);
    }
  }

  /** n nodes, named 1 to n, of one threshold. */
  ghost function DecimalSystem(threshold: U64, n: U64): (s: System)
    ensures Initial(s) && s.nodes.Keys == DecimalIds(1, n + 1) && Uniform(s, threshold) && Totals(s, n)
  {
    var ids := DecimalIds(1, n + 1);
    System(map d | d in ids :: Fresh(d, threshold, n), {}, {}, map d | d in ids :: 0, map[])
  }

  ghost predicate Totals(s: System, n: U64) {
    forall d :: d in s.nodes ==> s.nodes[d].totalNodes == n
  }

  lemma DecimalIndices(r: string, a: nat, b: nat)
    requires r in DecimalIds(a, b) && b <= U64_MAX + 1
    ensures a <= IndexOf(r) < b && r == Decimal(IndexOf(r))
  {
    var i: nat :| a <= i < b && r == Decimal(i);
    DecimalIdParses(i);
  }

  lemma DecimalIdsApart(a: nat, b: nat)
    requires b <= U64_MAX + 1
    ensures IndexedApart(DecimalIds(a, b))
  {
    var ids := DecimalIds(a, b);
    forall q, r | q in ids && r in ids && q != r
      ensures IndexOf(q) != IndexOf(r)
    {
      DecimalIndices(q, a, b);
      DecimalIndices(r, a, b);
    }
  }

  ghost predicate IndexedWithin(ids: set<string>, a: nat, b: nat) {
    forall r :: r in ids ==> a <= IndexOf(r) < b
  }

  lemma DecimalIdsWithin(a: nat, b: nat)
    requires b <= U64_MAX + 1
    ensures IndexedWithin(DecimalIds(a, b), a, b)
  {
    var ids := DecimalIds(a, b);
    forall r | r in ids
      ensures a <= IndexOf(r) < b
    {
      DecimalIndices(r, a, b);
    }
  }

  /** n nodes of one threshold, at different indices, that deal for all of them. */
  ghost predicate Whole(s0: System, threshold: U64, n: U64) {
    && Initial(s0) && Uniform(s0, threshold) && Totals(s0, n) && |s0.nodes| == n
    && IndexedWithin(s0.nodes.Keys, 1, n + 1) && IndexedApart(s0.nodes.Keys)
  }

  lemma DecimalWhole(threshold: U64, n: U64)
    ensures Whole(DecimalSystem(threshold, n), threshold, n)
  {
    var s := DecimalSystem(threshold, n);
    DecimalIdsCount(1, n + 1);
    DecimalIdsWithin(1, n + 1);
    DecimalIdsApart(1, n + 1);
    assert |s.nodes| == |s.nodes.Keys|;
  }

  lemma WholeCovers(s0: System, threshold: U64, n: U64, loopback: bool, dealers: set<string>, rs: set<string>)
    requires Whole(s0, threshold, n) && dealers <= s0.nodes.Keys && rs <= s0.nodes.Keys
    ensures AllCovered(s0, loopback, dealers, rs)
  {
  }

  /** The dealings of some nodes of such a system. */
  ghost predicate DealtBy(p: Modulus, s0: System, threshold: U64, polys: map<string, Poly>) {
    polys.Keys <= s0.nodes.Keys && forall d :: d in polys ==> Dealable(p, threshold, polys[d])
  }

  lemma DealtByCan(p: Modulus, s0: System, threshold: U64, polys: map<string, Poly>)
    requires Uniform(s0, threshold) && DealtBy(p, s0, threshold, polys)
    ensures CanDeal(p, s0, polys)
  {
  }

  lemma WholeGated(s0: System, threshold: U64, n: U64, loopback: bool, polys: map<string, Poly>, rs: set<string>,
        r: string)
    requires Whole(s0, threshold, n) && polys.Keys <= s0.nodes.Keys && rs <= s0.nodes.Keys && r in rs
    requires threshold <= |polys.Keys - if loopback then {} else {r}|
    requires exists w :: w in rs && Reaches(loopback, w, r) && polys.Keys - (if loopback then {} else {w}) != {}
    ensures Gated(s0, loopback, polys, rs, r)
  {
    WholeCovers(s0, threshold, n, loopback, polys.Keys, rs);
    MineAll(s0, loopback, polys, rs, r);
    assert |Mine(s0, loopback, polys, r)| == |Mine(s0, loopback, polys, r).Keys|;
    assert Mine(s0, loopback, polys, r).Keys == polys.Keys - if loopback then {} else {r};
    var w :| w in rs && Reaches(loopback, w, r) && polys.Keys - (if loopback then {} else {w}) != {};
    MineAll(s0, loopback, polys, rs, w);
    assert Mine(s0, loopback, polys, w).Keys == polys.Keys - if loopback then {} else {w};
    assert Validates(s0, loopback, polys, w, r);
  }

  /** Enough nodes for the threshold, and another to validate where nothing loops back. */
  predicate Suffices(threshold: U64, loopback: bool, n: nat) {
    n >= threshold + 1 && (loopback || n >= 2)
  }

  lemma OtherMember(s: set<string>, r: string) returns (w: string)
    requires |s| >= 2 && r in s
    ensures w in s && w != r
  {
    PutBack(s, r);
    w :| w in s - {r};
  }

  lemma WholeSuppliers(s0: System, threshold: U64, n: U64, loopback: bool, r: string)
    requires Whole(s0, threshold, n) && r in s0.nodes
    ensures Suppliers(s0, loopback, r) == s0.nodes.Keys - if loopback then {} else {r}
  {
  }

  /** Above threshold zero every node of such a system can be led to a key that is not joint. */
  lemma WholeMisleads(s0: System, threshold: U64, n: U64, loopback: bool, r: string)
    requires Whole(s0, threshold, n) && Suffices(threshold, loopback, n) && threshold >= 1 && r in s0.nodes
    ensures Misleads(s0, loopback, r)
  {
    assert |s0.nodes| == |s0.nodes.Keys|;
    PutBack(s0.nodes.Keys, r);
    var w := OtherMember(s0.nodes.Keys, r);
    WholeSuppliers(s0, threshold, n, loopback, r);
    WholeSuppliers(s0, threshold, n, loopback, w);
    assert w in Suppliers(s0, loopback, r) && s0.nodes[w].threshold >= 1;
    assert r in Suppliers(s0, loopback, w) && Reaches(loopback, w, r);
  }

  lemma AllDealGated(s0: System, threshold: U64, n: U64, loopback: bool, polys: map<string, Poly>, r: string)
    requires Whole(s0, threshold, n) && polys.Keys == s0.nodes.Keys && r in s0.nodes && Suffices(threshold, loopback, n)
    ensures Gated(s0, loopback, polys, s0.nodes.Keys, r)
  {
    assert |s0.nodes| == |s0.nodes.Keys|;
    PutBack(s0.nodes.Keys, r);
    if loopback {
      assert polys.Keys - {} == polys.Keys && r in polys.Keys - {};
      assert Reaches(loopback, r, r);
    } else {
      var w := OtherMember(s0.nodes.Keys, r);
      assert r in polys.Keys - {w} && Reaches(loopback, w, r);
    }
    WholeGated(s0, threshold, n, loopback, polys, s0.nodes.Keys, r);
  }

  lemma AllDealAllGated(s0: System, threshold: U64, n: U64, loopback: bool, polys: map<string, Poly>)
    requires Whole(s0, threshold, n) && polys.Keys == s0.nodes.Keys && Suffices(threshold, loopback, n)
    ensures AllGated(s0, loopback, polys, s0.nodes.Keys, s0.nodes.Keys)
  {
    forall r | r in s0.nodes.Keys
      ensures Gated(s0, loopback, polys, s0.nodes.Keys, r)
    {
      AllDealGated(s0, threshold, n, loopback, polys, r);
    }
  }

  lemma DealtNoLonger(p: Modulus, s0: System, threshold: U64, polys: map<string, Poly>, n: int)
    requires DealtBy(p, s0, threshold, polys) && threshold + 1 <= n
    ensures NoLonger(polys, n)
  {
  }

  lemma AllDealCan(p: Modulus, s0: System, threshold: U64, n: U64, loopback: bool, polys: map<string, Poly>)
    requires Whole(s0, threshold, n) && polys.Keys == s0.nodes.Keys && Suffices(threshold, loopback, n)
    requires DealtBy(p, s0, threshold, polys)
    ensures CanInterpolate(p, s0, loopback, polys, s0.nodes.Keys)
  {
    DealtByCan(p, s0, threshold, polys);
    WholeCovers(s0, threshold, n, loopback, polys.Keys, s0.nodes.Keys);
    AllDealAllGated(s0, threshold, n, loopback, polys);
    DealtNoLonger(p, s0, threshold, polys, n);
    assert |s0.nodes| == |s0.nodes.Keys|;
  }

  /**
   For every threshold and every n above it, all n nodes can deal, and be led by deliveries to keys
   that interpolate up to their own dealings; with loopback, to the joint key outright.
   */
  lemma AllDealInterpolate(g: PrimeGroup, s0: System, threshold: U64, n: U64, loopback: bool,
        polys: map<string, Poly>)
      returns (steps: seq<Step>, states: seq<System>, nodes: seq<string>)
    requires Whole(s0, threshold, n) && polys.Keys == s0.nodes.Keys && Suffices(threshold, loopback, n)
    requires DealtBy(g.order, s0, threshold, polys)
    ensures Run(g, steps, states) && states[0] == s0 && Ordinary(steps, loopback)
    ensures KeysHeld(g, Last(states), loopback, polys, s0.nodes.Keys, nodes)
    ensures loopback ==> JointKeysHeld(g, Last(states), loopback, polys, s0.nodes.Keys, nodes)
  {
    AllDealCan(g.order, s0, threshold, n, loopback, polys);
    steps, states, nodes := HeldReachable(g, s0, loopback, polys, s0.nodes.Keys);
  }

  ghost predicate OneEverywhere(c: Poly) {
    forall x: int :: Eval(c, x) == 1
  }

  ghost predicate AreOnes(polys: map<string, Poly>) {
    forall d :: d in polys ==> OneEverywhere(polys[d])
  }

  lemma OnesExist(p: Modulus, s0: System, threshold: U64) returns (polys: map<string, Poly>)
    ensures polys.Keys == s0.nodes.Keys && AreOnes(polys) && DealtBy(p, s0, threshold, polys)
  {
    polys := map d | d in s0.nodes.Keys :: One(threshold);
    forall x: int
      ensures Eval(One(threshold), x) == 1
    {
      EvalOne(threshold, x);
    }
  }

  /** Points of one scalar 1 at every index interpolate to the point of 1. */
  lemma OnesInterpolate(g: PrimeGroup, points: seq<IndexedPoint>)
    requires DistinctIndices(points) && points != []
    requires forall k :: 0 <= k < |points| ==> points[k].1 == g.Exp(1)
    ensures Interpolated(g, points) == g.Exp(1) != g.identity
  {
    var c: Poly := [1];
    forall k | 0 <= k < |points|
      ensures points[k].1 == g.Exp(Eval(c, points[k].0))
    {
      assert c[1..] == [] && Eval(c, points[k].0) == 1 + points[k].0 * Eval(c[1..], points[k].0);
    }
    ExponentInterpolation(g, c, points);
    EvalAtZero(c);
    ScalarsApart(g, 1);
    ExpZero(g);
  }

  lemma OnesMissing(g: PrimeGroup, s: System, polys: map<string, Poly>, nodes: seq<string>)
    requires KeyedWith(g, s, nodes, false, polys) && AreOnes(polys)
    requires forall k :: 0 <= k < |nodes| ==> nodes[k] in polys
    ensures var own := OwnPoints(g, s, nodes, CommitAll(g, polys));
            DistinctIndices(own) && forall k :: 0 <= k < |own| ==> own[k].1 == g.Exp(1)
  {
    forall k | 0 <= k < |nodes|
      ensures OwnPoint(g, nodes[k], s.keys[nodes[k]].0.commitments, CommitAll(g, polys)) == g.Exp(1)
    {
      CommitEvalIsExp(g, polys[nodes[k]], IndexOf(nodes[k]));
      assert OneEverywhere(polys[nodes[k]]);
    }
  }

  /** The keys do not interpolate to the joint key of `polys`. */
  ghost predicate OtherKeysHeld(g: PrimeGroup, s: System, loopback: bool, polys: map<string, Poly>,
                                rs: set<string>, nodes: seq<string>)
  {
    && KeysHeld(g, s, loopback, polys, rs, nodes)
    && Interpolated(g, KeyPoints(s, nodes)) != PointSum(g, Heads(CommitAll(g, polys)))
  }

  lemma OnesFail(g: PrimeGroup, s: System, polys: map<string, Poly>, rs: set<string>, nodes: seq<string>)
    requires KeysHeld(g, s, false, polys, rs, nodes)
    ensures rs == polys.Keys && AreOnes(polys) && polys != map[] ==> OtherKeysHeld(g, s, false, polys, rs, nodes)
  {
    if rs == polys.Keys && AreOnes(polys) && polys != map[] {
      OnesMissing(g, s, polys, nodes);
      OnesInterpolate(g, OwnPoints(g, s, nodes, CommitAll(g, polys)));
    }
  }

  lemma OnesReachable(g: PrimeGroup, s0: System, polys: map<string, Poly>, rs: set<string>)
      returns (steps: seq<Step>, states: seq<System>, nodes: seq<string>)
    requires CanInterpolate(g.order, s0, false, polys, rs)
    ensures Run(g, steps, states) && states[0] == s0 && Ordinary(steps, false)
    ensures KeysHeld(g, Last(states), false, polys, rs, nodes)
    ensures rs == polys.Keys && AreOnes(polys) && polys != map[] ==>
              OtherKeysHeld(g, Last(states), false, polys, rs, nodes)
  {
    steps, states, nodes := InterpolationReachable(g, s0, false, polys, rs);
    OnesFail(g, Last(states), polys, rs, nodes);
  }

  /**
   Without loopback that can fail for all nodes together: where every node dealt 1, the keys of
   all of them do not interpolate to the joint key.
   */
  lemma InterpolationFails(g: PrimeGroup, s0: System, threshold: U64, n: U64)
      returns (steps: seq<Step>, states: seq<System>, nodes: seq<string>, polys: map<string, Poly>)
    requires Whole(s0, threshold, n) && Suffices(threshold, false, n)
    ensures Run(g, steps, states) && states[0] == s0 && Ordinary(steps, false)
    ensures polys.Keys == s0.nodes.Keys && DealtBy(g.order, s0, threshold, polys)
    ensures OtherKeysHeld(g, Last(states), false, polys, s0.nodes.Keys, nodes)
  {
    polys := OnesExist(g.order, s0, threshold);
    AllDealCan(g.order, s0, threshold, n, false, polys);
    assert |s0.nodes| == |s0.nodes.Keys|;
    steps, states, nodes := OnesReachable(g, s0, polys, s0.nodes.Keys);
  }

  lemma MinusAbsent<T>(s: set<T>, x: T)
    requires x !in s
    ensures s - {x} == s
  {
  }

  lemma ApartGated(s0: System, threshold: U64, n: U64, polys: map<string, Poly>, rs: set<string>, r: string)
    requires Whole(s0, threshold, n) && polys.Keys <= s0.nodes.Keys && rs <= s0.nodes.Keys && rs !! polys.Keys
    requires polys != map[] && |polys| >= threshold && |rs| >= 2 && r in rs
    ensures Gated(s0, false, polys, rs, r)
  {
    var w := OtherMember(rs, r);
    MinusAbsent(polys.Keys, r);
    MinusAbsent(polys.Keys, w);
    assert |polys| == |polys.Keys| && Reaches(false, w, r);
    WholeGated(s0, threshold, n, false, polys, rs, r);
  }

  lemma ApartCan(p: Modulus, s0: System, threshold: U64, n: U64, polys: map<string, Poly>, rs: set<string>)
    requires Whole(s0, threshold, n) && DealtBy(p, s0, threshold, polys) && rs <= s0.nodes.Keys && rs !! polys.Keys
    requires polys != map[] && |polys| >= threshold && Suffices(threshold, false, |rs|)
    ensures CanInterpolate(p, s0, false, polys, rs)
  {
    DealtByCan(p, s0, threshold, polys);
    WholeCovers(s0, threshold, n, false, polys.Keys, rs);
    DealtNoLonger(p, s0, threshold, polys, |rs|);
    forall r | r in rs
      ensures Gated(s0, false, polys, rs, r)
    {
      ApartGated(s0, threshold, n, polys, rs, r);
    }
  }

  /** Without loopback, nodes that do not deal interpolate their keys to the joint key of those that do. */
  lemma ApartInterpolate(g: PrimeGroup, s0: System, threshold: U64, n: U64, polys: map<string, Poly>,
        rs: set<string>)
      returns (steps: seq<Step>, states: seq<System>, nodes: seq<string>)
    requires Whole(s0, threshold, n) && DealtBy(g.order, s0, threshold, polys)
    requires rs <= s0.nodes.Keys && rs !! polys.Keys
    requires polys != map[] && |polys| >= threshold && Suffices(threshold, false, |rs|)
    ensures Run(g, steps, states) && states[0] == s0 && Ordinary(steps, false)
    ensures JointKeysHeld(g, Last(states), false, polys, rs, nodes)
  {
    ApartCan(g.order, s0, threshold, n, polys, rs);
    steps, states, nodes := HeldReachable(g, s0, false, polys, rs);
  }
}
