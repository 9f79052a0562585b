/** What whole runs of the key generation guarantee. */
module AdkgTheorems {
  import opened Wrappers
  import opened PrimeField
  import opened Polynomials
  import opened Interpolation
  import opened CyclicGroup
  import opened Feldman
  import opened MapSums
  import opened AdkgNode
  import opened AdkgRuns
  import opened AdkgOpenRuns

  // ---------- dealing and verifying ----------

  /** A dealing of n shares is accepted at exactly the indices 1 to n. */
  lemma DealingAccepted(g: PrimeGroup, c: Poly, n: U64, idx: U64)
    ensures Verified(g, idx, Deal(g.order, c, n), Commit(g, c)) <==> 1 <= idx <= n
  {
    if 1 <= idx <= n {
      var share := Deal(g.order, c, n)[idx - 1];
      ModSmall(g.order, share);
      AcceptsIff(g, c, idx, share);
    }
  }

  /** With no commitments the check passes for the zero share alone: the count is not checked. */
  lemma EmptyCommitments(g: PrimeGroup, idx: U64, shares: seq<int>)
    ensures Verified(g, idx, shares, []) <==> 1 <= idx <= |shares| && shares[idx - 1] % g.order == 0
  {
    if 1 <= idx <= |shares| {
      assert Commit(g, []) == [];
      AcceptsIff(g, [], idx, shares[idx - 1]);
      ModSmall(g.order, 0);
    }
  }

  lemma CheckPanicsIff(g: PrimeGroup, v: NodeState)
    ensures Checked(g, v).1 == Panicked <==> ValidAcks(v.acks) >= v.t && !AllNonEmpty(v.commitments)
  {
  }

  /** Whatever a node has stored, a handler panics exactly when its check fires over an empty vector. */
  lemma PanicIff(g: PrimeGroup, v: NodeState, m: Message, publishOk: bool)
    ensures Handle(g, v, m, publishOk).outcome == Panicked <==> Fires(v, m) && !AllNonEmpty(v.commitments)
  {
    if m.ShareAck? {
      var v' := v.(acks := AddAck(v.acks, m.senderId, m.valid));
      CheckPanicsIff(g, v');
      assert AfterAck(g, v, m) == if m.receiverId == v.id then Checked(g, v') else (v, Finished);
    }
  }

  /** A vector without commitments, proposed by an outsider. */
  ghost predicate HoldsOutsidersVoid(s: System, v: NodeState) {
    exists d :: d in v.commitments && d !in s.nodes && v.commitments[d] == []
  }

  /** With authentic identities, in every run, such a vector is an outsider's. */
  lemma VoidFromOutsiderIff(g: PrimeGroup, steps: seq<Step>, states: seq<System>, k: nat, r: string)
    requires Run(g, steps, states) && k < |states| && r in states[k].nodes
    ensures !AllNonEmpty(states[k].nodes[r].commitments) <==> HoldsOutsidersVoid(states[k], states[k].nodes[r])
  {
    var s := states[k];
    var v := s.nodes[r];
    NodeInvariant(g, steps, states, k, r);
    forall d | d in v.commitments && d in s.nodes
      ensures v.commitments[d] != []
    {
      NodeInvariant(g, steps, states, k, d);
      assert |v.commitments[d]| == s.nodes[d].t + 1;
    }
  }

  // ---------- what nodes store ----------

  /** In every state of every run, each stored share satisfies the Feldman equation of its sender. */
  lemma StoredSharesVerified(g: PrimeGroup, steps: seq<Step>, states: seq<System>, k: nat, r: string)
    requires OpenRun(g, steps, states) && k < |states| && r in states[k].nodes
    ensures var v := states[k].nodes[r];
            && v.commitments.Keys == v.shares.Keys + (if r in states[k].polys then {r} else {})
            && forall d :: d in v.shares ==> Accepts(g, v.commitments[d], v.idx, v.shares[d])
  {
    OpenNode(g, steps, states, k, r);
  }

  lemma LocalShareExact(g: PrimeGroup, ids: set<string>, polys: map<string, Poly>, v: NodeState, d: string)
    requires LocalInv(g, ids, polys, v) && d in v.shares && d in ids
    ensures d in polys && v.shares[d] == Eval(polys[d], v.idx) % g.order
  {
    assert d in v.commitments && v.commitments[d] == Commit(g, polys[d]);
    AcceptsIff(g, polys[d], v.idx, v.shares[d]);
    ModSmall(g.order, v.shares[d]);
  }

  lemma AckedShare(g: PrimeGroup, s: System, d: string, r: string, i: nat)
    requires d in s.nodes && r in s.nodes && s.nodes[d].id == d
    requires AcksInv(s, s.nodes[d]) && LocalInv(g, s.nodes.Keys, s.polys, s.nodes[r])
    requires r in s.nodes[d].acks && i < |s.nodes[d].acks[r]|
    ensures s.nodes[d].acks[r][i] == (r, true)
    ensures d in s.polys && d in s.nodes[r].shares
    ensures s.nodes[r].shares[d] == Eval(s.polys[d], s.nodes[r].idx) % g.order
  {
    var entry := s.nodes[d].acks[r][i];
    assert entry.0 == r && entry.1 && d in s.nodes[r].shares;
    LocalShareExact(g, s.nodes.Keys, s.polys, s.nodes[r], d);
  }

  /** Every ack a node records from another node is valid and backed by that node's exact share. */
  lemma AckBacking(g: PrimeGroup, steps: seq<Step>, states: seq<System>, k: nat, d: string, r: string, i: nat)
    requires Run(g, steps, states) && k < |states|
    requires d in states[k].nodes && r in states[k].nodes
    requires r in states[k].nodes[d].acks && i < |states[k].nodes[d].acks[r]|
    ensures states[k].nodes[d].acks[r][i] == (r, true)
    ensures d in states[k].polys && d in states[k].nodes[r].shares
    ensures states[k].nodes[r].shares[d] == Eval(states[k].polys[d], states[k].nodes[r].idx) % g.order
  {
    NodeInvariant(g, steps, states, k, d);
    NodeInvariant(g, steps, states, k, r);
    AckedShare(g, states[k], d, r, i);
  }

  ghost predicate HaveAcked(s: System, d: string, nodes: seq<string>) {
    && d in s.nodes
    && forall k :: 0 <= k < |nodes| ==>
         nodes[k] in s.nodes && nodes[k] in s.nodes[d].acks && s.nodes[d].acks[nodes[k]] != []
  }

  ghost predicate DistinctIdx(s: System, nodes: seq<string>) {
    && (forall k :: 0 <= k < |nodes| ==> nodes[k] in s.nodes)
    && forall k, l :: 0 <= k < l < |nodes| ==> s.nodes[nodes[k]].idx != s.nodes[nodes[l]].idx
  }

  /** Once more nodes have acked a dealer than its degree, what they store gives its secret. */
  lemma AckedSecretRecoverable(g: PrimeGroup, steps: seq<Step>, states: seq<System>, k: nat, d: string,
        nodes: seq<string>)
      returns (shares: seq<Share>)
    requires Run(g, steps, states) && k < |states|
    requires HaveAcked(states[k], d, nodes) && DistinctIdx(states[k], nodes)
    requires |nodes| >= states[k].nodes[d].t + 1
    ensures |shares| == |nodes|
    ensures forall i :: 0 <= i < |nodes| ==> var v := states[k].nodes[nodes[i]];
              d in v.shares && shares[i] == (v.idx, v.shares[d])
    ensures d in states[k].polys && states[k].polys[d] != []
    ensures Reconstruct(g.order, shares) == states[k].polys[d][0]
  {
    var s, p := states[k], g.order;
    NodeInvariant(g, steps, states, k, d);
    forall i | 0 <= i < |nodes|
      ensures d in s.polys && d in s.nodes[nodes[i]].shares
      ensures s.nodes[nodes[i]].shares[d] == Eval(s.polys[d], s.nodes[nodes[i]].idx) % p
    {
      AckBacking(g, steps, states, k, d, nodes[i], 0);
    }
    assert d in s.nodes[nodes[0]].shares;
    shares := seq(|nodes|, i requires 0 <= i < |nodes| => (s.nodes[nodes[i]].idx, s.nodes[nodes[i]].shares[d]));
    SecretOfShares(p, s.polys[d], shares);
  }

  lemma SecretOfShares(p: Modulus, c: Poly, shares: seq<Share>)
    requires DistinctIndices(shares) && |shares| >= |c| > 0 && IsScalar(p, c[0])
    requires forall i :: 0 <= i < |shares| ==> shares[i].1 == Eval(c, shares[i].0) % p
    ensures Reconstruct(p, shares) == c[0]
  {
    JointSecret(p, c, shares);
    EvalAtZero(c);
    ModSmall(p, c[0]);
  }

  // ---------- keys after completion ----------

  function Restrict(m: map<string, Poly>, keys: set<string>): (r: map<string, Poly>)
    ensures r.Keys == m.Keys * keys && forall d :: d in r ==> r[d] == m[d]
  {
    map d | d in m && d in keys :: m[d]
  }

  /** A share sum is the value at idx of the joint polynomial of the dealers behind it. */
  lemma ShareSum(g: PrimeGroup, started: bool, v: NodeState)
    requires StoredInv(g, started, v)
    ensures var dealers := Restrict(CommittedPolys(g, v.commitments), v.shares.Keys);
            IntSum(v.shares) % g.order == IntSum(Values(dealers, v.idx)) % g.order
  {
    var p := g.order;
    var dealers := Restrict(CommittedPolys(g, v.commitments), v.shares.Keys);
    forall d | d in v.shares
      ensures Cong(p, v.shares[d], Values(dealers, v.idx)[d])
    {
      var c := Committed(g, v.commitments[d]);
      CommitCommitted(g, v.commitments[d]);
      AcceptsIff(g, c, v.idx, v.shares[d]);
      CongIff(p, v.shares[d], Eval(c, v.idx));
    }
    IntSumCong(p, v.shares, Values(dealers, v.idx));
    CongIff(p, IntSum(v.shares), IntSum(Values(dealers, v.idx)));
  }

  ghost predicate OwnContained(g: PrimeGroup, v: NodeState) {
    v.id in v.commitments && Contained(g, v.commitments[v.id])
  }

  /** The node's own dealing, where it is missing from the shares it summed. */
  ghost function MissingOwn(g: PrimeGroup, v: NodeState): int
    requires OwnContained(g, v)
  {
    if v.id in v.shares then 0 else Eval(Committed(g, v.commitments[v.id]), v.idx)
  }

  lemma SumWithout(all: map<string, Poly>, keep: set<string>, own: string, x: int)
    requires all.Keys == keep + {own}
    ensures IntSum(Values(all, x)) ==
            IntSum(Values(Restrict(all, keep), x)) + if own in keep then 0 else Eval(all[own], x)
  {
    var rest := Restrict(all, keep);
    if own in keep {
      assert rest == all;
    } else {
      IntSumRemove(Values(all, x), own);
      assert Values(all, x) - {own} == Values(rest, x);
    }
  }

  lemma JointOfPart(all: map<string, Poly>, keep: set<string>, own: string, x: int)
    requires all.Keys == keep + {own}
    ensures IntSum(Values(Restrict(all, keep), x)) ==
            Eval(JointPoly(all), x) - if own in keep then 0 else Eval(all[own], x)
  {
    SumWithout(all, keep, own, x);
    JointEval(all, x);
  }

  lemma SecretOfCheck(g: PrimeGroup, c: NodeState)
    requires c.commitments.Keys == c.shares.Keys + {c.id}
    requires forall d :: d in c.commitments ==> Contained(g, c.commitments[d])
    ensures var all := CommittedPolys(g, c.commitments);
            IntSum(Values(Restrict(all, c.shares.Keys), c.idx)) == Eval(JointPoly(all), c.idx) - MissingOwn(g, c)
  {
    JointOfPart(CommittedPolys(g, c.commitments), c.shares.Keys, c.id, c.idx);
  }

  /**
   Keys against the joint polynomial F of everything a node had commitments from: the public key
   is the generator times F(0), and the secret share falls short of F(idx) by exactly the node's
   own dealing, unless that was delivered back to it.
   */
  ghost predicate KeysMatch(g: PrimeGroup, c: NodeState, secretKeyShare: Option<int>, publicKey: Option<Point>)
    requires c.id in c.commitments && forall d :: d in c.commitments ==> Contained(g, c.commitments[d])
  {
    var f, own := JointPoly(CommittedPolys(g, c.commitments)), MissingOwn(g, c);
    && publicKey == Some(g.Exp(Eval(f, 0)))
    && secretKeyShare == Some((Eval(f, c.idx) - own) % g.order)
    && (secretKeyShare == Some(Eval(f, c.idx) % g.order) <==> own % g.order == 0)
  }

  lemma SumsMatch(g: PrimeGroup, c: NodeState, sum: int)
    requires c.id in c.commitments && forall d :: d in c.commitments ==> Contained(g, c.commitments[d])
    requires AllNonEmpty(c.commitments)
    requires sum % g.order == (Eval(JointPoly(CommittedPolys(g, c.commitments)), c.idx) - MissingOwn(g, c)) % g.order
    ensures KeysMatch(g, c, Some(sum % g.order), Some(PointSum(g, Heads(c.commitments))))
  {
    HeadSum(g, c.commitments);
    SubtractZero(g.order, Eval(JointPoly(CommittedPolys(g, c.commitments)), c.idx), MissingOwn(g, c));
  }

  lemma MatchOfCheck(g: PrimeGroup, c: NodeState)
    requires StoredInv(g, true, c) && AllNonEmpty(c.commitments)
    ensures KeysMatch(g, c, Some(IntSum(c.shares) % g.order), Some(PointSum(g, Heads(c.commitments))))
  {
    ShareSum(g, true, c);
    SecretOfCheck(g, c);
    SumsMatch(g, c, IntSum(c.shares));
  }

  /** In every state of every run, a completed node's keys match what it had stored at its last check. */
  lemma LocalKeyConsistency(g: PrimeGroup, steps: seq<Step>, states: seq<System>, k: nat, r: string)
    requires OpenRun(g, steps, states) && k < |states| && r in states[k].nodes && r in states[k].checks
    requires AllNonEmpty(states[k].checks[r].commitments)
    ensures var v, c := states[k].nodes[r], states[k].checks[r];
            && c.id == r && c.idx == v.idx && r in c.commitments
            && (forall d :: d in c.commitments ==> Contained(g, c.commitments[d]))
            && KeysMatch(g, c, v.secretKeyShare, v.publicKey)
  {
    OpenNode(g, steps, states, k, r);
    MatchOfCheck(g, states[k].checks[r]);
  }

  lemma SubtractZero(p: Modulus, a: int, b: int)
    ensures (a - b) % p == a % p <==> b % p == 0
  {
    CongIff(p, a, a - b);
    DividesMod(p, b);
    assert a - (a - b) == b;
  }

  function SharePoints(g: PrimeGroup, c: NodeState): (m: map<string, Point>)
    requires c.shares.Keys <= c.commitments.Keys
    ensures m.Keys == c.shares.Keys
  {
    map d | d in c.shares :: CommitEval(g, c.commitments[d], c.idx)
  }

  /** The commitments alone tell what the generator times a node's secret share must be. */
  lemma SecretShareCommitted(g: PrimeGroup, steps: seq<Step>, states: seq<System>, k: nat, r: string)
    requires OpenRun(g, steps, states) && k < |states| && r in states[k].nodes
    requires states[k].nodes[r].secretKeyShare.Some?
    ensures r in states[k].checks && states[k].checks[r].shares.Keys <= states[k].checks[r].commitments.Keys
    ensures g.Exp(states[k].nodes[r].secretKeyShare.value) == PointSum(g, SharePoints(g, states[k].checks[r]))
  {
    OpenNode(g, steps, states, k, r);
    var c := states[k].checks[r];
    SharesAsPoints(g, c);
    CongMod(g.order, IntSum(c.shares));
    ExpCong(g, IntSum(c.shares) % g.order, IntSum(c.shares));
  }

  lemma SharesAsPoints(g: PrimeGroup, c: NodeState)
    requires StoredInv(g, true, c)
    ensures PointSum(g, SharePoints(g, c)) == g.Exp(IntSum(c.shares))
  {
    forall d | d in c.shares
      ensures g.Exp(c.shares[d]) == SharePoints(g, c)[d]
    {
      assert Accepts(g, c.commitments[d], c.idx, c.shares[d]);
    }
    PointSumOfExps(g, SharePoints(g, c), c.shares);
  }

  // ---------- agreement ----------

  /** The secret shares of some nodes, paired with their indices. */
  ghost function SecretShares(s: System, nodes: seq<string>): (shares: seq<Share>)
    requires forall k :: 0 <= k < |nodes| ==> nodes[k] in s.nodes && s.nodes[nodes[k]].secretKeyShare.Some?
    ensures |shares| == |nodes|
    ensures forall k :: 0 <= k < |nodes| ==>
              shares[k] == (s.nodes[nodes[k]].idx, s.nodes[nodes[k]].secretKeyShare.value)
  {
    seq(|nodes|, k requires 0 <= k < |nodes| => (s.nodes[nodes[k]].idx, s.nodes[nodes[k]].secretKeyShare.value))
  }

  /** Nodes that completed, each having stored its own commitments. */
  ghost predicate Done(g: PrimeGroup, s: System, nodes: seq<string>) {
    forall k :: 0 <= k < |nodes| ==>
      && nodes[k] in s.nodes && s.nodes[nodes[k]].secretKeyShare.Some?
      && nodes[k] in s.checks && OwnContained(g, s.checks[nodes[k]])
  }

  /** What the nodes' secret shares fall short by, at their indices. */
  ghost function MissingShares(g: PrimeGroup, s: System, nodes: seq<string>): (shares: seq<Share>)
    requires Done(g, s, nodes)
    ensures |shares| == |nodes|
    ensures forall k :: 0 <= k < |nodes| ==>
              shares[k] == (s.nodes[nodes[k]].idx, MissingOwn(g, s.checks[nodes[k]]))
  {
    seq(|nodes|, k requires 0 <= k < |nodes| => (s.nodes[nodes[k]].idx, MissingOwn(g, s.checks[nodes[k]])))
  }

  /** Every node's public key is the generator times what the nodes' secret shares reconstruct. */
  ghost predicate KeysFit(g: PrimeGroup, s: System, nodes: seq<string>)
    requires Done(g, s, nodes)
  {
    forall i :: 0 <= i < |nodes| ==>
      s.nodes[nodes[i]].publicKey == Some(g.Exp(Reconstruct(g.order, SecretShares(s, nodes))))
  }

  /**
   Every node holds the public key of `secret`; the nodes' secret shares reconstruct it less what
   their missing own dealings reconstruct, so that keys and shares fit exactly when that is zero.
   */
  ghost predicate AgreeUpToMissing(g: PrimeGroup, s: System, nodes: seq<string>, secret: int)
    requires Done(g, s, nodes)
  {
    var p, missing := g.order, Reconstruct(g.order, MissingShares(g, s, nodes));
    && (forall i :: 0 <= i < |nodes| ==> s.nodes[nodes[i]].publicKey == Some(g.Exp(secret)))
    && Reconstruct(p, SecretShares(s, nodes)) == Sub(p, secret, missing)
    && (KeysFit(g, s, nodes) <==> missing == 0)
  }

  ghost predicate CompletedOver(s: System, nodes: seq<string>, commitments: map<string, seq<Point>>) {
    forall k :: 0 <= k < |nodes| ==>
      nodes[k] in s.nodes && nodes[k] in s.checks && s.checks[nodes[k]].commitments == commitments
  }

  /** A node's keys match the joint polynomial f, up to its missing own dealing. */
  ghost predicate ShareOf(g: PrimeGroup, s: System, r: string, f: Poly)
    requires r in s.nodes && r in s.checks && OwnContained(g, s.checks[r])
  {
    var v := s.nodes[r];
    && v.secretKeyShare == Some((Eval(f, v.idx) - MissingOwn(g, s.checks[r])) % g.order)
    && v.publicKey == Some(g.Exp(Eval(f, 0)))
  }

  ghost predicate SharesOf(g: PrimeGroup, s: System, nodes: seq<string>, f: Poly)
    requires Done(g, s, nodes)
  {
    forall i :: 0 <= i < |nodes| ==> ShareOf(g, s, nodes[i], f)
  }

  lemma CompletedShare(g: PrimeGroup, steps: seq<Step>, states: seq<System>, k: nat, r: string)
    requires OpenRun(g, steps, states) && k < |states| && r in states[k].nodes && r in states[k].checks
    requires AllNonEmpty(states[k].checks[r].commitments)
    ensures states[k].nodes[r].secretKeyShare.Some? && OwnContained(g, states[k].checks[r])
    ensures var commitments := states[k].checks[r].commitments;
            && (forall d :: d in commitments ==> Contained(g, commitments[d]))
            && ShareOf(g, states[k], r, JointPoly(CommittedPolys(g, commitments)))
  {
    LocalKeyConsistency(g, steps, states, k, r);
  }

  lemma CompletedShares(g: PrimeGroup, steps: seq<Step>, states: seq<System>, k: nat, nodes: seq<string>,
        commitments: map<string, seq<Point>>)
    requires OpenRun(g, steps, states) && k < |states|
    requires CompletedOver(states[k], nodes, commitments) && AllNonEmpty(commitments) && nodes != []
    ensures Done(g, states[k], nodes) && forall d :: d in commitments ==> Contained(g, commitments[d])
    ensures SharesOf(g, states[k], nodes, JointPoly(CommittedPolys(g, commitments)))
  {
    var s := states[k];
    CompletedShare(g, steps, states, k, nodes[0]);
    var f := JointPoly(CommittedPolys(g, commitments));
    forall i | 0 <= i < |nodes|
      ensures s.nodes[nodes[i]].secretKeyShare.Some? && OwnContained(g, s.checks[nodes[i]])
      ensures ShareOf(g, s, nodes[i], f)
    {
      CompletedShare(g, steps, states, k, nodes[i]);
    }
  }

  /** The shares are the values of f less the missing ones. */
  predicate FallShort(p: Modulus, f: Poly, shares: seq<Share>, missing: seq<Share>)
    requires |shares| == |missing|
  {
    forall i :: 0 <= i < |shares| ==> ShortBy(p, f, shares[i], missing[i].1)
  }

  predicate ShortBy(p: Modulus, f: Poly, share: Share, missing: int) {
    share.1 == (Eval(f, share.0) - missing) % p
  }

  /** Shares of f, less what is missing, reconstruct its secret less what the missing ones reconstruct. */
  lemma SecretUpToMissing(p: Modulus, f: Poly, shares: seq<Share>, missing: seq<Share>)
    requires DistinctIndices(shares) && |shares| >= |f| && SameIndices(missing, shares)
    requires FallShort(p, f, shares, missing)
    ensures Add(p, Reconstruct(p, shares), Reconstruct(p, missing)) == Eval(f, 0) % p
  {
    var full: seq<Share> := seq(|shares|, i requires 0 <= i < |shares| =>
      (shares[i].0, Eval(f, shares[i].0) % p));
    forall i | 0 <= i < |shares|
      ensures Cong(p, shares[i].1 + missing[i].1, full[i].1)
    {
      assert ShortBy(p, f, shares[i], missing[i].1);
      AddBack(p, Eval(f, shares[i].0), missing[i].1);
    }
    JointSecret(p, f, full);
    ReconstructionAdds(p, shares, missing, full);
  }

  lemma SharesApart(g: PrimeGroup, s: System, nodes: seq<string>)
    requires Done(g, s, nodes) && DistinctIdx(s, nodes)
    ensures DistinctIndices(SecretShares(s, nodes))
    ensures SameIndices(MissingShares(g, s, nodes), SecretShares(s, nodes))
  {
    var shares := SecretShares(s, nodes);
    forall i, j | 0 <= i < j < |shares|
      ensures shares[i].0 != shares[j].0
    {
      assert shares[i].0 == s.nodes[nodes[i]].idx && shares[j].0 == s.nodes[nodes[j]].idx;
    }
  }

  lemma SharesFallShort(g: PrimeGroup, s: System, nodes: seq<string>, f: Poly)
    requires Done(g, s, nodes) && SharesOf(g, s, nodes, f)
    ensures FallShort(g.order, f, SecretShares(s, nodes), MissingShares(g, s, nodes))
  {
    var shares, missing := SecretShares(s, nodes), MissingShares(g, s, nodes);
    forall i | 0 <= i < |nodes|
      ensures ShortBy(g.order, f, shares[i], missing[i].1)
    {
      assert ShareOf(g, s, nodes[i], f);
    }
  }

  lemma KeysFitIff(g: PrimeGroup, s: System, nodes: seq<string>, secret: int)
    requires Done(g, s, nodes) && nodes != []
    requires forall i :: 0 <= i < |nodes| ==> s.nodes[nodes[i]].publicKey == Some(g.Exp(secret))
    ensures KeysFit(g, s, nodes) <==> g.Exp(Reconstruct(g.order, SecretShares(s, nodes))) == g.Exp(secret)
  {
    assert s.nodes[nodes[0]].publicKey == Some(g.Exp(secret));
  }

  lemma ReconstructsUpToMissing(g: PrimeGroup, s: System, nodes: seq<string>, f: Poly)
    requires Done(g, s, nodes) && SharesOf(g, s, nodes, f)
    requires DistinctIdx(s, nodes) && |nodes| >= |f| && nodes != []
    ensures AgreeUpToMissing(g, s, nodes, Eval(f, 0))
  {
    var p, shares, missing := g.order, SecretShares(s, nodes), MissingShares(g, s, nodes);
    SharesApart(g, s, nodes);
    SharesFallShort(g, s, nodes, f);
    SecretUpToMissing(p, f, shares, missing);
    AddsToSecret(g, Reconstruct(p, shares), Reconstruct(p, missing), Eval(f, 0));
    forall i | 0 <= i < |nodes|
      ensures s.nodes[nodes[i]].publicKey == Some(g.Exp(Eval(f, 0)))
    {
      assert ShareOf(g, s, nodes[i], f);
    }
    KeysFitIff(g, s, nodes, Eval(f, 0));
  }

  lemma AddBack(p: Modulus, y: int, own: int)
    ensures Cong(p, (y - own) % p + own, y % p)
  {
    CongMod(p, y - own);
    CongRefl(p, own);
    CongAdd(p, (y - own) % p, y - own, own, own);
    CongMod(p, y);
    CongTrans(p, (y - own) % p + own, y, y % p);
  }

  lemma AddsToSecret(g: PrimeGroup, shared: int, missing: int, secret: int)
    requires IsScalar(g.order, shared) && IsScalar(g.order, missing)
    requires Add(g.order, shared, missing) == secret % g.order
    ensures shared == Sub(g.order, secret, missing)
    ensures g.Exp(shared) == g.Exp(secret) <==> missing == 0
  {
    var p := g.order;
    CongIff(p, shared + missing, secret);
    CongRefl(p, -missing);
    CongAdd(p, shared + missing, secret, -missing, -missing);
    CongIff(p, shared, secret - missing);
    ModSmall(p, shared);
    ExpInjective(g, shared, secret);
    SubtractZero(p, secret, missing);
    ModSmall(p, missing);
  }

  /**
   Enough nodes at distinct indices that completed over the same nonempty commitments, outsiders'
   included, hold the public key of one joint secret, and shares of it up to their own dealings.
   */
  lemma AgreementOnCommitments(g: PrimeGroup, steps: seq<Step>, states: seq<System>, k: nat,
                               nodes: seq<string>, commitments: map<string, seq<Point>>)
    requires OpenRun(g, steps, states) && k < |states|
    requires CompletedOver(states[k], nodes, commitments) && DistinctIdx(states[k], nodes)
    requires nodes != [] && AllNonEmpty(commitments)
    requires forall d :: d in commitments ==> |nodes| >= |commitments[d]|
    ensures Done(g, states[k], nodes) && forall d :: d in commitments ==> Contained(g, commitments[d])
    ensures AgreeUpToMissing(g, states[k], nodes, Eval(JointPoly(CommittedPolys(g, commitments)), 0))
  {
    CompletedShares(g, steps, states, k, nodes, commitments);
    JointLength(CommittedPolys(g, commitments), |nodes|);
    ReconstructsUpToMissing(g, states[k], nodes, JointPoly(CommittedPolys(g, commitments)));
  }

  lemma JointSecret(p: Modulus, f: Poly, shares: seq<Share>)
    requires DistinctIndices(shares) && |shares| >= |f|
    requires forall i :: 0 <= i < |shares| ==> shares[i].1 == Eval(f, shares[i].0) % p
    ensures Reconstruct(p, shares) == Eval(f, 0) % p
  {
    forall i | 0 <= i < |shares|
      ensures Cong(p, shares[i].1, Eval(f, shares[i].0))
    {
      CongMod(p, Eval(f, shares[i].0));
    }
    ReconstructionTheorem(p, f, shares);
  }

  /** The secrets of dealers: the constant terms of what they dealt. */
  function Secrets(polys: map<string, Poly>, dealers: set<string>): map<string, int>
    requires dealers <= polys.Keys && forall d :: d in dealers ==> polys[d] != []
  {
    map d | d in dealers :: polys[d][0]
  }

  /** More nodes than any dealer's degree, all completed over the commitments of the nodes `dealers`. */
  ghost predicate CompletedBy(s: System, nodes: seq<string>, dealers: set<string>) {
    && dealers <= s.nodes.Keys
    && (forall k :: 0 <= k < |nodes| ==>
          nodes[k] in s.nodes && nodes[k] in s.checks && s.checks[nodes[k]].commitments.Keys == dealers)
    && forall d :: d in dealers ==> |nodes| >= s.nodes[d].t + 1
  }

  /** The commitments the nodes `dealers` publish. */
  function Publications(g: PrimeGroup, polys: map<string, Poly>, dealers: set<string>): (m: map<string, seq<Point>>)
    requires dealers <= polys.Keys
    ensures m.Keys == dealers && forall d :: d in m ==> m[d] == Commit(g, polys[d])
  {
    map d | d in dealers :: Commit(g, polys[d])
  }

  /** A check over the commitments of nodes saw exactly what they published. */
  lemma HonestCheck(g: PrimeGroup, ids: set<string>, polys: map<string, Poly>, c: NodeState)
    requires LocalInv(g, ids, polys, c) && c.commitments.Keys <= ids
    ensures c.commitments.Keys <= polys.Keys && c.commitments == Publications(g, polys, c.commitments.Keys)
  {
    assert forall d :: d in c.commitments ==> d in polys;
  }

  lemma HonestCommitments(g: PrimeGroup, steps: seq<Step>, states: seq<System>, k: nat,
                          nodes: seq<string>, dealers: set<string>)
    requires Run(g, steps, states) && k < |states|
    requires CompletedBy(states[k], nodes, dealers) && nodes != []
    ensures dealers <= states[k].polys.Keys
    ensures CompletedOver(states[k], nodes, Publications(g, states[k].polys, dealers))
  {
    var s := states[k];
    forall i | 0 <= i < |nodes|
      ensures dealers <= s.polys.Keys && s.checks[nodes[i]].commitments == Publications(g, s.polys, dealers)
    {
      CheckFacts(g, steps, states, k, nodes[i]);
      HonestCheck(g, s.nodes.Keys, s.polys, s.checks[nodes[i]]);
    }
    assert nodes[0] in s.nodes;
  }

  /** Over what nodes dealt, the joint constant term is the sum of the secrets. */
  lemma DealtSecrets(g: PrimeGroup, polys: map<string, Poly>, dealers: set<string>)
    requires dealers <= polys.Keys
    requires forall d :: d in dealers ==> polys[d] != []
    requires forall d, j :: d in dealers && 0 <= j < |polys[d]| ==> IsScalar(g.order, polys[d][j])
    ensures forall d :: d in dealers ==> Contained(g, Commit(g, polys[d]))
    ensures Eval(JointPoly(CommittedPolys(g, Publications(g, polys, dealers))), 0) == IntSum(Secrets(polys, dealers))
  {
    forall d | d in dealers
      ensures Contained(g, Commit(g, polys[d])) && Committed(g, Commit(g, polys[d])) == polys[d]
    {
      CommittedCommit(g, polys[d]);
    }
    var all := CommittedPolys(g, Publications(g, polys, dealers));
    JointEval(all, 0);
    forall d | d in dealers
      ensures Values(all, 0)[d] == polys[d][0]
    {
      EvalAtZero(polys[d]);
    }
    assert Values(all, 0) == Secrets(polys, dealers);
  }

  /**
   Key agreement with its exact condition, in every run: nodes that completed over the same node
   dealers hold the public key of the sum of the dealers' secrets, and their shares reconstruct
   that sum less what the own dealings never delivered back reconstruct.
   */
  lemma KeyAgreementIff(g: PrimeGroup, steps: seq<Step>, states: seq<System>, k: nat, nodes: seq<string>,
        dealers: set<string>)
    requires Run(g, steps, states) && k < |states|
    requires nodes != [] && CompletedBy(states[k], nodes, dealers) && DistinctIdx(states[k], nodes)
    ensures Done(g, states[k], nodes)
    ensures dealers <= states[k].polys.Keys && forall d :: d in dealers ==> states[k].polys[d] != []
    ensures AgreeUpToMissing(g, states[k], nodes, IntSum(Secrets(states[k].polys, dealers)))
  {
    var s := states[k];
    HonestCommitments(g, steps, states, k, nodes, dealers);
    forall d | d in dealers
      ensures Dealable(g.order, s.nodes[d].t, s.polys[d])
    {
      NodeInvariant(g, steps, states, k, d);
    }
    DealtSecrets(g, s.polys, dealers);
    RunIsOpen(g, steps, states);
    AgreementOnCommitments(g, steps, states, k, nodes, Publications(g, s.polys, dealers));
  }

  /** Each node's own dealing was delivered back to it before its latest check. */
  ghost predicate OwnIncluded(s: System, nodes: seq<string>) {
    forall k :: 0 <= k < |nodes| ==> nodes[k] in s.checks && nodes[k] in s.checks[nodes[k]].shares
  }

  /** The nodes' shares reconstruct the sum of the dealers' secrets, and each holds its public key. */
  ghost predicate Agree(g: PrimeGroup, s: System, nodes: seq<string>, dealers: set<string>) {
    && (forall i :: 0 <= i < |nodes| ==> nodes[i] in s.nodes && s.nodes[nodes[i]].secretKeyShare.Some?)
    && dealers <= s.polys.Keys && (forall d :: d in dealers ==> s.polys[d] != [])
    && var secret := IntSum(Secrets(s.polys, dealers)) % g.order;
       && Reconstruct(g.order, SecretShares(s, nodes)) == secret
       && forall i :: 0 <= i < |nodes| ==> s.nodes[nodes[i]].publicKey == Some(g.Exp(secret))
  }

  /** With every node's own dealing included, the nodes agree outright. */
  lemma KeyAgreement(g: PrimeGroup, steps: seq<Step>, states: seq<System>, k: nat, nodes: seq<string>,
        dealers: set<string>)
    requires Run(g, steps, states) && k < |states|
    requires nodes != [] && CompletedBy(states[k], nodes, dealers) && DistinctIdx(states[k], nodes)
    requires OwnIncluded(states[k], nodes)
    ensures Agree(g, states[k], nodes, dealers)
  {
    var s, p := states[k], g.order;
    KeyAgreementIff(g, steps, states, k, nodes, dealers);
    forall i | 0 <= i < |nodes|
      ensures MissingShares(g, s, nodes)[i].1 == 0
    {
      CheckFacts(g, steps, states, k, nodes[i]);
    }
    ZeroShares(p, MissingShares(g, s, nodes), MissingShares(g, s, nodes));
    ModSmall(p, 0);
    var secret := IntSum(Secrets(s.polys, dealers));
    CongMod(p, secret);
    ExpCong(g, secret % p, secret);
  }

  // ---------- completion over runs ----------

  ghost predicate FiresAt(s: System, step: Step, r: string) {
    step.Deliver? && step.id == r && r in s.nodes && Fires(s.nodes[r], step.m)
  }

  /** A firing check sets the share sum. */
  lemma FiringSets(g: PrimeGroup, v: NodeState, m: Message)
    requires Fires(v, m)
    ensures AfterAck(g, v, m).0.secretKeyShare == Some(IntSum(v.shares) % g.order)
    ensures AfterAck(g, v, m).0.shares == v.shares && AfterAck(g, v, m).0.commitments == v.commitments
    ensures AfterAck(g, v, m).0.publicKey ==
            if AllNonEmpty(v.commitments) then Some(PointSum(g, Heads(v.commitments))) else v.publicKey
  {
  }

  /** A handler that does not fire the check leaves the keys alone. */
  lemma QuietKeeps(g: PrimeGroup, v: NodeState, m: Message, publishOk: bool)
    requires !Fires(v, m)
    ensures Handle(g, v, m, publishOk).state.secretKeyShare == v.secretKeyShare
    ensures Handle(g, v, m, publishOk).state.publicKey == v.publicKey
  {
  }

  /** A check fired: it set the share sum and, unless it panicked, the key sum, and was recorded. */
  ghost predicate JustChecked(g: PrimeGroup, s: System, s': System, r: string)
    requires r in s.nodes && r in s'.nodes
  {
    && r in s'.checks && s'.checks[r] == s'.nodes[r]
    && s'.nodes[r].shares == s.nodes[r].shares && s'.nodes[r].commitments == s.nodes[r].commitments
    && s'.nodes[r].secretKeyShare == Some(IntSum(s.nodes[r].shares) % g.order)
    && s'.nodes[r].publicKey ==
       if AllNonEmpty(s.nodes[r].commitments) then Some(PointSum(g, Heads(s.nodes[r].commitments)))
       else s.nodes[r].publicKey
  }

  /** No check fired: the keys and the record are as before. */
  ghost predicate SameCheck(s: System, s': System, r: string)
    requires r in s.nodes && r in s'.nodes
  {
    && (r in s'.checks <==> r in s.checks) && (r in s.checks ==> s'.checks[r] == s.checks[r])
    && s'.nodes[r].secretKeyShare == s.nodes[r].secretKeyShare
    && s'.nodes[r].publicKey == s.nodes[r].publicKey
  }

  lemma StepCheck(g: PrimeGroup, s: System, step: Step, r: string)
    requires Possible(g, s, step) && r in s.nodes
    ensures var s' := Apply(g, s, step);
            r in s'.nodes && if FiresAt(s, step, r) then JustChecked(g, s, s', r) else SameCheck(s, s', r)
  {
    if step.Deliver? && step.id == r {
      if Fires(s.nodes[r], step.m) {
        FiringSets(g, s.nodes[r], step.m);
      } else {
        QuietKeeps(g, s.nodes[r], step.m, step.publishOk);
      }
    }
  }

  /** The same, between consecutive states of a run. */
  lemma RunCheck(g: PrimeGroup, steps: seq<Step>, states: seq<System>, k: nat, r: string)
    requires OpenRun(g, steps, states) && k < |steps| && (r in states[k].nodes || r in states[k + 1].nodes)
    ensures r in states[k].nodes && r in states[k + 1].nodes
    ensures if FiresAt(states[k], steps[k], r) then JustChecked(g, states[k], states[k + 1], r)
            else SameCheck(states[k], states[k + 1], r)
  {
    assert OpenStepAt(g, steps, states, k);
    StepExtends(g, states[k], steps[k]);
    StepCheck(g, states[k], steps[k], r);
  }

  lemma CheckHistory(g: PrimeGroup, steps: seq<Step>, states: seq<System>, k: nat, r: string)
    requires OpenRun(g, steps, states) && k < |states| && r in states[k].nodes
    ensures states[k].nodes[r].secretKeyShare.Some? <==> r in states[k].checks
    ensures r in states[k].checks ==> states[k].checks[r].shares.Keys <= states[k].nodes[r].shares.Keys
  {
    OpenNode(g, steps, states, k, r);
  }

  /** No check of r fires in steps i to j - 1. */
  ghost predicate NoneFires(steps: seq<Step>, states: seq<System>, i: nat, j: nat, r: string)
    requires i <= j <= |steps| && |states| == |steps| + 1
  {
    forall k {:trigger FiresAt(states[k], steps[k], r)} :: i <= k < j ==> !FiresAt(states[k], steps[k], r)
  }

  lemma NothingYet(g: PrimeGroup, steps: seq<Step>, states: seq<System>, r: string)
    requires OpenRun(g, steps, states) && r in states[0].nodes
    ensures states[0].nodes[r].secretKeyShare.None? && states[0].nodes[r].publicKey.None?
  {
  }

  /** A node whose check has never fired has neither key. */
  lemma {:induction false} NoKeysBefore(g: PrimeGroup, steps: seq<Step>, states: seq<System>, k: nat, r: string)
    requires OpenRun(g, steps, states) && k < |states| && r in states[k].nodes && NoneFires(steps, states, 0, k, r)
    ensures states[k].nodes[r].secretKeyShare == None && states[k].nodes[r].publicKey == None
    ensures r !in states[k].checks
  {
    if k == 0 {
      NothingYet(g, steps, states, r);
    } else {
      RunCheck(g, steps, states, k - 1, r);
      NoKeysBefore(g, steps, states, k - 1, r);
    }
  }

  /**
   A secret share always comes from a firing check, and is the share sum at the latest one, which
   left the public key as it is; the history variable records the state right after it.
   */
  lemma {:induction false} LatestCheck(g: PrimeGroup, steps: seq<Step>, states: seq<System>, k: nat, r: string)
      returns (j: nat)
    requires OpenRun(g, steps, states) && k < |states| && r in states[k].nodes
    requires states[k].nodes[r].secretKeyShare.Some?
    ensures j < k && FiresAt(states[j], steps[j], r)
    ensures NoneFires(steps, states, j + 1, k, r)
    ensures r in states[j + 1].nodes && r in states[k].checks && states[k].checks[r] == states[j + 1].nodes[r]
    ensures states[k].nodes[r].secretKeyShare == Some(IntSum(states[j + 1].nodes[r].shares) % g.order)
    ensures states[k].nodes[r].publicKey == states[j + 1].nodes[r].publicKey
  {
    if k == 0 {
      NothingYet(g, steps, states, r);
    }
    RunCheck(g, steps, states, k - 1, r);
    if FiresAt(states[k - 1], steps[k - 1], r) {
      j := k - 1;
    } else {
      j := LatestCheck(g, steps, states, k - 1, r);
      assert states[k].checks[r] == states[k - 1].checks[r];
    }
  }

  /** Completion is permanent, and the dealer set behind a completed node's keys only grows. */
  lemma {:induction false} CompletionPersists(g: PrimeGroup, steps: seq<Step>, states: seq<System>, i: nat,
        j: nat, r: string)
    requires OpenRun(g, steps, states) && i <= j < |states| && r in states[i].nodes
    requires states[i].nodes[r].secretKeyShare.Some?
    ensures r in states[j].nodes && states[j].nodes[r].secretKeyShare.Some?
    ensures r in states[i].checks && r in states[j].checks
    ensures states[i].checks[r].shares.Keys <= states[j].checks[r].shares.Keys
  {
    if i == j {
      CheckHistory(g, steps, states, i, r);
    } else {
      CompletionPersists(g, steps, states, i, j - 1, r);
      CheckHistory(g, steps, states, j - 1, r);
      RunCheck(g, steps, states, j - 1, r);
    }
  }
}
