/**
 One node of the asynchronous key generation: its messages, its state, what each handler does to
 the state, and the node itself with loops over its maps and buffers.
 */
module AdkgNode {
  import opened Wrappers
  import opened PrimeField
  import opened Polynomials
  import opened Interpolation
  import opened CyclicGroup
  import opened Feldman
  import opened MapSums

  datatype Message =
    | ShareProposal(senderId: string, shares: seq<int>, commitments: seq<Point>)
    | ShareAck(senderId: string, receiverId: string, valid: bool)

  /** How a handler ended: normally, with the publishing error, or by indexing an empty vector. */
  datatype Outcome = Finished | PublishFailed | Panicked

  type Acks = map<string, seq<(string, bool)>>

  datatype NodeState = NodeState(
    id: string,
    idx: U64,
    n: U64,
    t: U64,
    secretKeyShare: Option<int>,
    publicKey: Option<Point>,
    commitments: map<string, seq<Point>>,
    shares: map<string, int>,
    acks: Acks)

  function Fresh(id: string, n: U64, t: U64, idx: U64): NodeState {
    NodeState(id, idx, n, t, None, None, map[], map[], map[])
  }

  /** Scalars and points on the wire are decoded to canonical scalars and group points. */
  ghost predicate WellFormed(g: PrimeGroup, m: Message) {
    m.ShareProposal? ==>
      && Contained(g, m.commitments)
      && forall i :: 0 <= i < |m.shares| ==> IsScalar(g.order, m.shares[i])
  }

  // ---------- what the handlers do ----------

  /** The shares of a polynomial for nodes 1 to n. */
  function Deal(p: Modulus, c: Poly, n: nat): (shares: seq<int>)
    ensures |shares| == n
    ensures forall i :: 0 <= i < n ==> shares[i] == Eval(c, i + 1) % p
  {
    seq(n, i requires 0 <= i < n => Eval(c, i + 1) % p)
  }

  function ProposalOf(g: PrimeGroup, s: NodeState, c: Poly): Message {
    ShareProposal(s.id, Deal(g.order, c, s.n), Commit(g, c))
  }

  /** Starting keeps the node's own commitments, but not its own share. */
  function Started(g: PrimeGroup, s: NodeState, c: Poly): NodeState {
    s.(commitments := s.commitments[s.id := Commit(g, c)])
  }

  predicate Verified(g: PrimeGroup, idx: U64, shares: seq<int>, commitments: seq<Point>) {
    0 < idx <= |shares| && Accepts(g, commitments, idx, shares[idx - 1])
  }

  function AfterProposal(g: PrimeGroup, s: NodeState, m: Message): NodeState
    requires m.ShareProposal?
  {
    if Verified(g, s.idx, m.shares, m.commitments)
    then s.(shares := s.shares[m.senderId := m.shares[s.idx - 1]],
            commitments := s.commitments[m.senderId := m.commitments])
    else s
  }

  function CountValid(acks: seq<(string, bool)>): nat {
    if acks == [] then 0
    else CountValid(Init(acks)) + if Last(acks).1 then 1 else 0
  }

  function AckCounts(acks: Acks): (m: map<string, int>)
    ensures m.Keys == acks.Keys
  {
    map r | r in acks :: CountValid(acks[r])
  }

  ghost function ValidAcks(acks: Acks): int {
    IntSum(AckCounts(acks))
  }

  function AddAck(acks: Acks, sender: string, valid: bool): Acks {
    acks[sender := (if sender in acks then acks[sender] else []) + [(sender, valid)]]
  }

  /** The completion rule: at t valid acks, sum what is stored. */
  ghost function Checked(g: PrimeGroup, s: NodeState): (NodeState, Outcome) {
    if ValidAcks(s.acks) < s.t then (s, Finished)
    else
      var s' := s.(secretKeyShare := Some(IntSum(s.shares) % g.order));
      if exists d :: d in s.commitments && s.commitments[d] == []
      then (s', Panicked)
      else (s'.(publicKey := Some(PointSum(g, Heads(s.commitments)))), Finished)
  }

  ghost function AfterAck(g: PrimeGroup, s: NodeState, m: Message): (NodeState, Outcome)
    requires m.ShareAck?
  {
    if m.receiverId == s.id
    then Checked(g, s.(acks := AddAck(s.acks, m.senderId, m.valid)))
    else (s, Finished)
  }

  /** The state, the message published and the outcome of handling one message. */
  datatype Handled = Handled(state: NodeState, published: Option<Message>, outcome: Outcome)

  ghost function Handle(g: PrimeGroup, s: NodeState, m: Message, publishOk: bool): Handled {
    match m
    case ShareProposal(sender, shares, commitments) =>
      if !Verified(g, s.idx, shares, commitments) then Handled(s, None, Finished)
      else if publishOk then Handled(AfterProposal(g, s, m), Some(ShareAck(s.id, sender, true)), Finished)
      else Handled(AfterProposal(g, s, m), None, PublishFailed)
    case ShareAck(_, _, _) =>
      var (s', outcome) := AfterAck(g, s, m);
      Handled(s', None, outcome)
  }

  // ---------- the node ----------

  class Node {
    const group: PrimeGroup
    const id: string
    const idx: U64
    const n: U64
    const t: U64
    var secretKeyShare: Option<int>
    var publicKey: Option<Point>
    var commitments: map<string, seq<Point>>
    var shares: map<string, int>
    var acks: Acks

    ghost predicate Valid()
      reads this
    {
      forall d :: d in commitments ==> Contained(group, commitments[d])
    }

    function State(): NodeState
      reads this
    {
      NodeState(id, idx, n, t, secretKeyShare, publicKey, commitments, shares, acks)
    }

    constructor (group: PrimeGroup, id: string, n: U64, t: U64, idx: U64)
      ensures this.group == group && Valid() && State() == Fresh(id, n, t, idx)
      ensures this.id == id && this.n == n && this.t == t && this.idx == idx
      ensures secretKeyShare == None && publicKey == None
      ensures commitments == map[] && shares == map[] && acks == map[]
    {
      this.group := group;
      this.id, this.n, this.t, this.idx := id, n, t, idx;
      secretKeyShare, publicKey := None, None;
      commitments, shares, acks := map[], map[], map[];
    }

    /** The random draws are an argument; the secret is the constant term. */
    static method GeneratePolynomial(degree: nat, draws: nat -> int) returns (coeffs: Poly, secret: int)
      ensures |coeffs| == degree + 1 && secret == coeffs[0]
      ensures forall j :: 0 <= j <= degree ==> coeffs[j] == draws(j)
    {
      coeffs := [draws(0)];
      for i := 1 to degree + 1
        invariant |coeffs| == i
        invariant forall j :: 0 <= j < i ==> coeffs[j] == draws(j)
      {
        coeffs := coeffs + [draws(i)];
      }
      secret := coeffs[0];
    }

    static method EvaluatePolynomial(p: Modulus, coeffs: Poly, i: U64) returns (result: int)
      ensures result == Eval(coeffs, i) % p
    {
      result := 0;
      ModSmall(p, 0);
      for j := 0 to |coeffs|
        invariant result == Eval(coeffs[..j], i) % p
      {
        var term := Mul(p, coeffs[j], Pow(i, j) % p);
        MulRightReduced(p, coeffs[j], Pow(i, j));
        AddReduced(p, result, term, Eval(coeffs[..j], i), coeffs[j] * Pow(i, j));
        EvalPrefix(coeffs, i, j);
        result := Add(p, result, term);
      }
      assert coeffs[..|coeffs|] == coeffs;
    }

    /** Deals a polynomial of degree t; its own commitments are kept only if publishing succeeds. */
    method StartAdkg(draws: nat -> int, publishOk: bool) returns (ghost coeffs: Poly,
          published: Option<Message>, outcome: Outcome)
      requires Valid()
      modifies this
      ensures Valid()
      ensures |coeffs| == t + 1 && forall j :: 0 <= j <= t ==> coeffs[j] == draws(j)
      ensures publishOk ==> outcome == Finished && published == Some(ProposalOf(group, old(State()), coeffs))
                            && State() == Started(group, old(State()), coeffs)
      ensures publishOk ==> published.Some? && published.value.ShareProposal? && published.value.senderId == id
      ensures publishOk ==> var dealt := published.value.shares;
                            |dealt| == n && forall i :: 0 <= i < n ==> dealt[i] == Eval(coeffs, i + 1) % group.order
      ensures publishOk ==> var comms := published.value.commitments;
                            |comms| == t + 1 && forall j :: 0 <= j <= t ==> comms[j] == group.Exp(draws(j))
      ensures publishOk ==> commitments == old(commitments)[id := published.value.commitments]
      ensures shares == old(shares) && acks == old(acks)
      ensures secretKeyShare == old(secretKeyShare) && publicKey == old(publicKey)
      ensures !publishOk ==> outcome == PublishFailed && published == None && State() == old(State())
    {
      var poly, _ := GeneratePolynomial(t, draws);
      coeffs := poly;
      var comms := Commit(group, poly);
      var dealt: seq<int> := [];
      for i := 1 to n + 1
        modifies {}
        invariant |dealt| == i - 1
        invariant forall k :: 0 <= k < i - 1 ==> dealt[k] == Eval(poly, k + 1) % group.order
      {
        var share := EvaluatePolynomial(group.order, poly, i);
        dealt := dealt + [share];
      }
      assert dealt == Deal(group.order, poly, n);
      if !publishOk {
        return coeffs, None, PublishFailed;
      }
      published, outcome := Some(ShareProposal(id, dealt, comms)), Finished;
      CommitContained(group, poly);
      commitments := commitments[id := comms];
    }

    method VerifyCommitments(shares: seq<int>, commitments: seq<Point>) returns (ok: bool)
      requires Contained(group, commitments)
      ensures ok <==> Verified(group, idx, shares, commitments)
    {
      if idx == 0 || idx > |shares| {
        return false;
      }
      var share := shares[idx - 1];
      var sum := group.identity;
      for j := 0 to |commitments|
        invariant sum == CommitEval(group, commitments[..j], idx)
      {
        CommitEvalPrefix(group, commitments, idx, j);
        sum := group.plus(sum, group.Times(commitments[j], Pow(idx, j) % group.order));
      }
      assert commitments[..|commitments|] == commitments;
      ok := sum == group.Exp(share);
    }

    method HandleMessage(m: Message, publishOk: bool) returns (published: Option<Message>, outcome: Outcome)
      requires Valid() && WellFormed(group, m)
      modifies this
      ensures Valid()
      ensures Handled(State(), published, outcome) == Handle(group, old(State()), m, publishOk)
    {
      published, outcome := None, Finished;
      match m
      case ShareProposal(sender, dealt, comms) =>
        var ok := VerifyCommitments(dealt, comms);
        if ok {
          if idx > 0 && idx <= |dealt| {
            shares := shares[sender := dealt[idx - 1]];
            commitments := commitments[sender := comms];
          }
          if !publishOk {
            return None, PublishFailed;
          }
          published := Some(ShareAck(id, sender, true));
        }
      case ShareAck(sender, receiver, valid) =>
        if receiver == id {
          var entry := if sender in acks then acks[sender] else [];
          acks := acks[sender := entry + [(sender, valid)]];
          outcome := CheckCompletion();
        }
    }

    method CountValidAcks() returns (count: nat)
      ensures count == ValidAcks(acks)
    {
      count := 0;
      var todo := acks.Keys;
      assert AckCounts(acks) - todo == map[];
      while todo != {}
        invariant todo <= acks.Keys
        invariant count == IntSum(AckCounts(acks) - todo)
        decreases todo
      {
        var r :| r in todo;
        var list := acks[r];
        var valid := 0;
        for i := 0 to |list|
          invariant valid == CountValid(list[..i])
        {
          assert Init(list[..i + 1]) == list[..i];
          valid := valid + if list[i].1 then 1 else 0;
        }
        assert list[..|list|] == list;
        ghost var seen := AckCounts(acks) - (todo - {r});
        IntSumRemove(seen, r);
        assert seen - {r} == AckCounts(acks) - todo;
        count := count + valid;
        todo := todo - {r};
      }
      assert AckCounts(acks) - todo == AckCounts(acks);
    }

    method CheckCompletion() returns (outcome: Outcome)
      requires Valid()
      modifies this`secretKeyShare, this`publicKey
      ensures (State(), outcome) == Checked(group, old(State()))
      ensures ValidAcks(acks) < t ==>
                secretKeyShare == old(secretKeyShare) && publicKey == old(publicKey) && outcome == Finished
      ensures ValidAcks(acks) >= t ==> secretKeyShare == Some(IntSum(shares) % group.order)
      ensures ValidAcks(acks) >= t && AllNonEmpty(commitments) ==>
                publicKey == Some(PointSum(group, Heads(commitments))) && outcome == Finished
      ensures ValidAcks(acks) >= t && !AllNonEmpty(commitments) ==>
                publicKey == old(publicKey) && outcome == Panicked
    {
      var count := CountValidAcks();
      if count < t {
        return Finished;
      }
      var sum := SumShares();
      secretKeyShare := Some(sum);
      var key := SumKeys();
      match key
      case None =>
        outcome := Panicked;
      case Some(_) =>
        publicKey := key;
        outcome := Finished;
    }

    /** Whatever order the map is iterated in. */
    method SumShares() returns (sum: int)
      ensures sum == IntSum(shares) % group.order
    {
      var p := group.order;
      sum := 0;
      ModSmall(p, 0);
      var todo := shares.Keys;
      assert shares - todo == map[];
      while todo != {}
        invariant todo <= shares.Keys
        invariant sum == IntSum(shares - todo) % p
        decreases todo
      {
        var d :| d in todo;
        ghost var seen := shares - (todo - {d});
        IntSumRemove(seen, d);
        assert seen - {d} == shares - todo;
        CongRefl(p, shares[d]);
        AddReduced(p, sum, shares[d], IntSum(shares - todo), shares[d]);
        sum := Add(p, sum, shares[d]);
        todo := todo - {d};
      }
      assert shares - todo == shares;
    }

    /** The sum of the first commitments; none if some stored vector has no first commitment. */
    method SumKeys() returns (key: Option<Point>)
      requires Valid()
      ensures key.None? <==> exists d :: d in commitments && commitments[d] == []
      ensures key.Some? ==> key.value == PointSum(group, Heads(commitments))
    {
      var sum := group.identity;
      var todo := commitments.Keys;
      ghost var seen: map<string, Point> := map[];
      while todo != {}
        invariant todo <= commitments.Keys
        invariant seen.Keys == commitments.Keys - todo
        invariant forall d :: d in seen ==> commitments[d] != [] && seen[d] == commitments[d][0]
        invariant sum == PointSum(group, seen)
        decreases todo
      {
        var d :| d in todo;
        if commitments[d] == [] {
          return None;
        }
        var first := commitments[d][0];
        ghost var seen' := seen[d := first];
        assert seen' - {d} == seen;
        assert MapContained(group, seen');
        PointSumRemove(group, seen', d);
        seen := seen';
        sum := group.plus(sum, first);
        todo := todo - {d};
      }
      assert seen == Heads(commitments);
      key := Some(sum);
    }

    static method ReconstructSecret(p: Modulus, shares: seq<Share>) returns (secret: int)
      ensures secret == Reconstruct(p, shares)
    {
      secret := 0;
      ModSmall(p, 0);
      for a := 0 to |shares|
        invariant secret == WeightedSum(p, shares, shares[..a]) % p
      {
        var (i, share) := shares[a];
        var term := share;
        ghost var w := 1;
        CongRefl(p, share);
        for b := 0 to |shares|
          invariant w == Weight(p, shares[..b], i)
          invariant Cong(p, term, share * w)
        {
          var j := shares[b].0;
          assert Init(shares[..b + 1]) == shares[..b];
          if j != i {
            var den := Sub(p, j, i);
            DenominatorInvertible(p, i, j);
            var inverse := Invert(p, den);
            var factor := Mul(p, j, inverse.value);
            TermStep(p, term, share * w, factor, j * Inv(p, j - i));
            Reassociate(share, w, j * Inv(p, j - i));
            term := Mul(p, term, factor);
          }
          w := w * WeightFactor(p, j, i);
        }
        assert shares[..|shares|] == shares;
        assert Init(shares[..a + 1]) == shares[..a];
        AddReduced(p, secret, term, WeightedSum(p, shares, shares[..a]), share * w);
        secret := Add(p, secret, term);
      }
      assert shares[..|shares|] == shares;
    }
  }

  /** Reconstruction never inverts zero: any two unequal indices have an invertible difference. */
  lemma DenominatorInvertible(p: Modulus, i: U64, j: U64)
    requires i != j
    ensures Invert(p, Sub(p, j, i)) == Some(Inv(p, j - i))
    ensures Mul(p, Sub(p, j, i), Inv(p, j - i)) == 1
  {
    IndicesDiffer(p, j, i);
    ModSmall(p, (j - i) % p);
  }

  lemma TermStep(p: Modulus, term: int, exact: int, factor: int, weight: int)
    requires Cong(p, term, exact) && factor == weight % p
    ensures Cong(p, Mul(p, term, factor), exact * weight)
  {
    CongMod(p, weight);
    CongMul(p, term, exact, factor, weight);
    CongMod(p, term * factor);
    CongTrans(p, Mul(p, term, factor), term * factor, exact * weight);
  }

  lemma Reassociate(a: int, b: int, c: int)
    ensures (a * b) * c == a * (b * c)
  {
  }
}
