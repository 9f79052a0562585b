/**
 One node of the live key generation: dealing, share selection by the node's own id, validations,
 and the key it computes from its shares.  Share verification is a placeholder that accepts all.
 */
module DkgNode {
  import opened Wrappers
  import opened PrimeField
  import opened Polynomials
  import opened CyclicGroup
  import opened Feldman
  import opened MapSums

  datatype KeyShare = KeyShare(index: U64, value: int)

  datatype Message =
    | ShareDistribution(sender: string, shares: seq<KeyShare>, commitments: seq<Point>)
    | ShareValidation(sender: string, dealer: string, isValid: bool)

  datatype Status = New | Error(kind: string) | Started | Completed

  /** A handler ends normally or with the error of a closed broadcast channel. */
  datatype Outcome = Finished | SendFailed

  datatype NodeState = NodeState(
    id: string,
    status: Status,
    threshold: U64,
    totalNodes: U64,
    shares: map<string, KeyShare>,
    commitments: map<string, seq<Point>>,
    validations: map<string, seq<bool>>)

  function Fresh(id: string, threshold: U64, totalNodes: U64): NodeState {
    NodeState(id, New, threshold, totalNodes, map[], map[], map[])
  }

  // ---------- node ids as indices ----------

  predicate IsDigit(c: char) {
    '0' <= c <= '9'
  }

  function DecimalValue(s: string): nat
    requires AllDigits(s)
  {
    if s == "" then 0
    else
      var last := s[|s| - 1];
      assert IsDigit(last);
      10 * DecimalValue(s[..|s| - 1]) + (last as int - '0' as int)
  }

  function WithoutPlus(s: string): string {
    if s != "" && s[0] == '+' then s[1..] else s
  }

  predicate AllDigits(s: string) {
    forall k :: 0 <= k < |s| ==> IsDigit(s[k])
  }

  /** `str::parse::<usize>`: an optional plus sign and decimal digits, within range. */
  function ParseUsize(s: string): Option<U64> {
    var digits := WithoutPlus(s);
    if digits == "" || !AllDigits(digits) then None
    else if DecimalValue(digits) <= U64_MAX then Some(DecimalValue(digits))
    else None
  }

  /** The index a node looks for, with the largest usize standing for an id that does not parse. */
  function IndexOf(id: string): U64 {
    match ParseUsize(id)
    case None => U64_MAX
    case Some(i) => i
  }

  function Decimal(n: nat): (s: string)
    ensures s != "" && AllDigits(s)
    ensures DecimalValue(s) == n
  {
    var last := ['0' + (n % 10) as char];
    assert last[..0] == "" && DecimalValue(last) == n % 10;
    if n < 10 then last
    else
      var s := Decimal(n / 10) + last;
      assert s[..|s| - 1] == Decimal(n / 10);
      s
  }

  /** A node named by a decimal index finds that index. */
  lemma DecimalIdParses(n: U64)
    ensures ParseUsize(Decimal(n)) == Some(n) && IndexOf(Decimal(n)) == n
  {
  }

  /** An id with a character that is neither a digit nor a leading plus, as peer ids have, does not parse. */
  lemma OtherIdsDoNotParse(id: string, k: nat)
    requires k < |id| && !IsDigit(id[k]) && (k > 0 || id[0] != '+')
    ensures ParseUsize(id) == None && IndexOf(id) == U64_MAX
  {
    var j := if id[0] == '+' then k - 1 else k;
    assert WithoutPlus(id)[j] == id[k];
  }

  function ZeroDigits(n: nat): (s: string)
    ensures |s| == n && forall k :: 0 <= k < n ==> s[k] == '0'
  {
    seq(n, k => '0')
  }

  lemma {:induction false} LeadingZeros(zeros: nat, s: string)
    requires AllDigits(s)
    ensures AllDigits(ZeroDigits(zeros) + s) && DecimalValue(ZeroDigits(zeros) + s) == DecimalValue(s)
  {
    var all := ZeroDigits(zeros) + s;
    if s != "" {
      LeadingZeros(zeros, s[..|s| - 1]);
      assert all[..|all| - 1] == ZeroDigits(zeros) + s[..|s| - 1];
    } else if zeros > 0 {
      LeadingZeros(zeros - 1, s);
      assert all[..|all| - 1] == ZeroDigits(zeros - 1) + s;
    } else {
      assert all == s;
    }
  }

  /** Every decimal form of a number parses to it, with leading zeros and a plus sign, if it fits a usize. */
  lemma DecimalFormParses(n: nat, zeros: nat, plus: bool)
    ensures var digits := ZeroDigits(zeros) + Decimal(n);
            ParseUsize(if plus then "+" + digits else digits) == if n <= U64_MAX then Some(n) else None
  {
    var digits := ZeroDigits(zeros) + Decimal(n);
    LeadingZeros(zeros, Decimal(n));
    assert ("+" + digits)[1..] == digits && IsDigit(digits[0]);
  }

  /** An id without digits does not parse. */
  lemma EmptyIdDoesNotParse()
    ensures ParseUsize("") == None && ParseUsize("+") == None
  {
  }

  // ---------- what the handlers do ----------

  function Deal(p: Modulus, c: Poly, n: U64): (shares: seq<KeyShare>)
    ensures |shares| == n
    ensures forall i :: 0 <= i < n ==> shares[i] == KeyShare(i + 1, Eval(c, i + 1) % p)
  {
    seq(n, i requires 0 <= i < n => KeyShare(i + 1, Eval(c, i + 1) % p))
  }

  function DistributionOf(g: PrimeGroup, s: NodeState, c: Poly): Message {
    ShareDistribution(s.id, Deal(g.order, c, s.totalNodes), Commit(g, c))
  }

  ghost predicate FirstAt(shares: seq<KeyShare>, i: U64, k: nat)
    requires k < |shares|
  {
    shares[k].index == i && forall j :: 0 <= j < k ==> shares[j].index != i
  }

  /** The first share with the given index. */
  function Find(shares: seq<KeyShare>, i: U64): (r: Option<KeyShare>)
    ensures r.Some? ==> exists k :: 0 <= k < |shares| && FirstAt(shares, i, k) && r.value == shares[k]
    ensures r.None? ==> forall k :: 0 <= k < |shares| ==> shares[k].index != i
  {
    if shares == [] then None
    else if shares[0].index == i then
      assert FirstAt(shares, i, 0);
      Some(shares[0])
    else
      var r := Find(shares[1..], i);
      assert forall k :: 0 <= k < |shares| - 1 && FirstAt(shares[1..], i, k) ==> FirstAt(shares, i, k + 1);
      r
  }

  /** The placeholder for share verification. */
  predicate VerifyShares(shares: seq<KeyShare>, commitments: seq<Point>) {
    true
  }

  function AfterDistribution(s: NodeState, m: Message): NodeState
    requires m.ShareDistribution?
  {
    match Find(m.shares, IndexOf(s.id))
    case None => s
    case Some(share) =>
      s.(shares := s.shares[m.sender := share], commitments := s.commitments[m.sender := m.commitments])
  }

  function AfterValidation(s: NodeState, m: Message): NodeState
    requires m.ShareValidation?
  {
    var list := if m.dealer in s.validations then s.validations[m.dealer] else [];
    s.(validations := s.validations[m.dealer := list + [m.isValid]])
  }

  predicate Complete(s: NodeState) {
    && (forall d :: d in s.validations ==> |s.validations[d]| >= s.threshold)
    && |s.shares| >= s.threshold
  }

  function ShareValues(shares: map<string, KeyShare>): (m: map<string, int>)
    ensures m.Keys == shares.Keys
  {
    map d | d in shares :: shares[d].value
  }

  function SharePoints(g: PrimeGroup, shares: map<string, KeyShare>): (m: map<string, Point>)
    ensures m.Keys == shares.Keys
  {
    map d | d in shares :: g.Exp(shares[d].value)
  }

  /** The sum of the generator times each stored share. */
  ghost function GroupKey(g: PrimeGroup, shares: map<string, KeyShare>): Point {
    PointSum(g, SharePoints(g, shares))
  }

  lemma GroupKeyIsExp(g: PrimeGroup, shares: map<string, KeyShare>)
    ensures GroupKey(g, shares) == g.Exp(IntSum(ShareValues(shares)))
  {
    PointSumOfExps(g, SharePoints(g, shares), ShareValues(shares));
  }

  /** What handling one message leaves, sends, and, where the completion check fires, computes. */
  datatype Handled = Handled(state: NodeState, sent: Option<Message>, outcome: Outcome, groupKey: Option<Point>)

  ghost function Handle(g: PrimeGroup, s: NodeState, m: Message, sendOk: bool): Handled {
    match m
    case ShareDistribution(dealer, shares, _) =>
      var s' := AfterDistribution(s, m);
      if Find(shares, IndexOf(s.id)).None? then Handled(s', None, Finished, None)
      else if sendOk then Handled(s', Some(ShareValidation(s.id, dealer, true)), Finished, None)
      else Handled(s', None, SendFailed, None)
    case ShareValidation(_, _, _) =>
      var s' := AfterValidation(s, m);
      Handled(s', None, Finished, if Complete(s') then Some(GroupKey(g, s'.shares)) else None)
  }

  // ---------- the node ----------

  class Node {
    const group: PrimeGroup
    const id: string
    const threshold: U64
    const totalNodes: U64
    var status: Status
    var shares: map<string, KeyShare>
    var commitments: map<string, seq<Point>>
    var validations: map<string, seq<bool>>

    function State(): NodeState
      reads this
    {
      NodeState(id, status, threshold, totalNodes, shares, commitments, validations)
    }

    constructor (group: PrimeGroup, id: string, threshold: U64, totalNodes: U64)
      ensures this.group == group && State() == Fresh(id, threshold, totalNodes)
      ensures this.id == id && this.threshold == threshold && this.totalNodes == totalNodes
      ensures status == New && shares == map[] && commitments == map[] && validations == map[]
    {
      this.group := group;
      this.id, this.threshold, this.totalNodes := id, threshold, totalNodes;
      status, shares, commitments, validations := New, map[], map[], map[];
    }

    /** The status changes even when the broadcast fails. */
    method StartDkg(draws: nat -> int, sendOk: bool) returns (ghost polynomial: Poly, sent: Option<Message>,
          outcome: Outcome)
      modifies this
      ensures |polynomial| == threshold + 1 && forall j :: 0 <= j <= threshold ==> polynomial[j] == draws(j)
      ensures State() == old(State()).(status := Started)
      ensures status == Started && shares == old(shares) && commitments == old(commitments)
      ensures validations == old(validations)
      ensures sendOk ==> outcome == Finished && sent == Some(DistributionOf(group, State(), polynomial))
      ensures sendOk ==> sent.Some? && sent.value.ShareDistribution? && sent.value.sender == id
      ensures sendOk ==> var dealt := sent.value.shares;
                         && |dealt| == totalNodes
                         && forall i :: 0 <= i < totalNodes ==>
                              dealt[i] == KeyShare(i + 1, Eval(polynomial, i + 1) % group.order)
      ensures sendOk ==> var comms := sent.value.commitments;
                         |comms| == threshold + 1 && forall j :: 0 <= j <= threshold ==> comms[j] == group.Exp(draws(j))
      ensures !sendOk ==> outcome == SendFailed && sent == None
    {
      var coefficients := GeneratePolynomial(draws);
      polynomial := coefficients;
      var dealt := GenerateShares(coefficients);
      var comms := Commit(group, coefficients);
      status := Started;
      if sendOk {
        sent, outcome := Some(ShareDistribution(id, dealt, comms)), Finished;
      } else {
        sent, outcome := None, SendFailed;
      }
    }

    method GeneratePolynomial(draws: nat -> int) returns (coefficients: Poly)
      ensures |coefficients| == threshold + 1
      ensures forall j :: 0 <= j <= threshold ==> coefficients[j] == draws(j)
    {
      coefficients := [];
      for j := 0 to threshold + 1
        invariant |coefficients| == j
        invariant forall k :: 0 <= k < j ==> coefficients[k] == draws(k)
      {
        coefficients := coefficients + [draws(j)];
      }
    }

    method GenerateShares(polynomial: Poly) returns (dealt: seq<KeyShare>)
      ensures dealt == Deal(group.order, polynomial, totalNodes)
    {
      var p := group.order;
      dealt := [];
      for i := 1 to totalNodes + 1
        invariant |dealt| == i - 1
        invariant forall k :: 0 <= k < i - 1 ==> dealt[k] == KeyShare(k + 1, Eval(polynomial, k + 1) % p)
      {
        var y := 0;
        ModSmall(p, 0);
        for j := 0 to |polynomial|
          invariant y == Eval(polynomial[..j], i) % p
        {
          MulRightReduced(p, polynomial[j], Pow(i, j));
          AddReduced(p, y, Mul(p, polynomial[j], Pow(i, j) % p), Eval(polynomial[..j], i), polynomial[j] * Pow(i, j));
          EvalPrefix(polynomial, i, j);
          y := Add(p, y, Mul(p, polynomial[j], Pow(i, j) % p));
        }
        assert polynomial[..|polynomial|] == polynomial;
        dealt := dealt + [KeyShare(i, y)];
      }
    }

    method HandleMessage(m: Message, sendOk: bool) returns (sent: Option<Message>, outcome: Outcome,
          groupKey: Option<Point>)
      modifies this
      ensures Handled(State(), sent, outcome, groupKey) == Handle(group, old(State()), m, sendOk)
    {
      groupKey := None;
      match m
      case ShareDistribution(dealer, dealt, comms) =>
        sent, outcome := HandleShareDistribution(dealer, dealt, comms, sendOk);
      case ShareValidation(validator, dealer, isValid) =>
        sent, outcome := None, Finished;
        groupKey := HandleShareValidation(validator, dealer, isValid);
    }

    method HandleShareDistribution(dealer: string, dealt: seq<KeyShare>, comms: seq<Point>, sendOk: bool)
        returns (sent: Option<Message>, outcome: Outcome)
      modifies this
      ensures State() == AfterDistribution(old(State()), ShareDistribution(dealer, dealt, comms))
      ensures Find(dealt, IndexOf(id)).None? ==> sent == None && outcome == Finished
      ensures Find(dealt, IndexOf(id)).Some? ==>
                if sendOk then sent == Some(ShareValidation(id, dealer, true)) && outcome == Finished
                else sent == None && outcome == SendFailed
    {
      sent, outcome := None, Finished;
      if VerifyShares(dealt, comms) {
        var mine := Find(dealt, IndexOf(id));
        match mine
        case None =>
        case Some(share) =>
          shares := shares[dealer := share];
          commitments := commitments[dealer := comms];
          if sendOk {
            sent := Some(ShareValidation(id, dealer, true));
          } else {
            outcome := SendFailed;
          }
      }
    }

    /** The validation is recorded, and only then is completion checked. */
    method HandleShareValidation(validator: string, dealer: string, isValid: bool) returns (groupKey: Option<Point>)
      modifies this`validations
      ensures State() == AfterValidation(old(State()), ShareValidation(validator, dealer, isValid))
      ensures dealer in validations && forall d :: d in old(validations) && d != dealer ==>
                d in validations && validations[d] == old(validations[d])
      ensures validations[dealer] == (if dealer in old(validations) then old(validations[dealer]) else []) + [isValid]
      ensures validations.Keys == old(validations.Keys) + {dealer}
      ensures groupKey == if Complete(State()) then Some(GroupKey(group, shares)) else None
    {
      var list := if dealer in validations then validations[dealer] else [];
      validations := validations[dealer := list + [isValid]];
      groupKey := CheckCompletion();
    }

    method CheckCompletion() returns (groupKey: Option<Point>)
      ensures groupKey == if Complete(State()) then Some(GroupKey(group, shares)) else None
    {
      groupKey := None;
      if (forall d :: d in validations ==> |validations[d]| >= threshold) && |shares| >= threshold {
        var key := GenerateGroupKey();
        groupKey := Some(key);
      }
    }

    /** Whatever order the map is iterated in. */
    method GenerateGroupKey() returns (key: Point)
      ensures key == GroupKey(group, shares)
    {
      key := group.identity;
      var todo := shares.Keys;
      ghost var all := SharePoints(group, shares);
      assert all - todo == map[];
      while todo != {}
        invariant todo <= shares.Keys
        invariant key == PointSum(group, all - todo)
        decreases todo
      {
        var d :| d in todo;
        ghost var seen := all - (todo - {d});
        assert seen - {d} == all - todo;
        forall e | e in seen
          ensures group.Contains(seen[e])
        {
          ExpContained(group, shares[e].value);
        }
        PointSumRemove(group, seen, d);
        key := group.plus(key, group.Exp(shares[d].value));
        todo := todo - {d};
      }
      assert all - todo == all;
    }
  }
}
