/**
 Runs in which the live key generation computes its keys.  Starts and deliveries suffice, also
 where no message loops back to its own sender: nodes deal, receive the dealings that reach and
 cover them, and are delivered a validation as often as their threshold demands.
 */
module DkgCompletion {
  import opened Wrappers
  import opened PrimeField
  import opened Polynomials
  import opened Interpolation
  import opened CyclicGroup
  import opened Feldman
  import opened DkgNode
  import opened DkgRuns
  import opened DkgTheorems

  /** Nodes deal and messages are delivered, but none from outside. */
  predicate Ordinary(steps: seq<Step>, loopback: bool) {
    forall i :: 0 <= i < |steps| ==>
      steps[i].Start? || (steps[i].Deliver? && Reaches(loopback, steps[i].m.sender, steps[i].id))
  }

  lemma JoinPlans(steps: seq<Step>, plan: seq<Step>, plan': seq<Step>, loopback: bool)
    requires Ordinary(plan, loopback) && Ordinary(plan', loopback)
    ensures Ordinary(plan + plan', loopback) && steps + plan + plan' == steps + (plan + plan')
  {
  }

  lemma RunExtends(g: PrimeGroup, steps: seq<Step>, states: seq<System>, step: Step)
    requires Run(g, steps, states) && Enabled(g, Last(states), step)
    ensures Run(g, steps + [step], states + [Apply(g, Last(states), step)])
  {
    var steps', states' := steps + [step], states + [Apply(g, Last(states), step)];
    forall i: nat | i < |steps'|
      ensures StepAt(g, steps', states', i)
    {
      if i < |steps| {
        assert StepAt(g, steps, states, i);
      }
    }
  }

  // ---------- what a stretch of a run leaves alone ----------

  predicate SameParameters(v: NodeState, v': NodeState) {
    v'.id == v.id && v'.threshold == v.threshold && v'.totalNodes == v.totalNodes
  }

  /** Nodes outside `rs` are as they were, and messages and dealings are still there. */
  ghost predicate OnlyNodes(s: System, s': System, rs: set<string>) {
    && s'.nodes.Keys == s.nodes.Keys && s'.handled.Keys == s.handled.Keys
    && s'.dealings == s.dealings && s.network <= s'.network
    && (forall q :: q in s.nodes ==> SameParameters(s.nodes[q], s'.nodes[q]))
    && (forall q :: q in s.nodes && q !in rs ==> s'.nodes[q] == s.nodes[q])
    && (forall q :: q in s.keys && q !in rs ==> q in s'.keys && s'.keys[q] == s.keys[q])
  }

  lemma OnlyNodesJoin(s: System, s1: System, s2: System, rs: set<string>, rs': set<string>)
    requires OnlyNodes(s, s1, rs) && OnlyNodes(s1, s2, rs')
    ensures OnlyNodes(s, s2, rs + rs')
  {
  }

  lemma OnlyNodeAgain(s: System, s1: System, s2: System, r: string)
    requires OnlyNodes(s, s1, {r}) && OnlyNodes(s1, s2, {r})
    ensures OnlyNodes(s, s2, {r})
  {
  }

  lemma DeliverOnly(g: PrimeGroup, s: System, r: string, m: Message)
    requires Enabled(g, s, Deliver(r, m, true))
    ensures OnlyNodes(s, Apply(g, s, Deliver(r, m, true)), {r})
  {
  }

  // ---------- distributions ----------

  /** Every dealing made has been published. */
  lemma {:induction false} DealingPublished(g: PrimeGroup, steps: seq<Step>, states: seq<System>, k: nat, d: string,
        c: Poly)
    requires Run(g, steps, states) && k < |states| && (d, c) in states[k].dealings
    ensures d in states[k].nodes && DistributionOf(g, states[k].nodes[d], c) in states[k].network
  {
    if k > 0 {
      assert StepAt(g, steps, states, k - 1);
      NodeNames(g, steps, states, k - 1);
      if (d, c) in states[k - 1].dealings {
        DealingPublished(g, steps, states, k - 1, d, c);
      }
      StepPublishes(g, states[k - 1], steps[k - 1], d, c);
    }
  }

  lemma NodeNames(g: PrimeGroup, steps: seq<Step>, states: seq<System>, k: nat)
    requires Run(g, steps, states) && k < |states|
    ensures forall r :: r in states[k].nodes ==> states[k].nodes[r].id == r
  {
    RunInvariant(g, steps, states, k);
    forall r | r in states[k].nodes
      ensures states[k].nodes[r].id == r
    {
      assert NodeInv(g, states[k], r);
    }
  }

  lemma StepPublishes(g: PrimeGroup, s: System, step: Step, d: string, c: Poly)
    requires Enabled(g, s, step) && (d, c) in Apply(g, s, step).dealings
    requires (d, c) in s.dealings ==> d in s.nodes && DistributionOf(g, s.nodes[d], c) in s.network
    ensures var s' := Apply(g, s, step); d in s'.nodes && DistributionOf(g, s'.nodes[d], c) in s'.network
  {
    var s' := Apply(g, s, step);
    StepExtends(g, s, step);
    if (d, c) !in s.dealings {
      assert step.Start? && step.id == d && step.polynomial == c;
    }
    assert DistributionOf(g, s'.nodes[d], c) == DistributionOf(g, s.nodes[d], c);
  }

  /** The dealings `polys` are on the network, and reach and cover r. */
  ghost predicate Offered(g: PrimeGroup, s: System, loopback: bool, polys: map<string, Poly>, r: string) {
    forall d :: d in polys ==> OfferedBy(g, s, loopback, d, polys[d], r)
  }

  ghost predicate OfferedBy(g: PrimeGroup, s: System, loopback: bool, d: string, c: Poly, r: string) {
    && Reaches(loopback, d, r) && DealsFor(s, d, r)
    && s.nodes[d].id == d && DistributionOf(g, s.nodes[d], c) in s.network
  }

  lemma StillOffered(g: PrimeGroup, s: System, s': System, loopback: bool, rs: set<string>,
        polys: map<string, Poly>, r: string)
    requires Offered(g, s, loopback, polys, r) && OnlyNodes(s, s', rs)
    ensures Offered(g, s', loopback, polys, r)
  {
    forall d | d in polys
      ensures OfferedBy(g, s', loopback, d, polys[d], r)
    {
      assert OfferedBy(g, s, loopback, d, polys[d], r) && SameParameters(s.nodes[d], s'.nodes[d]);
    }
  }

  /** From v to v' the dealings of `ds` have been stored. */
  ghost predicate Stored(g: PrimeGroup, v: NodeState, v': NodeState, polys: map<string, Poly>, ds: set<string>)
    requires ds <= polys.Keys
  {
    && v'.validations == v.validations
    && v'.shares.Keys == v.shares.Keys + ds && v'.commitments.Keys == v.commitments.Keys + ds
    && (forall d :: d in ds ==> v'.commitments[d] == Commit(g, polys[d]))
    && forall d :: d in v.commitments && d !in ds ==> v'.commitments[d] == v.commitments[d]
  }

  /** r has told everyone that it stores the dealings of `ds`. */
  ghost predicate Validated(s: System, r: string, ds: set<string>) {
    forall d :: d in ds ==> ShareValidation(r, d, true) in s.network
  }

  lemma DistributionHandled(g: PrimeGroup, s: System, loopback: bool, polys: map<string, Poly>, r: string, d: string)
    requires r in s.nodes && s.nodes[r].id == r && d in polys && OfferedBy(g, s, loopback, d, polys[d], r)
    ensures var h := Handle(g, s.nodes[r], DistributionOf(g, s.nodes[d], polys[d]), true);
            Stored(g, s.nodes[r], h.state, polys, {d}) && h.sent == Some(ShareValidation(r, d, true))
  {
    SelectedShare(g, s.nodes[r], s.nodes[d], polys[d]);
    FindInDealing(g.order, polys[d], s.nodes[d].totalNodes, IndexOf(r));
  }

  ghost predicate Addressable(s: System, r: string) {
    r in s.nodes && r in s.handled && s.nodes[r].id == r
  }

  lemma StillAddressable(s: System, s': System, rs: set<string>, r: string)
    requires Addressable(s, r) && OnlyNodes(s, s', rs)
    ensures Addressable(s', r)
  {
    assert SameParameters(s.nodes[r], s'.nodes[r]);
  }

  lemma DeliverOne(g: PrimeGroup, steps: seq<Step>, states: seq<System>, loopback: bool,
        polys: map<string, Poly>, r: string, d: string)
      returns (plan: seq<Step>, states': seq<System>)
    requires Run(g, steps, states) && Addressable(Last(states), r)
    requires d in polys && Offered(g, Last(states), loopback, polys, r)
    ensures Run(g, steps + plan, states') && states <= states' && Ordinary(plan, loopback)
    ensures Supplied(g, Last(states), Last(states'), polys, r, {d})
  {
    assert OfferedBy(g, Last(states), loopback, d, polys[d], r);
    var m := DistributionOf(g, Last(states).nodes[d], polys[d]);
    var step := Deliver(r, m, true);
    DistributionHandled(g, Last(states), loopback, polys, r, d);
    DeliverOnly(g, Last(states), r, m);
    RunExtends(g, steps, states, step);
    plan, states' := [step], states + [Apply(g, Last(states), step)];
  }

  lemma StoredJoin(g: PrimeGroup, v: NodeState, v1: NodeState, v2: NodeState, polys: map<string, Poly>,
        ds: set<string>, ds': set<string>)
    requires ds <= polys.Keys && ds' <= polys.Keys
    requires Stored(g, v, v1, polys, ds) && Stored(g, v1, v2, polys, ds')
    ensures Stored(g, v, v2, polys, ds + ds')
  {
    UnionJoin(v.shares.Keys, ds, ds');
    UnionJoin(v.commitments.Keys, ds, ds');
  }

  lemma UnionJoin<T>(a: set<T>, b: set<T>, c: set<T>)
    ensures a + b + c == a + (b + c)
  {
  }

  lemma ValidatedJoin(s: System, s': System, rs: set<string>, r: string, ds: set<string>, d: string)
    requires d in ds && Validated(s, r, ds - {d}) && Validated(s', r, {d}) && OnlyNodes(s, s', rs)
    ensures Validated(s', r, ds)
  {
  }

  /** From s to s', r alone has changed: it has stored, and validated, the dealings of `ds`. */
  ghost predicate Supplied(g: PrimeGroup, s: System, s': System, polys: map<string, Poly>, r: string,
                           ds: set<string>)
  {
    && r in s.nodes && ds <= polys.Keys && OnlyNodes(s, s', {r})
    && Stored(g, s.nodes[r], s'.nodes[r], polys, ds) && Validated(s', r, ds)
  }

  lemma NotYetSupplied(g: PrimeGroup, s: System, polys: map<string, Poly>, r: string)
    requires r in s.nodes
    ensures Supplied(g, s, s, polys, r, {})
  {
  }

  lemma SuppliedJoin(g: PrimeGroup, s: System, s1: System, s2: System, polys: map<string, Poly>, r: string,
        ds: set<string>, d: string)
    requires d in ds && Supplied(g, s, s1, polys, r, ds - {d}) && Supplied(g, s1, s2, polys, r, {d})
    ensures Supplied(g, s, s2, polys, r, ds)
  {
    OnlyNodeAgain(s, s1, s2, r);
    StoredJoin(g, s.nodes[r], s1.nodes[r], s2.nodes[r], polys, ds - {d}, {d});
    PutBack(ds, d);
    ValidatedJoin(s1, s2, {r}, r, ds, d);
  }

  /** r is delivered the dealings of `ds`, one after the other. */
  lemma {:induction false} DeliverDealings(g: PrimeGroup, steps: seq<Step>, states: seq<System>, loopback: bool,
        polys: map<string, Poly>, r: string, ds: set<string>)
      returns (plan: seq<Step>, states': seq<System>)
    requires Run(g, steps, states) && Addressable(Last(states), r)
    requires ds <= polys.Keys && Offered(g, Last(states), loopback, polys, r)
    ensures Run(g, steps + plan, states') && states <= states' && Ordinary(plan, loopback)
    ensures Supplied(g, Last(states), Last(states'), polys, r, ds)
  {
    if ds == {} {
      plan, states' := [], states;
      assert steps + plan == steps;
      NotYetSupplied(g, Last(states), polys, r);
    } else {
      var d :| d in ds;
      var plan1, states1 := DeliverDealings(g, steps, states, loopback, polys, r, ds - {d});
      StillOffered(g, Last(states), Last(states1), loopback, {r}, polys, r);
      StillAddressable(Last(states), Last(states1), {r}, r);
      var plan2, states2 := DeliverOne(g, steps + plan1, states1, loopback, polys, r, d);
      plan, states' := plan1 + plan2, states2;
      JoinPlans(steps, plan1, plan2, loopback);
      SuppliedJoin(g, Last(states), Last(states1), Last(states2), polys, r, ds, d);
    }
  }

  /** r holds no share but of the dealings offered, and has handled no validation. */
  ghost predicate Waiting(g: PrimeGroup, s: System, loopback: bool, polys: map<string, Poly>, r: string) {
    && Addressable(s, r) && Offered(g, s, loopback, polys, r)
    && s.nodes[r].validations == map[] && s.nodes[r].shares.Keys <= polys.Keys
    && s.nodes[r].commitments.Keys == s.nodes[r].shares.Keys
  }

  /** r holds exactly the dealings offered, has said so, and has handled no validation. */
  ghost predicate Ready(g: PrimeGroup, s: System, polys: map<string, Poly>, r: string) {
    && Addressable(s, r) && s.nodes[r].validations == map[] && s.nodes[r].shares.Keys == polys.Keys
    && s.nodes[r].commitments == CommitAll(g, polys) && Validated(s, r, polys.Keys)
  }

  lemma StillWaiting(g: PrimeGroup, s: System, s': System, loopback: bool, rs: set<string>,
        polys: map<string, Poly>, r: string)
    requires Waiting(g, s, loopback, polys, r) && OnlyNodes(s, s', rs) && r !in rs
    ensures Waiting(g, s', loopback, polys, r)
  {
    StillOffered(g, s, s', loopback, rs, polys, r);
  }

  lemma StillReady(g: PrimeGroup, s: System, s': System, rs: set<string>, polys: map<string, Poly>, r: string)
    requires Ready(g, s, polys, r) && OnlyNodes(s, s', rs) && r !in rs
    ensures Ready(g, s', polys, r)
  {
  }

  lemma NowReady(g: PrimeGroup, s: System, s': System, loopback: bool, polys: map<string, Poly>, r: string)
    requires Waiting(g, s, loopback, polys, r) && Supplied(g, s, s', polys, r, polys.Keys)
    ensures Ready(g, s', polys, r)
  {
    StillAddressable(s, s', {r}, r);
    assert s.nodes[r].shares.Keys + polys.Keys == polys.Keys;
  }

  /** Those of the dealings `polys` that reach and cover r, by the parameters of s. */
  ghost function Mine(s: System, loopback: bool, polys: map<string, Poly>, r: string): (mine: map<string, Poly>)
    ensures mine.Keys <= polys.Keys
  {
    map d | d in polys && DealsFor(s, d, r) && Reaches(loopback, d, r) :: polys[d]
  }

  ghost predicate AllWaiting(g: PrimeGroup, home: System, s: System, loopback: bool, polys: map<string, Poly>,
                             rs: set<string>)
  {
    forall r :: r in rs ==> Waiting(g, s, loopback, Mine(home, loopback, polys, r), r)
  }

  ghost predicate AllReady(g: PrimeGroup, home: System, s: System, loopback: bool, polys: map<string, Poly>,
                           rs: set<string>)
  {
    forall r :: r in rs ==> Ready(g, s, Mine(home, loopback, polys, r), r)
  }

  /** Each of `rs` is delivered the dealings that reach and cover it. */
  lemma {:induction false} Distribute(g: PrimeGroup, home: System, steps: seq<Step>, states: seq<System>,
        loopback: bool, polys: map<string, Poly>, rs: set<string>)
      returns (plan: seq<Step>, states': seq<System>)
    requires Run(g, steps, states) && AllWaiting(g, home, Last(states), loopback, polys, rs)
    ensures Run(g, steps + plan, states') && states <= states' && Ordinary(plan, loopback)
    ensures OnlyNodes(Last(states), Last(states'), rs)
    ensures AllReady(g, home, Last(states'), loopback, polys, rs)
  {
    if rs == {} {
      plan, states' := [], states;
      assert steps + plan == steps;
    } else {
      var r :| r in rs;
      var s, mine := Last(states), Mine(home, loopback, polys, r);
      var plan1, states1 := Distribute(g, home, steps, states, loopback, polys, rs - {r});
      StillWaiting(g, s, Last(states1), loopback, rs - {r}, mine, r);
      var plan2, states2 := DeliverDealings(g, steps + plan1, states1, loopback, mine, r, mine.Keys);
      plan, states' := plan1 + plan2, states2;
      JoinPlans(steps, plan1, plan2, loopback);
      OnlyNodesJoin(s, Last(states1), Last(states2), rs - {r}, {r});
      PutBack(rs, r);
      OneMoreReady(g, home, Last(states1), Last(states2), loopback, polys, rs, r);
    }
  }

  lemma OneMoreReady(g: PrimeGroup, home: System, s: System, s': System, loopback: bool,
        polys: map<string, Poly>, rs: set<string>, r: string)
    requires r in rs && AllReady(g, home, s, loopback, polys, rs - {r})
    requires Waiting(g, s, loopback, Mine(home, loopback, polys, r), r)
    requires Supplied(g, s, s', Mine(home, loopback, polys, r), r, Mine(home, loopback, polys, r).Keys)
    ensures AllReady(g, home, s', loopback, polys, rs)
  {
    forall q | q in rs
      ensures Ready(g, s', Mine(home, loopback, polys, q), q)
    {
      if q == r {
        NowReady(g, s, s', loopback, Mine(home, loopback, polys, r), r);
      } else {
        assert q in rs - {r};
        StillReady(g, s, s', {r}, Mine(home, loopback, polys, q), q);
      }
    }
  }

  // ---------- validations ----------

  /** v has recorded n validations, all for d. */
  predicate Recorded(v: NodeState, d: string, n: nat) {
    if n == 0 then v.validations == map[]
    else v.validations.Keys == {d} && |v.validations[d]| == n
  }

  /** From v to v', n validations for d have been handled. */
  predicate Counted(v: NodeState, v': NodeState, d: string, n: nat) {
    SameParameters(v, v') && v'.shares == v.shares && v'.commitments == v.commitments && Recorded(v', d, n)
  }

  /** r's latest group key was computed in its current state. */
  ghost predicate JustKeyed(s: System, r: string) {
    r in s.nodes && r in s.keys && s.keys[r].0 == s.nodes[r]
  }

  lemma ValidationRecorded(v: NodeState, v1: NodeState, m: Message, n: nat)
    requires m.ShareValidation? && Counted(v, v1, m.dealer, n)
    ensures Counted(v, AfterValidation(v1, m), m.dealer, n + 1)
    ensures n + 1 >= v.threshold && |v.shares| >= v.threshold ==> Complete(AfterValidation(v1, m))
  {
  }

  /** From s to s', r alone has changed: it has handled n validations, all for d. */
  ghost predicate Heard(s: System, s': System, r: string, d: string, n: nat) {
    && r in s.nodes && OnlyNodes(s, s', {r}) && Counted(s.nodes[r], s'.nodes[r], d, n)
    && (n > 0 && n >= s.nodes[r].threshold && |s.nodes[r].shares| >= s.nodes[r].threshold ==> JustKeyed(s', r))
  }

  lemma HeardOneMore(g: PrimeGroup, s: System, s1: System, r: string, m: Message, n: nat)
    requires m.ShareValidation? && Heard(s, s1, r, m.dealer, n) && Enabled(g, s1, Deliver(r, m, true))
    ensures Heard(s, Apply(g, s1, Deliver(r, m, true)), r, m.dealer, n + 1)
  {
    ValidationRecorded(s.nodes[r], s1.nodes[r], m, n);
    DeliverOnly(g, s1, r, m);
    OnlyNodeAgain(s, s1, Apply(g, s1, Deliver(r, m, true)), r);
  }

  lemma NothingHeard(s: System, r: string, d: string)
    requires r in s.nodes && s.nodes[r].validations == map[]
    ensures Heard(s, s, r, d, 0)
  {
  }

  /** r is delivered w's validation for dealer d, n times. */
  lemma {:induction false} DeliverValidations(g: PrimeGroup, steps: seq<Step>, states: seq<System>, loopback: bool,
        r: string, w: string, d: string, n: nat)
      returns (plan: seq<Step>, states': seq<System>)
    requires Run(g, steps, states) && Addressable(Last(states), r) && Last(states).nodes[r].validations == map[]
    requires Reaches(loopback, w, r) && ShareValidation(w, d, true) in Last(states).network
    ensures Run(g, steps + plan, states') && states <= states' && Ordinary(plan, loopback)
    ensures Heard(Last(states), Last(states'), r, d, n)
  {
    if n == 0 {
      plan, states' := [], states;
      assert steps + plan == steps;
      NothingHeard(Last(states), r, d);
    } else {
      var step := Deliver(r, ShareValidation(w, d, true), true);
      var plan1, states1 := DeliverValidations(g, steps, states, loopback, r, w, d, n - 1);
      HeardOneMore(g, Last(states), Last(states1), r, step.m, n - 1);
      RunExtends(g, steps + plan1, states1, step);
      plan, states' := plan1 + [step], states1 + [Apply(g, Last(states1), step)];
      JoinPlans(steps, plan1, [step], loopback);
    }
  }

  /** r has computed its latest group key over exactly the dealings `polys`. */
  ghost predicate Keyed(g: PrimeGroup, s: System, polys: map<string, Poly>, r: string) {
    r in s.nodes && r in s.keys && s.keys[r].0.commitments == CommitAll(g, polys)
  }

  /** Some validation that reaches r has been sent. */
  ghost predicate HasValidator(s: System, loopback: bool, r: string) {
    exists w, d :: Reaches(loopback, w, r) && ShareValidation(w, d, true) in s.network
  }

  ghost predicate CanKey(g: PrimeGroup, s: System, loopback: bool, polys: map<string, Poly>, r: string) {
    Ready(g, s, polys, r) && HasValidator(s, loopback, r) && s.nodes[r].threshold <= |polys|
  }

  lemma StillCanKey(g: PrimeGroup, s: System, s': System, loopback: bool, rs: set<string>,
        polys: map<string, Poly>, r: string)
    requires CanKey(g, s, loopback, polys, r) && OnlyNodes(s, s', rs) && r !in rs
    ensures CanKey(g, s', loopback, polys, r)
  {
    StillReady(g, s, s', rs, polys, r);
    var w, d :| Reaches(loopback, w, r) && ShareValidation(w, d, true) in s.network;
    assert ShareValidation(w, d, true) in s'.network;
  }

  /** A ready node is delivered a validation as often as its threshold demands, and computes its key. */
  lemma ValidateOne(g: PrimeGroup, steps: seq<Step>, states: seq<System>, loopback: bool,
        polys: map<string, Poly>, r: string)
      returns (plan: seq<Step>, states': seq<System>)
    requires Run(g, steps, states) && CanKey(g, Last(states), loopback, polys, r)
    ensures Run(g, steps + plan, states') && states <= states' && Ordinary(plan, loopback)
    ensures OnlyNodes(Last(states), Last(states'), {r}) && Keyed(g, Last(states'), polys, r)
  {
    var v := Last(states).nodes[r];
    var w, d :| Reaches(loopback, w, r) && ShareValidation(w, d, true) in Last(states).network;
    assert |v.shares| == |v.shares.Keys| == |polys.Keys| == |polys|;
    var n := if v.threshold == 0 then 1 else v.threshold;
    plan, states' := DeliverValidations(g, steps, states, loopback, r, w, d, n);
  }

  ghost predicate AllCanKey(g: PrimeGroup, home: System, s: System, loopback: bool, polys: map<string, Poly>,
                            rs: set<string>)
  {
    forall r :: r in rs ==> CanKey(g, s, loopback, Mine(home, loopback, polys, r), r)
  }

  ghost predicate AllKeyed(g: PrimeGroup, home: System, s: System, loopback: bool, polys: map<string, Poly>,
                           rs: set<string>)
  {
    forall r :: r in rs ==> Keyed(g, s, Mine(home, loopback, polys, r), r)
  }

  /** One node after the other does so. */
  lemma {:induction false} Validate(g: PrimeGroup, home: System, steps: seq<Step>, states: seq<System>,
        loopback: bool, polys: map<string, Poly>, rs: set<string>)
      returns (plan: seq<Step>, states': seq<System>)
    requires Run(g, steps, states) && AllCanKey(g, home, Last(states), loopback, polys, rs)
    ensures Run(g, steps + plan, states') && states <= states' && Ordinary(plan, loopback)
    ensures OnlyNodes(Last(states), Last(states'), rs)
    ensures AllKeyed(g, home, Last(states'), loopback, polys, rs)
  {
    if rs == {} {
      plan, states' := [], states;
      assert steps + plan == steps;
    } else {
      var r :| r in rs;
      var s, mine := Last(states), Mine(home, loopback, polys, r);
      var plan1, states1 := Validate(g, home, steps, states, loopback, polys, rs - {r});
      StillCanKey(g, s, Last(states1), loopback, rs - {r}, mine, r);
      var plan2, states2 := ValidateOne(g, steps + plan1, states1, loopback, mine, r);
      plan, states' := plan1 + plan2, states2;
      JoinPlans(steps, plan1, plan2, loopback);
      OnlyNodesJoin(s, Last(states1), Last(states2), rs - {r}, {r});
      PutBack(rs, r);
      OneMoreKeyed(g, home, Last(states1), Last(states2), loopback, polys, rs, r);
    }
  }

  lemma StillKeyed(g: PrimeGroup, s: System, s': System, rs: set<string>, polys: map<string, Poly>, r: string)
    requires Keyed(g, s, polys, r) && OnlyNodes(s, s', rs) && r !in rs
    ensures Keyed(g, s', polys, r)
  {
  }

  lemma OneMoreKeyed(g: PrimeGroup, home: System, s: System, s': System, loopback: bool,
        polys: map<string, Poly>, rs: set<string>, r: string)
    requires AllKeyed(g, home, s, loopback, polys, rs - {r}) && OnlyNodes(s, s', {r})
    requires Keyed(g, s', Mine(home, loopback, polys, r), r)
    ensures AllKeyed(g, home, s', loopback, polys, rs)
  {
    forall q | q in rs
      ensures Keyed(g, s', Mine(home, loopback, polys, q), q)
    {
      if q != r {
        assert q in rs - {r};
        StillKeyed(g, s, s', {r}, Mine(home, loopback, polys, q), q);
      }
    }
  }

  // ---------- keys ----------

  /** r can take part: it holds nothing but dealings of `polys`, and has handled no validation. */
  ghost predicate Joins(s: System, loopback: bool, polys: map<string, Poly>, r: string) {
    && r in s.nodes && s.nodes[r].validations == map[]
    && s.nodes[r].shares.Keys <= Mine(s, loopback, polys, r).Keys
  }

  /** r can reach its gate: enough dealings, and someone in `rs` whose validation reaches it. */
  ghost predicate Gated(s: System, loopback: bool, polys: map<string, Poly>, rs: set<string>, r: string) {
    && r in rs && r in s.nodes && s.nodes[r].threshold <= |Mine(s, loopback, polys, r)|
    && exists w :: w in rs && Validates(s, loopback, polys, w, r)
  }

  ghost predicate Validates(s: System, loopback: bool, polys: map<string, Poly>, w: string, r: string) {
    Reaches(loopback, w, r) && Mine(s, loopback, polys, w) != map[]
  }

  ghost predicate AllGated(s: System, loopback: bool, polys: map<string, Poly>, rs: set<string>,
                           keyers: set<string>)
  {
    forall r :: r in keyers ==> Gated(s, loopback, polys, rs, r)
  }

  lemma JoiningWaits(g: PrimeGroup, steps: seq<Step>, states: seq<System>, loopback: bool,
        polys: map<string, Poly>, r: string)
    requires Run(g, steps, states) && Joins(Last(states), loopback, polys, r)
    requires forall d :: d in polys ==> (d, polys[d]) in Last(states).dealings
    ensures Waiting(g, Last(states), loopback, Mine(Last(states), loopback, polys, r), r)
  {
    var s, k := Last(states), |states| - 1;
    var mine := Mine(s, loopback, polys, r);
    NodeInvariant(g, steps, states, k, r);
    NodeNames(g, steps, states, k);
    forall d | d in mine
      ensures OfferedBy(g, s, loopback, d, mine[d], r)
    {
      DealingPublished(g, steps, states, k, d, mine[d]);
    }
  }

  lemma ReadyValidates(g: PrimeGroup, s1: System, loopback: bool, mine: map<string, Poly>, w: string, r: string)
    requires Ready(g, s1, mine, w) && mine != map[] && Reaches(loopback, w, r)
    ensures HasValidator(s1, loopback, r)
  {
    var d :| d in mine;
    assert ShareValidation(w, d, true) in s1.network;
  }

  lemma ReadyCanKey(g: PrimeGroup, s: System, s1: System, loopback: bool, polys: map<string, Poly>,
        rs: set<string>, r: string)
    requires OnlyNodes(s, s1, rs) && AllReady(g, s, s1, loopback, polys, rs) && Gated(s, loopback, polys, rs, r)
    ensures CanKey(g, s1, loopback, Mine(s, loopback, polys, r), r)
  {
    var w :| w in rs && Validates(s, loopback, polys, w, r);
    ReadyValidates(g, s1, loopback, Mine(s, loopback, polys, w), w, r);
    assert SameParameters(s.nodes[r], s1.nodes[r]);
  }

  /**
   From any state of any run, nodes that hold nothing else can be led by deliveries alone to
   compute their keys over exactly those of some dealings that reach and cover them, wherever
   these reach their thresholds and a single other node can send them a validation.
   */
  lemma KeysReachable(g: PrimeGroup, steps: seq<Step>, states: seq<System>, loopback: bool,
        polys: map<string, Poly>, rs: set<string>, keyers: set<string>)
      returns (plan: seq<Step>, states': seq<System>)
    requires Run(g, steps, states)
    requires forall d :: d in polys ==> (d, polys[d]) in Last(states).dealings
    requires forall r :: r in rs ==> Joins(Last(states), loopback, polys, r)
    requires AllGated(Last(states), loopback, polys, rs, keyers)
    ensures Run(g, steps + plan, states') && states <= states' && Ordinary(plan, loopback)
    ensures OnlyNodes(Last(states), Last(states'), rs)
    ensures AllKeyed(g, Last(states), Last(states'), loopback, polys, keyers)
  {
    var s := Last(states);
    forall r | r in rs
      ensures Waiting(g, s, loopback, Mine(s, loopback, polys, r), r)
    {
      JoiningWaits(g, steps, states, loopback, polys, r);
    }
    var plan1, states1 := Distribute(g, s, steps, states, loopback, polys, rs);
    forall r | r in keyers
      ensures CanKey(g, Last(states1), loopback, Mine(s, loopback, polys, r), r)
    {
      ReadyCanKey(g, s, Last(states1), loopback, polys, rs, r);
    }
    var plan2, states2 := Validate(g, s, steps + plan1, states1, loopback, polys, keyers);
    plan, states' := plan1 + plan2, states2;
    JoinPlans(steps, plan1, plan2, loopback);
    OnlyNodesJoin(s, Last(states1), Last(states2), rs, keyers);
    KeyersIncluded(s, loopback, polys, rs, keyers);
  }

  lemma KeyersIncluded(s: System, loopback: bool, polys: map<string, Poly>, rs: set<string>, keyers: set<string>)
    requires AllGated(s, loopback, polys, rs, keyers)
    ensures rs + keyers == rs
  {
  }

  // ---------- from the start ----------

  /** From s0 to s the nodes of `ds` have dealt their polynomials, and nothing has been delivered. */
  ghost predicate DealtOnly(s0: System, s: System, polys: map<string, Poly>, ds: set<string>)
    requires ds <= polys.Keys
  {
    && s.nodes.Keys == s0.nodes.Keys
    && (forall r :: r in s0.nodes ==> r in s.nodes && s.nodes[r] == s0.nodes[r].(status := s.nodes[r].status))
    && forall d :: d in ds ==> (d, polys[d]) in s.dealings
  }

  lemma DealOne(g: PrimeGroup, s0: System, steps: seq<Step>, states: seq<System>, polys: map<string, Poly>,
        ds: set<string>, d: string)
      returns (plan: seq<Step>, states': seq<System>)
    requires Run(g, steps, states) && d in ds && ds <= polys.Keys && DealtOnly(s0, Last(states), polys, ds - {d})
    requires d in s0.nodes && Dealable(g.order, s0.nodes[d].threshold, polys[d])
    ensures Run(g, steps + plan, states') && states <= states' && Ordinary(plan, false)
    ensures DealtOnly(s0, Last(states'), polys, ds)
  {
    var step := Start(d, polys[d], true);
    assert Last(states).nodes[d] == s0.nodes[d].(status := Last(states).nodes[d].status);
    RunExtends(g, steps, states, step);
    plan, states' := [step], states + [Apply(g, Last(states), step)];
    DealtOneMore(g, s0, Last(states), polys, ds, d);
  }

  lemma DealtOneMore(g: PrimeGroup, s0: System, s: System, polys: map<string, Poly>, ds: set<string>, d: string)
    requires d in ds && ds <= polys.Keys && DealtOnly(s0, s, polys, ds - {d})
    requires Enabled(g, s, Start(d, polys[d], true))
    ensures DealtOnly(s0, Apply(g, s, Start(d, polys[d], true)), polys, ds)
  {
    var s' := Apply(g, s, Start(d, polys[d], true));
    forall e | e in ds
      ensures (e, polys[e]) in s'.dealings
    {
      assert e == d || e in ds - {d};
    }
  }

  /** In s0 the nodes `polys` can deal these polynomials. */
  ghost predicate CanDeal(p: Modulus, s0: System, polys: map<string, Poly>) {
    forall d :: d in polys ==> d in s0.nodes && Dealable(p, s0.nodes[d].threshold, polys[d])
  }

  lemma {:induction false} DealAll(g: PrimeGroup, s0: System, polys: map<string, Poly>, ds: set<string>)
      returns (steps: seq<Step>, states: seq<System>)
    requires Initial(s0) && ds <= polys.Keys && CanDeal(g.order, s0, polys)
    ensures Run(g, steps, states) && states[0] == s0 && Ordinary(steps, false)
    ensures DealtOnly(s0, Last(states), polys, ds)
  {
    if ds == {} {
      steps, states := [], [s0];
    } else {
      var d :| d in ds;
      var steps1, states1 := DealAll(g, s0, polys, ds - {d});
      var plan, states2 := DealOne(g, s0, steps1, states1, polys, ds, d);
      steps, states := steps1 + plan, states2;
      JoinPlans([], steps1, plan, false);
    }
  }

  /** The dealings that reach and cover a node depend on parameters alone. */
  lemma SameMine(s0: System, s: System, loopback: bool, polys: map<string, Poly>, r: string)
    requires DealtOnly(s0, s, polys, polys.Keys)
    ensures Mine(s, loopback, polys, r) == Mine(s0, loopback, polys, r)
  {
    forall d | d in polys
      ensures DealsFor(s, d, r) <==> DealsFor(s0, d, r)
    {
      if d in s0.nodes {
        assert s.nodes[d] == s0.nodes[d].(status := s.nodes[d].status);
      }
    }
  }

  lemma StillGated(s0: System, s: System, loopback: bool, polys: map<string, Poly>, rs: set<string>, r: string)
    requires DealtOnly(s0, s, polys, polys.Keys) && Gated(s0, loopback, polys, rs, r)
    ensures Gated(s, loopback, polys, rs, r)
  {
    var w :| w in rs && Validates(s0, loopback, polys, w, r);
    SameMine(s0, s, loopback, polys, r);
    SameMine(s0, s, loopback, polys, w);
    assert Validates(s, loopback, polys, w, r);
    assert s.nodes[r] == s0.nodes[r].(status := s.nodes[r].status);
  }

  /** From the start of any system, the same: starts and deliveries lead to keys over any dealings. */
  lemma KeysFromStart(g: PrimeGroup, s0: System, loopback: bool, polys: map<string, Poly>, rs: set<string>,
        keyers: set<string>)
      returns (steps: seq<Step>, states: seq<System>)
    requires Initial(s0) && rs <= s0.nodes.Keys && CanDeal(g.order, s0, polys)
    requires AllGated(s0, loopback, polys, rs, keyers)
    ensures Run(g, steps, states) && states[0] == s0 && Ordinary(steps, loopback)
    ensures AllKeyed(g, s0, Last(states), loopback, polys, keyers)
  {
    var starts, states1 := DealAll(g, s0, polys, polys.Keys);
    var s := Last(states1);
    forall r | r in rs
      ensures Joins(s, loopback, polys, r)
    {
      assert s.nodes[r] == s0.nodes[r].(status := s.nodes[r].status);
    }
    forall r | r in keyers
      ensures Gated(s, loopback, polys, rs, r)
    {
      StillGated(s0, s, loopback, polys, rs, r);
    }
    var plan;
    plan, states := KeysReachable(g, starts, states1, loopback, polys, rs, keyers);
    steps := starts + plan;
    JoinPlans([], starts, plan, loopback);
    AllKeyedFromStart(g, s0, s, Last(states), loopback, polys, keyers);
  }

  lemma AllKeyedFromStart(g: PrimeGroup, s0: System, s: System, s': System, loopback: bool,
        polys: map<string, Poly>, keyers: set<string>)
    requires DealtOnly(s0, s, polys, polys.Keys) && AllKeyed(g, s, s', loopback, polys, keyers)
    ensures AllKeyed(g, s0, s', loopback, polys, keyers)
  {
    forall r | r in keyers
      ensures Keyed(g, s', Mine(s0, loopback, polys, r), r)
    {
      assert Keyed(g, s', Mine(s, loopback, polys, r), r);
      SameMine(s0, s, loopback, polys, r);
    }
  }
}
