/**
 What a live node records, sends and reports, as a function of the messages delivered to it; what
 it stores is in `LatestDistributionStored`.
 */
module DkgHistory {
  import opened Wrappers
  import opened PrimeField
  import opened Polynomials
  import opened Interpolation
  import opened CyclicGroup
  import opened Feldman
  import opened DkgNode
  import opened DkgRuns

  // ---------- one message ----------

  /** The distribution carries a share for index i. */
  ghost predicate Carries(m: Message, i: U64) {
    m.ShareDistribution? && exists k :: 0 <= k < |m.shares| && m.shares[k].index == i
  }

  lemma FindIff(shares: seq<KeyShare>, i: U64)
    ensures Find(shares, i).Some? <==> exists k :: 0 <= k < |shares| && shares[k].index == i
  {
    if Find(shares, i).Some? {
      var k :| 0 <= k < |shares| && FirstAt(shares, i, k);
    }
  }

  /** A handler fails exactly for a distribution with its share whose validation cannot be sent. */
  lemma OutcomeIff(g: PrimeGroup, v: NodeState, m: Message, sendOk: bool)
    ensures Handle(g, v, m, sendOk).outcome ==
            if Carries(m, IndexOf(v.id)) && !sendOk then SendFailed else Finished
  {
    if m.ShareDistribution? {
      FindIff(m.shares, IndexOf(v.id));
    }
  }

  /** It sends exactly the validation of such a distribution. */
  lemma SentIff(g: PrimeGroup, v: NodeState, m: Message, sendOk: bool)
    ensures Handle(g, v, m, sendOk).sent ==
            if Carries(m, IndexOf(v.id)) && sendOk then Some(ShareValidation(v.id, m.sender, true)) else None
  {
    if m.ShareDistribution? {
      FindIff(m.shares, IndexOf(v.id));
    }
  }

  /** In every run, a distribution is one of its sender's dealings: n shares and threshold + 1 commitments. */
  lemma NodeDistribution(g: PrimeGroup, steps: seq<Step>, states: seq<System>, k: nat, m: Message) returns (c: Poly)
    requires Run(g, steps, states) && k < |states| && m in states[k].network && m.ShareDistribution?
    ensures m.sender in states[k].nodes && (m.sender, c) in states[k].dealings
    ensures |c| == states[k].nodes[m.sender].threshold + 1
    ensures |m.shares| == states[k].nodes[m.sender].totalNodes
    ensures forall i :: 0 <= i < |m.shares| ==> m.shares[i] == KeyShare(i + 1, Eval(c, i + 1) % g.order)
    ensures |m.commitments| == |c| && forall j :: 0 <= j < |c| ==> m.commitments[j] == g.Exp(c[j])
  {
    RunInvariant(g, steps, states, k);
    assert MessageInv(g, states[k], m);
    c := Committed(g, m.commitments);
  }

  // ---------- validations ----------

  ghost predicate ValidatesFor(step: Step, r: string, d: string) {
    step.Deliver? && step.id == r && step.m.ShareValidation? && step.m.dealer == d
  }

  /** The validations for d that were delivered to r, in order. */
  ghost function ValidationLog(steps: seq<Step>, r: string, d: string): seq<bool> {
    if steps == [] then []
    else ValidationLog(Init(steps), r, d) + if ValidatesFor(Last(steps), r, d) then [Last(steps).m.isValid] else []
  }

  ghost predicate RecordsLog(v: NodeState, d: string, log: seq<bool>) {
    if d in v.validations then log == v.validations[d] != [] else log == []
  }

  lemma HandledValidations(g: PrimeGroup, v: NodeState, m: Message, sendOk: bool, d: string, log: seq<bool>)
    requires RecordsLog(v, d, log)
    ensures RecordsLog(Handle(g, v, m, sendOk).state, d,
                       log + if m.ShareValidation? && m.dealer == d then [m.isValid] else [])
  {
    if m.ShareDistribution? {
      assert Handle(g, v, m, sendOk).state == AfterDistribution(v, m);
    }
  }

  lemma StepRecords(g: PrimeGroup, s: System, step: Step, r: string, d: string, log: seq<bool>)
    requires Enabled(g, s, step) && r in s.nodes && RecordsLog(s.nodes[r], d, log)
    ensures r in Apply(g, s, step).nodes
    ensures RecordsLog(Apply(g, s, step).nodes[r], d,
                       log + if ValidatesFor(step, r, d) then [step.m.isValid] else [])
  {
    if step.Deliver? && step.id == r {
      HandledValidations(g, s.nodes[r], step.m, step.sendOk, d, log);
    } else {
      assert Apply(g, s, step).nodes[r].validations == s.nodes[r].validations;
    }
  }

  /** In every run the list under d is exactly the validations for d that were delivered, in order. */
  lemma {:induction false} ValidationsRecorded(g: PrimeGroup, steps: seq<Step>, states: seq<System>, k: nat,
        r: string, d: string)
    requires Run(g, steps, states) && k < |states| && r in states[0].nodes
    ensures r in states[k].nodes && RecordsLog(states[k].nodes[r], d, ValidationLog(steps[..k], r, d))
  {
    if k > 0 {
      ValidationsRecorded(g, steps, states, k - 1, r, d);
      assert StepAt(g, steps, states, k - 1);
      StepRecords(g, states[k - 1], steps[k - 1], r, d, ValidationLog(steps[..k - 1], r, d));
      assert Init(steps[..k]) == steps[..k - 1] && Last(steps[..k]) == steps[k - 1];
    }
  }

  /** Nobody outside has published. */
  predicate NoOutsiders(steps: seq<Step>) {
    forall i :: 0 <= i < |steps| ==> !steps[i].Outside?
  }

  ghost predicate AllPositive(s: System) {
    forall m :: m in s.network && m.ShareValidation? ==> m.isValid
  }

  lemma StepStaysPositive(g: PrimeGroup, s: System, step: Step)
    requires Enabled(g, s, step) && !step.Outside? && AllPositive(s)
    ensures AllPositive(Apply(g, s, step))
  {
    if step.Deliver? {
      SentIff(g, s.nodes[step.id], step.m, step.sendOk);
    }
  }

  lemma {:induction false} NodesValidatePositively(g: PrimeGroup, steps: seq<Step>, states: seq<System>, k: nat)
    requires Run(g, steps, states) && k < |states| && NoOutsiders(steps)
    ensures AllPositive(states[k])
  {
    if k > 0 {
      NodesValidatePositively(g, steps, states, k - 1);
      assert StepAt(g, steps, states, k - 1);
      StepStaysPositive(g, states[k - 1], steps[k - 1]);
    }
  }

  lemma {:induction false} LogPositive(g: PrimeGroup, steps: seq<Step>, states: seq<System>, k: nat, r: string,
        d: string)
    requires Run(g, steps, states) && k < |states| && NoOutsiders(steps)
    ensures forall i :: 0 <= i < |ValidationLog(steps[..k], r, d)| ==> ValidationLog(steps[..k], r, d)[i]
  {
    if k > 0 {
      LogPositive(g, steps, states, k - 1, r, d);
      NodesValidatePositively(g, steps, states, k - 1);
      assert StepAt(g, steps, states, k - 1);
      assert Init(steps[..k]) == steps[..k - 1] && Last(steps[..k]) == steps[k - 1];
    }
  }

  /** Without outsiders, every validation that any node has recorded is positive. */
  lemma RecordedPositive(g: PrimeGroup, steps: seq<Step>, states: seq<System>, k: nat, r: string, d: string, i: nat)
    requires Run(g, steps, states) && k < |states| && NoOutsiders(steps) && r in states[0].nodes
    requires r in states[k].nodes && d in states[k].nodes[r].validations && i < |states[k].nodes[r].validations[d]|
    ensures states[k].nodes[r].validations[d][i]
  {
    ValidationsRecorded(g, steps, states, k, r, d);
    LogPositive(g, steps, states, k, r, d);
  }

  // ---------- status ----------

  ghost predicate HasStarted(steps: seq<Step>, r: string) {
    exists i :: 0 <= i < |steps| && steps[i].Start? && steps[i].id == r
  }

  lemma StepStatus(g: PrimeGroup, s: System, step: Step, r: string)
    requires Enabled(g, s, step) && r in s.nodes
    ensures r in Apply(g, s, step).nodes
    ensures Apply(g, s, step).nodes[r].status ==
            if step.Start? && step.id == r then Started else s.nodes[r].status
  {
  }

  lemma StartedIff(steps: seq<Step>, r: string)
    requires steps != []
    ensures HasStarted(steps, r) <==> HasStarted(Init(steps), r) || (Last(steps).Start? && Last(steps).id == r)
  {
    if HasStarted(Init(steps), r) {
      var i :| 0 <= i < |steps| - 1 && Init(steps)[i].Start? && Init(steps)[i].id == r;
      assert steps[i].Start? && steps[i].id == r;
    }
    if Last(steps).Start? && Last(steps).id == r {
      assert steps[|steps| - 1].Start?;
    }
    if i :| 0 <= i < |steps| && steps[i].Start? && steps[i].id == r && i < |steps| - 1 {
      assert Init(steps)[i].Start? && Init(steps)[i].id == r;
    }
  }

  /** In every run a node is new until told to start, whether or not its broadcast succeeds, and started ever after. */
  lemma {:induction false} StatusIff(g: PrimeGroup, steps: seq<Step>, states: seq<System>, k: nat, r: string)
    requires Run(g, steps, states) && k < |states| && r in states[0].nodes
    ensures r in states[k].nodes
    ensures states[k].nodes[r].status == if HasStarted(steps[..k], r) then Started else New
  {
    if k > 0 {
      StatusIff(g, steps, states, k - 1, r);
      assert StepAt(g, steps, states, k - 1);
      StepStatus(g, states[k - 1], steps[k - 1], r);
      StartedIff(steps[..k], r);
      assert Init(steps[..k]) == steps[..k - 1] && Last(steps[..k]) == steps[k - 1];
    }
  }
}
