/**
 Feldman commitments: a polynomial committed coefficient by coefficient, and the check of a
 share against the commitments.
 */
module Feldman {
  import opened PrimeField
  import opened Polynomials
  import opened Interpolation
  import opened CyclicGroup

  ghost predicate Contained(g: PrimeGroup, comms: seq<Point>) {
    forall j :: 0 <= j < |comms| ==> g.Contains(comms[j])
  }

  /** The commitments to a polynomial's coefficients. */
  function Commit(g: PrimeGroup, c: Poly): (comms: seq<Point>)
    ensures |comms| == |c|
  {
    seq(|c|, j requires 0 <= j < |c| => g.Exp(c[j]))
  }

  /** Horner's rule among points: the commitment to the value at x. */
  function CommitEval(g: PrimeGroup, comms: seq<Point>, x: nat): Point {
    if comms == [] then g.identity
    else g.plus(comms[0], g.Times(CommitEval(g, comms[1..], x), x))
  }

  /** The Feldman equation for a share at index x. */
  predicate Accepts(g: PrimeGroup, comms: seq<Point>, x: nat, share: int) {
    CommitEval(g, comms, x) == g.Exp(share)
  }

  /** The polynomial a vector of group points commits to. */
  ghost function Committed(g: PrimeGroup, comms: seq<Point>): (c: Poly)
    requires Contained(g, comms)
    ensures |c| == |comms|
    ensures forall j :: 0 <= j < |c| ==> IsScalar(g.order, c[j]) && g.Exp(c[j]) == comms[j]
  {
    seq(|comms|, j requires 0 <= j < |comms| => Log(g, comms[j]))
  }

  lemma CommitCommitted(g: PrimeGroup, comms: seq<Point>)
    requires Contained(g, comms)
    ensures Commit(g, Committed(g, comms)) == comms
  {
  }

  lemma CommitContained(g: PrimeGroup, c: Poly)
    ensures Contained(g, Commit(g, c))
  {
    forall j | 0 <= j < |c|
      ensures g.Contains(Commit(g, c)[j])
    {
      ExpContained(g, c[j]);
    }
  }

  /** Committing to canonical coefficients loses nothing. */
  lemma CommittedCommit(g: PrimeGroup, c: Poly)
    requires forall j :: 0 <= j < |c| ==> IsScalar(g.order, c[j])
    ensures Contained(g, Commit(g, c)) && Committed(g, Commit(g, c)) == c
  {
    CommitContained(g, c);
    forall j | 0 <= j < |c|
      ensures Committed(g, Commit(g, c))[j] == c[j]
    {
      LogOfExp(g, c[j]);
      ModSmall(g.order, c[j]);
    }
  }

  /** Evaluation commutes with commitment. */
  lemma {:induction false} CommitEvalIsExp(g: PrimeGroup, c: Poly, x: nat)
    ensures CommitEval(g, Commit(g, c), x) == g.Exp(Eval(c, x))
  {
    if c == [] {
      ExpZero(g);
    } else {
      assert Commit(g, c)[1..] == Commit(g, c[1..]);
      CommitEvalIsExp(g, c[1..], x);
      ExpTimes(g, Eval(c[1..], x), x);
      ExpAdd(g, c[0], Eval(c[1..], x) * x);
      assert Eval(c[1..], x) * x == x * Eval(c[1..], x);
    }
  }

  lemma TimesReduced(g: PrimeGroup, a: int, w: int)
    ensures g.Times(g.Exp(a), w % g.order) == g.Exp(a * w)
  {
    var p := g.order;
    ExpTimes(g, a, w % p);
    CongMod(p, w);
    CongRefl(p, a);
    CongMul(p, a, a, w % p, w);
    ExpCong(g, a * (w % p), a * w);
  }

  /** Adding the next power term to a prefix evaluates the longer prefix. */
  lemma CommitEvalPrefix(g: PrimeGroup, comms: seq<Point>, x: nat, j: nat)
    requires Contained(g, comms) && j < |comms|
    ensures CommitEval(g, comms[..j + 1], x) ==
            g.plus(CommitEval(g, comms[..j], x), g.Times(comms[j], Pow(x, j) % g.order))
  {
    var c := Committed(g, comms);
    assert Commit(g, c[..j]) == comms[..j] && Commit(g, c[..j + 1]) == comms[..j + 1];
    CommitEvalIsExp(g, c[..j], x);
    CommitEvalIsExp(g, c[..j + 1], x);
    EvalPrefix(c, x, j);
    TimesReduced(g, c[j], Pow(x, j));
    ExpAdd(g, Eval(c[..j], x), c[j] * Pow(x, j));
  }

  /** The check passes for exactly the value of the committed polynomial. */
  lemma AcceptsIff(g: PrimeGroup, c: Poly, x: nat, share: int)
    ensures Accepts(g, Commit(g, c), x, share) <==> share % g.order == Eval(c, x) % g.order
  {
    CommitEvalIsExp(g, c, x);
    ExpInjective(g, Eval(c, x), share);
  }

  // ---------- binding ----------

  ghost predicate AllAccepted(g: PrimeGroup, comms: seq<Point>, shares: seq<Share>) {
    forall k :: 0 <= k < |shares| ==> Accepts(g, comms, shares[k].0, shares[k].1)
  }

  /** Accepted shares all lie on the one committed polynomial, honest dealer or not. */
  lemma AcceptedOnPolynomial(g: PrimeGroup, comms: seq<Point>, shares: seq<Share>)
    requires Contained(g, comms)
    ensures AllAccepted(g, comms, shares) <==> OnPolynomial(g.order, Committed(g, comms), shares)
  {
    var c := Committed(g, comms);
    CommitCommitted(g, comms);
    forall k | 0 <= k < |shares|
      ensures Accepts(g, comms, shares[k].0, shares[k].1) <==> Cong(g.order, shares[k].1, Eval(c, shares[k].0))
    {
      AcceptsIff(g, c, shares[k].0, shares[k].1);
      CongIff(g.order, shares[k].1, Eval(c, shares[k].0));
    }
  }

  /**
   As many accepted shares as commitments reconstruct a secret whose commitment is the first of
   the vector; the empty vector binds its dealer to zero.
   */
  lemma FeldmanBinding(g: PrimeGroup, comms: seq<Point>, shares: seq<Share>)
    requires Contained(g, comms) && DistinctIndices(shares) && |shares| >= |comms|
    requires AllAccepted(g, comms, shares)
    ensures g.Exp(Reconstruct(g.order, shares)) == if comms == [] then g.identity else comms[0]
  {
    var c := Committed(g, comms);
    AcceptedOnPolynomial(g, comms, shares);
    ReconstructionTheorem(g.order, c, shares);
    EvalAtZero(c);
    CongMod(g.order, Eval(c, 0));
    ExpCong(g, Reconstruct(g.order, shares), Eval(c, 0));
    ExpZero(g);
  }

  /** Whichever sufficiently large sets of nodes pool their accepted shares, they agree on the secret. */
  lemma BindingUnique(g: PrimeGroup, comms: seq<Point>, a: seq<Share>, b: seq<Share>)
    requires Contained(g, comms) && |a| >= |comms| && |b| >= |comms|
    requires DistinctIndices(a) && AllAccepted(g, comms, a)
    requires DistinctIndices(b) && AllAccepted(g, comms, b)
    ensures Reconstruct(g.order, a) == Reconstruct(g.order, b)
  {
    AcceptedOnPolynomial(g, comms, a);
    AcceptedOnPolynomial(g, comms, b);
    ExtraSharesIrrelevant(g.order, Committed(g, comms), a, b);
  }

  /** Enough accepted shares determine the whole commitment vector. */
  lemma CommitmentsDetermined(g: PrimeGroup, comms: seq<Point>, comms': seq<Point>, shares: seq<Share>)
    requires Contained(g, comms) && Contained(g, comms')
    requires DistinctIndices(shares) && |shares| >= |comms| == |comms'|
    requires AllAccepted(g, comms, shares) && AllAccepted(g, comms', shares)
    ensures comms == comms'
  {
    var p, c, c' := g.order, Committed(g, comms), Committed(g, comms');
    AcceptedOnPolynomial(g, comms, shares);
    AcceptedOnPolynomial(g, comms', shares);
    IndicesIncongruent(p, shares);
    var xs := Indices(shares);
    forall k | 0 <= k < |xs|
      ensures Cong(p, Eval(c, xs[k]), Eval(c', xs[k]))
    {
      CongSym(p, shares[k].1, Eval(c, xs[k]));
      CongTrans(p, Eval(c, xs[k]), shares[k].1, Eval(c', xs[k]));
    }
    CoefficientsUnique(p, c, c', xs);
    forall j | 0 <= j < |comms|
      ensures comms[j] == comms'[j]
    {
      ExpCong(g, c[j], c'[j]);
    }
  }

  // ---------- interpolation in the exponent ----------

  /** An index and the point held at it. */
  type IndexedPoint = (U64, Point)

  /** Points held at indices, weighted by their Lagrange coefficients over `all`. */
  function WeightedPoints(g: PrimeGroup, all: seq<IndexedPoint>, points: seq<IndexedPoint>): Point {
    if points == [] then g.identity
    else g.plus(WeightedPoints(g, all, Init(points)),
                g.Times(Last(points).1, Weight(g.order, all, Last(points).0) % g.order))
  }

  lemma {:induction false} WeightedPointsAreExps(g: PrimeGroup, all: seq<IndexedPoint>, all': seq<Share>,
        points: seq<IndexedPoint>, shares: seq<Share>)
    requires |all| == |all'| && forall k :: 0 <= k < |all| ==> all[k].0 == all'[k].0
    requires |points| == |shares|
    requires forall k :: 0 <= k < |shares| ==> points[k] == (shares[k].0, g.Exp(shares[k].1))
    ensures WeightedPoints(g, all, points) == g.Exp(WeightedSum(g.order, all', shares))
  {
    if points == [] {
      ExpZero(g);
    } else {
      var (i, y) := Last(shares);
      WeightedPointsAreExps(g, all, all', Init(points), Init(shares));
      WeightOfIndices(g.order, all, all', i);
      TimesReduced(g, y, Weight(g.order, all, i));
      ExpAdd(g, WeightedSum(g.order, all', Init(shares)), y * Weight(g.order, all', i));
    }
  }

  /** Points on a polynomial in the exponent interpolate to the point of its constant term. */
  lemma ExponentInterpolation(g: PrimeGroup, c: Poly, points: seq<IndexedPoint>)
    requires DistinctIndices(points) && |points| >= |c|
    requires forall k :: 0 <= k < |points| ==> points[k].1 == g.Exp(Eval(c, points[k].0))
    ensures WeightedPoints(g, points, points) == g.Exp(Eval(c, 0))
  {
    var p := g.order;
    var shares: seq<Share> := seq(|points|, k requires 0 <= k < |points| => (points[k].0, Eval(c, points[k].0)));
    forall k | 0 <= k < |shares|
      ensures Cong(p, shares[k].1, Eval(c, shares[k].0))
    {
      CongRefl(p, shares[k].1);
    }
    WeightedPointsAreExps(g, points, shares, points, shares);
    ReconstructionTheorem(p, c, shares);
    CongIff(p, WeightedSum(p, shares, shares), Eval(c, 0));
    ExpCong(g, WeightedSum(p, shares, shares), Eval(c, 0));
  }

  /** Points that, at each index, fall short by own[k] of a polynomial in the exponent. */
  ghost predicate ShortPoints(g: PrimeGroup, c: Poly, points: seq<IndexedPoint>, own: seq<Share>)
    requires |points| == |own|
  {
    forall k :: 0 <= k < |points| ==> ShortPoint(g, c, points[k], own[k])
  }

  ghost predicate ShortPoint(g: PrimeGroup, c: Poly, point: IndexedPoint, own: Share) {
    point == (own.0, g.Exp(Eval(c, own.0) - own.1))
  }

  predicate PointsOf(g: PrimeGroup, points: seq<IndexedPoint>, shares: seq<Share>) {
    |points| == |shares| && forall k :: 0 <= k < |shares| ==> points[k] == (shares[k].0, g.Exp(shares[k].1))
  }

  lemma WeightedPointsOf(g: PrimeGroup, points: seq<IndexedPoint>, shares: seq<Share>)
    requires PointsOf(g, points, shares)
    ensures WeightedPoints(g, points, points) == g.Exp(WeightedSum(g.order, shares, shares))
  {
    WeightedPointsAreExps(g, points, shares, points, shares);
  }

  /** The values of a polynomial at the indices of some shares, less those shares. */
  function Rest(c: Poly, own: seq<Share>): (rest: seq<Share>)
    ensures |rest| == |own|
    ensures forall k :: 0 <= k < |own| ==> rest[k] == (own[k].0, Eval(c, own[k].0) - own[k].1)
  {
    seq(|own|, k requires 0 <= k < |own| => (own[k].0, Eval(c, own[k].0) - own[k].1))
  }

  lemma RestAddsUp(p: Modulus, c: Poly, own: seq<Share>) returns (full: seq<Share>)
    requires DistinctIndices(own) && |own| >= |c|
    ensures SameIndices(Rest(c, own), full) && SameIndices(own, full) && AddsUp(p, Rest(c, own), own, full)
    ensures Reconstruct(p, full) == Eval(c, 0) % p
  {
    full := seq(|own|, k requires 0 <= k < |own| => (own[k].0, Eval(c, own[k].0)));
    forall k | 0 <= k < |own|
      ensures Cong(p, Rest(c, own)[k].1 + own[k].1, full[k].1) && Cong(p, full[k].1, Eval(c, full[k].0))
    {
      CongRefl(p, full[k].1);
    }
    ReconstructionTheorem(p, c, full);
  }

  lemma ShortPointsOf(g: PrimeGroup, c: Poly, points: seq<IndexedPoint>, own: seq<Share>)
    requires |points| == |own| && ShortPoints(g, c, points, own)
    ensures PointsOf(g, points, Rest(c, own))
  {
    forall k | 0 <= k < |own|
      ensures points[k] == (Rest(c, own)[k].0, g.Exp(Rest(c, own)[k].1))
    {
      assert ShortPoint(g, c, points[k], own[k]);
    }
  }

  /** Such points, and those they fall short by, interpolate to parts of the constant term's point. */
  lemma ShortInterpolation(g: PrimeGroup, c: Poly, points: seq<IndexedPoint>, ownPoints: seq<IndexedPoint>,
        own: seq<Share>)
    requires |points| == |own| && ShortPoints(g, c, points, own) && PointsOf(g, ownPoints, own)
    requires DistinctIndices(own) && |own| >= |c|
    ensures g.plus(WeightedPoints(g, points, points), WeightedPoints(g, ownPoints, ownPoints)) == g.Exp(Eval(c, 0))
  {
    ShortPointsOf(g, c, points, own);
    WeightedPointsOf(g, points, Rest(c, own));
    WeightedPointsOf(g, ownPoints, own);
    var full := RestAddsUp(g.order, c, own);
    PartsAddUp(g, Rest(c, own), own, full, Eval(c, 0));
  }

  lemma PartsAddUp(g: PrimeGroup, a: seq<Share>, b: seq<Share>, sum: seq<Share>, secret: int)
    requires SameIndices(a, sum) && SameIndices(b, sum) && AddsUp(g.order, a, b, sum)
    requires Reconstruct(g.order, sum) == secret % g.order
    ensures g.plus(g.Exp(WeightedSum(g.order, a, a)), g.Exp(WeightedSum(g.order, b, b))) == g.Exp(secret)
  {
    var p := g.order;
    WeightedSumAdds(p, a, b, sum, |sum|);
    assert a[..|sum|] == a && b[..|sum|] == b && sum[..|sum|] == sum;
    ExpAdd(g, WeightedSum(p, a, a), WeightedSum(p, b, b));
    CongIff(p, WeightedSum(p, a, a) + WeightedSum(p, b, b), WeightedSum(p, sum, sum));
    CongIff(p, WeightedSum(p, a, a) + WeightedSum(p, b, b), secret);
    ExpCong(g, WeightedSum(p, a, a) + WeightedSum(p, b, b), secret);
  }
}
