/**
 Lagrange interpolation at zero over the scalar field.

 `Reconstruct` is the value `reconstruct_secret` computes.  It is connected to the polynomial
 through the shares by building that polynomial (`Interpolant`) from exact basis polynomials.
 */
module Interpolation {
  import opened PrimeField
  import opened Polynomials

  /** An index and the value held at it. */
  type Share = (U64, int)

  predicate DistinctIndices(shares: seq<Share>) {
    forall i, j :: 0 <= i < j < |shares| ==> shares[i].0 != shares[j].0
  }

  function Indices(shares: seq<Share>): (xs: seq<int>)
    ensures |xs| == |shares|
    ensures forall i :: 0 <= i < |xs| ==> xs[i] == shares[i].0
  {
    seq(|shares|, i requires 0 <= i < |shares| => shares[i].0)
  }

  function Init<T>(s: seq<T>): seq<T>
    requires s != []
  {
    s[..|s| - 1]
  }

  function Last<T>(s: seq<T>): T
    requires s != []
  {
    s[|s| - 1]
  }

  /** What the entry with index j contributes to the weight of index i. */
  function WeightFactor(p: Modulus, j: U64, i: U64): int {
    if j == i then 1 else j * Inv(p, j - i)
  }

  /** The Lagrange coefficient of index i at zero, over the entries whose index differs from i. */
  function Weight(p: Modulus, shares: seq<Share>, i: U64): int {
    if shares == [] then 1
    else Weight(p, Init(shares), i) * WeightFactor(p, Last(shares).0, i)
  }

  /** The values of `shares`, weighted by their coefficients over `all`. */
  function WeightedSum(p: Modulus, all: seq<Share>, shares: seq<Share>): int {
    if shares == [] then 0
    else WeightedSum(p, all, Init(shares)) + Last(shares).1 * Weight(p, all, Last(shares).0)
  }

  function Reconstruct(p: Modulus, shares: seq<Share>): (s: int)
    ensures IsScalar(p, s)
  {
    WeightedSum(p, shares, shares) % p
  }

  /** Distinct u64 values never differ by a multiple of the modulus. */
  lemma IndicesDiffer(p: Modulus, i: U64, j: U64)
    requires i != j
    ensures !Divides(p, i - j) && (i - j) % p != 0
  {
    CanonicalDistinct(p, i, j);
    DividesMod(p, i - j);
  }

  lemma IndicesIncongruent(p: Modulus, shares: seq<Share>)
    requires DistinctIndices(shares)
    ensures Incongruent(p, Indices(shares))
  {
    var xs := Indices(shares);
    forall i, j | 0 <= i < j < |xs|
      ensures !Divides(p, xs[i] - xs[j])
    {
      assert shares[i].0 != shares[j].0;
      IndicesDiffer(p, shares[i].0, shares[j].0);
    }
  }

  // ---------- basis polynomials ----------

  /** The product of (X_j - X) / (X_j - i) over the entries with index X_j other than i. */
  function Basis(p: Modulus, shares: seq<Share>, i: U64): (b: Poly)
    ensures b != []
  {
    if shares == [] then [1]
    else
      var b := Basis(p, Init(shares), i);
      var j := Last(shares).0;
      if j == i then b else Scale(MulFactor(b, j), Inv(p, j - i))
  }

  function BasisFactor(p: Modulus, j: U64, i: U64, x: int): int {
    if j == i then 1 else (j - x) * Inv(p, j - i)
  }

  lemma BasisStep(p: Modulus, shares: seq<Share>, i: U64, x: int)
    requires shares != []
    ensures var j := Last(shares).0;
            Eval(Basis(p, shares, i), x) ==
            Eval(Basis(p, Init(shares), i), x) * BasisFactor(p, j, i, x)
  {
    var b, j := Basis(p, Init(shares), i), Last(shares).0;
    if j != i {
      EvalMulFactor(b, j, x);
      EvalScale(MulFactor(b, j), Inv(p, j - i), x);
      Regroup(Inv(p, j - i), j - x, Eval(b, x));
    }
  }

  lemma Regroup(a: int, b: int, c: int)
    ensures a * (b * c) == c * (b * a)
  {
  }

  lemma {:induction false} BasisAtZero(p: Modulus, shares: seq<Share>, i: U64)
    ensures Eval(Basis(p, shares, i), 0) == Weight(p, shares, i)
  {
    if shares != [] {
      BasisAtZero(p, Init(shares), i);
      BasisStep(p, shares, i, 0);
    }
  }

  lemma {:induction false} BasisAtOther(p: Modulus, shares: seq<Share>, i: U64, k: nat)
    requires k < |shares| && shares[k].0 != i
    ensures Eval(Basis(p, shares, i), shares[k].0) == 0
  {
    var x, j := shares[k].0, Last(shares).0;
    BasisStep(p, shares, i, x);
    if k < |shares| - 1 {
      BasisAtOther(p, Init(shares), i, k);
    } else {
      assert BasisFactor(p, j, i, x) == (j - x) * Inv(p, j - i);
      assert j - x == 0;
    }
  }

  lemma BasisFactorAtOwn(p: Modulus, j: U64, i: U64)
    ensures Cong(p, BasisFactor(p, j, i, i), 1)
  {
    if j == i {
      CongRefl(p, 1);
    } else {
      IndicesDiffer(p, j, i);
      InvCong(p, j - i);
    }
  }

  lemma {:induction false} BasisAtOwn(p: Modulus, shares: seq<Share>, i: U64)
    ensures Cong(p, Eval(Basis(p, shares, i), i), 1)
  {
    if shares == [] {
      assert Eval([1], i) == 1 + i * Eval([], i);
      CongRefl(p, 1);
    } else {
      var j := Last(shares).0;
      BasisAtOwn(p, Init(shares), i);
      BasisStep(p, shares, i, i);
      BasisFactorAtOwn(p, j, i);
      CongMul(p, Eval(Basis(p, Init(shares), i), i), 1, BasisFactor(p, j, i, i), 1);
    }
  }

  ghost predicate HasIndex(shares: seq<Share>, i: U64) {
    exists k :: 0 <= k < |shares| && shares[k].0 == i
  }

  lemma {:induction false} BasisLength(p: Modulus, shares: seq<Share>, i: U64)
    requires DistinctIndices(shares)
    ensures |Basis(p, shares, i)| == |shares| + (if HasIndex(shares, i) then 0 else 1)
  {
    if shares != [] {
      var s := Init(shares);
      BasisLength(p, s, i);
      assert shares == s + [Last(shares)];
      assert HasIndex(shares, i) <==> HasIndex(s, i) || Last(shares).0 == i by {
        if Last(shares).0 == i {
          assert shares[|s|].0 == i;
        }
      }
    }
  }

  // ---------- the polynomial through the shares ----------

  function Interpolant(p: Modulus, all: seq<Share>, shares: seq<Share>): Poly {
    if shares == [] then []
    else PolyAdd(Interpolant(p, all, Init(shares)), Scale(Basis(p, all, Last(shares).0), Last(shares).1))
  }

  lemma InterpolantStep(p: Modulus, all: seq<Share>, shares: seq<Share>, x: int)
    requires shares != []
    ensures Eval(Interpolant(p, all, shares), x) ==
            Eval(Interpolant(p, all, Init(shares)), x) + Last(shares).1 * Eval(Basis(p, all, Last(shares).0), x)
  {
    var b, y := Basis(p, all, Last(shares).0), Last(shares).1;
    EvalAdd(Interpolant(p, all, Init(shares)), Scale(b, y), x);
    EvalScale(b, y, x);
  }

  lemma {:induction false} InterpolantAtZero(p: Modulus, all: seq<Share>, shares: seq<Share>)
    ensures Eval(Interpolant(p, all, shares), 0) == WeightedSum(p, all, shares)
  {
    if shares != [] {
      InterpolantAtZero(p, all, Init(shares));
      InterpolantStep(p, all, shares, 0);
      BasisAtZero(p, all, Last(shares).0);
    }
  }

  lemma {:induction false} InterpolantLength(p: Modulus, all: seq<Share>, m: nat)
    requires DistinctIndices(all) && m <= |all|
    ensures |Interpolant(p, all, all[..m])| == if m == 0 then 0 else |all|
  {
    if m > 0 {
      assert Init(all[..m]) == all[..m - 1] && Last(all[..m]) == all[m - 1];
      InterpolantLength(p, all, m - 1);
      BasisLength(p, all, all[m - 1].0);
    }
  }

  /** The interpolant built from the first m shares takes their values and is 0 at the others. */
  lemma {:induction false} InterpolantThrough(p: Modulus, all: seq<Share>, m: nat, k: nat)
    requires DistinctIndices(all) && m <= |all| && k < |all|
    ensures Cong(p, Eval(Interpolant(p, all, all[..m]), all[k].0), if k < m then all[k].1 else 0)
  {
    if m == 0 {
      CongRefl(p, 0);
    } else {
      var shares, x := all[..m], all[k].0;
      var (i, y) := all[m - 1];
      assert Init(shares) == all[..m - 1] && Last(shares) == (i, y);
      InterpolantThrough(p, all, m - 1, k);
      InterpolantStep(p, all, shares, x);
      BasisTerm(p, all, m - 1, k);
      CongAdd(p, Eval(Interpolant(p, all, Init(shares)), x), if k < m - 1 then all[k].1 else 0,
              y * Eval(Basis(p, all, i), x), if k == m - 1 then y else 0);
    }
  }

  lemma BasisTerm(p: Modulus, all: seq<Share>, m: nat, k: nat)
    requires DistinctIndices(all) && m < |all| && k < |all|
    ensures var (i, y) := all[m];
            Cong(p, y * Eval(Basis(p, all, i), all[k].0), if k == m then y else 0)
  {
    var (i, y) := all[m];
    if k == m {
      BasisAtOwn(p, all, i);
      CongRefl(p, y);
      CongMul(p, y, y, Eval(Basis(p, all, i), i), 1);
    } else {
      BasisAtOther(p, all, i, k);
      CongRefl(p, 0);
    }
  }

  // ---------- main results ----------

  ghost predicate OnPolynomial(p: Modulus, c: Poly, shares: seq<Share>) {
    forall k :: 0 <= k < |shares| ==> Cong(p, shares[k].1, Eval(c, shares[k].0))
  }

  /**
   Shares of one polynomial, at least as many as it has coefficients and at distinct indices in
   any order, reconstruct its constant term.
   */
  lemma ReconstructionTheorem(p: Modulus, c: Poly, shares: seq<Share>)
    requires DistinctIndices(shares) && OnPolynomial(p, c, shares) && |shares| >= |c|
    ensures Reconstruct(p, shares) == Eval(c, 0) % p
  {
    var l := Interpolant(p, shares, shares);
    assert shares[..|shares|] == shares;
    InterpolantLength(p, shares, |shares|);
    IndicesIncongruent(p, shares);
    var xs := Indices(shares);
    forall k | 0 <= k < |xs|
      ensures Cong(p, Eval(l, xs[k]), Eval(c, xs[k]))
    {
      InterpolantThrough(p, shares, |shares|, k);
      CongTrans(p, Eval(l, xs[k]), shares[k].1, Eval(c, xs[k]));
    }
    InterpolationUnique(p, l, c, xs, 0);
    InterpolantAtZero(p, shares, shares);
    CongIff(p, Eval(l, 0), Eval(c, 0));
  }

  /** Shares beyond the threshold, and the choice of shares, do not change the result. */
  lemma ExtraSharesIrrelevant(p: Modulus, c: Poly, a: seq<Share>, b: seq<Share>)
    requires DistinctIndices(a) && OnPolynomial(p, c, a) && |a| >= |c|
    requires DistinctIndices(b) && OnPolynomial(p, c, b) && |b| >= |c|
    ensures Reconstruct(p, a) == Reconstruct(p, b)
  {
    ReconstructionTheorem(p, c, a);
    ReconstructionTheorem(p, c, b);
  }

  function Reduce(p: Modulus, c: Poly): (r: Poly)
    ensures |r| == |c|
    ensures forall j :: 0 <= j < |r| ==> r[j] == c[j] % p
  {
    seq(|c|, j requires 0 <= j < |c| => c[j] % p)
  }

  lemma ReducedEval(p: Modulus, c: Poly, x: int)
    ensures Cong(p, Eval(Reduce(p, c), x), Eval(c, x))
  {
    forall j | 0 <= j < |c|
      ensures Cong(p, Reduce(p, c)[j], c[j])
    {
      CongMod(p, c[j]);
    }
    CongRefl(p, x);
    EvalCong(p, Reduce(p, c), c, x, x);
  }

  /** A canonical polynomial of the secret, of degree |shares|, that takes the values of the shares. */
  ghost predicate Fits(p: Modulus, c: Poly, shares: seq<Share>, secret: int) {
    && |c| == |shares| + 1 && c[0] == secret
    && (forall j :: 0 <= j < |c| ==> IsScalar(p, c[j]))
    && forall k :: 0 <= k < |shares| ==> Eval(c, shares[k].0) % p == shares[k].1
  }

  /** The secret as a share at index zero, before the others. */
  function WithSecret(shares: seq<Share>, secret: int): seq<Share> {
    [(0, secret)] + shares
  }

  lemma WithSecretApart(shares: seq<Share>, secret: int)
    requires DistinctIndices(shares) && forall k :: 0 <= k < |shares| ==> shares[k].0 != 0
    ensures DistinctIndices(WithSecret(shares, secret))
  {
  }

  lemma FitsWithSecret(p: Modulus, c: Poly, shares: seq<Share>, secret: int, k: nat)
    requires Fits(p, c, shares, secret) && k <= |shares|
    ensures var all := WithSecret(shares, secret); Eval(c, all[k].0) % p == all[k].1
  {
    if k == 0 {
      EvalAtZero(c);
      ModSmall(p, c[0]);
    } else {
      assert WithSecret(shares, secret)[k] == shares[k - 1];
    }
  }

  lemma FitUnique(p: Modulus, c: Poly, d: Poly, shares: seq<Share>, secret: int)
    requires DistinctIndices(shares) && forall k :: 0 <= k < |shares| ==> shares[k].0 != 0
    requires Fits(p, c, shares, secret) && Fits(p, d, shares, secret)
    ensures c == d
  {
    var all := WithSecret(shares, secret);
    var xs := Indices(all);
    WithSecretApart(shares, secret);
    IndicesIncongruent(p, all);
    forall k | 0 <= k < |xs|
      ensures Cong(p, Eval(c, xs[k]), Eval(d, xs[k]))
    {
      FitsWithSecret(p, c, shares, secret, k);
      FitsWithSecret(p, d, shares, secret, k);
      CongIff(p, Eval(c, xs[k]), Eval(d, xs[k]));
    }
    CoefficientsUnique(p, c, d, xs);
    forall j | 0 <= j < |c|
      ensures c[j] == d[j]
    {
      CongIff(p, c[j], d[j]);
      ModSmall(p, c[j]);
      ModSmall(p, d[j]);
    }
  }

  lemma FitExists(p: Modulus, shares: seq<Share>, secret: int) returns (c: Poly)
    requires DistinctIndices(shares) && IsScalar(p, secret)
    requires forall k :: 0 <= k < |shares| ==> shares[k].0 != 0 && IsScalar(p, shares[k].1)
    ensures Fits(p, c, shares, secret)
  {
    var all := WithSecret(shares, secret);
    var l := Interpolant(p, all, all);
    WithSecretApart(shares, secret);
    assert all[..|all|] == all;
    InterpolantLength(p, all, |all|);
    c := Reduce(p, l);
    forall k | 0 <= k < |all|
      ensures Eval(c, all[k].0) % p == all[k].1
    {
      InterpolantThrough(p, all, |all|, k);
      ReducedEval(p, l, all[k].0);
      CongTrans(p, Eval(c, all[k].0), Eval(l, all[k].0), all[k].1);
      CongIff(p, Eval(c, all[k].0), all[k].1);
      ModSmall(p, all[k].1);
    }
    assert all[0] == (0, secret);
    EvalAtZero(c);
    ModSmall(p, c[0]);
    forall k | 0 <= k < |shares|
      ensures Eval(c, shares[k].0) % p == shares[k].1
    {
      assert all[k + 1] == shares[k];
    }
  }

  /**
   t shares never determine the secret: whatever the t share values at distinct nonzero indices,
   every candidate secret is the constant term of exactly one degree-t polynomial that fits them.
   */
  lemma TightThreshold(p: Modulus, shares: seq<Share>, secret: int) returns (c: Poly)
    requires DistinctIndices(shares) && IsScalar(p, secret)
    requires forall k :: 0 <= k < |shares| ==> shares[k].0 != 0 && IsScalar(p, shares[k].1)
    ensures Fits(p, c, shares, secret)
    ensures forall d :: Fits(p, d, shares, secret) ==> d == c
  {
    c := FitExists(p, shares, secret);
    forall d | Fits(p, d, shares, secret)
      ensures d == c
    {
      FitUnique(p, c, d, shares, secret);
    }
  }

  // ---------- order does not matter ----------

  function Without<T>(s: seq<T>, k: nat): seq<T>
    requires k < |s|
  {
    s[..k] + s[k + 1..]
  }

  lemma WithoutMultiset<T>(s: seq<T>, k: nat)
    requires k < |s|
    ensures multiset(Without(s, k)) == multiset(s) - multiset{s[k]}
  {
    assert s == s[..k] + [s[k]] + s[k + 1..];
  }

  /** In two permutations of each other, the last entry of one occurs in the other. */
  lemma PermutedLast<T>(a: seq<T>, b: seq<T>) returns (k: nat)
    requires a != [] && multiset(a) == multiset(b)
    ensures k < |b| && b[k] == Last(a) && multiset(Init(a)) == multiset(Without(b, k))
  {
    assert a == Init(a) + [Last(a)];
    assert Last(a) in multiset(b);
    k :| 0 <= k < |b| && b[k] == Last(a);
    WithoutMultiset(b, k);
  }

  lemma {:induction false} WeightWithout(p: Modulus, shares: seq<Share>, k: nat, i: U64)
    requires k < |shares|
    ensures Weight(p, shares, i) == Weight(p, Without(shares, k), i) * WeightFactor(p, shares[k].0, i)
  {
    if k == |shares| - 1 {
      assert Without(shares, k) == Init(shares);
    } else {
      var s := Without(shares, k);
      WeightWithout(p, Init(shares), k, i);
      assert Init(s) == Without(Init(shares), k) && Last(s) == Last(shares);
      Commute(Weight(p, Init(s), i), WeightFactor(p, shares[k].0, i), WeightFactor(p, Last(s).0, i));
    }
  }

  lemma Commute(a: int, b: int, c: int)
    ensures a * b * c == a * c * b
  {
  }

  lemma {:induction false} WeightPermuted(p: Modulus, a: seq<Share>, b: seq<Share>, i: U64)
    requires multiset(a) == multiset(b)
    ensures Weight(p, a, i) == Weight(p, b, i)
    decreases |a|
  {
    if a == [] {
      assert |multiset(b)| == |b|;
    } else {
      var k := PermutedLast(a, b);
      WeightPermuted(p, Init(a), Without(b, k), i);
      WeightWithout(p, b, k, i);
    }
  }

  lemma {:induction false} WeightedSumWithout(p: Modulus, all: seq<Share>, shares: seq<Share>, k: nat)
    requires k < |shares|
    ensures WeightedSum(p, all, shares) ==
            WeightedSum(p, all, Without(shares, k)) + shares[k].1 * Weight(p, all, shares[k].0)
  {
    if k == |shares| - 1 {
      assert Without(shares, k) == Init(shares);
    } else {
      var s := Without(shares, k);
      WeightedSumWithout(p, all, Init(shares), k);
      assert Init(s) == Without(Init(shares), k) && Last(s) == Last(shares);
    }
  }

  lemma {:induction false} WeightedSumPermuted(p: Modulus, all: seq<Share>, all': seq<Share>, a: seq<Share>,
        b: seq<Share>)
    requires multiset(all) == multiset(all') && multiset(a) == multiset(b)
    ensures WeightedSum(p, all, a) == WeightedSum(p, all', b)
    decreases |a|
  {
    if a == [] {
      assert |multiset(b)| == |b|;
    } else {
      var k := PermutedLast(a, b);
      WeightedSumPermuted(p, all, all', Init(a), Without(b, k));
      WeightPermuted(p, all, all', Last(a).0);
      WeightedSumWithout(p, all', b, k);
    }
  }

  /** Reordering any list of shares, right or wrong, repeated or not, gives the same result. */
  lemma OrderBlind(p: Modulus, a: seq<Share>, b: seq<Share>)
    requires multiset(a) == multiset(b)
    ensures Reconstruct(p, a) == Reconstruct(p, b)
  {
    WeightedSumPermuted(p, a, b, a, b);
  }

  // ---------- weights depend on the indices alone ----------

  lemma {:induction false} WeightOfIndices(p: Modulus, a: seq<Share>, b: seq<Share>, i: U64)
    requires |a| == |b| && forall k :: 0 <= k < |a| ==> a[k].0 == b[k].0
    ensures Weight(p, a, i) == Weight(p, b, i)
  {
    if a != [] {
      WeightOfIndices(p, Init(a), Init(b), i);
    }
  }

  // ---------- linearity ----------

  predicate SameIndices(a: seq<Share>, b: seq<Share>) {
    |a| == |b| && forall k :: 0 <= k < |a| ==> a[k].0 == b[k].0
  }

  /** Each value of `sum` is the sum of the values of a and b, modulo p. */
  ghost predicate AddsUp(p: int, a: seq<Share>, b: seq<Share>, sum: seq<Share>)
    requires |a| == |b| == |sum|
  {
    forall k :: 0 <= k < |sum| ==> Cong(p, a[k].1 + b[k].1, sum[k].1)
  }

  lemma WeightedSumStep(p: Modulus, shares: seq<Share>, all: seq<Share>, n: nat)
    requires SameIndices(shares, all) && n < |shares|
    ensures WeightedSum(p, shares, shares[..n + 1]) ==
            WeightedSum(p, shares, shares[..n]) + shares[n].1 * Weight(p, all, all[n].0)
  {
    assert Init(shares[..n + 1]) == shares[..n] && Last(shares[..n + 1]) == shares[n];
    WeightOfIndices(p, shares, all, all[n].0);
  }

  lemma AddTerm(p: int, a: int, b: int, sum: int, ya: int, yb: int, y: int, w: int)
    requires Cong(p, a + b, sum) && Cong(p, ya + yb, y)
    ensures Cong(p, (a + ya * w) + (b + yb * w), sum + y * w)
  {
    CongRefl(p, w);
    CongMul(p, ya + yb, y, w, w);
    CongAdd(p, a + b, sum, (ya + yb) * w, y * w);
    assert (ya + yb) * w == ya * w + yb * w;
  }

  lemma {:induction false} WeightedSumAdds(p: Modulus, a: seq<Share>, b: seq<Share>, sum: seq<Share>, n: nat)
    requires SameIndices(a, sum) && SameIndices(b, sum) && AddsUp(p, a, b, sum) && n <= |sum|
    ensures Cong(p, WeightedSum(p, a, a[..n]) + WeightedSum(p, b, b[..n]), WeightedSum(p, sum, sum[..n]))
  {
    if n == 0 {
      CongRefl(p, 0);
    } else {
      var k := n - 1;
      WeightedSumAdds(p, a, b, sum, k);
      WeightedSumStep(p, a, sum, k);
      WeightedSumStep(p, b, sum, k);
      WeightedSumStep(p, sum, sum, k);
      AddTerm(p, WeightedSum(p, a, a[..k]), WeightedSum(p, b, b[..k]), WeightedSum(p, sum, sum[..k]),
              a[k].1, b[k].1, sum[k].1, Weight(p, sum, sum[k].0));
    }
  }

  /** Adding shares index by index adds what they reconstruct, whatever the values are. */
  lemma ReconstructionAdds(p: Modulus, a: seq<Share>, b: seq<Share>, sum: seq<Share>)
    requires SameIndices(a, sum) && SameIndices(b, sum) && AddsUp(p, a, b, sum)
    ensures Add(p, Reconstruct(p, a), Reconstruct(p, b)) == Reconstruct(p, sum)
  {
    WeightedSumAdds(p, a, b, sum, |sum|);
    assert a[..|sum|] == a && b[..|sum|] == b && sum[..|sum|] == sum;
    CongMod(p, WeightedSum(p, b, b));
    AddReduced(p, Reconstruct(p, a), Reconstruct(p, b), WeightedSum(p, a, a), WeightedSum(p, b, b));
    CongIff(p, WeightedSum(p, a, a) + WeightedSum(p, b, b), WeightedSum(p, sum, sum));
  }

  /** Zero shares reconstruct zero. */
  lemma {:induction false} ZeroShares(p: Modulus, all: seq<Share>, shares: seq<Share>)
    requires forall k :: 0 <= k < |shares| ==> shares[k].1 == 0
    ensures WeightedSum(p, all, shares) == 0
  {
    if shares != [] {
      ZeroShares(p, all, Init(shares));
    }
  }
}
