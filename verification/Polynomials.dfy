/**
 Polynomials as coefficient lists, lowest degree first, with exact integer evaluation.

 The main result is `RootBound`: modulo a prime, a polynomial with at least as many distinct
 roots as coefficients vanishes everywhere.
 */
module Polynomials {
  import opened PrimeField

  type Poly = seq<int>

  /** Horner's rule. */
  function Eval(c: Poly, x: int): int {
    if c == [] then 0 else c[0] + x * Eval(c[1..], x)
  }

  function Pow(x: int, j: nat): int {
    if j == 0 then 1 else x * Pow(x, j - 1)
  }

  /** Adding the next power term to a prefix evaluates the longer prefix. */
  lemma {:induction false} EvalPrefix(c: Poly, x: int, j: nat)
    requires j < |c|
    ensures Eval(c[..j + 1], x) == Eval(c[..j], x) + c[j] * Pow(x, j)
  {
    if j == 0 {
      assert c[..1][1..] == [];
    } else {
      EvalPrefix(c[1..], x, j - 1);
      assert c[..j + 1][1..] == c[1..][..j];
      assert c[..j][1..] == c[1..][..j - 1];
      DistributeTerm(c[0], x, Eval(c[1..][..j - 1], x), c[j], Pow(x, j - 1));
    }
  }

  lemma DistributeTerm(c0: int, x: int, e: int, cj: int, w: int)
    ensures c0 + x * (e + cj * w) == (c0 + x * e) + cj * (x * w)
  {
  }

  lemma EvalAtZero(c: Poly)
    ensures Eval(c, 0) == if c == [] then 0 else c[0]
  {
  }

  function Zeros(n: nat): (c: Poly)
    ensures |c| == n && forall j :: 0 <= j < n ==> c[j] == 0
  {
    seq(n, j => 0)
  }

  lemma {:induction false} EvalZeros(n: nat, x: int)
    ensures Eval(Zeros(n), x) == 0
  {
    if n > 0 {
      assert Zeros(n)[1..] == Zeros(n - 1);
      EvalZeros(n - 1, x);
    }
  }

  /** The polynomial 1 with t zero coefficients above. */
  function One(t: nat): (c: Poly)
    ensures |c| == t + 1
  {
    [1] + Zeros(t)
  }

  lemma EvalOne(t: nat, x: int)
    ensures Eval(One(t), x) == 1
  {
    EvalZeros(t, x);
    assert One(t)[1..] == Zeros(t);
  }

  /** Congruent coefficients and arguments give congruent values. */
  lemma {:induction false} EvalCong(p: int, c: Poly, d: Poly, x: int, y: int)
    requires |c| == |d| && Cong(p, x, y)
    requires forall j :: 0 <= j < |c| ==> Cong(p, c[j], d[j])
    ensures Cong(p, Eval(c, x), Eval(d, y))
  {
    if c == [] {
      CongRefl(p, 0);
    } else {
      forall j | 0 <= j < |c[1..]|
        ensures Cong(p, c[1..][j], d[1..][j])
      {
        assert Cong(p, c[j + 1], d[j + 1]);
      }
      EvalCong(p, c[1..], d[1..], x, y);
      CongMul(p, x, y, Eval(c[1..], x), Eval(d[1..], y));
      CongAdd(p, c[0], d[0], x * Eval(c[1..], x), y * Eval(d[1..], y));
    }
  }

  // ---------- sums, multiples, linear factors ----------

  /** Coefficientwise sum; the shorter list counts as padded with zeros. */
  function PolyAdd(a: Poly, b: Poly): (r: Poly)
    ensures |r| == if |a| <= |b| then |b| else |a|
  {
    if a == [] then b
    else if b == [] then a
    else [a[0] + b[0]] + PolyAdd(a[1..], b[1..])
  }

  lemma {:induction false} EvalAdd(a: Poly, b: Poly, x: int)
    ensures Eval(PolyAdd(a, b), x) == Eval(a, x) + Eval(b, x)
  {
    if a != [] && b != [] {
      EvalAdd(a[1..], b[1..], x);
      assert PolyAdd(a, b)[1..] == PolyAdd(a[1..], b[1..]);
    }
  }

  function Scale(a: Poly, s: int): (r: Poly)
    ensures |r| == |a|
  {
    if a == [] then [] else [s * a[0]] + Scale(a[1..], s)
  }

  lemma {:induction false} EvalScale(a: Poly, s: int, x: int)
    ensures Eval(Scale(a, s), x) == s * Eval(a, x)
  {
    if a != [] {
      EvalScale(a[1..], s, x);
      assert Scale(a, s)[1..] == Scale(a[1..], s);
      ScaleTerm(s, a[0], x, Eval(a[1..], x));
    }
  }

  lemma ScaleTerm(s: int, a0: int, x: int, e: int)
    ensures s * a0 + x * (s * e) == s * (a0 + x * e)
  {
  }

  /** (a - X) times a nonempty polynomial. */
  function MulFactor(c: Poly, a: int): (r: Poly)
    requires c != []
    ensures |r| == |c| + 1
  {
    var rest := if |c| == 1 then [0] else MulFactor(c[1..], a);
    [a * c[0], rest[0] - c[0]] + rest[1..]
  }

  lemma {:induction false} EvalMulFactor(c: Poly, a: int, x: int)
    requires c != []
    ensures Eval(MulFactor(c, a), x) == (a - x) * Eval(c, x)
  {
    var rest := if |c| == 1 then [0] else MulFactor(c[1..], a);
    var r := MulFactor(c, a);
    if |c| > 1 {
      EvalMulFactor(c[1..], a, x);
    }
    assert Eval(rest, x) == (a - x) * Eval(c[1..], x);
    assert r[1..] == [rest[0] - c[0]] + rest[1..];
    assert r[1..][1..] == rest[1..];
    FactorTerm(a, x, c[0], Eval(c[1..], x), rest[0], Eval(rest[1..], x));
  }

  lemma FactorTerm(a: int, x: int, c0: int, e: int, r0: int, r: int)
    requires r0 + x * r == (a - x) * e
    ensures a * c0 + x * ((r0 - c0) + x * r) == (a - x) * (c0 + x * e)
  {
    assert x * ((r0 - c0) + x * r) == x * ((a - x) * e) - x * c0;
  }

  // ---------- roots ----------

  /** Synthetic division: the quotient of c by (X - a). */
  function Quotient(c: Poly, a: int): (q: Poly)
    ensures |q| == if c == [] then 0 else |c| - 1
  {
    if |c| <= 1 then [] else [Eval(c[1..], a)] + Quotient(c[1..], a)
  }

  lemma {:induction false} DivideByRoot(c: Poly, a: int, x: int)
    ensures Eval(c, x) == (x - a) * Eval(Quotient(c, a), x) + Eval(c, a)
  {
    if |c| <= 1 {
      assert c != [] ==> c[1..] == [];
    } else {
      DivideByRoot(c[1..], a, x);
      var q := Quotient(c, a);
      assert q[1..] == Quotient(c[1..], a);
      DivideTerm(x, a, c[0], Eval(c[1..], x), Eval(c[1..], a), Eval(q[1..], x));
    }
  }

  lemma DivideTerm(x: int, a: int, c0: int, ex: int, ea: int, q: int)
    requires ex == (x - a) * q + ea
    ensures c0 + x * ex == (x - a) * (ea + x * q) + (c0 + a * ea)
  {
    assert x * ex == x * ((x - a) * q) + x * ea;
    assert (x - a) * (ea + x * q) == (x - a) * ea + x * ((x - a) * q);
  }

  ghost predicate Incongruent(p: int, xs: seq<int>) {
    forall i, j :: 0 <= i < j < |xs| ==> !Divides(p, xs[i] - xs[j])
  }

  /** Too many roots force every coefficient to vanish modulo p. */
  lemma {:induction false} RootBound(p: int, c: Poly, roots: seq<int>)
    requires IsPrime(p) && Incongruent(p, roots) && |roots| >= |c|
    requires forall i :: 0 <= i < |roots| ==> Divides(p, Eval(c, roots[i]))
    ensures forall j :: 0 <= j < |c| ==> Divides(p, c[j])
    decreases |c|
  {
    if c != [] {
      var a, rest := roots[0], roots[1..];
      var q := Quotient(c, a);
      assert Divides(p, Eval(c, a));
      forall i | 0 <= i < |rest|
        ensures Divides(p, Eval(q, rest[i]))
      {
        assert rest[i] == roots[i + 1];
        RootOfQuotient(p, c, a, rest[i]);
      }
      RootBound(p, q, rest);
      forall j | 0 <= j < |c|
        ensures Divides(p, c[j])
      {
        var here := if j == 0 then Eval(c, a) else q[j - 1];
        var next := if j < |q| then q[j] else 0;
        QuotientCoefficient(c, a, j);
        DividesZero(p);
        DividesMul(p, next, a);
        DividesSub(p, here, a * next);
      }
    }
  }

  /** Horner's intermediate values recover the coefficients. */
  lemma {:induction false} QuotientCoefficient(c: Poly, a: int, j: nat)
    requires j < |c|
    ensures var q := Quotient(c, a);
            c[j] == (if j == 0 then Eval(c, a) else q[j - 1]) - a * (if j < |q| then q[j] else 0)
  {
    if j > 0 {
      QuotientCoefficient(c[1..], a, j - 1);
    }
  }

  /** A second root of c is a root of the quotient by the first. */
  lemma RootOfQuotient(p: int, c: Poly, a: int, b: int)
    requires IsPrime(p) && !Divides(p, a - b)
    requires Divides(p, Eval(c, a)) && Divides(p, Eval(c, b))
    ensures Divides(p, Eval(Quotient(c, a), b))
  {
    DivideByRoot(c, a, b);
    DividesSub(p, Eval(c, b), Eval(c, a));
    if Divides(p, b - a) {
      DividesMul(p, b - a, -1);
    }
    EuclidsLemma(p, b - a, Eval(Quotient(c, a), b));
  }

  /** Two equally long polynomials that agree at as many distinct points as coefficients are the same. */
  lemma CoefficientsUnique(p: int, c: Poly, d: Poly, points: seq<int>)
    requires IsPrime(p) && Incongruent(p, points) && |points| >= |c| == |d|
    requires forall i :: 0 <= i < |points| ==> Cong(p, Eval(c, points[i]), Eval(d, points[i]))
    ensures forall j :: 0 <= j < |c| ==> Cong(p, c[j], d[j])
  {
    var diff := Difference(c, d);
    RootBound(p, diff, points);
    forall j | 0 <= j < |c|
      ensures Cong(p, c[j], d[j])
    {
      DifferenceAt(c, d, j);
      assert Divides(p, diff[j]);
    }
  }

  /** Polynomials with no more coefficients than points of agreement agree everywhere. */
  lemma InterpolationUnique(p: int, c: Poly, d: Poly, points: seq<int>, x: int)
    requires IsPrime(p) && Incongruent(p, points) && |points| >= |c| && |points| >= |d|
    requires forall i :: 0 <= i < |points| ==> Cong(p, Eval(c, points[i]), Eval(d, points[i]))
    ensures Cong(p, Eval(c, x), Eval(d, x))
  {
    var diff := Difference(c, d);
    RootBound(p, diff, points);
    var zeros := Scale(diff, 0);
    EvalScale(diff, 0, x);
    forall j | 0 <= j < |diff|
      ensures Cong(p, diff[j], zeros[j])
    {
      ScaleAt(diff, 0, j);
    }
    CongRefl(p, x);
    EvalCong(p, diff, zeros, x, x);
    assert Divides(p, Eval(diff, x));
  }

  function Difference(c: Poly, d: Poly): (r: Poly)
    ensures forall x: int :: Eval(r, x) == Eval(c, x) - Eval(d, x)
  {
    assert forall x: int :: Eval(PolyAdd(c, Scale(d, -1)), x) == Eval(c, x) - Eval(d, x) by {
      forall x: int
        ensures Eval(PolyAdd(c, Scale(d, -1)), x) == Eval(c, x) - Eval(d, x)
      {
        EvalAdd(c, Scale(d, -1), x);
        EvalScale(d, -1, x);
      }
    }
    PolyAdd(c, Scale(d, -1))
  }

  lemma {:induction false} DifferenceAt(c: Poly, d: Poly, j: nat)
    requires j < |c| == |d|
    ensures Difference(c, d)[j] == c[j] - d[j]
  {
    if j > 0 {
      DifferenceAt(c[1..], d[1..], j - 1);
    }
  }

  lemma {:induction false} ScaleAt(a: Poly, s: int, j: nat)
    requires j < |a|
    ensures Scale(a, s)[j] == s * a[j]
  {
    if j > 0 {
      ScaleAt(a[1..], s, j - 1);
    }
  }
}
