/**
 The scalar field: integers modulo a prime larger than every u64.

 Polynomials and sums are kept as exact integers and compared modulo the prime with `Cong`, so
 that ring identities hold outright and only genuine field facts (inverses, Euclid's lemma)
 need primality.
 */
module PrimeField {
  import opened Wrappers

  const U64_MAX: int := 0xFFFF_FFFF_FFFF_FFFF

  type U64 = x: int | 0 <= x <= U64_MAX

  function Product(k: int, d: int): int {
    k * d
  }

  ghost predicate Divides(d: int, e: int) {
    exists k: int :: Product(k, d) == e
  }

  ghost predicate IsPrime(p: int) {
    p >= 2 && forall d: int :: 1 < d < p ==> !Divides(d, p)
  }

  /** The order of the scalar field: distinct u64 indices are distinct scalars. */
  type Modulus = p: int | IsPrime(p) && p > U64_MAX ghost witness PrimeBeyond(U64_MAX)

  /** A canonical field element. */
  predicate IsScalar(p: int, s: int) {
    0 <= s < p
  }

  // ---------- primes without bound (Euclid) ----------

  function Factorial(n: nat): (f: nat)
    ensures f >= 1
  {
    if n == 0 then 1 else n * Factorial(n - 1)
  }

  lemma {:induction false} DividesFactorial(d: int, n: nat)
    requires 1 <= d <= n
    ensures Divides(d, Factorial(n))
  {
    if d == n {
      assert Product(Factorial(n - 1), d) == Factorial(n);
    } else {
      DividesFactorial(d, n - 1);
      DividesMul(d, Factorial(n - 1), n);
    }
  }

  /** Every integer above 1 has a prime divisor. */
  lemma {:induction false} HasPrimeFactor(n: int) returns (q: int)
    requires n >= 2
    ensures IsPrime(q) && Divides(q, n)
    decreases n
  {
    if IsPrime(n) {
      assert Product(1, n) == n;
      q := n;
    } else {
      var d :| 1 < d < n && Divides(d, n);
      q := HasPrimeFactor(d);
      var k :| Product(k, d) == n;
      DividesMul(q, d, k);
    }
  }

  lemma PrimesAreUnbounded(n: nat)
    ensures exists q: int :: IsPrime(q) && q > n
  {
    var f := Factorial(n);
    var q := HasPrimeFactor(f + 1);
    if q <= n {
      DividesFactorial(q, n);
      DividesSub(q, f + 1, f);
      DivisorBound(q, 1);
    }
  }

  ghost function PrimeBeyond(n: nat): (q: int)
    ensures IsPrime(q) && q > n
  {
    PrimesAreUnbounded(n);
    var q: int :| IsPrime(q) && q > n;
    q
  }

  // ---------- divisibility ----------

  lemma DividesMul(d: int, e: int, f: int)
    requires Divides(d, e)
    ensures Divides(d, e * f) && Divides(d, f * e)
  {
    var k :| Product(k, d) == e;
    assert Product(k * f, d) == e * f by {
      assert (k * d) * f == (k * f) * d;
    }
    assert e * f == f * e;
  }

  lemma DividesAdd(d: int, e: int, f: int)
    requires Divides(d, e) && Divides(d, f)
    ensures Divides(d, e + f)
  {
    var k :| Product(k, d) == e;
    var l :| Product(l, d) == f;
    assert Product(k + l, d) == e + f;
  }

  lemma DividesSub(d: int, e: int, f: int)
    requires Divides(d, e) && Divides(d, f)
    ensures Divides(d, e - f)
  {
    var k :| Product(k, d) == e;
    var l :| Product(l, d) == f;
    assert Product(k - l, d) == e - f;
  }

  lemma MultipleSize(k: int, d: int)
    requires d > 0
    ensures k >= 1 ==> k * d >= d
    ensures k <= 0 ==> k * d <= 0
    ensures k <= -1 ==> k * d <= -d
  {
    if k >= 1 {
      assert (k - 1) * d >= 0;
    } else if k <= -1 {
      assert (k + 1) * d <= 0;
    }
  }

  lemma DivisorBound(d: int, e: int)
    requires d > 0 && e > 0 && Divides(d, e)
    ensures d <= e
  {
    var k :| Product(k, d) == e;
    MultipleSize(k, d);
  }

  lemma DividesZero(d: int)
    ensures Divides(d, 0)
  {
    assert Product(0, d) == 0;
  }

  lemma DividesMod(p: int, a: int)
    requires p > 0
    ensures Divides(p, a) <==> a % p == 0
  {
    if a % p == 0 {
      assert a == (a / p) * p;
      assert Product(a / p, p) == a;
    }
    if Divides(p, a) {
      var k :| Product(k, p) == a;
      QuotientUnique(p, a / p, a % p, k, 0);
    }
  }

  lemma QuotientUnique(p: int, q: int, r: int, q': int, r': int)
    requires p > 0 && q * p + r == q' * p + r'
    requires 0 <= r < p && 0 <= r' < p
    ensures r == r'
  {
    assert (q - q') * p == r' - r;
    MultipleSize(q - q', p);
  }

  lemma FullMultiple(p: int, k: nat) returns (q: nat, turns: nat)
    requires p > 0
    ensures turns == q * p && k == turns + k % p
  {
    MultipleSize(k / p, p);
    q, turns := k / p, (k / p) * p;
  }

  // ---------- congruence ----------

  ghost predicate Cong(p: int, a: int, b: int) {
    Divides(p, a - b)
  }

  lemma CongMod(p: int, a: int)
    requires p > 0
    ensures Cong(p, a % p, a) && Cong(p, a, a % p)
  {
    assert a - a % p == (a / p) * p;
    assert Product(a / p, p) == a - a % p;
    assert Product(-(a / p), p) == a % p - a;
  }

  /** Congruent integers are the same field element. */
  lemma CongIff(p: int, a: int, b: int)
    requires p > 0
    ensures Cong(p, a, b) <==> a % p == b % p
  {
    if Cong(p, a, b) {
      var k :| Product(k, p) == a - b;
      assert a == (a / p) * p + a % p;
      assert b == (b / p) * p + b % p;
      assert (b / p + k) * p == (b / p) * p + k * p;
      QuotientUnique(p, a / p, a % p, b / p + k, b % p);
    }
    if a % p == b % p {
      assert a - b == (a / p) * p - (b / p) * p;
      assert Product(a / p - b / p, p) == a - b;
    }
  }

  lemma CongRefl(p: int, a: int)
    ensures Cong(p, a, a)
  {
    DividesZero(p);
  }

  lemma CongSym(p: int, a: int, b: int)
    requires Cong(p, a, b)
    ensures Cong(p, b, a)
  {
    DividesMul(p, a - b, -1);
  }

  lemma CongTrans(p: int, a: int, b: int, c: int)
    requires Cong(p, a, b) && Cong(p, b, c)
    ensures Cong(p, a, c)
  {
    DividesAdd(p, a - b, b - c);
  }

  lemma CongAdd(p: int, a: int, b: int, c: int, d: int)
    requires Cong(p, a, b) && Cong(p, c, d)
    ensures Cong(p, a + c, b + d)
  {
    DividesAdd(p, a - b, c - d);
    assert (a - b) + (c - d) == (a + c) - (b + d);
  }

  lemma CongMul(p: int, a: int, b: int, c: int, d: int)
    requires Cong(p, a, b) && Cong(p, c, d)
    ensures Cong(p, a * c, b * d)
  {
    DividesMul(p, a - b, c);
    DividesMul(p, c - d, b);
    DividesAdd(p, (a - b) * c, b * (c - d));
    assert (a - b) * c + b * (c - d) == a * c - b * d;
  }

  /** Distinct canonical elements are not congruent. */
  lemma CanonicalDistinct(p: int, a: int, b: int)
    requires p > 0 && IsScalar(p, a) && IsScalar(p, b) && a != b
    ensures !Divides(p, a - b)
  {
    CongIff(p, a, b);
    ModSmall(p, a);
    ModSmall(p, b);
  }

  lemma ModSmall(p: int, a: int)
    requires 0 <= a < p
    ensures a % p == a
  {
    QuotientUnique(p, a / p, a % p, 0, a);
  }

  // ---------- field operations, each reducing its result ----------

  function Add(p: Modulus, a: int, b: int): int { (a + b) % p }

  function Sub(p: Modulus, a: int, b: int): int { (a - b) % p }

  function Mul(p: Modulus, a: int, b: int): int { (a * b) % p }

  /** (a % p + b) % p and (a + b) % p are the same: a running reduced sum is the reduced sum. */
  lemma AddReduced(p: Modulus, a: int, b: int, a': int, b': int)
    requires a == a' % p && Cong(p, b, b')
    ensures Add(p, a, b) == (a' + b') % p
  {
    CongMod(p, a');
    CongAdd(p, a, a', b, b');
    CongIff(p, a + b, a' + b');
  }

  lemma MulRightReduced(p: Modulus, a: int, b: int)
    ensures Cong(p, Mul(p, a, b % p), a * b)
  {
    CongMod(p, b);
    CongRefl(p, a);
    CongMul(p, a, a, b % p, b);
    CongMod(p, a * (b % p));
    CongTrans(p, Mul(p, a, b % p), a * (b % p), a * b);
  }

  // ---------- inverses (Bezout) ----------

  datatype Bezout = Bezout(g: int, u: int, v: int)

  /** Extended Euclid: a common divisor of a and b that is also an integer combination of them. */
  function ExtendedGcd(a: nat, b: nat): (r: Bezout)
    requires b > 0
    ensures r.g > 0 && r.u * a + r.v * b == r.g
    ensures Divides(r.g, a) && Divides(r.g, b)
    decreases a
  {
    if a == 0 then
      assert Product(1, b) == b && Product(0, b) == 0;
      Bezout(b, 0, 1)
    else
      var r := ExtendedGcd(b % a, a);
      assert r.u * (b % a) + r.v * a == r.g;
      EuclidStep(a, b, r.u, r.v, r.g);
      Bezout(r.g, r.v - r.u * (b / a), r.u)
  }

  lemma EuclidStep(a: nat, b: nat, u: int, v: int, g: int)
    requires a > 0 && u * (b % a) + v * a == g
    requires Divides(g, b % a) && Divides(g, a)
    ensures (v - u * (b / a)) * a + u * b == g
    ensures Divides(g, b)
  {
    var q, m := b / a, b % a;
    assert b == q * a + m;
    assert (v - u * q) * a + u * b == v * a - u * q * a + u * (q * a + m);
    DividesMul(g, a, q);
    DividesAdd(g, q * a, m);
  }

  /** A nonzero residue is coprime to the modulus. */
  lemma BezoutOfPrime(p: int, a: nat)
    requires IsPrime(p) && !Divides(p, a)
    ensures var r := ExtendedGcd(a, p); r.u * a + r.v * p == 1
  {
    var r := ExtendedGcd(a, p);
    DivisorBound(r.g, p);
    assert r.g == 1 || r.g == p;
  }

  /** Euclid's lemma: the field has no zero divisors. */
  lemma EuclidsLemma(p: int, a: int, b: int)
    requires IsPrime(p) && Divides(p, a * b) && !Divides(p, a)
    ensures Divides(p, b)
  {
    var a' := a % p;
    CongMod(p, a);
    if Divides(p, a') {
      DividesAdd(p, a', a - a');
    }
    BezoutOfPrime(p, a');
    DividesReduced(p, a, a', b);
    var r := ExtendedGcd(a', p);
    CoprimeFactor(p, a', b, r.u, r.v);
  }

  lemma DividesReduced(p: int, a: int, a': int, b: int)
    requires Cong(p, a, a') && Divides(p, a * b)
    ensures Divides(p, a' * b)
  {
    DividesMul(p, a - a', b);
    DividesSub(p, a * b, (a - a') * b);
    assert a * b - (a - a') * b == a' * b;
  }

  lemma CoprimeFactor(p: int, a: int, b: int, u: int, v: int)
    requires u * a + v * p == 1 && Divides(p, a * b)
    ensures Divides(p, b)
  {
    var k :| Product(k, p) == a * b;
    assert (u * a + v * p) * b == u * (a * b) + (v * b) * p;
    assert u * (k * p) == (u * k) * p;
    assert Product(u * k + v * b, p) == b;
  }

  /** `Scalar::invert`: nothing for zero, otherwise the inverse. */
  function Invert(p: Modulus, a: int): (r: Option<int>)
    ensures r.None? <==> a % p == 0
    ensures r.Some? ==> IsScalar(p, r.value) && Mul(p, a, r.value) == 1
  {
    if a % p == 0 then None
    else
      InvertCorrect(p, a);
      Some(ExtendedGcd(a % p, p).u % p)
  }

  lemma InvertCorrect(p: Modulus, a: int)
    requires a % p != 0
    ensures Mul(p, a, ExtendedGcd(a % p, p).u % p) == 1
  {
    var a' := a % p;
    var r := ExtendedGcd(a', p);
    CongMod(p, a);
    DividesMod(p, a');
    ModSmall(p, a');
    BezoutOfPrime(p, a');
    CongMod(p, r.u);
    CongMul(p, a, a', r.u % p, r.u);
    assert Product(-r.v, p) == a' * r.u - 1;
    CongTrans(p, a * (r.u % p), a' * r.u, 1);
    CongIff(p, a * (r.u % p), 1);
    ModSmall(p, 1);
  }

  /** The inverse as a plain integer, 0 where there is none. */
  function Inv(p: Modulus, a: int): (r: int)
    ensures IsScalar(p, r)
  {
    match Invert(p, a)
    case None => 0
    case Some(i) => i
  }

  lemma InvCong(p: Modulus, a: int)
    requires !Divides(p, a)
    ensures Cong(p, a * Inv(p, a), 1)
  {
    DividesMod(p, a);
    CongIff(p, a * Inv(p, a), 1);
    ModSmall(p, 1);
  }
}
