/**
 A cyclic group of prime order, written additively, as the curve subgroup is used.

 A point is known only by its encoding, an integer, and the group by its operations; every
 result holds for any operations that satisfy `Laws`.  `AdditiveGroup` shows that the laws can
 be met for every modulus.
 */
module CyclicGroup {
  import opened PrimeField

  type Point = int

  datatype Group = Group(order: Modulus, plus: (Point, Point) -> Point, identity: Point, generator: Point) {

    /** The k-fold sum of a point. */
    function Times(e: Point, k: nat): Point {
      if k == 0 then identity else plus(Times(e, k - 1), e)
    }

    ghost predicate Contains(e: Point) {
      exists k: nat :: Times(generator, k) == e
    }

    ghost predicate AssociatesAt(a: Point, b: Point, c: Point) {
      plus(plus(a, b), c) == plus(a, plus(b, c))
    }

    ghost predicate NeutralAt(a: Point) {
      plus(identity, a) == a && plus(a, identity) == a
    }

    /** Associativity and the unit on the points generated, and the exact order of the generator. */
    ghost predicate Laws() {
      && (forall a, b, c {:trigger AssociatesAt(a, b, c)} ::
            Contains(a) && Contains(b) && Contains(c) ==> AssociatesAt(a, b, c))
      && (forall a {:trigger NeutralAt(a)} :: Contains(a) ==> NeutralAt(a))
      && Contains(generator)
      && Times(generator, order) == identity
      && (forall k: nat :: 0 < k < order ==> Times(generator, k) != identity)
    }

    /** The generator times a scalar given by any integer representative. */
    function Exp(k: int): Point {
      Times(generator, k % order)
    }
  }

  type PrimeGroup = g: Group | g.Laws() ghost witness AdditiveGroup(PrimeBeyond(U64_MAX))

  /** The integers modulo p under addition. */
  ghost function AdditiveGroup(p: Modulus): (g: Group)
    ensures g.Laws() && g.order == p
  {
    var g := Group(p, (a: int, b: int) => (a + b) % p, 0, 1);
    AdditiveLaws(g, p);
    g
  }

  lemma {:induction false} AdditiveTimes(g: Group, p: Modulus, k: nat)
    requires g == Group(p, g.plus, 0, 1) && forall a, b :: g.plus(a, b) == (a + b) % p
    ensures g.Times(1, k) == k % p
  {
    if k > 0 {
      AdditiveTimes(g, p, k - 1);
      CongRefl(p, 1);
      AddReduced(p, g.Times(1, k - 1), 1, k - 1, 1);
    } else {
      ModSmall(p, 0);
    }
  }

  lemma AdditiveLaws(g: Group, p: Modulus)
    requires g == Group(p, g.plus, 0, 1) && forall a, b :: g.plus(a, b) == (a + b) % p
    ensures g.Laws()
  {
    forall a | g.Contains(a)
      ensures a == a % p && g.NeutralAt(a)
    {
      var k: nat :| g.Times(1, k) == a;
      AdditiveTimes(g, p, k);
      ModSmall(p, a);
    }
    forall a, b, c | g.Contains(a) && g.Contains(b) && g.Contains(c)
      ensures g.AssociatesAt(a, b, c)
    {
      CongRefl(p, c);
      AddReduced(p, (a + b) % p, c, a + b, c);
      CongRefl(p, a);
      AddReduced(p, (b + c) % p, a, b + c, a);
    }
    AdditiveTimes(g, p, 1);
    ModSmall(p, 1);
    assert g.Contains(1);
    AdditiveTimes(g, p, p);
    DividesMod(p, p);
    assert Product(1, p) == p;
    forall k: nat | 0 < k < p
      ensures g.Times(1, k) != 0
    {
      AdditiveTimes(g, p, k);
      ModSmall(p, k);
    }
  }

  // ---------- multiples of the generator ----------

  lemma Generated(g: PrimeGroup, k: nat)
    ensures g.Contains(g.Times(g.generator, k))
  {
  }

  lemma {:induction false} GeneratorAdd(g: PrimeGroup, a: nat, b: nat)
    ensures g.plus(g.Times(g.generator, a), g.Times(g.generator, b)) == g.Times(g.generator, a + b)
  {
    var h := g.generator;
    Generated(g, a);
    if b == 0 {
      assert g.NeutralAt(g.Times(h, a));
    } else {
      GeneratorAdd(g, a, b - 1);
      Generated(g, b - 1);
      GeneratorIsFirst(g);
      assert g.AssociatesAt(g.Times(h, a), g.Times(h, b - 1), h);
    }
  }

  lemma GeneratorIsFirst(g: PrimeGroup)
    ensures g.Times(g.generator, 1) == g.generator && g.Contains(g.generator)
  {
    assert g.NeutralAt(g.generator);
    assert g.Times(g.generator, 0) == g.identity;
  }

  lemma {:induction false} GeneratorTimes(g: PrimeGroup, m: nat, k: nat)
    ensures m * k >= 0 && g.Times(g.Times(g.generator, m), k) == g.Times(g.generator, m * k)
  {
    if k > 0 {
      GeneratorTimes(g, m, k - 1);
      assert m * (k - 1) + m == m * k;
      GeneratorAdd(g, m * (k - 1), m);
    }
  }

  lemma {:induction false} FullTurns(g: PrimeGroup, q: nat)
    ensures q * g.order >= 0 && g.Times(g.generator, q * g.order) == g.identity
  {
    if q > 0 {
      FullTurns(g, q - 1);
      assert (q - 1) * g.order + g.order == q * g.order;
      GeneratorAdd(g, (q - 1) * g.order, g.order);
      Generated(g, 0);
      assert g.NeutralAt(g.Times(g.generator, 0));
    }
  }

  lemma AfterFullTurns(g: PrimeGroup, q: nat, turns: nat, r: nat)
    requires turns == q * g.order
    ensures g.Times(g.generator, turns + r) == g.Times(g.generator, r)
  {
    FullTurns(g, q);
    GeneratorAdd(g, turns, r);
    Generated(g, r);
    assert g.NeutralAt(g.Times(g.generator, r));
  }

  lemma Periodic(g: PrimeGroup, k: nat)
    ensures g.Times(g.generator, k) == g.Exp(k)
  {
    var q, turns := FullMultiple(g.order, k);
    AfterFullTurns(g, q, turns, k % g.order);
  }

  // ---------- scalars in the exponent ----------

  lemma ExpContained(g: PrimeGroup, a: int)
    ensures g.Contains(g.Exp(a))
  {
  }

  lemma ExpCong(g: PrimeGroup, a: int, b: int)
    requires Cong(g.order, a, b)
    ensures g.Exp(a) == g.Exp(b)
  {
    CongIff(g.order, a, b);
  }

  lemma ExpZero(g: PrimeGroup)
    ensures g.Exp(0) == g.identity
  {
    ModSmall(g.order, 0);
  }

  /** Adding points adds their scalars. */
  lemma ExpAdd(g: PrimeGroup, a: int, b: int)
    ensures g.plus(g.Exp(a), g.Exp(b)) == g.Exp(a + b)
  {
    var p := g.order;
    GeneratorAdd(g, a % p, b % p);
    Periodic(g, a % p + b % p);
    CongMod(p, a);
    CongMod(p, b);
    CongAdd(p, a % p, a, b % p, b);
    ExpCong(g, a % p + b % p, a + b);
  }

  /** Multiplying a point multiplies its scalar. */
  lemma ExpTimes(g: PrimeGroup, a: int, k: nat)
    ensures g.Times(g.Exp(a), k) == g.Exp(a * k)
  {
    var p := g.order;
    GeneratorTimes(g, a % p, k);
    Periodic(g, (a % p) * k);
    CongMod(p, a);
    CongRefl(p, k);
    CongMul(p, a % p, a, k, k);
    ExpCong(g, (a % p) * k, a * k);
  }

  /** A point determines its scalar modulo the order. */
  lemma ExpInjective(g: PrimeGroup, a: int, b: int)
    ensures g.Exp(a) == g.Exp(b) <==> a % g.order == b % g.order
  {
    var p := g.order;
    if a % p < b % p {
      SmallExpDiffer(g, a % p, b % p);
    } else if b % p < a % p {
      SmallExpDiffer(g, b % p, a % p);
    }
  }

  lemma SmallExpDiffer(g: PrimeGroup, a: nat, b: nat)
    requires a < b < g.order
    ensures g.Times(g.generator, a) != g.Times(g.generator, b)
  {
    var rest := g.order - b;
    GeneratorAdd(g, a, rest);
    GeneratorAdd(g, b, rest);
    assert g.Times(g.generator, a + rest) != g.identity;
  }

  /** The scalar of a point of the group. */
  ghost function Log(g: PrimeGroup, e: Point): (k: int)
    requires g.Contains(e)
    ensures IsScalar(g.order, k) && g.Exp(k) == e
  {
    LogExists(g, e);
    var k :| IsScalar(g.order, k) && g.Exp(k) == e;
    k
  }

  lemma LogExists(g: PrimeGroup, e: Point)
    requires g.Contains(e)
    ensures exists k :: IsScalar(g.order, k) && g.Exp(k) == e
  {
    var k: nat :| g.Times(g.generator, k) == e;
    Periodic(g, k);
    ModSmall(g.order, k % g.order);
    assert g.Exp(k % g.order) == e;
  }

  lemma LogOfExp(g: PrimeGroup, k: int)
    requires g.Contains(g.Exp(k))
    ensures Log(g, g.Exp(k)) == k % g.order
  {
    ExpInjective(g, Log(g, g.Exp(k)), k);
    ModSmall(g.order, Log(g, g.Exp(k)));
  }
}
