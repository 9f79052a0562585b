/**
 Sums over the values of a hash map.  The iteration order is unspecified, so a sum is defined by
 arbitrary choices, and the `...Remove` lemmas show that every order gives it.
 */
module MapSums {
  import opened PrimeField
  import opened Polynomials
  import opened CyclicGroup
  import opened Feldman

  ghost function IntSum(m: map<string, int>): int {
    if m == map[] then 0
    else
      var k :| k in m;
      IntSum(m - {k}) + m[k]
  }

  /** Any entry can be taken out of a sum first. */
  lemma {:induction false} IntSumRemove(m: map<string, int>, k: string)
    requires k in m
    ensures IntSum(m) == IntSum(m - {k}) + m[k]
    decreases |m|
  {
    var l :| l in m && IntSum(m) == IntSum(m - {l}) + m[l];
    if l != k {
      IntSumRemove(m - {l}, k);
      IntSumRemove(m - {k}, l);
      assert m - {l} - {k} == m - {k} - {l};
    }
  }

  lemma {:induction false} IntSumCong(p: int, a: map<string, int>, b: map<string, int>)
    requires a.Keys == b.Keys && forall k :: k in a ==> Cong(p, a[k], b[k])
    ensures Cong(p, IntSum(a), IntSum(b))
    decreases |a|
  {
    if a == map[] {
      assert b == map[];
      CongRefl(p, 0);
    } else {
      var k :| k in a;
      IntSumRemove(a, k);
      IntSumRemove(b, k);
      IntSumCong(p, a - {k}, b - {k});
      CongAdd(p, IntSum(a - {k}), IntSum(b - {k}), a[k], b[k]);
    }
  }

  lemma {:induction false} IntSumZero(m: map<string, int>)
    requires forall k :: k in m ==> m[k] == 0
    ensures IntSum(m) == 0
    decreases |m|
  {
    if m != map[] {
      var k :| k in m && IntSum(m) == IntSum(m - {k}) + m[k];
      IntSumZero(m - {k});
    }
  }

  ghost predicate MapContained(g: PrimeGroup, m: map<string, Point>) {
    forall k :: k in m ==> g.Contains(m[k])
  }

  ghost function PointSum(g: PrimeGroup, m: map<string, Point>): Point {
    if m == map[] then g.identity
    else
      var k :| k in m;
      g.plus(PointSum(g, m - {k}), m[k])
  }

  ghost function Logs(g: PrimeGroup, m: map<string, Point>): (l: map<string, int>)
    requires MapContained(g, m)
    ensures l.Keys == m.Keys && forall k :: k in l ==> g.Exp(l[k]) == m[k]
  {
    map k | k in m :: Log(g, m[k])
  }

  /** A sum of points is the point of the sum of their scalars. */
  lemma {:induction false} PointSumOfExps(g: PrimeGroup, m: map<string, Point>, l: map<string, int>)
    requires l.Keys == m.Keys && forall k :: k in l ==> g.Exp(l[k]) == m[k]
    ensures PointSum(g, m) == g.Exp(IntSum(l))
    decreases |m|
  {
    if m == map[] {
      assert l == map[];
      ExpZero(g);
    } else {
      var k :| k in m && PointSum(g, m) == g.plus(PointSum(g, m - {k}), m[k]);
      PointSumOfExps(g, m - {k}, l - {k});
      IntSumRemove(l, k);
      ExpAdd(g, IntSum(l - {k}), l[k]);
    }
  }

  /** Any entry can be taken out of a sum of points first. */
  lemma PointSumRemove(g: PrimeGroup, m: map<string, Point>, k: string)
    requires k in m && MapContained(g, m)
    ensures PointSum(g, m) == g.plus(PointSum(g, m - {k}), m[k])
  {
    var l := Logs(g, m);
    PointSumOfExps(g, m, l);
    PointSumOfExps(g, m - {k}, l - {k});
    IntSumRemove(l, k);
    ExpAdd(g, IntSum(l - {k}), l[k]);
  }

  // ---------- the joint polynomial ----------

  function Values(polys: map<string, Poly>, x: int): (m: map<string, int>)
    ensures m.Keys == polys.Keys
  {
    map d | d in polys :: Eval(polys[d], x)
  }

  /** The coefficientwise sum of several polynomials, of any lengths. */
  ghost function JointPoly(polys: map<string, Poly>): Poly {
    if polys == map[] then []
    else
      var d :| d in polys;
      PolyAdd(JointPoly(polys - {d}), polys[d])
  }

  /** Summing the values at x evaluates the joint polynomial at x. */
  lemma {:induction false} JointEval(polys: map<string, Poly>, x: int)
    ensures Eval(JointPoly(polys), x) == IntSum(Values(polys, x))
    decreases |polys|
  {
    if polys == map[] {
      assert Values(polys, x) == map[];
    } else {
      var d :| d in polys && JointPoly(polys) == PolyAdd(JointPoly(polys - {d}), polys[d]);
      EvalAdd(JointPoly(polys - {d}), polys[d], x);
      JointEval(polys - {d}, x);
      IntSumRemove(Values(polys, x), d);
      assert Values(polys - {d}, x) == Values(polys, x) - {d};
    }
  }

  lemma {:induction false} JointLength(polys: map<string, Poly>, bound: nat)
    requires forall d :: d in polys ==> |polys[d]| <= bound
    ensures |JointPoly(polys)| <= bound
    decreases |polys|
  {
    if polys != map[] {
      var d :| d in polys && JointPoly(polys) == PolyAdd(JointPoly(polys - {d}), polys[d]);
      JointLength(polys - {d}, bound);
      var joint := PolyAdd(JointPoly(polys - {d}), polys[d]);
      assert |joint| <= bound;
    }
  }

  function CommitValues(g: PrimeGroup, polys: map<string, Poly>, x: nat): (m: map<string, Point>)
    ensures m.Keys == polys.Keys
  {
    map d | d in polys :: CommitEval(g, Commit(g, polys[d]), x)
  }

  lemma CommitValuesAreExps(g: PrimeGroup, polys: map<string, Poly>, x: nat)
    ensures forall d :: d in polys ==> g.Exp(Values(polys, x)[d]) == CommitValues(g, polys, x)[d]
  {
    forall d | d in polys
      ensures g.Exp(Values(polys, x)[d]) == CommitValues(g, polys, x)[d]
    {
      CommitEvalIsExp(g, polys[d], x);
    }
  }

  /** The same aggregation among commitments: their values at x sum to the joint commitment's. */
  lemma JointCommitEval(g: PrimeGroup, polys: map<string, Poly>, x: nat)
    ensures PointSum(g, CommitValues(g, polys, x)) == CommitEval(g, Commit(g, JointPoly(polys)), x)
  {
    CommitValuesAreExps(g, polys, x);
    PointSumOfExps(g, CommitValues(g, polys, x), Values(polys, x));
    JointEval(polys, x);
    CommitEvalIsExp(g, JointPoly(polys), x);
  }

  // ---------- stored commitments ----------

  predicate AllNonEmpty(commitments: map<string, seq<Point>>) {
    forall d :: d in commitments ==> commitments[d] != []
  }

  function Heads(commitments: map<string, seq<Point>>): (m: map<string, Point>)
    requires AllNonEmpty(commitments)
    ensures m.Keys == commitments.Keys
  {
    map d | d in commitments :: commitments[d][0]
  }

  /** The polynomials behind stored commitments. */
  ghost function CommittedPolys(g: PrimeGroup, commitments: map<string, seq<Point>>): (polys: map<string, Poly>)
    requires forall d :: d in commitments ==> Contained(g, commitments[d])
    ensures polys.Keys == commitments.Keys
    ensures forall d :: d in polys ==> polys[d] == Committed(g, commitments[d])
  {
    map d | d in commitments :: Committed(g, commitments[d])
  }

  /** The sum of the first commitments is the generator times the joint constant term. */
  lemma HeadSum(g: PrimeGroup, commitments: map<string, seq<Point>>)
    requires AllNonEmpty(commitments) && forall d :: d in commitments ==> Contained(g, commitments[d])
    ensures PointSum(g, Heads(commitments)) == g.Exp(Eval(JointPoly(CommittedPolys(g, commitments)), 0))
  {
    var polys := CommittedPolys(g, commitments);
    forall d | d in commitments
      ensures g.Exp(Values(polys, 0)[d]) == Heads(commitments)[d]
    {
      EvalAtZero(polys[d]);
    }
    PointSumOfExps(g, Heads(commitments), Values(polys, 0));
    JointEval(polys, 0);
  }
}
