/** What the interpolated polynomials of a node commit to, and exactly when: the checks look at alpha only, and
    only at its absolute value. */
module Reconstruction {
  import opened Modular
  import opened Curve
  import opened Polynomials
  import opened Lagrange
  import opened Avss

  // ----- points on a committed polynomial

  ghost predicate Matches<P>(g: Group<P>, d: seq<P>, pts: seq<Sample>, pts': seq<Sample>, i: nat)
    requires i < |pts| == |pts'|
  {
    g.Commit(pts[i].y, pts'[i].y) == PointEval(g, d, pts[i].x)
  }

  /** Coefficient j of (r, r') commits to d[j], and to zero past the end of d. */
  ghost predicate Opens<P>(g: Group<P>, d: seq<P>, r: seq<int>, r': seq<int>, j: nat)
    requires j < |r| == |r'|
  {
    g.Commit(r[j], r'[j]) == if j < |d| then d[j] else g.zero
  }

  /** The commitments to the coefficients, as a polynomial, go through the commitments to the points. */
  lemma InterpolantCommits<P(!new)>(g: Group<P>, pts: seq<Sample>, pts': seq<Sample>, r: seq<int>, r': seq<int>, v: seq<P>, i: nat)
    requires Laws(g) && |pts| == |pts'| && Xs(pts) == Xs(pts') && i < |pts|
    requires Interpolates(r, pts, g.q) && Interpolates(r', pts', g.q)
    requires |v| == |r| && forall j :: 0 <= j < |r| ==> v[j] == g.Commit(r[j], r'[j])
    ensures PointEval(g, v, pts[i].x) == g.Commit(pts[i].y, pts'[i].y)
  {
    assert pts'[i].x == Xs(pts')[i] == Xs(pts)[i];
    CommittedEval(g, r, r', v, pts[i].x);
    assert Cong(Eval(r, pts[i].x), pts[i].y, g.q) && Cong(Eval(r', pts'[i].x), pts'[i].y, g.q);
    CommitCong(g, Eval(r, pts[i].x), Eval(r', pts[i].x), pts[i].y, pts'[i].y);
  }

  /** All coefficients open d exactly if all points do. */
  lemma CoefficientsOpenIff<P(!new)>(g: Group<P>, d: seq<P>, pts: seq<Sample>, pts': seq<Sample>, r: seq<int>, r': seq<int>)
    requires Laws(g) && |pts| == |pts'| && Xs(pts) == Xs(pts') && DistinctMod(Xs(pts), g.q)
    requires Interpolates(r, pts, g.q) && Interpolates(r', pts', g.q) && |d| <= |pts|
    ensures (forall j :: 0 <= j < |r| ==> Opens(g, d, r, r', j))
            <==> forall i :: 0 <= i < |pts| ==> Matches(g, d, pts, pts', i)
  {
    var n, xs := |pts|, Xs(pts);
    var v := seq(n, l requires 0 <= l < n => g.Commit(r[l], r'[l]));
    var d' := d + ZeroPoints(g, n - |d|);
    forall i | 0 <= i < n ensures Matches(g, d, pts, pts', i) <==> PointEval(g, v, xs[i]) == PointEval(g, d', xs[i]) {
      InterpolantCommits(g, pts, pts', r, r', v, i);
      PointEvalPad(g, d, n - |d|, xs[i]);
    }
    if forall i :: 0 <= i < n ==> Matches(g, d, pts, pts', i) {
      PointUniqueThrough(g, v, d', xs);
      forall j | 0 <= j < n ensures Opens(g, d, r, r', j) {
        assert v[j] == d'[j];
      }
    }
    if forall j :: 0 <= j < n ==> Opens(g, d, r, r', j) {
      forall j | 0 <= j < n ensures v[j] == d'[j] {
        assert Opens(g, d, r, r', j);
      }
      assert v == d';
    }
  }

  /** Coefficient by coefficient. */
  lemma InterpolatedCoefficientsOpen<P(!new)>(g: Group<P>, d: seq<P>, pts: seq<Sample>, pts': seq<Sample>,
                                              r: seq<int>, r': seq<int>, j: nat)
    requires Laws(g) && |pts| == |pts'| && Xs(pts) == Xs(pts') && DistinctMod(Xs(pts), g.q)
    requires Interpolates(r, pts, g.q) && Interpolates(r', pts', g.q) && |d| <= |pts| && j < |pts|
    requires forall i :: 0 <= i < |pts| ==> Matches(g, d, pts, pts', i)
    ensures g.Commit(r[j], r'[j]) == if j < |d| then d[j] else g.zero
  {
    CoefficientsOpenIff(g, d, pts, pts', r, r');
    assert Opens(g, d, r, r', j);
  }

  // ----- alpha: tested up to the sign of its numbers

  /** The check saw the number that is used afterwards. */
  ghost predicate SignKept<P>(g: Group<P>, a: int, b: int) {
    g.Checked(a, b) == g.Commit(a, b)
  }

  ghost predicate Accepted<P>(g: Group<P>, c: Matrix<P>, i: int, ac: seq<Sample>, ac': seq<Sample>)
    requires |ac| == |ac'|
  {
    forall m :: 0 <= m < |ac| ==> PointOk(g, c, ac[m].x, i, ac[m].y, ac'[m].y)
  }

  /** Bbar: from accepted alphas, at least as many as rows, for any matrix: every coefficient j of (Bbar, Bbarprime)
      commits to the row value sum of i^l * c[j][l], and to zero beyond, exactly if the sign of no point matters. */
  lemma ReconstructionIff<P(!new)>(g: Group<P>, c: Matrix<P>, i: int, ac: seq<Sample>, ac': seq<Sample>,
                                   bbar: seq<int>, bbar': seq<int>)
    requires Laws(g) && |c| <= |ac| == |ac'| && Xs(ac) == Xs(ac') && DistinctMod(Xs(ac), g.q) && Accepted(g, c, i, ac, ac')
    requires Interpolates(bbar, ac, g.q) && Interpolates(bbar', ac', g.q)
    ensures (forall j :: 0 <= j < |bbar| ==> Opens(g, RowValues(g, Cut(c), i), bbar, bbar', j))
            <==> forall m :: 0 <= m < |ac| ==> SignKept(g, ac[m].y, ac'[m].y)
  {
    var d := RowValues(g, Cut(c), i);
    CoefficientsOpenIff(g, d, ac, ac', bbar, bbar');
    forall m | 0 <= m < |ac| ensures Matches(g, d, ac, ac', m) <==> SignKept(g, ac[m].y, ac'[m].y) {
      assert PointOk(g, c, ac[m].x, i, ac[m].y, ac'[m].y);
    }
  }

  /** In particular if no number is negative. */
  lemma ReconstructionRespectsCommitment<P(!new)>(g: Group<P>, c: Matrix<P>, i: int, ac: seq<Sample>, ac': seq<Sample>,
                                                  bbar: seq<int>, bbar': seq<int>, j: nat)
    requires Laws(g) && |c| <= |ac| == |ac'| && Xs(ac) == Xs(ac') && DistinctMod(Xs(ac), g.q) && Accepted(g, c, i, ac, ac')
    requires NonNegative(Ys(ac)) && NonNegative(Ys(ac'))
    requires Interpolates(bbar, ac, g.q) && Interpolates(bbar', ac', g.q) && j < |ac|
    ensures g.Commit(bbar[j], bbar'[j]) == if j < |c| then PointEval(g, Cut(c)[j], i) else g.zero
  {
    forall m | 0 <= m < |ac| ensures SignKept(g, ac[m].y, ac'[m].y) {
      assert Ys(ac)[m] == ac[m].y && Ys(ac')[m] == ac'[m].y;
    }
    ReconstructionIff(g, c, i, ac, ac', bbar, bbar');
    assert Opens(g, RowValues(g, Cut(c), i), bbar, bbar', j);
  }

  /** A negative alpha is accepted with the positive one, and its sign matters unless it vanishes modulo q. */
  lemma NegativeSign<P(!new)>(g: Group<P>, a: int, b: nat)
    requires Laws(g) && g.q != 2 && g.G != g.zero && a < 0
    ensures SignKept(g, a, b) <==> Cong(a, 0, g.q)
  {
    var bH := g.mul(b, g.H);
    AddCancel(g, g.mul(-a, g.G), g.mul(a, g.G), bH);
    DiffZero(g, g.mul(a, g.G), g.mul(-a, g.G));
    MulMul(g, -1, -a, g.G);
    MulAdd(g, a, a, g.G);
    MulScalar(g, 2 * a);
    OddPrime(a, g.q);
    assert SignKept(g, a, b) <==> g.mul(-a, g.G) == g.mul(a, g.G);
  }

  lemma MulScalar<P(!new)>(g: Group<P>, i: int)
    requires Laws(g) && g.G != g.zero
    ensures g.mul(i, g.G) == g.zero <==> Cong(i, 0, g.q)
  {
    if Cong(i, 0, g.q) {
      MulCong(g, i, 0, g.G);
      MulUnits(g, g.G);
    } else if g.mul(i, g.G) == g.zero {
      MulCancel(g, i, g.G);
    }
  }

  lemma OddPrime(a: int, q: nat)
    requires IsPrime(q) && q != 2
    ensures Cong(2 * a, 0, q) <==> Cong(a, 0, q)
  {
    ProductZero(2, a, q);
    ModUnique(2, 0, 2, q);
    ModUnique(0, 0, 0, q);
  }

  /** One negative alpha among accepted points: Bbar no longer opens the matrix. */
  lemma NegativeAlphaSpoils<P(!new)>(g: Group<P>, c: Matrix<P>, i: int, ac: seq<Sample>, ac': seq<Sample>,
                                     bbar: seq<int>, bbar': seq<int>, n: nat)
    requires Laws(g) && g.q != 2 && g.G != g.zero
    requires |c| <= |ac| == |ac'| && Xs(ac) == Xs(ac') && DistinctMod(Xs(ac), g.q) && n < |ac|
    requires forall m :: 0 <= m < |ac| && m != n ==> PointOk(g, c, ac[m].x, i, ac[m].y, ac'[m].y)
    requires PointOk(g, c, ac[n].x, i, -ac[n].y, ac'[n].y)
    requires ac[n].y < 0 <= ac'[n].y && !Cong(ac[n].y, 0, g.q)
    requires Interpolates(bbar, ac, g.q) && Interpolates(bbar', ac', g.q)
    ensures Accepted(g, c, i, ac, ac') && exists j :: 0 <= j < |bbar| && !Opens(g, RowValues(g, Cut(c), i), bbar, bbar', j)
  {
    assert PointOk(g, c, ac[n].x, i, ac[n].y, ac'[n].y);
    ReconstructionIff(g, c, i, ac, ac', bbar, bbar');
    NegativeSign(g, ac[n].y, ac'[n].y);
  }

  /** At its smallest: K = 1, the matrix of the constant 1, and the alpha -1. */
  lemma NegativeOne<P(!new)>(g: Group<P>, x: int, i: int, bbar: seq<int>, bbar': seq<int>)
    requires Laws(g) && g.q != 2 && g.G != g.zero
    requires Interpolates(bbar, [Sample(x, -1)], g.q) && Interpolates(bbar', [Sample(x, 0)], g.q)
    ensures PointOk(g, [[g.G]], x, i, -1, 0) && g.Commit(bbar[0], bbar'[0]) != g.G
  {
    var c, ac, ac' := [[g.G]], [Sample(x, -1)], [Sample(x, 0)];
    OnePasses(g, x, i);
    assert Xs(ac) == Xs(ac') == [x];
    MinusOne(g.q);
    NegativeAlphaSpoils(g, c, i, ac, ac', bbar, bbar', 0);
    var j :| 0 <= j < |bbar| && !Opens(g, RowValues(g, Cut(c), i), bbar, bbar', j);
    ConstantValue(g, g.G, i);
  }

  lemma OnePasses<P(!new)>(g: Group<P>, x: int, i: int)
    requires Laws(g)
    ensures PointOk(g, [[g.G]], x, i, 1, 0) && PointOk(g, [[g.G]], x, i, -1, 0) && RowValues(g, Cut([[g.G]]), i) == [g.G]
  {
    ConstantValue(g, g.G, i);
    assert RowValues(g, Cut([[g.G]]), i) == [g.G];
    ConstantValue(g, g.G, x);
    MulUnits(g, g.G);
    MulUnits(g, g.H);
    AddZero(g, g.G);
  }

  lemma ConstantValue<P(!new)>(g: Group<P>, c: P, x: int)
    requires Laws(g)
    ensures PointEval(g, [c], x) == c
  {
    assert PointEval(g, [c], x) == g.add(c, g.mul(x, PointEval(g, [], x)));
    MulZero(g, x);
    AddZero(g, c);
  }

  lemma MinusOne(q: nat)
    requires IsPrime(q)
    ensures !Cong(-1, 0, q)
  {
    ModUnique(-1, -1, q - 1, q);
    ModUnique(0, 0, 0, q);
  }

  /** The alpha a node makes for receiver i from polynomials of two or more coefficients passes at i. */
  ghost predicate EchoPasses<P>(g: Group<P>, c: Matrix<P>, m: int, a: seq<int>, a': seq<int>, i: int)
    requires g.q > 0
  {
    PointOk(g, c, m, i, Eval(a, i) % g.q, Eval(a', i) % g.q)
  }

  /** The polynomials of a `send` likewise: the points a node makes from accepted polynomials pass at as many receivers as
      there are coefficients exactly if the sign of no coefficient matters, and then they pass at every receiver. */
  lemma ValidPointsIff<P(!new)>(g: Group<P>, c: Matrix<P>, m: int, a: seq<int>, a': seq<int>, b: seq<int>, b': seq<int>, xs: seq<int>)
    requires Laws(g) && 2 <= |a| == |a'| == |b| == |b'| && IsSquare(c, |a|) && PolyOk(g, c, m, a, a', b, b')
    requires DistinctMod(xs, g.q) && |xs| == |a|
    ensures (forall j :: 0 <= j < |xs| ==> EchoPasses(g, c, m, a, a', xs[j])) <==> forall l :: 0 <= l < |a| ==> SignKept(g, a[l], a'[l])
    ensures (forall l :: 0 <= l < |a| ==> SignKept(g, a[l], a'[l])) ==> forall i :: EchoPasses(g, c, m, a, a', i)
  {
    var k := |a|;
    var d := ColumnValues(g, c, m, k);
    var v := seq(k, l requires 0 <= l < k => g.Commit(a[l], a'[l]));
    forall l | 0 <= l < k ensures SignKept(g, a[l], a'[l]) <==> v[l] == d[l] {
      assert g.Checked(a[l], a'[l]) == PointEval(g, Column(c, l), m);
    }
    forall i ensures EchoPasses(g, c, m, a, a', i) <==> PointEval(g, v, i) == PointEval(g, d, i) {
      EchoOfPoly(g, c, m, i, a, a', v);
    }
    if forall j :: 0 <= j < |xs| ==> EchoPasses(g, c, m, a, a', xs[j]) {
      PointUniqueThrough(g, v, d, xs);
    }
    if forall l :: 0 <= l < k ==> SignKept(g, a[l], a'[l]) {
      assert v == d;
    }
  }

  lemma EchoOfPoly<P(!new)>(g: Group<P>, c: Matrix<P>, m: int, i: int, a: seq<int>, a': seq<int>, v: seq<P>)
    requires Laws(g) && |a| == |a'| == |v| && IsSquare(c, |a|)
    requires forall l :: 0 <= l < |a| ==> v[l] == g.Commit(a[l], a'[l])
    ensures EchoPasses(g, c, m, a, a', i) <==> PointEval(g, v, i) == PointEval(g, ColumnValues(g, c, m, |a|), i)
  {
    ModIsCong(Eval(a, i), g.q);
    ModIsCong(Eval(a', i), g.q);
    EvaluatedPoint(g, v, a, a', i, Eval(a, i) % g.q, Eval(a', i) % g.q);
    PointOfPoly(g, c, |a|, m, i, Eval(a, i) % g.q, Eval(a', i) % g.q);
  }

  lemma PointOfPoly<P(!new)>(g: Group<P>, c: Matrix<P>, k: nat, m: int, i: int, alpha: nat, alpha': nat)
    requires Laws(g) && IsSquare(c, k)
    ensures PointOk(g, c, m, i, alpha, alpha') <==> g.Commit(alpha, alpha') == PointEval(g, ColumnValues(g, c, m, k), i)
  {
    SquarePoint(g, c, k, m, i, alpha, alpha');
    RowsAndColumns(g, c, k, m, i);
  }

  // ----- beta: not tested at all

  /** Abar: every coefficient commits to its column at the node's index, and to zero beyond, exactly if every beta is right. */
  lemma BetasIff<P(!new)>(g: Group<P>, c: Matrix<P>, k: nat, i: int, bc: seq<Sample>, bc': seq<Sample>,
                          abar: seq<int>, abar': seq<int>)
    requires Laws(g) && k > 0 && IsSquare(c, k)
    requires k <= |bc| == |bc'| && Xs(bc) == Xs(bc') && DistinctMod(Xs(bc), g.q)
    requires Interpolates(abar, bc, g.q) && Interpolates(abar', bc', g.q)
    ensures (forall l :: 0 <= l < |abar| ==> Opens(g, ColumnValues(g, c, i, k), abar, abar', l))
            <==> forall m :: 0 <= m < |bc| ==> BetaOk(g, c, bc[m].x, i, bc[m].y, bc'[m].y)
  {
    var d := ColumnValues(g, c, i, k);
    CoefficientsOpenIff(g, d, bc, bc', abar, abar');
    forall m | 0 <= m < |bc| ensures Matches(g, d, bc, bc', m) <==> BetaOk(g, c, bc[m].x, i, bc[m].y, bc'[m].y) {
      RowsAndColumns(g, c, k, i, bc[m].x);
    }
  }

  /** With right betas the share Si = Abar[0] passes `AVSSVerifyShare`. */
  lemma ReconstructedShareVerifies<P(!new)>(g: Group<P>, c: Matrix<P>, k: nat, i: int, bc: seq<Sample>, bc': seq<Sample>,
                                            abar: seq<int>, abar': seq<int>)
    requires Laws(g) && k > 0 && IsSquare(c, k)
    requires k <= |bc| == |bc'| && Xs(bc) == Xs(bc') && DistinctMod(Xs(bc), g.q)
    requires forall m :: 0 <= m < |bc| ==> BetaOk(g, c, bc[m].x, i, bc[m].y, bc'[m].y)
    requires Interpolates(abar, bc, g.q) && Interpolates(abar', bc', g.q)
    ensures forall l :: 0 <= l < |abar| ==> Opens(g, ColumnValues(g, c, i, k), abar, abar', l)
    ensures ShareOk(g, c, i, abar[0], abar'[0])
  {
    BetasIff(g, c, k, i, bc, bc', abar, abar');
    assert Opens(g, ColumnValues(g, c, i, k), abar, abar', 0);
  }

  /** The share in terms of the points it is interpolated from. */
  lemma ShareIsCombination<P(!new)>(g: Group<P>, pts: seq<Sample>, pts': seq<Sample>, r: seq<int>, r': seq<int>, us: seq<P>)
    requires Laws(g) && 0 < |pts| == |pts'| == |us| && Xs(pts) == Xs(pts') && DistinctMod(Xs(pts), g.q)
    requires Interpolates(r, pts, g.q) && Interpolates(r', pts', g.q)
    requires forall m :: 0 <= m < |pts| ==> us[m] == g.Commit(pts[m].y, pts'[m].y)
    ensures LinComb(g, Lambdas(g.q, Xs(pts), 0), us) == g.Commit(r[0], r'[0])
  {
    var cs := Lambdas(g.q, Xs(pts), 0);
    LagrangeReproduces(g.q, r, pts, 0);
    LagrangeReproduces(g.q, r', pts', 0);
    assert Eval(r, 0) == r[0] + 0 * Eval(r[1..], 0) && Eval(r', 0) == r'[0] + 0 * Eval(r'[1..], 0);
    LinCombCommit(g, cs, Ys(pts), Ys(pts'), us);
    CommitCong(g, Dot(cs, Ys(pts)), Dot(cs, Ys(pts')), r[0], r'[0]);
  }

  /** One beta in doubt, the others right: the share passes `AVSSVerifyShare` exactly if that beta is right too. */
  lemma ShareIffBeta<P(!new)>(g: Group<P>, c: Matrix<P>, k: nat, i: int, bc: seq<Sample>, bc': seq<Sample>,
                              abar: seq<int>, abar': seq<int>, n: nat)
    requires Laws(g) && k > 0 && IsSquare(c, k)
    requires k <= |bc| == |bc'| && Xs(bc) == Xs(bc') && DistinctMod(Xs(bc), g.q) && n < |bc|
    requires forall m :: 0 <= m < |bc| ==> !Cong(0, bc[m].x, g.q)
    requires forall m :: 0 <= m < |bc| && m != n ==> BetaOk(g, c, bc[m].x, i, bc[m].y, bc'[m].y)
    requires Interpolates(abar, bc, g.q) && Interpolates(abar', bc', g.q)
    ensures ShareOk(g, c, i, abar[0], abar'[0]) <==> BetaOk(g, c, bc[n].x, i, bc[n].y, bc'[n].y)
  {
    var d, xs := ColumnValues(g, c, i, k), Xs(bc);
    var us := seq(|bc|, m requires 0 <= m < |bc| => g.Commit(bc[m].y, bc'[m].y));
    var vs := seq(|bc|, m requires 0 <= m < |bc| => PointEval(g, d, bc[m].x));
    forall m | 0 <= m < |bc| ensures us[m] == vs[m] <==> BetaOk(g, c, bc[m].x, i, bc[m].y, bc'[m].y) {
      RowsAndColumns(g, c, k, i, bc[m].x);
    }
    ShareIsCombination(g, bc, bc', abar, abar', us);
    PointReproduces(g, d, xs, 0, vs);
    ConstantTerm(g, d);
    LambdaNonzero(g.q, xs, n, 0);
    LinCombDiffer(g, Lambdas(g.q, xs, 0), us, vs, n);
  }

  lemma ConstantTerm<P(!new)>(g: Group<P>, d: seq<P>)
    requires Laws(g) && d != []
    ensures PointEval(g, d, 0) == d[0]
  {
    MulUnits(g, PointEval(g, d[1..], 0));
    AddZero(g, d[0]);
    AddComm(g, d[0], g.zero);
  }
}
