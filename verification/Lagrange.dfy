/** Lagrange basis, interpolants and linear combinations, as specifications. */
module Lagrange {
  import opened Modular
  import opened Curve
  import opened Polynomials

  /** A pair of coordinates, or a share and the index of its holder. */
  datatype Sample = Sample(x: int, y: int)

  function Xs(pts: seq<Sample>): (r: seq<int>)
    ensures |r| == |pts|
  {
    seq(|pts|, i requires 0 <= i < |pts| => pts[i].x)
  }

  function Ys(pts: seq<Sample>): (r: seq<int>)
    ensures |r| == |pts|
  {
    seq(|pts|, i requires 0 <= i < |pts| => pts[i].y)
  }

  ghost predicate Through(p: seq<int>, pts: seq<Sample>, q: nat)
    requires q > 0
  {
    forall i :: 0 <= i < |pts| ==> Cong(Eval(p, pts[i].x), pts[i].y, q)
  }

  ghost predicate Reduced(p: seq<int>, q: nat) {
    forall i :: 0 <= i < |p| ==> 0 <= p[i] < q
  }

  /** r is the reduced polynomial of degree below the number of points that goes through them. */
  ghost predicate Interpolates(r: seq<int>, pts: seq<Sample>, q: nat)
    requires q > 0
  {
    |r| == |pts| && Reduced(r, q) && Through(r, pts, q)
  }

  // ----- basis

  /** Product of (t - x) over the x in xs other than xi. */
  function Num(xs: seq<int>, xi: int, t: int): int {
    if xs == [] then 1
    else
      var n := |xs| - 1;
      Num(xs[..n], xi, t) * (if xs[n] != xi then t - xs[n] else 1)
  }

  lemma {:induction false} NumVanishes(xs: seq<int>, xi: int, t: int)
    requires t in xs && t != xi
    ensures Num(xs, xi, t) == 0
  {
    var n := |xs| - 1;
    if t != xs[n] {
      assert xs == xs[..n] + [xs[n]];
      assert t in xs[..n];
      NumVanishes(xs[..n], xi, t);
    }
  }

  lemma {:induction false} NumInvertible(xs: seq<int>, xi: int, q: nat)
    requires IsPrime(q)
    requires forall i :: 0 <= i < |xs| ==> xs[i] == xi || !Cong(xi, xs[i], q)
    ensures !Cong(Num(xs, xi, xi), 0, q)
  {
    ModUnique(0, 0, 0, q);
    ModUnique(1, 0, 1, q);
    if xs != [] {
      var n := |xs| - 1;
      NumInvertible(xs[..n], xi, q);
      ProductZero(Num(xs[..n], xi, xi), if xs[n] != xi then xi - xs[n] else 1, q);
      CongZero(xi, xs[n], q);
    }
  }

  /** The Lagrange coefficient of the holder of index xi, at t. */
  function Lambda(q: nat, xs: seq<int>, xi: int, t: int): int
    requires q >= 2
  {
    Num(xs, xi, t) * InvOrZero(Num(xs, xi, xi), q)
  }

  function Lambdas(q: nat, xs: seq<int>, t: int): (r: seq<int>)
    requires q >= 2
    ensures |r| == |xs|
  {
    seq(|xs|, i requires 0 <= i < |xs| => Lambda(q, xs, xs[i], t))
  }

  lemma DistinctValues(xs: seq<int>, i: int, q: nat)
    requires q > 0 && DistinctMod(xs, q) && 0 <= i < |xs|
    ensures forall j :: 0 <= j < |xs| && j != i ==> xs[j] != xs[i] && !Cong(xs[i], xs[j], q)
  {
  }

  lemma LambdaDelta(q: nat, xs: seq<int>, i: int, j: int)
    requires IsPrime(q) && DistinctMod(xs, q) && 0 <= i < |xs| && 0 <= j < |xs|
    ensures i != j ==> Lambda(q, xs, xs[i], xs[j]) == 0
    ensures i == j ==> Cong(Lambda(q, xs, xs[i], xs[j]), 1, q)
  {
    DistinctValues(xs, i, q);
    if i != j {
      NumVanishes(xs, xs[i], xs[j]);
    } else {
      NumInvertible(xs, xs[i], q);
      InvOrZeroCorrect(Num(xs, xs[i], xs[i]), q);
    }
  }

  // ----- the basis as coefficients

  /** p * (X - r) */
  function MulLinear(p: seq<int>, r: int): (d: seq<int>)
    ensures |d| == |p| + 1
  {
    AddScaled([0] + p, -r, p + [0])
  }

  lemma EvalMulLinear(p: seq<int>, r: int, x: int)
    ensures Eval(MulLinear(p, r), x) == (x - r) * Eval(p, x)
  {
    EvalAddScaled([0] + p, -r, p + [0], x);
    assert ([0] + p)[1..] == p;
    EvalSnoc(p, 0, x);
    assert x * Eval(p, x) + -r * Eval(p, x) == (x - r) * Eval(p, x);
  }

  function NumPoly(xs: seq<int>, xi: int): (p: seq<int>) {
    if xs == [] then [1]
    else
      var n := |xs| - 1;
      if xs[n] != xi then MulLinear(NumPoly(xs[..n], xi), xs[n]) else NumPoly(xs[..n], xi)
  }

  lemma {:induction false} NumPolyEval(xs: seq<int>, xi: int, x: int)
    ensures Eval(NumPoly(xs, xi), x) == Num(xs, xi, x)
  {
    if xs == [] {
      assert [1][1..] == [];
    } else {
      var n := |xs| - 1;
      NumPolyEval(xs[..n], xi, x);
      EvalMulLinear(NumPoly(xs[..n], xi), xs[n], x);
    }
  }

  lemma {:induction false} NumPolyLength(xs: seq<int>, xi: int, i: int)
    requires forall j :: 0 <= j < |xs| ==> (xs[j] == xi <==> j == i)
    ensures |NumPoly(xs, xi)| == if 0 <= i < |xs| then |xs| else |xs| + 1
  {
    if xs != [] {
      NumPolyLength(xs[..|xs| - 1], xi, i);
    }
  }

  // ----- interpolants

  /** Sum of the first k basis polynomials, each weighted by its value. */
  function InterpUpTo(q: nat, xs: seq<int>, ys: seq<int>, k: nat): (p: seq<int>)
    requires q >= 2 && |xs| == |ys| && k <= |xs| && DistinctMod(xs, q)
    ensures |p| == |xs|
  {
    if k == 0 then Zeros(|xs|)
    else
      var xi := xs[k - 1];
      DistinctValues(xs, k - 1, q);
      NumPolyLength(xs, xi, k - 1);
      AddScaled(InterpUpTo(q, xs, ys, k - 1), ys[k - 1] * InvOrZero(Num(xs, xi, xi), q), NumPoly(xs, xi))
  }

  function Dot(cs: seq<int>, ys: seq<int>): int
    requires |cs| == |ys|
  {
    if cs == [] then 0
    else var n := |cs| - 1; Dot(cs[..n], ys[..n]) + cs[n] * ys[n]
  }

  lemma {:induction false} DotCong(cs: seq<int>, ys: seq<int>, cs': seq<int>, ys': seq<int>, q: nat)
    requires q > 0 && |cs| == |ys| && CongSeq(cs, cs', q) && CongSeq(ys, ys', q)
    ensures Cong(Dot(cs, ys), Dot(cs', ys'), q)
  {
    if cs != [] {
      var n := |cs| - 1;
      DotCong(cs[..n], ys[..n], cs'[..n], ys'[..n], q);
      CongMul(cs[n], cs'[n], ys[n], ys'[n], q);
      CongAdd(Dot(cs[..n], ys[..n]), Dot(cs'[..n], ys'[..n]), cs[n] * ys[n], cs'[n] * ys'[n], q);
    }
  }

  lemma {:induction false} EvalZeros(n: nat, x: int)
    ensures Eval(Zeros(n), x) == 0
  {
    if n > 0 {
      EvalZeros(n - 1, x);
      assert Zeros(n)[1..] == Zeros(n - 1);
    }
  }

  lemma {:induction false} InterpEval(q: nat, xs: seq<int>, ys: seq<int>, k: nat, t: int)
    requires q >= 2 && |xs| == |ys| && k <= |xs| && DistinctMod(xs, q)
    ensures Eval(InterpUpTo(q, xs, ys, k), t) == Dot(Lambdas(q, xs, t)[..k], ys[..k])
  {
    if k == 0 {
      EvalZeros(|xs|, t);
    } else {
      var xi, inv := xs[k - 1], InvOrZero(Num(xs, xs[k - 1], xs[k - 1]), q);
      DistinctValues(xs, k - 1, q);
      NumPolyLength(xs, xi, k - 1);
      InterpEval(q, xs, ys, k - 1, t);
      EvalAddScaled(InterpUpTo(q, xs, ys, k - 1), ys[k - 1] * inv, NumPoly(xs, xi), t);
      NumPolyEval(xs, xi, t);
      Reorder(ys[k - 1], inv, Num(xs, xi, t));
      DotSnoc(Lambdas(q, xs, t), ys, k - 1);
    }
  }

  lemma Reorder(a: int, b: int, c: int)
    ensures a * b * c == c * b * a
  {
  }

  lemma DotSnoc(cs: seq<int>, ys: seq<int>, n: nat)
    requires |cs| == |ys| && n < |cs|
    ensures Dot(cs[..n + 1], ys[..n + 1]) == Dot(cs[..n], ys[..n]) + cs[n] * ys[n]
  {
    assert cs[..n + 1][..n] == cs[..n] && ys[..n + 1][..n] == ys[..n];
  }

  lemma {:induction false} DotDelta(cs: seq<int>, ys: seq<int>, j: int, q: nat)
    requires q > 0 && |cs| == |ys|
    requires forall i :: 0 <= i < |cs| && i != j ==> cs[i] == 0
    requires 0 <= j < |cs| ==> Cong(cs[j], 1, q)
    ensures Cong(Dot(cs, ys), if 0 <= j < |cs| then ys[j] else 0, q)
  {
    if cs != [] {
      var n := |cs| - 1;
      DotDelta(cs[..n], ys[..n], j, q);
      if j == n {
        CongMul(cs[n], 1, ys[n], ys[n], q);
        CongAdd(Dot(cs[..n], ys[..n]), 0, cs[n] * ys[n], ys[n], q);
      }
    }
  }

  lemma InterpThrough(q: nat, pts: seq<Sample>)
    requires IsPrime(q) && DistinctMod(Xs(pts), q)
    ensures Through(InterpUpTo(q, Xs(pts), Ys(pts), |pts|), pts, q)
  {
    var xs, ys := Xs(pts), Ys(pts);
    forall j | 0 <= j < |pts| ensures Cong(Eval(InterpUpTo(q, xs, ys, |pts|), pts[j].x), pts[j].y, q) {
      InterpAt(q, xs, ys, j);
    }
  }

  lemma InterpAt(q: nat, xs: seq<int>, ys: seq<int>, j: nat)
    requires IsPrime(q) && |xs| == |ys| && DistinctMod(xs, q) && j < |xs|
    ensures Cong(Eval(InterpUpTo(q, xs, ys, |xs|), xs[j]), ys[j], q)
  {
    var cs := Lambdas(q, xs, xs[j]);
    InterpEval(q, xs, ys, |xs|, xs[j]);
    assert cs[..|xs|] == cs && ys[..|xs|] == ys;
    forall i | 0 <= i < |cs| ensures i != j ==> cs[i] == 0 {
      LambdaDelta(q, xs, i, j);
    }
    LambdaDelta(q, xs, j, j);
    DotDelta(cs, ys, j, q);
  }

  /** Interpolation at t agrees with every polynomial through the points that is short enough. */
  lemma LagrangeReproduces(q: nat, f: seq<int>, pts: seq<Sample>, t: int)
    requires IsPrime(q) && DistinctMod(Xs(pts), q) && |f| <= |pts| && Through(f, pts, q)
    ensures Cong(Dot(Lambdas(q, Xs(pts), t), Ys(pts)), Eval(f, t), q)
  {
    var xs, ys, n := Xs(pts), Ys(pts), |pts|;
    var r := InterpUpTo(q, xs, ys, n);
    var f' := f + Zeros(n - |f|);
    InterpThrough(q, pts);
    forall i | 0 <= i < n ensures Cong(Eval(r, xs[i]), Eval(f', xs[i]), q) {
      EvalPad(f, n - |f|, xs[i]);
      assert Cong(Eval(r, pts[i].x), pts[i].y, q) && Cong(Eval(f, pts[i].x), pts[i].y, q);
    }
    UniqueThrough(r, f', xs, q);
    EvalCong(r, f', t, t, q);
    EvalPad(f, n - |f|, t);
    InterpEval(q, xs, ys, n, t);
    assert Lambdas(q, xs, t)[..n] == Lambdas(q, xs, t) && ys[..n] == ys;
  }

  /** The interpolant is determined by the set of points, whatever their order. */
  lemma InterpolantUnique(pts: seq<Sample>, pts': seq<Sample>, r: seq<int>, r': seq<int>, q: nat)
    requires IsPrime(q) && DistinctMod(Xs(pts), q) && |pts| == |pts'|
    requires forall p :: p in pts ==> p in pts'
    requires Interpolates(r, pts, q) && Interpolates(r', pts', q)
    ensures r == r'
  {
    var xs := Xs(pts);
    forall i | 0 <= i < |xs| ensures Cong(Eval(r, xs[i]), Eval(r', xs[i]), q) {
      assert pts[i] in pts;
      var j :| 0 <= j < |pts'| && pts'[j] == pts[i];
      assert Cong(Eval(r', pts'[j].x), pts'[j].y, q) && Cong(Eval(r, pts[i].x), pts[i].y, q);
    }
    UniqueThrough(r, r', xs, q);
    forall i | 0 <= i < |r| ensures r[i] == r'[i] {
      assert Cong(r[i], r'[i], q);
      ReducedUnique(r[i], r'[i], q);
    }
  }

  /** Interpolating more points than needed: the coefficients of f come back and the rest are 0. */
  lemma InterpolantOfShortPoly(f: seq<int>, pts: seq<Sample>, r: seq<int>, q: nat)
    requires IsPrime(q) && DistinctMod(Xs(pts), q) && |f| <= |pts| && Through(f, pts, q)
    requires Interpolates(r, pts, q)
    ensures CongSeq(r[..|f|], f, q)
    ensures forall j :: |f| <= j < |r| ==> r[j] == 0
  {
    var xs, n := Xs(pts), |pts|;
    var f' := f + Zeros(n - |f|);
    forall i | 0 <= i < n ensures Cong(Eval(r, xs[i]), Eval(f', xs[i]), q) {
      EvalPad(f, n - |f|, xs[i]);
      assert Cong(Eval(r, pts[i].x), pts[i].y, q) && Cong(Eval(f, pts[i].x), pts[i].y, q);
    }
    UniqueThrough(r, f', xs, q);
    forall j | |f| <= j < |r| ensures r[j] == 0 {
      assert Cong(r[j], f'[j], q);
      ReducedUnique(r[j], 0, q);
    }
    forall j | 0 <= j < |f| ensures Cong(r[..|f|][j], f[j], q) {
      assert Cong(r[j], f'[j], q);
    }
  }

  // ----- linear combinations of points

  function LinComb<P>(g: Group<P>, cs: seq<int>, ps: seq<P>): P
    requires |cs| == |ps|
  {
    if cs == [] then g.zero
    else var n := |cs| - 1; g.add(g.mul(cs[n], ps[n]), LinComb(g, cs[..n], ps[..n]))
  }

  lemma {:induction false} LinCombCong<P(!new)>(g: Group<P>, cs: seq<int>, ds: seq<int>, ps: seq<P>)
    requires Laws(g) && |cs| == |ps| && CongSeq(cs, ds, g.q)
    ensures LinComb(g, cs, ps) == LinComb(g, ds, ps)
  {
    if cs != [] {
      var n := |cs| - 1;
      LinCombCong(g, cs[..n], ds[..n], ps[..n]);
      MulCong(g, cs[n], ds[n], ps[n]);
    }
  }

  /** A combination of commitments commits to the combinations. */
  lemma {:induction false} LinCombCommit<P(!new)>(g: Group<P>, cs: seq<int>, a: seq<int>, b: seq<int>, ps: seq<P>)
    requires Laws(g) && |cs| == |ps| == |a| == |b|
    requires forall i :: 0 <= i < |ps| ==> ps[i] == g.Commit(a[i], b[i])
    ensures LinComb(g, cs, ps) == g.Commit(Dot(cs, a), Dot(cs, b))
  {
    if cs == [] {
      CommitZero(g);
    } else {
      var n := |cs| - 1;
      LinCombCommit(g, cs[..n], a[..n], b[..n], ps[..n]);
      CommitMul(g, cs[n], a[n], b[n]);
      CommitAdd(g, cs[n] * a[n], cs[n] * b[n], Dot(cs[..n], a[..n]), Dot(cs[..n], b[..n]));
    }
  }

  function Column<P>(rows: seq<seq<P>>, l: nat): (c: seq<P>)
    requires forall i :: 0 <= i < |rows| ==> l < |rows[i]|
    ensures |c| == |rows|
  {
    seq(|rows|, i requires 0 <= i < |rows| => rows[i][l])
  }

  /** Combine polynomials with point coefficients, coefficient by coefficient. */
  function CombinePolys<P>(g: Group<P>, cs: seq<int>, polys: seq<seq<P>>, k: nat): (r: seq<P>)
    requires |cs| == |polys|
    requires forall i :: 0 <= i < |polys| ==> k <= |polys[i]|
    ensures |r| == k
  {
    seq(k, l requires 0 <= l < k => LinComb(g, cs, Column(polys, l)))
  }

  /** The combined polynomial evaluates to the combination of the values. */
  lemma {:induction false} CombineEval<P(!new)>(g: Group<P>, cs: seq<int>, polys: seq<seq<P>>, k: nat, x: int, vs: seq<P>)
    requires Laws(g) && |cs| == |polys| == |vs|
    requires forall i :: 0 <= i < |polys| ==> |polys[i]| == k && vs[i] == PointEval(g, polys[i], x)
    ensures PointEval(g, CombinePolys(g, cs, polys, k), x) == LinComb(g, cs, vs)
  {
    var c := CombinePolys(g, cs, polys, k);
    if cs == [] {
      assert c == [] + ZeroPoints(g, k);
      PointEvalPad(g, [], k, x);
    } else {
      var n := |cs| - 1;
      var c' := CombinePolys(g, cs[..n], polys[..n], k);
      CombineEval(g, cs[..n], polys[..n], k, x, vs[..n]);
      forall l | 0 <= l < k ensures c[l] == g.add(c'[l], g.mul(cs[n], polys[n][l])) {
        assert Column(polys, l)[..n] == Column(polys[..n], l);
        AddComm(g, c'[l], g.mul(cs[n], polys[n][l]));
      }
      assert c == PointsAddScaled(g, c', cs[n], polys[n]);
      PointEvalAddScaled(g, c', cs[n], polys[n], x);
      AddComm(g, LinComb(g, cs[..n], vs[..n]), g.mul(cs[n], vs[n]));
    }
  }

  lemma {:induction false} PointEvalSnoc<P(!new)>(g: Group<P>, p: seq<P>, c: P, x: int)
    requires Laws(g)
    ensures PointEval(g, p + [c], x) == g.add(PointEval(g, p, x), g.mul(Pow(x, |p|), c))
  {
    if p == [] {
      assert p + [c] == [c] && [c][1..] == [];
      MulZero(g, x);
      MulUnits(g, c);
      AddZero(g, c);
    } else {
      var t := p[1..];
      assert (p + [c])[1..] == t + [c];
      PointEvalSnoc(g, t, c, x);
      MulDistributes(g, x, PointEval(g, t, x), g.mul(Pow(x, |t|), c));
      MulMul(g, x, Pow(x, |t|), c);
      assert x * Pow(x, |t|) == Pow(x, |p|);
      AddAssoc(g, p[0], g.mul(x, PointEval(g, t, x)), g.mul(Pow(x, |p|), c));
    }
  }

  /** Every value shifted by a multiple of one point shifts the combination by the combined multiple. */
  lemma {:induction false} LinCombShift<P(!new)>(g: Group<P>, cs: seq<int>, us: seq<P>, ks: seq<int>, d: P, vs: seq<P>)
    requires Laws(g) && |cs| == |us| == |ks| == |vs|
    requires forall i :: 0 <= i < |vs| ==> vs[i] == g.add(us[i], g.mul(ks[i], d))
    ensures LinComb(g, cs, vs) == g.add(LinComb(g, cs, us), g.mul(Dot(cs, ks), d))
  {
    if cs == [] {
      MulUnits(g, d);
      AddZero(g, g.zero);
    } else {
      var n := |cs| - 1;
      LinCombShift(g, cs[..n], us[..n], ks[..n], d, vs[..n]);
      MulDistributes(g, cs[n], us[n], g.mul(ks[n], d));
      MulMul(g, cs[n], ks[n], d);
      var z := Dot(cs[..n], ks[..n]);
      AddSwap(g, g.mul(cs[n], us[n]), g.mul(cs[n] * ks[n], d), LinComb(g, cs[..n], us[..n]), g.mul(z, d));
      MulAdd(g, cs[n] * ks[n], z, d);
      assert cs[n] * ks[n] + z == Dot(cs, ks);
    }
  }

  lemma {:induction false} LinCombZeros<P(!new)>(g: Group<P>, cs: seq<int>, vs: seq<P>)
    requires Laws(g) && |cs| == |vs| && forall i :: 0 <= i < |vs| ==> vs[i] == g.zero
    ensures LinComb(g, cs, vs) == g.zero
  {
    if cs != [] {
      LinCombZeros(g, cs[..|cs| - 1], vs[..|cs| - 1]);
      MulZero(g, cs[|cs| - 1]);
      AddZero(g, g.zero);
    }
  }

  function Powers(xs: seq<int>, n: nat): (r: seq<int>)
    ensures |r| == |xs|
  {
    seq(|xs|, i requires 0 <= i < |xs| => Pow(xs[i], n))
  }

  lemma LagrangeOfPowers(q: nat, xs: seq<int>, n: nat, t: int)
    requires IsPrime(q) && DistinctMod(xs, q) && n < |xs|
    ensures Cong(Dot(Lambdas(q, xs, t), Powers(xs, n)), Pow(t, n), q)
  {
    var pts := seq(|xs|, i requires 0 <= i < |xs| => Sample(xs[i], Pow(xs[i], n)));
    var f := Zeros(n) + [1];
    assert Xs(pts) == xs && Ys(pts) == Powers(xs, n);
    forall x ensures Eval(f, x) == Pow(x, n) {
      EvalSnoc(Zeros(n), 1, x);
      EvalZeros(n, x);
    }
    LagrangeReproduces(q, f, pts, t);
  }

  /** Lagrange interpolation of a polynomial with point coefficients. */
  lemma {:induction false} PointReproduces<P(!new)>(g: Group<P>, d: seq<P>, xs: seq<int>, t: int, vs: seq<P>)
    requires Laws(g) && DistinctMod(xs, g.q) && |d| <= |xs| == |vs|
    requires forall i :: 0 <= i < |xs| ==> vs[i] == PointEval(g, d, xs[i])
    ensures LinComb(g, Lambdas(g.q, xs, t), vs) == PointEval(g, d, t)
    decreases |d|
  {
    var cs := Lambdas(g.q, xs, t);
    if d == [] {
      LinCombZeros(g, cs, vs);
    } else {
      var n := |d| - 1;
      var us := seq(|xs|, i requires 0 <= i < |xs| => PointEval(g, d[..n], xs[i]));
      PointReproduces(g, d[..n], xs, t, us);
      assert d == d[..n] + [d[n]];
      forall i | 0 <= i < |xs| ensures vs[i] == g.add(us[i], g.mul(Powers(xs, n)[i], d[n])) {
        PointEvalSnoc(g, d[..n], d[n], xs[i]);
      }
      LinCombShift(g, cs, us, Powers(xs, n), d[n], vs);
      LagrangeOfPowers(g.q, xs, n, t);
      MulCong(g, Dot(cs, Powers(xs, n)), Pow(t, n), d[n]);
      PointEvalSnoc(g, d[..n], d[n], t);
    }
  }

  // ----- one value in doubt

  lemma {:induction false} NumNonzero(xs: seq<int>, xi: int, t: int, q: nat)
    requires IsPrime(q) && forall i :: 0 <= i < |xs| ==> !Cong(t, xs[i], q)
    ensures !Cong(Num(xs, xi, t), 0, q)
  {
    ModUnique(0, 0, 0, q);
    ModUnique(1, 0, 1, q);
    if xs != [] {
      var n := |xs| - 1;
      NumNonzero(xs[..n], xi, t, q);
      ProductZero(Num(xs[..n], xi, t), if xs[n] != xi then t - xs[n] else 1, q);
      CongZero(t, xs[n], q);
    }
  }

  /** Away from the indexes no weight vanishes. */
  lemma LambdaNonzero(q: nat, xs: seq<int>, n: nat, t: int)
    requires IsPrime(q) && DistinctMod(xs, q) && n < |xs| && forall i :: 0 <= i < |xs| ==> !Cong(t, xs[i], q)
    ensures !Cong(Lambdas(q, xs, t)[n], 0, q)
  {
    DistinctValues(xs, n, q);
    NumNonzero(xs, xs[n], t, q);
    NumInvertible(xs, xs[n], q);
    var d := Num(xs, xs[n], xs[n]);
    InvOrZeroCorrect(d, q);
    ModUnique(0, 0, 0, q);
    ModUnique(1, 0, 1, q);
    ProductZero(d, InvOrZero(d, q), q);
    ProductZero(Num(xs, xs[n], t), InvOrZero(d, q), q);
  }

  /** Two combinations of points that differ at most in place n are equal exactly if they agree there. */
  lemma {:induction false} LinCombDiffer<P(!new)>(g: Group<P>, cs: seq<int>, us: seq<P>, vs: seq<P>, n: nat)
    requires Laws(g) && |cs| == |us| == |vs| && n < |cs| && !Cong(cs[n], 0, g.q)
    requires forall i :: 0 <= i < |cs| && i != n ==> us[i] == vs[i]
    ensures LinComb(g, cs, us) == LinComb(g, cs, vs) <==> us[n] == vs[n]
  {
    var m := |cs| - 1;
    if n == m {
      assert us[..m] == vs[..m];
      AddCancel(g, g.mul(cs[m], us[m]), g.mul(cs[m], vs[m]), LinComb(g, cs[..m], us[..m]));
      MulInjective(g, cs[m], us[m], vs[m]);
    } else {
      LinCombDiffer(g, cs[..m], us[..m], vs[..m], n);
      var x := g.mul(cs[m], us[m]);
      AddComm(g, x, LinComb(g, cs[..m], us[..m]));
      AddComm(g, x, LinComb(g, cs[..m], vs[..m]));
      AddCancel(g, LinComb(g, cs[..m], us[..m]), LinComb(g, cs[..m], vs[..m]), x);
    }
  }
}
