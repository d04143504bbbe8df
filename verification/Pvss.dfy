/** The loops of the `pvss` package on scalars: evaluation, interpolation, sums. */
module Pvss {
  import opened Modular
  import opened Curve
  import opened Polynomials
  import opened Lagrange

  function Max(a: int, b: int): int { if a > b then a else b }

  /** `polyEval`: only the first `threshold` coefficients count, and with a threshold
      below 2 the constant coefficient comes back unreduced. */
  method PolyEval(q: nat, coeff: seq<int>, threshold: int, x: int) returns (sum: int)
    requires q > 0 && 1 <= |coeff| && threshold <= |coeff|
    ensures Cong(sum, Eval(coeff[..Max(threshold, 1)], x), q)
    ensures if threshold >= 2 then 0 <= sum < q else sum == coeff[0]
  {
    var xi := x;
    sum := coeff[0];
    var i := 1;
    assert coeff[..1] == [] + [coeff[0]];
    EvalSnoc([], coeff[0], x);
    assert Pow(x, 1) == Pow(x, 0) * x;
    while i < threshold
      invariant 1 <= i <= Max(threshold, 1)
      invariant Cong(sum, Eval(coeff[..i], x), q) && Cong(xi, Pow(x, i), q)
      invariant if i >= 2 then 0 <= sum < q else sum == coeff[0]
    {
      var tmp := xi * coeff[i];
      assert coeff[..i + 1] == coeff[..i] + [coeff[i]];
      EvalSnoc(coeff[..i], coeff[i], x);
      CongMul(coeff[i], coeff[i], xi, Pow(x, i), q);
      assert tmp == coeff[i] * xi;
      CongAdd(sum, Eval(coeff[..i], x), tmp, coeff[i] * Pow(x, i), q);
      ModIsCong(sum + tmp, q);
      CongMul(xi, Pow(x, i), x, x, q);
      ModIsCong(xi * x, q);
      sum := (sum + tmp) % q;
      xi := (xi * x) % q;
      i := i + 1;
    }
  }

  // ----- LagrangeInterpolatePolynomial

  function Insert(p: Sample, s: seq<Sample>): (r: seq<Sample>)
    ensures multiset(r) == multiset{p} + multiset(s) && |r| == |s| + 1
  {
    if s == [] || p.x <= s[0].x then
      [p] + s
    else
      assert s == [s[0]] + s[1..];
      [s[0]] + Insert(p, s[1..])
  }

  /** The stable sort by X that precedes interpolation. */
  function SortByX(s: seq<Sample>): (r: seq<Sample>)
    ensures multiset(r) == multiset(s) && |r| == |s|
  {
    if s == [] then [] else
      assert s == [s[0]] + s[1..];
      Insert(s[0], SortByX(s[1..]))
  }

  /** No value of s is equal to v modulo q. */
  ghost predicate Fresh(v: int, s: seq<Sample>, q: nat)
    requires q > 0
  {
    forall p :: p in s ==> !Cong(p.x, v, q)
  }

  lemma DistinctCons(p: Sample, s: seq<Sample>, q: nat)
    requires q > 0
    ensures DistinctMod(Xs([p] + s), q) <==> Fresh(p.x, s, q) && DistinctMod(Xs(s), q)
  {
    var xs, ys := Xs([p] + s), Xs(s);
    assert xs == [p.x] + ys;
    if DistinctMod(xs, q) {
      forall i, j | 0 <= i < j < |ys| ensures !Cong(ys[i], ys[j], q) {
        assert ys[i] == xs[i + 1] && ys[j] == xs[j + 1];
      }
      forall r | r in s ensures !Cong(r.x, p.x, q) {
        var i :| 0 <= i < |s| && s[i] == r;
        assert xs[i + 1] == r.x && !Cong(xs[0], xs[i + 1], q);
      }
    }
    if Fresh(p.x, s, q) && DistinctMod(ys, q) {
      forall i, j | 0 <= i < j < |xs| ensures !Cong(xs[i], xs[j], q) {
        assert s[j - 1] in s && xs[j] == ys[j - 1];
        if i > 0 { assert xs[i] == ys[i - 1]; }
      }
    }
  }

  lemma {:induction false} DistinctInsert(p: Sample, s: seq<Sample>, q: nat)
    requires q > 0
    ensures DistinctMod(Xs(Insert(p, s)), q) <==> Fresh(p.x, s, q) && DistinctMod(Xs(s), q)
  {
    if s == [] || p.x <= s[0].x {
      DistinctCons(p, s, q);
    } else {
      var h, t := s[0], s[1..];
      assert s == [h] + t;
      DistinctInsert(p, t, q);
      DistinctCons(h, Insert(p, t), q);
      DistinctCons(h, t, q);
      assert forall r :: r in Insert(p, t) <==> r in multiset(Insert(p, t));
      assert forall r :: r in t <==> r in multiset(t);
    }
  }

  lemma {:induction false} DistinctSort(s: seq<Sample>, q: nat)
    requires q > 0
    ensures DistinctMod(Xs(SortByX(s)), q) <==> DistinctMod(Xs(s), q)
  {
    if s != [] {
      var t := s[1..];
      assert s == [s[0]] + t;
      DistinctSort(t, q);
      DistinctInsert(s[0], SortByX(t), q);
      DistinctCons(s[0], t, q);
      assert forall r :: r in t <==> r in multiset(SortByX(t));
    }
  }

  /** Product of (t - x) over all positions but i. */
  ghost function NumBut(xs: seq<int>, i: int, t: int): int {
    if xs == [] then 1
    else var n := |xs| - 1; NumBut(xs[..n], i, t) * (if n != i then t - xs[n] else 1)
  }

  lemma {:induction false} NumButZero(xs: seq<int>, i: int, t: int, q: nat)
    requires IsPrime(q)
    ensures Cong(NumBut(xs, i, t), 0, q) <==> exists j :: 0 <= j < |xs| && j != i && Cong(t, xs[j], q)
  {
    ModUnique(0, 0, 0, q);
    ModUnique(1, 0, 1, q);
    if xs != [] {
      var n := |xs| - 1;
      NumButZero(xs[..n], i, t, q);
      ProductZero(NumBut(xs[..n], i, t), if n != i then t - xs[n] else 1, q);
      CongZero(t, xs[n], q);
      assert forall j :: 0 <= j < n ==> xs[..n][j] == xs[j];
    }
  }

  lemma {:induction false} NumButIsNum(xs: seq<int>, xi: int, i: int, t: int)
    requires forall j :: 0 <= j < |xs| ==> (xs[j] == xi <==> j == i)
    ensures NumBut(xs, i, t) == Num(xs, xi, t)
  {
    if xs != [] {
      NumButIsNum(xs[..|xs| - 1], xi, i, t);
    }
  }

  method Denominator(q: nat, points: seq<Sample>, i: nat) returns (result: int)
    requires q >= 2 && i < |points|
    ensures result == NumBut(Xs(points), i, points[i].x) % q
  {
    ghost var xs, t := Xs(points), points[i].x;
    result := 1;
    ModUnique(1, 0, 1, q);
    var j := |points| - 1;
    assert xs[..|xs|] == xs;
    while j >= 0
      invariant -1 <= j < |points| && 0 <= result < q
      invariant Cong(result * NumBut(xs[..j + 1], i, t), NumBut(xs, i, t), q)
    {
      if i != j {
        var tmp := (points[i].x - points[j].x) % q;
        ghost var rest := NumBut(xs[..j], i, t);
        assert xs[..j + 1][..j] == xs[..j];
        ModIsCong(t - xs[j], q);
        ModIsCong(result * tmp, q);
        CongMul(result, result, tmp, t - xs[j], q);
        CongMul((result * tmp) % q, result * (t - xs[j]), rest, rest, q);
        Reassoc(result, t - xs[j], rest);
        result := (result * tmp) % q;
      } else {
        assert xs[..j + 1][..j] == xs[..j];
      }
      j := j - 1;
    }
    ModUnique(result, 0, result, q);
  }

  lemma Reassoc(a: int, b: int, c: int)
    ensures a * b * c == a * (c * b)
  {
  }

  /** Coefficient m of p, 0 outside. */
  function Coef(p: seq<int>, m: int): int { if 0 <= m < |p| then p[m] else 0 }

  lemma CoefMulLinear(p: seq<int>, r: int, m: int)
    ensures Coef(MulLinear(p, r), m) == Coef(p, m - 1) - r * Coef(p, m)
  {
    if 0 <= m <= |p| {
      assert MulLinear(p, r)[m] == ([0] + p)[m] + -r * (p + [0])[m];
    }
  }

  function Times(r: int, c: seq<int>): (rc: seq<int>)
    ensures |rc| == |c|
  {
    seq(|c|, m requires 0 <= m < |c| => r * c[m])
  }

  /** Multiply the polynomial held in the first top+1 cells of c by (X - r), modulo q. */
  method TimesLinear(q: nat, c: seq<int>, top: int, r: int) returns (d: seq<int>)
    requires q > 0 && 0 <= top < |c| - 1
    requires forall m :: top < m < |c| ==> c[m] == 0
    ensures |d| == |c| && Reduced(d, q)
    ensures forall m :: 0 <= m < |c| ==> Cong(d[m], Coef(c, m - 1) - Times(r, c)[m], q)
    ensures forall m :: top + 1 < m < |c| ==> d[m] == 0
  {
    d := seq(|c|, _ => 0);
    ModUnique(0, 0, 0, q);
    ghost var rc := Times(r, c);
    assert forall m :: top < m < |c| ==> rc[m] == 0;
    var j := top;
    while j >= 0
      invariant -1 <= j <= top && |d| == |c| && Reduced(d, q)
      invariant forall m :: top + 1 < m < |c| ==> d[m] == 0
      invariant forall m :: j + 1 < m < |c| ==> Cong(d[m], c[m - 1] - rc[m], q)
      invariant Cong(d[j + 1], -rc[j + 1], q)
      invariant forall m :: 0 <= m <= j ==> d[m] == 0
    {
      ModIsCong(d[j + 1] + c[j], q);
      CongAdd(d[j + 1], -rc[j + 1], c[j], c[j], q);
      d := d[j + 1 := (d[j + 1] + c[j]) % q];
      var tmp := (r * c[j]) % q;
      ModIsCong(rc[j], q);
      ModIsCong(d[j] - tmp, q);
      CongSub(0, 0, tmp, rc[j], q);
      d := d[j := (d[j] - tmp) % q];
      j := j - 1;
    }
  }

  ghost predicate IsScaledBasis(c: seq<int>, inv: int, p: seq<int>, q: nat)
    requires q > 0
  {
    |p| <= |c| && forall m :: 0 <= m < |c| ==> Cong(c[m], inv * Coef(p, m), q)
  }

  lemma ScaledBasisStep(c: seq<int>, d: seq<int>, inv: int, p: seq<int>, r: int, q: nat)
    requires q > 0 && IsScaledBasis(c, inv, p, q) && |p| < |c| == |d|
    requires forall m :: 0 <= m < |c| ==> Cong(d[m], Coef(c, m - 1) - Times(r, c)[m], q)
    ensures IsScaledBasis(d, inv, MulLinear(p, r), q)
  {
    forall m | 0 <= m < |c| ensures Cong(d[m], inv * Coef(MulLinear(p, r), m), q) {
      CoefMulLinear(p, r, m);
      assert inv * 0 == 0;
      var a, b := Coef(p, m - 1), Coef(p, m);
      assert Cong(Coef(c, m - 1), inv * a, q) && Cong(c[m], inv * b, q);
      CongMul(r, r, c[m], inv * b, q);
      CongSub(Coef(c, m - 1), inv * a, r * c[m], r * (inv * b), q);
      ScaledDifference(inv, a, r, b);
    }
  }

  lemma ScaledDifference(i: int, a: int, r: int, b: int)
    ensures i * a - r * (i * b) == i * (a - r * b)
  {
  }

  /** Coefficients of the i-th basis polynomial; none when its denominator has no inverse. */
  method InterpolationPoly(q: nat, points: seq<Sample>, i: nat) returns (res: Option<seq<int>>)
    requires IsPrime(q) && i < |points|
    ensures res.None? <==> exists j :: 0 <= j < |points| && j != i && Cong(points[i].x, points[j].x, q)
    ensures res.Some? ==>
      var xs, xi := Xs(points), points[i].x;
      |res.value| == |points| && IsScaledBasis(res.value, InvOrZero(Num(xs, xi, xi), q), NumPoly(xs, xi), q)
  {
    ghost var xs, xi := Xs(points), points[i].x;
    assert forall j :: 0 <= j < |xs| ==> xs[j] == points[j].x;
    var d := Denominator(q, points, i);
    var inv := ModInverse(d, q);
    NumButZero(xs, i, xi, q);
    InverseExists(d, q);
    ModIsCong(NumBut(xs, i, xi), q);
    if inv.None? {
      assert exists j :: 0 <= j < |xs| && j != i && Cong(xi, xs[j], q);
      return None;
    }
    assert forall j :: 0 <= j < |xs| && j != i ==> !Cong(xi, xs[j], q);
    NumButIsNum(xs, xi, i, xi);
    InvOrZeroMod(Num(xs, xi, xi), q);
    var c := BasisPoly(q, points, i, inv.value);
    res := Some(c);
  }

  /** inv times the product of (X - x) over the other points. */
  method BasisPoly(q: nat, points: seq<Sample>, i: nat, inv: nat) returns (c: seq<int>)
    requires q > 0 && i < |points|
    requires forall j :: 0 <= j < |points| ==> (points[j].x == points[i].x <==> j == i)
    ensures |c| == |points| && IsScaledBasis(c, inv, NumPoly(Xs(points), points[i].x), q)
  {
    var n := |points|;
    ghost var xs, xi := Xs(points), points[i].x;
    c := [inv] + seq(n - 1, _ => 0);
    assert xs[..0] == [] && inv * 1 == inv && inv * 0 == 0;
    assert IsScaledBasis(c, inv, NumPoly(xs[..0], xi), q);
    for k := 0 to n
      invariant |c| == n
      invariant IsScaledBasis(c, inv, NumPoly(xs[..k], xi), q)
      invariant forall m :: |NumPoly(xs[..k], xi)| <= m < n ==> c[m] == 0
    {
      assert xs[..k + 1][..k] == xs[..k];
      NumPolyLength(xs[..k], xi, i);
      if k != i {
        var top := (if k < i then k + 1 else k) - 1;
        var c' := TimesLinear(q, c, top, points[k].x);
        ScaledBasisStep(c, c', inv, NumPoly(xs[..k], xi), xs[k], q);
        c := c';
      }
    }
    assert xs[..n] == xs;
  }

  lemma InvOrZeroMod(a: int, q: nat)
    requires q >= 2
    ensures InvOrZero(a % q, q) == InvOrZero(a, q)
  {
    ModIsCong(a, q);
    ModUnique(a % q, 0, a % q, q);
  }

  method Accumulate(q: nat, poly: seq<int>, y: int, c: seq<int>) returns (d: seq<int>)
    requires q > 0 && |poly| == |c|
    ensures |d| == |c| && Reduced(d, q)
    ensures forall m :: 0 <= m < |c| ==> Cong(d[m], poly[m] + y * c[m], q)
  {
    d := [];
    for k := 0 to |c|
      invariant |d| == k && Reduced(d, q)
      invariant forall m :: 0 <= m < k ==> Cong(d[m], poly[m] + y * c[m], q)
    {
      ModIsCong(poly[k] + y * c[k], q);
      d := d + [(poly[k] + y * c[k]) % q];
    }
  }

  lemma AccumulateBasis(q: nat, xs: seq<int>, ys: seq<int>, i: nat, p: seq<int>, d: seq<int>, c: seq<int>)
    requires IsPrime(q) && |xs| == |ys| == |c| && i < |xs| && DistinctMod(xs, q)
    requires CongSeq(p, InterpUpTo(q, xs, ys, i), q) && |d| == |c|
    requires IsScaledBasis(c, InvOrZero(Num(xs, xs[i], xs[i]), q), NumPoly(xs, xs[i]), q)
    requires forall m :: 0 <= m < |c| ==> Cong(d[m], p[m] + ys[i] * c[m], q)
    ensures CongSeq(d, InterpUpTo(q, xs, ys, i + 1), q)
  {
    var a, b := InterpUpTo(q, xs, ys, i), InterpUpTo(q, xs, ys, i + 1);
    var w, t := InvOrZero(Num(xs, xs[i], xs[i]), q), NumPoly(xs, xs[i]);
    DistinctValues(xs, i, q);
    NumPolyLength(xs, xs[i], i);
    assert b == AddScaled(a, ys[i] * w, t);
    forall m | 0 <= m < |d| ensures Cong(d[m], b[m], q) {
      assert Cong(c[m], w * Coef(t, m), q) && Cong(p[m], a[m], q);
      CongMul(ys[i], ys[i], c[m], w * t[m], q);
      CongAdd(p[m], a[m], ys[i] * c[m], ys[i] * (w * t[m]), q);
      MulAssoc(ys[i], w, t[m]);
    }
  }

  lemma MulAssoc(a: int, b: int, c: int)
    ensures a * (b * c) == a * b * c
  {
  }

  /** The weighted sum of the basis polynomials, stopping at a denominator without inverse. */
  method WeightedBasisSum(q: nat, points: seq<Sample>) returns (res: Option<seq<int>>)
    requires IsPrime(q)
    ensures res.Some? <==> DistinctMod(Xs(points), q)
    ensures res.Some? ==>
      Reduced(res.value, q) && CongSeq(res.value, InterpUpTo(q, Xs(points), Ys(points), |points|), q)
  {
    var n := |points|;
    ghost var xs, ys := Xs(points), Ys(points);
    var poly := seq(n, _ => 0);
    assert Zeros(n) == poly;
    for i := 0 to n
      invariant |poly| == n && Reduced(poly, q)
      invariant forall a, b :: 0 <= a < i && a < b < n ==> !Cong(xs[a], xs[b], q)
      invariant DistinctMod(xs, q) ==> CongSeq(poly, InterpUpTo(q, xs, ys, i), q)
    {
      var c := InterpolationPoly(q, points, i);
      if c.None? {
        assert forall j :: 0 <= j < n ==> xs[j] == points[j].x;
        return None;
      }
      ghost var before := poly;
      poly := Accumulate(q, poly, points[i].y, c.value);
      if DistinctMod(xs, q) {
        AccumulateBasis(q, xs, ys, i, before, poly, c.value);
      }
      forall b | i < b < n ensures !Cong(xs[i], xs[b], q) {
        assert xs[b] == points[b].x;
      }
    }
    res := Some(poly);
  }

  /** `LagrangeInterpolatePolynomial`: fails exactly when two X coordinates agree modulo q. */
  method LagrangeInterpolatePolynomial(q: nat, unsorted: seq<Sample>) returns (res: Option<seq<int>>)
    requires IsPrime(q)
    ensures res.Some? <==> DistinctMod(Xs(unsorted), q)
    ensures res.Some? ==> Interpolates(res.value, unsorted, q)
  {
    var points := SortByX(unsorted);
    DistinctSort(unsorted, q);
    res := WeightedBasisSum(q, points);
    if res.Some? {
      InterpThrough(q, points);
      ThroughCong(res.value, InterpUpTo(q, Xs(points), Ys(points), |points|), points, unsorted, q);
    }
  }

  lemma ThroughCong(p: seq<int>, r: seq<int>, pts: seq<Sample>, pts': seq<Sample>, q: nat)
    requires q > 0 && CongSeq(p, r, q) && Through(r, pts, q) && multiset(pts') == multiset(pts)
    ensures Through(p, pts', q)
  {
    forall i | 0 <= i < |pts'| ensures Cong(Eval(p, pts'[i].x), pts'[i].y, q) {
      assert pts'[i] in multiset(pts');
      var j :| 0 <= j < |pts| && pts[j] == pts'[i];
      EvalCong(p, r, pts[j].x, pts[j].x, q);
    }
  }

  // ----- LagrangeScalar

  /** The quotient of products computed for one holder, shared by the scalar and the point form. */
  method LagrangeCoefficient(q: nat, indexes: seq<int>, index: int, target: int) returns (lambda: nat)
    requires q >= 2
    ensures lambda == Lambda(q, indexes, index, target) % q
  {
    var upper, lower := 1, 1;
    for j := 0 to |indexes|
      invariant Cong(upper, Num(indexes[..j], index, target), q)
      invariant Cong(lower, Num(indexes[..j], index, index), q)
    {
      assert indexes[..j + 1][..j] == indexes[..j];
      if indexes[j] != index {
        var x := indexes[j];
        CongMul(upper, Num(indexes[..j], index, target), target - x, target - x, q);
        ModIsCong(upper * (target - x), q);
        upper := (upper * (target - x)) % q;
        var tempLower := (index - x) % q;
        ModIsCong(index - x, q);
        CongMul(lower, Num(indexes[..j], index, index), tempLower, index - x, q);
        ModIsCong(lower * tempLower, q);
        lower := (lower * tempLower) % q;
      }
    }
    assert indexes[..|indexes|] == indexes;
    var inv := InvOrZero(lower, q);
    InvOrZeroMod(lower, q);
    InvOrZeroMod(Num(indexes, index, index), q);
    CongMul(upper, Num(indexes, index, target), inv, inv, q);
    ModIsCong(upper * inv, q);
    lambda := (upper * inv) % q;
  }

  /** `LagrangeScalar`, and `LagrangeScalarCP` which only repacks its points. */
  method LagrangeScalar(q: nat, shares: seq<Sample>, target: int) returns (secret: int)
    requires q >= 2
    ensures secret == Dot(Lambdas(q, Xs(shares), target), Ys(shares)) % q
  {
    var xs := Xs(shares);
    ghost var ys, ls := Ys(shares), Lambdas(q, Xs(shares), target);
    secret := 0;
    for i := 0 to |shares|
      invariant Cong(secret, Dot(ls[..i], ys[..i]), q)
    {
      var lambda := LagrangeCoefficient(q, xs, shares[i].x, target);
      var delta := (shares[i].y * lambda) % q;
      ModIsCong(ls[i], q);
      ModIsCong(shares[i].y * lambda, q);
      CongMul(lambda, ls[i], ys[i], ys[i], q);
      assert shares[i].y * lambda == lambda * ys[i];
      CongAdd(secret, Dot(ls[..i], ys[..i]), delta, ls[i] * ys[i], q);
      DotSnoc(ls, ys, i);
      secret := secret + delta;
    }
    assert ls[..|ls|] == ls && ys[..|ys|] == ys;
    secret := secret % q;
  }

  /** `LagrangeScalar` gives the value at the target of any short enough polynomial through the shares. */
  lemma LagrangeScalarMeaning(q: nat, shares: seq<Sample>, target: int, f: seq<int>)
    requires IsPrime(q) && DistinctMod(Xs(shares), q) && |f| <= |shares| && Through(f, shares, q)
    ensures Dot(Lambdas(q, Xs(shares), target), Ys(shares)) % q == Eval(f, target) % q
  {
    LagrangeReproduces(q, f, shares, target);
  }

  /** The two interpolation routines agree: the scalar at the target is the interpolant evaluated there. */
  lemma ScalarAgreesWithPolynomial(q: nat, shares: seq<Sample>, target: int, r: seq<int>)
    requires IsPrime(q) && DistinctMod(Xs(shares), q) && Interpolates(r, shares, q)
    ensures Dot(Lambdas(q, Xs(shares), target), Ys(shares)) % q == Eval(r, target) % q
  {
    LagrangeReproduces(q, r, shares, target);
  }

  function Sum(s: seq<int>): int {
    if s == [] then 0 else Sum(s[..|s| - 1]) + s[|s| - 1]
  }

  method SumScalars(q: nat, scalars: seq<int>) returns (sum: int)
    requires q > 0
    ensures sum == Sum(scalars) % q
  {
    sum := 0;
    for i := 0 to |scalars|
      invariant sum == Sum(scalars[..i])
    {
      assert scalars[..i + 1][..i] == scalars[..i];
      sum := sum + scalars[i];
    }
    assert scalars[..|scalars|] == scalars;
    sum := sum % q;
  }

  // ----- the point forms

  /** `LagrangePolys`: the combination, at 0, of the polynomials of the listed holders. */
  method LagrangePolys<P(!new)>(g: Group<P>, indexes: seq<int>, polys: seq<seq<P>>) returns (res: seq<P>)
    requires Laws(g)
    requires |indexes| == |polys| ==> forall i :: 0 <= i < |polys| ==> |polys[0]| <= |polys[i]|
    ensures polys == [] || |indexes| != |polys| ==> res == []
    ensures polys != [] && |indexes| == |polys| ==>
      res == CombinePolys(g, Lambdas(g.q, indexes, 0), polys, |polys[0]|)
  {
    res := [];
    if |polys| == 0 || |indexes| != |polys| {
      return;
    }
    ghost var ls := Lambdas(g.q, indexes, 0);
    for l := 0 to |polys[0]|
      invariant |res| == l
      invariant forall m :: 0 <= m < l ==> res[m] == LinComb(g, ls, Column(polys, m))
    {
      var sum := g.zero;
      ghost var col := Column(polys, l);
      for j := 0 to |indexes|
        invariant sum == LinComb(g, ls[..j], col[..j])
      {
        var lambda := LagrangeCoefficient(g.q, indexes, indexes[j], 0);
        ModIsCong(ls[j], g.q);
        MulCong(g, lambda, ls[j], polys[j][l]);
        assert ls[..j + 1][..j] == ls[..j] && col[..j + 1][..j] == col[..j];
        sum := g.add(g.mul(lambda, polys[j][l]), sum);
      }
      assert ls[..|ls|] == ls && col[..|col|] == col;
      res := res + [sum];
    }
    assert res == CombinePolys(g, ls, polys, |polys[0]|);
  }

  /** `LagrangeCurvePts`: the combined point at 0; no result where the code indexes an empty slice. */
  method LagrangeCurvePts<P(!new)>(g: Group<P>, indexes: seq<int>, points: seq<P>) returns (res: Option<P>)
    requires Laws(g)
    ensures res == if points == [] || |indexes| != |points| then None
                   else Some(LinComb(g, Lambdas(g.q, indexes, 0), points))
  {
    var sm: seq<seq<P>> := [];
    for i := 0 to |points|
      invariant |sm| == i && forall m :: 0 <= m < i ==> sm[m] == [points[m]]
    {
      sm := sm + [[points[i]]];
    }
    var poly := LagrangePolys(g, indexes, sm);
    if |poly| == 0 {
      return None;
    }
    assert Column(sm, 0) == points;
    res := Some(poly[0]);
  }

  function Ones(n: nat): (r: seq<int>)
    ensures |r| == n
  {
    seq(n, _ => 1)
  }

  /** `AddCommitments`: the sum, coefficient by coefficient. */
  method AddCommitments<P(!new)>(g: Group<P>, commitments: seq<seq<P>>) returns (res: seq<P>)
    requires Laws(g) && commitments != []
    requires forall i :: 0 <= i < |commitments| ==> |commitments[0]| <= |commitments[i]|
    ensures res == CombinePolys(g, Ones(|commitments|), commitments, |commitments[0]|)
  {
    res := [];
    ghost var ones := Ones(|commitments|);
    for i := 0 to |commitments[0]|
      invariant |res| == i
      invariant forall m :: 0 <= m < i ==> res[m] == LinComb(g, ones, Column(commitments, m))
    {
      ghost var col := Column(commitments, i);
      var sum := g.zero;
      for j := 0 to |commitments|
        invariant sum == LinComb(g, ones[..j], col[..j])
      {
        assert ones[..j + 1][..j] == ones[..j] && col[..j + 1][..j] == col[..j];
        MulUnits(g, commitments[j][i]);
        AddComm(g, sum, commitments[j][i]);
        sum := g.add(sum, commitments[j][i]);
      }
      assert ones[..|ones|] == ones && col[..|col|] == col;
      res := res + [sum];
    }
    assert res == CombinePolys(g, ones, commitments, |commitments[0]|);
  }
}
