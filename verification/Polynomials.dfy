/** Polynomials with scalar or point coefficients, and Lagrange interpolation over Z modulo a prime. */
module Polynomials {
  import opened Modular
  import opened Curve

  // ----- evaluation

  function Eval(p: seq<int>, x: int): int {
    if p == [] then 0 else p[0] + x * Eval(p[1..], x)
  }

  function PointEval<P>(g: Group<P>, p: seq<P>, x: int): P {
    if p == [] then g.zero else g.add(p[0], g.mul(x, PointEval(g, p[1..], x)))
  }

  function Pow(x: int, n: nat): int {
    if n == 0 then 1 else Pow(x, n - 1) * x
  }

  /** Coefficients equal modulo q. */
  ghost predicate CongSeq(a: seq<int>, b: seq<int>, q: nat)
    requires q > 0
  {
    |a| == |b| && forall i :: 0 <= i < |a| ==> Cong(a[i], b[i], q)
  }

  ghost predicate DistinctMod(xs: seq<int>, q: nat)
    requires q > 0
  {
    forall i, j :: 0 <= i < j < |xs| ==> !Cong(xs[i], xs[j], q)
  }

  lemma {:induction false} EvalSnoc(p: seq<int>, c: int, x: int)
    ensures Eval(p + [c], x) == Eval(p, x) + c * Pow(x, |p|)
  {
    if p == [] {
      assert p + [c] == [c] && [c][1..] == [];
    } else {
      var t := p[1..];
      assert (p + [c])[1..] == t + [c];
      EvalSnoc(t, c, x);
      assert x * (Eval(t, x) + c * Pow(x, |t|)) == x * Eval(t, x) + c * (Pow(x, |t|) * x);
    }
  }

  lemma {:induction false} EvalCong(p: seq<int>, r: seq<int>, x: int, y: int, q: nat)
    requires q > 0 && CongSeq(p, r, q) && Cong(x, y, q)
    ensures Cong(Eval(p, x), Eval(r, y), q)
  {
    if p != [] {
      EvalCong(p[1..], r[1..], x, y, q);
      CongMul(x, y, Eval(p[1..], x), Eval(r[1..], y), q);
      CongAdd(p[0], r[0], x * Eval(p[1..], x), y * Eval(r[1..], y), q);
    }
  }

  function Zeros(n: nat): (z: seq<int>)
    ensures |z| == n
  {
    seq(n, _ => 0)
  }

  /** Zero coefficients at the top change nothing. */
  lemma {:induction false} EvalPad(p: seq<int>, n: nat, x: int)
    ensures Eval(p + Zeros(n), x) == Eval(p, x)
  {
    if n == 0 {
      assert p + Zeros(0) == p;
    } else {
      assert p + Zeros(n) == (p + Zeros(n - 1)) + [0];
      EvalSnoc(p + Zeros(n - 1), 0, x);
      EvalPad(p, n - 1, x);
    }
  }

  /** a + c * b, coefficient by coefficient. */
  function AddScaled(a: seq<int>, c: int, b: seq<int>): (r: seq<int>)
    requires |a| == |b|
    ensures |r| == |a|
  {
    seq(|a|, i requires 0 <= i < |a| => a[i] + c * b[i])
  }

  lemma {:induction false} EvalAddScaled(a: seq<int>, c: int, b: seq<int>, x: int)
    requires |a| == |b|
    ensures Eval(AddScaled(a, c, b), x) == Eval(a, x) + c * Eval(b, x)
  {
    if a != [] {
      EvalAddScaled(a[1..], c, b[1..], x);
      assert AddScaled(a, c, b)[1..] == AddScaled(a[1..], c, b[1..]);
      HornerSum(a[0], b[0], Eval(a[1..], x), Eval(b[1..], x), c, x);
    }
  }

  lemma HornerSum(a: int, b: int, u: int, v: int, c: int, x: int)
    ensures a + c * b + x * (u + c * v) == a + x * u + c * (b + x * v)
  {
  }

  // ----- a polynomial with more roots than its degree is zero

  /** Quotient of p by (X - r). */
  function DivLinear(p: seq<int>, r: int): (d: seq<int>)
    requires p != []
    ensures |d| == |p| - 1
  {
    if |p| == 1 then [] else [Eval(p[1..], r)] + DivLinear(p[1..], r)
  }

  lemma {:induction false} DivLinearEval(p: seq<int>, r: int, x: int)
    requires p != []
    ensures Eval(p, x) == (x - r) * Eval(DivLinear(p, r), x) + Eval(p, r)
  {
    if |p| > 1 {
      var t := p[1..];
      DivLinearEval(t, r, x);
      assert DivLinear(p, r)[1..] == DivLinear(t, r);
      var d, s := Eval(DivLinear(t, r), x), Eval(t, r);
      assert x * ((x - r) * d + s) == (x - r) * (s + x * d) + r * s;
    } else {
      assert p[1..] == [];
    }
  }

  lemma {:induction false} ZeroQuotient(p: seq<int>, r: int, q: nat)
    requires q > 0 && p != [] && Cong(Eval(p, r), 0, q)
    requires forall j :: 0 <= j < |p| - 1 ==> Cong(DivLinear(p, r)[j], 0, q)
    ensures forall j :: 0 <= j < |p| ==> Cong(p[j], 0, q)
  {
    var t := p[1..];
    if |p| == 1 {
      assert t == [] && r * Eval(t, r) == 0;
    } else {
      assert Eval(t, r) == DivLinear(p, r)[0];
      CongMul(r, r, Eval(t, r), 0, q);
      CongSub(Eval(p, r), 0, r * Eval(t, r), 0, q);
      forall j | 0 <= j < |t| - 1 ensures Cong(DivLinear(t, r)[j], 0, q) {
        assert DivLinear(t, r)[j] == DivLinear(p, r)[j + 1];
      }
      ZeroQuotient(t, r, q);
      assert forall j :: 1 <= j < |p| ==> p[j] == t[j - 1];
    }
  }

  lemma {:induction false} TooManyRoots(p: seq<int>, xs: seq<int>, q: nat)
    requires IsPrime(q) && |p| <= |xs| && DistinctMod(xs, q)
    requires forall i :: 0 <= i < |xs| ==> Cong(Eval(p, xs[i]), 0, q)
    ensures forall j :: 0 <= j < |p| ==> Cong(p[j], 0, q)
    decreases |p|
  {
    if p != [] {
      var r, d := xs[0], DivLinear(p, xs[0]);
      forall i | 1 <= i < |xs| ensures Cong(Eval(d, xs[i]), 0, q) {
        DivLinearEval(p, r, xs[i]);
        CongSub(Eval(p, xs[i]), 0, Eval(p, r), 0, q);
        ProductZero(xs[i] - r, Eval(d, xs[i]), q);
        CongZero(xs[i], r, q);
      }
      TooManyRoots(d, xs[1..], q);
      ZeroQuotient(p, r, q);
    }
  }

  /** Two polynomials of length n that agree at n distinct places have the same coefficients. */
  lemma UniqueThrough(p: seq<int>, r: seq<int>, xs: seq<int>, q: nat)
    requires IsPrime(q) && |p| == |r| <= |xs| && DistinctMod(xs, q)
    requires forall i :: 0 <= i < |xs| ==> Cong(Eval(p, xs[i]), Eval(r, xs[i]), q)
    ensures CongSeq(p, r, q)
  {
    var d := AddScaled(p, -1, r);
    forall i | 0 <= i < |xs| ensures Cong(Eval(d, xs[i]), 0, q) {
      EvalAddScaled(p, -1, r, xs[i]);
      CongZero(Eval(p, xs[i]), Eval(r, xs[i]), q);
    }
    TooManyRoots(d, xs, q);
    forall i | 0 <= i < |p| ensures Cong(p[i], r[i], q) {
      assert Cong(d[i], 0, q);
      CongZero(p[i], r[i], q);
    }
  }

  // ----- the same for point coefficients

  function PointDiv<P>(g: Group<P>, p: seq<P>, r: int): (d: seq<P>)
    requires p != []
    ensures |d| == |p| - 1
  {
    if |p| == 1 then [] else [PointEval(g, p[1..], r)] + PointDiv(g, p[1..], r)
  }

  lemma {:induction false} PointDivEval<P(!new)>(g: Group<P>, p: seq<P>, r: int, x: int)
    requires Laws(g) && p != []
    ensures PointEval(g, p, x)
            == g.add(g.mul(x - r, PointEval(g, PointDiv(g, p, r), x)), PointEval(g, p, r))
  {
    if |p| > 1 {
      var t := p[1..];
      PointDivEval(g, t, r, x);
      assert PointDiv(g, p, r)[1..] == PointDiv(g, t, r);
      var d, s := PointEval(g, PointDiv(g, t, r), x), PointEval(g, t, r);
      HornerStep(g, p[0], x, r, d, s);
    } else {
      assert p[1..] == [];
      MulZero(g, x);
      MulZero(g, r);
      MulZero(g, x - r);
      AddZero(g, PointEval(g, p, r));
    }
  }

  /** a + x((x-r)d + s) = (x-r)(s + xd) + (a + rs) */
  lemma HornerStep<P(!new)>(g: Group<P>, a: P, x: int, r: int, d: P, s: P)
    requires Laws(g)
    ensures g.add(a, g.mul(x, g.add(g.mul(x - r, d), s)))
            == g.add(g.mul(x - r, g.add(s, g.mul(x, d))), g.add(a, g.mul(r, s)))
  {
    var u, v, w := g.mul(x * (x - r), d), g.mul(x - r, s), g.mul(r, s);
    MulDistributes(g, x, g.mul(x - r, d), s);
    MulMul(g, x, x - r, d);
    MulAdd(g, x - r, r, s);
    assert g.mul(x, s) == g.add(v, w);
    MulDistributes(g, x - r, s, g.mul(x, d));
    assert x * (x - r) == (x - r) * x;
    MulMul(g, x - r, x, d);
    assert g.add(g.mul(x - r, g.add(s, g.mul(x, d))), g.add(a, w)) == g.add(g.add(v, u), g.add(a, w));
    assert g.add(a, g.mul(x, g.add(g.mul(x - r, d), s))) == g.add(a, g.add(u, g.add(v, w)));
    AddAssoc(g, u, v, w);
    AddComm(g, u, v);
    AddAssoc(g, a, g.add(v, u), w);
    AddComm(g, a, g.add(v, u));
    AddAssoc(g, g.add(v, u), a, w);
  }

  lemma {:induction false} PointZeroQuotient<P(!new)>(g: Group<P>, p: seq<P>, r: int)
    requires Laws(g) && p != [] && PointEval(g, p, r) == g.zero
    requires forall j :: 0 <= j < |p| - 1 ==> PointDiv(g, p, r)[j] == g.zero
    ensures forall j :: 0 <= j < |p| ==> p[j] == g.zero
  {
    var t := p[1..];
    if |p| == 1 {
      assert t == [];
    } else {
      assert PointEval(g, t, r) == PointDiv(g, p, r)[0];
      forall j | 0 <= j < |t| - 1 ensures PointDiv(g, t, r)[j] == g.zero {
        assert PointDiv(g, t, r)[j] == PointDiv(g, p, r)[j + 1];
      }
      PointZeroQuotient(g, t, r);
      assert forall j :: 1 <= j < |p| ==> p[j] == t[j - 1];
    }
    MulZero(g, r);
    AddZero(g, p[0]);
  }

  lemma {:induction false} PointTooManyRoots<P(!new)>(g: Group<P>, p: seq<P>, xs: seq<int>)
    requires Laws(g) && |p| <= |xs| && DistinctMod(xs, g.q)
    requires forall i :: 0 <= i < |xs| ==> PointEval(g, p, xs[i]) == g.zero
    ensures forall j :: 0 <= j < |p| ==> p[j] == g.zero
    decreases |p|
  {
    if p != [] {
      var r, d := xs[0], PointDiv(g, p, xs[0]);
      forall i | 1 <= i < |xs| ensures PointEval(g, d, xs[i]) == g.zero {
        PointDivEval(g, p, r, xs[i]);
        AddZero(g, g.mul(xs[i] - r, PointEval(g, d, xs[i])));
        CongZero(xs[i], r, g.q);
        MulCancel(g, xs[i] - r, PointEval(g, d, xs[i]));
      }
      PointTooManyRoots(g, d, xs[1..]);
      PointZeroQuotient(g, p, r);
    }
  }

  /** u + c * v, point by point. */
  function PointsAddScaled<P>(g: Group<P>, u: seq<P>, c: int, v: seq<P>): (r: seq<P>)
    requires |u| == |v|
    ensures |r| == |u|
  {
    seq(|u|, i requires 0 <= i < |u| => g.add(u[i], g.mul(c, v[i])))
  }

  lemma {:induction false} PointEvalAddScaled<P(!new)>(g: Group<P>, u: seq<P>, c: int, v: seq<P>, x: int)
    requires Laws(g) && |u| == |v|
    ensures PointEval(g, PointsAddScaled(g, u, c, v), x)
            == g.add(PointEval(g, u, x), g.mul(c, PointEval(g, v, x)))
  {
    if u == [] {
      MulZero(g, c);
      AddZero(g, g.zero);
    } else {
      PointEvalAddScaled(g, u[1..], c, v[1..], x);
      assert PointsAddScaled(g, u, c, v)[1..] == PointsAddScaled(g, u[1..], c, v[1..]);
      var a, b := PointEval(g, u[1..], x), PointEval(g, v[1..], x);
      MulDistributes(g, x, a, g.mul(c, b));
      MulMul(g, x, c, b);
      assert x * c == c * x;
      MulMul(g, c, x, b);
      MulDistributes(g, c, v[0], g.mul(x, b));
      AddSwap(g, u[0], g.mul(c, v[0]), g.mul(x, a), g.mul(c, g.mul(x, b)));
    }
  }

  lemma PointUniqueThrough<P(!new)>(g: Group<P>, p: seq<P>, r: seq<P>, xs: seq<int>)
    requires Laws(g) && |p| == |r| <= |xs| && DistinctMod(xs, g.q)
    requires forall i :: 0 <= i < |xs| ==> PointEval(g, p, xs[i]) == PointEval(g, r, xs[i])
    ensures p == r
  {
    var d := PointsAddScaled(g, p, -1, r);
    forall i | 0 <= i < |xs| ensures PointEval(g, d, xs[i]) == g.zero {
      PointEvalAddScaled(g, p, -1, r, xs[i]);
      AddNeg(g, PointEval(g, p, xs[i]));
    }
    PointTooManyRoots(g, d, xs);
    forall i | 0 <= i < |p| ensures p[i] == r[i] {
      assert d[i] == g.zero;
      DiffZero(g, p[i], r[i]);
    }
  }

  function ZeroPoints<P>(g: Group<P>, n: nat): (z: seq<P>)
    ensures |z| == n
  {
    seq(n, _ => g.zero)
  }

  lemma {:induction false} PointEvalPad<P(!new)>(g: Group<P>, p: seq<P>, n: nat, x: int)
    requires Laws(g)
    ensures PointEval(g, p + ZeroPoints(g, n), x) == PointEval(g, p, x)
  {
    if p != [] {
      assert (p + ZeroPoints(g, n))[1..] == p[1..] + ZeroPoints(g, n);
      PointEvalPad(g, p[1..], n, x);
    } else if n > 0 {
      assert (p + ZeroPoints(g, n))[1..] == p + ZeroPoints(g, n - 1);
      PointEvalPad(g, p, n - 1, x);
      MulZero(g, x);
      AddZero(g, g.zero);
    }
  }

  lemma {:induction false} PointEvalCong<P(!new)>(g: Group<P>, p: seq<P>, x: int, y: int)
    requires Laws(g) && Cong(x, y, g.q)
    ensures PointEval(g, p, x) == PointEval(g, p, y)
  {
    if p != [] {
      PointEvalCong(g, p[1..], x, y);
      MulCong(g, x, y, PointEval(g, p[1..], x));
    }
  }
}
