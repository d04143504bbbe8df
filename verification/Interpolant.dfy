/** Interpolation of the points a node has collected in a map from sender index to value. */
module Interpolant {
  import opened Modular
  import opened Sets
  import opened Polynomials
  import opened Lagrange

  ghost predicate Keyed(m: map<int, int>, q: nat) {
    forall x :: x in m ==> 0 < x < q
  }

  ghost predicate FitsMap(r: seq<int>, m: map<int, int>, q: nat)
    requires q > 0
  {
    |r| == |m| && Reduced(r, q) && forall x :: x in m ==> Cong(Eval(r, x), m[x], q)
  }

  /** pts lists every entry of m once, in some order: what ranging over a Go map yields. */
  ghost predicate Enumerates(pts: seq<Sample>, m: map<int, int>) {
    && |pts| == |m|
    && (forall i :: 0 <= i < |pts| ==> pts[i].x in m && m[pts[i].x] == pts[i].y)
    && (forall i, j :: 0 <= i < j < |pts| ==> pts[i].x != pts[j].x)
  }

  lemma EnumerationIsDistinct(pts: seq<Sample>, m: map<int, int>, q: nat)
    requires q > 0 && Keyed(m, q) && Enumerates(pts, m)
    ensures DistinctMod(Xs(pts), q)
  {
    forall i, j | 0 <= i < j < |pts| ensures !Cong(Xs(pts)[i], Xs(pts)[j], q) {
      if Cong(pts[i].x, pts[j].x, q) {
        ReducedUnique(pts[i].x, pts[j].x, q);
      }
    }
  }

  lemma {:induction false} EnumerationCovers(pts: seq<Sample>, m: map<int, int>)
    requires Enumerates(pts, m)
    ensures forall x :: x in m ==> Sample(x, m[x]) in pts
    decreases |pts|
  {
    if pts != [] {
      var n := |pts| - 1;
      var m' := m - {pts[n].x};
      assert m'.Keys == m.Keys - {pts[n].x};
      assert |m'.Keys| == |m.Keys| - 1;
      EnumerationCovers(pts[..n], m');
      forall x | x in m ensures Sample(x, m[x]) in pts {
        if x != pts[n].x {
          assert x in m' && Sample(x, m'[x]) in pts[..n];
        } else {
          assert pts[n] == Sample(x, m[x]);
        }
      }
    } else {
      assert m.Keys == {};
    }
  }

  ghost function Enumerate(m: map<int, int>): (pts: seq<Sample>)
    ensures Enumerates(pts, m)
    decreases |m|
  {
    if |m| == 0 then []
    else
      var x := Pick(m.Keys);
      var m' := m - {x};
      assert m'.Keys == m.Keys - {x} && |m'.Keys| == |m.Keys| - 1;
      Enumerate(m') + [Sample(x, m[x])]
  }

  /** Whatever the iteration order, the interpolant of the entries fits the map ... */
  lemma InterpolantFits(r: seq<int>, pts: seq<Sample>, m: map<int, int>, q: nat)
    requires q > 0 && Enumerates(pts, m) && Interpolates(r, pts, q)
    ensures FitsMap(r, m, q)
  {
    EnumerationCovers(pts, m);
    forall x | x in m ensures Cong(Eval(r, x), m[x], q) {
      var i :| 0 <= i < |pts| && pts[i] == Sample(x, m[x]);
      assert Cong(Eval(r, pts[i].x), pts[i].y, q);
    }
  }

  /** ... and only one polynomial fits it. */
  lemma FitUnique(r: seq<int>, r': seq<int>, m: map<int, int>, q: nat)
    requires IsPrime(q) && Keyed(m, q) && FitsMap(r, m, q) && FitsMap(r', m, q)
    ensures r == r'
  {
    var pts := Enumerate(m);
    EnumerationIsDistinct(pts, m, q);
    InterpolantUnique(pts, pts, r, r', q);
  }

  lemma FitExists(m: map<int, int>, q: nat)
    requires IsPrime(q) && Keyed(m, q)
    ensures exists r :: FitsMap(r, m, q)
  {
    var pts := Enumerate(m);
    EnumerationIsDistinct(pts, m, q);
    var p := InterpUpTo(q, Xs(pts), Ys(pts), |pts|);
    InterpThrough(q, pts);
    var r := seq(|p|, i requires 0 <= i < |p| => p[i] % q);
    forall i | 0 <= i < |p| ensures 0 <= r[i] < q && Cong(r[i], p[i], q) {
      ModIsCong(p[i], q);
    }
    forall i | 0 <= i < |pts| ensures Cong(Eval(r, pts[i].x), pts[i].y, q) {
      EvalCong(r, p, pts[i].x, pts[i].x, q);
    }
    InterpolantFits(r, pts, m, q);
  }

  /** The polynomial a node gets from the points it holds; nothing where interpolation would fail. */
  ghost function Fit(q: nat, m: map<int, int>): seq<int> {
    if q > 0 && exists r :: FitsMap(r, m, q) then
      var r :| FitsMap(r, m, q);
      r
    else []
  }

  lemma FitFits(q: nat, m: map<int, int>)
    requires IsPrime(q) && Keyed(m, q)
    ensures FitsMap(Fit(q, m), m, q)
  {
    FitExists(m, q);
  }

  /** Points on a polynomial of length at most their number fit to it, with zeros above. */
  lemma FitOfShortPoly(q: nat, m: map<int, int>, f: seq<int>)
    requires IsPrime(q) && Keyed(m, q) && |f| <= |m|
    requires forall x :: x in m ==> Cong(Eval(f, x), m[x], q)
    ensures |f| <= |Fit(q, m)| && CongSeq(Fit(q, m)[..|f|], f, q)
    ensures forall j :: |f| <= j < |Fit(q, m)| ==> Fit(q, m)[j] == 0
  {
    FitFits(q, m);
    var pts := Enumerate(m);
    EnumerationIsDistinct(pts, m, q);
    InterpolantOfShortPoly(f, pts, Fit(q, m), q);
  }

  /** The fit interpolates the entries, in any order. */
  lemma FitInterpolates(q: nat, m: map<int, int>, pts: seq<Sample>)
    requires IsPrime(q) && Keyed(m, q) && Enumerates(pts, m)
    ensures Interpolates(Fit(q, m), pts, q)
  {
    FitFits(q, m);
    forall i | 0 <= i < |pts| ensures Cong(Eval(Fit(q, m), pts[i].x), pts[i].y, q) {
      assert pts[i].x in m;
    }
  }
}
