/** What a node computes when a set of sharings is decided: a refreshed share (PSS) or a new key share (DKG). */
module Refresh {
  import opened Modular
  import opened Curve
  import opened Polynomials
  import opened Lagrange
  import opened Pvss
  import opened Avss

  /** A sharing that has ended at this node. Its share is a reduced coefficient. */
  datatype Ended<P> = Ended(dealer: int, si: nat, si': nat, cbar: Matrix<P>)

  ghost predicate Shaped<P>(es: seq<Ended<P>>, k: nat) {
    forall i :: 0 <= i < |es| ==> IsSquare(es[i].cbar, k)
  }

  function Dealers<P>(es: seq<Ended<P>>): (r: seq<int>)
    ensures |r| == |es|
  {
    seq(|es|, i requires 0 <= i < |es| => es[i].dealer)
  }

  function Shares<P>(es: seq<Ended<P>>): (r: seq<int>)
    ensures |r| == |es|
  {
    seq(|es|, i requires 0 <= i < |es| => es[i].si)
  }

  function Blinds<P>(es: seq<Ended<P>>): (r: seq<int>)
    ensures |r| == |es|
  {
    seq(|es|, i requires 0 <= i < |es| => es[i].si')
  }

  /** First columns of the commitment matrices. */
  function FirstColumns<P>(es: seq<Ended<P>>): (r: seq<seq<P>>)
    requires forall i, j :: 0 <= i < |es| && 0 <= j < |es[i].cbar| ==> |es[i].cbar[j]| > 0
    ensures |r| == |es| && forall i :: 0 <= i < |es| ==> |r[i]| == |es[i].cbar|
  {
    seq(|es|, i requires 0 <= i < |es| => Column(es[i].cbar, 0))
  }

  /** Weighted shares commit to the value of the weighted columns. */
  lemma CombinedShareOpens<P(!new)>(g: Group<P>, es: seq<Ended<P>>, cs: seq<int>, k: nat, i: int)
    requires Laws(g) && k > 0 && Shaped(es, k) && |cs| == |es|
    requires forall e :: e in es ==> ShareOk(g, e.cbar, i, e.si, e.si')
    ensures PointEval(g, CombinePolys(g, cs, FirstColumns(es), k), i) == g.Commit(Dot(cs, Shares(es)), Dot(cs, Blinds(es)))
  {
    var cols := FirstColumns(es);
    var vs := seq(|es|, d requires 0 <= d < |es| => PointEval(g, cols[d], i));
    CombineEval(g, cs, cols, k, i, vs);
    forall d | 0 <= d < |es| ensures vs[d] == g.Commit(Shares(es)[d], Blinds(es)[d]) {
      assert es[d] in es;
    }
    LinCombCommit(g, cs, Shares(es), Blinds(es), vs);
  }

  /** Combine scalar polynomials coefficient by coefficient. */
  ghost function CombineScalars(cs: seq<int>, cols: seq<seq<int>>, k: nat): (r: seq<int>)
    requires |cs| == |cols| && forall d :: 0 <= d < |cols| ==> |cols[d]| == k
    ensures |r| == k
  {
    seq(k, l requires 0 <= l < k => Dot(cs, Column(cols, l)))
  }

  lemma {:induction false} CombineScalarsEval(cs: seq<int>, cols: seq<seq<int>>, k: nat, x: int, vs: seq<int>)
    requires |cs| == |cols| == |vs|
    requires forall d :: 0 <= d < |cols| ==> |cols[d]| == k && vs[d] == Eval(cols[d], x)
    ensures Eval(CombineScalars(cs, cols, k), x) == Dot(cs, vs)
  {
    var c := CombineScalars(cs, cols, k);
    if cs == [] {
      assert c == Zeros(k);
      EvalZeros(k, x);
    } else {
      var n := |cs| - 1;
      var c' := CombineScalars(cs[..n], cols[..n], k);
      CombineScalarsEval(cs[..n], cols[..n], k, x, vs[..n]);
      forall l | 0 <= l < k ensures c[l] == c'[l] + cs[n] * cols[n][l] {
        assert Column(cols, l)[..n] == Column(cols[..n], l);
      }
      assert c == AddScaled(c', cs[n], cols[n]);
      EvalAddScaled(c', cs[n], cols[n], x);
    }
  }

  ghost function ValuesAt(cols: seq<seq<int>>, x: int): (r: seq<int>)
    ensures |r| == |cols|
  {
    seq(|cols|, d requires 0 <= d < |cols| => Eval(cols[d], x))
  }

  /** Any k combined shares of distinct nodes interpolate at 0 to the combined secrets. */
  lemma CombinedSharesInterpolate(q: nat, cs: seq<int>, cols: seq<seq<int>>, k: nat, shares: seq<Sample>)
    requires IsPrime(q) && k > 0 && |cs| == |cols| && (forall d :: 0 <= d < |cols| ==> |cols[d]| == k)
    requires k <= |shares| && DistinctMod(Xs(shares), q)
    requires forall i :: 0 <= i < |shares| ==>
      Cong(shares[i].y, Dot(cs, ValuesAt(cols, shares[i].x)), q)
    ensures Cong(Dot(Lambdas(q, Xs(shares), 0), Ys(shares)), Dot(cs, Column(cols, 0)), q)
  {
    var r := CombineScalars(cs, cols, k);
    forall i | 0 <= i < |shares| ensures Cong(Eval(r, shares[i].x), shares[i].y, q) {
      CombineScalarsEval(cs, cols, k, shares[i].x, ValuesAt(cols, shares[i].x));
    }
    LagrangeReproduces(q, r, shares, 0);
    assert Eval(r, 0) == r[0];
  }

  // ----- proactive re-sharing

  /** The shares, blinding shares, first columns and dealers of the decided sharings, in order. */
  method Line<P>(es: seq<Ended<P>>, k: nat)
    returns (abars: seq<Sample>, abars': seq<Sample>, pts: seq<seq<P>>, indexes: seq<int>)
    requires k > 0 && Shaped(es, k)
    ensures Xs(abars) == Dealers(es) && Ys(abars) == Shares(es)
    ensures Xs(abars') == Dealers(es) && Ys(abars') == Blinds(es)
    ensures pts == FirstColumns(es) && indexes == Dealers(es)
  {
    abars, abars', pts, indexes := [], [], [], [];
    for i := 0 to |es|
      invariant |abars| == |abars'| == |pts| == |indexes| == i
      invariant forall m :: 0 <= m < i ==> abars[m] == Sample(es[m].dealer, es[m].si)
      invariant forall m :: 0 <= m < i ==> abars'[m] == Sample(es[m].dealer, es[m].si')
      invariant forall m :: 0 <= m < i ==> pts[m] == Column(es[m].cbar, 0) && indexes[m] == es[m].dealer
    {
      abars := abars + [Sample(es[i].dealer, es[i].si)];
      abars' := abars' + [Sample(es[i].dealer, es[i].si')];
      indexes := indexes + [es[i].dealer];
      pts := pts + [Column(es[i].cbar, 0)];
    }
  }

  /** The record of one re-sharing at a new node, as far as `decide` updates it. */
  class Recover<P(!new,==)> {
    var si: int
    var si': int
    var vbar: seq<P>

    /** The decide step: shares are combined at 0, so are the commitments, and the two are checked
        against each other. The fields keep their new values even when the check fails. */
    method Decide(g: Group<P>, es: seq<Ended<P>>, k: nat, index: int) returns (ok: bool)
      requires Laws(g) && k > 0 && Shaped(es, k)
      modifies this
      ensures si == Dot(Lambdas(g.q, Dealers(es), 0), Shares(es)) % g.q
      ensures si' == Dot(Lambdas(g.q, Dealers(es), 0), Blinds(es)) % g.q
      ensures vbar == if es == [] then [] else CombinePolys(g, Lambdas(g.q, Dealers(es), 0), FirstColumns(es), k)
      ensures (forall e :: e in es ==> ShareOk(g, e.cbar, index, e.si, e.si')) ==> ok
      ensures ok <==> g.Commit(si, si') == PointEval(g, vbar, index)
                      || g.add(g.Commit(si, si'), PointEval(g, vbar, index)) == g.zero
    {
      var abars, abars', pts, indexes := Line(es, k);
      si := LagrangeScalar(g.q, abars, 0);
      si' := LagrangeScalar(g.q, abars', 0);
      vbar := LagrangePolys(g, indexes, pts);
      ok := VerifyShareCommitment(g, g.add(g.mul(si, g.G), g.mul(si', g.H)), vbar, index);
      if forall e :: e in es ==> ShareOk(g, e.cbar, index, e.si, e.si') {
        RefreshedShareMatchesVbar(g, es, k, index, si, si', vbar);
      }
    }
  }

  /** Shares that match their own matrices refresh to a share that matches `Vbar` exactly,
      whoever the dealers are. */
  lemma RefreshedShareMatchesVbar<P(!new)>(g: Group<P>, es: seq<Ended<P>>, k: nat, i: int, s: int, s': int, vbar: seq<P>)
    requires Laws(g) && k > 0 && Shaped(es, k)
    requires forall e :: e in es ==> ShareOk(g, e.cbar, i, e.si, e.si')
    requires s == Dot(Lambdas(g.q, Dealers(es), 0), Shares(es)) % g.q
    requires s' == Dot(Lambdas(g.q, Dealers(es), 0), Blinds(es)) % g.q
    requires vbar == if es == [] then [] else CombinePolys(g, Lambdas(g.q, Dealers(es), 0), FirstColumns(es), k)
    ensures g.Commit(s, s') == PointEval(g, vbar, i)
  {
    var cs := Lambdas(g.q, Dealers(es), 0);
    ModIsCong(Dot(cs, Shares(es)), g.q);
    ModIsCong(Dot(cs, Blinds(es)), g.q);
    CommitCong(g, s, s', Dot(cs, Shares(es)), Dot(cs, Blinds(es)));
    CombinedShareOpens(g, es, cs, k, i);
    if es == [] {
      assert CombinePolys(g, cs, FirstColumns(es), k) == [] + ZeroPoints(g, k);
      PointEvalPad(g, [], k, i);
    }
  }

  /** The constant commitment does not change: Vbar[0] is the old D[0] when every dealer's C00 is D at its index. */
  lemma VbarKeepsPublicCommitment<P(!new)>(g: Group<P>, es: seq<Ended<P>>, k: nat, d: seq<P>)
    requires Laws(g) && k > 0 && Shaped(es, k) && 0 < |d| <= |es| && DistinctMod(Dealers(es), g.q)
    requires forall e :: e in es ==> e.cbar[0][0] == PointEval(g, d, e.dealer)
    ensures CombinePolys(g, Lambdas(g.q, Dealers(es), 0), FirstColumns(es), k)[0] == d[0]
  {
    var vs := Column(FirstColumns(es), 0);
    forall i | 0 <= i < |es| ensures vs[i] == PointEval(g, d, Dealers(es)[i]) {
      assert es[i] in es;
    }
    PointReproduces(g, d, Dealers(es), 0, vs);
    assert PointEval(g, d, 0) == g.add(d[0], g.mul(0, PointEval(g, d[1..], 0)));
    MulUnits(g, PointEval(g, d[1..], 0));
    AddZero(g, d[0]);
  }

  /** Re-sharing keeps the secret. The dealers hold points of one polynomial f no longer than their number;
      dealer d shares its point with the polynomial cols[d] of length k, and node shares[i].x holds held[i][d]
      from it. Then any k of the shares that `Decide` computes interpolate at 0 to f(0). */
  lemma ResharingKeepsSecret(q: nat, f: seq<int>, dealers: seq<int>, cols: seq<seq<int>>, k: nat,
                             held: seq<seq<int>>, shares: seq<Sample>)
    requires IsPrime(q) && k > 0 && |cols| == |dealers| && DistinctMod(dealers, q) && |f| <= |dealers|
    requires forall d :: 0 <= d < |cols| ==> |cols[d]| == k && Cong(cols[d][0], Eval(f, dealers[d]), q)
    requires k <= |shares| == |held| && DistinctMod(Xs(shares), q)
    requires forall i :: 0 <= i < |held| ==> |held[i]| == |cols|
    requires forall i, d :: 0 <= i < |held| && 0 <= d < |cols| ==> Cong(held[i][d], Eval(cols[d], shares[i].x), q)
    requires forall i :: 0 <= i < |shares| ==> shares[i].y == Dot(Lambdas(q, dealers, 0), held[i]) % q
    ensures Dot(Lambdas(q, Xs(shares), 0), Ys(shares)) % q == Eval(f, 0) % q
  {
    var cs := Lambdas(q, dealers, 0);
    forall i | 0 <= i < |shares| ensures Cong(shares[i].y, Dot(cs, ValuesAt(cols, shares[i].x)), q) {
      ModIsCong(Dot(cs, held[i]), q);
      DotCong(cs, held[i], cs, ValuesAt(cols, shares[i].x), q);
    }
    CombinedSharesInterpolate(q, cs, cols, k, shares);
    OldSecret(q, f, dealers, cols);
  }

  /** The constant terms the dealers shared are points of f. */
  lemma OldSecret(q: nat, f: seq<int>, dealers: seq<int>, cols: seq<seq<int>>)
    requires IsPrime(q) && |cols| == |dealers| && DistinctMod(dealers, q) && |f| <= |dealers|
    requires forall d :: 0 <= d < |cols| ==> |cols[d]| > 0 && Cong(cols[d][0], Eval(f, dealers[d]), q)
    ensures Cong(Dot(Lambdas(q, dealers, 0), Column(cols, 0)), Eval(f, 0), q)
  {
    var olds := seq(|dealers|, d requires 0 <= d < |dealers| => Sample(dealers[d], cols[d][0]));
    assert Xs(olds) == dealers && Ys(olds) == Column(cols, 0);
    assert Through(f, olds, q);
    LagrangeReproduces(q, f, olds, 0);
  }

  // ----- distributed key generation

  /** The shares and first columns of the decided keygens, in order. */
  method Collect<P>(es: seq<Ended<P>>, k: nat) returns (abars: seq<int>, abars': seq<int>, pts: seq<seq<P>>)
    requires k > 0 && Shaped(es, k)
    ensures abars == Shares(es) && abars' == Blinds(es) && pts == FirstColumns(es)
  {
    abars, abars', pts := [], [], [];
    for i := 0 to |es|
      invariant |abars| == |abars'| == |pts| == i
      invariant forall m :: 0 <= m < i ==> abars[m] == es[m].si && abars'[m] == es[m].si'
      invariant forall m :: 0 <= m < i ==> pts[m] == Column(es[m].cbar, 0)
    {
      abars := abars + [es[i].si];
      abars' := abars' + [es[i].si'];
      pts := pts + [Column(es[i].cbar, 0)];
    }
  }

  /** The state of one key generation at a node, as far as `decide` and the proofs update it. */
  class Dkg<P(!new,==)> {
    var si: int
    var si': int
    var dbar: seq<P>

    /** The decide step of key generation: nothing is stored unless the sums match. */
    method Decide(g: Group<P>, es: seq<Ended<P>>, k: nat, index: int) returns (ok: bool)
      requires Laws(g) && k > 0 && Shaped(es, k) && es != []
      modifies this
      ensures (forall e :: e in es ==> ShareOk(g, e.cbar, index, e.si, e.si')) ==> ok
      ensures ok ==> si == Sum(Shares(es)) % g.q && si' == Sum(Blinds(es)) % g.q
                     && dbar == CombinePolys(g, Ones(|es|), FirstColumns(es), k)
      ensures var c := g.Commit(Sum(Shares(es)) % g.q, Sum(Blinds(es)) % g.q);
              var d := PointEval(g, CombinePolys(g, Ones(|es|), FirstColumns(es), k), index);
              ok <==> c == d || g.add(c, d) == g.zero
      ensures !ok ==> si == old(si) && si' == old(si') && dbar == old(dbar)
    {
      var abars, abars', pts := Collect(es, k);
      var abar := SumScalars(g.q, abars);
      var abar' := SumScalars(g.q, abars');
      var sum := AddCommitments(g, pts);
      ok := VerifyShareCommitment(g, g.add(g.mul(abar, g.G), g.mul(abar', g.H)), sum, index);
      if forall e :: e in es ==> ShareOk(g, e.cbar, index, e.si, e.si') {
        SummedShareMatchesDbar(g, es, k, index);
      }
      if ok {
        dbar := sum;
        si := abar;
        si' := abar';
      }
    }
  }

  lemma {:induction false} DotOnes(s: seq<int>)
    ensures Dot(Ones(|s|), s) == Sum(s)
  {
    if s != [] {
      var n := |s| - 1;
      assert Ones(|s|)[..n] == Ones(n);
      DotOnes(s[..n]);
    }
  }

  /** The summed share opens the summed column commitments at the node's index. */
  lemma SummedShareMatchesDbar<P(!new)>(g: Group<P>, es: seq<Ended<P>>, k: nat, i: int)
    requires Laws(g) && k > 0 && Shaped(es, k)
    requires forall e :: e in es ==> ShareOk(g, e.cbar, i, e.si, e.si')
    ensures g.Commit(Sum(Shares(es)) % g.q, Sum(Blinds(es)) % g.q)
            == PointEval(g, CombinePolys(g, Ones(|es|), FirstColumns(es), k), i)
  {
    CombinedShareOpens(g, es, Ones(|es|), k, i);
    DotOnes(Shares(es));
    DotOnes(Blinds(es));
    ModIsCong(Sum(Shares(es)), g.q);
    ModIsCong(Sum(Blinds(es)), g.q);
    CommitCong(g, Sum(Shares(es)) % g.q, Sum(Blinds(es)) % g.q, Sum(Shares(es)), Sum(Blinds(es)));
  }

  /** Any k summed shares interpolate at 0 to the sum of the dealers' secrets, and the curve points
      made from them interpolate to that sum times G. */
  lemma GeneratedKeyIsSumOfSecrets<P(!new)>(g: Group<P>, cols: seq<seq<int>>, k: nat,
                                            held: seq<seq<int>>, shares: seq<Sample>, gsis: seq<P>)
    requires Laws(g) && k > 0 && (forall d :: 0 <= d < |cols| ==> |cols[d]| == k)
    requires k <= |shares| == |held| == |gsis| && DistinctMod(Xs(shares), g.q)
    requires forall i :: 0 <= i < |held| ==> |held[i]| == |cols|
    requires forall i, d :: 0 <= i < |held| && 0 <= d < |cols| ==> Cong(held[i][d], Eval(cols[d], shares[i].x), g.q)
    requires forall i :: 0 <= i < |shares| ==> shares[i].y == Sum(held[i]) % g.q && gsis[i] == g.mul(shares[i].y, g.G)
    ensures Dot(Lambdas(g.q, Xs(shares), 0), Ys(shares)) % g.q == Sum(Column(cols, 0)) % g.q
    ensures LinComb(g, Lambdas(g.q, Xs(shares), 0), gsis) == g.mul(Sum(Column(cols, 0)), g.G)
  {
    var q, ones, ls := g.q, Ones(|cols|), Lambdas(g.q, Xs(shares), 0);
    forall i | 0 <= i < |shares| ensures Cong(shares[i].y, Dot(ones, ValuesAt(cols, shares[i].x)), q) {
      ModIsCong(Sum(held[i]), q);
      DotOnes(held[i]);
      DotCong(ones, held[i], ones, ValuesAt(cols, shares[i].x), q);
    }
    CombinedSharesInterpolate(q, ones, cols, k, shares);
    DotOnes(Column(cols, 0));
    var zeros := ZeroPoints(g, |gsis|);
    forall i | 0 <= i < |gsis| ensures gsis[i] == g.add(zeros[i], g.mul(Ys(shares)[i], g.G)) {
      AddZero(g, gsis[i]);
    }
    LinCombShift(g, ls, zeros, Ys(shares), g.G, gsis);
    LinCombZeros(g, ls, zeros);
    AddZero(g, g.mul(Dot(ls, Ys(shares)), g.G));
    MulCong(g, Dot(ls, Ys(shares)), Sum(Column(cols, 0)), g.G);
  }
}
