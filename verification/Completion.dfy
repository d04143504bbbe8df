/** A sharing by an honest dealer in a network where some nodes may stop: once everything sent between
    live nodes has arrived, every live node has ended with the dealer's matrix and its own share. */
module Completion {
  import opened Modular
  import opened Sets
  import opened Curve
  import opened Polynomials
  import opened Lagrange
  import opened Avss
  import opened Interpolant
  import opened Machine
  import opened Instance

  /** The dealer's two bivariate polynomials, their commitment matrix, and what it sends to each node. */
  datatype World<!P> = World(cfg: Config<P>, dealer: int, f: Matrix<int>, f': Matrix<int>, c: Matrix<P>, sends: map<int, Msg<P>>)

  /** The dealer follows the code of the share step: its scalars are drawn non-negative. */
  ghost predicate DealerOk<P>(w: World<P>) {
    && NonNegativeMatrix(w.f) && NonNegativeMatrix(w.f')
    && IsSquare(w.f, w.cfg.k) && IsSquare(w.f', w.cfg.k) && IsSquare(w.c, w.cfg.k)
    && (forall j, l :: 0 <= j < w.cfg.k && 0 <= l < w.cfg.k ==> w.c[j][l] == w.cfg.g.Commit(w.f[j][l], w.f'[j][l]))
    && w.sends.Keys == w.cfg.nodes
    && (forall i :: i in w.cfg.nodes ==> RightSend(w, w.sends[i], i))
  }

  ghost predicate RightSend<P>(w: World<P>, m: Msg<P>, i: int) {
    var q := w.cfg.g.q;
    && q > 0 && IsSquare(w.f, w.cfg.k) && IsSquare(w.f', w.cfg.k)
    && m.Send? && m.from == w.dealer && m.to == i && m.c == w.c
    && CongSeq(m.a, AtX(w.f, i), q) && CongSeq(m.a', AtX(w.f', i), q)
    && CongSeq(m.b, AtY(w.f, i), q) && CongSeq(m.b', AtY(w.f', i), q)
    && NonNegative(m.a) && NonNegative(m.a') && NonNegative(m.b) && NonNegative(m.b')
  }

  ghost predicate Valid<P(!new)>(w: World<P>) {
    w.cfg.Valid() && Laws(w.cfg.g) && DealerOk(w)
  }

  // ----- values of a bivariate polynomial

  /** f(x, y) */
  ghost function Bi(f: Matrix<int>, x: int, y: int): int
    requires IsSquare(f, |f|)
  {
    Eval(AtX(f, x), y)
  }

  ghost function ColumnsAt(f: Matrix<int>, k: nat, x: int): (r: seq<int>)
    requires forall j :: 0 <= j < |f| ==> |f[j]| == k
    ensures |r| == k
  {
    seq(k, l requires 0 <= l < k => Eval(Column(f, l), x))
  }

  lemma {:induction false} BiByRows(f: Matrix<int>, k: nat, x: int, y: int)
    requires forall j :: 0 <= j < |f| ==> |f[j]| == k
    ensures Eval(ColumnsAt(f, k, x), y) == Eval(AtY(f, y), x)
  {
    var v := ColumnsAt(f, k, x);
    if f == [] {
      assert v == Zeros(k);
      EvalZeros(k, y);
    } else {
      BiByRows(f[1..], k, x, y);
      var v' := ColumnsAt(f[1..], k, x);
      forall l | 0 <= l < k ensures v[l] == f[0][l] + x * v'[l] {
        assert Column(f, l)[1..] == Column(f[1..], l);
      }
      assert v == AddScaled(f[0], x, v');
      EvalAddScaled(f[0], x, v', y);
      assert AtY(f, y)[1..] == AtY(f[1..], y);
    }
  }

  /** Evaluating the column polynomial of y at x gives f(x, y) as well. */
  lemma BiIsColumn(f: Matrix<int>, x: int, y: int)
    requires IsSquare(f, |f|)
    ensures Eval(AtY(f, y), x) == Bi(f, x, y)
  {
    BiByRows(f, |f|, x, y);
    assert ColumnsAt(f, |f|, x) == AtX(f, x);
  }

  // ----- right messages

  /** The points node x gives node y. */
  ghost predicate RightPts<P>(w: World<P>, x: int, y: int, p: Points)
    requires w.cfg.g.q > 0 && IsSquare(w.f, w.cfg.k) && IsSquare(w.f', w.cfg.k)
  {
    var q := w.cfg.g.q;
    && Cong(p.alpha, Bi(w.f, x, y), q) && Cong(p.alpha', Bi(w.f', x, y), q)
    && Cong(p.beta, Bi(w.f, y, x), q) && Cong(p.beta', Bi(w.f', y, x), q)
    && p.alpha >= 0 && p.alpha' >= 0
  }

  ghost predicate RightMsg<P>(w: World<P>, m: Msg<P>)
    requires w.cfg.g.q > 0 && DealerOk(w)
  {
    if m.Send? then m.to in w.cfg.nodes && m == w.sends[m.to]
    else
      && m.from in w.cfg.nodes && m.to in w.cfg.nodes && m.c == w.c && RightPts(w, m.from, m.to, m.pts)
      && (m.Ready? ==> m.signed)
  }

  lemma ValueAtCong(q: nat, p: seq<int>, k: nat, x: int, f: seq<int>)
    requires q > 0 && 1 <= k == |f| <= |p| && CongSeq(p[..k], f, q)
    ensures Cong(ValueAt(q, p, k, x), Eval(f, x), q) && (NonNegative(p) ==> ValueAt(q, p, k, x) >= 0)
  {
    EvalCong(p[..k], f, x, x, q);
    if k >= 2 {
      ModIsCong(Eval(p[..k], x), q);
    } else {
      assert p[..k][1..] == [] && Eval(p[..k], x) == p[0] + x * Eval([], x);
    }
  }

  /** Polynomials congruent to the node's own rows and columns give right points. */
  lemma RightPtsFor<P(!new)>(w: World<P>, x: int, y: int, a: seq<int>, a': seq<int>, b: seq<int>, b': seq<int>)
    requires Valid(w) && w.cfg.k <= |a| && w.cfg.k <= |a'| && w.cfg.k <= |b| && w.cfg.k <= |b'|
    requires var q, k := w.cfg.g.q, w.cfg.k;
      && CongSeq(a[..k], AtX(w.f, x), q) && CongSeq(a'[..k], AtX(w.f', x), q)
      && CongSeq(b[..k], AtY(w.f, x), q) && CongSeq(b'[..k], AtY(w.f', x), q)
    requires NonNegative(a) && NonNegative(a')
    ensures RightPts(w, x, y, PointsFor(w.cfg, a, a', b, b', y))
  {
    var q, k := w.cfg.g.q, w.cfg.k;
    ValueAtCong(q, a, k, y, AtX(w.f, x));
    ValueAtCong(q, a', k, y, AtX(w.f', x));
    ValueAtCong(q, b, k, y, AtY(w.f, x));
    ValueAtCong(q, b', k, y, AtY(w.f', x));
    BiIsColumn(w.f, y, x);
    BiIsColumn(w.f', y, x);
  }

  /** Right points pass the check. */
  lemma RightPtsVerify<P(!new)>(w: World<P>, x: int, y: int, p: Points)
    requires Valid(w) && RightPts(w, x, y, p)
    ensures PointOk(w.cfg.g, w.c, x, y, p.alpha, p.alpha')
  {
    var g := w.cfg.g;
    SquarePoint(g, w.c, w.cfg.k, x, y, p.alpha, p.alpha');
    CommittedBi(g, w.f, w.f', w.c, x, y);
    CommitCong(g, p.alpha, p.alpha', Bi(w.f, x, y), Bi(w.f', x, y));
  }

  lemma RightMsgVerified<P(!new)>(w: World<P>, m: Msg<P>)
    requires Valid(w) && RightMsg(w, m)
    ensures Verified(w.cfg, m.to, m)
  {
    if m.Send? {
      assert RightSend(w, w.sends[m.to], m.to);
      HonestDealerVerifies(w.cfg.g, w.f, w.f', w.c, m.to, m.a, m.a', m.b, m.b');
      SquareIsWhole(w.c, w.cfg.k);
      assert m.a'[..w.cfg.k] == m.a' && m.b'[..w.cfg.k] == m.b';
    } else {
      SquareIsWhole(w.c, w.cfg.k);
      RightPtsVerify(w, m.from, m.to, m.pts);
    }
  }

  /** Interpolating right points gives back the node's own polynomials. */
  ghost predicate RightBars<P>(w: World<P>, p: int, b: Bars)
    requires w.cfg.g.q > 0 && IsSquare(w.f, w.cfg.k) && IsSquare(w.f', w.cfg.k)
  {
    var q, k := w.cfg.g.q, w.cfg.k;
    && k <= |b.abar| && k <= |b.abar'| && k <= |b.bbar| && k <= |b.bbar'|
    && CongSeq(b.abar[..k], AtX(w.f, p), q) && CongSeq(b.abar'[..k], AtX(w.f', p), q)
    && CongSeq(b.bbar[..k], AtY(w.f, p), q) && CongSeq(b.bbar'[..k], AtY(w.f', p), q)
    && NonNegative(b.abar) && NonNegative(b.abar')
  }

  lemma FitColumn(q: nat, pts: map<int, int>, f: Matrix<int>, k: nat, p: int)
    requires IsPrime(q) && Keyed(pts, q) && IsSquare(f, k) && k <= |pts|
    requires forall x :: x in pts ==> Cong(pts[x], Bi(f, x, p), q)
    ensures k <= |Fit(q, pts)| && CongSeq(Fit(q, pts)[..k], AtY(f, p), q)
  {
    forall x | x in pts ensures Cong(Eval(AtY(f, p), x), pts[x], q) {
      BiIsColumn(f, x, p);
    }
    FitOfShortPoly(q, pts, AtY(f, p));
  }

  lemma FitRow(q: nat, pts: map<int, int>, f: Matrix<int>, k: nat, p: int)
    requires IsPrime(q) && Keyed(pts, q) && IsSquare(f, k) && k <= |pts|
    requires forall x :: x in pts ==> Cong(pts[x], Bi(f, p, x), q)
    ensures k <= |Fit(q, pts)| && CongSeq(Fit(q, pts)[..k], AtX(f, p), q) && NonNegative(Fit(q, pts))
  {
    FitFits(q, pts);
    FitOfShortPoly(q, pts, AtX(f, p));
  }

  lemma InterpolatedRight<P(!new)>(w: World<P>, p: int, pts: map<int, Points>)
    requires Valid(w) && w.cfg.k <= |pts| && pts.Keys <= w.cfg.nodes && PtsRight(w, p, pts)
    ensures RightBars(w, p, Interpolated(w.cfg.g.q, pts))
  {
    var q, k := w.cfg.g.q, w.cfg.k;
    assert Betas(pts).Keys == Betas'(pts).Keys == Alphas(pts).Keys == Alphas'(pts).Keys == pts.Keys;
    assert |Betas(pts)| == |Betas(pts).Keys| && |Betas'(pts)| == |Betas'(pts).Keys|;
    assert |Alphas(pts)| == |Alphas(pts).Keys| && |Alphas'(pts)| == |Alphas'(pts).Keys|;
    assert |pts| == |pts.Keys|;
    assert forall x :: x in pts ==> RightPts(w, x, p, pts[x]);
    FitRow(q, Betas(pts), w.f, k, p);
    FitRow(q, Betas'(pts), w.f', k, p);
    FitColumn(q, Alphas(pts), w.f, k, p);
    FitColumn(q, Alphas'(pts), w.f', k, p);
  }

  // ----- runs

  ghost function Start<P>(w: World<P>): System<P> {
    System(map p | p in w.cfg.nodes :: Fresh(), set i | i in w.sends :: w.sends[i])
  }

  /** Any message sent may be delivered at any time; a node that has stopped is one that nothing reaches any more. */
  ghost predicate Run<P>(w: World<P>, ms: seq<Msg<P>>, tr: seq<System<P>>) {
    && |tr| == |ms| + 1 && tr[0] == Start(w)
    && forall i :: 0 <= i < |ms| ==> Delivers(w, tr[i], ms[i], tr[i + 1])
  }

  ghost predicate Delivers<P>(w: World<P>, s: System<P>, m: Msg<P>, s': System<P>) {
    m in s.net && m.to in s.insts && s' == Next(w, s, m)
  }

  ghost function Next<P>(w: World<P>, s: System<P>, m: Msg<P>): System<P>
    requires m.to in s.insts
  {
    var r := OnMsg(w.cfg, m.to, w.dealer, s.insts[m.to], m);
    System(s.insts[m.to := r.inst], s.net + r.out)
  }

  // ----- invariant

  ghost predicate Told<P>(net: set<Msg<P>>, ready: bool, x: int, y: int) {
    exists m :: m in net && !m.Send? && m.Ready? == ready && m.from == x && m.to == y
  }

  ghost predicate ToldAll<P>(w: World<P>, net: set<Msg<P>>, ready: bool, x: int) {
    forall y :: y in w.cfg.nodes ==> Told(net, ready, x, y)
  }

  ghost predicate PtsRight<P>(w: World<P>, p: int, pts: map<int, Points>)
    requires w.cfg.g.q > 0 && IsSquare(w.f, w.cfg.k) && IsSquare(w.f', w.cfg.k)
  {
    forall x {:trigger RightPts(w, x, p, pts[x])} :: x in pts ==> RightPts(w, x, p, pts[x])
  }

  lemma PtsGrow<P>(w: World<P>, p: int, pts: map<int, Points>, x: int, pt: Points)
    requires w.cfg.g.q > 0 && IsSquare(w.f, w.cfg.k) && IsSquare(w.f', w.cfg.k)
    requires PtsRight(w, p, pts) && RightPts(w, x, p, pt)
    ensures PtsRight(w, p, pts[x := pt])
  {
    var pts' := pts[x := pt];
    forall y | y in pts' ensures RightPts(w, y, p, pts'[y]) {
      if y != x { assert RightPts(w, y, p, pts[y]); }
    }
  }

  ghost predicate CellRight<P>(w: World<P>, p: int, cell: Cell)
    requires w.cfg.g.q > 0 && IsSquare(w.f, w.cfg.k) && IsSquare(w.f', w.cfg.k)
  {
    PtsRight(w, p, cell.pts) && (cell.bars.Some? ==> RightBars(w, p, cell.bars.value))
  }

  /** The share of node p: f(p, 0). */
  ghost predicate RightShare<P>(w: World<P>, p: int, s: Inst<P>)
    requires w.cfg.g.q > 0 && IsSquare(w.f, w.cfg.k) && IsSquare(w.f', w.cfg.k)
  {
    && s.cbar == w.c && s.si >= 0 && s.si' >= 0
    && Cong(s.si, Bi(w.f, p, 0), w.cfg.g.q) && Cong(s.si', Bi(w.f', p, 0), w.cfg.g.q)
  }

  ghost predicate Counting<P>(w: World<P>, s: Inst<P>) {
    var cell := CellOf(s, w.c);
    s.receivedEcho == cell.echoFrom && s.receivedReady == cell.readyFrom && |cell.readyFrom| < w.cfg.k + w.cfg.t
  }

  ghost predicate NodeRight<P(!new)>(w: World<P>, p: int, s: Inst<P>)
    requires w.cfg.g.q > 0 && IsSquare(w.f, w.cfg.k) && IsSquare(w.f', w.cfg.k)
  {
    && InstOk(w.cfg, s) && s.cells.Keys <= {w.c} && CellRight(w, p, CellOf(s, w.c))
    && (if s.phase.Over? then RightShare(w, p, s) else Counting(w, s))
  }

  ghost predicate NodeHeard<P>(w: World<P>, net: set<Msg<P>>, p: int, s: Inst<P>) {
    && (s.receivedSend ==> ToldAll(w, net, false, p))
    && (CellOf(s, w.c).bars.Some? ==> ToldAll(w, net, true, p))
    && (forall x :: x in CellOf(s, w.c).readyFrom ==> exists y :: Told(net, true, x, y))
  }

  ghost predicate Inv<P(!new)>(w: World<P>, s: System<P>)
    requires w.cfg.g.q > 0 && DealerOk(w)
  {
    && s.insts.Keys == w.cfg.nodes
    && (forall m :: m in s.net ==> RightMsg(w, m))
    && (forall p {:trigger NodeFine(w, s, p)} :: NodeFine(w, s, p))
    && (forall x, y {:trigger BarsTold(w, s, x, y)} :: BarsTold(w, s, x, y))
  }

  ghost predicate NodeFine<P(!new)>(w: World<P>, s: System<P>, p: int)
    requires w.cfg.g.q > 0 && DealerOk(w)
  {
    p in s.insts ==> NodeRight(w, p, s.insts[p]) && NodeHeard(w, s.net, p, s.insts[p])
  }

  /** A node that has sent readies holds interpolated polynomials. */
  ghost predicate BarsTold<P>(w: World<P>, s: System<P>, x: int, y: int) {
    Told(s.net, true, x, y) ==> x in s.insts && CellOf(s.insts[x], w.c).bars.Some?
  }

  // ----- what one delivery does to a node

  lemma KeptRight<P(!new)>(w: World<P>, p: int, cell: Cell, fire: bool)
    requires Valid(w) && CellOk(w.cfg.nodes, cell)
    requires CellRight(w, p, cell)
    requires fire ==> |cell.echoFrom| >= w.cfg.k || |cell.readyFrom| >= w.cfg.k
    ensures CellRight(w, p, Kept(w.cfg, cell, fire))
  {
    if fire {
      SubsetSize(cell.echoFrom, cell.pts.Keys);
      SubsetSize(cell.readyFrom, cell.pts.Keys);
      assert |cell.pts| == |cell.pts.Keys|;
      InterpolatedRight(w, p, cell.pts);
    }
  }

  /** Right points of one more sender leave a cell right, whichever list the sender joins. */
  lemma CellGrows<P(!new)>(w: World<P>, p: int, s: Inst<P>, x: int, pts: Points)
    requires w.cfg.Valid() && IsSquare(w.f, w.cfg.k) && IsSquare(w.f', w.cfg.k)
    requires InstOk(w.cfg, s) && CellRight(w, p, CellOf(s, w.c)) && x in w.cfg.nodes && RightPts(w, x, p, pts)
    ensures var prev := CellOf(s, w.c);
            var echoed := prev.(echoFrom := prev.echoFrom + {x}, pts := prev.pts[x := pts]);
            var readied := prev.(readyFrom := prev.readyFrom + {x}, pts := prev.pts[x := pts]);
            CellOk(w.cfg.nodes, echoed) && CellRight(w, p, echoed) && CellOk(w.cfg.nodes, readied) && CellRight(w, p, readied)
  {
    var prev := CellOf(s, w.c);
    assert CellOk(w.cfg.nodes, prev) by { OldCellOk(w.cfg, s, w.c); }
    PtsGrow(w, p, prev.pts, x, pts);
  }

  lemma EchoCellRight<P(!new)>(w: World<P>, p: int, s: Inst<P>, m: Msg<P>)
    requires Valid(w) && InstOk(w.cfg, s) && CellRight(w, p, CellOf(s, w.c))
    requires m.Echo? && RightMsg(w, m) && m.to == p && m.from !in s.receivedEcho
    ensures var cell := EchoCell(s, m);
            CellRight(w, p, Kept(w.cfg, cell, |cell.echoFrom| == w.cfg.EcThreshold() && |cell.readyFrom| < w.cfg.k))
  {
    var prev, cell := CellOf(s, w.c), EchoCell(s, m);
    CellGrows(w, p, s, m.from, m.pts);
    assert cell == prev.(echoFrom := prev.echoFrom + {m.from}, pts := prev.pts[m.from := m.pts]);
    KeptRight(w, p, cell, |cell.echoFrom| == w.cfg.EcThreshold() && |cell.readyFrom| < w.cfg.k);
  }

  lemma ReadyCounts<P(!new)>(cfg: Config<P>, s: Inst<P>, m: Msg<P>)
    requires cfg.Valid() && InstOk(cfg, s) && m.Ready? && m.from !in s.receivedReady
    ensures |ReadyCell(s, m).readyFrom| == |CellOf(s, m.c).readyFrom| + 1
  {
    OldCellOk(cfg, s, m.c);
  }

  lemma ReadyCellRight<P(!new)>(w: World<P>, p: int, s: Inst<P>, m: Msg<P>)
    requires Valid(w) && InstOk(w.cfg, s) && CellRight(w, p, CellOf(s, w.c))
    requires m.Ready? && RightMsg(w, m) && m.to == p && m.from !in s.receivedReady
    ensures var cell := ReadyCell(s, m);
            && CellRight(w, p, cell)
            && CellRight(w, p, Kept(w.cfg, cell, |cell.readyFrom| == w.cfg.k && |cell.echoFrom| < w.cfg.EcThreshold()))
            && |cell.readyFrom| == |CellOf(s, w.c).readyFrom| + 1
  {
    var cell := ReadyCell(s, m);
    assert |cell.readyFrom| == |CellOf(s, w.c).readyFrom| + 1 by { ReadyCounts(w.cfg, s, m); }
    assert CellOk(w.cfg.nodes, cell) && CellRight(w, p, cell) by { CellGrows(w, p, s, m.from, m.pts); }
    KeptRight(w, p, cell, |cell.readyFrom| == w.cfg.k && |cell.echoFrom| < w.cfg.EcThreshold());
  }

  lemma EchoRight<P(!new)>(w: World<P>, p: int, s: Inst<P>, m: Msg<P>)
    requires Valid(w) && NodeRight(w, p, s) && m.Echo? && RightMsg(w, m) && m.to == p
    ensures NodeRight(w, p, OnEcho(w.cfg, p, s, m, true).inst)
  {
    OnEchoOk(w.cfg, p, s, m, true);
    EchoKeepsCell(w, p, s, m);
    if !s.phase.Over? {
      EchoKeepsCount(w, p, s, m);
    }
  }

  lemma EchoKeepsCell<P(!new)>(w: World<P>, p: int, s: Inst<P>, m: Msg<P>)
    requires Valid(w) && InstOk(w.cfg, s) && s.cells.Keys <= {w.c} && CellRight(w, p, CellOf(s, w.c))
    requires m.Echo? && RightMsg(w, m) && m.to == p
    ensures var s' := OnEcho(w.cfg, p, s, m, true).inst;
            s'.cells.Keys <= {w.c} && CellRight(w, p, CellOf(s', w.c))
  {
    if m.from !in s.receivedEcho {
      EchoCellRight(w, p, s, m);
    }
  }

  lemma EchoKeepsCount<P(!new)>(w: World<P>, p: int, s: Inst<P>, m: Msg<P>)
    requires !s.phase.Over? && Counting(w, s) && m.Echo? && m.c == w.c
    ensures var s' := OnEcho(w.cfg, p, s, m, true).inst; !s'.phase.Over? && Counting(w, s')
  {
  }

  /** The constant coefficients are the share. */
  lemma BarsGiveShare<P(!new)>(w: World<P>, p: int, b: Bars)
    requires Valid(w) && RightBars(w, p, b)
    ensures Cong(b.abar[0], Bi(w.f, p, 0), w.cfg.g.q) && Cong(b.abar'[0], Bi(w.f', p, 0), w.cfg.g.q)
  {
    assert b.abar[..w.cfg.k][0] == b.abar[0] && b.abar'[..w.cfg.k][0] == b.abar'[0];
    assert Bi(w.f, p, 0) == AtX(w.f, p)[0] && Bi(w.f', p, 0) == AtX(w.f', p)[0];
  }

  lemma ReadyKeepsCell<P(!new)>(w: World<P>, p: int, s: Inst<P>, m: Msg<P>)
    requires Valid(w) && InstOk(w.cfg, s) && s.cells.Keys <= {w.c} && CellRight(w, p, CellOf(s, w.c))
    requires m.Ready? && RightMsg(w, m) && m.to == p
    ensures var s' := OnReady(w.cfg, p, s, m, true).inst;
            s'.cells.Keys <= {w.c} && CellRight(w, p, CellOf(s', w.c))
  {
    if m.from !in s.receivedReady {
      ReadyCellRight(w, p, s, m);
    }
  }

  lemma ReadyKeepsPhase<P(!new)>(w: World<P>, p: int, s: Inst<P>, m: Msg<P>)
    requires Valid(w) && w.cfg.t >= 1 && InstOk(w.cfg, s) && !s.phase.Over? && Counting(w, s)
    requires CellRight(w, p, CellOf(s, w.c)) && m.Ready? && RightMsg(w, m) && m.to == p
    ensures var s' := OnReady(w.cfg, p, s, m, true).inst;
            if s'.phase.Over? then RightShare(w, p, s') else Counting(w, s')
  {
    var s' := OnReady(w.cfg, p, s, m, true).inst;
    if m.from !in s.receivedReady {
      var cell := ReadyCell(s, m);
      ReadyCounts(w.cfg, s, m);
      if s'.phase.Over? {
        BarsGiveShare(w, p, cell.bars.value);
      } else {
        EndsExactlyWhen(w.cfg, p, s, m);
      }
    }
  }

  lemma ReadyRight<P(!new)>(w: World<P>, p: int, s: Inst<P>, m: Msg<P>)
    requires Valid(w) && w.cfg.t >= 1 && NodeRight(w, p, s) && m.Ready? && RightMsg(w, m) && m.to == p
    ensures NodeRight(w, p, OnReady(w.cfg, p, s, m, true).inst)
  {
    OnReadyOk(w.cfg, p, s, m, true);
    ReadyKeepsCell(w, p, s, m);
    if !s.phase.Over? {
      ReadyKeepsPhase(w, p, s, m);
    }
  }

  // ----- what one delivery sends

  /** A handler sends its echoes when it accepts a `send`, its readies when it interpolates, else nothing. */
  lemma SentBy<P>(cfg: Config<P>, me: int, dealer: int, s: Inst<P>, m: Msg<P>)
    requires Verified(cfg, me, m)
    ensures var r := OnMsg(cfg, me, dealer, s, m);
            var now, then' := CellOf(s, m.c), CellOf(r.inst, m.c);
            && (m.Send? ==> r.inst.cells == s.cells && (r.out == {} || r.out == Echoes(cfg, me, m))
                            && (r.inst.receivedSend && !s.receivedSend ==> r.out == Echoes(cfg, me, m)))
            && (!m.Send? ==> r.inst.receivedSend == s.receivedSend
                             && (r.out == {} || (then'.bars.Some? && r.out == Readies(cfg, me, m.c, then'.bars.value)))
                             && (then'.bars.Some? && now.bars.None? ==> r.out != {} || cfg.nodes == {}))
            && (now.bars.Some? ==> then'.bars.Some?)
  {
    match m
    case Send(_, _, _, _, _, _, _) =>
    case Echo(_, _, _, _) => EchoSends(cfg, me, s, m);
    case Ready(_, _, _, _, _) => ReadySends(cfg, me, s, m);
  }

  lemma ReadiesNonempty<P>(cfg: Config<P>, me: int, c: Matrix<P>, b: Bars)
    ensures Readies(cfg, me, c, b) == {} ==> cfg.nodes == {}
  {
    if cfg.nodes != {} {
      var i := Pick(cfg.nodes);
      assert Ready(me, i, c, PointsFor(cfg, b.abar, b.abar', b.bbar, b.bbar', i), true) in Readies(cfg, me, c, b);
    }
  }

  lemma EchoSends<P>(cfg: Config<P>, me: int, s: Inst<P>, m: Msg<P>)
    requires m.Echo?
    ensures var r := OnEcho(cfg, me, s, m, true);
            var now, then' := CellOf(s, m.c), CellOf(r.inst, m.c);
            && r.inst.receivedSend == s.receivedSend
            && (r.out == {} || (then'.bars.Some? && r.out == Readies(cfg, me, m.c, then'.bars.value)))
            && (then'.bars.Some? && now.bars.None? ==> r.out != {} || cfg.nodes == {})
            && (now.bars.Some? ==> then'.bars.Some?)
  {
    ReadiesNonempty(cfg, me, m.c, Interpolated(cfg.g.q, EchoCell(s, m).pts));
  }

  lemma ReadySends<P>(cfg: Config<P>, me: int, s: Inst<P>, m: Msg<P>)
    requires m.Ready?
    ensures var r := OnReady(cfg, me, s, m, true);
            var now, then' := CellOf(s, m.c), CellOf(r.inst, m.c);
            && r.inst.receivedSend == s.receivedSend
            && (r.out == {} || (then'.bars.Some? && r.out == Readies(cfg, me, m.c, then'.bars.value)))
            && (then'.bars.Some? && now.bars.None? ==> r.out != {} || cfg.nodes == {})
            && (now.bars.Some? ==> then'.bars.Some?)
  {
    ReadiesNonempty(cfg, me, m.c, Interpolated(cfg.g.q, ReadyCell(s, m).pts));
  }

  lemma EchoesRight<P(!new)>(w: World<P>, p: int)
    requires Valid(w) && p in w.cfg.nodes
    ensures forall o :: o in Echoes(w.cfg, p, w.sends[p]) ==> o.Echo? && o.from == p && RightMsg(w, o)
    ensures ToldAll(w, Echoes(w.cfg, p, w.sends[p]), false, p)
  {
    var m := w.sends[p];
    var k := w.cfg.k;
    assert RightSend(w, m, p);
    assert m.a[..k] == m.a && m.a'[..k] == m.a' && m.b[..k] == m.b && m.b'[..k] == m.b';
    forall i | i in w.cfg.nodes ensures RightPts(w, p, i, PointsFor(w.cfg, m.a, m.a', m.b, m.b', i)) {
      RightPtsFor(w, p, i, m.a, m.a', m.b, m.b');
    }
    forall y | y in w.cfg.nodes ensures Told(Echoes(w.cfg, p, m), false, p, y) {
      assert Echo(p, y, m.c, PointsFor(w.cfg, m.a, m.a', m.b, m.b', y)) in Echoes(w.cfg, p, m);
    }
  }

  lemma ReadiesRight<P(!new)>(w: World<P>, p: int, b: Bars)
    requires Valid(w) && p in w.cfg.nodes && RightBars(w, p, b)
    ensures forall o :: o in Readies(w.cfg, p, w.c, b) ==> o.Ready? && o.from == p && RightMsg(w, o)
    ensures ToldAll(w, Readies(w.cfg, p, w.c, b), true, p)
  {
    forall i | i in w.cfg.nodes ensures RightPts(w, p, i, PointsFor(w.cfg, b.abar, b.abar', b.bbar, b.bbar', i)) {
      RightPtsFor(w, p, i, b.abar, b.abar', b.bbar, b.bbar');
    }
    forall y | y in w.cfg.nodes ensures Told(Readies(w.cfg, p, w.c, b), true, p, y) {
      assert Ready(p, y, w.c, PointsFor(w.cfg, b.abar, b.abar', b.bbar, b.bbar', y), true) in Readies(w.cfg, p, w.c, b);
    }
  }

  // ----- every delivery keeps the invariant

  lemma ToldGrows<P>(w: World<P>, net: set<Msg<P>>, net': set<Msg<P>>, ready: bool, x: int)
    requires net <= net'
    ensures forall y :: Told(net, ready, x, y) ==> Told(net', ready, x, y)
    ensures ToldAll(w, net, ready, x) ==> ToldAll(w, net', ready, x)
  {
  }

  lemma HeardGrows<P>(w: World<P>, net: set<Msg<P>>, net': set<Msg<P>>, p: int, s: Inst<P>)
    requires net <= net' && NodeHeard(w, net, p, s)
    ensures NodeHeard(w, net', p, s)
  {
    ToldGrows(w, net, net', false, p);
    ToldGrows(w, net, net', true, p);
    forall x | x in CellOf(s, w.c).readyFrom ensures exists y :: Told(net', true, x, y) {
      var y :| Told(net, true, x, y);
      ToldGrows(w, net, net', true, x);
      assert Told(net', true, x, y);
    }
  }

  lemma DeliverRight<P(!new)>(w: World<P>, s: Inst<P>, m: Msg<P>)
    requires Valid(w) && w.cfg.t >= 1 && RightMsg(w, m) && m.to in w.cfg.nodes && NodeRight(w, m.to, s)
    ensures NodeRight(w, m.to, OnMsg(w.cfg, m.to, w.dealer, s, m).inst)
  {
    RightMsgVerified(w, m);
    match m
    case Send(_, _, _, _, _, _, _) => MarkOk(w.cfg, s, OnMsg(w.cfg, m.to, w.dealer, s, m).inst);
    case Echo(_, _, _, _) => EchoRight(w, m.to, s, m);
    case Ready(_, _, _, _, _) => ReadyRight(w, m.to, s, m);
  }

  lemma DeliverOut<P(!new)>(w: World<P>, s: Inst<P>, m: Msg<P>)
    requires Valid(w) && w.cfg.t >= 1 && RightMsg(w, m) && m.to in w.cfg.nodes && NodeRight(w, m.to, s)
    ensures var r := OnMsg(w.cfg, m.to, w.dealer, s, m);
            && (forall o :: o in r.out ==> RightMsg(w, o) && o.from == m.to)
            && (forall o :: o in r.out && o.Ready? ==> CellOf(r.inst, w.c).bars.Some?)
            && (CellOf(s, w.c).bars.Some? ==> CellOf(r.inst, w.c).bars.Some?)
            && (r.inst.receivedSend && !s.receivedSend ==> ToldAll(w, r.out, false, m.to))
            && (CellOf(r.inst, w.c).bars.Some? && CellOf(s, w.c).bars.None? ==> ToldAll(w, r.out, true, m.to))
  {
    var r := OnMsg(w.cfg, m.to, w.dealer, s, m);
    RightMsgVerified(w, m);
    DeliverRight(w, s, m);
    SentBy(w.cfg, m.to, w.dealer, s, m);
    if m.Send? {
      EchoesRight(w, m.to);
      assert RightSend(w, m, m.to);
    } else if CellOf(r.inst, w.c).bars.Some? {
      ReadiesRight(w, m.to, CellOf(r.inst, w.c).bars.value);
    }
  }

  lemma ReadersAreTold<P(!new)>(w: World<P>, net: set<Msg<P>>, s: Inst<P>, m: Msg<P>)
    requires m in net && m.c == w.c && NodeHeard(w, net, m.to, s)
    ensures var s' := OnMsg(w.cfg, m.to, w.dealer, s, m).inst;
            forall x :: x in CellOf(s', w.c).readyFrom ==> exists y :: Told(net, true, x, y)
  {
    var now, then' := CellOf(s, w.c).readyFrom, CellOf(OnMsg(w.cfg, m.to, w.dealer, s, m).inst, w.c).readyFrom;
    CellsGrow(w.cfg, m.to, w.dealer, s, m, w.c);
    forall x | x in then' ensures exists y :: Told(net, true, x, y) {
      if x !in now {
        assert Told(net, true, x, m.to);
      }
    }
  }

  lemma DeliverHeard<P(!new)>(w: World<P>, net: set<Msg<P>>, s: Inst<P>, m: Msg<P>)
    requires Valid(w) && w.cfg.t >= 1 && RightMsg(w, m) && m.to in w.cfg.nodes && NodeRight(w, m.to, s)
    requires m in net && NodeHeard(w, net, m.to, s)
    ensures var r := OnMsg(w.cfg, m.to, w.dealer, s, m); NodeHeard(w, net + r.out, m.to, r.inst)
  {
    var r := OnMsg(w.cfg, m.to, w.dealer, s, m);
    var net' := net + r.out;
    assert m.c == w.c by { if m.Send? { assert RightSend(w, m, m.to); } }
    DeliverOut(w, s, m);
    ToldGrows(w, r.out, net', false, m.to);
    ToldGrows(w, r.out, net', true, m.to);
    ToldGrows(w, net, net', false, m.to);
    ToldGrows(w, net, net', true, m.to);
    ReadersAreTold(w, net, s, m);
    forall x | x in CellOf(r.inst, w.c).readyFrom ensures exists y :: Told(net', true, x, y) {
      var y :| Told(net, true, x, y);
      ToldGrows(w, net, net', true, x);
      assert Told(net', true, x, y);
    }
  }

  lemma NextKeepsNodes<P(!new)>(w: World<P>, s: System<P>, m: Msg<P>, p: int)
    requires Valid(w) && w.cfg.t >= 1 && Inv(w, s) && m in s.net && m.to in s.insts && p in s.insts
    ensures var s' := Next(w, s, m); NodeRight(w, p, s'.insts[p]) && NodeHeard(w, s'.net, p, s'.insts[p])
  {
    assert NodeFine(w, s, p);
    if p == m.to {
      DeliverRight(w, s.insts[p], m);
      DeliverHeard(w, s.net, s.insts[p], m);
    } else {
      HeardGrows(w, s.net, Next(w, s, m).net, p, s.insts[p]);
    }
  }

  lemma NextKeepsReadies<P(!new)>(w: World<P>, s: System<P>, m: Msg<P>, x: int, y: int)
    requires Valid(w) && w.cfg.t >= 1 && Inv(w, s) && m in s.net && m.to in s.insts
    requires Told(Next(w, s, m).net, true, x, y)
    ensures x in s.insts && CellOf(Next(w, s, m).insts[x], w.c).bars.Some?
  {
    assert NodeFine(w, s, m.to) && BarsTold(w, s, x, y);
    DeliverOut(w, s.insts[m.to], m);
    ReadiesStay(w, s, m.to, OnMsg(w.cfg, m.to, w.dealer, s.insts[m.to], m), x, y);
  }

  lemma ReadiesStay<P>(w: World<P>, s: System<P>, p: int, r: Result<P>, x: int, y: int)
    requires p in s.insts && Told(s.net + r.out, true, x, y)
    requires Told(s.net, true, x, y) ==> x in s.insts && CellOf(s.insts[x], w.c).bars.Some?
    requires forall o :: o in r.out && o.Ready? ==> o.from == p && CellOf(r.inst, w.c).bars.Some?
    requires CellOf(s.insts[p], w.c).bars.Some? ==> CellOf(r.inst, w.c).bars.Some?
    ensures x in s.insts && CellOf(s.insts[p := r.inst][x], w.c).bars.Some?
  {
    if !Told(s.net, true, x, y) {
      var o := NewlyTold(s.net, s.net + r.out, x, y);
    }
  }

  lemma NewlyTold<P>(net: set<Msg<P>>, net': set<Msg<P>>, x: int, y: int) returns (o: Msg<P>)
    requires Told(net', true, x, y) && !Told(net, true, x, y)
    ensures o in net' && o !in net && o.Ready? && o.from == x && o.to == y
  {
    o :| o in net' && !o.Send? && o.Ready? && o.from == x && o.to == y;
  }

  lemma NextKeepsInv<P(!new)>(w: World<P>, s: System<P>, m: Msg<P>)
    requires Valid(w) && w.cfg.t >= 1 && Inv(w, s) && m in s.net && m.to in s.insts
    ensures Inv(w, Next(w, s, m))
  {
    var s' := Next(w, s, m);
    forall o | o in s'.net ensures RightMsg(w, o) {
      assert NodeFine(w, s, m.to);
      DeliverOut(w, s.insts[m.to], m);
    }
    forall p ensures NodeFine(w, s', p) {
      if p in s.insts { NextKeepsNodes(w, s, m, p); }
    }
    forall x, y ensures BarsTold(w, s', x, y) {
      if Told(s'.net, true, x, y) { NextKeepsReadies(w, s, m, x, y); }
    }
  }

  lemma StartInv<P(!new)>(w: World<P>)
    requires Valid(w) && w.cfg.t >= 1
    ensures Inv(w, Start(w))
  {
    forall m | m in Start(w).net ensures RightMsg(w, m) && m.Send? {
      var j :| j in w.sends && w.sends[j] == m;
      assert RightSend(w, m, j);
    }
  }

  /** What holds at the start and survives every delivery holds throughout a run. */
  lemma {:induction false} Induct<P(!new)>(w: World<P>, ms: seq<Msg<P>>, tr: seq<System<P>>, i: nat, inv: System<P> -> bool)
    requires Run(w, ms, tr) && i < |tr| && inv(Start(w))
    requires forall s, m, s' {:trigger Delivers(w, s, m, s')} :: inv(s) && Delivers(w, s, m, s') ==> inv(s')
    ensures inv(tr[i])
  {
    if i > 0 {
      Induct(w, ms, tr, i - 1, inv);
      assert Delivers(w, tr[i - 1], ms[i - 1], tr[i - 1 + 1]);
    }
  }

  lemma RunKeepsInv<P(!new)>(w: World<P>, ms: seq<Msg<P>>, tr: seq<System<P>>, i: nat)
    requires Valid(w) && w.cfg.t >= 1 && Run(w, ms, tr) && i < |tr|
    ensures Inv(w, tr[i])
  {
    var inv := s => Valid(w) && Inv(w, s);
    StartInv(w);
    forall s, m, s' | inv(s) && Delivers(w, s, m, s') ensures inv(s') {
      DeliveryKeepsInv(w, s, m, s');
    }
    Induct(w, ms, tr, i, inv);
  }

  lemma DeliveryKeepsInv<P(!new)>(w: World<P>, s: System<P>, m: Msg<P>, s': System<P>)
    requires Valid(w) && w.cfg.t >= 1 && Inv(w, s) && Delivers(w, s, m, s')
    ensures Inv(w, s')
  {
    NextKeepsInv(w, s, m);
  }

  // ----- completion

  /** Everything that live nodes and the dealer have sent to live nodes has arrived. */
  ghost predicate Quiet<P>(live: set<int>, s: System<P>) {
    && (forall p :: p in live && p in s.insts ==> s.insts[p].receivedSend || s.insts[p].phase.Over?)
    && (forall x, y :: x in live && y in live && y in s.insts && Told(s.net, false, x, y) ==> x in s.insts[y].receivedEcho)
    && (forall x, y :: x in live && y in live && y in s.insts && Told(s.net, true, x, y) ==> x in s.insts[y].receivedReady)
  }

  /** With n - t >= k + t the echo threshold can be met by the live nodes alone. */
  lemma ThresholdMet<P>(cfg: Config<P>, live: set<int>)
    requires cfg.k > cfg.t && |cfg.nodes| - cfg.t >= cfg.k + cfg.t && |live| >= |cfg.nodes| - cfg.t
    ensures |live| >= cfg.EcThreshold() && |live| >= cfg.k + cfg.t
  {
  }

  lemma LiveHaveBars<P(!new)>(w: World<P>, live: set<int>, s: System<P>, p: int)
    requires Valid(w) && Inv(w, s) && live <= w.cfg.nodes && Quiet(live, s)
    requires w.cfg.k > w.cfg.t && |w.cfg.nodes| - w.cfg.t >= w.cfg.k + w.cfg.t && |live| >= |w.cfg.nodes| - w.cfg.t
    requires p in live
    ensures CellOf(s.insts[p], w.c).bars.Some?
  {
    ThresholdMet(w.cfg, live);
    var i := s.insts[p];
    assert NodeFine(w, s, p);
    assert EntryOk(w.cfg, i, w.c);
    var cell := CellOf(i, w.c);
    if !i.phase.Over? {
      if forall x :: x in live ==> s.insts[x].receivedSend {
        forall x | x in live ensures x in cell.echoFrom {
          assert NodeFine(w, s, x);
          assert Told(s.net, false, x, p);
        }
        SubsetSize(live, cell.echoFrom);
      } else {
        var e :| e in live && !s.insts[e].receivedSend;
        EndedHeardLive(w, live, s, e, p);
      }
    }
  }

  /** Behind an ended node stand k live nodes whose readies have reached everyone live. */
  lemma EndedHeardLive<P(!new)>(w: World<P>, live: set<int>, s: System<P>, e: int, p: int)
    requires Valid(w) && Inv(w, s) && live <= w.cfg.nodes && Quiet(live, s)
    requires |live| >= |w.cfg.nodes| - w.cfg.t && e in live && p in live
    requires s.insts[e].phase.Over? && !s.insts[p].phase.Over?
    ensures |CellOf(s.insts[p], w.c).readyFrom| >= w.cfg.k
  {
    var i := s.insts[e];
    assert NodeFine(w, s, e) && NodeFine(w, s, p);
    assert EntryOk(w.cfg, i, w.c);
    var ready := CellOf(i, w.c).readyFrom;
    Overlap(ready, live, w.cfg.nodes);
    forall x | x in ready * live ensures x in CellOf(s.insts[p], w.c).readyFrom {
      var y :| Told(s.net, true, x, y);
      assert BarsTold(w, s, x, y) && NodeFine(w, s, x) && Told(s.net, true, x, p);
    }
    SubsetSize(ready * live, CellOf(s.insts[p], w.c).readyFrom);
  }

  /** Completion: in every run and every quiet state of it, each live node has ended, with the dealer's
      matrix and its own point f(p, 0) as its share. At most t nodes are not live, t >= 1, k > t and
      n - t >= k + t. */
  lemma LiveNodesComplete<P(!new)>(w: World<P>, live: set<int>, ms: seq<Msg<P>>, tr: seq<System<P>>, i: nat, p: int)
    requires Valid(w) && w.cfg.t >= 1 && Run(w, ms, tr) && i < |tr|
    requires live <= w.cfg.nodes && |live| >= |w.cfg.nodes| - w.cfg.t && p in live
    requires w.cfg.k > w.cfg.t && |w.cfg.nodes| - w.cfg.t >= w.cfg.k + w.cfg.t
    requires Quiet(live, tr[i])
    ensures p in tr[i].insts && tr[i].insts[p].phase.Over? && RightShare(w, p, tr[i].insts[p])
  {
    var s := tr[i];
    RunKeepsInv(w, ms, tr, i);
    ThresholdMet(w.cfg, live);
    assert NodeFine(w, s, p);
    if !s.insts[p].phase.Over? {
      forall x | x in live ensures x in CellOf(s.insts[p], w.c).readyFrom {
        LiveHaveBars(w, live, s, x);
        assert NodeFine(w, s, x) && Told(s.net, true, x, p);
      }
      SubsetSize(live, CellOf(s.insts[p], w.c).readyFrom);
    }
  }
}
