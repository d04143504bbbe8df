/** How a sharing ends, over every continuation: with T = 0 it may be too late, and one wrong beta is kept for good. */
module Endings {
  import opened Modular
  import opened Sets
  import opened Curve
  import opened Polynomials
  import opened Lagrange
  import opened Avss
  import opened Reconstruction
  import opened Interpolant
  import opened Machine
  import opened Instance

  lemma AfterSnoc<P>(cfg: Config<P>, me: int, dealer: int, ms: seq<Msg<P>>, more: seq<Msg<P>>)
    requires more != []
    ensures After(cfg, me, dealer, ms + more)
            == OnMsg(cfg, me, dealer, After(cfg, me, dealer, ms + more[..|more| - 1]), more[|more| - 1]).inst
  {
    var init, m := ms + more[..|more| - 1], more[|more| - 1];
    assert ms + more == init + [m];
    AfterOne(cfg, me, dealer, init, m);
  }

  lemma AfterOne<P>(cfg: Config<P>, me: int, dealer: int, ms: seq<Msg<P>>, m: Msg<P>)
    ensures After(cfg, me, dealer, ms + [m]) == OnMsg(cfg, me, dealer, After(cfg, me, dealer, ms), m).inst
  {
    assert (ms + [m])[..|ms + [m]| - 1] == ms;
  }

  // ----- with T = 0

  /** Readies from k senders and no end: the matrix has missed its moment. */
  ghost predicate Missed<P>(cfg: Config<P>, s: Inst<P>, c: Matrix<P>) {
    if s.phase.Over? then s.cbar != c else |CellOf(s, c).readyFrom| >= cfg.k
  }

  lemma MissedByReady<P(!new)>(cfg: Config<P>, me: int, s: Inst<P>, m: Msg<P>, ok: bool, c: Matrix<P>)
    requires cfg.Valid() && cfg.t == 0 && InstOk(cfg, s) && m.Ready? && Missed(cfg, s, c)
    ensures Missed(cfg, OnReady(cfg, me, s, m, ok).inst, c)
  {
    if !s.phase.Over? && m.from !in s.receivedReady && ok && m.signed {
      OldCellOk(cfg, s, m.c);
      assert |ReadyCell(s, m).readyFrom| == |CellOf(s, m.c).readyFrom| + 1;
    }
  }

  lemma MissedByMsg<P(!new)>(cfg: Config<P>, me: int, dealer: int, s: Inst<P>, m: Msg<P>, c: Matrix<P>)
    requires cfg.Valid() && cfg.t == 0 && InstOk(cfg, s) && Missed(cfg, s, c)
    ensures Missed(cfg, OnMsg(cfg, me, dealer, s, m).inst, c)
  {
    if m.Ready? {
      MissedByReady(cfg, me, s, m, Verified(cfg, me, m), c);
    }
  }

  /** With T = 0, once the readies for c come from k senders and the sharing is not over, nothing that arrives later
      ends it with c. */
  lemma {:induction false} MissedForGood<P(!new)>(cfg: Config<P>, me: int, dealer: int, ms: seq<Msg<P>>, more: seq<Msg<P>>, c: Matrix<P>)
    requires cfg.Valid() && cfg.t == 0 && FromNetwork(cfg, ms + more)
    requires !After(cfg, me, dealer, ms).phase.Over? && |CellOf(After(cfg, me, dealer, ms), c).readyFrom| >= cfg.k
    ensures Missed(cfg, After(cfg, me, dealer, ms + more), c)
    decreases |more|
  {
    if more == [] {
      assert ms + more == ms;
    } else {
      var n := |more| - 1;
      forall j | 0 <= j < |ms + more[..n]| ensures (ms + more[..n])[j].Send? || (ms + more[..n])[j].from in cfg.nodes {
        assert (ms + more[..n])[j] == (ms + more)[j];
      }
      MissedForGood(cfg, me, dealer, ms, more[..n], c);
      AfterSnoc(cfg, me, dealer, ms, more);
      AfterOk(cfg, me, dealer, ms + more[..n]);
      MissedByMsg(cfg, me, dealer, After(cfg, me, dealer, ms + more[..n]), more[n], c);
    }
  }

  /** Two nodes, K = 1, T = 0. */
  function TwoNodes<P>(g: Group<P>): Config<P> { Config(g, {1, 2}, 1, 0, false) }

  function ZeroMatrix<P>(g: Group<P>): Matrix<P> { [[g.zero]] }

  /** An honest ready for the zero sharing. */
  function EarlyReady<P>(g: Group<P>): Msg<P> { Ready(2, 1, ZeroMatrix(g), Points(0, 0, 0, 0), true) }

  lemma ZeroBi<P(!new)>(g: Group<P>, x: int, y: int)
    requires Laws(g)
    ensures BiEval(g, ZeroMatrix(g), x, y) == g.zero
  {
    ConstantValue(g, g.zero, y);
    assert RowValues(g, ZeroMatrix(g), y) == [g.zero];
    ConstantValue(g, g.zero, x);
  }

  /** The zero alphas pass at every index. */
  lemma ZeroVerified<P(!new)>(g: Group<P>, x: int, y: int)
    requires Laws(g)
    ensures PointCheck(g, ZeroMatrix(g), x, y, 0, 0) == Passed
  {
    SquarePoint(g, ZeroMatrix(g), 1, x, y, 0, 0);
    SquareIsWhole(ZeroMatrix(g), 1);
    CommitZero(g);
    ZeroBi(g, x, y);
  }

  /** The one ready reaches K before any echo: node 1 sends its own ready and can never end with this matrix. */
  lemma OneReadyTooEarly<P(!new)>(g: Group<P>, more: seq<Msg<P>>)
    requires Laws(g) && g.q > 2 && FromNetwork(TwoNodes(g), more)
    ensures var s := After(TwoNodes(g), 1, 1, [EarlyReady(g)]);
            !s.phase.Over? && |CellOf(s, ZeroMatrix(g)).readyFrom| >= 1
    ensures Missed(TwoNodes(g), After(TwoNodes(g), 1, 1, [EarlyReady(g)] + more), ZeroMatrix(g))
  {
    var cfg, m := TwoNodes(g), EarlyReady(g);
    ZeroVerified(g, 2, 1);
    assert [m][..0] == [];
    assert After(cfg, 1, 1, [m]) == OnMsg(cfg, 1, 1, Fresh(), m).inst;
    assert |{1, 2}| == 2;
    assert cfg.EcThreshold() == 2;
    assert ReadyCell(Fresh(), m).readyFrom == {2};
    forall j | 0 <= j < |[m] + more| ensures ([m] + more)[j].Send? || ([m] + more)[j].from in cfg.nodes {
      if j > 0 { assert ([m] + more)[j] == more[j - 1]; }
    }
    MissedForGood(cfg, 1, 1, [m], more, ZeroMatrix(g));
  }

  // ----- one wrong beta

  /** Neither echo nor ready is judged by its beta. */
  lemma BetaUnread<P>(cfg: Config<P>, me: int, m: Msg<P>, beta: int, beta': int)
    requires !m.Send?
    ensures Verified(cfg, me, m.(pts := m.pts.(beta := beta, beta' := beta'))) == Verified(cfg, me, m)
  {
  }

  /** The share interpolated from the points of a cell, all betas but that of n being right, opens the matrix exactly
      if that of n is right. */
  lemma CellShareIff<P(!new)>(cfg: Config<P>, me: int, c: Matrix<P>, pts: map<int, Points>, n: int)
    requires cfg.Valid() && Laws(cfg.g) && IsSquare(c, cfg.k) && cfg.k <= |pts| && pts.Keys <= cfg.nodes && n in pts
    requires forall x :: x in pts && x != n ==> BetaOk(cfg.g, c, x, me, pts[x].beta, pts[x].beta')
    ensures var b := Interpolated(cfg.g.q, pts);
            && b.abar != [] && b.abar' != []
            && (ShareOk(cfg.g, c, me, b.abar[0], b.abar'[0]) <==> BetaOk(cfg.g, c, n, me, pts[n].beta, pts[n].beta'))
  {
    var g, q, betas, betas' := cfg.g, cfg.g.q, Betas(pts), Betas'(pts);
    InterpolatedSize(q, pts);
    assert betas.Keys == betas'.Keys == pts.Keys;
    assert |betas| == |betas.Keys| && |pts| == |pts.Keys|;
    var bc, bc', i := Paired(q, betas, betas', n);
    forall m | 0 <= m < |bc| && m != i ensures BetaOk(g, c, bc[m].x, me, bc[m].y, bc'[m].y) {
      assert bc[m].x in pts && bc[m].x != n;
    }
    ShareIffBeta(g, c, cfg.k, me, bc, bc', Fit(q, betas), Fit(q, betas'), i);
  }

  /** Two maps on the same indexes, listed in the same order. */
  lemma Paired(q: nat, m: map<int, int>, m': map<int, int>, n: int) returns (bc: seq<Sample>, bc': seq<Sample>, i: nat)
    requires IsPrime(q) && Keyed(m, q) && m.Keys == m'.Keys && n in m
    ensures |bc| == |bc'| == |m| && Xs(bc) == Xs(bc') && DistinctMod(Xs(bc), q)
    ensures forall j :: 0 <= j < |bc| ==> bc[j].x in m && bc[j].y == m[bc[j].x] && bc'[j].y == m'[bc[j].x] && !Cong(0, bc[j].x, q)
    ensures i < |bc| && bc[i].x == n && forall j :: 0 <= j < |bc| && j != i ==> bc[j].x != n
    ensures Interpolates(Fit(q, m), bc, q) && Interpolates(Fit(q, m'), bc', q)
  {
    bc := Enumerate(m);
    bc' := seq(|bc|, j requires 0 <= j < |bc| => Sample(bc[j].x, m'[bc[j].x]));
    assert |m| == |m.Keys| && |m'| == |m'.Keys|;
    EnumerationIsDistinct(bc, m, q);
    EnumerationCovers(bc, m);
    FitInterpolates(q, m, bc);
    FitInterpolates(q, m', bc');
    i :| 0 <= i < |bc| && bc[i] == Sample(n, m[n]);
    forall j | 0 <= j < |bc| ensures !Cong(0, bc[j].x, q) {
      if Cong(0, bc[j].x, q) { ReducedUnique(0, bc[j].x, q); }
    }
  }

  /** The interpolated polynomials of a cell, once there, stay. */
  lemma BarsStayOnce<P(!new)>(cfg: Config<P>, me: int, dealer: int, s: Inst<P>, m: Msg<P>, c: Matrix<P>)
    requires cfg.Valid() && InstOk(cfg, s) && CellOf(s, c).bars.Some?
    ensures CellOf(OnMsg(cfg, me, dealer, s, m).inst, c).bars == CellOf(s, c).bars
  {
    match m {
      case Send(_, _, _, _, _, _, _) =>
      case Echo(_, _, _, _) => BarsStayEcho(cfg, me, s, m, Verified(cfg, me, m), c);
      case Ready(_, _, _, _, _) => BarsStayReady(cfg, me, s, m, Verified(cfg, me, m), c);
    }
  }

  lemma BarsStayEcho<P(!new)>(cfg: Config<P>, me: int, s: Inst<P>, m: Msg<P>, ok: bool, c: Matrix<P>)
    requires cfg.Valid() && InstOk(cfg, s) && CellOf(s, c).bars.Some? && m.Echo?
    ensures CellOf(OnEcho(cfg, me, s, m, ok).inst, c).bars == CellOf(s, c).bars
  {
    var s' := OnEcho(cfg, me, s, m, ok).inst;
    EchoCellsAre(cfg, me, s, m, ok);
    if s'.cells != s.cells && m.c == c {
      EchoKeepsBars(cfg, s, m);
    }
  }

  /** A cell that has its polynomials is past both thresholds. */
  lemma EchoKeepsBars<P(!new)>(cfg: Config<P>, s: Inst<P>, m: Msg<P>)
    requires cfg.Valid() && InstOk(cfg, s) && CellOf(s, m.c).bars.Some? && m.Echo? && m.from !in s.receivedEcho
    ensures var cell := EchoCell(s, m);
            Kept(cfg, cell, |cell.echoFrom| == cfg.EcThreshold() && |cell.readyFrom| < cfg.k).bars == CellOf(s, m.c).bars
  {
    OldCellOk(cfg, s, m.c);
    assert |EchoCell(s, m).echoFrom| == |CellOf(s, m.c).echoFrom| + 1;
  }

  lemma BarsStayReady<P(!new)>(cfg: Config<P>, me: int, s: Inst<P>, m: Msg<P>, ok: bool, c: Matrix<P>)
    requires cfg.Valid() && InstOk(cfg, s) && CellOf(s, c).bars.Some? && m.Ready?
    ensures CellOf(OnReady(cfg, me, s, m, ok).inst, c).bars == CellOf(s, c).bars
  {
    var s' := OnReady(cfg, me, s, m, ok).inst;
    ReadyCellsAre(cfg, me, s, m, ok);
    if s'.cells != s.cells && m.c == c {
      ReadyKeepsBars(cfg, s, m);
    }
  }

  lemma ReadyKeepsBars<P(!new)>(cfg: Config<P>, s: Inst<P>, m: Msg<P>)
    requires cfg.Valid() && InstOk(cfg, s) && CellOf(s, m.c).bars.Some? && m.Ready? && m.from !in s.receivedReady
    ensures var cell := ReadyCell(s, m);
            Kept(cfg, cell, |cell.readyFrom| == cfg.k && |cell.echoFrom| < cfg.EcThreshold()).bars == CellOf(s, m.c).bars
  {
    OldCellOk(cfg, s, m.c);
    assert |ReadyCell(s, m).readyFrom| == |CellOf(s, m.c).readyFrom| + 1;
  }

  /** The share of an ended sharing is read off the polynomials of its cell. */
  ghost predicate ReadOff<P>(s: Inst<P>) {
    s.phase.Over? ==> ReadFrom(s, CellOf(s, s.cbar).bars)
  }

  ghost predicate ReadFrom<P>(s: Inst<P>, b: Option<Bars>) {
    b.Some? && b.value.abar != [] && b.value.abar' != [] && s.si == b.value.abar[0] && s.si' == b.value.abar'[0]
  }

  lemma ReadOffStep<P(!new)>(cfg: Config<P>, me: int, dealer: int, s: Inst<P>, m: Msg<P>)
    requires ReadOff(s)
    ensures ReadOff(OnMsg(cfg, me, dealer, s, m).inst)
  {
    match m {
      case Send(_, _, _, _, _, _, _) => SendKeeps(cfg, me, dealer, s, m, Verified(cfg, me, m));
      case Echo(_, _, _, _) => EchoCellsAre(cfg, me, s, m, Verified(cfg, me, m));
      case Ready(_, _, _, _, _) => ReadOffReady(cfg, me, s, m, Verified(cfg, me, m));
    }
  }

  lemma SendKeeps<P>(cfg: Config<P>, me: int, dealer: int, s: Inst<P>, m: Msg<P>, ok: bool)
    requires m.Send?
    ensures var s' := OnSend(cfg, me, dealer, s, m, ok).inst; s' == s.(receivedSend := s'.receivedSend)
  {
  }

  lemma ReadOffReady<P>(cfg: Config<P>, me: int, s: Inst<P>, m: Msg<P>, ok: bool)
    requires ReadOff(s) && m.Ready?
    ensures ReadOff(OnReady(cfg, me, s, m, ok).inst)
  {
    if s.phase.Over? {
      ReadyCellsAre(cfg, me, s, m, ok);
    } else {
      EndsOff(cfg, me, s, m, ok);
    }
  }

  lemma EndsOff<P>(cfg: Config<P>, me: int, s: Inst<P>, m: Msg<P>, ok: bool)
    requires m.Ready? && !s.phase.Over?
    ensures var s' := OnReady(cfg, me, s, m, ok).inst;
            s'.phase.Over? ==> s'.cbar == m.c && ReadFrom(s', ReadyCell(s, m).bars) && s'.cells == s.cells[m.c := ReadyCell(s, m)]
  {
  }

  /** From interpolation to the end, whatever arrives between. */
  lemma {:induction false} BarsGiveShare<P(!new)>(cfg: Config<P>, me: int, dealer: int, ms: seq<Msg<P>>, more: seq<Msg<P>>, c: Matrix<P>)
    requires cfg.Valid() && FromNetwork(cfg, ms + more) && CellOf(After(cfg, me, dealer, ms), c).bars.Some?
    ensures ReadOff(After(cfg, me, dealer, ms + more))
    ensures CellOf(After(cfg, me, dealer, ms + more), c).bars == CellOf(After(cfg, me, dealer, ms), c).bars
    decreases |more|
  {
    if more == [] {
      assert ms + more == ms;
      AfterReadOff(cfg, me, dealer, ms);
    } else {
      var n := |more| - 1;
      forall j | 0 <= j < |ms + more[..n]| ensures (ms + more[..n])[j].Send? || (ms + more[..n])[j].from in cfg.nodes {
        assert (ms + more[..n])[j] == (ms + more)[j];
      }
      BarsGiveShare(cfg, me, dealer, ms, more[..n], c);
      AfterSnoc(cfg, me, dealer, ms, more);
      AfterOk(cfg, me, dealer, ms + more[..n]);
      BarsStayOnce(cfg, me, dealer, After(cfg, me, dealer, ms + more[..n]), more[n], c);
      ReadOffStep(cfg, me, dealer, After(cfg, me, dealer, ms + more[..n]), more[n]);
    }
  }

  lemma {:induction false} AfterReadOff<P(!new)>(cfg: Config<P>, me: int, dealer: int, ms: seq<Msg<P>>)
    ensures ReadOff(After(cfg, me, dealer, ms))
  {
    if ms != [] {
      var n := |ms| - 1;
      AfterReadOff(cfg, me, dealer, ms[..n]);
      ReadOffStep(cfg, me, dealer, After(cfg, me, dealer, ms[..n]), ms[n]);
    }
  }

  /** The echo that completes the threshold carries a wrong beta and is accepted; all points before it were right. If the
      sharing ends with this matrix, whatever arrives in between, the share does not open it. */
  lemma WrongBetaSpoilsShare<P(!new)>(cfg: Config<P>, me: int, dealer: int, ms: seq<Msg<P>>, m: Msg<P>, more: seq<Msg<P>>)
    requires cfg.Valid() && Laws(cfg.g) && FromNetwork(cfg, ms + [m] + more) && m.Echo? && IsSquare(m.c, cfg.k)
    requires var s := After(cfg, me, dealer, ms);
             && !s.phase.Over? && m.from !in s.receivedEcho && Verified(cfg, me, m)
             && |EchoCell(s, m).echoFrom| == cfg.EcThreshold() && |EchoCell(s, m).readyFrom| < cfg.k
             && forall x :: x in CellOf(s, m.c).pts && x != m.from ==>
                  BetaOk(cfg.g, m.c, x, me, CellOf(s, m.c).pts[x].beta, CellOf(s, m.c).pts[x].beta')
    requires !BetaOk(cfg.g, m.c, m.from, me, m.pts.beta, m.pts.beta')
    ensures OnMsg(cfg, me, dealer, After(cfg, me, dealer, ms), m).status == Fine
    ensures var s' := After(cfg, me, dealer, ms + [m] + more);
            s'.phase.Over? && s'.cbar == m.c ==> !ShareOk(cfg.g, m.c, me, s'.si, s'.si')
  {
    var s := After(cfg, me, dealer, ms);
    forall j | 0 <= j < |ms| ensures ms[j].Send? || ms[j].from in cfg.nodes {
      assert ms[j] == (ms + [m] + more)[j];
    }
    assert m == (ms + [m] + more)[|ms|];
    AfterOk(cfg, me, dealer, ms);
    OldCellOk(cfg, s, m.c);
    var pts := EchoCell(s, m).pts;
    WrongPoint(cfg, me, s, m);
    AfterSnoc(cfg, me, dealer, ms, [m]);
    assert ms + [m][..0] == ms;
    BarsGiveShare(cfg, me, dealer, ms + [m], more, m.c);
  }

  lemma WrongPoint<P(!new)>(cfg: Config<P>, me: int, s: Inst<P>, m: Msg<P>)
    requires cfg.Valid() && Laws(cfg.g) && InstOk(cfg, s) && m.Echo? && m.from in cfg.nodes && IsSquare(m.c, cfg.k)
    requires !s.phase.Over? && m.from !in s.receivedEcho
    requires |EchoCell(s, m).echoFrom| == cfg.EcThreshold() && |EchoCell(s, m).readyFrom| < cfg.k
    requires forall x :: x in CellOf(s, m.c).pts && x != m.from ==>
               BetaOk(cfg.g, m.c, x, me, CellOf(s, m.c).pts[x].beta, CellOf(s, m.c).pts[x].beta')
    requires !BetaOk(cfg.g, m.c, m.from, me, m.pts.beta, m.pts.beta')
    ensures var b := CellOf(OnEcho(cfg, me, s, m, true).inst, m.c).bars;
            b.Some? && b.value.abar != [] && b.value.abar' != []
            && !ShareOk(cfg.g, m.c, me, b.value.abar[0], b.value.abar'[0])
  {
    OldCellOk(cfg, s, m.c);
    var cell := EchoCell(s, m);
    SubsetSize(cell.echoFrom, cell.pts.Keys);
    assert |cell.pts| == |cell.pts.Keys|;
    CellShareIff(cfg, me, m.c, cell.pts, m.from);
  }

  // ----- such a run

  /** Two nodes, K = 1, T = 1. */
  function Pair<P>(g: Group<P>): Config<P> { Config(g, {1, 2}, 1, 1, false) }

  /** The zero sharing at node 1; the echo of node 2 has beta 1 instead of 0. */
  function RightEcho<P>(g: Group<P>): Msg<P> { Echo(1, 1, ZeroMatrix(g), Points(0, 0, 0, 0)) }
  function WrongEcho<P>(g: Group<P>): Msg<P> { Echo(2, 1, ZeroMatrix(g), Points(0, 0, 1, 0)) }
  function ZeroReady<P>(g: Group<P>, x: int): Msg<P> { Ready(x, 1, ZeroMatrix(g), Points(0, 0, 0, 0), true) }

  ghost function SpoiledBy<P>(g: Group<P>): seq<Msg<P>> { [RightEcho(g), WrongEcho(g), ZeroReady(g, 1), ZeroReady(g, 2)] }

  lemma SpoiledFrom<P>(g: Group<P>)
    ensures FromNetwork(Pair(g), SpoiledBy(g))
  {
    var ms := SpoiledBy(g);
    forall j | 0 <= j < |ms| ensures ms[j].from in {1, 2} {
      assert j == 0 || j == 1 || j == 2 || j == 3;
    }
  }

  lemma PairThreshold<P>(g: Group<P>)
    ensures Pair(g).EcThreshold() == 2
  {
    assert |{1, 2}| == 2;
  }

  lemma EchoesCounted<P(!new)>(g: Group<P>) returns (s1: Inst<P>, s2: Inst<P>)
    requires Laws(g)
    ensures s1 == After(Pair(g), 1, 1, [RightEcho(g)]) && s2 == After(Pair(g), 1, 1, [RightEcho(g), WrongEcho(g)])
    ensures !s1.phase.Over? && s1.receivedEcho == {1} && CellOf(s1, ZeroMatrix(g)).echoFrom == {1}
    ensures CellOf(s1, ZeroMatrix(g)).readyFrom == {} && CellOf(s1, ZeroMatrix(g)).pts == map[1 := Points(0, 0, 0, 0)]
    ensures !s2.phase.Over? && s2.receivedReady == {} && CellOf(s2, ZeroMatrix(g)).echoFrom == {1, 2}
    ensures CellOf(s2, ZeroMatrix(g)).readyFrom == {}
  {
    var cfg, m1, m2 := Pair(g), RightEcho(g), WrongEcho(g);
    PairThreshold(g);
    ZeroVerified(g, 1, 1);
    ZeroVerified(g, 2, 1);
    assert [] + [m1] == [m1] && [m1] + [m2] == [m1, m2];
    AfterOne(cfg, 1, 1, [], m1);
    s1 := After(cfg, 1, 1, [m1]);
    assert EchoCell(Fresh(), m1).echoFrom == {1} && |{1}| == 1;
    AfterOne(cfg, 1, 1, [m1], m2);
    s2 := After(cfg, 1, 1, [m1, m2]);
    assert {1} + {2} == {1, 2};
  }

  /** The second ready ends the sharing. */
  lemma ReadiesEnd<P(!new)>(g: Group<P>, s: Inst<P>) returns (s1: Inst<P>, s2: Inst<P>)
    requires Laws(g) && g.q > 2 && InstOk(Pair(g), s) && !s.phase.Over? && s.receivedReady == {}
    requires CellOf(s, ZeroMatrix(g)).echoFrom == {1, 2} && CellOf(s, ZeroMatrix(g)).readyFrom == {}
    ensures s1 == OnMsg(Pair(g), 1, 1, s, ZeroReady(g, 1)).inst && s2 == OnMsg(Pair(g), 1, 1, s1, ZeroReady(g, 2)).inst
    ensures s2.phase.Over? && s2.cbar == ZeroMatrix(g)
  {
    var cfg, m1, m2 := Pair(g), ZeroReady(g, 1), ZeroReady(g, 2);
    PairThreshold(g);
    ZeroVerified(g, 1, 1);
    ZeroVerified(g, 2, 1);
    assert |{1, 2}| == 2 && |{1}| == 1;
    EndsExactlyWhen(cfg, 1, s, m1);
    OnReadyOk(cfg, 1, s, m1, true);
    s1 := OnMsg(cfg, 1, 1, s, m1).inst;
    assert ReadyCell(s, m1).readyFrom == {1};
    assert CellOf(s1, ZeroMatrix(g)).readyFrom == {1} && s1.receivedReady == {1};
    EndsExactlyWhen(cfg, 1, s1, m2);
    EndsOff(cfg, 1, s1, m2, true);
    s2 := OnMsg(cfg, 1, 1, s1, m2).inst;
  }

  /** Node 1 takes all four messages, ends, and its share does not open the matrix it ends with. */
  lemma SpoiledRun<P(!new)>(g: Group<P>)
    requires Laws(g) && g.q > 2 && g.G != g.zero
    ensures var s := After(Pair(g), 1, 1, SpoiledBy(g));
            s.phase.Over? && s.cbar == ZeroMatrix(g) && !ShareOk(g, s.cbar, 1, s.si, s.si')
  {
    SpoiledEnds(g);
    SpoiledShare(g);
  }

  lemma SpoiledEnds<P(!new)>(g: Group<P>)
    requires Laws(g) && g.q > 2
    ensures var s := After(Pair(g), 1, 1, SpoiledBy(g)); s.phase.Over? && s.cbar == ZeroMatrix(g)
  {
    var s1, s2 := EchoesCounted(g);
    var es := [RightEcho(g), WrongEcho(g)];
    SpoiledFrom(g);
    EndsAfter(g, es, SpoiledBy(g));
  }

  lemma EndsAfter<P(!new)>(g: Group<P>, es: seq<Msg<P>>, all: seq<Msg<P>>)
    requires all == es + [ZeroReady(g, 1)] + [ZeroReady(g, 2)]
    requires Laws(g) && g.q > 2 && FromNetwork(Pair(g), all)
    requires var s := After(Pair(g), 1, 1, es);
             && !s.phase.Over? && s.receivedReady == {}
             && CellOf(s, ZeroMatrix(g)).echoFrom == {1, 2} && CellOf(s, ZeroMatrix(g)).readyFrom == {}
    ensures var s := After(Pair(g), 1, 1, all); s.phase.Over? && s.cbar == ZeroMatrix(g)
  {
    forall j | 0 <= j < |es| ensures es[j].Send? || es[j].from in Pair(g).nodes {
      assert es[j] == all[j];
    }
    AfterOk(Pair(g), 1, 1, es);
    var s1, s2 := ReadiesEnd(g, After(Pair(g), 1, 1, es));
    AfterOne(Pair(g), 1, 1, es, ZeroReady(g, 1));
    AfterOne(Pair(g), 1, 1, es + [ZeroReady(g, 1)], ZeroReady(g, 2));
  }

  lemma SpoiledShare<P(!new)>(g: Group<P>)
    requires Laws(g) && g.q > 2 && g.G != g.zero
    ensures var s := After(Pair(g), 1, 1, SpoiledBy(g));
            s.phase.Over? && s.cbar == ZeroMatrix(g) ==> !ShareOk(g, s.cbar, 1, s.si, s.si')
  {
    var s1, s2 := EchoesCounted(g);
    var es, rs := [RightEcho(g)], [ZeroReady(g, 1), ZeroReady(g, 2)];
    SpoiledFrom(g);
    SpoiledAfter(g, es, rs, SpoiledBy(g));
  }

  lemma SpoiledAfter<P(!new)>(g: Group<P>, es: seq<Msg<P>>, more: seq<Msg<P>>, all: seq<Msg<P>>)
    requires all == es + [WrongEcho(g)] + more
    requires Laws(g) && g.q > 2 && g.G != g.zero && FromNetwork(Pair(g), all)
    requires var s := After(Pair(g), 1, 1, es);
             && !s.phase.Over? && s.receivedEcho == {1}
             && CellOf(s, ZeroMatrix(g)).echoFrom == {1} && CellOf(s, ZeroMatrix(g)).readyFrom == {}
             && CellOf(s, ZeroMatrix(g)).pts == map[1 := Points(0, 0, 0, 0)]
    ensures var s := After(Pair(g), 1, 1, all);
            s.phase.Over? && s.cbar == ZeroMatrix(g) ==> !ShareOk(g, s.cbar, 1, s.si, s.si')
  {
    BetasApart(g);
    ZeroVerified(g, 2, 1);
    PairThreshold(g);
    assert EchoCell(After(Pair(g), 1, 1, es), WrongEcho(g)).echoFrom == {1, 2} && |{1, 2}| == 2;
    WrongBetaSpoilsShare(Pair(g), 1, 1, es, WrongEcho(g), more);
  }

  lemma BetasApart<P(!new)>(g: Group<P>)
    requires Laws(g) && g.G != g.zero
    ensures BetaOk(g, ZeroMatrix(g), 1, 1, 0, 0) && !BetaOk(g, ZeroMatrix(g), 2, 1, 1, 0)
  {
    ZeroBi(g, 1, 1);
    ZeroBi(g, 1, 2);
    CommitZero(g);
    MulUnits(g, g.G);
    MulUnits(g, g.H);
    AddZero(g, g.G);
  }
}
