/** The message handlers of one sharing at one node, as transitions between values.
    Key generation (`keygennofsm`) and re-sharing (`pss`) run the same machine, except that
    re-sharing refuses a second `send`. The counters EC and RC of the code are kept here as
    the sets of senders they count. */
module Machine {
  import opened Modular
  import opened Sets
  import opened Curve
  import opened Polynomials
  import opened Avss
  import opened Interpolant

  /** The node network a sharing runs in; a node is named by its index. */
  datatype Config<!P> = Config(g: Group<P>, nodes: set<int>, k: nat, t: nat, onceOnly: bool) {
    ghost predicate Valid() {
      IsPrime(g.q) && k >= 1 && forall i :: i in nodes ==> 0 < i < g.q
    }

    /** `ecThreshold` */
    function EcThreshold(): (r: nat) {
      var half := (|nodes| + t + 2) / 2;   // (n + t + 1) / 2 rounded up
      if half >= k then half else k
    }
  }

  datatype Points = Points(alpha: int, alpha': int, beta: int, beta': int)

  datatype Msg<P> =
    | Send(from: int, to: int, c: Matrix<P>, a: seq<int>, a': seq<int>, b: seq<int>, b': seq<int>)
    | Echo(from: int, to: int, c: Matrix<P>, pts: Points)
    | Ready(from: int, to: int, c: Matrix<P>, pts: Points, signed: bool)

  datatype Bars = Bars(abar: seq<int>, abar': seq<int>, bbar: seq<int>, bbar': seq<int>)

  /** What a node has collected for one commitment matrix. The maps AC, ACprime, BC and BCprime of
      the code have the same keys: they are one map here. */
  datatype Cell = Cell(echoFrom: set<int>, readyFrom: set<int>, pts: map<int, Points>, bars: Option<Bars>)

  datatype Phase = Initial | Started | Over

  datatype Inst<P(==)> = Inst(phase: Phase, receivedSend: bool, receivedEcho: set<int>, receivedReady: set<int>,
                          cells: map<Matrix<P>, Cell>, cbar: Matrix<P>, si: int, si': int)

  datatype Status = Fine | Ignored | Repeated | NotDealer | NotVerified | BadSignature | Crash

  datatype Result<P(==)> = Result(inst: Inst<P>, out: set<Msg<P>>, status: Status)

  const EmptyCell := Cell({}, {}, map[], None)

  function Fresh<P(==)>(): Inst<P> {
    Inst(Initial, false, {}, {}, map[], [], 0, 0)
  }

  function CellOf<P>(s: Inst<P>, c: Matrix<P>): Cell {
    if c in s.cells then s.cells[c] else EmptyCell
  }

  function Alphas(pts: map<int, Points>): map<int, int> { map x | x in pts :: pts[x].alpha }
  function Alphas'(pts: map<int, Points>): map<int, int> { map x | x in pts :: pts[x].alpha' }
  function Betas(pts: map<int, Points>): map<int, int> { map x | x in pts :: pts[x].beta }
  function Betas'(pts: map<int, Points>): map<int, int> { map x | x in pts :: pts[x].beta' }

  /** Value of a polynomial cut at k coefficients, as `polyEval` returns it. */
  function ValueAt(q: nat, p: seq<int>, k: nat, x: int): int {
    if q == 0 || k == 0 || |p| < k then 0   // out of range in the code
    else if k >= 2 then Eval(p[..k], x) % q
    else p[0]
  }

  ghost predicate SendOk<P>(cfg: Config<P>, me: int, m: Msg<P>)
    requires m.Send?
  {
    PolysAccepted(cfg.g, m.c, me, cfg.k, m.a, m.a', m.b, m.b')
  }

  function PointsFor<P>(cfg: Config<P>, a: seq<int>, a': seq<int>, b: seq<int>, b': seq<int>, i: int): Points {
    var q, k := cfg.g.q, cfg.k;
    Points(ValueAt(q, a, k, i), ValueAt(q, a', k, i), ValueAt(q, b, k, i), ValueAt(q, b', k, i))
  }

  ghost function Echoes<P>(cfg: Config<P>, me: int, m: Msg<P>): set<Msg<P>>
    requires m.Send?
  {
    set i | i in cfg.nodes :: Echo(me, i, m.c, PointsFor(cfg, m.a, m.a', m.b, m.b', i))
  }

  /** alpha comes from Abar and beta from Bbar, once a node makes its own points. */
  ghost function Readies<P>(cfg: Config<P>, me: int, c: Matrix<P>, b: Bars): set<Msg<P>> {
    set i | i in cfg.nodes :: Ready(me, i, c, PointsFor(cfg, b.abar, b.abar', b.bbar, b.bbar', i), true)
  }

  /** Abar comes from the beta points and Bbar from the alpha points. */
  ghost function Interpolated(q: nat, pts: map<int, Points>): Bars {
    Bars(Fit(q, Betas(pts)), Fit(q, Betas'(pts)), Fit(q, Alphas(pts)), Fit(q, Alphas'(pts)))
  }

  // ----- handlers

  /** A `send` reaches node me in the sharing of `dealer`. */
  ghost function OnSend<P>(cfg: Config<P>, me: int, dealer: int, s: Inst<P>, m: Msg<P>, ok: bool): Result<P>
    requires m.Send?
  {
    if s.phase.Over? then Result(s, {}, Ignored)
    else if cfg.onceOnly && s.receivedSend then Result(s, {}, Repeated)
    else if m.from != dealer then Result(s, {}, NotDealer)
    else
      var s1 := s.(receivedSend := true);
      if ok then Result(s1, Echoes(cfg, me, m), Fine) else Result(s1, {}, NotVerified)
  }

  /** Store a cell, after interpolating and sending a ready to everyone if `fire`. */
  ghost function Store<P>(cfg: Config<P>, me: int, s: Inst<P>, c: Matrix<P>, cell: Cell, fire: bool): Result<P> {
    if fire then
      var b := Interpolated(cfg.g.q, cell.pts);
      Result(s.(cells := s.cells[c := cell.(bars := Some(b))]), Readies(cfg, me, c, b), Fine)
    else
      Result(s.(cells := s.cells[c := cell]), {}, Fine)
  }

  function EchoCell<P>(s: Inst<P>, m: Msg<P>): Cell
    requires m.Echo?
  {
    var cell := CellOf(s, m.c);
    cell.(echoFrom := cell.echoFrom + {m.from}, pts := cell.pts[m.from := m.pts])
  }

  function ReadyCell<P>(s: Inst<P>, m: Msg<P>): Cell
    requires m.Ready?
  {
    var cell := CellOf(s, m.c);
    cell.(readyFrom := cell.readyFrom + {m.from}, pts := cell.pts[m.from := m.pts])
  }

  /** An `echo` reaches node me. The sender is marked whatever becomes of the message. */
  ghost function OnEcho<P>(cfg: Config<P>, me: int, s: Inst<P>, m: Msg<P>, ok: bool): Result<P>
    requires m.Echo?
  {
    var s1 := s.(receivedEcho := s.receivedEcho + {m.from});
    if s.phase.Over? then Result(s1, {}, Ignored)
    else if m.from in s.receivedEcho then Result(s1, {}, Repeated)
    else if !ok then Result(s1, {}, NotVerified)
    else
      var cell := EchoCell(s, m);
      Store(cfg, me, s1, m.c, cell, |cell.echoFrom| == cfg.EcThreshold() && |cell.readyFrom| < cfg.k)
  }

  /** A `ready` reaches node me. */
  ghost function OnReady<P>(cfg: Config<P>, me: int, s: Inst<P>, m: Msg<P>, ok: bool): Result<P>
    requires m.Ready?
  {
    var s1 := s.(receivedReady := s.receivedReady + {m.from});
    if s.phase.Over? then Result(s1, {}, Ignored)
    else if m.from in s.receivedReady then Result(s1, {}, Repeated)
    else if !ok then Result(s1, {}, NotVerified)
    else if !m.signed then Result(s1, {}, BadSignature)
    else
      var cell := ReadyCell(s, m);
      var fire := |cell.readyFrom| == cfg.k && |cell.echoFrom| < cfg.EcThreshold();
      var r := Store(cfg, me, s1, m.c, cell, fire);
      if fire || |cell.readyFrom| != cfg.k + cfg.t then r else Finish(r, m.c, cell)
  }

  /** The last ready: the share is read off the constant coefficients. */
  ghost function Finish<P>(r: Result<P>, c: Matrix<P>, cell: Cell): Result<P> {
    if cell.bars.None? || cell.bars.value.abar == [] || cell.bars.value.abar' == [] then
      r.(status := Crash)   // the code would index an empty slice
    else
      r.(inst := r.inst.(phase := Over, cbar := c, si := cell.bars.value.abar[0], si' := cell.bars.value.abar'[0]))
  }

  /** The check against the commitment matrix that goes with each message. */
  ghost predicate Verified<P>(cfg: Config<P>, me: int, m: Msg<P>) {
    if m.Send? then SendOk(cfg, me, m)
    else PointCheck(cfg.g, m.c, m.from, me, m.pts.alpha, m.pts.alpha') == Passed
  }

  ghost function OnMsg<P>(cfg: Config<P>, me: int, dealer: int, s: Inst<P>, m: Msg<P>): Result<P> {
    match m
    case Send(_, _, _, _, _, _, _) => OnSend(cfg, me, dealer, s, m, Verified(cfg, me, m))
    case Echo(_, _, _, _) => OnEcho(cfg, me, s, m, Verified(cfg, me, m))
    case Ready(_, _, _, _, _) => OnReady(cfg, me, s, m, Verified(cfg, me, m))
  }

  // ----- bookkeeping

  /** The points held in a cell come from senders of the network, one per sender. */
  ghost predicate CellOk(nodes: set<int>, cell: Cell) {
    cell.pts.Keys == cell.echoFrom + cell.readyFrom <= nodes
  }

  /** A ready has been prepared exactly when one of the two thresholds has been reached. */
  ghost predicate BarsOk<P>(cfg: Config<P>, cell: Cell) {
    && (cell.bars.Some? <==> |cell.echoFrom| >= cfg.EcThreshold() || |cell.readyFrom| >= cfg.k)
    && (cell.bars.Some? ==> |cell.bars.value.abar| >= cfg.k && Sized(cell.bars.value, |cell.bars.value.abar|))
  }

  ghost predicate EntryOk<P>(cfg: Config<P>, s: Inst<P>, c: Matrix<P>) {
    c in s.cells ==>
      && CellOk(cfg.nodes, s.cells[c]) && BarsOk(cfg, s.cells[c])
      && s.cells[c].echoFrom <= s.receivedEcho
      && s.cells[c].readyFrom <= s.receivedReady
  }

  ghost predicate InstOk<P(!new)>(cfg: Config<P>, s: Inst<P>) {
    && (forall c {:trigger EntryOk(cfg, s, c)} :: EntryOk(cfg, s, c))
    && (s.phase.Over? ==> s.cbar in s.cells && |s.cells[s.cbar].readyFrom| >= cfg.k + cfg.t)
  }

  ghost predicate Sized(b: Bars, n: nat) {
    |b.abar| == |b.abar'| == |b.bbar| == |b.bbar'| == n
  }

  lemma InterpolatedSize(q: nat, pts: map<int, Points>)
    requires IsPrime(q) && forall x :: x in pts ==> 0 < x < q
    ensures Sized(Interpolated(q, pts), |pts|)
  {
    FitFits(q, Betas(pts));
    FitFits(q, Betas'(pts));
    FitFits(q, Alphas(pts));
    FitFits(q, Alphas'(pts));
    assert Betas(pts).Keys == Betas'(pts).Keys == Alphas(pts).Keys == Alphas'(pts).Keys == pts.Keys;
    assert |Betas(pts)| == |Betas(pts).Keys| && |Betas'(pts)| == |Betas'(pts).Keys|;
    assert |Alphas(pts)| == |Alphas(pts).Keys| && |Alphas'(pts)| == |Alphas'(pts).Keys|;
    assert |pts| == |pts.Keys|;
  }

  lemma CellKeyed<P>(cfg: Config<P>, cell: Cell)
    requires cfg.Valid() && CellOk(cfg.nodes, cell)
    ensures Sized(Interpolated(cfg.g.q, cell.pts), |cell.echoFrom + cell.readyFrom|)
    ensures |cell.echoFrom| <= |cell.echoFrom + cell.readyFrom|
    ensures |cell.readyFrom| <= |cell.echoFrom + cell.readyFrom|
  {
    InterpolatedSize(cfg.g.q, cell.pts);
    assert |cell.pts| == |cell.pts.Keys|;
    SubsetSize(cell.echoFrom, cell.echoFrom + cell.readyFrom);
    SubsetSize(cell.readyFrom, cell.echoFrom + cell.readyFrom);
  }

  /** The cell after `Store`. */
  ghost function Kept<P>(cfg: Config<P>, cell: Cell, fire: bool): Cell {
    if fire then cell.(bars := Some(Interpolated(cfg.g.q, cell.pts))) else cell
  }

  lemma OldCellOk<P(!new)>(cfg: Config<P>, s: Inst<P>, c: Matrix<P>)
    requires cfg.Valid() && InstOk(cfg, s)
    ensures CellOk(cfg.nodes, CellOf(s, c)) && BarsOk(cfg, CellOf(s, c))
    ensures CellOf(s, c).echoFrom <= s.receivedEcho && CellOf(s, c).readyFrom <= s.receivedReady
  {
    assert EntryOk(cfg, s, c);
  }

  lemma KeptOk<P>(cfg: Config<P>, cell: Cell, fire: bool)
    requires cfg.Valid() && CellOk(cfg.nodes, cell)
    requires fire ==> |cell.echoFrom| >= cfg.EcThreshold() || |cell.readyFrom| >= cfg.k
    requires !fire ==> BarsOk(cfg, cell)
    ensures CellOk(cfg.nodes, Kept(cfg, cell, fire)) && BarsOk(cfg, Kept(cfg, cell, fire))
  {
    CellKeyed(cfg, cell);
  }

  lemma EchoKeptOk<P>(cfg: Config<P>, prev: Cell, x: int, p: Points)
    requires cfg.Valid() && CellOk(cfg.nodes, prev) && BarsOk(cfg, prev) && x in cfg.nodes && x !in prev.echoFrom
    ensures var cell := prev.(echoFrom := prev.echoFrom + {x}, pts := prev.pts[x := p]);
            var fire := |cell.echoFrom| == cfg.EcThreshold() && |cell.readyFrom| < cfg.k;
            CellOk(cfg.nodes, Kept(cfg, cell, fire)) && BarsOk(cfg, Kept(cfg, cell, fire))
  {
    var cell := prev.(echoFrom := prev.echoFrom + {x}, pts := prev.pts[x := p]);
    assert |cell.echoFrom| == |prev.echoFrom| + 1;
    KeptOk(cfg, cell, |cell.echoFrom| == cfg.EcThreshold() && |cell.readyFrom| < cfg.k);
  }

  lemma ReadyKeptOk<P>(cfg: Config<P>, prev: Cell, x: int, p: Points)
    requires cfg.Valid() && CellOk(cfg.nodes, prev) && BarsOk(cfg, prev) && x in cfg.nodes && x !in prev.readyFrom
    ensures var cell := prev.(readyFrom := prev.readyFrom + {x}, pts := prev.pts[x := p]);
            var fire := |cell.readyFrom| == cfg.k && |cell.echoFrom| < cfg.EcThreshold();
            CellOk(cfg.nodes, Kept(cfg, cell, fire)) && BarsOk(cfg, Kept(cfg, cell, fire))
  {
    var cell := prev.(readyFrom := prev.readyFrom + {x}, pts := prev.pts[x := p]);
    assert |cell.readyFrom| == |prev.readyFrom| + 1;
    KeptOk(cfg, cell, |cell.readyFrom| == cfg.k && |cell.echoFrom| < cfg.EcThreshold());
  }

  /** One cell replaced, more senders marked. */
  lemma SetCellOk<P(!new)>(cfg: Config<P>, s: Inst<P>, s': Inst<P>, c: Matrix<P>, cell: Cell)
    requires InstOk(cfg, s) && s'.cells == s.cells[c := cell] && CellOk(cfg.nodes, cell) && BarsOk(cfg, cell)
    requires s.receivedEcho <= s'.receivedEcho && s.receivedReady <= s'.receivedReady
    requires cell.echoFrom <= s'.receivedEcho && cell.readyFrom <= s'.receivedReady
    requires !s.phase.Over?
    requires s'.phase.Over? ==> s'.cbar == c && |cell.readyFrom| >= cfg.k + cfg.t
    ensures InstOk(cfg, s')
  {
    forall d ensures EntryOk(cfg, s', d) {
      assert EntryOk(cfg, s, d);
    }
  }

  lemma MarkOk<P(!new)>(cfg: Config<P>, s: Inst<P>, s': Inst<P>)
    requires InstOk(cfg, s) && s'.cells == s.cells && s'.phase == s.phase && s'.cbar == s.cbar
    requires s.receivedEcho <= s'.receivedEcho && s.receivedReady <= s'.receivedReady
    ensures InstOk(cfg, s')
  {
    forall d ensures EntryOk(cfg, s', d) {
      assert EntryOk(cfg, s, d);
    }
  }

  lemma OnEchoOk<P(!new)>(cfg: Config<P>, me: int, s: Inst<P>, m: Msg<P>, ok: bool)
    requires cfg.Valid() && InstOk(cfg, s) && m.Echo? && m.from in cfg.nodes
    ensures InstOk(cfg, OnEcho(cfg, me, s, m, ok).inst)
  {
    EchoCellsAre(cfg, me, s, m, ok);
    EchoedOk(cfg, s, OnEcho(cfg, me, s, m, ok).inst, m);
  }

  lemma EchoedOk<P(!new)>(cfg: Config<P>, s: Inst<P>, s': Inst<P>, m: Msg<P>)
    requires cfg.Valid() && InstOk(cfg, s) && m.Echo? && m.from in cfg.nodes
    requires s'.phase == s.phase && s'.cbar == s.cbar && s'.receivedReady == s.receivedReady
    requires s'.receivedEcho == s.receivedEcho + {m.from}
    requires var cell := EchoCell(s, m);
             || s'.cells == s.cells
             || (&& !s.phase.Over? && m.from !in s.receivedEcho
                 && s'.cells == s.cells[m.c := Kept(cfg, cell, |cell.echoFrom| == cfg.EcThreshold() && |cell.readyFrom| < cfg.k)])
    ensures InstOk(cfg, s')
  {
    if s'.cells == s.cells {
      MarkOk(cfg, s, s');
    } else {
      OldCellOk(cfg, s, m.c);
      EchoKeptOk(cfg, CellOf(s, m.c), m.from, m.pts);
      SetCellOk(cfg, s, s', m.c, s'.cells[m.c]);
    }
  }

  /** A ready leaves the cells alone or stores the cell of its matrix. */
  lemma ReadyCellsAre<P>(cfg: Config<P>, me: int, s: Inst<P>, m: Msg<P>, ok: bool)
    requires m.Ready?
    ensures var s', cell := OnReady(cfg, me, s, m, ok).inst, ReadyCell(s, m);
            || (s'.cells == s.cells && s'.phase == s.phase && s'.cbar == s.cbar && s'.si == s.si && s'.si' == s.si')
            || (&& !s.phase.Over? && m.from !in s.receivedReady
                && s'.cells == s.cells[m.c := Kept(cfg, cell, |cell.readyFrom| == cfg.k && |cell.echoFrom| < cfg.EcThreshold())])
  {
  }

  lemma EchoCellsAre<P>(cfg: Config<P>, me: int, s: Inst<P>, m: Msg<P>, ok: bool)
    requires m.Echo?
    ensures var s', cell := OnEcho(cfg, me, s, m, ok).inst, EchoCell(s, m);
            && s'.phase == s.phase && s'.cbar == s.cbar && s'.si == s.si && s'.si' == s.si'
            && (|| s'.cells == s.cells
                || (&& !s.phase.Over? && m.from !in s.receivedEcho
                    && s'.cells == s.cells[m.c := Kept(cfg, cell, |cell.echoFrom| == cfg.EcThreshold() && |cell.readyFrom| < cfg.k)]))
  {
  }

  /** Only the sender of a delivered message joins a cell, and only in the cell of its matrix. */
  lemma CellsGrow<P>(cfg: Config<P>, me: int, dealer: int, s: Inst<P>, m: Msg<P>, c: Matrix<P>)
    ensures var s' := OnMsg(cfg, me, dealer, s, m).inst;
            && CellOf(s', c).echoFrom <= CellOf(s, c).echoFrom + (if m.Echo? && m.c == c then {m.from} else {})
            && CellOf(s', c).readyFrom <= CellOf(s, c).readyFrom + (if m.Ready? && m.c == c then {m.from} else {})
  {
    match m
    case Send(_, _, _, _, _, _, _) =>
    case Echo(_, _, _, _) => EchoCellsGrow(cfg, me, s, m, Verified(cfg, me, m), c);
    case Ready(_, _, _, _, _) => ReadyCellsGrow(cfg, me, s, m, Verified(cfg, me, m), c);
  }

  lemma EchoCellsGrow<P>(cfg: Config<P>, me: int, s: Inst<P>, m: Msg<P>, ok: bool, c: Matrix<P>)
    requires m.Echo?
    ensures var s' := OnEcho(cfg, me, s, m, ok).inst;
            && CellOf(s', c).echoFrom <= CellOf(s, c).echoFrom + (if m.c == c then {m.from} else {})
            && CellOf(s', c).readyFrom == CellOf(s, c).readyFrom
  {
  }

  lemma ReadyCellsGrow<P>(cfg: Config<P>, me: int, s: Inst<P>, m: Msg<P>, ok: bool, c: Matrix<P>)
    requires m.Ready?
    ensures var s' := OnReady(cfg, me, s, m, ok).inst;
            && CellOf(s', c).readyFrom <= CellOf(s, c).readyFrom + (if m.c == c then {m.from} else {})
            && CellOf(s', c).echoFrom == CellOf(s, c).echoFrom
  {
    ReadyCellsAre(cfg, me, s, m, ok);
  }

  lemma OnReadyOk<P(!new)>(cfg: Config<P>, me: int, s: Inst<P>, m: Msg<P>, ok: bool)
    requires cfg.Valid() && InstOk(cfg, s) && m.Ready? && m.from in cfg.nodes
    ensures InstOk(cfg, OnReady(cfg, me, s, m, ok).inst)
  {
    if !s.phase.Over? && m.from !in s.receivedReady && ok && m.signed {
      ReadyTakenOk(cfg, me, s, m);
    } else {
      MarkOk(cfg, s, OnReady(cfg, me, s, m, ok).inst);
    }
  }

  lemma ReadyTakenOk<P(!new)>(cfg: Config<P>, me: int, s: Inst<P>, m: Msg<P>)
    requires cfg.Valid() && InstOk(cfg, s) && m.Ready? && m.from in cfg.nodes
    requires !s.phase.Over? && m.from !in s.receivedReady && m.signed
    ensures InstOk(cfg, OnReady(cfg, me, s, m, true).inst)
  {
    var s' := OnReady(cfg, me, s, m, true).inst;
    OldCellOk(cfg, s, m.c);
    ReadyKeptOk(cfg, CellOf(s, m.c), m.from, m.pts);
    SetCellOk(cfg, s, s', m.c, s'.cells[m.c]);
  }
}
