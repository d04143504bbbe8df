/** One sharing as the code keeps it: counters, one map per kind of point, fields updated in place. */
module SharingNode {
  import opened Modular
  import opened Sets
  import opened Curve
  import opened Polynomials
  import opened Lagrange
  import opened Pvss
  import opened Avss
  import opened Interpolant
  import opened Machine

  /** The struct C; an empty slice is one that has not been computed. */
  datatype Entry = Entry(ec: nat, rc: nat,
                         ac: map<int, int>, ac': map<int, int>, bc: map<int, int>, bc': map<int, int>,
                         abar: seq<int>, abar': seq<int>, bbar: seq<int>, bbar': seq<int>)

  const NewEntry := Entry(0, 0, map[], map[], map[], map[], [], [], [], [])

  /** The counters count the senders, the maps hold their points, the slices what was interpolated. */
  ghost predicate Matches(e: Entry, cell: Cell) {
    && e.ec == |cell.echoFrom| && e.rc == |cell.readyFrom|
    && e.ac == Alphas(cell.pts) && e.ac' == Alphas'(cell.pts) && e.bc == Betas(cell.pts) && e.bc' == Betas'(cell.pts)
    && Bars(e.abar, e.abar', e.bbar, e.bbar') == (if cell.bars.Some? then cell.bars.value else Bars([], [], [], []))
  }

  /** `GetPointArrayFromMap`: the entries in whatever order the map yields them. */
  method GetPointArrayFromMap(m: map<int, int>) returns (pts: seq<Sample>)
    ensures Enumerates(pts, m)
  {
    pts := [];
    var rest := m.Keys;
    while rest != {}
      invariant rest <= m.Keys && |pts| + |rest| == |m.Keys|
      invariant forall i :: 0 <= i < |pts| ==> pts[i].x in m && pts[i].x !in rest && m[pts[i].x] == pts[i].y
      invariant forall i, j :: 0 <= i < j < |pts| ==> pts[i].x != pts[j].x
      decreases |rest|
    {
      var x := Choose(rest);
      pts := pts + [Sample(x, m[x])];
      rest := rest - {x};
    }
    assert |m| == |m.Keys|;
  }

  /** Interpolating the entries of a map gives its one fitting polynomial. */
  method Interpolate(q: nat, m: map<int, int>) returns (r: seq<int>)
    requires IsPrime(q) && Keyed(m, q)
    ensures r == Fit(q, m)
  {
    var pts := GetPointArrayFromMap(m);
    EnumerationIsDistinct(pts, m, q);
    var p := LagrangeInterpolatePolynomial(q, pts);
    r := p.value;
    InterpolantFits(r, pts, m, q);
    FitFits(q, m);
    FitUnique(r, Fit(q, m), m, q);
  }

  method Evaluate(q: nat, p: seq<int>, k: nat, x: int) returns (v: int)
    requires q > 0 && 1 <= k <= |p|
    ensures v == ValueAt(q, p, k, x)
  {
    v := PolyEval(q, p, k, x);
    if k >= 2 {
      ModIsCong(Eval(p[..k], x), q);
      ReducedUnique(v, Eval(p[..k], x) % q, q);
    }
  }

  method PointsTo<P>(cfg: Config<P>, a: seq<int>, a': seq<int>, b: seq<int>, b': seq<int>, i: int) returns (p: Points)
    requires cfg.g.q > 0 && cfg.k >= 1
    requires cfg.k <= |a| && cfg.k <= |a'| && cfg.k <= |b| && cfg.k <= |b'|
    ensures p == PointsFor(cfg, a, a', b, b', i)
  {
    var alpha := Evaluate(cfg.g.q, a, cfg.k, i);
    var alpha' := Evaluate(cfg.g.q, a', cfg.k, i);
    var beta := Evaluate(cfg.g.q, b, cfg.k, i);
    var beta' := Evaluate(cfg.g.q, b', cfg.k, i);
    p := Points(alpha, alpha', beta, beta');
  }

  method MakeEchoes<P(==)>(cfg: Config<P>, me: int, m: Msg<P>) returns (out: set<Msg<P>>)
    requires cfg.g.q > 0 && cfg.k >= 1 && m.Send?
    requires cfg.k <= |m.a| && cfg.k <= |m.a'| && cfg.k <= |m.b| && cfg.k <= |m.b'|
    ensures out == Echoes(cfg, me, m)
  {
    out := {};
    var rest := cfg.nodes;
    while rest != {}
      invariant rest <= cfg.nodes
      invariant out == set i | i in cfg.nodes && i !in rest :: Echo(me, i, m.c, PointsFor(cfg, m.a, m.a', m.b, m.b', i))
      decreases |rest|
    {
      var i := Choose(rest);
      var p := PointsTo(cfg, m.a, m.a', m.b, m.b', i);
      out := out + {Echo(me, i, m.c, p)};
      rest := rest - {i};
    }
  }

  method MakeReadies<P(==)>(cfg: Config<P>, me: int, c: Matrix<P>, b: Bars) returns (out: set<Msg<P>>)
    requires cfg.g.q > 0 && cfg.k >= 1 && |b.abar| >= cfg.k && Sized(b, |b.abar|)
    ensures out == Readies(cfg, me, c, b)
  {
    out := {};
    var rest := cfg.nodes;
    while rest != {}
      invariant rest <= cfg.nodes
      invariant out == set i | i in cfg.nodes && i !in rest ::
                         Ready(me, i, c, PointsFor(cfg, b.abar, b.abar', b.bbar, b.bbar', i), true)
      decreases |rest|
    {
      var i := Choose(rest);
      var p := PointsTo(cfg, b.abar, b.abar', b.bbar, b.bbar', i);
      out := out + {Ready(me, i, c, p, true)};
      rest := rest - {i};
    }
  }

  /** Interpolate what was collected for c and answer with a `ready` to every node. */
  method Prepare<P(==)>(cfg: Config<P>, me: int, c: Matrix<P>, e: Entry, ghost cell: Cell)
    returns (r: Entry, out: set<Msg<P>>)
    requires cfg.Valid() && CellOk(cfg.nodes, cell) && Matches(e, cell)
    requires |cell.echoFrom| >= cfg.k || |cell.readyFrom| >= cfg.k
    ensures Matches(r, Kept(cfg, cell, true)) && out == Readies(cfg, me, c, Interpolated(cfg.g.q, cell.pts))
  {
    CellKeyed(cfg, cell);
    var q := cfg.g.q;
    var abar := Interpolate(q, e.bc);
    var abar' := Interpolate(q, e.bc');
    var bbar := Interpolate(q, e.ac);
    var bbar' := Interpolate(q, e.ac');
    r := e.(abar := abar, abar' := abar', bbar := bbar, bbar' := bbar');
    out := MakeReadies(cfg, me, c, Bars(abar, abar', bbar, bbar'));
  }

  /** The points of one more sender go into the four maps. */
  function AddPoints(e: Entry, x: int, p: Points): Entry {
    e.(ac := e.ac[x := p.alpha], ac' := e.ac'[x := p.alpha'], bc := e.bc[x := p.beta], bc' := e.bc'[x := p.beta'])
  }

  lemma AddPointsMatches(e: Entry, cell: Cell, x: int, p: Points)
    requires Matches(e, cell)
    ensures Matches(AddPoints(e, x, p), cell.(pts := cell.pts[x := p]))
  {
    var after := cell.pts[x := p];
    assert Alphas(after) == Alphas(cell.pts)[x := p.alpha];
    assert Alphas'(after) == Alphas'(cell.pts)[x := p.alpha'];
    assert Betas(after) == Betas(cell.pts)[x := p.beta];
    assert Betas'(after) == Betas'(cell.pts)[x := p.beta'];
  }

  ghost predicate Echoed<P>(cfg: Config<P>, cell: Cell) {
    |cell.echoFrom| == cfg.EcThreshold() && |cell.readyFrom| < cfg.k
  }

  ghost predicate Readied<P>(cfg: Config<P>, cell: Cell) {
    |cell.readyFrom| == cfg.k && |cell.echoFrom| < cfg.EcThreshold()
  }

  /** The store of the code against the cells of the machine. */
  ghost predicate Holds<P(!new)>(cstore: map<Matrix<P>, Entry>, cells: map<Matrix<P>, Cell>) {
    forall c {:trigger HoldsAt(cstore, cells, c)} :: HoldsAt(cstore, cells, c)
  }

  ghost predicate HoldsAt<P>(cstore: map<Matrix<P>, Entry>, cells: map<Matrix<P>, Cell>, c: Matrix<P>) {
    (c in cstore <==> c in cells) && (c in cstore ==> Matches(cstore[c], cells[c]))
  }

  lemma HoldsSet<P(!new)>(cstore: map<Matrix<P>, Entry>, cells: map<Matrix<P>, Cell>, c: Matrix<P>, e: Entry, cell: Cell)
    requires Holds(cstore, cells) && Matches(e, cell)
    ensures Holds(cstore[c := e], cells[c := cell])
  {
    var after, cells' := cstore[c := e], cells[c := cell];
    forall d ensures HoldsAt(after, cells', d) {
      assert HoldsAt(cstore, cells, d);
    }
  }

  method Lookup<P(!new,==)>(cstore: map<Matrix<P>, Entry>, ghost s: Inst<P>, c: Matrix<P>) returns (e: Entry)
    requires Holds(cstore, s.cells)
    ensures Matches(e, CellOf(s, c))
  {
    assert HoldsAt(cstore, s.cells, c);
    e := if c in cstore then cstore[c] else NewEntry;
  }

  /** What a verified echo does to the entry of its matrix. */
  method TakeEcho<P(!new,==)>(cfg: Config<P>, me: int, m: Msg<P>, cstore: map<Matrix<P>, Entry>, ghost s: Inst<P>)
    returns (r: map<Matrix<P>, Entry>, out: set<Msg<P>>, fired: bool)
    requires cfg.Valid() && m.Echo? && m.from in cfg.nodes && m.from !in CellOf(s, m.c).echoFrom
    requires CellOk(cfg.nodes, CellOf(s, m.c)) && Holds(cstore, s.cells)
    ensures var cell := EchoCell(s, m);
            && fired == Echoed(cfg, cell) && Holds(r, s.cells[m.c := Kept(cfg, cell, fired)])
            && out == if fired then Readies(cfg, me, m.c, Interpolated(cfg.g.q, cell.pts)) else {}
  {
    ghost var cell := EchoCell(s, m);
    var e := Lookup(cstore, s, m.c);
    AddPointsMatches(e, CellOf(s, m.c), m.from, m.pts);
    e, out := AddPoints(e, m.from, m.pts).(ec := e.ec + 1), {};
    fired := e.ec == cfg.EcThreshold() && e.rc < cfg.k;
    if fired {
      e, out := Prepare(cfg, me, m.c, e, cell);
    }
    HoldsSet(cstore, s.cells, m.c, e, Kept(cfg, cell, fired));
    r := cstore[m.c := e];
  }

  /** What a verified and signed ready does to the entry of its matrix. */
  method TakeReady<P(!new,==)>(cfg: Config<P>, me: int, m: Msg<P>, cstore: map<Matrix<P>, Entry>, ghost s: Inst<P>)
    returns (r: map<Matrix<P>, Entry>, out: set<Msg<P>>, fired: bool)
    requires cfg.Valid() && m.Ready? && m.from in cfg.nodes && m.from !in CellOf(s, m.c).readyFrom
    requires CellOk(cfg.nodes, CellOf(s, m.c)) && Holds(cstore, s.cells)
    ensures var cell := ReadyCell(s, m);
            && fired == Readied(cfg, cell) && Holds(r, s.cells[m.c := Kept(cfg, cell, fired)])
            && out == if fired then Readies(cfg, me, m.c, Interpolated(cfg.g.q, cell.pts)) else {}
  {
    ghost var cell := ReadyCell(s, m);
    var e := Lookup(cstore, s, m.c);
    AddPointsMatches(e, CellOf(s, m.c), m.from, m.pts);
    e, out := AddPoints(e, m.from, m.pts).(rc := e.rc + 1), {};
    fired := e.rc == cfg.k && e.ec < cfg.EcThreshold();
    if fired {
      e, out := Prepare(cfg, me, m.c, e, cell);
    }
    HoldsSet(cstore, s.cells, m.c, e, Kept(cfg, cell, fired));
    r := cstore[m.c := e];
  }

  // ----- where the code indexes out of range

  /** The code reads C[0][0] to sign a ready in key generation, and to announce the end in re-sharing. */
  predicate NoEntry<P>(c: Matrix<P>) { c == [] || c[0] == [] }

  ghost predicate SendCrashes<P>(cfg: Config<P>, me: int, dealer: int, s: Inst<P>, m: Msg<P>)
    requires m.Send? && cfg.k > 0
  {
    && !s.phase.Over? && !(cfg.onceOnly && s.receivedSend) && m.from == dealer
    && var check := PolyCheck(cfg.g, m.c, me, cfg.k, m.a, m.a', m.b, m.b');
       check == OutOfRange || (check == Passed && (|m.a| < cfg.k || |m.b| < cfg.k))
  }

  ghost predicate EchoCrashes<P>(cfg: Config<P>, me: int, s: Inst<P>, m: Msg<P>)
    requires m.Echo?
  {
    && !s.phase.Over? && m.from !in s.receivedEcho
    && (ShortRow(m.c) || (Verified(cfg, me, m) && Echoed(cfg, EchoCell(s, m)) && NoEntry(m.c) && !cfg.onceOnly))
  }

  ghost predicate ReadyCrashes<P>(cfg: Config<P>, me: int, s: Inst<P>, m: Msg<P>)
    requires m.Ready?
  {
    && !s.phase.Over? && m.from !in s.receivedReady
    && (ShortRow(m.c) || (Verified(cfg, me, m) && NoEntry(m.c) && (cfg.onceOnly ==> m.signed && Ends(cfg, s, m))))
  }

  ghost predicate Ends<P>(cfg: Config<P>, s: Inst<P>, m: Msg<P>)
    requires m.Ready?
  {
    !Readied(cfg, ReadyCell(s, m)) && |ReadyCell(s, m).readyFrom| == cfg.k + cfg.t
  }

  lemma EndsMarked<P>(cfg: Config<P>, s: Inst<P>, s1: Inst<P>, m: Msg<P>)
    requires m.Ready? && s1.cells == s.cells
    ensures Ends(cfg, s1, m) == Ends(cfg, s, m) && ReadyCell(s1, m) == ReadyCell(s, m)
  {
  }

  /** What remains of the machine's step once a ready has been let through and its sender marked. */
  ghost function ReadyCounted<P>(cfg: Config<P>, me: int, s: Inst<P>, m: Msg<P>): Result<P>
    requires m.Ready?
  {
    var cell := ReadyCell(s, m);
    var r := Store(cfg, me, s, m.c, cell, Readied(cfg, cell));
    if Ends(cfg, s, m) then Finish(r, m.c, cell) else r
  }

  lemma EchoStored<P(!new)>(cfg: Config<P>, s: Inst<P>, m: Msg<P>)
    requires cfg.Valid() && InstOk(cfg, s) && m.Echo? && m.from in cfg.nodes && !s.phase.Over?
    requires m.from in s.receivedEcho && m.from !in CellOf(s, m.c).echoFrom
    ensures InstOk(cfg, s.(cells := s.cells[m.c := Kept(cfg, EchoCell(s, m), Echoed(cfg, EchoCell(s, m)))]))
  {
    var kept := Kept(cfg, EchoCell(s, m), Echoed(cfg, EchoCell(s, m)));
    OldCellOk(cfg, s, m.c);
    EchoKeptOk(cfg, CellOf(s, m.c), m.from, m.pts);
    SetCellOk(cfg, s, s.(cells := s.cells[m.c := kept]), m.c, kept);
  }

  lemma ReadyStored<P(!new)>(cfg: Config<P>, s: Inst<P>, m: Msg<P>)
    requires cfg.Valid() && InstOk(cfg, s) && m.Ready? && m.from in cfg.nodes && !s.phase.Over?
    requires m.from in s.receivedReady && m.from !in CellOf(s, m.c).readyFrom
    ensures InstOk(cfg, s.(cells := s.cells[m.c := Kept(cfg, ReadyCell(s, m), Readied(cfg, ReadyCell(s, m)))]))
  {
    var kept := Kept(cfg, ReadyCell(s, m), Readied(cfg, ReadyCell(s, m)));
    OldCellOk(cfg, s, m.c);
    ReadyKeptOk(cfg, CellOf(s, m.c), m.from, m.pts);
    SetCellOk(cfg, s, s.(cells := s.cells[m.c := kept]), m.c, kept);
  }

  class Sharing<P(!new,==)> {
    const cfg: Config<P>
    const me: int
    const dealer: int
    var phase: Phase
    var receivedSend: bool
    var receivedEcho: set<int>
    var receivedReady: set<int>
    var cstore: map<Matrix<P>, Entry>
    var cbar: Matrix<P>
    var si: int
    var si': int
    ghost var model: Inst<P>

    ghost predicate Valid()
      reads this
    {
      && cfg.Valid() && Laws(cfg.g) && InstOk(cfg, model)
      && phase == model.phase && receivedSend == model.receivedSend
      && receivedEcho == model.receivedEcho && receivedReady == model.receivedReady
      && cbar == model.cbar && si == model.si && si' == model.si'
      && Holds(cstore, model.cells)
    }

    constructor (cfg: Config<P>, me: int, dealer: int)
      requires cfg.Valid() && Laws(cfg.g)
      ensures Valid() && this.cfg == cfg && this.me == me && this.dealer == dealer && model == Machine.Fresh()
    {
      this.cfg, this.me, this.dealer := cfg, me, dealer;
      phase, receivedSend, receivedEcho, receivedReady := Initial, false, {}, {};
      cstore, cbar, si, si' := map[], [], 0, 0;
      model := Machine.Fresh();
    }

    /** `processSendMessage`, and the `send` branch of re-sharing. Polynomials that are too short for their
        evaluation, or a matrix that is read beyond a row, are where the code panics. */
    method ProcessSend(m: Msg<P>) returns (out: set<Msg<P>>, status: Status)
      requires Valid() && m.Send?
      modifies this
      ensures status == Crash <==> cfg.k > 0 && SendCrashes(cfg, me, dealer, old(model), m)
      ensures status != Crash ==>
                Valid() && Machine.Result(model, out, status) == OnSend(cfg, me, dealer, old(model), m, Verified(cfg, me, m))
    {
      out := {};
      if phase.Over? {
        return out, Ignored;
      }
      if cfg.onceOnly && receivedSend {
        return out, Repeated;
      }
      if m.from != dealer {
        return out, NotDealer;
      }
      receivedSend := true;
      model := model.(receivedSend := true);
      MarkOk(cfg, old(model), model);
      PolyCheckPasses(cfg.g, m.c, me, cfg.k, m.a, m.a', m.b, m.b');
      var check := AVSSVerifyPoly(cfg.g, m.c, me, cfg.k, m.a, m.a', m.b, m.b');
      if check == OutOfRange {
        return out, Crash;
      }
      if check == Failed {
        return out, NotVerified;
      }
      if |m.a| < cfg.k || |m.b| < cfg.k {
        return out, Crash;
      }
      out := MakeEchoes(cfg, me, m);
      status := Fine;
    }

    method MarkEcho(m: Msg<P>) returns (repeated: bool)
      requires Valid() && m.Echo?
      modifies this
      ensures Valid() && cstore == old(cstore) && repeated == (m.from in old(model).receivedEcho)
      ensures model == old(model).(receivedEcho := old(model).receivedEcho + {m.from})
      ensures !repeated ==> m.from !in CellOf(model, m.c).echoFrom
    {
      OldCellOk(cfg, model, m.c);
      repeated := m.from in receivedEcho;
      receivedEcho := receivedEcho + {m.from};
      model := model.(receivedEcho := receivedEcho);
      MarkOk(cfg, old(model), model);
    }

    /** `processEchoMessage` */
    method ProcessEcho(m: Msg<P>) returns (out: set<Msg<P>>, status: Status)
      requires Valid() && m.Echo? && m.from in cfg.nodes
      modifies this
      ensures status == Crash <==> EchoCrashes(cfg, me, old(model), m)
      ensures status != Crash ==>
                Valid() && Machine.Result(model, out, status) == OnEcho(cfg, me, old(model), m, Verified(cfg, me, m))
    {
      var repeated := MarkEcho(m);
      if phase.Over? {
        return {}, Ignored;
      }
      if repeated {
        return {}, Repeated;
      }
      var check := AVSSVerifyPoint(cfg.g, m.c, m.from, me, m.pts.alpha, m.pts.alpha');
      if check == OutOfRange {
        return {}, Crash;
      }
      if check == Failed {
        return {}, NotVerified;
      }
      var fired;
      out, fired := StoreEcho(m);
      status := if fired && NoEntry(m.c) && !cfg.onceOnly then Crash else Fine;
    }

    method StoreEcho(m: Msg<P>) returns (out: set<Msg<P>>, fired: bool)
      requires Valid() && m.Echo? && m.from in cfg.nodes && !phase.Over?
      requires m.from in receivedEcho && m.from !in CellOf(model, m.c).echoFrom
      modifies this
      ensures Valid() && fired == Echoed(cfg, EchoCell(old(model), m))
      ensures Machine.Result(model, out, Fine) == Store(cfg, me, old(model), m.c, EchoCell(old(model), m), fired)
    {
      ghost var s := model;
      OldCellOk(cfg, s, m.c);
      EchoStored(cfg, s, m);
      cstore, out, fired := TakeEcho(cfg, me, m, cstore, s);
      model := s.(cells := s.cells[m.c := Kept(cfg, EchoCell(s, m), fired)]);
    }

    method MarkReady(m: Msg<P>) returns (repeated: bool)
      requires Valid() && m.Ready?
      modifies this
      ensures Valid() && cstore == old(cstore) && repeated == (m.from in old(model).receivedReady)
      ensures model == old(model).(receivedReady := old(model).receivedReady + {m.from})
      ensures !repeated ==> m.from !in CellOf(model, m.c).readyFrom
    {
      OldCellOk(cfg, model, m.c);
      repeated := m.from in receivedReady;
      receivedReady := receivedReady + {m.from};
      model := model.(receivedReady := receivedReady);
      MarkOk(cfg, old(model), model);
    }

    /** `processReadyMessage` */
    method ProcessReady(m: Msg<P>) returns (out: set<Msg<P>>, status: Status)
      requires Valid() && m.Ready? && m.from in cfg.nodes
      modifies this
      ensures status == Crash <==> ReadyCrashes(cfg, me, old(model), m)
      ensures status != Crash ==>
                Valid() && Machine.Result(model, out, status) == OnReady(cfg, me, old(model), m, Verified(cfg, me, m))
    {
      var repeated := MarkReady(m);
      if phase.Over? {
        return {}, Ignored;
      }
      if repeated {
        return {}, Repeated;
      }
      var check := AVSSVerifyPoint(cfg.g, m.c, m.from, me, m.pts.alpha, m.pts.alpha');
      if check == OutOfRange {
        return {}, Crash;
      }
      if check == Failed {
        return {}, NotVerified;
      }
      if !cfg.onceOnly && NoEntry(m.c) {
        return {}, Crash;
      }
      if !m.signed {
        return {}, BadSignature;
      }
      EndsMarked(cfg, old(model), model, m);
      out := CountReady(m);
      status := if phase.Over? && NoEntry(m.c) then Crash else Fine;
    }

    method CountReady(m: Msg<P>) returns (out: set<Msg<P>>)
      requires Valid() && m.Ready? && m.from in cfg.nodes && !phase.Over?
      requires m.from in receivedReady && m.from !in CellOf(model, m.c).readyFrom
      modifies this
      ensures Valid() && Machine.Result(model, out, Fine) == ReadyCounted(cfg, me, old(model), m)
      ensures phase.Over? <==> Ends(cfg, old(model), m)
    {
      var fired;
      out, fired := StoreReady(m);
      var e := Lookup(cstore, model, m.c);
      if !fired && e.rc == cfg.k + cfg.t {
        Complete(m.c);
      }
    }

    method StoreReady(m: Msg<P>) returns (out: set<Msg<P>>, fired: bool)
      requires Valid() && m.Ready? && m.from in cfg.nodes && !phase.Over?
      requires m.from in receivedReady && m.from !in CellOf(model, m.c).readyFrom
      modifies this
      ensures Valid() && fired == Readied(cfg, ReadyCell(old(model), m))
      ensures Machine.Result(model, out, Fine) == Store(cfg, me, old(model), m.c, ReadyCell(old(model), m), fired)
    {
      ghost var s := model;
      OldCellOk(cfg, s, m.c);
      ReadyStored(cfg, s, m);
      cstore, out, fired := TakeReady(cfg, me, m, cstore, s);
      model := s.(cells := s.cells[m.c := Kept(cfg, ReadyCell(s, m), fired)]);
    }

    /** The share is read off the constant coefficients; the slices are never empty here. */
    method Complete(c: Matrix<P>)
      requires Valid() && c in model.cells && |model.cells[c].readyFrom| >= cfg.k + cfg.t
      modifies this
      ensures Valid() && c in model.cells && model.cells[c].bars.Some?
      ensures var b := model.cells[c].bars.value;
              b.abar != [] && b.abar' != []
              && model == old(model).(phase := Over, cbar := c, si := b.abar[0], si' := b.abar'[0])
    {
      ghost var s := model;
      OldCellOk(cfg, s, c);
      var e := Lookup(cstore, s, c);
      phase, cbar, si, si' := Over, c, e.abar[0], e.abar'[0];
      model := s.(phase := Over, cbar := c, si := si, si' := si');
      forall d ensures EntryOk(cfg, model, d) {
        assert EntryOk(cfg, s, d);
      }
    }
  }
}
