/** Key generation, which accepts a second `send` of the dealer: whenever there are nodes enough for two camps, some run
    ends with two honest nodes holding different matrices. So the count of nodes decides, exactly, whether key generation
    always agrees. */
module Disagreement {
  import opened Modular
  import opened Sets
  import opened Curve
  import opened Avss
  import opened Machine
  import opened Instance
  import opened Agreement
  import opened Splitting
  import Completion
  import Constants

  /** A network, and two sharings the dealer can make in it. */
  datatype Faces<!P> = Faces(w: World<P>, a: Completion.World<P>, b: Completion.World<P>)

  ghost predicate Sharing<P(!new)>(w: World<P>, d: Completion.World<P>) {
    d.cfg == w.cfg && d.dealer == w.dealer && Completion.Valid(d)
  }

  ghost predicate TwoFaced<P(!new)>(z: Faces<P>) {
    z.w.Valid() && !z.w.cfg.onceOnly && Sharing(z.w, z.a) && Sharing(z.w, z.b) && z.a.c != z.b.c
  }

  // ----- fair states: all that is said and counted belongs to one of the two sharings

  ghost predicate Right<P(!new)>(z: Faces<P>, m: Msg<P>) {
    TwoFaced(z) && (Completion.RightMsg(z.a, m) || Completion.RightMsg(z.b, m))
  }

  ghost predicate Has<P>(net: set<Msg<P>>, ready: bool, x: int, y: int, c: Matrix<P>) {
    exists m :: m in net && !m.Send? && m.Ready? == ready && m.from == x && m.to == y && m.c == c
  }

  /** x has told every node about c. */
  ghost predicate Told<P>(w: World<P>, net: set<Msg<P>>, ready: bool, x: int, c: Matrix<P>) {
    forall y {:trigger Has(net, ready, x, y, c)} :: y in w.cfg.nodes ==> Has(net, ready, x, y, c)
  }

  ghost predicate FaceOk<P(!new)>(w: World<P>, d: Completion.World<P>, net: set<Msg<P>>, p: int, s: Inst<P>)
    requires Sharing(w, d)
  {
    && Completion.CellRight(d, p, CellOf(s, d.c))
    && (CellOf(s, d.c).bars.Some? ==> Told(w, net, true, p, d.c))
  }

  ghost predicate NodeFair<P(!new)>(z: Faces<P>, net: set<Msg<P>>, p: int, s: Inst<P>)
    requires TwoFaced(z)
  {
    InstOk(z.w.cfg, s) && FaceOk(z.w, z.a, net, p, s) && FaceOk(z.w, z.b, net, p, s)
  }

  ghost predicate Fair<P(!new)>(z: Faces<P>, s: System<P>)
    requires TwoFaced(z)
  {
    && s.insts.Keys == z.w.cfg.nodes - z.w.bad
    && (forall m {:trigger Right(z, m)} :: m in s.net ==> Right(z, m))
    && (forall p {:trigger NodeFair(z, s.net, p, s.insts[p])} :: p in s.insts ==> NodeFair(z, s.net, p, s.insts[p]))
  }

  lemma ToldGrows<P>(w: World<P>, net: set<Msg<P>>, net': set<Msg<P>>, ready: bool, x: int, c: Matrix<P>)
    requires net <= net' && Told(w, net, ready, x, c)
    ensures Told(w, net', ready, x, c)
  {
    forall y | y in w.cfg.nodes ensures Has(net', ready, x, y, c) {
      assert Has(net, ready, x, y, c);
    }
  }

  lemma CellsElsewhere<P>(cfg: Config<P>, me: int, dealer: int, s: Inst<P>, m: Msg<P>, c: Matrix<P>)
    requires c != m.c
    ensures CellOf(OnMsg(cfg, me, dealer, s, m).inst, c) == CellOf(s, c)
  {
    match m
    case Send(_, _, _, _, _, _, _) =>
    case Echo(_, _, _, _) => EchoCellsAre(cfg, me, s, m, Verified(cfg, me, m));
    case Ready(_, _, _, _, _) => ReadyCellsAre(cfg, me, s, m, Verified(cfg, me, m));
  }

  lemma MatrixOf<P(!new)>(d: Completion.World<P>, m: Msg<P>)
    requires Completion.Valid(d) && Completion.RightMsg(d, m)
    ensures m.c == d.c
  {
    if m.Send? {
      assert Completion.RightSend(d, d.sends[m.to], m.to);
    }
  }

  lemma CellStaysRight<P(!new)>(d: Completion.World<P>, s: Inst<P>, m: Msg<P>)
    requires Completion.Valid(d) && InstOk(d.cfg, s) && Completion.RightMsg(d, m)
    requires Completion.CellRight(d, m.to, CellOf(s, d.c))
    ensures Completion.CellRight(d, m.to, CellOf(OnMsg(d.cfg, m.to, d.dealer, s, m).inst, d.c))
  {
    match m {
      case Send(_, _, _, _, _, _, _) =>
      case Echo(_, _, _, _) =>
        EchoCellsAre(d.cfg, m.to, s, m, Verified(d.cfg, m.to, m));
        if m.from !in s.receivedEcho { Completion.EchoCellRight(d, m.to, s, m); }
      case Ready(_, _, _, _, _) =>
        ReadyCellsAre(d.cfg, m.to, s, m, Verified(d.cfg, m.to, m));
        if m.from !in s.receivedReady { Completion.ReadyCellRight(d, m.to, s, m); }
    }
  }

  lemma ToldByOut<P(!new)>(w: World<P>, d: Completion.World<P>, out: set<Msg<P>>, ready: bool, p: int)
    requires Sharing(w, d) && Completion.ToldAll(d, out, ready, p) && forall o :: o in out ==> Completion.RightMsg(d, o)
    ensures Told(w, out, ready, p, d.c)
  {
    forall y | y in w.cfg.nodes ensures Has(out, ready, p, y, d.c) {
      assert Completion.Told(out, ready, p, y);
    }
  }

  /** A message of sharing d keeps the receiver fair for d, and is answered in kind. */
  lemma DeliverOwn<P(!new)>(w: World<P>, d: Completion.World<P>, net: set<Msg<P>>, s: Inst<P>, m: Msg<P>)
    requires Sharing(w, d) && InstOk(w.cfg, s) && Completion.RightMsg(d, m) && FaceOk(w, d, net, m.to, s)
    ensures var r := OnMsg(w.cfg, m.to, w.dealer, s, m);
            FaceOk(w, d, net + r.out, m.to, r.inst) && forall o :: o in r.out ==> Completion.RightMsg(d, o)
  {
    var p := m.to;
    var r := OnMsg(w.cfg, p, w.dealer, s, m);
    MatrixOf(d, m);
    Completion.RightMsgVerified(d, m);
    CellStaysRight(d, s, m);
    Completion.SentBy(w.cfg, p, w.dealer, s, m);
    if m.Send? {
      Completion.EchoesRight(d, p);
    } else if CellOf(r.inst, d.c).bars.Some? {
      Completion.ReadiesRight(d, p, CellOf(r.inst, d.c).bars.value);
    }
    if CellOf(s, d.c).bars.Some? {
      ToldGrows(w, net, net + r.out, true, p, d.c);
    } else if CellOf(r.inst, d.c).bars.Some? {
      ToldByOut(w, d, r.out, true, p);
      ToldGrows(w, r.out, net + r.out, true, p, d.c);
    }
  }

  lemma DeliverOther<P(!new)>(w: World<P>, d: Completion.World<P>, net: set<Msg<P>>, s: Inst<P>, m: Msg<P>)
    requires Sharing(w, d) && m.c != d.c && FaceOk(w, d, net, m.to, s)
    ensures var r := OnMsg(w.cfg, m.to, w.dealer, s, m); FaceOk(w, d, net + r.out, m.to, r.inst)
  {
    var r := OnMsg(w.cfg, m.to, w.dealer, s, m);
    CellsElsewhere(w.cfg, m.to, w.dealer, s, m, d.c);
    if CellOf(s, d.c).bars.Some? {
      ToldGrows(w, net, net + r.out, true, m.to, d.c);
    }
  }

  lemma DeliverFair<P(!new)>(z: Faces<P>, net: set<Msg<P>>, s: Inst<P>, m: Msg<P>)
    requires TwoFaced(z) && NodeFair(z, net, m.to, s) && Right(z, m)
    ensures var r := OnMsg(z.w.cfg, m.to, z.w.dealer, s, m);
            NodeFair(z, net + r.out, m.to, r.inst) && forall o :: o in r.out ==> Right(z, o)
  {
    OnMsgOk(z.w.cfg, m.to, z.w.dealer, s, m);
    if Completion.RightMsg(z.a, m) {
      MatrixOf(z.a, m);
      DeliverOwn(z.w, z.a, net, s, m);
      DeliverOther(z.w, z.b, net, s, m);
    } else {
      MatrixOf(z.b, m);
      DeliverOwn(z.w, z.b, net, s, m);
      DeliverOther(z.w, z.a, net, s, m);
    }
  }

  lemma NodeStaysFair<P(!new)>(z: Faces<P>, net: set<Msg<P>>, net': set<Msg<P>>, p: int, s: Inst<P>)
    requires TwoFaced(z) && NodeFair(z, net, p, s) && net <= net'
    ensures NodeFair(z, net', p, s)
  {
    if CellOf(s, z.a.c).bars.Some? { ToldGrows(z.w, net, net', true, p, z.a.c); }
    if CellOf(s, z.b.c).bars.Some? { ToldGrows(z.w, net, net', true, p, z.b.c); }
  }

  lemma NextFair<P(!new)>(z: Faces<P>, s: System<P>, e: Event<P>)
    requires TwoFaced(z) && Fair(z, s) && Enabled(z.w, s, e) && Right(z, e.m)
    ensures Fair(z, Next(z.w, s, e))
  {
    var s' := Next(z.w, s, e);
    if e.Deliver? {
      assert NodeFair(z, s.net, e.m.to, s.insts[e.m.to]);
      DeliverFair(z, s.net, s.insts[e.m.to], e.m);
    }
    forall p | p in s'.insts ensures NodeFair(z, s'.net, p, s'.insts[p]) {
      if e.Inject? || e.m.to != p {
        assert NodeFair(z, s.net, p, s.insts[p]);
        NodeStaysFair(z, s.net, s'.net, p, s.insts[p]);
      }
    }
  }

  // ----- runs

  ghost predicate Leads<P>(w: World<P>, es: seq<Event<P>>, tr: seq<System<P>>, s: System<P>) {
    Agreement.Run(w, es, tr) && tr[|es|] == s
  }

  /** A fair state that some run comes to. The quantifier over the trivial `Look` keeps what this means out of the proofs
      below until they assert `Look`: most of them only pass it on. */
  ghost predicate Reachable<P(!new)>(z: Faces<P>, s: System<P>) {
    Framed(z, s) && forall i {:trigger Look(i)} :: Look(i) ==> FairlyReached(z, s)
  }

  ghost predicate Framed<P>(z: Faces<P>, s: System<P>) {
    && z.w.bad <= z.w.cfg.nodes && |z.w.bad| <= z.w.cfg.t < z.w.cfg.k && s.insts.Keys == z.w.cfg.nodes - z.w.bad
    && !z.w.cfg.onceOnly && z.a.c != z.b.c && z.a.sends.Keys == z.b.sends.Keys == z.w.cfg.nodes
  }

  ghost predicate FairlyReached<P(!new)>(z: Faces<P>, s: System<P>) {
    TwoFaced(z) && Fair(z, s) && exists es, tr :: Leads(z.w, es, tr, s)
  }

  ghost predicate Look(i: int) { i == i }

  lemma OneMore<P(!new)>(z: Faces<P>, s: System<P>, e: Event<P>)
    requires Reachable(z, s) && Enabled(z.w, s, e) && Right(z, e.m)
    ensures Reachable(z, Next(z.w, s, e))
  {
    assert Look(0);
    var es: seq<Event<P>>, tr: seq<System<P>> :| Leads(z.w, es, tr, s);
    LeadsOn(z.w, es, tr, s, e);
    NextFair(z, s, e);
  }

  lemma LeadsOn<P>(w: World<P>, es: seq<Event<P>>, tr: seq<System<P>>, s: System<P>, e: Event<P>)
    requires Leads(w, es, tr, s) && Enabled(w, s, e)
    ensures Leads(w, es + [e], tr + [Next(w, s, e)], Next(w, s, e))
  {
  }

  lemma StartReached<P(!new)>(z: Faces<P>)
    requires TwoFaced(z)
    ensures Reachable(z, Start(z.w))
  {
    assert Leads(z.w, [], [Start(z.w)], Start(z.w));
  }

  /** A message of one of the sharings that may be made up. */
  ghost predicate Sayable<P(!new)>(z: Faces<P>, m: Msg<P>) {
    Right(z, m) && (m.Send? || m.from in z.w.bad)
  }

  lemma SayOne<P(!new)>(z: Faces<P>, s: System<P>, m: Msg<P>)
    requires Reachable(z, s) && Sayable(z, m)
    ensures Reachable(z, System(s.insts, s.net + {m}))
  {
    OneMore(z, s, Inject(m));
  }

  /** What is said may be said at once. */
  lemma {:induction false} Injected<P(!new)>(z: Faces<P>, s: System<P>, ms: set<Msg<P>>)
    requires Reachable(z, s) && forall m {:trigger Sayable(z, m)} :: m in ms ==> Sayable(z, m)
    ensures Reachable(z, System(s.insts, s.net + ms))
    decreases |ms|
  {
    if ms == {} {
      assert System(s.insts, s.net + ms) == s;
    } else {
      var m := Pick(ms);
      assert Reachable(z, System(s.insts, s.net + {m})) by { SayOne(z, s, m); }
      Injected(z, System(s.insts, s.net + {m}), ms - {m});
      assert s.net + {m} + (ms - {m}) == s.net + ms;
    }
  }

  // ----- what one node has counted

  /** Echoes from ec, all for c, and readies from rd, all for d. */
  ghost predicate Tally<P(!new)>(s: Inst<P>, c: Matrix<P>, ec: set<int>, d: Matrix<P>, rd: set<int>) {
    && !s.phase.Over? && s.receivedEcho == ec && s.receivedReady == rd
    && forall x {:trigger CellOf(s, x)} ::
         CellOf(s, x).echoFrom == (if x == c then ec else {}) && CellOf(s, x).readyFrom == (if x == d then rd else {})
  }

  lemma EchoTallied<P(!new)>(cfg: Config<P>, p: int, s: Inst<P>, m: Msg<P>, ec: set<int>, d: Matrix<P>, rd: set<int>)
    requires m.Echo? && Tally(s, m.c, ec, d, rd) && m.from !in ec
    ensures Tally(OnEcho(cfg, p, s, m, true).inst, m.c, ec + {m.from}, d, rd)
  {
    var s', cell := OnEcho(cfg, p, s, m, true).inst, EchoCell(s, m);
    assert s'.cells == s.cells[m.c := Kept(cfg, cell, |cell.echoFrom| == cfg.EcThreshold() && |cell.readyFrom| < cfg.k)];
    Recounted(s, s', m.c, ec, d, rd, m.c, s'.cells[m.c], ec + {m.from}, rd);
  }

  lemma ReadyTallied<P(!new)>(cfg: Config<P>, p: int, s: Inst<P>, m: Msg<P>, c: Matrix<P>, ec: set<int>, rd: set<int>)
    requires m.Ready? && m.signed && Tally(s, c, ec, m.c, rd) && m.from !in rd && |rd| + 1 != cfg.k + cfg.t
    ensures Tally(OnReady(cfg, p, s, m, true).inst, c, ec, m.c, rd + {m.from})
  {
    assert |rd + {m.from}| == |rd| + 1;
    var s', cell := OnReady(cfg, p, s, m, true).inst, ReadyCell(s, m);
    assert s'.cells == s.cells[m.c := Kept(cfg, cell, |cell.readyFrom| == cfg.k && |cell.echoFrom| < cfg.EcThreshold())];
    Recounted(s, s', c, ec, m.c, rd, m.c, s'.cells[m.c], ec, rd + {m.from});
  }

  /** One cell is replaced by one that fits. */
  lemma Recounted<P(!new)>(s: Inst<P>, s': Inst<P>, c: Matrix<P>, ec: set<int>, d: Matrix<P>, rd: set<int>,
                           e: Matrix<P>, cell: Cell, ec': set<int>, rd': set<int>)
    requires Tally(s, c, ec, d, rd) && s'.cells == s.cells[e := cell]
    requires !s'.phase.Over? && s'.receivedEcho == ec' && s'.receivedReady == rd'
    requires cell.echoFrom == (if e == c then ec' else {}) && cell.readyFrom == (if e == d then rd' else {})
    requires (e != c ==> ec' == ec) && (e != d ==> rd' == rd)
    ensures Tally(s', c, ec', d, rd')
  {
    forall x ensures CellOf(s', x).echoFrom == (if x == c then ec' else {}) && CellOf(s', x).readyFrom == (if x == d then rd' else {}) {
      assert CellOf(s', x) == if x == e then cell else CellOf(s, x);
    }
  }

  /** s' is s but for node p, and nothing said is unsaid. */
  ghost predicate OnlyAt<P>(s: System<P>, s': System<P>, p: int) {
    p in s.insts && p in s'.insts && s'.insts == s.insts[p := s'.insts[p]] && s.net <= s'.net
  }

  lemma Delivered<P(!new)>(z: Faces<P>, s: System<P>, m: Msg<P>) returns (s': System<P>)
    requires Reachable(z, s) && m in s.net && m.to in s.insts
    ensures Verified(z.w.cfg, m.to, m) && (m.Send? || m.from in z.w.cfg.nodes) && (m.Ready? ==> m.signed)
    ensures Reachable(z, s') && OnlyAt(s, s', m.to)
    ensures s'.insts[m.to] == OnMsg(z.w.cfg, m.to, z.w.dealer, s.insts[m.to], m).inst
    ensures s'.net == s.net + OnMsg(z.w.cfg, m.to, z.w.dealer, s.insts[m.to], m).out
  {
    assert Look(0);
    assert Right(z, m);
    if Completion.RightMsg(z.a, m) {
      Completion.RightMsgVerified(z.a, m);
    } else {
      Completion.RightMsgVerified(z.b, m);
    }
    OneMore(z, s, Deliver(m));
    s' := Next(z.w, s, Deliver(m));
  }

  /** The echo, or ready, of x for c is delivered to p. */
  lemma HandOver<P(!new)>(z: Faces<P>, s: System<P>, ready: bool, x: int, p: int, c: Matrix<P>) returns (m: Msg<P>, s': System<P>)
    requires Reachable(z, s) && p in s.insts && Has(s.net, ready, x, p, c)
    ensures !m.Send? && m.Ready? == ready && m.from == x && m.c == c && x in z.w.cfg.nodes && (ready ==> m.signed)
    ensures Reachable(z, s') && OnlyAt(s, s', p)
    ensures s'.insts[p] == if ready then OnReady(z.w.cfg, p, s.insts[p], m, true).inst else OnEcho(z.w.cfg, p, s.insts[p], m, true).inst
  {
    m :| m in s.net && !m.Send? && m.Ready? == ready && m.from == x && m.to == p && m.c == c;
    s' := Delivered(z, s, m);
  }

  lemma HasGrows<P>(s: System<P>, s': System<P>, ready: bool, x: int, p: int, c: Matrix<P>)
    requires s.net <= s'.net && Has(s.net, ready, x, p, c)
    ensures Has(s'.net, ready, x, p, c)
  {
  }

  lemma {:induction false} EchoWave<P(!new)>(z: Faces<P>, s: System<P>, p: int, c: Matrix<P>, ec: set<int>) returns (s': System<P>)
    requires Reachable(z, s) && p in s.insts && Tally(s.insts[p], c, {}, c, {})
    requires forall x :: x in ec ==> Has(s.net, false, x, p, c)
    ensures Reachable(z, s') && OnlyAt(s, s', p) && Tally(s'.insts[p], c, ec, c, {})
    decreases |ec|
  {
    if ec == {} {
      s' := s;
    } else {
      var x := Pick(ec);
      var s1 := EchoWave(z, s, p, c, ec - {x});
      HasGrows(s, s1, false, x, p, c);
      var m;
      m, s' := HandOver(z, s1, false, x, p, c);
      EchoTallied(z.w.cfg, p, s1.insts[p], m, ec - {x}, c, {});
      assert ec - {x} + {x} == ec;
    }
  }

  /** Readies for d from rd, of which those from had are counted already, too few to end. */
  lemma {:induction false} ReadyWave<P(!new)>(z: Faces<P>, s: System<P>, p: int, c: Matrix<P>, ec: set<int>, d: Matrix<P>,
                                              had: set<int>, rd: set<int>) returns (s': System<P>)
    requires Reachable(z, s) && p in s.insts && Tally(s.insts[p], c, ec, d, had) && had <= rd
    requires |rd| < z.w.cfg.k + z.w.cfg.t && forall x :: x in rd - had ==> Has(s.net, true, x, p, d)
    ensures Reachable(z, s') && OnlyAt(s, s', p) && Tally(s'.insts[p], c, ec, d, rd)
    decreases |rd|
  {
    if rd - had == {} {
      assert rd == had;
      s' := s;
    } else {
      var x := Pick(rd - had);
      var less := rd - {x};
      assert |less| == |rd| - 1;
      var s1 := ReadyWave(z, s, p, c, ec, d, had, less);
      HasGrows(s, s1, true, x, p, d);
      var m;
      m, s' := HandOver(z, s1, true, x, p, d);
      ReadyTallied(z.w.cfg, p, s1.insts[p], m, c, ec, less);
      assert less + {x} == rd;
    }
  }

  /** The last ready. */
  lemma LastReady<P(!new)>(z: Faces<P>, s: System<P>, p: int, c: Matrix<P>, ec: set<int>, d: Matrix<P>, rd: set<int>, x: int)
    returns (s': System<P>)
    requires Reachable(z, s) && p in s.insts && Tally(s.insts[p], c, ec, d, rd) && x !in rd && Has(s.net, true, x, p, d)
    requires |rd| + 1 == z.w.cfg.k + z.w.cfg.t
    requires z.w.cfg.t == 0 ==> c == d && |ec| >= z.w.cfg.EcThreshold()
    ensures Reachable(z, s') && OnlyAt(s, s', p) && s'.insts[p].phase.Over? && s'.insts[p].cbar == d
  {
    var m;
    m, s' := HandOver(z, s, true, x, p, d);
    assert Look(0);
    assert NodeFair(z, s.net, p, s.insts[p]);
    EndsExactlyWhen(z.w.cfg, p, s.insts[p], m);
    EndsWith(z.w.cfg, p, s.insts[p], m);
  }

  lemma EndsWith<P>(cfg: Config<P>, p: int, s: Inst<P>, m: Msg<P>)
    requires m.Ready? && !s.phase.Over? && OnReady(cfg, p, s, m, true).inst.phase.Over?
    ensures OnReady(cfg, p, s, m, true).inst.cbar == m.c
  {
  }

  // ----- what the dealer and the bad nodes make up

  ghost function PointsOf<P(!new)>(d: Completion.World<P>, x: int, y: int): (p: Points)
    requires Completion.Valid(d)
    ensures Completion.RightPts(d, x, y, p)
  {
    var q := d.cfg.g.q;
    ModIsCong(Completion.Bi(d.f, x, y), q);
    ModIsCong(Completion.Bi(d.f', x, y), q);
    ModIsCong(Completion.Bi(d.f, y, x), q);
    ModIsCong(Completion.Bi(d.f', y, x), q);
    Points(Completion.Bi(d.f, x, y) % q, Completion.Bi(d.f', x, y) % q, Completion.Bi(d.f, y, x) % q, Completion.Bi(d.f', y, x) % q)
  }

  /** The `send`s of a sharing, and the echoes and readies of the bad nodes for it. */
  ghost function Lies<P(!new)>(w: World<P>, d: Completion.World<P>): set<Msg<P>>
    requires Sharing(w, d)
  {
    (set i | i in w.cfg.nodes :: d.sends[i])
    + (set x, y | x in w.bad && y in w.cfg.nodes :: Echo(x, y, d.c, PointsOf(d, x, y)))
    + (set x, y | x in w.bad && y in w.cfg.nodes :: Ready(x, y, d.c, PointsOf(d, x, y), true))
  }

  lemma LiesRight<P(!new)>(w: World<P>, d: Completion.World<P>)
    requires w.Valid() && Sharing(w, d)
    ensures forall m :: m in Lies(w, d) ==> Completion.RightMsg(d, m) && (m.Send? || m.from in w.bad)
    ensures forall i :: i in w.cfg.nodes ==> d.sends[i] in Lies(w, d)
    ensures forall x :: x in w.bad ==> Told(w, Lies(w, d), false, x, d.c) && Told(w, Lies(w, d), true, x, d.c)
  {
    forall m | m in Lies(w, d) ensures Completion.RightMsg(d, m) && (m.Send? || m.from in w.bad) {
      if i :| i in w.cfg.nodes && m == d.sends[i] {
        assert Completion.RightSend(d, d.sends[i], i);
      }
    }
    forall x | x in w.bad ensures Told(w, Lies(w, d), false, x, d.c) && Told(w, Lies(w, d), true, x, d.c) {
      forall y | y in w.cfg.nodes ensures Has(Lies(w, d), false, x, y, d.c) && Has(Lies(w, d), true, x, y, d.c) {
        assert Echo(x, y, d.c, PointsOf(d, x, y)) in Lies(w, d);
        assert Ready(x, y, d.c, PointsOf(d, x, y), true) in Lies(w, d);
      }
    }
  }

  // ----- the acts

  /** All that has been said so that p can hear what it needs of sharing d from the nodes in who. */
  ghost predicate Heard<P>(w: World<P>, net: set<Msg<P>>, ready: bool, who: set<int>, c: Matrix<P>) {
    forall x {:trigger Told(w, net, ready, x, c)} :: x in who ==> Told(w, net, ready, x, c)
  }

  lemma HeardGrows<P>(w: World<P>, net: set<Msg<P>>, net': set<Msg<P>>, ready: bool, who: set<int>, c: Matrix<P>)
    requires net <= net' && Heard(w, net, ready, who, c)
    ensures Heard(w, net', ready, who, c)
  {
    forall x | x in who ensures Told(w, net', ready, x, c) {
      ToldGrows(w, net, net', ready, x, c);
    }
  }

  lemma Prologue<P(!new)>(z: Faces<P>) returns (s: System<P>)
    requires TwoFaced(z)
    ensures Reachable(z, s) && s.insts == Start(z.w).insts
    ensures forall i :: i in z.w.cfg.nodes ==> z.a.sends[i] in s.net && z.b.sends[i] in s.net
    ensures Heard(z.w, s.net, false, z.w.bad, z.a.c) && Heard(z.w, s.net, true, z.w.bad, z.a.c)
    ensures Heard(z.w, s.net, false, z.w.bad, z.b.c) && Heard(z.w, s.net, true, z.w.bad, z.b.c)
  {
    var w, s0 := z.w, Start(z.w);
    var la, lb := Lies(w, z.a), Lies(w, z.b);
    LiesRight(w, z.a);
    LiesRight(w, z.b);
    StartReached(z);
    Injected(z, s0, la + lb);
    s := System(s0.insts, s0.net + (la + lb));
    HeardGrows(w, la, s.net, false, w.bad, z.a.c);
    HeardGrows(w, la, s.net, true, w.bad, z.a.c);
    HeardGrows(w, lb, s.net, false, w.bad, z.b.c);
    HeardGrows(w, lb, s.net, true, w.bad, z.b.c);
  }

  /** Node p takes up the `send` of sharing d and tells everyone. */
  lemma SendTaken<P(!new)>(z: Faces<P>, d: Completion.World<P>, s: System<P>, p: int) returns (s': System<P>)
    requires Reachable(z, s) && Sharing(z.w, d) && p in s.insts && d.sends[p] in s.net && Tally(s.insts[p], d.c, {}, d.c, {})
    ensures Reachable(z, s') && OnlyAt(s, s', p) && s'.insts[p] == s.insts[p].(receivedSend := true)
    ensures Told(z.w, s'.net, false, p, d.c)
  {
    var m := d.sends[p];
    assert Completion.RightSend(d, m, p);
    s' := Delivered(z, s, m);
    Completion.EchoesRight(d, p);
    ToldByOut(z.w, d, Echoes(z.w.cfg, p, m), false, p);
    ToldGrows(z.w, Echoes(z.w.cfg, p, m), s'.net, false, p, d.c);
  }

  /** s' is s but for the nodes in ps. */
  ghost predicate OnlyIn<P>(s: System<P>, s': System<P>, ps: set<int>) {
    && s'.insts.Keys == s.insts.Keys && s.net <= s'.net
    && forall p :: p in s.insts && p !in ps ==> s'.insts[p] == s.insts[p]
  }

  ghost predicate Blank<P>(s: Inst<P>) {
    s == Fresh<P>().(receivedSend := s.receivedSend)
  }

  lemma BlankTally<P(!new)>(s: Inst<P>, c: Matrix<P>, d: Matrix<P>)
    requires Blank(s)
    ensures Tally(s, c, {}, d, {})
  {
  }

  /** Both `send`s reach the nodes in ps. */
  lemma {:induction false} FirstAct<P(!new)>(z: Faces<P>, s: System<P>, ps: set<int>) returns (s': System<P>)
    requires Reachable(z, s) && ps <= s.insts.Keys && forall p :: p in ps ==> Blank(s.insts[p])
    requires forall i :: i in z.w.cfg.nodes ==> z.a.sends[i] in s.net && z.b.sends[i] in s.net
    ensures Reachable(z, s') && OnlyIn(s, s', ps) && forall p :: p in ps ==> Blank(s'.insts[p])
    ensures Heard(z.w, s'.net, false, ps, z.a.c) && Heard(z.w, s'.net, false, ps, z.b.c)
    decreases |ps|
  {
    if ps == {} {
      s' := s;
    } else {
      var p := Pick(ps);
      var s1 := FirstAct(z, s, ps - {p});
      s' := BothTaken(z, s1, p);
      HeardGrows(z.w, s1.net, s'.net, false, ps - {p}, z.a.c);
      HeardGrows(z.w, s1.net, s'.net, false, ps - {p}, z.b.c);
    }
  }

  lemma BothTaken<P(!new)>(z: Faces<P>, s: System<P>, p: int) returns (s': System<P>)
    requires Reachable(z, s) && p in s.insts && Blank(s.insts[p]) && z.a.sends[p] in s.net && z.b.sends[p] in s.net
    ensures Reachable(z, s') && OnlyAt(s, s', p) && Blank(s'.insts[p])
    ensures Told(z.w, s'.net, false, p, z.a.c) && Told(z.w, s'.net, false, p, z.b.c)
  {
    assert Look(0);
    BlankTally(s.insts[p], z.a.c, z.a.c);
    var s1 := SendTaken(z, z.a, s, p);
    BlankTally(s1.insts[p], z.b.c, z.b.c);
    s' := SendTaken(z, z.b, s1, p);
    ToldGrows(z.w, s1.net, s'.net, false, p, z.a.c);
  }

  /** All echoes for c reach the nodes in ps. */
  lemma {:induction false} SecondAct<P(!new)>(z: Faces<P>, s: System<P>, ps: set<int>, c: Matrix<P>) returns (s': System<P>)
    requires Reachable(z, s) && ps <= s.insts.Keys && forall p :: p in ps ==> Blank(s.insts[p])
    requires Heard(z.w, s.net, false, z.w.cfg.nodes, c)
    ensures Reachable(z, s') && OnlyIn(s, s', ps) && forall p :: p in ps ==> Tally(s'.insts[p], c, z.w.cfg.nodes, c, {})
    decreases |ps|
  {
    if ps == {} {
      s' := s;
    } else {
      var p := Pick(ps);
      var s1 := SecondAct(z, s, ps - {p}, c);
      HeardGrows(z.w, s.net, s1.net, false, z.w.cfg.nodes, c);
      BlankTally(s1.insts[p], c, c);
      forall x | x in z.w.cfg.nodes ensures Has(s1.net, false, x, p, c) {
        assert Told(z.w, s1.net, false, x, c);
      }
      s' := EchoWave(z, s1, p, c, z.w.cfg.nodes);
    }
  }

  /** Readies for d from rd reach the nodes in ps, which have counted echoes for c. */
  lemma {:induction false} ThirdAct<P(!new)>(z: Faces<P>, s: System<P>, ps: set<int>, c: Matrix<P>, d: Matrix<P>, rd: set<int>)
    returns (s': System<P>)
    requires Reachable(z, s) && ps <= s.insts.Keys && forall p :: p in ps ==> Tally(s.insts[p], c, z.w.cfg.nodes, d, {})
    requires |rd| < z.w.cfg.k + z.w.cfg.t && Heard(z.w, s.net, true, rd, d)
    ensures Reachable(z, s') && OnlyIn(s, s', ps) && forall p :: p in ps ==> Tally(s'.insts[p], c, z.w.cfg.nodes, d, rd)
    decreases |ps|
  {
    if ps == {} {
      s' := s;
    } else {
      var p := Pick(ps);
      var s1 := ThirdAct(z, s, ps - {p}, c, d, rd);
      HeardGrows(z.w, s.net, s1.net, true, rd, d);
      forall x | x in rd ensures Has(s1.net, true, x, p, d) {
        assert Told(z.w, s1.net, true, x, d);
      }
      s' := ReadyWave(z, s1, p, c, z.w.cfg.nodes, d, {}, rd);
    }
  }

  /** Node p counts on until it ends with d. */
  lemma LastAct<P(!new)>(z: Faces<P>, s: System<P>, p: int, c: Matrix<P>, d: Matrix<P>, had: set<int>, all: set<int>)
    returns (s': System<P>)
    requires Reachable(z, s) && p in s.insts && Tally(s.insts[p], c, z.w.cfg.nodes, d, had) && had <= all <= z.w.cfg.nodes
    requires |had| < z.w.cfg.k + z.w.cfg.t <= |all| && Heard(z.w, s.net, true, all, d)
    requires z.w.cfg.t == 0 ==> c == d && |z.w.cfg.nodes| >= z.w.cfg.EcThreshold()
    ensures Reachable(z, s') && OnlyAt(s, s', p) && s'.insts[p].phase.Over? && s'.insts[p].cbar == d
  {
    var rd := Between(had, all, z.w.cfg.k + z.w.cfg.t - 1);
    forall x | x in all ensures Has(s.net, true, x, p, d) {
      assert Told(z.w, s.net, true, x, d);
    }
    var s1 := ReadyWave(z, s, p, c, z.w.cfg.nodes, d, had, rd);
    var x := Outside(all, rd);
    HasGrows(s, s1, true, x, p, d);
    s' := LastReady(z, s1, p, c, z.w.cfg.nodes, d, rd, x);
  }

  /** A node that has reached a threshold for one of the sharings has told everyone. */
  lemma CampTold<P(!new)>(z: Faces<P>, d: Completion.World<P>, s: System<P>, ps: set<int>)
    requires Reachable(z, s) && (d == z.a || d == z.b) && ps <= s.insts.Keys
    requires forall p :: p in ps ==> Reached(z.w.cfg, s.insts[p], d.c)
    ensures Heard(z.w, s.net, true, ps, d.c)
  {
    assert Look(0);
    forall p | p in ps ensures Told(z.w, s.net, true, p, d.c) {
      assert NodeFair(z, s.net, p, s.insts[p]);
      OldCellOk(z.w.cfg, s.insts[p], d.c);
    }
  }

  lemma HeardBoth<P>(w: World<P>, net: set<Msg<P>>, ready: bool, who: set<int>, more: set<int>, c: Matrix<P>)
    requires Heard(w, net, ready, who, c) && Heard(w, net, ready, more, c)
    ensures Heard(w, net, ready, who + more, c)
  {
  }

  lemma HeardFewer<P>(w: World<P>, net: set<Msg<P>>, ready: bool, who: set<int>, fewer: set<int>, c: Matrix<P>)
    requires Heard(w, net, ready, who, c) && fewer <= who
    ensures Heard(w, net, ready, fewer, c)
  {
  }

  // ----- the run

  /** Two camps: each has counted all echoes for its own matrix, and bad nodes and camps have said their readies. */
  ghost predicate Camped<P(!new)>(z: Faces<P>, s: System<P>, a: set<int>, b: set<int>) {
    && Reachable(z, s) && a + b == z.w.cfg.nodes - z.w.bad && a !! b
    && (forall p :: p in a ==> Tally(s.insts[p], z.a.c, z.w.cfg.nodes, z.a.c, {}))
    && (forall p :: p in b ==> Tally(s.insts[p], z.b.c, z.w.cfg.nodes, z.b.c, {}))
    && Heard(z.w, s.net, true, a + z.w.bad, z.a.c) && Heard(z.w, s.net, true, b + z.w.bad, z.b.c)
  }

  lemma Opening<P(!new)>(z: Faces<P>) returns (s: System<P>)
    requires TwoFaced(z)
    ensures Reachable(z, s) && forall p :: p in s.insts ==> Blank(s.insts[p])
    ensures Heard(z.w, s.net, false, z.w.cfg.nodes, z.a.c) && Heard(z.w, s.net, false, z.w.cfg.nodes, z.b.c)
    ensures Heard(z.w, s.net, true, z.w.bad, z.a.c) && Heard(z.w, s.net, true, z.w.bad, z.b.c)
  {
    var w, honest := z.w, z.w.cfg.nodes - z.w.bad;
    var s0 := Prologue(z);
    s := FirstAct(z, s0, honest);
    HeardGrows(w, s0.net, s.net, false, w.bad, z.a.c);
    HeardGrows(w, s0.net, s.net, false, w.bad, z.b.c);
    HeardGrows(w, s0.net, s.net, true, w.bad, z.a.c);
    HeardGrows(w, s0.net, s.net, true, w.bad, z.b.c);
    HeardBoth(w, s.net, false, honest, w.bad, z.a.c);
    HeardBoth(w, s.net, false, honest, w.bad, z.b.c);
    assert honest + w.bad == w.cfg.nodes;
  }

  lemma Camping<P(!new)>(z: Faces<P>, a: set<int>, b: set<int>) returns (s: System<P>)
    requires TwoFaced(z) && a + b == z.w.cfg.nodes - z.w.bad && a !! b && |z.w.cfg.nodes| >= z.w.cfg.EcThreshold()
    ensures Camped(z, s, a, b)
  {
    var w := z.w;
    var s0 := Opening(z);
    var s1 := SecondAct(z, s0, a, z.a.c);
    HeardGrows(w, s0.net, s1.net, false, w.cfg.nodes, z.b.c);
    s := SecondAct(z, s1, b, z.b.c);
    CampTold(z, z.a, s, a);
    CampTold(z, z.b, s, b);
    HeardGrows(w, s0.net, s.net, true, w.bad, z.a.c);
    HeardGrows(w, s0.net, s.net, true, w.bad, z.b.c);
    HeardBoth(w, s.net, true, a, w.bad, z.a.c);
    HeardBoth(w, s.net, true, b, w.bad, z.b.c);
  }

  /** The end of the run, and what it shows. */
  lemma Split<P(!new)>(z: Faces<P>, s: System<P>, p: int, r: int)
    requires Reachable(z, s) && p in s.insts && r in s.insts
    requires s.insts[p].phase.Over? && s.insts[r].phase.Over? && s.insts[p].cbar != s.insts[r].cbar
    ensures CanSplit(z.w)
  {
    assert Look(0);
    var es: seq<Event<P>>, tr: seq<System<P>> :| Leads(z.w, es, tr, s);
    assert SplitBy(z.w, es, tr, p, r);
  }

  /** With t = 0 there are no bad nodes, and each camp ends with its own matrix. */
  lemma OwnEnds<P(!new)>(z: Faces<P>, s: System<P>, a: set<int>, b: set<int>)
    requires Camped(z, s, a, b) && z.w.cfg.t == 0 && |a| >= z.w.cfg.k && |b| >= z.w.cfg.k
    requires |z.w.cfg.nodes| >= z.w.cfg.EcThreshold()
    ensures CanSplit(z.w)
  {
    var p, r := Pick(a), Pick(b);
    EndBoth(z, s, p, r, a, b);
  }

  lemma EndBoth<P(!new)>(z: Faces<P>, s: System<P>, p: int, r: int, a: set<int>, b: set<int>)
    requires Reachable(z, s) && p in s.insts && r in s.insts && p != r
    requires Tally(s.insts[p], z.a.c, z.w.cfg.nodes, z.a.c, {}) && Tally(s.insts[r], z.b.c, z.w.cfg.nodes, z.b.c, {})
    requires Heard(z.w, s.net, true, a + z.w.bad, z.a.c) && Heard(z.w, s.net, true, b + z.w.bad, z.b.c)
    requires a <= z.w.cfg.nodes && b <= z.w.cfg.nodes && |a| >= z.w.cfg.k && |b| >= z.w.cfg.k
    requires z.w.cfg.t == 0 && |z.w.cfg.nodes| >= z.w.cfg.EcThreshold()
    ensures CanSplit(z.w)
  {
    var s1 := OwnEnd(z, s, p, z.a.c, a);
    HeardGrows(z.w, s.net, s1.net, true, b + z.w.bad, z.b.c);
    var s2 := OwnEnd(z, s1, r, z.b.c, b);
    Split(z, s2, p, r);
  }

  lemma OwnEnd<P(!new)>(z: Faces<P>, s: System<P>, p: int, c: Matrix<P>, camp: set<int>) returns (s': System<P>)
    requires Reachable(z, s) && p in s.insts && Tally(s.insts[p], c, z.w.cfg.nodes, c, {})
    requires z.w.cfg.t == 0 && camp <= z.w.cfg.nodes && |camp| >= z.w.cfg.k && Heard(z.w, s.net, true, camp + z.w.bad, c)
    requires |z.w.cfg.nodes| >= z.w.cfg.EcThreshold()
    ensures Reachable(z, s') && OnlyAt(s, s', p) && s'.insts[p].phase.Over? && s'.insts[p].cbar == c
  {
    HeardFewer(z.w, s.net, true, camp + z.w.bad, camp, c);
    s' := LastAct(z, s, p, c, c, {}, camp);
  }

  /** With t > 0 a camp takes up the readies for the other matrix: k of them make a node send its own. */
  lemma Cross<P(!new)>(z: Faces<P>, s: System<P>, ps: set<int>, c: Matrix<P>, d: Completion.World<P>, who: set<int>, rd: set<int>)
    returns (s': System<P>)
    requires Reachable(z, s) && ps <= s.insts.Keys && forall p :: p in ps ==> Tally(s.insts[p], c, z.w.cfg.nodes, c, {})
    requires d == z.a || d == z.b
    requires z.w.cfg.t > 0 && |rd| == z.w.cfg.k && rd <= who && Heard(z.w, s.net, true, who, d.c)
    ensures Reachable(z, s') && OnlyIn(s, s', ps) && forall p :: p in ps ==> Tally(s'.insts[p], c, z.w.cfg.nodes, d.c, rd)
    ensures Heard(z.w, s'.net, true, who + ps, d.c)
  {
    HeardFewer(z.w, s.net, true, who, rd, d.c);
    forall p | p in ps ensures Tally(s.insts[p], c, z.w.cfg.nodes, d.c, {}) {
      NoReadies(s.insts[p], c, z.w.cfg.nodes, c, d.c);
    }
    s' := ThirdAct(z, s, ps, c, d.c, rd);
    CampTold(z, d, s', ps);
    HeardGrows(z.w, s.net, s'.net, true, who, d.c);
    HeardBoth(z.w, s'.net, true, who, ps, d.c);
  }

  lemma NoReadies<P(!new)>(s: Inst<P>, c: Matrix<P>, ec: set<int>, d: Matrix<P>, e: Matrix<P>)
    requires Tally(s, c, ec, d, {})
    ensures Tally(s, c, ec, e, {})
  {
  }

  lemma Crossing<P(!new)>(z: Faces<P>, s: System<P>, a: set<int>, b: set<int>, ra: set<int>, rb: set<int>)
    returns (s': System<P>)
    requires Camped(z, s, a, b) && z.w.cfg.t > 0 && ra <= a + z.w.bad && rb <= b + z.w.bad && |ra| == |rb| == z.w.cfg.k
    ensures Reachable(z, s') && a + b == z.w.cfg.nodes - z.w.bad
    ensures forall p :: p in a ==> Tally(s'.insts[p], z.a.c, z.w.cfg.nodes, z.b.c, rb)
    ensures forall p :: p in b ==> Tally(s'.insts[p], z.b.c, z.w.cfg.nodes, z.a.c, ra)
    ensures Heard(z.w, s'.net, true, z.w.cfg.nodes, z.a.c) && Heard(z.w, s'.net, true, z.w.cfg.nodes, z.b.c)
  {
    var w := z.w;
    Together(a, b, w.bad, w.cfg.nodes);
    var s1 := Cross(z, s, a, z.a.c, z.b, b + w.bad, rb);
    HeardGrows(w, s.net, s1.net, true, a + w.bad, z.a.c);
    s' := Cross(z, s1, b, z.b.c, z.a, a + w.bad, ra);
    HeardGrows(w, s1.net, s'.net, true, b + w.bad + a, z.b.c);
  }

  lemma Together(a: set<int>, b: set<int>, bad: set<int>, nodes: set<int>)
    requires a + b == nodes - bad && bad <= nodes
    ensures a + bad + b == nodes && b + bad + a == nodes
  {
    assert nodes == (a + b) + bad;
  }

  lemma CrossedEnds<P(!new)>(z: Faces<P>, s: System<P>, a: set<int>, b: set<int>)
    requires Camped(z, s, a, b) && z.w.cfg.t > 0 && a != {} && b != {} && |z.w.cfg.nodes| >= z.w.cfg.k + z.w.cfg.t
    requires |a + z.w.bad| >= z.w.cfg.k && |b + z.w.bad| >= z.w.cfg.k
    ensures CanSplit(z.w)
  {
    var w := z.w;
    var ra := Between({}, a + w.bad, w.cfg.k);
    var rb := Between({}, b + w.bad, w.cfg.k);
    var s1 := Crossing(z, s, a, b, ra, rb);
    var p, r := Pick(a), Pick(b);
    var s2 := LastAct(z, s1, p, z.a.c, z.b.c, rb, w.cfg.nodes);
    HeardGrows(w, s1.net, s2.net, true, w.cfg.nodes, z.a.c);
    var s3 := LastAct(z, s2, r, z.b.c, z.a.c, ra, w.cfg.nodes);
    Split(z, s3, p, r);
  }

  /** Enough nodes, and two sharings that the dealer can make: a run splits them. */
  lemma CampsSplit<P(!new)>(z: Faces<P>)
    requires TwoFaced(z) && Splittable(z.w)
    ensures CanSplit(z.w)
  {
    var one, two := Camps(z.w.cfg.nodes, z.w.bad, z.w.cfg.k);
    var s := Camping(z, one, two);
    CampsEnd(z, s, one, two);
  }

  lemma CampsEnd<P(!new)>(z: Faces<P>, s: System<P>, one: set<int>, two: set<int>)
    requires Camped(z, s, one, two) && one != {} && two != {} && |z.w.cfg.nodes| >= z.w.cfg.k + z.w.cfg.t
    requires |z.w.cfg.nodes| >= z.w.cfg.EcThreshold()
    requires |one + z.w.bad| == |one| + |z.w.bad| >= z.w.cfg.k && |two + z.w.bad| == |two| + |z.w.bad| >= z.w.cfg.k
    ensures CanSplit(z.w)
  {
    if z.w.cfg.t == 0 {
      OwnEnds(z, s, one, two);
    } else {
      CrossedEnds(z, s, one, two);
    }
  }

  /** Two camps of honest nodes, each of k with the bad ones. */
  lemma Camps(nodes: set<int>, bad: set<int>, k: nat) returns (one: set<int>, two: set<int>)
    requires bad <= nodes && |bad| < k && |nodes| - |bad| >= 2 * (k - |bad|)
    ensures one + two == nodes - bad && one !! two && one != {} && two != {}
    ensures |one + bad| == |one| + |bad| >= k && |two + bad| == |two| + |bad| >= k
  {
    var honest := nodes - bad;
    assert |nodes| == |honest| + |bad| by { assert nodes == honest + bad; }
    one := Between({}, honest, k - |bad|);
    two := honest - one;
    assert |honest| == |one| + |two| by { assert honest == one + two; }
  }

  /** Key generation and re-sharing in one: honest nodes can be split exactly if a second `send` is not refused, there are
      k + t nodes, and n - b >= 2 (k - b) for b bad ones. */
  lemma SplitIff<P(!new)>(w: World<P>)
    requires w.Valid() && Laws(w.cfg.g) && w.cfg.g.G != w.cfg.g.zero
    ensures CanSplit(w) <==> Splittable(w)
  {
    if CanSplit(w) {
      SplitTakesTwoCamps(w);
    }
    if Splittable(w) {
      Constants.ConstantWorldIsValid(w.cfg, w.dealer, 0);
      Constants.ConstantWorldIsValid(w.cfg, w.dealer, 1);
      Constants.ConstantsDiffer(w.cfg.g, w.cfg.k);
      CampsSplit(Faces(w, Constants.ConstantWorld(w.cfg, w.dealer, 0), Constants.ConstantWorld(w.cfg, w.dealer, 1)));
    }
  }

  /** Three nodes, K = 2, T = 1, with a bad dealer can be split; four nodes, K = 3, T = 1, cannot. */
  lemma KeygenCanDisagree<P(!new)>(g: Group<P>)
    requires Laws(g) && g.q > 4 && g.G != g.zero
    ensures CanSplit(World(Config(g, {1, 2, 3}, 2, 1, false), {3}, 3))
    ensures !CanSplit(World(Config(g, {1, 2, 3, 4}, 3, 1, false), {4}, 4))
  {
    assert |{1, 2, 3}| == 3 && |{1, 2, 3, 4}| == 4 && |{3}| == |{4}| == 1;
    SplitIff(World(Config(g, {1, 2, 3}, 2, 1, false), {3}, 3));
    SplitIff(World(Config(g, {1, 2, 3, 4}, 3, 1, false), {4}, 4));
  }

  /** Taking up two matrices is not yet a split: a run in which every honest node does, and none has ended. */
  lemma TwoTakenNoneEnded<P(!new)>(z: Faces<P>) returns (es: seq<Event<P>>, tr: seq<System<P>>)
    requires TwoFaced(z) && z.w.cfg.nodes - z.w.bad != {}
    ensures Agreement.Run(z.w, es, tr) && !OneMatrixEach(z.w, es, tr)
    ensures forall p :: p in tr[|es|].insts ==> !tr[|es|].insts[p].phase.Over?
  {
    var p := Pick(z.w.cfg.nodes - z.w.bad);
    var s := Opening(z);
    assert Look(0);
    es, tr :| Leads(z.w, es, tr, s);
    assert Told(z.w, s.net, false, p, z.a.c) && Told(z.w, s.net, false, p, z.b.c);
    assert Has(s.net, false, p, p, z.a.c) && Has(s.net, false, p, p, z.b.c);
    assert EchoSent(s.net, p, z.a.c) && EchoSent(s.net, p, z.b.c);
    OneEchoIff(z.w, es, tr);
  }
}
