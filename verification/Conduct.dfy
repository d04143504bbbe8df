/** What honest nodes do in every run with bad nodes and a bad dealer: they count and store what their own histories say,
    hold polynomials that open the matrix, and send points that pass. */
module Conduct {
  import opened Modular
  import opened Sets
  import opened Curve
  import opened Polynomials
  import opened Avss
  import opened Machine
  import opened Instance
  import opened Endings
  import opened Agreement
  import H = History

  // ----- the history of one node

  /** What has been delivered to p, oldest first. */
  ghost function Received<P>(es: seq<Event<P>>, p: int): seq<Msg<P>> {
    if es == [] then []
    else
      var n := |es| - 1;
      Received(es[..n], p) + if es[n].Deliver? && es[n].m.to == p then [es[n].m] else []
  }

  /** The state of an honest node is that of its own history. */
  lemma {:induction false} NodeIsHistory<P(!new)>(w: World<P>, es: seq<Event<P>>, tr: seq<System<P>>, i: nat, p: int)
    requires w.Valid() && Run(w, es, tr) && i < |tr| && w.Honest(p)
    ensures p in tr[i].insts && tr[i].insts[p] == After(w.cfg, p, w.dealer, Received(es[..i], p))
    ensures FromNetwork(w.cfg, Received(es[..i], p))
  {
    RunKeepsInv(w, es, tr, i);
    if i > 0 {
      NodeIsHistory(w, es, tr, i - 1, p);
      assert es[..i][..i - 1] == es[..i - 1] && es[..i][i - 1] == es[i - 1];
      NodeStep(w, tr[i - 1], es[i - 1], p, Received(es[..i - 1], p));
    }
  }

  lemma NodeStep<P(!new)>(w: World<P>, s: System<P>, e: Event<P>, p: int, ms: seq<Msg<P>>)
    requires Enabled(w, s, e) && p in s.insts && s.insts[p] == After(w.cfg, p, w.dealer, ms) && FromNetwork(w.cfg, ms)
    ensures var ms' := ms + if e.Deliver? && e.m.to == p then [e.m] else [];
            && p in Next(w, s, e).insts && Next(w, s, e).insts[p] == After(w.cfg, p, w.dealer, ms')
            && FromNetwork(w.cfg, ms')
  {
    if e.Deliver? && e.m.to == p {
      AfterOne(w.cfg, p, w.dealer, ms, e.m);
    } else {
      assert ms + [] == ms;
    }
  }

  // ----- counts and points

  /** An honest node counts x for c exactly if its first echo, or ready, from x was for c, passed its check and came in time. */
  lemma HonestCountIff<P(!new)>(w: World<P>, es: seq<Event<P>>, tr: seq<System<P>>, i: nat, p: int, ready: bool, x: int, c: Matrix<P>)
    requires w.Valid() && Run(w, es, tr) && i < |tr| && w.Honest(p)
    ensures p in tr[i].insts
    ensures x in H.Counters(CellOf(tr[i].insts[p], c), ready) <==> H.Counted(w.cfg, p, w.dealer, Received(es[..i], p), ready, x, c)
  {
    NodeIsHistory(w, es, tr, i, p);
    H.CountedIff(w.cfg, p, w.dealer, Received(es[..i], p), ready, x, c);
  }

  /** Every point an honest node holds has passed the check against its matrix. */
  lemma HonestPointsPass<P(!new)>(w: World<P>, es: seq<Event<P>>, tr: seq<System<P>>, i: nat, p: int, x: int, c: Matrix<P>)
    requires w.Valid() && Run(w, es, tr) && i < |tr| && w.Honest(p)
    requires p in tr[i].insts && x in CellOf(tr[i].insts[p], c).pts
    ensures var pt := CellOf(tr[i].insts[p], c).pts[x]; PointCheck(w.cfg.g, c, x, p, pt.alpha, pt.alpha') == Passed
  {
    NodeIsHistory(w, es, tr, i, p);
    H.StoredPointsPass(w.cfg, p, w.dealer, Received(es[..i], p), x, c);
  }

  // ----- the shape of a matrix that matters

  /** Behind the polynomials of an honest node stands a matrix that an honest node has checked: K by K. */
  lemma BarsMeanChecked<P(!new)>(w: World<P>, es: seq<Event<P>>, tr: seq<System<P>>, i: nat, p: int, c: Matrix<P>)
    requires w.Valid() && Run(w, es, tr) && i < |tr| && w.Honest(p)
    requires p in tr[i].insts && CellOf(tr[i].insts[p], c).bars.Some?
    ensures |c| == w.cfg.k && |c[0]| == w.cfg.k && !ShortRow(c)
  {
    var s := tr[i];
    RunKeepsInv(w, es, tr, i);
    assert NodeInv(w, s.net, p, s.insts[p]) && Backed(s.net, s.insts[p], c);
    H.ReachedIff(w.cfg, s.insts[p], c);
    ReachedHasQuorum(w, s.net, s.insts[p], c);
    var z := Outside(Echoers(w, s.net, c), w.bad);
    EchoedIsTaken(w, es, tr, i, z, c);
    var j :| j < i && Taken(w, es, tr, j, z, c);
    assert Verified(w.cfg, z, es[j].m);
  }

  /** In every run Bbar of an honest node opens the matrix exactly if the sign of no point it was interpolated from matters. */
  lemma HonestBbarIff<P(!new)>(w: World<P>, es: seq<Event<P>>, tr: seq<System<P>>, i: nat, p: int, c: Matrix<P>) returns (n: nat)
    requires w.Valid() && Laws(w.cfg.g) && Run(w, es, tr) && i < |tr| && w.Honest(p)
    requires p in tr[i].insts && CellOf(tr[i].insts[p], c).bars.Some?
    ensures var ms := Received(es[..i], p);
            && H.MetAt(w.cfg, p, w.dealer, ms, n, c)
            && H.OpensBySign(w.cfg, p, c, CellOf(tr[i].insts[p], c), CellOf(After(w.cfg, p, w.dealer, ms[..n]), c).pts)
  {
    BarsMeanChecked(w, es, tr, i, p, c);
    NodeIsHistory(w, es, tr, i, p);
    n := H.BbarIff(w.cfg, p, w.dealer, Received(es[..i], p), c);
  }

  /** In particular if no number it received for c is negative. */
  lemma HonestBbarOpens<P(!new)>(w: World<P>, es: seq<Event<P>>, tr: seq<System<P>>, i: nat, p: int, c: Matrix<P>)
    requires w.Valid() && Laws(w.cfg.g) && Run(w, es, tr) && i < |tr| && w.Honest(p)
    requires p in tr[i].insts && CellOf(tr[i].insts[p], c).bars.Some? && H.Unsigned(Received(es[..i], p), c)
    ensures var b := CellOf(tr[i].insts[p], c).bars.value; |b.bbar| == |b.bbar'| && H.BbarOpens(w.cfg, p, c, b)
  {
    BarsMeanChecked(w, es, tr, i, p, c);
    NodeIsHistory(w, es, tr, i, p);
    H.BbarRespectsCommitment(w.cfg, p, w.dealer, Received(es[..i], p), c);
  }

  // ----- what honest nodes send

  /** The echo o was made from the `send` m. */
  ghost predicate EchoOf<P>(cfg: Config<P>, o: Msg<P>, m: Msg<P>) {
    m.Send? && o.Echo? && o.to in cfg.nodes && o.from == m.to && o.c == m.c && o.pts == PointsFor(cfg, m.a, m.a', m.b, m.b', o.to)
  }

  /** Message o is an echo made at event j. */
  ghost predicate EchoedAt<P>(w: World<P>, es: seq<Event<P>>, tr: seq<System<P>>, j: int, o: Msg<P>) {
    Taken(w, es, tr, j, o.from, o.c) && EchoOf(w.cfg, o, es[j].m)
  }

  lemma NewEcho<P>(w: World<P>, s: Inst<P>, m: Msg<P>, o: Msg<P>)
    requires o in OnMsg(w.cfg, m.to, w.dealer, s, m).out && o.Echo?
    ensures Agreement.Takes(w, s, m) && EchoOf(w.cfg, o, m)
  {
    Outputs(w.cfg, m.to, w.dealer, s, m);
  }

  /** In every run each echo of an honest node is made from a `send` that the node has taken up. */
  lemma {:induction false} EchoesAreMade<P(!new)>(w: World<P>, es: seq<Event<P>>, tr: seq<System<P>>, i: nat, o: Msg<P>)
    requires w.Valid() && Run(w, es, tr) && i < |tr| && o in tr[i].net && o.Echo? && w.Honest(o.from)
    ensures exists j :: j < i && EchoedAt(w, es, tr, j, o)
  {
    if i > 0 {
      RunKeepsInv(w, es, tr, i - 1);
      assert tr[i] == Next(w, tr[i - 1], es[i - 1]);
      if o in tr[i - 1].net {
        EchoesAreMade(w, es, tr, i - 1, o);
      } else {
        var m := es[i - 1].m;
        NewEcho(w, tr[i - 1].insts[m.to], m, o);
        assert EchoedAt(w, es, tr, i - 1, o);
      }
    }
  }

  /** No coefficient is negative. */
  ghost predicate PlainSend<P>(m: Msg<P>)
    requires m.Send?
  {
    NonNegative(m.a) && NonNegative(m.a') && NonNegative(m.b) && NonNegative(m.b')
  }

  lemma CutPoints<P(!new)>(cfg: Config<P>, m: Msg<P>, i: int)
    requires cfg.Valid() && Laws(cfg.g) && m.Send? && PolysAccepted(cfg.g, m.c, m.to, cfg.k, m.a, m.a', m.b, m.b') && PlainSend(m)
    ensures var p := PointsFor(cfg, m.a, m.a', m.b, m.b', i);
            PointCheck(cfg.g, m.c, m.to, i, p.alpha, p.alpha') == Passed && BetaOk(cfg.g, Cut(m.c), m.to, i, p.beta, p.beta')
  {
    var q, k, p := cfg.g.q, cfg.k, PointsFor(cfg, m.a, m.a', m.b, m.b', i);
    CutColumns(m.c, k);
    SquareIsWhole(Cut(m.c), k);
    ValueIs(q, m.a, k, i);
    ValueIs(q, m.a', k, i);
    ValueIs(q, m.b, k, i);
    ValueIs(q, m.b', k, i);
    assert m.a[..k] == m.a && m.b[..k] == m.b;
    VerifiedPolysGiveValidPoints(cfg.g, Cut(m.c), m.to, i, m.a, m.a'[..k], m.b, m.b'[..k], p.alpha, p.alpha', p.beta, p.beta');
  }

  lemma ValueIs(q: nat, p: seq<int>, k: nat, x: int)
    requires q > 0 && 1 <= k <= |p| && NonNegative(p)
    ensures ValueAt(q, p, k, x) >= 0 && Cong(ValueAt(q, p, k, x), Eval(p[..k], x), q)
  {
    if k >= 2 {
      ModIsCong(Eval(p[..k], x), q);
    } else {
      assert p[..1][1..] == [] && Eval(p[..1], x) == p[0] + x * Eval([], x);
    }
  }

  /** So if the `send`s taken up have no negative coefficient every honest echo passes the check at its receiver, and its beta
      is right, whatever matrix the dealer gave. */
  lemma HonestEchoPasses<P(!new)>(w: World<P>, es: seq<Event<P>>, tr: seq<System<P>>, i: nat, o: Msg<P>)
    requires w.Valid() && Laws(w.cfg.g) && Run(w, es, tr) && i < |tr| && o in tr[i].net && o.Echo? && w.Honest(o.from)
    requires forall j :: 0 <= j < |es| && es[j].m.Send? ==> PlainSend(es[j].m)
    ensures o.to in w.cfg.nodes && PointCheck(w.cfg.g, o.c, o.from, o.to, o.pts.alpha, o.pts.alpha') == Passed
    ensures BetaOk(w.cfg.g, Cut(o.c), o.from, o.to, o.pts.beta, o.pts.beta')
  {
    EchoesAreMade(w, es, tr, i, o);
    var j :| j < i && EchoedAt(w, es, tr, j, o);
    CutPoints(w.cfg, es[j].m, o.to);
  }

  /** The ready o carries the values of these polynomials. */
  ghost predicate ReadyOf<P>(cfg: Config<P>, o: Msg<P>, bars: Option<Bars>) {
    && o.Ready? && o.signed && o.to in cfg.nodes && bars.Some?
    && var b := bars.value; o.pts == PointsFor(cfg, b.abar, b.abar', b.bbar, b.bbar', o.to)
  }

  lemma NewReady<P>(cfg: Config<P>, me: int, dealer: int, s: Inst<P>, m: Msg<P>, o: Msg<P>)
    requires o in OnMsg(cfg, me, dealer, s, m).out && o.Ready?
    ensures o.from == me && ReadyOf(cfg, o, CellOf(OnMsg(cfg, me, dealer, s, m).inst, o.c).bars)
  {
    match m
    case Send(_, _, _, _, _, _, _) =>
    case Echo(_, _, _, _) => NewReadyByEcho(cfg, me, s, m, Verified(cfg, me, m), o);
    case Ready(_, _, _, _, _) => NewReadyByReady(cfg, me, s, m, Verified(cfg, me, m), o);
  }

  lemma NewReadyByEcho<P>(cfg: Config<P>, me: int, s: Inst<P>, m: Msg<P>, ok: bool, o: Msg<P>)
    requires m.Echo? && o in OnEcho(cfg, me, s, m, ok).out
    ensures o.Ready? && o.from == me && ReadyOf(cfg, o, CellOf(OnEcho(cfg, me, s, m, ok).inst, o.c).bars)
  {
  }

  lemma NewReadyByReady<P>(cfg: Config<P>, me: int, s: Inst<P>, m: Msg<P>, ok: bool, o: Msg<P>)
    requires m.Ready? && o in OnReady(cfg, me, s, m, ok).out
    ensures o.Ready? && o.from == me && ReadyOf(cfg, o, CellOf(OnReady(cfg, me, s, m, ok).inst, o.c).bars)
  {
  }

  /** In every run each ready of an honest node is signed and carries the values of the polynomials it holds for the matrix. */
  lemma {:induction false} ReadiesAreMade<P(!new)>(w: World<P>, es: seq<Event<P>>, tr: seq<System<P>>, i: nat, o: Msg<P>)
    requires w.Valid() && Run(w, es, tr) && i < |tr| && o in tr[i].net && o.Ready? && w.Honest(o.from)
    ensures o.from in tr[i].insts && ReadyOf(w.cfg, o, CellOf(tr[i].insts[o.from], o.c).bars)
  {
    RunKeepsInv(w, es, tr, i);
    if i > 0 {
      RunKeepsInv(w, es, tr, i - 1);
      if o in tr[i - 1].net {
        ReadiesAreMade(w, es, tr, i - 1, o);
        BarsKept(w, tr[i - 1], es[i - 1], o.from, o.c);
      } else {
        var m := es[i - 1].m;
        NewReady(w.cfg, m.to, w.dealer, tr[i - 1].insts[m.to], m, o);
      }
      assert tr[i] == Next(w, tr[i - 1], es[i - 1]);
    }
  }

  lemma BarsKept<P(!new)>(w: World<P>, s: System<P>, e: Event<P>, p: int, c: Matrix<P>)
    requires w.Valid() && Inv(w, s) && Enabled(w, s, e) && p in s.insts && CellOf(s.insts[p], c).bars.Some?
    ensures p in Next(w, s, e).insts && CellOf(Next(w, s, e).insts[p], c).bars == CellOf(s.insts[p], c).bars
  {
    assert NodeInv(w, s.net, p, s.insts[p]);
    if e.Deliver? && e.m.to == p {
      BarsStayOnce(w.cfg, p, w.dealer, s.insts[p], e.m, c);
    }
  }
}
