/** One sharing at one node, over every sequence of messages. */
module Instance {
  import opened Sets
  import opened Avss
  import opened Machine

  /** The nodes that run the code, and every message ever sent. */
  datatype System<P(==)> = System(insts: map<int, Inst<P>>, net: set<Msg<P>>)

  ghost predicate FromNetwork<P>(cfg: Config<P>, ms: seq<Msg<P>>) {
    forall j :: 0 <= j < |ms| ==> ms[j].Send? || ms[j].from in cfg.nodes
  }

  /** The state after the messages, oldest first. */
  ghost function After<P>(cfg: Config<P>, me: int, dealer: int, ms: seq<Msg<P>>): Inst<P> {
    if ms == [] then Fresh()
    else OnMsg(cfg, me, dealer, After(cfg, me, dealer, ms[..|ms| - 1]), ms[|ms| - 1]).inst
  }

  /** Enough echoes, or enough readies, for c. */
  ghost predicate Reached<P>(cfg: Config<P>, s: Inst<P>, c: Matrix<P>) {
    |CellOf(s, c).echoFrom| >= cfg.EcThreshold() || |CellOf(s, c).readyFrom| >= cfg.k
  }

  /** A ready for c goes out. */
  ghost predicate Fires<P>(out: set<Msg<P>>, c: Matrix<P>) {
    exists m :: m in out && m.Ready? && m.c == c
  }

  /** How often a ready for c has gone out. */
  ghost function ReadyCount<P>(cfg: Config<P>, me: int, dealer: int, ms: seq<Msg<P>>, c: Matrix<P>): nat {
    if ms == [] then 0
    else
      var n := |ms| - 1;
      ReadyCount(cfg, me, dealer, ms[..n], c)
      + if Fires(OnMsg(cfg, me, dealer, After(cfg, me, dealer, ms[..n]), ms[n]).out, c) then 1 else 0
  }

  lemma OnMsgOk<P(!new)>(cfg: Config<P>, me: int, dealer: int, s: Inst<P>, m: Msg<P>)
    requires cfg.Valid() && InstOk(cfg, s) && (m.Send? || m.from in cfg.nodes)
    ensures InstOk(cfg, OnMsg(cfg, me, dealer, s, m).inst)
  {
    match m
    case Send(_, _, _, _, _, _, _) => MarkOk(cfg, s, OnMsg(cfg, me, dealer, s, m).inst);
    case Echo(_, _, _, _) => OnEchoOk(cfg, me, s, m, Verified(cfg, me, m));
    case Ready(_, _, _, _, _) => OnReadyOk(cfg, me, s, m, Verified(cfg, me, m));
  }

  lemma {:induction false} AfterOk<P(!new)>(cfg: Config<P>, me: int, dealer: int, ms: seq<Msg<P>>)
    requires cfg.Valid() && FromNetwork(cfg, ms)
    ensures InstOk(cfg, After(cfg, me, dealer, ms))
  {
    if ms != [] {
      var n := |ms| - 1;
      AfterOk(cfg, me, dealer, ms[..n]);
      OnMsgOk(cfg, me, dealer, After(cfg, me, dealer, ms[..n]), ms[n]);
    }
  }

  lemma FiresReadies<P>(cfg: Config<P>, me: int, c: Matrix<P>, b: Bars, d: Matrix<P>)
    requires cfg.nodes != {}
    ensures Fires(Readies(cfg, me, c, b), d) <==> c == d
  {
    var i := Pick(cfg.nodes);
    assert Ready(me, i, c, PointsFor(cfg, b.abar, b.abar', b.bbar, b.bbar', i), true) in Readies(cfg, me, c, b);
  }

  /** Storing a cell fires for c exactly if this cell is for c and completes a threshold. */
  lemma StoreFires<P>(cfg: Config<P>, me: int, s: Inst<P>, s1: Inst<P>, d: Matrix<P>, cell: Cell, fire: bool, c: Matrix<P>)
    requires cfg.nodes != {} && s1.cells == s.cells
    requires fire <==> !Reached(cfg, s, d) && (|cell.echoFrom| >= cfg.EcThreshold() || |cell.readyFrom| >= cfg.k)
    requires Reached(cfg, s, d) ==> |cell.echoFrom| >= cfg.EcThreshold() || |cell.readyFrom| >= cfg.k
    ensures var r := Store(cfg, me, s1, d, cell, fire);
            && (Fires(r.out, c) <==> !Reached(cfg, s, c) && Reached(cfg, r.inst, c))
            && (Reached(cfg, s, c) ==> Reached(cfg, r.inst, c))
  {
    FiresReadies(cfg, me, d, Interpolated(cfg.g.q, cell.pts), c);
  }

  lemma EchoFires<P(!new)>(cfg: Config<P>, me: int, s: Inst<P>, m: Msg<P>, ok: bool, c: Matrix<P>)
    requires cfg.Valid() && cfg.nodes != {} && InstOk(cfg, s) && m.Echo?
    ensures var r := OnEcho(cfg, me, s, m, ok);
            && (Fires(r.out, c) <==> !Reached(cfg, s, c) && Reached(cfg, r.inst, c))
            && (Reached(cfg, s, c) ==> Reached(cfg, r.inst, c))
  {
    if !s.phase.Over? && m.from !in s.receivedEcho && ok {
      var prev, cell := CellOf(s, m.c), EchoCell(s, m);
      assert m.from !in prev.echoFrom by { OldCellOk(cfg, s, m.c); }
      assert |cell.echoFrom| == |prev.echoFrom| + 1;
      StoreFires(cfg, me, s, s.(receivedEcho := s.receivedEcho + {m.from}), m.c, cell,
                 |cell.echoFrom| == cfg.EcThreshold() && |cell.readyFrom| < cfg.k, c);
    }
  }

  lemma ReadyFires<P(!new)>(cfg: Config<P>, me: int, s: Inst<P>, m: Msg<P>, ok: bool, c: Matrix<P>)
    requires cfg.Valid() && cfg.nodes != {} && InstOk(cfg, s) && m.Ready?
    ensures var r := OnReady(cfg, me, s, m, ok);
            && (Fires(r.out, c) <==> !Reached(cfg, s, c) && Reached(cfg, r.inst, c))
            && (Reached(cfg, s, c) ==> Reached(cfg, r.inst, c))
  {
    if !s.phase.Over? && m.from !in s.receivedReady && ok && m.signed {
      var prev, cell := CellOf(s, m.c), ReadyCell(s, m);
      assert m.from !in prev.readyFrom by { OldCellOk(cfg, s, m.c); }
      assert |cell.readyFrom| == |prev.readyFrom| + 1;
      StoreFires(cfg, me, s, s.(receivedReady := s.receivedReady + {m.from}), m.c, cell,
                 |cell.readyFrom| == cfg.k && |cell.echoFrom| < cfg.EcThreshold(), c);
    }
  }

  /** A ready for c goes out exactly at the message that completes the first of the two thresholds. */
  lemma ReadyFiresAtThreshold<P(!new)>(cfg: Config<P>, me: int, dealer: int, s: Inst<P>, m: Msg<P>, c: Matrix<P>)
    requires cfg.Valid() && cfg.nodes != {} && InstOk(cfg, s)
    ensures var r := OnMsg(cfg, me, dealer, s, m);
            Fires(r.out, c) <==> !Reached(cfg, s, c) && Reached(cfg, r.inst, c)
    ensures Reached(cfg, s, c) ==> Reached(cfg, OnMsg(cfg, me, dealer, s, m).inst, c)
  {
    match m
    case Send(_, _, _, _, _, _, _) =>
    case Echo(_, _, _, _) => EchoFires(cfg, me, s, m, Verified(cfg, me, m), c);
    case Ready(_, _, _, _, _) => ReadyFires(cfg, me, s, m, Verified(cfg, me, m), c);
  }

  /** Over every interleaving, a ready for c goes out once if a threshold has been reached and never otherwise. */
  lemma {:induction false} ReadySentExactlyOnce<P(!new)>(cfg: Config<P>, me: int, dealer: int, ms: seq<Msg<P>>, c: Matrix<P>)
    requires cfg.Valid() && cfg.nodes != {} && FromNetwork(cfg, ms)
    ensures ReadyCount(cfg, me, dealer, ms, c) == if Reached(cfg, After(cfg, me, dealer, ms), c) then 1 else 0
  {
    if ms != [] {
      var n := |ms| - 1;
      ReadySentExactlyOnce(cfg, me, dealer, ms[..n], c);
      AfterOk(cfg, me, dealer, ms[..n]);
      ReadyFiresAtThreshold(cfg, me, dealer, After(cfg, me, dealer, ms[..n]), ms[n], c);
    }
  }

  /** When the last ready arrives the interpolated polynomials are there, with at least k coefficients. The code also reads
      the corner C[0][0] there: on an empty matrix that fails, which `SharingNode.ReadyCrashes` describes and this
      machine does not. */
  lemma NeverReadsMissingBars<P(!new)>(cfg: Config<P>, me: int, dealer: int, ms: seq<Msg<P>>, m: Msg<P>)
    requires cfg.Valid() && FromNetwork(cfg, ms) && (m.Send? || m.from in cfg.nodes)
    ensures OnMsg(cfg, me, dealer, After(cfg, me, dealer, ms), m).status != Crash
    ensures var s := OnMsg(cfg, me, dealer, After(cfg, me, dealer, ms), m).inst;
            s.phase.Over? ==> s.cbar in s.cells && s.cells[s.cbar].bars.Some? && |s.cells[s.cbar].bars.value.abar| >= cfg.k
  {
    var s := After(cfg, me, dealer, ms);
    AfterOk(cfg, me, dealer, ms);
    OnMsgOk(cfg, me, dealer, s, m);
    if m.Ready? {
      ReadyNeverCrashes(cfg, me, s, m, Verified(cfg, me, m));
    }
    if OnMsg(cfg, me, dealer, s, m).inst.phase.Over? {
      EndedHasBars(cfg, OnMsg(cfg, me, dealer, s, m).inst);
    }
  }

  lemma ReadyNeverCrashes<P(!new)>(cfg: Config<P>, me: int, s: Inst<P>, m: Msg<P>, ok: bool)
    requires cfg.Valid() && InstOk(cfg, s) && m.Ready? && m.from in cfg.nodes
    ensures OnReady(cfg, me, s, m, ok).status != Crash
  {
    if m.from !in s.receivedReady {
      OldCellOk(cfg, s, m.c);
      ReadyKeptOk(cfg, CellOf(s, m.c), m.from, m.pts);
    }
  }

  lemma EndedHasBars<P(!new)>(cfg: Config<P>, s: Inst<P>)
    requires cfg.Valid() && InstOk(cfg, s) && s.phase.Over?
    ensures s.cbar in s.cells && s.cells[s.cbar].bars.Some? && |s.cells[s.cbar].bars.value.abar| >= cfg.k
  {
    assert EntryOk(cfg, s, s.cbar);
  }

  /** A counted ready ends the sharing exactly when it is number k + t; with t = 0 it must also find the
      echo threshold reached already, because the branch that sends a ready comes first. On an empty matrix the code
      fails at this point, see `SharingNode.ReadyCrashes`. */
  lemma EndsExactlyWhen<P(!new)>(cfg: Config<P>, me: int, s: Inst<P>, m: Msg<P>)
    requires cfg.Valid() && InstOk(cfg, s) && !s.phase.Over?
    requires m.Ready? && m.from in cfg.nodes && m.from !in s.receivedReady && m.signed
    ensures var cell := CellOf(s, m.c);
            OnReady(cfg, me, s, m, true).inst.phase.Over? <==>
              && |cell.readyFrom| + 1 == cfg.k + cfg.t
              && (cfg.t == 0 ==> |cell.echoFrom| >= cfg.EcThreshold())
  {
    OldCellOk(cfg, s, m.c);
    var cell := ReadyCell(s, m);
    assert |cell.readyFrom| == |CellOf(s, m.c).readyFrom| + 1;
    if |cell.readyFrom| == cfg.k + cfg.t && !(|cell.readyFrom| == cfg.k && |cell.echoFrom| < cfg.EcThreshold()) {
      assert cell.bars.Some? && |cell.bars.value.abar| == |cell.bars.value.abar'| >= 1 by {
        ReadyKeptOk(cfg, CellOf(s, m.c), m.from, m.pts);
      }
    }
  }

  /** An ended sharing keeps its matrix and its share whatever arrives. */
  lemma {:induction false} EndIsFinal<P(!new)>(cfg: Config<P>, me: int, dealer: int, ms: seq<Msg<P>>, more: seq<Msg<P>>)
    requires After(cfg, me, dealer, ms).phase.Over?
    ensures var s, s' := After(cfg, me, dealer, ms), After(cfg, me, dealer, ms + more);
            s'.phase.Over? && s'.cbar == s.cbar && s'.si == s.si && s'.si' == s.si' && s'.cells == s.cells
    decreases |more|
  {
    if more == [] {
      assert ms + more == ms;
    } else {
      var n := |more| - 1;
      EndIsFinal(cfg, me, dealer, ms, more[..n]);
      assert (ms + more)[..|ms + more| - 1] == ms + more[..n];
    }
  }
}
