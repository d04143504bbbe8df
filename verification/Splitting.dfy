/** How many nodes it takes to split a sharing: two honest nodes can end it with different matrices only if each matrix
    has k nodes behind it, bad ones counted twice. */
module Splitting {
  import opened Sets
  import opened Avss
  import opened Machine
  import opened Instance
  import opened Agreement

  /** Some run ends with two honest nodes holding different matrices. */
  ghost predicate CanSplit<P(!new)>(w: World<P>) {
    exists es, tr, p, r :: SplitBy(w, es, tr, p, r)
  }

  ghost predicate SplitBy<P>(w: World<P>, es: seq<Event<P>>, tr: seq<System<P>>, p: int, r: int) {
    && Run(w, es, tr) && p in tr[|es|].insts && r in tr[|es|].insts
    && var a, b := tr[|es|].insts[p], tr[|es|].insts[r];
       a.phase.Over? && b.phase.Over? && a.cbar != b.cbar
  }

  /** Enough nodes to end at all, and enough honest ones for two camps which the bad nodes complete to k each. */
  ghost predicate Splittable<P>(w: World<P>) {
    && !w.cfg.onceOnly && |w.cfg.nodes| >= w.cfg.k + w.cfg.t
    && |w.cfg.nodes| - |w.bad| >= 2 * (w.cfg.k - |w.bad|)
  }

  // ----- one echo per sender

  ghost predicate CountsEcho<P>(s: Inst<P>, x: int, c: Matrix<P>) { x in CellOf(s, c).echoFrom }

  /** A node counts one echo of each sender, for one matrix. */
  ghost predicate OneEchoEach<P(!new)>(s: Inst<P>) {
    forall x, c, d {:trigger CountsEcho(s, x, c), CountsEcho(s, x, d)} :: CountsEcho(s, x, c) && CountsEcho(s, x, d) ==> c == d
  }

  lemma DeliverOneEcho<P(!new)>(cfg: Config<P>, me: int, dealer: int, s: Inst<P>, m: Msg<P>)
    requires cfg.Valid() && InstOk(cfg, s) && OneEchoEach(s)
    ensures OneEchoEach(OnMsg(cfg, me, dealer, s, m).inst)
  {
    var s' := OnMsg(cfg, me, dealer, s, m).inst;
    forall x, c, d | CountsEcho(s', x, c) && CountsEcho(s', x, d) ensures c == d {
      CountedBefore(cfg, me, dealer, s, m, x, c);
      CountedBefore(cfg, me, dealer, s, m, x, d);
    }
  }

  /** An echo is counted now and not before only for the matrix it carries, and only if its sender was not marked. */
  lemma CountedBefore<P(!new)>(cfg: Config<P>, me: int, dealer: int, s: Inst<P>, m: Msg<P>, x: int, c: Matrix<P>)
    requires cfg.Valid() && InstOk(cfg, s) && CountsEcho(OnMsg(cfg, me, dealer, s, m).inst, x, c)
    ensures CountsEcho(s, x, c) || (c == m.c && x !in s.receivedEcho)
    ensures CountsEcho(s, x, c) ==> x in s.receivedEcho
  {
    OldCellOk(cfg, s, c);
    CellsGrow(cfg, me, dealer, s, m, c);
    if m.Echo? {
      EchoCellsAre(cfg, me, s, m, Verified(cfg, me, m));
    }
  }

  lemma EchoesStay<P>(cfg: Config<P>, me: int, dealer: int, s: Inst<P>, m: Msg<P>, c: Matrix<P>)
    ensures CellOf(s, c).echoFrom <= CellOf(OnMsg(cfg, me, dealer, s, m).inst, c).echoFrom
  {
    match m
    case Send(_, _, _, _, _, _, _) =>
    case Echo(_, _, _, _) => EchoCellsAre(cfg, me, s, m, Verified(cfg, me, m));
    case Ready(_, _, _, _, _) => ReadyCellsAre(cfg, me, s, m, Verified(cfg, me, m));
  }

  // ----- the camp of a matrix

  /** The honest nodes that have the echo threshold for c. */
  ghost function Camp<P>(w: World<P>, s: System<P>, c: Matrix<P>): set<int> {
    set p | p in s.insts && |CellOf(s.insts[p], c).echoFrom| >= w.cfg.EcThreshold()
  }

  /** An honest ready for c comes from its camp, or the camp and the bad nodes make k. */
  ghost predicate Joined<P>(w: World<P>, s: System<P>, x: int, c: Matrix<P>) {
    w.Honest(x) && ReadySent(s.net, x, c) ==> x in Camp(w, s, c) || |Camp(w, s, c)| + |w.bad| >= w.cfg.k
  }

  ghost predicate CampInv<P(!new)>(w: World<P>, s: System<P>) {
    && Inv(w, s)
    && (forall p :: p in s.insts ==> OneEchoEach(s.insts[p]))
    && (forall x, c {:trigger Joined(w, s, x, c)} :: Joined(w, s, x, c))
  }

  lemma CampGrows<P(!new)>(w: World<P>, s: System<P>, e: Event<P>, c: Matrix<P>)
    requires Enabled(w, s, e)
    ensures Camp(w, s, c) <= Camp(w, Next(w, s, e), c) && |Camp(w, s, c)| <= |Camp(w, Next(w, s, e), c)|
  {
    var s' := Next(w, s, e);
    if e.Deliver? {
      var i := s.insts[e.m.to];
      EchoesStay(w.cfg, e.m.to, w.dealer, i, e.m, c);
      SubsetSize(CellOf(i, c).echoFrom, CellOf(s'.insts[e.m.to], c).echoFrom);
    }
    SubsetSize(Camp(w, s, c), Camp(w, s', c));
  }

  /** k senders of readies for c: the honest ones stand for a camp that the bad nodes complete. */
  lemma ReadersMakeCamp<P(!new)>(w: World<P>, s: System<P>, c: Matrix<P>, a: set<int>)
    requires CampInv(w, s) && a <= w.cfg.nodes && |a| >= w.cfg.k && w.bad <= w.cfg.nodes
    requires forall x :: x in a ==> ReadySent(s.net, x, c)
    ensures |Camp(w, s, c)| + |w.bad| >= w.cfg.k
  {
    assert a == (a - w.bad) + (a * w.bad) && |a| == |a - w.bad| + |a * w.bad|;
    SubsetSize(a * w.bad, w.bad);
    if |Camp(w, s, c)| + |w.bad| < w.cfg.k {
      forall x | x in a - w.bad ensures x in Camp(w, s, c) {
        assert Joined(w, s, x, c);
      }
      SubsetSize(a - w.bad, Camp(w, s, c));
    }
  }

  lemma DeliverJoins<P(!new)>(w: World<P>, s: System<P>, e: Event<P>, c: Matrix<P>)
    requires w.Valid() && CampInv(w, s) && Enabled(w, s, e) && e.Deliver? && !ReadySent(s.net, e.m.to, c)
    ensures Joined(w, Next(w, s, e), e.m.to, c)
  {
    var m, s' := e.m, Next(w, s, e);
    var i := s.insts[m.to];
    assert NodeInv(w, s.net, m.to, i);
    if ReadySent(s'.net, m.to, c) {
      assert Fires(OnMsg(w.cfg, m.to, w.dealer, i, m).out, c);
      ReadyFiresAtThreshold(w.cfg, m.to, w.dealer, i, m, c);
      var readers := CellOf(s'.insts[m.to], c).readyFrom;
      if |readers| >= w.cfg.k {
        assert Backed(s.net, i, c);
        DeliverBacked(w, s.net, m.to, i, m, c);
        OnMsgOk(w.cfg, m.to, w.dealer, i, m);
        OldCellOk(w.cfg, s'.insts[m.to], c);
        assert readers <= w.cfg.nodes;
        ReadersMakeCamp(w, s, c, readers);
        CampGrows(w, s, e, c);
      }
    }
  }

  lemma NextKeepsCamps<P(!new)>(w: World<P>, s: System<P>, e: Event<P>)
    requires w.Valid() && CampInv(w, s) && Enabled(w, s, e)
    ensures CampInv(w, Next(w, s, e))
  {
    var s' := Next(w, s, e);
    NextKeepsInv(w, s, e);
    forall p | p in s'.insts ensures OneEchoEach(s'.insts[p]) {
      if e.Deliver? && e.m.to == p {
        assert NodeInv(w, s.net, p, s.insts[p]);
        DeliverOneEcho(w.cfg, p, w.dealer, s.insts[p], e.m);
      }
    }
    forall x, c ensures Joined(w, s', x, c) {
      NextJoins(w, s, e, x, c);
    }
  }

  lemma NextJoins<P(!new)>(w: World<P>, s: System<P>, e: Event<P>, x: int, c: Matrix<P>)
    requires w.Valid() && CampInv(w, s) && Enabled(w, s, e)
    ensures Joined(w, Next(w, s, e), x, c)
  {
    assert Joined(w, s, x, c);
    CampGrows(w, s, e, c);
    if w.Honest(x) {
      if e.Inject? {
        NotByUnchanged(s.net, {e.m}, x, c);
      } else {
        var out := OnMsg(w.cfg, e.m.to, w.dealer, s.insts[e.m.to], e.m).out;
        Outputs(w.cfg, e.m.to, w.dealer, s.insts[e.m.to], e.m);
        if x != e.m.to {
          NotByUnchanged(s.net, out, x, c);
        } else if !ReadySent(s.net, x, c) {
          DeliverJoins(w, s, e, c);
        }
      }
    }
  }

  lemma StartHasNoCamp<P(!new)>(w: World<P>)
    requires w.Valid()
    ensures CampInv(w, Start(w))
  {
  }

  lemma {:induction false} RunKeepsCamps<P(!new)>(w: World<P>, es: seq<Event<P>>, tr: seq<System<P>>, i: nat)
    requires w.Valid() && Run(w, es, tr) && i < |tr|
    ensures CampInv(w, tr[i])
  {
    if i == 0 {
      StartHasNoCamp(w);
    } else {
      RunKeepsCamps(w, es, tr, i - 1);
      NextKeepsCamps(w, tr[i - 1], es[i - 1]);
    }
  }

  // ----- two camps

  /** No node is in two camps: it would have counted more echoes than there are nodes. */
  lemma CampsApart<P(!new)>(w: World<P>, s: System<P>, c: Matrix<P>, d: Matrix<P>)
    requires w.Valid() && CampInv(w, s) && c != d
    ensures Camp(w, s, c) !! Camp(w, s, d) && |Camp(w, s, c)| + |Camp(w, s, d)| <= |w.cfg.nodes| - |w.bad|
  {
    forall p | p in Camp(w, s, c) && p in Camp(w, s, d) ensures false {
      var i := s.insts[p];
      assert NodeInv(w, s.net, p, i);
      OldCellOk(w.cfg, i, c);
      OldCellOk(w.cfg, i, d);
      EchoesApart(w.cfg, i, c, d);
    }
    var honest := w.cfg.nodes - w.bad;
    assert |w.cfg.nodes| == |honest| + |w.bad| by { assert w.cfg.nodes == honest + w.bad; }
    SubsetSize(Camp(w, s, c) + Camp(w, s, d), honest);
  }

  lemma EchoesApart<P(!new)>(cfg: Config<P>, s: Inst<P>, c: Matrix<P>, d: Matrix<P>)
    requires OneEchoEach(s) && c != d && CellOf(s, c).echoFrom <= cfg.nodes && CellOf(s, d).echoFrom <= cfg.nodes
    ensures |CellOf(s, c).echoFrom| < cfg.EcThreshold() || |CellOf(s, d).echoFrom| < cfg.EcThreshold()
  {
    var a, b := CellOf(s, c).echoFrom, CellOf(s, d).echoFrom;
    if |a| >= cfg.EcThreshold() && |b| >= cfg.EcThreshold() {
      assert 2 * cfg.EcThreshold() >= |cfg.nodes| + cfg.t + 1;
      Overlap(a, b, cfg.nodes);
      var x := Pick(a * b);
      assert CountsEcho(s, x, c) && CountsEcho(s, x, d);
    }
  }

  lemma EndedHasCamp<P(!new)>(w: World<P>, s: System<P>, p: int)
    requires w.Valid() && CampInv(w, s) && p in s.insts && s.insts[p].phase.Over?
    ensures |Camp(w, s, s.insts[p].cbar)| + |w.bad| >= w.cfg.k && |w.cfg.nodes| >= w.cfg.k + w.cfg.t
  {
    var i := s.insts[p];
    assert NodeInv(w, s.net, p, i);
    assert EntryOk(w.cfg, i, i.cbar) && Backed(s.net, i, i.cbar);
    var readers := i.cells[i.cbar].readyFrom;
    assert readers <= w.cfg.nodes by { OldCellOk(w.cfg, i, i.cbar); }
    SubsetSize(readers, w.cfg.nodes);
    ReadersMakeCamp(w, s, i.cbar, readers);
  }

  /** Without the guard against a second `send`, whatever dealer and bad nodes do: a split takes that many nodes. */
  lemma SplitTakesTwoCamps<P(!new)>(w: World<P>)
    requires w.Valid() && CanSplit(w)
    ensures Splittable(w)
  {
    var es: seq<Event<P>>, tr: seq<System<P>>, p, r :| SplitBy(w, es, tr, p, r);
    var n := |es|;
    if w.cfg.onceOnly {
      AgreementInEveryRun(w, es, tr, n, n, p, r);
    }
    RunKeepsCamps(w, es, tr, n);
    EndedHasCamp(w, tr[n], p);
    EndedHasCamp(w, tr[n], r);
    CampsApart(w, tr[n], tr[n].insts[p].cbar, tr[n].insts[r].cbar);
  }
}
