/** A sharing with a dealer and up to t nodes that do what they like. No two honest nodes end it with different
    commitment matrices, as long as no honest node takes up `send`s with different matrices. Re-sharing, which refuses
    a second `send`, sees to that by itself. */
module Agreement {
  import opened Sets
  import opened Avss
  import opened Machine
  import opened Instance

  /** The network, the nodes that may misbehave, and the index of the dealer, who may too. */
  datatype World<!P> = World(cfg: Config<P>, bad: set<int>, dealer: int) {
    ghost predicate Valid() {
      cfg.Valid() && cfg.t < cfg.k && bad <= cfg.nodes && |bad| <= cfg.t
    }

    ghost predicate Honest(p: int) { p in cfg.nodes && p !in bad }
  }

  datatype Event<P> = Deliver(m: Msg<P>) | Inject(m: Msg<P>)

  ghost function Start<P>(w: World<P>): System<P> {
    System(map p | p in w.cfg.nodes - w.bad :: Fresh(), {})
  }

  /** Any message sent may be delivered at any time, again and again; `send`s and the messages of bad
      nodes may be made up at any time. */
  ghost predicate Enabled<P>(w: World<P>, s: System<P>, e: Event<P>) {
    match e
    case Deliver(m) => m in s.net && m.to in s.insts && (m.Send? || m.from in w.cfg.nodes)
    case Inject(m) => m.Send? || m.from in w.bad
  }

  ghost function Next<P>(w: World<P>, s: System<P>, e: Event<P>): System<P>
    requires Enabled(w, s, e)
  {
    match e
    case Inject(m) => s.(net := s.net + {m})
    case Deliver(m) =>
      var r := OnMsg(w.cfg, m.to, w.dealer, s.insts[m.to], m);
      System(s.insts[m.to := r.inst], s.net + r.out)
  }

  /** tr is the sequence of states that the events es go through from the start. */
  ghost predicate Run<P>(w: World<P>, es: seq<Event<P>>, tr: seq<System<P>>) {
    && |tr| == |es| + 1 && tr[0] == Start(w)
    && forall i :: 0 <= i < |es| ==> Enabled(w, tr[i], es[i]) && tr[i + 1] == Next(w, tr[i], es[i])
  }

  // ----- who said what

  ghost predicate EchoSent<P>(net: set<Msg<P>>, x: int, c: Matrix<P>) {
    exists m :: m in net && m.Echo? && m.from == x && m.c == c
  }

  ghost predicate ReadySent<P>(net: set<Msg<P>>, x: int, c: Matrix<P>) {
    exists m :: m in net && m.Ready? && m.from == x && m.c == c
  }

  ghost function Echoers<P>(w: World<P>, net: set<Msg<P>>, c: Matrix<P>): set<int> {
    set x | x in w.cfg.nodes && EchoSent(net, x, c)
  }

  // ----- invariant

  /** A node counts only what was sent. */
  ghost predicate Backed<P>(net: set<Msg<P>>, s: Inst<P>, c: Matrix<P>) {
    c in s.cells ==>
      && (forall x :: x in s.cells[c].echoFrom ==> EchoSent(net, x, c))
      && (forall x :: x in s.cells[c].readyFrom ==> ReadySent(net, x, c))
  }

  ghost predicate NodeInv<P(!new)>(w: World<P>, net: set<Msg<P>>, p: int, s: Inst<P>) {
    && InstOk(w.cfg, s)
    && (forall c {:trigger Backed(net, s, c)} :: Backed(net, s, c))
  }

  /** Behind every ready of an honest node there is a quorum of echoes. */
  ghost predicate ReadyHasQuorum<P(!new)>(w: World<P>, net: set<Msg<P>>) {
    forall x, c {:trigger ReadySent(net, x, c)} ::
      w.Honest(x) && ReadySent(net, x, c) ==> |Echoers(w, net, c)| >= w.cfg.EcThreshold()
  }

  ghost predicate Inv<P(!new)>(w: World<P>, s: System<P>) {
    && s.insts.Keys == w.cfg.nodes - w.bad
    && (forall p :: p in s.insts ==> NodeInv(w, s.net, p, s.insts[p]))
    && ReadyHasQuorum(w, s.net)
  }

  // ----- quorums

  /** 2 * ecThreshold > n + t: two quorums share an honest node. */
  lemma QuorumsMeet<P>(w: World<P>, a: set<int>, b: set<int>) returns (x: int)
    requires w.Valid() && a <= w.cfg.nodes && b <= w.cfg.nodes
    requires |a| >= w.cfg.EcThreshold() && |b| >= w.cfg.EcThreshold()
    ensures x in a && x in b && w.Honest(x)
  {
    assert 2 * w.cfg.EcThreshold() >= |w.cfg.nodes| + w.cfg.t + 1;
    Overlap(a, b, w.cfg.nodes);
    x := Outside(a * b, w.bad);
  }

  /** No honest node has echoed two matrices. */
  ghost predicate EchoesOne<P(!new)>(w: World<P>, s: System<P>) {
    forall p, c, d {:trigger EchoSent(s.net, p, c), EchoSent(s.net, p, d)} ::
      w.Honest(p) && EchoSent(s.net, p, c) && EchoSent(s.net, p, d) ==> c == d
  }

  /** Then all honest readies are for one matrix. */
  lemma ReadiesAgree<P(!new)>(w: World<P>, s: System<P>, x: int, y: int, c: Matrix<P>, d: Matrix<P>)
    requires w.Valid() && Inv(w, s) && EchoesOne(w, s) && w.Honest(x) && w.Honest(y)
    requires ReadySent(s.net, x, c) && ReadySent(s.net, y, d)
    ensures c == d
  {
    var z := QuorumsMeet(w, Echoers(w, s.net, c), Echoers(w, s.net, d));
    assert EchoSent(s.net, z, c) && EchoSent(s.net, z, d);
  }

  /** Enough counted readies, or enough counted echoes, mean a quorum of echoes was sent. */
  lemma ReachedHasQuorum<P(!new)>(w: World<P>, net: set<Msg<P>>, s: Inst<P>, c: Matrix<P>)
    requires w.Valid() && ReadyHasQuorum(w, net) && InstOk(w.cfg, s) && Backed(net, s, c) && Reached(w.cfg, s, c)
    ensures |Echoers(w, net, c)| >= w.cfg.EcThreshold()
  {
    assert EntryOk(w.cfg, s, c);
    var cell := CellOf(s, c);
    if |cell.echoFrom| >= w.cfg.EcThreshold() {
      SubsetSize(cell.echoFrom, Echoers(w, net, c));
    } else {
      var x := Outside(cell.readyFrom, w.bad);
      assert w.Honest(x) && ReadySent(net, x, c);
    }
  }

  /** No two honest nodes end with different matrices. */
  lemma EndedAgree<P(!new)>(w: World<P>, s: System<P>, p: int, r: int)
    requires w.Valid() && Inv(w, s) && EchoesOne(w, s) && p in s.insts && r in s.insts
    requires s.insts[p].phase.Over? && s.insts[r].phase.Over?
    ensures s.insts[p].cbar == s.insts[r].cbar
  {
    var x := HonestReady(w, s, p);
    var y := HonestReady(w, s, r);
    ReadiesAgree(w, s, x, y, s.insts[p].cbar, s.insts[r].cbar);
  }

  lemma HonestReady<P(!new)>(w: World<P>, s: System<P>, p: int) returns (x: int)
    requires w.Valid() && Inv(w, s) && p in s.insts && s.insts[p].phase.Over?
    ensures w.Honest(x) && ReadySent(s.net, x, s.insts[p].cbar)
  {
    var i := s.insts[p];
    assert NodeInv(w, s.net, p, i);
    assert EntryOk(w.cfg, i, i.cbar) && Backed(s.net, i, i.cbar);
    x := Outside(i.cells[i.cbar].readyFrom, w.bad);
  }

  // ----- every step keeps the invariant

  lemma Grows<P>(net: set<Msg<P>>, net': set<Msg<P>>, x: int, c: Matrix<P>)
    requires net <= net'
    ensures EchoSent(net, x, c) ==> EchoSent(net', x, c)
    ensures ReadySent(net, x, c) ==> ReadySent(net', x, c)
  {
  }

  /** Messages by others leave what p has sent as it was. */
  ghost predicate NotBy<P>(out: set<Msg<P>>, p: int) {
    forall m :: m in out ==> m.Send? || m.from != p
  }

  lemma NotByUnchanged<P>(net: set<Msg<P>>, out: set<Msg<P>>, p: int, c: Matrix<P>)
    requires NotBy(out, p)
    ensures EchoSent(net + out, p, c) <==> EchoSent(net, p, c)
    ensures ReadySent(net + out, p, c) <==> ReadySent(net, p, c)
  {
    Grows(net, net + out, p, c);
  }

  lemma OthersKeep<P(!new)>(w: World<P>, net: set<Msg<P>>, out: set<Msg<P>>, p: int, s: Inst<P>)
    requires NodeInv(w, net, p, s)
    ensures NodeInv(w, net + out, p, s)
  {
    forall c ensures Backed(net + out, s, c) {
      assert Backed(net, s, c);
      forall x ensures EchoSent(net, x, c) ==> EchoSent(net + out, x, c) { Grows(net, net + out, x, c); }
      forall x ensures ReadySent(net, x, c) ==> ReadySent(net + out, x, c) { Grows(net, net + out, x, c); }
    }
  }

  lemma QuorumGrows<P>(w: World<P>, net: set<Msg<P>>, net': set<Msg<P>>, c: Matrix<P>)
    requires net <= net'
    ensures |Echoers(w, net, c)| <= |Echoers(w, net', c)|
  {
    forall x ensures EchoSent(net, x, c) ==> EchoSent(net', x, c) { Grows(net, net', x, c); }
    SubsetSize(Echoers(w, net, c), Echoers(w, net', c));
  }

  /** A new ready of p keeps the quorum property if p had reached a threshold. */
  lemma QuorumsKept<P(!new)>(w: World<P>, net: set<Msg<P>>, out: set<Msg<P>>, p: int)
    requires ReadyHasQuorum(w, net)
    requires forall m :: m in out ==> m.Send? || m.from == p
    requires forall c {:trigger Fires(out, c)} :: w.Honest(p) && Fires(out, c) ==> |Echoers(w, net, c)| >= w.cfg.EcThreshold()
    ensures ReadyHasQuorum(w, net + out)
  {
    forall x, c | w.Honest(x) && ReadySent(net + out, x, c)
      ensures |Echoers(w, net + out, c)| >= w.cfg.EcThreshold()
    {
      QuorumGrows(w, net, net + out, c);
      if !ReadySent(net, x, c) {
        assert x == p && Fires(out, c);
      }
    }
  }

  /** What a handler sends: only its own messages; echoes only on an accepted `send`. */
  lemma Outputs<P>(cfg: Config<P>, me: int, dealer: int, s: Inst<P>, m: Msg<P>)
    ensures var r := OnMsg(cfg, me, dealer, s, m);
            && (forall o :: o in r.out ==> o.from == me && (o.Echo? || o.Ready?))
            && (forall o :: o in r.out && o.Echo? ==> m.Send? && o.c == m.c && r.inst.receivedSend && !(cfg.onceOnly && s.receivedSend))
            && (s.receivedSend ==> r.inst.receivedSend)
  {
    match m
    case Send(_, _, _, _, _, _, _) => SendOutputs(cfg, me, dealer, s, m, Verified(cfg, me, m));
    case Echo(_, _, _, _) => EchoOutputs(cfg, me, s, m, Verified(cfg, me, m));
    case Ready(_, _, _, _, _) => ReadyOutputs(cfg, me, s, m, Verified(cfg, me, m));
  }

  lemma SendOutputs<P>(cfg: Config<P>, me: int, dealer: int, s: Inst<P>, m: Msg<P>, ok: bool)
    requires m.Send?
    ensures var r := OnSend(cfg, me, dealer, s, m, ok);
            && (forall o :: o in r.out ==> o.from == me && o.Echo? && o.c == m.c && r.inst.receivedSend && !(cfg.onceOnly && s.receivedSend))
            && (s.receivedSend ==> r.inst.receivedSend)
  {
  }

  lemma EchoOutputs<P>(cfg: Config<P>, me: int, s: Inst<P>, m: Msg<P>, ok: bool)
    requires m.Echo?
    ensures var r := OnEcho(cfg, me, s, m, ok);
            (forall o :: o in r.out ==> o.from == me && o.Ready?) && r.inst.receivedSend == s.receivedSend
  {
  }

  lemma ReadyOutputs<P>(cfg: Config<P>, me: int, s: Inst<P>, m: Msg<P>, ok: bool)
    requires m.Ready?
    ensures var r := OnReady(cfg, me, s, m, ok);
            (forall o :: o in r.out ==> o.from == me && o.Ready?) && r.inst.receivedSend == s.receivedSend
  {
  }

  lemma DeliverBacked<P(!new)>(w: World<P>, net: set<Msg<P>>, p: int, s: Inst<P>, m: Msg<P>, c: Matrix<P>)
    requires m in net && Backed(net, s, c)
    ensures Backed(net, OnMsg(w.cfg, p, w.dealer, s, m).inst, c)
  {
    CellsGrow(w.cfg, p, w.dealer, s, m, c);
  }

  lemma DeliverKeepsNode<P(!new)>(w: World<P>, net: set<Msg<P>>, p: int, s: Inst<P>, m: Msg<P>)
    requires w.Valid() && NodeInv(w, net, p, s) && m in net && (m.Send? || m.from in w.cfg.nodes)
    ensures var r := OnMsg(w.cfg, p, w.dealer, s, m); NodeInv(w, net + r.out, p, r.inst)
    ensures forall c {:trigger Backed(net, OnMsg(w.cfg, p, w.dealer, s, m).inst, c)} ::
              Backed(net, OnMsg(w.cfg, p, w.dealer, s, m).inst, c)
  {
    var r := OnMsg(w.cfg, p, w.dealer, s, m);
    OnMsgOk(w.cfg, p, w.dealer, s, m);
    forall c ensures Backed(net, r.inst, c) && Backed(net + r.out, r.inst, c) {
      assert Backed(net, s, c);
      DeliverBacked(w, net, p, s, m, c);
      forall x ensures EchoSent(net, x, c) ==> EchoSent(net + r.out, x, c) { Grows(net, net + r.out, x, c); }
      forall x ensures ReadySent(net, x, c) ==> ReadySent(net + r.out, x, c) { Grows(net, net + r.out, x, c); }
    }
  }

  lemma DeliverKeepsQuorums<P(!new)>(w: World<P>, net: set<Msg<P>>, p: int, s: Inst<P>, m: Msg<P>)
    requires w.Valid() && w.Honest(p) && NodeInv(w, net, p, s) && m in net && (m.Send? || m.from in w.cfg.nodes)
    requires ReadyHasQuorum(w, net)
    ensures ReadyHasQuorum(w, net + OnMsg(w.cfg, p, w.dealer, s, m).out)
  {
    var r := OnMsg(w.cfg, p, w.dealer, s, m);
    OnMsgOk(w.cfg, p, w.dealer, s, m);
    forall c | Fires(r.out, c) ensures |Echoers(w, net, c)| >= w.cfg.EcThreshold() {
      ReadyFiresAtThreshold(w.cfg, p, w.dealer, s, m, c);
      assert Backed(net, s, c);
      DeliverBacked(w, net, p, s, m, c);
      ReachedHasQuorum(w, net, r.inst, c);
    }
    Outputs(w.cfg, p, w.dealer, s, m);
    QuorumsKept(w, net, r.out, p);
  }

  lemma NextKeepsInv<P(!new)>(w: World<P>, s: System<P>, e: Event<P>)
    requires w.Valid() && Inv(w, s) && Enabled(w, s, e)
    ensures Inv(w, Next(w, s, e))
  {
    var m, s' := e.m, Next(w, s, e);
    if e.Inject? {
      forall p | p in s.insts ensures NodeInv(w, s'.net, p, s.insts[p]) {
        OthersKeep(w, s.net, {m}, p, s.insts[p]);
      }
      QuorumsKept(w, s.net, {m}, m.from);
    } else {
      var i := s.insts[m.to];
      var r := OnMsg(w.cfg, m.to, w.dealer, i, m);
      assert NodeInv(w, s.net, m.to, i);
      DeliverKeepsNode(w, s.net, m.to, i, m);
      DeliverKeepsQuorums(w, s.net, m.to, i, m);
      Outputs(w.cfg, m.to, w.dealer, i, m);
      forall p | p in s.insts && p != m.to ensures NodeInv(w, s'.net, p, s.insts[p]) {
        OthersKeep(w, s.net, r.out, p, s.insts[p]);
      }
    }
  }

  lemma {:induction false} RunKeepsInv<P(!new)>(w: World<P>, es: seq<Event<P>>, tr: seq<System<P>>, i: nat)
    requires w.Valid() && Run(w, es, tr) && i < |tr|
    ensures Inv(w, tr[i])
  {
    if i > 0 {
      RunKeepsInv(w, es, tr, i - 1);
      NextKeepsInv(w, tr[i - 1], es[i - 1]);
    }
  }

  lemma {:induction false} EndPersists<P(!new)>(w: World<P>, es: seq<Event<P>>, tr: seq<System<P>>, i: nat, j: nat, p: int)
    requires w.Valid() && Run(w, es, tr) && i <= j < |tr| && p in tr[i].insts && tr[i].insts[p].phase.Over?
    ensures p in tr[j].insts && tr[j].insts[p].phase.Over? && tr[j].insts[p].cbar == tr[i].insts[p].cbar
    decreases j
  {
    if i < j {
      EndPersists(w, es, tr, i, j - 1, p);
    }
  }

  // ----- which matrices an honest node echoes

  /** The node in state s takes up the `send` m: it comes from the dealer, passes the check, comes before the end and is
      not refused as a second one. */
  ghost predicate Takes<P>(w: World<P>, s: Inst<P>, m: Msg<P>) {
    m.Send? && !s.phase.Over? && !(w.cfg.onceOnly && s.receivedSend) && m.from == w.dealer && Verified(w.cfg, m.to, m)
  }

  /** At event i node p takes up a `send` of matrix c. */
  ghost predicate Taken<P>(w: World<P>, es: seq<Event<P>>, tr: seq<System<P>>, i: int, p: int, c: Matrix<P>) {
    && 0 <= i < |es| && i < |tr| && es[i].Deliver? && es[i].m.to == p && es[i].m.c == c
    && p in tr[i].insts && Takes(w, tr[i].insts[p], es[i].m)
  }

  lemma DeliveredEchoes<P>(w: World<P>, net: set<Msg<P>>, s: Inst<P>, m: Msg<P>, c: Matrix<P>)
    requires m.to in w.cfg.nodes
    ensures EchoSent(net + OnMsg(w.cfg, m.to, w.dealer, s, m).out, m.to, c)
            <==> EchoSent(net, m.to, c) || (Takes(w, s, m) && m.c == c)
  {
    var r := OnMsg(w.cfg, m.to, w.dealer, s, m);
    Grows(net, net + r.out, m.to, c);
    Outputs(w.cfg, m.to, w.dealer, s, m);
    if Takes(w, s, m) {
      assert Echo(m.to, m.to, m.c, PointsFor(w.cfg, m.a, m.a', m.b, m.b', m.to)) in Echoes(w.cfg, m.to, m);
    } else {
      assert forall o :: o in r.out ==> !o.Echo?;
    }
  }

  lemma NextEchoes<P(!new)>(w: World<P>, s: System<P>, e: Event<P>, p: int, c: Matrix<P>)
    requires Enabled(w, s, e) && w.Honest(p) && s.insts.Keys == w.cfg.nodes - w.bad
    ensures EchoSent(Next(w, s, e).net, p, c)
            <==> EchoSent(s.net, p, c) || (e.Deliver? && e.m.to == p && e.m.c == c && Takes(w, s.insts[p], e.m))
  {
    if e.Inject? {
      NotByUnchanged(s.net, {e.m}, p, c);
    } else if e.m.to == p {
      DeliveredEchoes(w, s.net, s.insts[p], e.m, c);
    } else {
      Outputs(w.cfg, e.m.to, w.dealer, s.insts[e.m.to], e.m);
      NotByUnchanged(s.net, OnMsg(w.cfg, e.m.to, w.dealer, s.insts[e.m.to], e.m).out, p, c);
    }
  }

  /** An honest node has echoed exactly the matrices it has taken up. */
  lemma {:induction false} EchoedIsTaken<P(!new)>(w: World<P>, es: seq<Event<P>>, tr: seq<System<P>>, n: nat, p: int, c: Matrix<P>)
    requires w.Valid() && Run(w, es, tr) && n < |tr| && w.Honest(p)
    ensures EchoSent(tr[n].net, p, c) <==> exists i :: i < n && Taken(w, es, tr, i, p, c)
  {
    if n > 0 {
      EchoedIsTaken(w, es, tr, n - 1, p, c);
      RunKeepsInv(w, es, tr, n - 1);
      NextEchoes(w, tr[n - 1], es[n - 1], p, c);
      assert tr[n] == Next(w, tr[n - 1], es[n - 1]);
      assert Taken(w, es, tr, n - 1, p, c) <==>
             es[n - 1].Deliver? && es[n - 1].m.to == p && es[n - 1].m.c == c && Takes(w, tr[n - 1].insts[p], es[n - 1].m);
    }
  }

  /** No honest node takes up `send`s of two matrices; different nodes may take up different ones. */
  ghost predicate OneMatrixEach<P(!new)>(w: World<P>, es: seq<Event<P>>, tr: seq<System<P>>) {
    forall i, j, p, c, d {:trigger Taken(w, es, tr, i, p, c), Taken(w, es, tr, j, p, d)} ::
      Taken(w, es, tr, i, p, c) && Taken(w, es, tr, j, p, d) ==> c == d
  }

  /** That is exactly what keeps honest nodes from echoing two matrices. */
  lemma OneEchoIff<P(!new)>(w: World<P>, es: seq<Event<P>>, tr: seq<System<P>>)
    requires w.Valid() && Run(w, es, tr)
    ensures OneMatrixEach(w, es, tr) <==> EchoesOne(w, tr[|es|])
  {
    var n := |es|;
    if OneMatrixEach(w, es, tr) {
      forall p, c, d | w.Honest(p) && EchoSent(tr[n].net, p, c) && EchoSent(tr[n].net, p, d) ensures c == d {
        EchoedIsTaken(w, es, tr, n, p, c);
        EchoedIsTaken(w, es, tr, n, p, d);
      }
    }
    if EchoesOne(w, tr[n]) {
      forall i, j, p, c, d | Taken(w, es, tr, i, p, c) && Taken(w, es, tr, j, p, d) ensures c == d {
        TakenIsEchoed(w, es, tr, i, p, c);
        TakenIsEchoed(w, es, tr, j, p, d);
      }
    }
  }

  lemma TakenIsEchoed<P(!new)>(w: World<P>, es: seq<Event<P>>, tr: seq<System<P>>, i: int, p: int, c: Matrix<P>)
    requires w.Valid() && Run(w, es, tr) && Taken(w, es, tr, i, p, c)
    ensures w.Honest(p) && EchoSent(tr[|es|].net, p, c)
  {
    RunKeepsInv(w, es, tr, i);
    EchoedIsTaken(w, es, tr, |es|, p, c);
  }

  // ----- agreement

  /** Agreement: in every run in which no honest node takes up two matrices, any two honest nodes that end the sharing, at
      any two moments, do so with the same matrix. */
  lemma OneMatrixAgrees<P(!new)>(w: World<P>, es: seq<Event<P>>, tr: seq<System<P>>, i: nat, j: nat, p: int, r: int)
    requires w.Valid() && Run(w, es, tr) && OneMatrixEach(w, es, tr) && i <= |es| && j <= |es|
    requires p in tr[i].insts && tr[i].insts[p].phase.Over?
    requires r in tr[j].insts && tr[j].insts[r].phase.Over?
    ensures tr[i].insts[p].cbar == tr[j].insts[r].cbar
  {
    EndPersists(w, es, tr, i, |es|, p);
    EndPersists(w, es, tr, j, |es|, r);
    RunKeepsInv(w, es, tr, |es|);
    OneEchoIff(w, es, tr);
    EndedAgree(w, tr[|es|], p, r);
  }

  /** What a dealer can do for it, whether or not it deals the same matrix to all: any two of its `send`s to one node
      that are delivered and pass the check carry one matrix. */
  ghost predicate OneSendEach<P>(w: World<P>, es: seq<Event<P>>) {
    forall i, j :: 0 <= i < |es| && 0 <= j < |es| && Dealt(w, es[i]) && Dealt(w, es[j]) && es[i].m.to == es[j].m.to ==>
      es[i].m.c == es[j].m.c
  }

  ghost predicate Dealt<P>(w: World<P>, e: Event<P>) {
    e.Deliver? && e.m.Send? && e.m.from == w.dealer && Verified(w.cfg, e.m.to, e.m)
  }

  lemma SteadyDealer<P(!new)>(w: World<P>, es: seq<Event<P>>, tr: seq<System<P>>)
    requires OneSendEach(w, es)
    ensures OneMatrixEach(w, es, tr)
  {
    forall i, j, p, c, d | Taken(w, es, tr, i, p, c) && Taken(w, es, tr, j, p, d) ensures c == d {
      assert Dealt(w, es[i]) && Dealt(w, es[j]);
    }
  }

  /** Once marked, always marked. */
  lemma {:induction false} MarkPersists<P(!new)>(w: World<P>, es: seq<Event<P>>, tr: seq<System<P>>, i: nat, j: nat, p: int)
    requires Run(w, es, tr) && i <= j < |tr| && p in tr[i].insts && tr[i].insts[p].receivedSend
    ensures p in tr[j].insts && tr[j].insts[p].receivedSend
    decreases j
  {
    if i < j {
      MarkPersists(w, es, tr, i, j - 1, p);
      MarkStays(w, tr[j - 1], es[j - 1], p);
    }
  }

  lemma MarkStays<P(!new)>(w: World<P>, s: System<P>, e: Event<P>, p: int)
    requires Enabled(w, s, e) && p in s.insts && s.insts[p].receivedSend
    ensures p in Next(w, s, e).insts && Next(w, s, e).insts[p].receivedSend
  {
    if e.Deliver? && e.m.to == p {
      Outputs(w.cfg, p, w.dealer, s.insts[p], e.m);
    }
  }

  /** Where a second `send` is refused a node takes up one at most, whatever the dealer does. */
  lemma RefusalTakesOne<P(!new)>(w: World<P>, es: seq<Event<P>>, tr: seq<System<P>>)
    requires w.cfg.onceOnly && Run(w, es, tr)
    ensures OneMatrixEach(w, es, tr)
  {
    forall i, j, p, c, d | Taken(w, es, tr, i, p, c) && Taken(w, es, tr, j, p, d) ensures i == j {
      if i < j {
        TakenOnce(w, es, tr, i, j, p);
      } else if j < i {
        TakenOnce(w, es, tr, j, i, p);
      }
    }
  }

  lemma TakenOnce<P(!new)>(w: World<P>, es: seq<Event<P>>, tr: seq<System<P>>, i: nat, j: nat, p: int)
    requires Run(w, es, tr) && i < j < |es| && es[i].Deliver? && es[i].m.to == p
    requires p in tr[i].insts && Takes(w, tr[i].insts[p], es[i].m)
    ensures p in tr[j].insts && tr[j].insts[p].receivedSend
  {
    assert tr[i + 1] == Next(w, tr[i], es[i]);
    MarkPersists(w, es, tr, i + 1, j, p);
  }

  /** So in re-sharing agreement needs no such condition. */
  lemma AgreementInEveryRun<P(!new)>(w: World<P>, es: seq<Event<P>>, tr: seq<System<P>>, i: nat, j: nat, p: int, r: int)
    requires w.Valid() && w.cfg.onceOnly && Run(w, es, tr) && i <= |es| && j <= |es|
    requires p in tr[i].insts && tr[i].insts[p].phase.Over?
    requires r in tr[j].insts && tr[j].insts[r].phase.Over?
    ensures tr[i].insts[p].cbar == tr[j].insts[r].cbar
  {
    RefusalTakesOne(w, es, tr);
    OneMatrixAgrees(w, es, tr, i, j, p, r);
  }
}
