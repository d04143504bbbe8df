/** Every run of an honest dealer's sharing can be continued until nothing is left to deliver, and such networks exist. */
module Quiescence {
  import opened Sets
  import opened Curve
  import opened Machine
  import opened Instance
  import opened Completion
  import opened Constants

  /** A mark of node y: a send (kind 0), an echo (1) or a ready (2) from x. */
  datatype Mark = Mark(kind: int, x: int, y: int)

  ghost predicate Marked<P>(s: System<P>, t: Mark) {
    t.y in s.insts &&
    if t.kind == 0 then s.insts[t.y].receivedSend
    else if t.kind == 1 then t.x in s.insts[t.y].receivedEcho
    else t.x in s.insts[t.y].receivedReady
  }

  ghost function AllMarks<P>(w: World<P>): set<Mark> {
    set k, x, y | k in {0, 1, 2} && x in w.cfg.nodes && y in w.cfg.nodes :: Mark(k, x, y)
  }

  ghost function Marks<P>(w: World<P>, s: System<P>): set<Mark> {
    set t | t in AllMarks(w) && Marked(s, t)
  }

  ghost function MarkOf<P>(m: Msg<P>): Mark {
    match m
    case Send(_, to, _, _, _, _, _) => Mark(0, to, to)
    case Echo(from, to, _, _) => Mark(1, from, to)
    case Ready(from, to, _, _, _) => Mark(2, from, to)
  }

  ghost predicate Grows<P>(s: Inst<P>, s': Inst<P>) {
    (s.receivedSend ==> s'.receivedSend) && s.receivedEcho <= s'.receivedEcho && s.receivedReady <= s'.receivedReady
  }

  lemma SendMarks<P>(cfg: Config<P>, me: int, dealer: int, s: Inst<P>, m: Msg<P>, ok: bool)
    requires m.Send? && m.from == dealer && !s.phase.Over? && !s.receivedSend
    ensures Grows(s, OnSend(cfg, me, dealer, s, m, ok).inst) && OnSend(cfg, me, dealer, s, m, ok).inst.receivedSend
  {
  }

  lemma EchoMarks<P>(cfg: Config<P>, me: int, s: Inst<P>, m: Msg<P>, ok: bool)
    requires m.Echo?
    ensures Grows(s, OnEcho(cfg, me, s, m, ok).inst) && m.from in OnEcho(cfg, me, s, m, ok).inst.receivedEcho
  {
  }

  lemma ReadyMarks<P>(cfg: Config<P>, me: int, s: Inst<P>, m: Msg<P>, ok: bool)
    requires m.Ready?
    ensures Grows(s, OnReady(cfg, me, s, m, ok).inst) && m.from in OnReady(cfg, me, s, m, ok).inst.receivedReady
  {
  }

  /** m can be delivered, and is no send that comes too late or a second time. */
  ghost predicate Deliverable<P>(w: World<P>, s: System<P>, m: Msg<P>) {
    && m in s.net && m.to in s.insts && m.to in w.cfg.nodes && (m.Send? || m.from in w.cfg.nodes)
    && (m.Send? ==> m.from == w.dealer && !s.insts[m.to].phase.Over? && !s.insts[m.to].receivedSend)
  }

  lemma DeliveryGrows<P>(w: World<P>, s: System<P>, m: Msg<P>)
    requires Deliverable(w, s, m)
    ensures var s' := Next(w, s, m);
            m.to in s'.insts && Grows(s.insts[m.to], s'.insts[m.to]) && Marked(s', MarkOf(m))
    ensures Next(w, s, m).insts == s.insts[m.to := Next(w, s, m).insts[m.to]]
  {
    match m {
      case Send(_, _, _, _, _, _, _) => SendMarks(w.cfg, m.to, w.dealer, s.insts[m.to], m, Verified(w.cfg, m.to, m));
      case Echo(_, _, _, _) => EchoMarks(w.cfg, m.to, s.insts[m.to], m, Verified(w.cfg, m.to, m));
      case Ready(_, _, _, _, _) => ReadyMarks(w.cfg, m.to, s.insts[m.to], m, Verified(w.cfg, m.to, m));
    }
  }

  /** A delivery marks its message and takes no mark back. */
  lemma DeliveryMarks<P>(w: World<P>, s: System<P>, m: Msg<P>)
    requires Deliverable(w, s, m) && !Marked(s, MarkOf(m))
    ensures |Marks(w, s)| < |Marks(w, Next(w, s, m))| <= |AllMarks(w)|
  {
    DeliveryGrows(w, s, m);
    MarksGrow(w, s, Next(w, s, m), m.to, MarkOf(m));
  }

  lemma MarksGrow<P>(w: World<P>, s: System<P>, s': System<P>, p: int, t: Mark)
    requires p in s.insts && p in s'.insts && s'.insts == s.insts[p := s'.insts[p]] && Grows(s.insts[p], s'.insts[p])
    requires t in AllMarks(w) && Marked(s', t) && !Marked(s, t)
    ensures |Marks(w, s)| < |Marks(w, s')| <= |AllMarks(w)|
  {
    forall u | u in Marks(w, s) ensures u in Marks(w, s') {
    }
    SubsetSize(Marks(w, s) + {t}, Marks(w, s'));
    SubsetSize(Marks(w, s'), AllMarks(w));
  }

  /** Nodes, senders and the dealer's messages are in place. */
  ghost predicate NetOk<P>(w: World<P>, s: System<P>) {
    && s.insts.Keys == w.cfg.nodes && (forall m :: m in s.net && !m.Send? ==> m.from in w.cfg.nodes && m.to in w.cfg.nodes)
    && forall p :: p in w.cfg.nodes ==>
         p in w.sends && w.sends[p] in s.net && w.sends[p].Send? && w.sends[p].from == w.dealer && w.sends[p].to == p
  }

  /** A state that is not quiet has a message whose delivery adds a mark. */
  lemma Undelivered<P(!new)>(w: World<P>, s: System<P>) returns (m: Msg<P>)
    requires NetOk(w, s) && !Quiet(w.cfg.nodes, s)
    ensures Deliverable(w, s, m) && !Marked(s, MarkOf(m))
  {
    if p :| p in w.cfg.nodes && p in s.insts && !s.insts[p].receivedSend && !s.insts[p].phase.Over? {
      m := w.sends[p];
    } else if x, y :| x in w.cfg.nodes && y in w.cfg.nodes && y in s.insts && Told(s.net, false, x, y) && x !in s.insts[y].receivedEcho {
      m :| m in s.net && !m.Send? && m.Ready? == false && m.from == x && m.to == y;
    } else {
      var x, y :| x in w.cfg.nodes && y in w.cfg.nodes && y in s.insts && Told(s.net, true, x, y) && x !in s.insts[y].receivedReady;
      m :| m in s.net && !m.Send? && m.Ready? == true && m.from == x && m.to == y;
    }
  }

  lemma {:induction false} StartKept<P>(w: World<P>, ms: seq<Msg<P>>, tr: seq<System<P>>, i: nat)
    requires Completion.Run(w, ms, tr) && i < |tr|
    ensures Start(w).net <= tr[i].net
  {
    if i > 0 {
      StartKept(w, ms, tr, i - 1);
    }
  }

  lemma RunNet<P(!new)>(w: World<P>, ms: seq<Msg<P>>, tr: seq<System<P>>, i: nat)
    requires Valid(w) && w.cfg.t >= 1 && Completion.Run(w, ms, tr) && i < |tr|
    ensures NetOk(w, tr[i])
  {
    RunKeepsInv(w, ms, tr, i);
    StartKept(w, ms, tr, i);
    forall p | p in w.cfg.nodes ensures w.sends[p] in tr[i].net && RightSend(w, w.sends[p], p) {
      assert w.sends[p] in Start(w).net;
    }
  }

  lemma OneMore<P(!new)>(w: World<P>, ms: seq<Msg<P>>, tr: seq<System<P>>, m: Msg<P>)
    requires Completion.Run(w, ms, tr) && m in tr[|ms|].net && m.to in tr[|ms|].insts
    ensures Completion.Run(w, ms + [m], tr + [Next(w, tr[|ms|], m)])
  {
    RunOn(w, ms, tr, m, Next(w, tr[|ms|], m));
  }

  lemma RunOn<P(!new)>(w: World<P>, ms: seq<Msg<P>>, tr: seq<System<P>>, m: Msg<P>, s: System<P>)
    requires Completion.Run(w, ms, tr) && Delivers(w, tr[|ms|], m, s)
    ensures Completion.Run(w, ms + [m], tr + [s])
  {
    var ms', tr' := ms + [m], tr + [s];
    forall i | 0 <= i < |ms'| ensures Delivers(w, tr'[i], ms'[i], tr'[i + 1]) {
      if i < |ms| { assert Delivers(w, tr[i], ms[i], tr[i + 1]); }
    }
  }

  /** Every run, wherever it stands, can go on to a quiet state: there completion applies. */
  lemma {:induction false} RunsGetQuiet<P(!new)>(w: World<P>, ms: seq<Msg<P>>, tr: seq<System<P>>)
    returns (ms': seq<Msg<P>>, tr': seq<System<P>>)
    requires Valid(w) && w.cfg.t >= 1 && Completion.Run(w, ms, tr)
    ensures Completion.Run(w, ms', tr') && ms <= ms' && tr <= tr' && Quiet(w.cfg.nodes, tr'[|ms'|])
    decreases |AllMarks(w)| - |Marks(w, tr[|ms|])|
  {
    var s := tr[|ms|];
    if Quiet(w.cfg.nodes, s) {
      return ms, tr;
    }
    assert NetOk(w, s) by { RunNet(w, ms, tr, |ms|); }
    var m := Undelivered(w, s);
    DeliveryMarks(w, s, m);
    OneMore(w, ms, tr, m);
    ms', tr' := RunsGetQuiet(w, ms + [m], tr + [Next(w, s, m)]);
  }

  /** So every live node can come to its share, in every run. */
  lemma EveryRunCanComplete<P(!new)>(w: World<P>, ms: seq<Msg<P>>, tr: seq<System<P>>)
    returns (ms': seq<Msg<P>>, tr': seq<System<P>>)
    requires Valid(w) && 1 <= w.cfg.t < w.cfg.k && |w.cfg.nodes| - w.cfg.t >= w.cfg.k + w.cfg.t && Completion.Run(w, ms, tr)
    ensures Completion.Run(w, ms', tr') && ms <= ms' && tr <= tr'
    ensures forall p :: p in w.cfg.nodes ==>
              var s := tr'[|ms'|]; p in s.insts && s.insts[p].phase.Over? && RightShare(w, p, s.insts[p])
  {
    ms', tr' := RunsGetQuiet(w, ms, tr);
    forall p | p in w.cfg.nodes
      ensures var s := tr'[|ms'|]; p in s.insts && s.insts[p].phase.Over? && RightShare(w, p, s.insts[p])
    {
      LiveNodesComplete(w, w.cfg.nodes, ms', tr', |ms'|, p);
    }
  }

  // ----- a network

  /** Nodes 1 to 4, K = 2, T = 1; the dealer shares the constant 1. */
  function SmallWorld<P>(g: Group<P>): World<P> {
    ConstantWorld(Config(g, {1, 2, 3, 4}, 2, 1, false), 1, 1)
  }

  /** The hypotheses of completion can be met, in any group with more than four elements; the integers modulo 5 are one. */
  lemma SmallWorldIsValid<P(!new)>(g: Group<P>)
    requires Laws(g) && g.q > 4
    ensures var w := SmallWorld(g);
            Valid(w) && 1 <= w.cfg.t < w.cfg.k && |w.cfg.nodes| - w.cfg.t >= w.cfg.k + w.cfg.t
  {
    ConstantWorldIsValid(SmallWorld(g).cfg, 1, 1);
    assert |{1, 2, 3, 4}| == 4;
  }

  lemma FifthWorldIsValid()
    ensures Valid(SmallWorld(FifthGroup()))
  {
    FifthIsLawful();
    SmallWorldIsValid(FifthGroup());
  }
}
