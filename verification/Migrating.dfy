/** Migrations come to their end: with K old and K new nodes that follow the protocol, some run thaws the mapping. */
module Migrating {
  import opened Modular
  import opened Sets
  import opened Ledger
  import opened Migration
  import opened Mapping
  import opened Thawing

  /** The moves mvs lead from the start with new nodes ns, none of which has heard anything, to y. */
  ghost predicate Leads<P(!new)>(c: Setting<P>, ns: set<Node>, mvs: seq<Move<P>>, y: Sys<P>)
    requires SettingOk(c)
  {
    y.nodes.Keys == ns && exists tr :: IsRun(c, mvs, tr) && tr[|mvs|] == y
  }

  lemma StartLeads<P(!new)>(c: Setting<P>, ns: set<Node>) returns (y: Sys<P>)
    requires SettingOk(c)
    ensures Leads(c, ns, [], y) && forall p :: p in ns ==> y.nodes[p] == NodeState({}, map[], map[])
  {
    y := Sys(map p | p in ns :: NodeState({}, map[], map[]), {}, Init());
    assert IsRun(c, [], [y]);
  }

  lemma OneMore<P(!new)>(c: Setting<P>, ns: set<Node>, mvs: seq<Move<P>>, y: Sys<P>, mv: Move<P>)
    requires SettingOk(c) && Leads(c, ns, mvs, y) && Enabled(c, y, mv)
    ensures Leads(c, ns, mvs + [mv], Next(c, y, mv))
  {
    var tr :| IsRun(c, mvs, tr) && tr[|mvs|] == y;
    RunOn(c, mvs, tr, mv);
    assert (tr + [Next(c, y, mv)])[|mvs + [mv]|] == Next(c, y, mv);
  }

  lemma RunOn<P(!new)>(c: Setting<P>, mvs: seq<Move<P>>, tr: seq<Sys<P>>, mv: Move<P>)
    requires SettingOk(c) && IsRun(c, mvs, tr) && Enabled(c, tr[|mvs|], mv)
    ensures IsRun(c, mvs + [mv], tr + [Next(c, tr[|mvs|], mv)])
  {
  }

  function TxOf<P>(w: World<P>, msg: MapMsg<P>): Tx<P> {
    match msg
    case SummaryMsg(last) => Summary(w.mid, last)
    case KeyMsg(key) => Key(w.mid, key)
  }

  /** Who has told the node so. */
  function Heard<P>(n: NodeState<P>, msg: MapMsg<P>): set<Node> {
    match msg
    case SummaryMsg(last) => Voters(n.summaryFrom, last)
    case KeyMsg(key) => Voters(n.keyFrom, key)
  }

  /** Nobody has, and a summary of any old node is still welcome. */
  ghost predicate Open<P>(n: NodeState<P>, msg: MapMsg<P>) {
    Heard(n, msg) == {} && (msg.SummaryMsg? ==> n.senders == {})
  }

  /** Between two states only node p has heard more, about this message. */
  ghost predicate OnlyHeard<P(!new)>(y: Sys<P>, y': Sys<P>, p: Node, msg: MapMsg<P>) {
    && p in y.nodes && p in y'.nodes && y'.nodes == y.nodes[p := y'.nodes[p]] && y.sent <= y'.sent
    && forall other {:trigger Open(y'.nodes[p], other)} :: other != msg && Open(y.nodes[p], other) && !other.SummaryMsg? ==>
         Open(y'.nodes[p], other)
  }

  lemma OneTells<P(!new)>(c: Setting<P>, n: NodeState<P>, x: Node, msg: MapMsg<P>, before: set<Node>)
    requires x in c.oldNodes && x !in before && Heard(n, msg) == before && (msg.SummaryMsg? ==> n.senders == before)
    ensures var r := OnMsg(c, n, x, msg);
            && Heard(r.node, msg) == before + {x} && (msg.SummaryMsg? ==> r.node.senders == before + {x})
            && (|before| + 1 == c.kOld ==> r.broadcast == Some(TxOf(c.w, msg)))
            && forall other {:trigger Open(r.node, other)} :: other != msg && Open(n, other) && !other.SummaryMsg? ==> Open(r.node, other)
  {
    assert |before + {x}| == |before| + 1;
  }

  /** The nodes in xs tell p. */
  lemma {:induction false} Tell<P(!new)>(c: Setting<P>, ns: set<Node>, mvs: seq<Move<P>>, y: Sys<P>, p: Node, msg: MapMsg<P>, xs: set<Node>)
    returns (mvs': seq<Move<P>>, y': Sys<P>)
    requires SettingOk(c) && Leads(c, ns, mvs, y) && p in ns && FromOldChain(c.w, msg) && Open(y.nodes[p], msg)
    requires xs <= c.oldNodes - c.badOld
    ensures Leads(c, ns, mvs', y') && mvs <= mvs' && OnlyHeard(y, y', p, msg)
    ensures Heard(y'.nodes[p], msg) == xs && (msg.SummaryMsg? ==> y'.nodes[p].senders == xs)
    ensures |xs| == c.kOld ==> (p, TxOf(c.w, msg)) in y'.sent
    decreases |xs|
  {
    if xs == {} {
      mvs', y' := mvs, y;
    } else {
      var x := Pick(xs);
      var less := xs - {x};
      assert |less| == |xs| - 1 && less + {x} == xs;
      var mvs1, y1 := Tell(c, ns, mvs, y, p, msg, less);
      OneTells(c, y1.nodes[p], x, msg, less);
      var mv := Arrive(p, x, msg);
      OneMore(c, ns, mvs1, y1, mv);
      mvs', y' := mvs1 + [mv], Next(c, y1, mv);
    }
  }

  lemma VotedStays<P>(mvs: seq<Move<P>>, mvs': seq<Move<P>>, tx: Tx<P>)
    requires mvs <= mvs'
    ensures Voted(mvs, tx) <= Voted(mvs', tx)
  {
    forall p | p in Voted(mvs, tx) ensures p in Voted(mvs', tx) {
      var j :| 0 <= j < |mvs| && mvs[j].Submit? && mvs[j].tx == tx && mvs[j].sender == p;
      assert mvs'[j] == mvs[j];
    }
  }

  /** p hears it from K old nodes and votes for it. */
  lemma Vote<P(!new)>(c: Setting<P>, ns: set<Node>, mvs: seq<Move<P>>, y: Sys<P>, p: Node, msg: MapMsg<P>, xs: set<Node>)
    returns (mvs': seq<Move<P>>, y': Sys<P>)
    requires SettingOk(c) && Leads(c, ns, mvs, y) && p in ns && FromOldChain(c.w, msg) && Open(y.nodes[p], msg)
    requires xs <= c.oldNodes - c.badOld && |xs| == c.kOld
    ensures Leads(c, ns, mvs', y') && mvs <= mvs' && OnlyHeard(y, y', p, msg) && p in Voted(mvs', TxOf(c.w, msg))
  {
    var mvs1, y1 := Tell(c, ns, mvs, y, p, msg, xs);
    var mv := Submit(p, TxOf(c.w, msg));
    OneMore(c, ns, mvs1, y1, mv);
    VotedMore(mvs1, mv, mv.tx);
    mvs', y' := mvs1 + [mv], Next(c, y1, mv);
  }

  /** p has voted for the summary and the keys below n, and is open to the rest. */
  ghost predicate VotedBelow<P>(w: World<P>, mvs: seq<Move<P>>, p: Node, n: nat) {
    && p in Voted(mvs, Summary(w.mid, Last(w)))
    && forall j {:trigger Key(w.mid, OldKey(w, j))} :: 0 <= j < n ==> p in Voted(mvs, Key(w.mid, OldKey(w, j)))
  }

  lemma {:induction false} VoteBelow<P(!new)>(c: Setting<P>, ns: set<Node>, mvs: seq<Move<P>>, y: Sys<P>, p: Node, xs: set<Node>, n: nat)
    returns (mvs': seq<Move<P>>, y': Sys<P>)
    requires SettingOk(c) && Leads(c, ns, mvs, y) && p in ns && y.nodes[p] == NodeState({}, map[], map[]) && n <= Last(c.w)
    requires xs <= c.oldNodes - c.badOld && |xs| == c.kOld
    ensures Leads(c, ns, mvs', y') && mvs <= mvs' && y'.nodes == y.nodes[p := y'.nodes[p]]
    ensures VotedBelow(c.w, mvs', p, n)
    ensures forall j {:trigger OldKey(c.w, j)} :: n <= j < Last(c.w) ==> Open(y'.nodes[p], KeyMsg(OldKey(c.w, j)))
    decreases n
  {
    if n == 0 {
      mvs', y' := Vote(c, ns, mvs, y, p, SummaryMsg(Last(c.w)), xs);
      forall j | 0 <= j < Last(c.w) ensures Open(y'.nodes[p], KeyMsg(OldKey(c.w, j))) {
        assert Open(y.nodes[p], KeyMsg(OldKey(c.w, j)));
      }
    } else {
      var mvs1, y1 := VoteBelow(c, ns, mvs, y, p, xs, n - 1);
      mvs', y' := VoteNext(c, ns, mvs1, y1, p, xs, n - 1);
    }
  }

  lemma VoteNext<P(!new)>(c: Setting<P>, ns: set<Node>, mvs: seq<Move<P>>, y: Sys<P>, p: Node, xs: set<Node>, n: nat)
    returns (mvs': seq<Move<P>>, y': Sys<P>)
    requires SettingOk(c) && Leads(c, ns, mvs, y) && p in ns && n < Last(c.w) && VotedBelow(c.w, mvs, p, n)
    requires forall j {:trigger OldKey(c.w, j)} :: n <= j < Last(c.w) ==> Open(y.nodes[p], KeyMsg(OldKey(c.w, j)))
    requires xs <= c.oldNodes - c.badOld && |xs| == c.kOld
    ensures Leads(c, ns, mvs', y') && mvs <= mvs' && y'.nodes == y.nodes[p := y'.nodes[p]]
    ensures VotedBelow(c.w, mvs', p, n + 1)
    ensures forall j {:trigger OldKey(c.w, j)} :: n < j < Last(c.w) ==> Open(y'.nodes[p], KeyMsg(OldKey(c.w, j)))
  {
    OldKeyIndex(c.w, n);
    mvs', y' := Vote(c, ns, mvs, y, p, KeyMsg(OldKey(c.w, n)), xs);
    VotedBelowStays(c.w, mvs, mvs', p, n);
    forall j | n < j < Last(c.w) ensures Open(y'.nodes[p], KeyMsg(OldKey(c.w, j))) {
      OldKeyIndex(c.w, j);
      assert Open(y.nodes[p], KeyMsg(OldKey(c.w, j)));
    }
  }

  lemma VotedBelowStays<P>(w: World<P>, mvs: seq<Move<P>>, mvs': seq<Move<P>>, p: Node, n: nat)
    requires mvs <= mvs' && VotedBelow(w, mvs, p, n)
    ensures VotedBelow(w, mvs', p, n)
  {
    VotedStays(mvs, mvs', Summary(w.mid, Last(w)));
    forall j | 0 <= j < n ensures p in Voted(mvs', Key(w.mid, OldKey(w, j))) {
      VotedStays(mvs, mvs', Key(w.mid, OldKey(w, j)));
    }
  }

  lemma {:induction false} AllVote<P(!new)>(c: Setting<P>, ns: set<Node>, ps: set<Node>, xs: set<Node>)
    returns (mvs: seq<Move<P>>, y: Sys<P>)
    requires SettingOk(c) && ps <= ns && xs <= c.oldNodes - c.badOld && |xs| == c.kOld
    ensures Leads(c, ns, mvs, y) && forall p :: p in ns - ps ==> y.nodes[p] == NodeState({}, map[], map[])
    ensures forall p :: p in ps ==> VotedBelow(c.w, mvs, p, Last(c.w))
    decreases |ps|
  {
    if ps == {} {
      mvs := [];
      y := StartLeads(c, ns);
    } else {
      var p := Pick(ps);
      var mvs1, y1 := AllVote(c, ns, ps - {p}, xs);
      mvs, y := VoteBelow(c, ns, mvs1, y1, p, xs, Last(c.w));
      forall r | r in ps ensures VotedBelow(c.w, mvs, r, Last(c.w)) {
        if r != p { VotedBelowStays(c.w, mvs1, mvs, r, Last(c.w)); }
      }
    }
  }

  /** If K old nodes and K new nodes follow the protocol and the old chain has assigned a key, some run thaws the mapping. */
  lemma MigrationCanThaw<P(!new)>(c: Setting<P>, ns: set<Node>) returns (mvs: seq<Move<P>>, tr: seq<Sys<P>>)
    requires SettingOk(c) && Last(c.w) > 0 && |c.oldNodes - c.badOld| >= c.kOld && |ns| >= c.w.env.k
    ensures IsRun(c, mvs, tr) && tr[0].nodes.Keys == ns && c.w.mid in tr[|mvs|].chain.thawed
  {
    var xs := Between({}, c.oldNodes - c.badOld, c.kOld);
    var y;
    mvs, y := AllVote(c, ns, ns, xs);
    tr :| IsRun(c, mvs, tr) && tr[|mvs|] == y;
    SameNodes(c, mvs, tr, |mvs|);
    EnoughVoted(c.w, mvs, ns);
    assert mvs[..|mvs|] == mvs;
    ThawedIff(c, mvs, tr, |mvs|);
  }

  lemma EnoughVoted<P>(w: World<P>, mvs: seq<Move<P>>, ps: set<Node>)
    requires Last(w) > 0 && |ps| >= w.env.k && forall p :: p in ps ==> VotedBelow(w, mvs, p, Last(w))
    ensures AllVoted(w, mvs)
  {
    var summary := Voted(mvs, Summary(w.mid, Last(w)));
    assert forall p :: p in ps ==> p in summary;
    SubsetSize(ps, summary);
    forall j | 0 <= j < Last(w) ensures |Voted(mvs, Key(w.mid, OldKey(w, j)))| >= w.env.k {
      var key := Voted(mvs, Key(w.mid, OldKey(w, j)));
      assert forall p :: p in ps ==> p in key;
      SubsetSize(ps, key);
    }
  }

  lemma {:induction false} SameNodes<P(!new)>(c: Setting<P>, mvs: seq<Move<P>>, tr: seq<Sys<P>>, i: nat)
    requires SettingOk(c) && IsRun(c, mvs, tr) && i < |tr|
    ensures tr[i].nodes.Keys == tr[0].nodes.Keys
  {
    if i > 0 {
      SameNodes(c, mvs, tr, i - 1);
    }
  }
}
