/** What a new node passes on to its chain, told by the messages of old nodes that reached it. */
module Relaying {
  import opened Modular
  import opened Sets
  import opened Ledger
  import opened Migration
  import opened Mapping
  import opened Thawing

  datatype Receipt<P> = Receipt(sender: Node, msg: MapMsg<P>)

  /** The node after the messages of h. */
  ghost function NodeAfter<P>(c: Setting<P>, h: seq<Receipt<P>>): NodeState<P> {
    if h == [] then NodeState({}, map[], map[])
    else OnMsg(c, NodeAfter(c, h[..|h| - 1]), h[|h| - 1].sender, h[|h| - 1].msg).node
  }

  // ----- who is counted

  ghost predicate SentSummary<P>(h: seq<Receipt<P>>, x: Node) {
    exists i :: 0 <= i < |h| && h[i].sender == x && h[i].msg.SummaryMsg?
  }

  /** Message number i is the first summary of x, an old node. */
  ghost predicate FirstSummary<P>(c: Setting<P>, h: seq<Receipt<P>>, i: int, x: Node) {
    0 <= i < |h| && h[i].sender == x && h[i].msg.SummaryMsg? && x in c.oldNodes && !SentSummary(h[..i], x)
  }

  /** What an old node is counted for: the number in its first summary; any key it sent. */
  ghost predicate Backs<P>(c: Setting<P>, h: seq<Receipt<P>>, x: Node, msg: MapMsg<P>) {
    if msg.SummaryMsg? then exists i :: FirstSummary(c, h, i, x) && h[i].msg == msg
    else x in c.oldNodes && Receipt(x, msg) in h
  }

  ghost function Backers<P>(c: Setting<P>, h: seq<Receipt<P>>, msg: MapMsg<P>): (r: set<Node>)
    ensures forall x :: x in r <==> Backs(c, h, x, msg)
  {
    set x | x in c.oldNodes && Backs(c, h, x, msg)
  }

  /** The senders the node holds for a message. */
  ghost function HeldFor<P>(n: NodeState<P>, msg: MapMsg<P>): set<Node> {
    if msg.SummaryMsg? then Voters(n.summaryFrom, msg.last) else Voters(n.keyFrom, msg.key)
  }

  lemma SentMore<P>(h: seq<Receipt<P>>, r: Receipt<P>, x: Node)
    ensures SentSummary(h + [r], x) <==> SentSummary(h, x) || (r.sender == x && r.msg.SummaryMsg?)
  {
    var all := h + [r];
    assert all[|h|] == r;
    if SentSummary(h, x) {
      var i :| 0 <= i < |h| && h[i].sender == x && h[i].msg.SummaryMsg?;
      assert all[i] == h[i];
    }
  }

  /** r adds its sender for msg. */
  ghost predicate Backing<P>(c: Setting<P>, h: seq<Receipt<P>>, r: Receipt<P>, msg: MapMsg<P>) {
    r.msg == msg && r.sender in c.oldNodes && (msg.SummaryMsg? ==> !SentSummary(h, r.sender))
  }

  lemma BacksMore<P>(c: Setting<P>, h: seq<Receipt<P>>, r: Receipt<P>, x: Node, msg: MapMsg<P>)
    ensures Backs(c, h + [r], x, msg) <==> Backs(c, h, x, msg) || (Backing(c, h, r, msg) && x == r.sender)
  {
    var all := h + [r];
    if msg.SummaryMsg? {
      forall i | 0 <= i < |h| ensures FirstSummary(c, all, i, x) <==> FirstSummary(c, h, i, x) {
        assert all[..i] == h[..i] && all[i] == h[i];
      }
      assert all[..|h|] == h && all[|h|] == r;
      assert FirstSummary(c, all, |h|, x) <==> r.sender == x && r.msg.SummaryMsg? && x in c.oldNodes && !SentSummary(h, x);
      if i :| FirstSummary(c, h, i, x) && h[i].msg == msg {
        assert FirstSummary(c, all, i, x);
      }
    }
  }

  /** In every history the node holds exactly the backers, and remembers who sent a summary. */
  lemma {:induction false} HeldIs<P(!new)>(c: Setting<P>, h: seq<Receipt<P>>)
    ensures var n := NodeAfter(c, h);
            && (forall msg :: HeldFor(n, msg) == Backers(c, h, msg))
            && forall x :: x in n.senders <==> x in c.oldNodes && SentSummary(h, x)
  {
    if h == [] {
      forall msg: MapMsg<P> ensures Backers(c, h, msg) == {} {
      }
    } else {
      var before, r := h[..|h| - 1], h[|h| - 1];
      assert h == before + [r];
      HeldIs(c, before);
      forall msg ensures HeldFor(NodeAfter(c, h), msg) == Backers(c, h, msg) {
        OneHeld(c, before, r, msg);
      }
      forall x ensures x in NodeAfter(c, h).senders <==> x in c.oldNodes && SentSummary(h, x) {
        SentMore(before, r, x);
      }
    }
  }

  lemma OneHeld<P(!new)>(c: Setting<P>, h: seq<Receipt<P>>, r: Receipt<P>, msg: MapMsg<P>)
    requires HeldFor(NodeAfter(c, h), msg) == Backers(c, h, msg)
    requires r.sender in NodeAfter(c, h).senders <==> r.sender in c.oldNodes && SentSummary(h, r.sender)
    ensures HeldFor(OnMsg(c, NodeAfter(c, h), r.sender, r.msg).node, msg) == Backers(c, h + [r], msg)
  {
    var n' := OnMsg(c, NodeAfter(c, h), r.sender, r.msg).node;
    forall x ensures x in HeldFor(n', msg) <==> x in Backers(c, h + [r], msg) {
      BacksMore(c, h, r, x, msg);
    }
  }

  // ----- what is passed on

  ghost function TxOf<P>(c: Setting<P>, msg: MapMsg<P>): Tx<P> {
    if msg.SummaryMsg? then Summary(c.w.mid, msg.last) else Key(c.w.mid, msg.key)
  }

  ghost predicate PassedAt<P>(c: Setting<P>, h: seq<Receipt<P>>, i: int, tx: Tx<P>) {
    0 <= i < |h| && OnMsg(c, NodeAfter(c, h[..i]), h[i].sender, h[i].msg).broadcast == Some(tx)
  }

  ghost predicate Passed<P>(c: Setting<P>, h: seq<Receipt<P>>, tx: Tx<P>) {
    exists i :: PassedAt(c, h, i, tx)
  }

  lemma PassedMore<P>(c: Setting<P>, h: seq<Receipt<P>>, r: Receipt<P>, tx: Tx<P>)
    ensures Passed(c, h + [r], tx) <==> Passed(c, h, tx) || OnMsg(c, NodeAfter(c, h), r.sender, r.msg).broadcast == Some(tx)
  {
    var all := h + [r];
    forall i | 0 <= i < |h| ensures PassedAt(c, all, i, tx) <==> PassedAt(c, h, i, tx) {
      assert all[..i] == h[..i] && all[i] == h[i];
    }
    assert all[..|h|] == h && all[|h|] == r;
    assert PassedAt(c, all, |h|, tx) <==> OnMsg(c, NodeAfter(c, h), r.sender, r.msg).broadcast == Some(tx);
    if i :| PassedAt(c, h, i, tx) {
      assert PassedAt(c, all, i, tx);
    }
  }

  lemma BackerSent<P>(c: Setting<P>, h: seq<Receipt<P>>, x: Node, msg: MapMsg<P>)
    requires msg.SummaryMsg? && Backs(c, h, x, msg)
    ensures SentSummary(h, x)
  {
    var i :| FirstSummary(c, h, i, x) && h[i].msg == msg;
  }

  /** sent: the sender has sent a summary before. */
  lemma PassesAt<P(!new)>(c: Setting<P>, n: NodeState<P>, r: Receipt<P>, msg: MapMsg<P>, from: set<Node>, sent: bool)
    requires HeldFor(n, msg) == from && (r.sender in n.senders <==> r.sender in c.oldNodes && sent)
    requires msg.SummaryMsg? && r.sender in from ==> sent
    ensures OnMsg(c, n, r.sender, r.msg).broadcast == Some(TxOf(c, msg)) <==>
            && r.msg == msg && r.sender in c.oldNodes && (msg.SummaryMsg? ==> !sent)
            && r.sender !in from && |from| + 1 == c.kOld
  {
    assert r.sender !in from ==> |from + {r.sender}| == |from| + 1;
  }

  lemma PassesNow<P(!new)>(c: Setting<P>, h: seq<Receipt<P>>, r: Receipt<P>, msg: MapMsg<P>)
    ensures OnMsg(c, NodeAfter(c, h), r.sender, r.msg).broadcast == Some(TxOf(c, msg)) <==>
            Backing(c, h, r, msg) && r.sender !in Backers(c, h, msg) && |Backers(c, h, msg)| + 1 == c.kOld
  {
    HeldIs(c, h);
    if msg.SummaryMsg? && r.sender in Backers(c, h, msg) {
      BackerSent(c, h, r.sender, msg);
    }
    PassesAt(c, NodeAfter(c, h), r, msg, Backers(c, h, msg), SentSummary(h, r.sender));
  }

  lemma OneMore(b: set<Node>, x: Node, k: nat)
    ensures |b + {x}| >= k <==> |b| >= k || (x !in b && |b| + 1 == k)
  {
    if x in b {
      assert b + {x} == b;
    }
  }

  lemma PassedStep<P(!new)>(c: Setting<P>, h: seq<Receipt<P>>, r: Receipt<P>, msg: MapMsg<P>)
    ensures Passed(c, h + [r], TxOf(c, msg)) <==>
            || Passed(c, h, TxOf(c, msg))
            || (Backing(c, h, r, msg) && r.sender !in Backers(c, h, msg) && |Backers(c, h, msg)| + 1 == c.kOld)
  {
    PassedMore(c, h, r, TxOf(c, msg));
    PassesNow(c, h, r, msg);
  }

  /** In every history a message is passed on to the chain exactly if K old nodes back it. */
  lemma {:induction false} PassedIff<P(!new)>(c: Setting<P>, h: seq<Receipt<P>>, msg: MapMsg<P>)
    requires c.kOld >= 1
    ensures Passed(c, h, TxOf(c, msg)) <==> |Backers(c, h, msg)| >= c.kOld
  {
    if h == [] {
      assert Backers(c, h, msg) == {};
    } else {
      var before, r := h[..|h| - 1], h[|h| - 1];
      assert h == before + [r];
      PassedIff(c, before, msg);
      PassedStep(c, before, r, msg);
      BackersMore(c, before, r, msg);
      OneMore(Backers(c, before, msg), r.sender, c.kOld);
    }
  }

  lemma BackersMore<P(!new)>(c: Setting<P>, h: seq<Receipt<P>>, r: Receipt<P>, msg: MapMsg<P>)
    ensures Backers(c, h + [r], msg) == Backers(c, h, msg) + (if Backing(c, h, r, msg) then {r.sender} else {})
  {
    forall x ensures Backs(c, h + [r], x, msg) <==> Backs(c, h, x, msg) || (Backing(c, h, r, msg) && x == r.sender) {
      BacksMore(c, h, r, x, msg);
    }
  }

  // ----- every run of the system

  /** The messages that reached node p. */
  ghost function Received<P>(mvs: seq<Move<P>>, p: Node): seq<Receipt<P>> {
    if mvs == [] then []
    else
      var mv := mvs[|mvs| - 1];
      var before := Received(mvs[..|mvs| - 1], p);
      if mv.Arrive? && mv.to == p then before + [Receipt(mv.sender, mv.msg)] else before
  }

  ghost predicate Told<P(!new)>(c: Setting<P>, y: Sys<P>, mvs: seq<Move<P>>) {
    && (forall p :: p in y.nodes ==> y.nodes[p] == NodeAfter(c, Received(mvs, p)))
    && forall p, tx :: (p, tx) in y.sent <==> p in y.nodes && Passed(c, Received(mvs, p), tx)
  }

  lemma ReceivedMore<P>(mvs: seq<Move<P>>, mv: Move<P>, p: Node)
    ensures Received(mvs + [mv], p) ==
            if mv.Arrive? && mv.to == p then Received(mvs, p) + [Receipt(mv.sender, mv.msg)] else Received(mvs, p)
  {
    assert (mvs + [mv])[..|mvs + [mv]| - 1] == mvs;
  }

  lemma MoveTells<P(!new)>(c: Setting<P>, y: Sys<P>, mvs: seq<Move<P>>, mv: Move<P>)
    requires SettingOk(c) && Enabled(c, y, mv) && Told(c, y, mvs)
    ensures Told(c, Next(c, y, mv), mvs + [mv])
  {
    var y' := Next(c, y, mv);
    forall p | p in y'.nodes ensures y'.nodes[p] == NodeAfter(c, Received(mvs + [mv], p)) {
      ReceivedMore(mvs, mv, p);
    }
    forall p, tx ensures (p, tx) in y'.sent <==> p in y'.nodes && Passed(c, Received(mvs + [mv], p), tx) {
      ReceivedMore(mvs, mv, p);
      if mv.Arrive? && mv.to == p {
        PassedMore(c, Received(mvs, p), Receipt(mv.sender, mv.msg), tx);
      }
    }
  }

  lemma {:induction false} RunTells<P(!new)>(c: Setting<P>, mvs: seq<Move<P>>, tr: seq<Sys<P>>, i: nat)
    requires SettingOk(c) && IsRun(c, mvs, tr) && i < |tr|
    ensures Told(c, tr[i], mvs[..i])
  {
    if i == 0 {
      assert forall p, tx :: !Passed(c, Received(mvs[..0], p), tx);
    } else {
      RunTells(c, mvs, tr, i - 1);
      assert mvs[..i] == mvs[..i - 1] + [mvs[i - 1]];
      MoveTells(c, tr[i - 1], mvs[..i - 1], mvs[i - 1]);
    }
  }

  /** In every run a good new node has put a summary or a key on its chain exactly if K old nodes back it there. */
  lemma RelayedIff<P(!new)>(c: Setting<P>, mvs: seq<Move<P>>, tr: seq<Sys<P>>, i: nat, p: Node, msg: MapMsg<P>)
    requires SettingOk(c) && IsRun(c, mvs, tr) && i < |tr| && p in tr[i].nodes
    ensures (p, TxOf(c, msg)) in tr[i].sent <==> |Backers(c, Received(mvs[..i], p), msg)| >= c.kOld
  {
    RunTells(c, mvs, tr, i);
    PassedIff(c, Received(mvs[..i], p), msg);
  }

  /** So the old chain's data gets through: what K good old nodes have sent to a good new node is passed on. */
  lemma GoodDataRelayed<P(!new)>(c: Setting<P>, mvs: seq<Move<P>>, tr: seq<Sys<P>>, i: nat, p: Node, msg: MapMsg<P>, good: set<Node>)
    requires SettingOk(c) && IsRun(c, mvs, tr) && i < |tr| && p in tr[i].nodes
    requires FromOldChain(c.w, msg) && good <= c.oldNodes - c.badOld && |good| >= c.kOld
    requires forall x :: x in good ==> Receipt(x, msg) in Received(mvs[..i], p)
    ensures (p, TxOf(c, msg)) in tr[i].sent
  {
    var h := Received(mvs[..i], p);
    forall x | x in good ensures x in Backers(c, h, msg) {
      GoodBacks(c, mvs, tr, i, p, msg, x);
    }
    SubsetSize(good, Backers(c, h, msg));
    RelayedIff(c, mvs, tr, i, p, msg);
  }

  lemma {:induction false} GoodSendsData<P(!new)>(c: Setting<P>, mvs: seq<Move<P>>, tr: seq<Sys<P>>, i: nat, p: Node, n: nat)
    requires SettingOk(c) && IsRun(c, mvs, tr) && i < |tr| && n < |Received(mvs[..i], p)|
    ensures var r := Received(mvs[..i], p)[n];
            r.sender in c.oldNodes && r.sender !in c.badOld ==> FromOldChain(c.w, r.msg)
  {
    if i > 0 {
      assert mvs[..i] == mvs[..i - 1] + [mvs[i - 1]];
      ReceivedMore(mvs[..i - 1], mvs[i - 1], p);
      if n < |Received(mvs[..i - 1], p)| {
        GoodSendsData(c, mvs, tr, i - 1, p, n);
      } else {
        assert Enabled(c, tr[i - 1], mvs[i - 1]);
      }
    }
  }

  /** The first summary of a good old node is the old chain's, as all its summaries. */
  lemma GoodBacks<P(!new)>(c: Setting<P>, mvs: seq<Move<P>>, tr: seq<Sys<P>>, i: nat, p: Node, msg: MapMsg<P>, x: Node)
    requires SettingOk(c) && IsRun(c, mvs, tr) && i < |tr| && FromOldChain(c.w, msg)
    requires x in c.oldNodes && x !in c.badOld && Receipt(x, msg) in Received(mvs[..i], p)
    ensures Backs(c, Received(mvs[..i], p), x, msg)
  {
    var h := Received(mvs[..i], p);
    if msg.SummaryMsg? {
      var n :| 0 <= n < |h| && h[n] == Receipt(x, msg);
      var j := EarliestSummary(c, h, n, x);
      GoodSendsData(c, mvs, tr, i, p, j);
    }
  }

  lemma {:induction false} EarliestSummary<P>(c: Setting<P>, h: seq<Receipt<P>>, n: nat, x: Node) returns (j: nat)
    requires n < |h| && h[n].sender == x && h[n].msg.SummaryMsg? && x in c.oldNodes
    ensures FirstSummary(c, h, j, x)
    decreases n
  {
    j := n;
    if SentSummary(h[..n], x) {
      var m :| 0 <= m < n && h[..n][m].sender == x && h[..n][m].msg.SummaryMsg?;
      j := EarliestSummary(c, h, m, x);
    }
  }

  // ----- the migration completes

  /** K good old nodes have told node p all the old chain's data. */
  ghost predicate ToldAll<P(!new)>(c: Setting<P>, h: seq<Receipt<P>>) {
    exists good :: good <= c.oldNodes - c.badOld && |good| >= c.kOld && ToldBy(c, h, good)
  }

  ghost predicate ToldBy<P(!new)>(c: Setting<P>, h: seq<Receipt<P>>, good: set<Node>) {
    forall x, msg :: x in good && FromOldChain(c.w, msg) ==> Receipt(x, msg) in h
  }

  /** What the nodes have passed on is on the chain. */
  ghost predicate AllSubmitted<P(!new)>(nodes: set<Node>, y: Sys<P>, mvs: seq<Move<P>>) {
    forall p, tx :: p in nodes && (p, tx) in y.sent ==> Submit(p, tx) in mvs
  }

  lemma EveryoneVotes<P(!new)>(c: Setting<P>, mvs: seq<Move<P>>, tr: seq<Sys<P>>, i: nat, nodes: set<Node>, msg: MapMsg<P>)
    requires SettingOk(c) && IsRun(c, mvs, tr) && i < |tr| && nodes <= tr[i].nodes.Keys && AllSubmitted(nodes, tr[i], mvs[..i])
    requires (forall p :: p in nodes ==> ToldAll(c, Received(mvs[..i], p))) && FromOldChain(c.w, msg)
    ensures nodes <= Voted(mvs[..i], TxOf(c, msg)) && |nodes| <= |Voted(mvs[..i], TxOf(c, msg))|
  {
    forall p | p in nodes ensures p in Voted(mvs[..i], TxOf(c, msg)) {
      var good :| good <= c.oldNodes - c.badOld && |good| >= c.kOld && ToldBy(c, Received(mvs[..i], p), good);
      GoodDataRelayed(c, mvs, tr, i, p, msg, good);
      assert Submit(p, TxOf(c, msg)) in mvs[..i];
    }
    SubsetSize(nodes, Voted(mvs[..i], TxOf(c, msg)));
  }

  /** In every run: once K good old nodes have told K new nodes all the old chain's data, and what these have passed on is on
      the chain, the mapping is thawed, unless the old chain had assigned nothing. */
  lemma MigrationCompletes<P(!new)>(c: Setting<P>, mvs: seq<Move<P>>, tr: seq<Sys<P>>, i: nat, nodes: set<Node>)
    requires SettingOk(c) && IsRun(c, mvs, tr) && i < |tr| && nodes <= tr[i].nodes.Keys && |nodes| >= c.w.env.k
    requires (forall p :: p in nodes ==> ToldAll(c, Received(mvs[..i], p))) && AllSubmitted(nodes, tr[i], mvs[..i])
    ensures c.w.mid in tr[i].chain.thawed <==> Last(c.w) > 0
  {
    ThawedIff(c, mvs, tr, i);
    EveryoneVotes(c, mvs, tr, i, nodes, SummaryMsg(Last(c.w)));
    forall j | 0 <= j < Last(c.w) ensures |Voted(mvs[..i], Key(c.w.mid, OldKey(c.w, j)))| >= c.w.env.k {
      OldKeyIndex(c.w, j);
      EveryoneVotes(c, mvs, tr, i, nodes, KeyMsg(OldKey(c.w, j)));
    }
  }
}
