/** The mapping nodes on both sides of a migration, and the whole system with the new chain. */
module Mapping {
  import opened Modular
  import opened Sets
  import opened Ledger
  import opened Freezing
  import opened Migration

  datatype MapMsg<P> = SummaryMsg(last: nat) | KeyMsg(key: KeyMapping<P>)

  /** The old epoch's nodes, as a new node knows them. */
  datatype Setting<!P(==)> = Setting(w: World<P>, oldNodes: set<Node>, kOld: nat, badOld: set<Node>)

  /** Fewer than K bad nodes on either side. Any reachable old chain is in agreement (`InitAgrees`). */
  ghost predicate SettingOk<P(!new)>(c: Setting<P>) {
    WorldOk(c.w) && |c.badOld| < c.kOld
  }

  // ----- old nodes

  /** All that an honest old node sends to a new node. */
  ghost predicate FromOldChain<P>(w: World<P>, msg: MapMsg<P>) {
    match msg
    case SummaryMsg(last) => last == Last(w)
    case KeyMsg(key) => IsOldKey(w, key)
  }

  /** `mapping_summary_frozen`: the summary, then every index below it, to every new node. */
  method SummaryFrozen<P(!new,==)>(w: World<P>, newNodes: set<Node>) returns (sent: set<(Node, MapMsg<P>)>)
    requires WorldOk(w)
    ensures sent == set p, msg | p in newNodes && msg in OldMsgs(w, Last(w)) :: (p, msg)
    ensures forall p, msg :: (p, msg) in sent <==> p in newNodes && FromOldChain(w, msg)
  {
    sent := set p | p in newNodes :: (p, SummaryMsg(Last(w)));
    assert OldMsgs(w, 0) == {SummaryMsg(Last(w))};
    for i := 0 to Last(w)
      invariant sent == set p, msg | p in newNodes && msg in OldMsgs(w, i) :: (p, msg)
    {
      var key := if i in w.from.km then w.from.km[i] else KeyMapping(i, w.env.g.zero, 1, map[]);
      sent := sent + set p | p in newNodes :: (p, KeyMsg(key));
      OldMsgsNext(w, i);
    }
    forall p, msg ensures (p, msg) in sent <==> p in newNodes && FromOldChain(w, msg) {
      OldMsgsAre(w, msg);
    }
  }

  ghost function OldMsgs<P>(w: World<P>, n: nat): set<MapMsg<P>> {
    {SummaryMsg(Last(w))} + set i | 0 <= i < n :: KeyMsg(OldKey(w, i))
  }

  lemma OldMsgsNext<P>(w: World<P>, n: nat)
    ensures OldMsgs(w, n + 1) == OldMsgs(w, n) + {KeyMsg(OldKey(w, n))}
  {
    forall msg | msg in OldMsgs(w, n + 1) ensures msg in OldMsgs(w, n) + {KeyMsg(OldKey(w, n))} {
      if msg != SummaryMsg(Last(w)) {
        var i :| 0 <= i < n + 1 && msg == KeyMsg(OldKey(w, i));
      }
    }
  }

  lemma OldMsgsAre<P(!new)>(w: World<P>, msg: MapMsg<P>)
    requires WorldOk(w)
    ensures msg in OldMsgs(w, Last(w)) <==> FromOldChain(w, msg)
  {
    if msg.KeyMsg? && msg in OldMsgs(w, Last(w)) {
      var i :| 0 <= i < Last(w) && msg == KeyMsg(OldKey(w, i));
      OldKeyIndex(w, i);
    }
  }

  // ----- new nodes

  /** Who sent what; the counters of the code count these sets. */
  datatype NodeState<P(==)> = NodeState(senders: set<Node>, summaryFrom: map<nat, set<Node>>,
                                        keyFrom: map<KeyMapping<P>, set<Node>>)

  datatype Reply<P(==)> = Reply(node: NodeState<P>, broadcast: Option<Tx<P>>)

  /** `mapping_summary` and `mapping_key`: broadcast when the K-th old node agrees. */
  function OnMsg<P>(c: Setting<P>, n: NodeState<P>, sender: Node, msg: MapMsg<P>): Reply<P> {
    match msg
    case SummaryMsg(last) =>
      if sender !in c.oldNodes || sender in n.senders then Reply(n, None)
      else
        var from := Voters(n.summaryFrom, last) + {sender};
        Reply(n.(senders := n.senders + {sender}, summaryFrom := n.summaryFrom[last := from]),
              if |from| == c.kOld then Some(Summary(c.w.mid, last)) else None)
    case KeyMsg(key) =>
      if sender !in c.oldNodes || sender in Voters(n.keyFrom, key) then Reply(n, None)
      else
        var from := Voters(n.keyFrom, key) + {sender};
        Reply(n.(keyFrom := n.keyFrom[key := from]),
              if |from| == c.kOld then Some(Key(c.w.mid, key)) else None)
  }

  class MappingNode<P(!new,==)> {
    const c: Setting<P>
    var summarySendCount: set<Node>
    var summaryCount: map<nat, nat>
    var keySendCount: map<KeyMapping<P>, set<Node>>
    ghost var model: NodeState<P>

    ghost predicate Valid()
      reads this
    {
      && summarySendCount == model.senders && keySendCount == model.keyFrom
      && summaryCount.Keys == model.summaryFrom.Keys
      && forall x :: x in summaryCount ==> summaryCount[x] == |model.summaryFrom[x]| && model.summaryFrom[x] <= model.senders
    }

    constructor (c: Setting<P>)
      ensures Valid() && this.c == c && model == NodeState({}, map[], map[])
    {
      this.c := c;
      summarySendCount, summaryCount, keySendCount := {}, map[], map[];
      model := NodeState({}, map[], map[]);
    }

    method ProcessSummary(sender: Node, last: nat) returns (broadcast: Option<Tx<P>>)
      requires Valid()
      modifies this
      ensures Valid() && Reply(model, broadcast) == OnMsg(c, old(model), sender, SummaryMsg(last))
    {
      if sender !in c.oldNodes || sender in summarySendCount {
        return None;
      }
      model := OnMsg(c, model, sender, SummaryMsg(last)).node;
      summarySendCount := summarySendCount + {sender};
      var count := (if last in summaryCount then summaryCount[last] else 0) + 1;
      summaryCount := summaryCount[last := count];
      broadcast := if count == c.kOld then Some(Summary(c.w.mid, last)) else None;
    }

    method ProcessKey(sender: Node, key: KeyMapping<P>) returns (broadcast: Option<Tx<P>>)
      requires Valid()
      modifies this
      ensures Valid() && Reply(model, broadcast) == OnMsg(c, old(model), sender, KeyMsg(key))
    {
      if sender !in c.oldNodes {
        return None;
      }
      var from := if key in keySendCount then keySendCount[key] else {};
      if sender in from {
        return None;
      }
      model := OnMsg(c, model, sender, KeyMsg(key)).node;
      keySendCount := keySendCount[key := from + {sender}];
      broadcast := if |keySendCount[key]| == c.kOld then Some(Key(c.w.mid, key)) else None;
    }
  }

  // ----- the system

  /** Good new nodes, what they have broadcast, and the new chain. */
  datatype Sys<P(==)> = Sys(nodes: map<Node, NodeState<P>>, sent: set<(Node, Tx<P>)>, chain: State<P>)

  datatype Move<P> = Arrive(to: Node, sender: Node, msg: MapMsg<P>) | Submit(sender: Node, tx: Tx<P>)

  ghost predicate Start<P>(y: Sys<P>) {
    y.sent == {} && y.chain == Init() && forall p :: p in y.nodes ==> y.nodes[p] == NodeState({}, map[], map[])
  }

  /** Good old nodes send the old chain's data; good new nodes put only their broadcasts on the chain.
      Bad nodes send anything. No dealer updates. */
  ghost predicate Enabled<P>(c: Setting<P>, y: Sys<P>, mv: Move<P>) {
    match mv
    case Arrive(to, sender, msg) => to in y.nodes && (sender in c.oldNodes && sender !in c.badOld ==> FromOldChain(c.w, msg))
    case Submit(sender, tx) =>
      !tx.UpdateKey? && ((tx.Summary? || tx.Key?) && sender !in c.w.bad ==> (sender, tx) in y.sent)
  }

  ghost function Next<P(!new)>(c: Setting<P>, y: Sys<P>, mv: Move<P>): Sys<P>
    requires SettingOk(c) && Enabled(c, y, mv)
  {
    match mv
    case Arrive(to, sender, msg) =>
      var r := OnMsg(c, y.nodes[to], sender, msg);
      y.(nodes := y.nodes[to := r.node],
         sent := if r.broadcast.Some? then y.sent + {(to, r.broadcast.value)} else y.sent)
    case Submit(sender, tx) => y.(chain := Step(c.w.env, y.chain, tx, sender).state)
  }

  ghost predicate IsRun<P(!new)>(c: Setting<P>, mvs: seq<Move<P>>, tr: seq<Sys<P>>)
    requires SettingOk(c)
  {
    && |tr| == |mvs| + 1 && Start(tr[0])
    && forall i :: 0 <= i < |mvs| ==> Enabled(c, tr[i], mvs[i]) && tr[i + 1] == Next(c, tr[i], mvs[i])
  }

  // ----- invariant

  ghost predicate NodeOk<P(!new)>(c: Setting<P>, n: NodeState<P>) {
    && (forall x, q :: q in Voters(n.summaryFrom, x) && q !in c.badOld ==> x == Last(c.w))
    && (forall m, q :: q in Voters(n.keyFrom, m) && q !in c.badOld ==> IsOldKey(c.w, m))
  }

  ghost predicate TxOk<P>(w: World<P>, tx: Tx<P>) {
    match tx
    case Summary(mid, last) => mid == w.mid && last == Last(w)
    case Key(mid, key) => mid == w.mid && IsOldKey(w, key)
    case _ => false
  }

  ghost predicate SysOk<P(!new)>(c: Setting<P>, y: Sys<P>) {
    && (forall p :: p in y.nodes ==> NodeOk(c, y.nodes[p]))
    && (forall b :: b in y.sent ==> TxOk(c.w, b.1))
    && Inv(c.w, y.chain)
  }

  /** A new node passes on only what a good old node sent. */
  lemma OnMsgOk<P(!new)>(c: Setting<P>, n: NodeState<P>, sender: Node, msg: MapMsg<P>)
    requires SettingOk(c) && NodeOk(c, n)
    requires sender in c.oldNodes && sender !in c.badOld ==> FromOldChain(c.w, msg)
    ensures var r := OnMsg(c, n, sender, msg);
            NodeOk(c, r.node) && (r.broadcast.Some? ==> TxOk(c.w, r.broadcast.value))
  {
    var r := OnMsg(c, n, sender, msg);
    forall x: nat, q | q in Voters(r.node.summaryFrom, x) && q !in c.badOld ensures x == Last(c.w) {
      assert q in Voters(n.summaryFrom, x) || (msg == SummaryMsg(x) && q == sender);
    }
    forall m, q | q in Voters(r.node.keyFrom, m) && q !in c.badOld ensures IsOldKey(c.w, m) {
      assert q in Voters(n.keyFrom, m) || (msg == KeyMsg(m) && q == sender);
    }
    if r.broadcast.Some? {
      var from := if msg.SummaryMsg? then Voters(r.node.summaryFrom, msg.last) else Voters(r.node.keyFrom, msg.key);
      assert |from| == c.kOld;
      var q := Outside(from, c.badOld);
      assert q in from;
    }
  }

  lemma SubmitHonest<P(!new)>(c: Setting<P>, y: Sys<P>, sender: Node, tx: Tx<P>)
    requires SettingOk(c) && SysOk(c, y) && Enabled(c, y, Submit(sender, tx))
    ensures Honest(c.w, Judge(c.w.env, y.chain, tx, sender))
  {
    if (tx.Summary? || tx.Key?) && sender !in c.w.bad {
      assert TxOk(c.w, (sender, tx).1);
    }
  }

  lemma NextOk<P(!new)>(c: Setting<P>, y: Sys<P>, mv: Move<P>)
    requires SettingOk(c) && SysOk(c, y) && Enabled(c, y, mv)
    ensures SysOk(c, Next(c, y, mv))
  {
    match mv {
      case Arrive(to, sender, msg) => OnMsgOk(c, y.nodes[to], sender, msg);
      case Submit(sender, tx) =>
        SubmitHonest(c, y, sender, tx);
        StepSound(c.w, y.chain, tx, sender);
    }
  }

  lemma InitSound<P(!new)>(w: World<P>)
    requires WorldOk(w)
    ensures Inv(w, Init())
  {
    assert Confirmed(w, Init<P>()) == {};
  }

  lemma {:induction false} RunOk<P(!new)>(c: Setting<P>, mvs: seq<Move<P>>, tr: seq<Sys<P>>, i: nat)
    requires SettingOk(c) && IsRun(c, mvs, tr) && i < |tr|
    ensures SysOk(c, tr[i])
  {
    if i == 0 {
      InitSound(c.w);
    } else {
      RunOk(c, mvs, tr, i - 1);
      NextOk(c, tr[i - 1], mvs[i - 1]);
    }
  }

  /** In every run, in whatever order keys and summary arrive: a thawed mapping is the announced one, and
      below the frozen index the new chain holds exactly what the old chain held. */
  lemma ThawedIsExact<P(!new)>(c: Setting<P>, mvs: seq<Move<P>>, tr: seq<Sys<P>>, i: nat, mid: string)
    requires SettingOk(c) && IsRun(c, mvs, tr) && i < |tr| && mid in tr[i].chain.thawed
    ensures mid == c.w.mid
    ensures forall j :: 0 <= j < Last(c.w) ==> j in tr[i].chain.km && tr[i].chain.km[j] == OldKey(c.w, j)
  {
    RunOk(c, mvs, tr, i);
    assert OtherOk(c.w, tr[i].chain, mid);
    forall j | 0 <= j < Last(c.w) ensures j in tr[i].chain.km && tr[i].chain.km[j] == OldKey(c.w, j) {
      assert Kept(c.w, tr[i].chain, j);
    }
  }

  /** The same from a run of the old chain: frozen after `before`, undisturbed since. Old nodes may read their chain at any
      later moment: what they may send is fixed, and it is what the new chain ends with. */
  lemma MigratedFromRun<P(!new)>(c: Setting<P>, oldEnv: Env<P>, before: seq<Event<P>>, since: seq<Event<P>>,
                                 mvs: seq<Move<P>>, tr: seq<Sys<P>>, i: nat)
    requires EnvOk(oldEnv) && c.w.from == Run(oldEnv, Init(), before)
    requires Frozen(oldEnv, c.w.from) && Undisturbed(oldEnv, c.w.from, since)
    requires SettingOk(c) && IsRun(c, mvs, tr) && i < |tr| && c.w.mid in tr[i].chain.thawed
    ensures var now := Run(oldEnv, c.w.from, since);
            && (forall msg :: FromOldChain(c.w, msg) <==> FromOldChain(c.w.(from := now), msg))
            && forall j :: 0 <= j < now.lastUnassigned ==>
                 && j in tr[i].chain.km
                 && (j in now.km ==> tr[i].chain.km[j] == now.km[j])
  {
    FrozenMappingFixed(oldEnv, c.w.from, since);
    ThawedIsExact(c, mvs, tr, i, c.w.mid);
  }
}
