/** When a migrated mapping thaws: exactly when the summary and every key below it have been voted for by K new nodes,
    and never if there is no key below it. */
module Thawing {
  import opened Sets
  import opened Ledger
  import opened Migration
  import opened Mapping

  // ----- one step of the chain

  /** The summary and as many keys as it announces have K votes. */
  ghost predicate Full<P>(w: World<P>, s: State<P>) {
    Last(w) > 0 && SummaryDone(w, s) && |Confirmed(w, s)| == Last(w)
  }

  /** The vote of an effect, before anything is confirmed by it. */
  function VoteAdded<P>(s: State<P>, f: Effect<P>): State<P> {
    match f
    case SummaryVoted(mid, last, sender, _) => AddSummaryVote(s, mid, last, sender)
    case KeyVoted(mid, m, sender, _) => AddKeyVote(s, mid, m, sender)
    case _ => s
  }

  ghost predicate SameVotes<P>(w: World<P>, s: State<P>, s': State<P>) {
    KeyVotes(s', w.mid) == KeyVotes(s, w.mid) && SummaryVotes(s', w.mid) == SummaryVotes(s, w.mid)
  }

  /** What the counters say is what the votes say. */
  lemma ThawIsFull<P(!new)>(w: World<P>, s: State<P>)
    requires Sound(w, s) && w.mid !in s.thawed
    ensures w.mid in Thaw(s, w.mid).thawed <==> Full(w, s)
    ensures w.mid !in Thaw(s, w.mid).thawed ==> Thaw(s, w.mid) == s
  {
  }

  lemma FullSame<P(!new)>(w: World<P>, s: State<P>, s': State<P>)
    requires SameVotes(w, s, s')
    ensures Full(w, s) <==> Full(w, s')
  {
    assert Confirmed(w, s) == Confirmed(w, s');
  }

  lemma KeyThaws<P(!new)>(w: World<P>, s: State<P>, f: Effect<P>)
    requires WorldOk(w) && Inv(w, s) && w.mid !in s.thawed && f.KeyVoted? && Legal(w.env, s, f) && Honest(w, f)
    ensures VotesOk(w, VoteAdded(s, f)) && (w.mid in Apply(s, f).thawed <==> Full(w, VoteAdded(s, f)))
    ensures w.mid !in Apply(s, f).thawed ==> SameVotes(w, VoteAdded(s, f), Apply(s, f))
  {
    var s1 := AddKeyVote(s, f.mid, f.m, f.sender);
    KeyVoteSound(w, s, f);
    if f.confirmed {
      KeyConfirmedThaws(w, s, s1, f.m);
    } else {
      assert SummaryVotes(s1, w.mid) == SummaryVotes(s, w.mid);
    }
  }

  lemma KeyConfirmedThaws<P(!new)>(w: World<P>, s: State<P>, s1: State<P>, m: KeyMapping<P>)
    requires WorldOk(w) && Inv(w, s) && VotesOk(w, s1) && w.mid !in s.thawed && IsOldKey(w, m) && m !in Confirmed(w, s)
    requires s1.counters == s.counters && s1.thawed == s.thawed && s1.km == s.km && s1.summaries == s.summaries
    requires s1.lastUnassigned == s.lastUnassigned && Confirmed(w, s1) == Confirmed(w, s) + {m}
    ensures var s' := Thaw(ConfirmKey(s1, w.mid, m), w.mid);
            (w.mid in s'.thawed <==> Full(w, s1)) && (w.mid !in s'.thawed ==> SameVotes(w, s1, s'))
  {
    var s2 := ConfirmKey(s1, w.mid, m);
    ConfirmKeySound(w, s, s1, s2, m);
    FullSame(w, s1, s2);
    ThawIsFull(w, s2);
  }

  lemma SummaryThaws<P(!new)>(w: World<P>, s: State<P>, f: Effect<P>)
    requires WorldOk(w) && Inv(w, s) && w.mid !in s.thawed && f.SummaryVoted? && Legal(w.env, s, f) && Honest(w, f)
    ensures VotesOk(w, VoteAdded(s, f)) && (w.mid in Apply(s, f).thawed <==> Full(w, VoteAdded(s, f)))
    ensures w.mid !in Apply(s, f).thawed ==> SameVotes(w, VoteAdded(s, f), Apply(s, f))
  {
    var s1 := AddSummaryVote(s, f.mid, f.last, f.sender);
    SummaryVoteSound(w, s, f);
    assert Confirmed(w, s1) == Confirmed(w, s);
    if f.confirmed {
      var s2 := ConfirmSummary(s1, w.mid, f.last);
      ConfirmSummarySound(w, s, s1, s2);
      FullSame(w, s1, s2);
      ThawIsFull(w, s2);
    }
  }

  lemma OtherThaws<P(!new)>(w: World<P>, s: State<P>, f: Effect<P>)
    requires Inv(w, s) && w.mid !in s.thawed && !f.KeyVoted? && !f.SummaryVoted?
    ensures VotesOk(w, VoteAdded(s, f)) && (w.mid in Apply(s, f).thawed <==> Full(w, VoteAdded(s, f)))
    ensures SameVotes(w, VoteAdded(s, f), Apply(s, f))
  {
    VotesUntouched(s, f);
    assert !Due(w, s);
  }

  lemma VotesUntouched<P>(s: State<P>, f: Effect<P>)
    requires !f.KeyVoted? && !f.SummaryVoted?
    ensures var s' := Apply(s, f);
            VoteAdded(s, f) == s && s'.keyVotes == s.keyVotes && s'.summaries == s.summaries && s'.thawed == s.thawed
  {
  }

  lemma StepThaws<P(!new)>(w: World<P>, s: State<P>, f: Effect<P>)
    requires WorldOk(w) && Inv(w, s) && w.mid !in s.thawed && Legal(w.env, s, f) && Honest(w, f)
    ensures VotesOk(w, VoteAdded(s, f)) && (w.mid in Apply(s, f).thawed <==> Full(w, VoteAdded(s, f)))
    ensures w.mid !in Apply(s, f).thawed ==> SameVotes(w, VoteAdded(s, f), Apply(s, f))
  {
    match f {
      case SummaryVoted(_, _, _, _) => SummaryThaws(w, s, f);
      case KeyVoted(_, _, _, _) => KeyThaws(w, s, f);
      case _ => OtherThaws(w, s, f);
    }
  }

  lemma ThawStays<P>(s: State<P>, f: Effect<P>, mid: string)
    requires mid in s.thawed
    ensures mid in Apply(s, f).thawed
  {
    match f {
      case SummaryVoted(m, last, sender, _) => ThawKeeps(ConfirmSummary(AddSummaryVote(s, m, last, sender), m, last), m, mid);
      case KeyVoted(m, key, sender, _) => ThawKeeps(ConfirmKey(AddKeyVote(s, m, key, sender), m, key), m, mid);
      case _ =>
    }
  }

  lemma ThawKeeps<P>(s: State<P>, m: string, mid: string)
    requires mid in s.thawed
    ensures mid in Thaw(s, m).thawed
  {
  }

  // ----- the votes of a run

  /** The nodes that have put tx on the chain. */
  ghost function Voted<P>(mvs: seq<Move<P>>, tx: Tx<P>): set<Node> {
    set j | 0 <= j < |mvs| && mvs[j].Submit? && mvs[j].tx == tx :: mvs[j].sender
  }

  lemma VotedMore<P>(mvs: seq<Move<P>>, mv: Move<P>, tx: Tx<P>)
    ensures Voted(mvs + [mv], tx) == Voted(mvs, tx) + if mv.Submit? && mv.tx == tx then {mv.sender} else {}
  {
    var more := mvs + [mv];
    forall p | p in Voted(mvs, tx) ensures p in Voted(more, tx) {
      var j :| 0 <= j < |mvs| && mvs[j].Submit? && mvs[j].tx == tx && mvs[j].sender == p;
      assert more[j] == mvs[j];
    }
    assert more[|mvs|] == mv;
  }

  /** K new nodes have voted for the announced summary and for every key below it, and there is one. */
  ghost predicate AllVoted<P>(w: World<P>, mvs: seq<Move<P>>) {
    && Last(w) > 0 && |Voted(mvs, Summary(w.mid, Last(w)))| >= w.env.k
    && forall j :: 0 <= j < Last(w) ==> |Voted(mvs, Key(w.mid, OldKey(w, j)))| >= w.env.k
  }

  lemma AllVotedMore<P>(w: World<P>, mvs: seq<Move<P>>, mv: Move<P>)
    requires AllVoted(w, mvs)
    ensures AllVoted(w, mvs + [mv])
  {
    VotedMore(mvs, mv, Summary(w.mid, Last(w)));
    SubsetSize(Voted(mvs, Summary(w.mid, Last(w))), Voted(mvs + [mv], Summary(w.mid, Last(w))));
    forall j | 0 <= j < Last(w) ensures |Voted(mvs + [mv], Key(w.mid, OldKey(w, j)))| >= w.env.k {
      VotedMore(mvs, mv, Key(w.mid, OldKey(w, j)));
      SubsetSize(Voted(mvs, Key(w.mid, OldKey(w, j))), Voted(mvs + [mv], Key(w.mid, OldKey(w, j))));
    }
  }

  /** Before the thaw the chain has recorded exactly these votes. */
  ghost predicate KeyTallied<P>(w: World<P>, s: State<P>, mvs: seq<Move<P>>, m: KeyMapping<P>) {
    Voters(KeyVotes(s, w.mid), m) == Voted(mvs, Key(w.mid, m))
  }

  ghost predicate SummaryTallied<P>(w: World<P>, s: State<P>, mvs: seq<Move<P>>, x: nat) {
    Voters(SummaryVotes(s, w.mid), x) == Voted(mvs, Summary(w.mid, x))
  }

  ghost predicate Tallied<P(!new)>(w: World<P>, s: State<P>, mvs: seq<Move<P>>) {
    && (forall m {:trigger KeyTallied(w, s, mvs, m)} :: KeyTallied(w, s, mvs, m))
    && (forall x {:trigger SummaryTallied(w, s, mvs, x)} :: SummaryTallied(w, s, mvs, x))
  }

  lemma TalliedSame<P(!new)>(w: World<P>, s: State<P>, s': State<P>, mvs: seq<Move<P>>)
    requires Tallied(w, s, mvs) && SameVotes(w, s, s')
    ensures Tallied(w, s', mvs)
  {
    forall m ensures KeyTallied(w, s', mvs, m) { assert KeyTallied(w, s, mvs, m); }
    forall x ensures SummaryTallied(w, s', mvs, x) { assert SummaryTallied(w, s, mvs, x); }
  }

  lemma OnlyVotesVote<P(!new)>(env: Env<P>, s: State<P>, tx: Tx<P>, sender: Node)
    requires EnvOk(env) && !tx.Key? && !tx.Summary?
    ensures VoteAdded(s, Judge(env, s, tx, sender)) == s
  {
  }

  lemma AddedKey<P>(s: State<P>, mid: string, key: KeyMapping<P>, sender: Node, id: string, m: KeyMapping<P>)
    ensures Voters(KeyVotes(AddKeyVote(s, mid, key, sender), id), m)
            == Voters(KeyVotes(s, id), m) + if id == mid && m == key then {sender} else {}
  {
  }

  lemma AddedSummary<P>(s: State<P>, mid: string, last: nat, sender: Node, id: string, x: nat)
    ensures Voters(SummaryVotes(AddSummaryVote(s, mid, last, sender), id), x)
            == Voters(SummaryVotes(s, id), x) + if id == mid && x == last then {sender} else {}
  {
  }

  lemma KeyVoteAdds<P(!new)>(w: World<P>, s: State<P>, f: Effect<P>, tx: Tx<P>, sender: Node, m: KeyMapping<P>)
    requires w.mid !in s.thawed && tx.Key? && f == JudgeVote(w.env, s, tx, sender)
    ensures var s1 := VoteAdded(s, f);
            && s1.summaries == s.summaries
            && Voters(KeyVotes(s1, w.mid), m) == Voters(KeyVotes(s, w.mid), m) + if tx == Key(w.mid, m) then {sender} else {}
  {
    if f.KeyVoted? {
      AddedKey(s, tx.mid, tx.key, sender, w.mid, m);
    }
  }

  lemma SummaryVoteAdds<P(!new)>(w: World<P>, s: State<P>, f: Effect<P>, tx: Tx<P>, sender: Node, x: nat)
    requires w.mid !in s.thawed && tx.Summary? && f == JudgeVote(w.env, s, tx, sender)
    ensures var s1 := VoteAdded(s, f);
            && s1.keyVotes == s.keyVotes
            && Voters(SummaryVotes(s1, w.mid), x) == Voters(SummaryVotes(s, w.mid), x) + if tx == Summary(w.mid, x) then {sender} else {}
  {
    if f.SummaryVoted? {
      AddedSummary(s, tx.mid, tx.last, sender, w.mid, x);
    }
  }

  lemma VoteTallied<P(!new)>(w: World<P>, s: State<P>, mvs: seq<Move<P>>, tx: Tx<P>, sender: Node)
    requires EnvOk(w.env) && w.mid !in s.thawed && Tallied(w, s, mvs)
    ensures Tallied(w, VoteAdded(s, Judge(w.env, s, tx, sender)), mvs + [Submit(sender, tx)])
  {
    var s1, mv := VoteAdded(s, Judge(w.env, s, tx, sender)), Submit(sender, tx);
    forall m ensures KeyTallied(w, s1, mvs + [mv], m) {
      assert KeyTallied(w, s, mvs, m);
      VotedMore(mvs, mv, Key(w.mid, m));
      KeyVotesAfter(w, s, tx, sender, m);
    }
    forall x ensures SummaryTallied(w, s1, mvs + [mv], x) {
      assert SummaryTallied(w, s, mvs, x);
      VotedMore(mvs, mv, Summary(w.mid, x));
      SummaryVotesAfter(w, s, tx, sender, x);
    }
  }

  lemma KeyVotesAfter<P(!new)>(w: World<P>, s: State<P>, tx: Tx<P>, sender: Node, m: KeyMapping<P>)
    requires EnvOk(w.env) && w.mid !in s.thawed
    ensures var s1 := VoteAdded(s, Judge(w.env, s, tx, sender));
            Voters(KeyVotes(s1, w.mid), m) == Voters(KeyVotes(s, w.mid), m) + if tx == Key(w.mid, m) then {sender} else {}
  {
    if tx.Key? {
      KeyVoteAdds(w, s, Judge(w.env, s, tx, sender), tx, sender, m);
    } else if tx.Summary? {
      SummaryVoteAdds(w, s, Judge(w.env, s, tx, sender), tx, sender, 0);
    } else {
      OnlyVotesVote(w.env, s, tx, sender);
    }
  }

  lemma SummaryVotesAfter<P(!new)>(w: World<P>, s: State<P>, tx: Tx<P>, sender: Node, x: nat)
    requires EnvOk(w.env) && w.mid !in s.thawed
    ensures var s1 := VoteAdded(s, Judge(w.env, s, tx, sender));
            Voters(SummaryVotes(s1, w.mid), x) == Voters(SummaryVotes(s, w.mid), x) + if tx == Summary(w.mid, x) then {sender} else {}
  {
    if tx.Key? {
      KeyVoteAdds(w, s, Judge(w.env, s, tx, sender), tx, sender, tx.key);
    } else if tx.Summary? {
      SummaryVoteAdds(w, s, Judge(w.env, s, tx, sender), tx, sender, x);
    } else {
      OnlyVotesVote(w.env, s, tx, sender);
    }
  }

  lemma TalliedFull<P(!new)>(w: World<P>, s: State<P>, mvs: seq<Move<P>>)
    requires WorldOk(w) && VotesOk(w, s) && Tallied(w, s, mvs)
    ensures Full(w, s) <==> AllVoted(w, mvs)
  {
    assert SummaryTallied(w, s, mvs, Last(w));
    forall j | 0 <= j < Last(w)
      ensures |Voted(mvs, Key(w.mid, OldKey(w, j)))| >= w.env.k <==> OldKey(w, j) in Confirmed(w, s)
    {
      assert KeyTallied(w, s, mvs, OldKey(w, j));
    }
    if Full(w, s) {
      AllConfirmed(w, s);
    }
    if AllVoted(w, mvs) {
      ConfirmedAll(w, s);
    }
  }

  lemma ConfirmedAll<P(!new)>(w: World<P>, s: State<P>)
    requires WorldOk(w) && VotesOk(w, s) && forall j :: 0 <= j < Last(w) ==> OldKey(w, j) in Confirmed(w, s)
    ensures |Confirmed(w, s)| == Last(w)
  {
    forall m | m in Confirmed(w, s) ensures IsOldKey(w, m) {
      ConfirmedIsOld(w, s, w.mid, m);
    }
    assert Confirmed(w, s) == set j | 0 <= j < Last(w) :: OldKey(w, j);
    OldKeysExactSize(w, Last(w));
  }

  lemma {:induction false} OldKeysExactSize<P(!new)>(w: World<P>, n: nat)
    requires WorldOk(w)
    ensures |set i | 0 <= i < n :: OldKey(w, i)| == n
  {
    if n > 0 {
      var less := set i | 0 <= i < n - 1 :: OldKey(w, i);
      OldKeysExactSize(w, n - 1);
      OldKeyIndex(w, n - 1);
      forall m | m in less ensures m.index < n - 1 {
        var i :| 0 <= i < n - 1 && m == OldKey(w, i);
        OldKeyIndex(w, i);
      }
      assert OldKey(w, n - 1) !in less;
      assert (set i | 0 <= i < n :: OldKey(w, i)) == less + {OldKey(w, n - 1)};
    }
  }

  lemma SubmitThaws<P(!new)>(c: Setting<P>, y: Sys<P>, mvs: seq<Move<P>>, sender: Node, tx: Tx<P>)
    requires SettingOk(c) && SysOk(c, y) && Enabled(c, y, Submit(sender, tx))
    requires c.w.mid !in y.chain.thawed && Tallied(c.w, y.chain, mvs)
    ensures var s' := Step(c.w.env, y.chain, tx, sender).state;
            && (c.w.mid in s'.thawed <==> AllVoted(c.w, mvs + [Submit(sender, tx)]))
            && (c.w.mid !in s'.thawed ==> Tallied(c.w, s', mvs + [Submit(sender, tx)]))
  {
    var w, s, f := c.w, y.chain, Judge(c.w.env, y.chain, tx, sender);
    SubmitHonest(c, y, sender, tx);
    JudgeLegal(w.env, s, tx, sender);
    StepThaws(w, s, f);
    VoteTallied(w, s, mvs, tx, sender);
    TalliedFull(w, VoteAdded(s, f), mvs + [Submit(sender, tx)]);
    if w.mid !in Apply(s, f).thawed {
      TalliedSame(w, VoteAdded(s, f), Apply(s, f), mvs + [Submit(sender, tx)]);
    }
  }

  lemma NoVotesYet<P(!new)>(w: World<P>)
    requires WorldOk(w)
    ensures Tallied(w, Init(), []) && !AllVoted(w, [])
  {
    forall tx ensures Voted<P>([], tx) == {} {
    }
  }

  /** What has been submitted decides, and until the thaw the chain's tallies are those of what has been submitted. */
  ghost predicate InStep<P(!new)>(w: World<P>, s: State<P>, mvs: seq<Move<P>>)
    requires WorldOk(w)
  {
    (w.mid in s.thawed <==> AllVoted(w, mvs)) && (w.mid !in s.thawed ==> Tallied(w, s, mvs))
  }

  lemma MoveKeepsStep<P(!new)>(c: Setting<P>, y: Sys<P>, before: seq<Move<P>>, mv: Move<P>)
    requires SettingOk(c) && SysOk(c, y) && Enabled(c, y, mv) && InStep(c.w, y.chain, before)
    ensures InStep(c.w, Next(c, y, mv).chain, before + [mv])
  {
    if c.w.mid in y.chain.thawed {
      AllVotedMore(c.w, before, mv);
      if mv.Submit? {
        ThawStays(y.chain, Judge(c.w.env, y.chain, mv.tx, mv.sender), c.w.mid);
      }
    } else if mv.Submit? {
      SubmitThaws(c, y, before, mv.sender, mv.tx);
    } else {
      ArrivalTallied(c.w, y.chain, before, mv);
      TalliedFull(c.w, y.chain, before);
      TalliedFull(c.w, y.chain, before + [mv]);
    }
  }

  /** Move number j of a run, whose states are sound. */
  ghost predicate MovesAt<P(!new)>(c: Setting<P>, mvs: seq<Move<P>>, tr: seq<Sys<P>>, j: int)
    requires SettingOk(c) && |tr| == |mvs| + 1
  {
    0 <= j < |mvs| ==> SysOk(c, tr[j]) && Enabled(c, tr[j], mvs[j]) && tr[j + 1] == Next(c, tr[j], mvs[j])
  }

  lemma {:induction false} RunInStep<P(!new)>(c: Setting<P>, mvs: seq<Move<P>>, tr: seq<Sys<P>>, i: nat)
    requires SettingOk(c) && i < |tr| == |mvs| + 1 && InStep(c.w, tr[0].chain, [])
    requires forall j {:trigger MovesAt(c, mvs, tr, j)} :: MovesAt(c, mvs, tr, j)
    ensures InStep(c.w, tr[i].chain, mvs[..i])
  {
    if i > 0 {
      RunInStep(c, mvs, tr, i - 1);
      assert MovesAt(c, mvs, tr, i - 1);
      NextInStep(c, mvs, tr, i - 1, mvs[..i - 1], mvs[..i]);
    }
  }

  lemma NextInStep<P(!new)>(c: Setting<P>, mvs: seq<Move<P>>, tr: seq<Sys<P>>, i: nat, before: seq<Move<P>>, after: seq<Move<P>>)
    requires SettingOk(c) && |tr| == |mvs| + 1 && i < |mvs| && MovesAt(c, mvs, tr, i)
    requires before == mvs[..i] && after == mvs[..i + 1] && InStep(c.w, tr[i].chain, before)
    ensures InStep(c.w, tr[i + 1].chain, after)
  {
    assert after == before + [mvs[i]];
    MoveKeepsStep(c, tr[i], before, mvs[i]);
  }

  lemma RunMoves<P(!new)>(c: Setting<P>, mvs: seq<Move<P>>, tr: seq<Sys<P>>, j: int)
    requires SettingOk(c) && IsRun(c, mvs, tr)
    ensures MovesAt(c, mvs, tr, j)
  {
    if 0 <= j < |mvs| {
      RunOk(c, mvs, tr, j);
    }
  }

  /** In every run, whichever vote came last: the mapping is thawed exactly once K new nodes have voted for the announced
      summary and for every key below it, and there is a key below it. An empty mapping never thaws. */
  lemma ThawedIff<P(!new)>(c: Setting<P>, mvs: seq<Move<P>>, tr: seq<Sys<P>>, i: nat)
    requires SettingOk(c) && IsRun(c, mvs, tr) && i < |tr|
    ensures c.w.mid in tr[i].chain.thawed <==> AllVoted(c.w, mvs[..i])
    ensures c.w.mid !in tr[i].chain.thawed ==> Tallied(c.w, tr[i].chain, mvs[..i])
  {
    NoVotesYet(c.w);
    forall j ensures MovesAt(c, mvs, tr, j) {
      RunMoves(c, mvs, tr, j);
    }
    RunInStep(c, mvs, tr, i);
  }

  lemma ArrivalTallied<P(!new)>(w: World<P>, s: State<P>, mvs: seq<Move<P>>, mv: Move<P>)
    requires Tallied(w, s, mvs) && mv.Arrive?
    ensures Tallied(w, s, mvs + [mv])
  {
    forall m ensures KeyTallied(w, s, mvs + [mv], m) {
      assert KeyTallied(w, s, mvs, m);
      VotedMore(mvs, mv, Key(w.mid, m));
    }
    forall x ensures SummaryTallied(w, s, mvs + [mv], x) {
      assert SummaryTallied(w, s, mvs, x);
      VotedMore(mvs, mv, Summary(w.mid, x));
    }
  }
}
