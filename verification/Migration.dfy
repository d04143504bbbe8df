/** Key mappings move to the chain of the next epoch: what the chain can be made to store. */
module Migration {
  import opened Sets
  import opened Ledger
  import opened KeyIndexes

  /** env is the new epoch's chain; `from` is the old chain at its freeze; bad are the new nodes that may
      say anything. */
  datatype World<!P(==)> = World(env: Env<P>, from: State<P>, mid: string, bad: set<Node>)

  ghost predicate WorldOk<P(!new)>(w: World<P>) {
    EnvOk(w.env) && w.env.waits && |w.bad| < w.env.k && Agree(w.from)
  }

  function Last<P>(w: World<P>): nat { w.from.lastUnassigned }

  /** What an old node sends for index i; an index without a mapping becomes an empty one. */
  function OldKey<P>(w: World<P>, i: int): KeyMapping<P> {
    if i in w.from.km then w.from.km[i] else KeyMapping(i, w.env.g.zero, 1, map[])
  }

  ghost predicate IsOldKey<P>(w: World<P>, m: KeyMapping<P>) {
    0 <= m.index < Last(w) && m == OldKey(w, m.index)
  }

  // ----- the chain invariant

  ghost predicate SummaryVoteOk<P>(w: World<P>, s: State<P>, mid: string, x: nat, p: Node) {
    p in Voters(SummaryVotes(s, mid), x) && p !in w.bad ==> mid == w.mid && x == Last(w)
  }

  ghost predicate KeyVoteOk<P>(w: World<P>, s: State<P>, mid: string, m: KeyMapping<P>, p: Node) {
    p in Voters(KeyVotes(s, mid), m) && p !in w.bad ==> mid == w.mid && IsOldKey(w, m)
  }

  /** Good nodes vote for the old chain's data only. */
  ghost predicate VotesOk<P(!new)>(w: World<P>, s: State<P>) {
    && (forall mid, x, p {:trigger SummaryVoteOk(w, s, mid, x, p)} :: SummaryVoteOk(w, s, mid, x, p))
    && (forall mid, m, p {:trigger KeyVoteOk(w, s, mid, m, p)} :: KeyVoteOk(w, s, mid, m, p))
  }

  ghost predicate SummaryDone<P>(w: World<P>, s: State<P>) {
    |Voters(SummaryVotes(s, w.mid), Last(w))| >= w.env.k
  }

  ghost function Confirmed<P>(w: World<P>, s: State<P>): set<KeyMapping<P>> {
    Leading(w.env.k, KeyVotes(s, w.mid))
  }

  ghost function Leading<K>(k: nat, votes: map<K, set<Node>>): set<K> {
    set x | x in votes && |votes[x]| >= k
  }

  lemma LeadingGrows<K>(k: nat, votes: map<K, set<Node>>, x: K, sender: Node)
    requires k >= 1 && sender !in Voters(votes, x)
    ensures var reached := |Voters(votes, x)| + 1 == k;
            && Leading(k, votes[x := Voters(votes, x) + {sender}])
               == (if reached then Leading(k, votes) + {x} else Leading(k, votes))
            && (reached ==> x !in Leading(k, votes))
  {
    assert |Voters(votes, x) + {sender}| == |Voters(votes, x)| + 1;
  }

  /** The counters count the confirmed keys and know the summary. */
  ghost predicate CountersOk<P>(w: World<P>, s: State<P>) {
    w.mid !in s.thawed ==>
      CounterOf(s, w.mid) == Counter(if SummaryDone(w, s) then Last(w) else 0, |Confirmed(w, s)|)
  }

  ghost predicate OtherOk<P>(w: World<P>, s: State<P>, mid: string) {
    mid != w.mid ==> mid !in s.thawed && CounterOf(s, mid) == Counter(0, 0)
  }

  ghost predicate Kept<P>(w: World<P>, s: State<P>, i: int) {
    i in s.km && s.km[i] == OldKey(w, i)
  }

  ghost predicate StoresOk<P>(w: World<P>, s: State<P>) {
    && (forall m :: m in Confirmed(w, s) ==> Kept(w, s, m.index))
    && (w.mid in s.thawed ==> SummaryDone(w, s) && forall i :: 0 <= i < Last(w) ==> Kept(w, s, i))
    && (SummaryDone(w, s) ==> Last(w) <= s.lastUnassigned)
  }

  /** Everything but the thaw itself. */
  ghost predicate Sound<P(!new)>(w: World<P>, s: State<P>) {
    VotesOk(w, s) && CountersOk(w, s) && StoresOk(w, s) && forall mid {:trigger OtherOk(w, s, mid)} :: OtherOk(w, s, mid)
  }

  ghost predicate Due<P>(w: World<P>, s: State<P>) {
    w.mid !in s.thawed && SummaryDone(w, s) && Last(w) != 0 && |Confirmed(w, s)| == Last(w)
  }

  ghost predicate Inv<P(!new)>(w: World<P>, s: State<P>) {
    Sound(w, s) && !Due(w, s)
  }

  // ----- quorums

  lemma ConfirmedIsOld<P(!new)>(w: World<P>, s: State<P>, mid: string, m: KeyMapping<P>)
    requires WorldOk(w) && VotesOk(w, s) && |Voters(KeyVotes(s, mid), m)| >= w.env.k
    ensures mid == w.mid && IsOldKey(w, m)
  {
    var p := Outside(Voters(KeyVotes(s, mid), m), w.bad);
    assert KeyVoteOk(w, s, mid, m, p);
  }

  lemma SummaryIsOld<P(!new)>(w: World<P>, s: State<P>, mid: string, x: nat)
    requires WorldOk(w) && VotesOk(w, s) && |Voters(SummaryVotes(s, mid), x)| >= w.env.k
    ensures mid == w.mid && x == Last(w)
  {
    var p := Outside(Voters(SummaryVotes(s, mid), x), w.bad);
    assert SummaryVoteOk(w, s, mid, x, p);
  }

  /** Before the summary is confirmed nothing is assigned; after it only indexes the old chain left free. */
  lemma AssignsAbove<P(!new)>(w: World<P>, s: State<P>)
    requires WorldOk(w) && Sound(w, s) && MayAssign(w.env, s)
    ensures Last(w) <= s.lastUnassigned
  {
    var mid :| mid in s.summaries && ConfirmedIn(w.env.k, s.summaries[mid]);
    var x :| x in s.summaries[mid] && |s.summaries[mid][x]| >= w.env.k;
    SummaryIsOld(w, s, mid, x);
  }

  // ----- pigeonhole

  lemma {:induction false} OldKeysSize<P>(w: World<P>, n: nat)
    ensures |set i | 0 <= i < n :: OldKey(w, i)| <= n
  {
    if n > 0 {
      OldKeysSize(w, n - 1);
      assert (set i | 0 <= i < n :: OldKey(w, i)) == (set i | 0 <= i < n - 1 :: OldKey(w, i)) + {OldKey(w, n - 1)};
    }
  }

  lemma AllConfirmed<P(!new)>(w: World<P>, s: State<P>)
    requires WorldOk(w) && VotesOk(w, s) && |Confirmed(w, s)| == Last(w)
    ensures forall i :: 0 <= i < Last(w) ==> OldKey(w, i) in Confirmed(w, s)
  {
    var olds := set i | 0 <= i < Last(w) :: OldKey(w, i);
    forall m | m in Confirmed(w, s) ensures m in olds {
      ConfirmedIsOld(w, s, w.mid, m);
    }
    OldKeysSize(w, Last(w));
    FullSubset(Confirmed(w, s), olds);
  }

  lemma OldKeyIndex<P(!new)>(w: World<P>, i: int)
    requires WorldOk(w)
    ensures OldKey(w, i).index == i
  {
    assert Named(w.from, i);
  }

  /** When the counters meet, every index below the summary holds the old mapping. */
  lemma DueIsExact<P(!new)>(w: World<P>, s: State<P>)
    requires WorldOk(w) && Sound(w, s) && Due(w, s)
    ensures forall i :: 0 <= i < Last(w) ==> Kept(w, s, i)
  {
    AllConfirmed(w, s);
    forall i | 0 <= i < Last(w) ensures Kept(w, s, i) {
      OldKeyIndex(w, i);
      assert OldKey(w, i) in Confirmed(w, s);
    }
  }

  lemma ThawSound<P(!new)>(w: World<P>, s: State<P>)
    requires WorldOk(w) && Sound(w, s) && w.mid !in s.thawed
    ensures Inv(w, Thaw(s, w.mid))
  {
    var s' := Thaw(s, w.mid);
    if Due(w, s) {
      DueIsExact(w, s);
      forall mid, x, p ensures SummaryVoteOk(w, s', mid, x, p) { assert SummaryVoteOk(w, s, mid, x, p); }
      forall mid, m, p ensures KeyVoteOk(w, s', mid, m, p) { assert KeyVoteOk(w, s, mid, m, p); }
      forall mid ensures OtherOk(w, s', mid) { assert OtherOk(w, s, mid); }
      forall i | 0 <= i < Last(w) ensures Kept(w, s', i) { assert Kept(w, s, i); }
      assert Confirmed(w, s') == {};
    }
  }

  // ----- steps of the chain

  /** A transaction good nodes could be behind, or that only bad nodes vote for. */
  ghost predicate Honest<P>(w: World<P>, f: Effect<P>) {
    && !f.KeyUpdated?
    && (f.SummaryVoted? && f.sender !in w.bad ==> f.mid == w.mid && f.last == Last(w))
    && (f.KeyVoted? && f.sender !in w.bad ==> f.mid == w.mid && IsOldKey(w, f.m))
  }

  lemma VotesSame<P(!new)>(w: World<P>, s: State<P>, s': State<P>)
    requires VotesOk(w, s) && s'.summaries == s.summaries && s'.keyVotes == s.keyVotes
    ensures VotesOk(w, s')
  {
    forall mid, x, p ensures SummaryVoteOk(w, s', mid, x, p) { assert SummaryVoteOk(w, s, mid, x, p); }
    forall mid, m, p ensures KeyVoteOk(w, s', mid, m, p) { assert KeyVoteOk(w, s, mid, m, p); }
  }

  /** Votes, counters and thaws untouched, old mappings kept. */
  lemma SoundSame<P(!new)>(w: World<P>, s: State<P>, s': State<P>)
    requires WorldOk(w) && Inv(w, s)
    requires s'.summaries == s.summaries && s'.keyVotes == s.keyVotes && s'.counters == s.counters && s'.thawed == s.thawed
    requires s.lastUnassigned <= s'.lastUnassigned
    requires forall i :: 0 <= i < Last(w) && Kept(w, s, i) ==> Kept(w, s', i)
    ensures Inv(w, s')
  {
    VotesSame(w, s, s');
    forall mid ensures OtherOk(w, s', mid) { assert OtherOk(w, s, mid); }
    assert Confirmed(w, s') == Confirmed(w, s);
    forall m | m in Confirmed(w, s) ensures Kept(w, s', m.index) {
      ConfirmedIsOld(w, s, w.mid, m);
      assert Kept(w, s, m.index);
    }
  }

  lemma AssignSound<P(!new)>(w: World<P>, s: State<P>, f: Effect<P>)
    requires WorldOk(w) && Inv(w, s) && f.KeyAssigned? && Legal(w.env, s, f) && MayAssign(w.env, s)
    ensures Inv(w, Apply(s, f))
  {
    AssignsAbove(w, s);
    SoundSame(w, s, Apply(s, f));
  }

  lemma PlainSound<P(!new)>(w: World<P>, s: State<P>, f: Effect<P>)
    requires WorldOk(w) && Inv(w, s) && Legal(w.env, s, f)
    requires !f.KeyAssigned? && !f.KeyUpdated? && !f.KeyVoted? && !f.SummaryVoted?
    ensures Inv(w, Apply(s, f))
  {
    VotesFrame(s, f);
    SoundSame(w, s, Apply(s, f));
  }

  lemma VotesFrame<P>(s: State<P>, f: Effect<P>)
    requires !f.KeyAssigned? && !f.KeyUpdated? && !f.KeyVoted? && !f.SummaryVoted?
    requires f.BufferDropped? ==> s.lastUnassigned < s.lastCreated
    ensures var s' := Apply(s, f);
            && s'.summaries == s.summaries && s'.keyVotes == s.keyVotes && s'.counters == s.counters
            && s'.thawed == s.thawed && s'.km == s.km && s.lastUnassigned <= s'.lastUnassigned
  {
  }

  lemma DoneGrows<P>(w: World<P>, s: State<P>, f: Effect<P>)
    requires w.env.k >= 1 && f.SummaryVoted? && Legal(w.env, s, f) && (f.confirmed ==> f.mid == w.mid && f.last == Last(w))
    ensures var s1 := AddSummaryVote(s, f.mid, f.last, f.sender);
            SummaryDone(w, s1) <==> SummaryDone(w, s) || f.confirmed
    ensures f.confirmed ==> !SummaryDone(w, s)
  {
  }

  /** One more summary vote, before anything is confirmed by it. */
  lemma SummaryVoteSound<P(!new)>(w: World<P>, s: State<P>, f: Effect<P>)
    requires WorldOk(w) && VotesOk(w, s) && f.SummaryVoted? && Legal(w.env, s, f) && Honest(w, f)
    ensures var s1 := AddSummaryVote(s, f.mid, f.last, f.sender);
            && VotesOk(w, s1)
            && (SummaryDone(w, s1) <==> SummaryDone(w, s) || f.confirmed)
            && (f.confirmed ==> f.mid == w.mid && f.last == Last(w) && !SummaryDone(w, s))
  {
    var s1 := AddSummaryVote(s, f.mid, f.last, f.sender);
    forall mid, x, p ensures SummaryVoteOk(w, s1, mid, x, p) { assert SummaryVoteOk(w, s, mid, x, p); }
    forall mid, m, p ensures KeyVoteOk(w, s1, mid, m, p) { assert KeyVoteOk(w, s, mid, m, p); }
    if f.confirmed {
      assert Voters(SummaryVotes(s1, f.mid), f.last) == Voters(SummaryVotes(s, f.mid), f.last) + {f.sender};
      SummaryIsOld(w, s1, f.mid, f.last);
    }
    DoneGrows(w, s, f);
  }

  lemma SummarySound<P(!new)>(w: World<P>, s: State<P>, f: Effect<P>)
    requires WorldOk(w) && Inv(w, s) && f.SummaryVoted? && Legal(w.env, s, f) && Honest(w, f)
    ensures Inv(w, Apply(s, f))
  {
    var s1 := AddSummaryVote(s, f.mid, f.last, f.sender);
    SummaryVoteSound(w, s, f);
    assert Confirmed(w, s1) == Confirmed(w, s);
    if f.confirmed {
      var s2 := ConfirmSummary(s1, f.mid, f.last);
      ConfirmSummarySound(w, s, s1, s2);
      ThawSound(w, s2);
    } else {
      SameVoteSound(w, s, s1);
    }
  }

  lemma SameVoteSound<P(!new)>(w: World<P>, s: State<P>, s1: State<P>)
    requires Inv(w, s) && VotesOk(w, s1) && (SummaryDone(w, s1) <==> SummaryDone(w, s))
    requires s1.counters == s.counters && s1.thawed == s.thawed && s1.km == s.km && s1.lastUnassigned == s.lastUnassigned
    requires Confirmed(w, s1) == Confirmed(w, s)
    ensures Inv(w, s1)
  {
    forall mid ensures OtherOk(w, s1, mid) { assert OtherOk(w, s, mid); }
    forall m | m in Confirmed(w, s1) ensures Kept(w, s1, m.index) { assert Kept(w, s, m.index); }
    forall i | 0 <= i < Last(w) && w.mid in s.thawed ensures Kept(w, s1, i) { assert Kept(w, s, i); }
  }

  lemma ConfirmSummarySound<P(!new)>(w: World<P>, s: State<P>, s1: State<P>, s2: State<P>)
    requires Inv(w, s) && VotesOk(w, s1) && SummaryDone(w, s1) && w.mid !in s.thawed
    requires s1.counters == s.counters && s1.thawed == s.thawed && s1.km == s.km
    requires Confirmed(w, s1) == Confirmed(w, s)
    requires s2 == ConfirmSummary(s1, w.mid, Last(w))
    ensures Sound(w, s2) && w.mid !in s2.thawed
  {
    VotesSame(w, s1, s2);
    forall mid ensures OtherOk(w, s2, mid) { assert OtherOk(w, s, mid); }
    assert Confirmed(w, s2) == Confirmed(w, s);
    forall m | m in Confirmed(w, s2) ensures Kept(w, s2, m.index) { assert Kept(w, s, m.index); }
  }

  lemma ConfirmedGrows<P>(w: World<P>, s: State<P>, f: Effect<P>)
    requires w.env.k >= 1 && f.KeyVoted? && Legal(w.env, s, f)
    ensures var s1 := AddKeyVote(s, f.mid, f.m, f.sender);
            Confirmed(w, s1) == if f.confirmed && f.mid == w.mid then Confirmed(w, s) + {f.m} else Confirmed(w, s)
    ensures f.confirmed && f.mid == w.mid ==> f.m !in Confirmed(w, s)
  {
    var s1 := AddKeyVote(s, f.mid, f.m, f.sender);
    if f.mid == w.mid {
      LeadingGrows(w.env.k, KeyVotes(s, w.mid), f.m, f.sender);
    } else {
      assert KeyVotes(s1, w.mid) == KeyVotes(s, w.mid);
    }
  }

  lemma KeyVotesOk<P(!new)>(w: World<P>, s: State<P>, mid: string, m: KeyMapping<P>, sender: Node)
    requires VotesOk(w, s) && (sender !in w.bad ==> mid == w.mid && IsOldKey(w, m))
    ensures VotesOk(w, AddKeyVote(s, mid, m, sender))
  {
    var s1 := AddKeyVote(s, mid, m, sender);
    forall id, x, p ensures SummaryVoteOk(w, s1, id, x, p) { assert SummaryVoteOk(w, s, id, x, p); }
    forall id, n, p ensures KeyVoteOk(w, s1, id, n, p) { assert KeyVoteOk(w, s, id, n, p); }
  }

  /** One more key vote, before anything is confirmed by it. */
  lemma KeyVoteSound<P(!new)>(w: World<P>, s: State<P>, f: Effect<P>)
    requires WorldOk(w) && VotesOk(w, s) && f.KeyVoted? && Legal(w.env, s, f) && Honest(w, f)
    ensures var s1 := AddKeyVote(s, f.mid, f.m, f.sender);
            && VotesOk(w, s1)
            && (f.confirmed ==> f.mid == w.mid && IsOldKey(w, f.m) && f.m !in Confirmed(w, s))
            && Confirmed(w, s1) == (if f.confirmed then Confirmed(w, s) + {f.m} else Confirmed(w, s))
  {
    var s1 := AddKeyVote(s, f.mid, f.m, f.sender);
    KeyVotesOk(w, s, f.mid, f.m, f.sender);
    ConfirmedGrows(w, s, f);
    if f.confirmed {
      assert Voters(KeyVotes(s1, f.mid), f.m) == Voters(KeyVotes(s, f.mid), f.m) + {f.sender};
      ConfirmedIsOld(w, s1, f.mid, f.m);
    }
  }

  lemma KeySound<P(!new)>(w: World<P>, s: State<P>, f: Effect<P>)
    requires WorldOk(w) && Inv(w, s) && f.KeyVoted? && Legal(w.env, s, f) && Honest(w, f)
    ensures Inv(w, Apply(s, f))
  {
    KeyVoteSound(w, s, f);
    if f.confirmed {
      KeyConfirmedSound(w, s, AddKeyVote(s, f.mid, f.m, f.sender), f.m);
    } else {
      KeyUnconfirmedSound(w, s, f.mid, f.m, f.sender);
    }
  }

  lemma KeyUnconfirmedSound<P(!new)>(w: World<P>, s: State<P>, mid: string, m: KeyMapping<P>, sender: Node)
    requires Inv(w, s) && VotesOk(w, AddKeyVote(s, mid, m, sender))
    requires Confirmed(w, AddKeyVote(s, mid, m, sender)) == Confirmed(w, s)
    ensures Inv(w, AddKeyVote(s, mid, m, sender))
  {
    SameVoteSound(w, s, AddKeyVote(s, mid, m, sender));
  }

  lemma KeyConfirmedSound<P(!new)>(w: World<P>, s: State<P>, s1: State<P>, m: KeyMapping<P>)
    requires WorldOk(w) && Inv(w, s) && VotesOk(w, s1) && w.mid !in s.thawed && IsOldKey(w, m) && m !in Confirmed(w, s)
    requires s1.counters == s.counters && s1.thawed == s.thawed && s1.km == s.km && s1.summaries == s.summaries
    requires s1.lastUnassigned == s.lastUnassigned
    requires Confirmed(w, s1) == Confirmed(w, s) + {m}
    ensures Inv(w, Thaw(ConfirmKey(s1, w.mid, m), w.mid))
  {
    ConfirmKeySound(w, s, s1, ConfirmKey(s1, w.mid, m), m);
    ThawSound(w, ConfirmKey(s1, w.mid, m));
  }

  lemma ConfirmKeySound<P(!new)>(w: World<P>, s: State<P>, s1: State<P>, s2: State<P>, m: KeyMapping<P>)
    requires Sound(w, s) && VotesOk(w, s1) && w.mid !in s.thawed && IsOldKey(w, m) && m !in Confirmed(w, s)
    requires s1.counters == s.counters && s1.thawed == s.thawed && s1.km == s.km && s1.summaries == s.summaries
    requires s1.lastUnassigned == s.lastUnassigned
    requires Confirmed(w, s1) == Confirmed(w, s) + {m}
    requires s2.summaries == s1.summaries && s2.keyVotes == s1.keyVotes && s2.thawed == s1.thawed
    requires s2.km == s1.km[m.index := m] && s2.lastUnassigned == s1.lastUnassigned
    requires s2.counters == s1.counters[w.mid := CounterOf(s1, w.mid).(keys := CounterOf(s1, w.mid).keys + 1)]
    ensures Sound(w, s2) && w.mid !in s2.thawed
  {
    assert VotesOk(w, s2) by { VotesSame(w, s1, s2); }
    assert forall mid {:trigger OtherOk(w, s2, mid)} :: OtherOk(w, s2, mid) by { OthersUncounted(w, s, s2); }
    assert Confirmed(w, s2) == Confirmed(w, s) + {m};
    assert CountersOk(w, s2) by { KeyCounted(w, s, s2, m); }
    assert StoresOk(w, s2) by { KeyStored(w, s, s2, m); }
  }

  lemma OthersUncounted<P(!new)>(w: World<P>, s: State<P>, s': State<P>)
    requires s'.thawed == s.thawed && w.mid in s'.counters
    requires s'.counters == s.counters[w.mid := s'.counters[w.mid]]
    requires forall mid {:trigger OtherOk(w, s, mid)} :: OtherOk(w, s, mid)
    ensures forall mid {:trigger OtherOk(w, s', mid)} :: OtherOk(w, s', mid)
  {
    forall mid ensures OtherOk(w, s', mid) { assert OtherOk(w, s, mid); }
  }

  lemma KeyCounted<P(!new)>(w: World<P>, s: State<P>, s': State<P>, m: KeyMapping<P>)
    requires CountersOk(w, s) && w.mid !in s.thawed && m !in Confirmed(w, s)
    requires s'.thawed == s.thawed && s'.summaries == s.summaries && Confirmed(w, s') == Confirmed(w, s) + {m}
    requires s'.counters == s.counters[w.mid := CounterOf(s, w.mid).(keys := CounterOf(s, w.mid).keys + 1)]
    ensures CountersOk(w, s')
  {
    assert |Confirmed(w, s')| == |Confirmed(w, s)| + 1;
  }

  lemma KeyStored<P(!new)>(w: World<P>, s: State<P>, s': State<P>, m: KeyMapping<P>)
    requires StoresOk(w, s) && w.mid !in s.thawed && IsOldKey(w, m)
    requires s'.thawed == s.thawed && s'.summaries == s.summaries && s'.lastUnassigned == s.lastUnassigned
    requires s'.km == s.km[m.index := m] && Confirmed(w, s') == Confirmed(w, s) + {m}
    ensures StoresOk(w, s')
  {
    forall n | n in Confirmed(w, s') ensures Kept(w, s', n.index) {
      assert n != m ==> Kept(w, s, n.index);
    }
  }

  lemma StepSound<P(!new)>(w: World<P>, s: State<P>, tx: Tx<P>, sender: Node)
    requires WorldOk(w) && Inv(w, s) && Honest(w, Judge(w.env, s, tx, sender))
    ensures Inv(w, Step(w.env, s, tx, sender).state)
  {
    JudgeLegal(w.env, s, tx, sender);
    EffectSound(w, s, Judge(w.env, s, tx, sender));
  }

  lemma EffectSound<P(!new)>(w: World<P>, s: State<P>, f: Effect<P>)
    requires WorldOk(w) && Inv(w, s) && Honest(w, f) && Legal(w.env, s, f)
    requires f.KeyAssigned? ==> MayAssign(w.env, s)
    ensures Inv(w, Apply(s, f))
  {
    match f {
      case KeyAssigned(_, _, _) => AssignSound(w, s, f);
      case SummaryVoted(_, _, _, _) => SummarySound(w, s, f);
      case KeyVoted(_, _, _, _) => KeySound(w, s, f);
      case _ => PlainSound(w, s, f);
    }
  }
}
