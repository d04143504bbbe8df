/** The two indexes of assigned keys stay exact through a migration: a user's list holds index i if and only if mapping i
    lists the user, whether i came from the old chain or was assigned on the new one. */
module MigratedIndexes {
  import opened Ledger
  import opened KeyIndexes
  import opened Migration
  import opened Mapping

  // ----- lists without repetition

  lemma {:induction false} StrictCounts(l: seq<int>, x: int)
    requires Strict(l)
    ensures multiset(l)[x] <= 1 && (l != [] && x > l[|l| - 1] ==> multiset(l)[x] == 0)
  {
    if l != [] {
      var n := |l| - 1;
      assert l == l[..n] + [l[n]];
      StrictCounts(l[..n], x);
      StrictCounts(l[..n], l[n]);
    }
  }

  lemma CountedOnce(r: seq<int>)
    requires Ascending(r) && forall x :: multiset(r)[x] <= 1
    ensures Strict(r)
  {
    forall i | 1 <= i < |r| ensures r[i - 1] < r[i] {
      assert r == r[..i - 1] + [r[i - 1], r[i]] + r[i + 1..];
      assert multiset(r)[r[i]] <= 1;
    }
  }

  lemma WithIndexStrict(l: seq<int>, i: int)
    requires Strict(l)
    ensures Strict(WithIndex(l, i))
  {
    if i !in l {
      forall x ensures multiset(Sorted(l + [i]))[x] <= 1 {
        StrictCounts(l, x);
        assert i !in multiset(l);
      }
      CountedOnce(Sorted(l + [i]));
    }
  }

  // ----- the invariant

  /** A stored mapping is the old chain's below the summary, and above it one that was assigned here. */
  ghost predicate Placed<P>(w: World<P>, s: State<P>, i: int) {
    i in s.km ==>
      if i < Last(w) then 0 <= i && s.km[i] == OldKey(w, i) else i < s.lastUnassigned && SummaryDone(w, s)
  }

  ghost predicate BothExact<P(!new)>(w: World<P>, s: State<P>) {
    && Agree(s)
    && (forall i {:trigger Placed(w, s, i)} :: Placed(w, s, i))
    && (forall i, user {:trigger Exactly(s, i, user)} :: Exactly(s, i, user))
    && (forall user {:trigger StrictFor(s, user)} :: StrictFor(s, user))
  }

  lemma BothSame<P(!new)>(w: World<P>, s: State<P>, s': State<P>)
    requires BothExact(w, s) && Agree(s') && s'.km == s.km && s'.vt == s.vt && s.lastUnassigned <= s'.lastUnassigned
    requires SummaryDone(w, s) ==> SummaryDone(w, s')
    ensures BothExact(w, s')
  {
    forall i ensures Placed(w, s', i) { assert Placed(w, s, i); }
    forall i, user ensures Exactly(s', i, user) { assert Exactly(s, i, user); }
    forall user ensures StrictFor(s', user) { assert StrictFor(s, user); }
  }

  /** One mapping is stored, new or the same again, and its index joins the lists of its users. */
  lemma AddedExactly<P>(s: State<P>, s': State<P>, m: KeyMapping<P>, i: int, user: string)
    requires forall j, u {:trigger Exactly(s, j, u)} :: Exactly(s, j, u)
    requires s'.km == s.km[m.index := m] && (m.index in s.km ==> s.km[m.index] == m)
    requires i in ListOf(s'.vt, user) <==> i in ListOf(s.vt, user) || (i == m.index && user in Users(m))
    ensures Exactly(s', i, user)
  {
    assert Exactly(s, i, user);
  }

  lemma AssignBoth<P(!new)>(w: World<P>, s: State<P>, f: Effect<P>)
    requires WorldOk(w) && Inv(w, s) && BothExact(w, s)
    requires f.KeyAssigned? && Legal(w.env, s, f) && MayAssign(w.env, s)
    ensures BothExact(w, Apply(s, f))
  {
    var s', n, l := Apply(s, f), s.lastUnassigned, ListOf(s.vt, f.user);
    AssignAgrees(w.env, s, f);
    AssignsAbove(w, s);
    AssignsDone(w, s);
    assert Placed(w, s, n);
    forall i | i in l ensures i < n {
      assert Exactly(s, i, f.user) && Placed(w, s, i);
    }
    assert StrictFor(s, f.user);
    StrictBelow(l, n);
    SortedFixed(l + [n]);
    Assigned(w, s, s', f.m, f.user);
  }

  lemma AssignsDone<P(!new)>(w: World<P>, s: State<P>)
    requires WorldOk(w) && Sound(w, s) && MayAssign(w.env, s)
    ensures SummaryDone(w, s)
  {
    var mid :| mid in s.summaries && ConfirmedIn(w.env.k, s.summaries[mid]);
    var x :| x in s.summaries[mid] && |s.summaries[mid][x]| >= w.env.k;
    SummaryIsOld(w, s, mid, x);
  }

  lemma Assigned<P(!new)>(w: World<P>, s: State<P>, s': State<P>, m: KeyMapping<P>, user: string)
    requires BothExact(w, s) && Agree(s') && m.index == s.lastUnassigned >= Last(w) && m.index !in s.km && Users(m) == {user}
    requires SummaryDone(w, s) && s'.summaries == s.summaries && s'.lastUnassigned == s.lastUnassigned + 1
    requires s'.km == s.km[m.index := m] && s'.vt == s.vt[user := ListOf(s.vt, user) + [m.index]]
    requires Strict(ListOf(s.vt, user) + [m.index])
    ensures BothExact(w, s')
  {
    forall i ensures Placed(w, s', i) { assert Placed(w, s, i); }
    forall u ensures StrictFor(s', u) { assert StrictFor(s, u); }
    forall i, u ensures Exactly(s', i, u) {
      assert ListOf(s'.vt, u) == if u == user then ListOf(s.vt, u) + [m.index] else ListOf(s.vt, u);
      AddedExactly(s, s', m, i, u);
    }
  }

  lemma KeyStoredBoth<P(!new)>(w: World<P>, s: State<P>, m: KeyMapping<P>)
    requires BothExact(w, s) && IsOldKey(w, m)
    ensures BothExact(w, ConfirmKey(s, w.mid, m))
  {
    var s' := ConfirmKey(s, w.mid, m);
    MigrationAgrees(s, w.mid, m);
    forall i ensures Placed(w, s', i) { assert Placed(w, s, i); }
    forall u ensures StrictFor(s', u) {
      assert StrictFor(s, u);
      ListAfter(s.vt, Users(m), m.index, u);
    }
    assert Placed(w, s, m.index);
    forall i, u ensures Exactly(s', i, u) {
      MembersAfter(s.vt, Users(m), m.index, u, i);
      AddedExactly(s, s', m, i, u);
    }
  }

  lemma ListAfter(vt: map<string, seq<int>>, users: set<string>, i: int, user: string)
    requires Strict(ListOf(vt, user))
    ensures Strict(ListOf(AddIndex(vt, users, i), user))
  {
    WithIndexStrict(ListOf(vt, user), i);
  }

  lemma MembersAfter(vt: map<string, seq<int>>, users: set<string>, i: int, user: string, j: int)
    ensures j in ListOf(AddIndex(vt, users, i), user) <==> j in ListOf(vt, user) || (j == i && user in users)
  {
    SortedMembers(ListOf(vt, user), i);
  }

  lemma KeyVoteBoth<P(!new)>(w: World<P>, s: State<P>, f: Effect<P>)
    requires WorldOk(w) && Inv(w, s) && BothExact(w, s) && f.KeyVoted? && Legal(w.env, s, f) && Honest(w, f)
    ensures BothExact(w, Apply(s, f))
  {
    var s1 := AddKeyVote(s, f.mid, f.m, f.sender);
    KeyVoteSound(w, s, f);
    SameIndexes(s, s1);
    BothSame(w, s, s1);
    if f.confirmed {
      KeyStoredBoth(w, s1, f.m);
      ThawBoth(w, ConfirmKey(s1, w.mid, f.m));
    }
  }

  lemma ThawBoth<P(!new)>(w: World<P>, s: State<P>)
    requires BothExact(w, s)
    ensures BothExact(w, Thaw(s, w.mid))
  {
    SameIndexes(s, Thaw(s, w.mid));
    BothSame(w, s, Thaw(s, w.mid));
  }

  /** The summary is confirmed before anything is assigned, so raising the free index to it skips nothing. */
  lemma SummaryVoteBoth<P(!new)>(w: World<P>, s: State<P>, f: Effect<P>)
    requires WorldOk(w) && Inv(w, s) && BothExact(w, s) && f.SummaryVoted? && Legal(w.env, s, f) && Honest(w, f)
    ensures BothExact(w, Apply(s, f))
  {
    var s1 := AddSummaryVote(s, f.mid, f.last, f.sender);
    SummaryVoteSound(w, s, f);
    SameIndexes(s, s1);
    BothSame(w, s, s1);
    if f.confirmed {
      var s2 := ConfirmSummary(s1, w.mid, f.last);
      SummaryStoredBoth(w, s, s2);
      ThawBoth(w, s2);
    }
  }

  lemma SummaryStoredBoth<P(!new)>(w: World<P>, s: State<P>, s': State<P>)
    requires BothExact(w, s) && !SummaryDone(w, s) && s'.km == s.km && s'.vt == s.vt && s'.lastUnassigned <= s'.lastCreated
    ensures BothExact(w, s')
  {
    SameIndexes(s, s');
    forall i ensures Placed(w, s', i) { assert Placed(w, s, i); }
    forall i, user ensures Exactly(s', i, user) { assert Exactly(s, i, user); }
    forall user ensures StrictFor(s', user) { assert StrictFor(s, user); }
  }

  lemma EffectBoth<P(!new)>(w: World<P>, s: State<P>, f: Effect<P>)
    requires WorldOk(w) && Inv(w, s) && BothExact(w, s) && Legal(w.env, s, f) && Honest(w, f)
    requires f.KeyAssigned? ==> MayAssign(w.env, s)
    ensures BothExact(w, Apply(s, f))
  {
    match f {
      case KeyAssigned(_, _, _) => AssignBoth(w, s, f);
      case SummaryVoted(_, _, _, _) => SummaryVoteBoth(w, s, f);
      case KeyVoted(_, _, _, _) => KeyVoteBoth(w, s, f);
      case _ =>
        PlainFrame(s, f);
        VotesFrame(s, f);
        SameIndexes(s, Apply(s, f));
        BothSame(w, s, Apply(s, f));
    }
  }

  lemma StepBoth<P(!new)>(w: World<P>, s: State<P>, tx: Tx<P>, sender: Node)
    requires WorldOk(w) && Inv(w, s) && BothExact(w, s) && Honest(w, Judge(w.env, s, tx, sender))
    ensures BothExact(w, Step(w.env, s, tx, sender).state)
  {
    JudgeLegal(w.env, s, tx, sender);
    EffectBoth(w, s, Judge(w.env, s, tx, sender));
  }

  /** In every run of a migration, at every moment: the two indexes agree exactly, and no list holds an index twice. */
  lemma {:induction false} MigrationKeepsExact<P(!new)>(c: Setting<P>, mvs: seq<Move<P>>, tr: seq<Sys<P>>, i: nat)
    requires SettingOk(c) && IsRun(c, mvs, tr) && i < |tr|
    ensures BothExact(c.w, tr[i].chain)
  {
    if i == 0 {
      NothingYet(c.w);
    } else {
      MigrationKeepsExact(c, mvs, tr, i - 1);
      RunOk(c, mvs, tr, i - 1);
      MoveBoth(c, tr[i - 1], mvs[i - 1]);
    }
  }

  lemma NothingYet<P(!new)>(w: World<P>)
    ensures BothExact(w, Init())
  {
  }

  lemma MoveBoth<P(!new)>(c: Setting<P>, y: Sys<P>, mv: Move<P>)
    requires SettingOk(c) && SysOk(c, y) && Enabled(c, y, mv) && BothExact(c.w, y.chain)
    ensures BothExact(c.w, Next(c, y, mv).chain)
  {
    if mv.Submit? {
      SubmitHonest(c, y, mv.sender, mv.tx);
      StepBoth(c.w, y.chain, mv.tx, mv.sender);
    }
  }
}
