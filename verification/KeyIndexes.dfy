/** The two indexes of assigned keys: mappings by key index, key indexes by user. */
module KeyIndexes {
  import opened Ledger

  ghost predicate Listed<P>(s: State<P>, i: int, user: string) {
    i in s.km && user in Users(s.km[i]) ==> i in ListOf(s.vt, user)
  }

  ghost predicate Named<P>(s: State<P>, i: int) {
    i in s.km ==> s.km[i].index == i
  }

  ghost predicate InOrder<P>(s: State<P>, user: string) {
    Ascending(ListOf(s.vt, user))
  }

  /** Holds in every reachable state. */
  ghost predicate Agree<P>(s: State<P>) {
    && s.lastUnassigned <= s.lastCreated
    && (forall i {:trigger Named(s, i)} :: Named(s, i))
    && (forall i, user {:trigger Listed(s, i, user)} :: Listed(s, i, user))
    && (forall user {:trigger InOrder(s, user)} :: InOrder(s, user))
  }

  lemma SameIndexes<P>(s: State<P>, s': State<P>)
    requires Agree(s) && s'.km == s.km && s'.vt == s.vt && s'.lastUnassigned <= s'.lastCreated
    ensures Agree(s')
  {
    forall i ensures Named(s', i) { assert Named(s, i); }
    forall i, user ensures Listed(s', i, user) { assert Listed(s, i, user); }
    forall user ensures InOrder(s', user) { assert InOrder(s, user); }
  }

  /** Storing mapping m and adding its index to its users' lists. */
  lemma StoredKey<P>(s: State<P>, s': State<P>, m: KeyMapping<P>)
    requires Agree(s) && s'.km == s.km[m.index := m] && s'.lastUnassigned <= s'.lastCreated
    requires forall user :: user in Users(m) ==> m.index in ListOf(s'.vt, user)
    requires forall user, i :: i in ListOf(s.vt, user) ==> i in ListOf(s'.vt, user)
    requires forall user :: Ascending(ListOf(s'.vt, user))
    ensures Agree(s')
  {
    forall i ensures Named(s', i) { assert Named(s, i); }
    forall i, user ensures Listed(s', i, user) { assert Listed(s, i, user); }
  }

  lemma AssignAgrees<P>(env: Env<P>, s: State<P>, f: Effect<P>)
    requires Agree(s) && f.KeyAssigned? && Legal(env, s, f)
    ensures Agree(Apply(s, f))
  {
    var s' := Apply(s, f);
    SortedMembers(ListOf(s.vt, f.user), f.m.index);
    forall user ensures Ascending(ListOf(s'.vt, user)) { assert InOrder(s, user); }
    StoredKey(s, s', f.m);
  }

  lemma WithIndexKeeps(l: seq<int>, i: int)
    requires Ascending(l)
    ensures i in WithIndex(l, i) && Ascending(WithIndex(l, i)) && forall j :: j in l ==> j in WithIndex(l, i)
  {
    SortedMembers(l, i);
  }

  lemma AddIndexLists(vt: map<string, seq<int>>, users: set<string>, i: int)
    requires forall user :: Ascending(ListOf(vt, user))
    ensures var r := AddIndex(vt, users, i);
            && (forall user :: user in users ==> i in ListOf(r, user))
            && (forall user, j :: j in ListOf(vt, user) ==> j in ListOf(r, user))
            && (forall user :: Ascending(ListOf(r, user)))
  {
    var r := AddIndex(vt, users, i);
    forall user ensures ListOf(r, user) == if user in users then WithIndex(ListOf(vt, user), i) else ListOf(vt, user) {
    }
    forall user ensures i in WithIndex(ListOf(vt, user), i) && Ascending(WithIndex(ListOf(vt, user), i))
                        && forall j :: j in ListOf(vt, user) ==> j in WithIndex(ListOf(vt, user), i) {
      WithIndexKeeps(ListOf(vt, user), i);
    }
  }

  lemma MigrationAgrees<P>(s: State<P>, mid: string, m: KeyMapping<P>)
    requires Agree(s)
    ensures Agree(ConfirmKey(s, mid, m))
  {
    forall user ensures Ascending(ListOf(s.vt, user)) { assert InOrder(s, user); }
    AddIndexLists(s.vt, Users(m), m.index);
    StoredKey(s, ConfirmKey(s, mid, m), m);
  }

  /** A dealer changes the public key of a mapping, not its index or its users. */
  lemma UpdateAgrees<P>(env: Env<P>, s: State<P>, f: Effect<P>)
    requires Agree(s) && f.KeyUpdated? && Legal(env, s, f)
    ensures Agree(Apply(s, f)) && f.m.index in s.km && Users(s.km[f.m.index]) == Users(f.m)
  {
    var i :| i in s.km && s.km[i] == f.m.(key := s.km[i].key);
    assert Named(s, i);
    forall user ensures Ascending(ListOf(s.vt, user)) { assert InOrder(s, user); }
    forall user | user in Users(f.m) ensures i in ListOf(s.vt, user) { assert Listed(s, i, user); }
    StoredKey(s, Apply(s, f), f.m);
  }

  lemma KeyVoteAgrees<P>(s: State<P>, mid: string, m: KeyMapping<P>, sender: Node, confirmed: bool)
    requires Agree(s)
    ensures Agree(Apply(s, KeyVoted(mid, m, sender, confirmed)))
  {
    var s1 := AddKeyVote(s, mid, m, sender);
    SameIndexes(s, s1);
    if confirmed {
      var s2 := ConfirmKey(s1, mid, m);
      MigrationAgrees(s1, mid, m);
      SameIndexes(s2, Thaw(s2, mid));
    }
  }

  lemma SummaryAgrees<P>(s: State<P>, mid: string, last: nat, sender: Node, confirmed: bool)
    requires Agree(s)
    ensures Agree(Apply(s, SummaryVoted(mid, last, sender, confirmed)))
  {
    var s1 := AddSummaryVote(s, mid, last, sender);
    SameIndexes(s, s1);
    if confirmed {
      var s2 := ConfirmSummary(s1, mid, last);
      SameIndexes(s1, s2);
      SameIndexes(s2, Thaw(s2, mid));
    }
  }

  /** The effects that touch neither index. */
  lemma PlainFrame<P>(s: State<P>, f: Effect<P>)
    requires !f.KeyAssigned? && !f.KeyUpdated? && !f.KeyVoted? && !f.SummaryVoted?
    requires s.lastUnassigned <= s.lastCreated
    ensures var s' := Apply(s, f);
            s'.km == s.km && s'.vt == s.vt && s.lastUnassigned <= s'.lastUnassigned <= s'.lastCreated
  {
  }

  lemma StepAgrees<P>(env: Env<P>, s: State<P>, f: Effect<P>)
    requires Agree(s) && Legal(env, s, f)
    ensures Agree(Apply(s, f))
  {
    match f {
      case KeyAssigned(_, _, _) => AssignAgrees(env, s, f);
      case KeyUpdated(_) => UpdateAgrees(env, s, f);
      case KeyVoted(mid, m, sender, confirmed) => KeyVoteAgrees(s, mid, m, sender, confirmed);
      case SummaryVoted(mid, last, sender, confirmed) => SummaryAgrees(s, mid, last, sender, confirmed);
      case _ => PlainFrame(s, f); SameIndexes(s, Apply(s, f));
    }
  }

  lemma EventAgrees<P(!new)>(env: Env<P>, s: State<P>, e: Event<P>)
    requires EnvOk(env) && Agree(s)
    ensures Agree(After(env, s, e))
  {
    var f := EffectOf(env, s, e);
    StepAgrees(env, s, f);
    SameIndexes(Apply(s, f), After(env, s, e));
  }

  /** In every reachable state the indexes agree. */
  lemma {:induction false} IndexesAgree<P(!new)>(env: Env<P>, s: State<P>, es: seq<Event<P>>)
    requires EnvOk(env) && Agree(s)
    ensures Agree(Run(env, s, es))
    decreases |es|
  {
    if es != [] {
      EventAgrees(env, s, es[0]);
      IndexesAgree(env, After(env, s, es[0]), es[1..]);
    }
  }

  lemma InitAgrees<P(!new)>(env: Env<P>, es: seq<Event<P>>)
    requires EnvOk(env)
    ensures Agree(Run(env, Init(), es))
  {
    IndexesAgree(env, Init(), es);
  }

  // ----- without migration

  predicate Strict(l: seq<int>) {
    forall i :: 1 <= i < |l| ==> l[i - 1] < l[i]
  }

  ghost predicate Exactly<P>(s: State<P>, i: int, user: string) {
    i in ListOf(s.vt, user) <==> i in s.km && user in Users(s.km[i])
  }

  ghost predicate StrictFor<P>(s: State<P>, user: string) {
    Strict(ListOf(s.vt, user))
  }

  /** Holds in every state reached without migration messages. */
  ghost predicate Exact<P>(s: State<P>) {
    && Agree(s)
    && (forall i :: i in s.km ==> 0 <= i < s.lastUnassigned)
    && (forall i, user {:trigger Exactly(s, i, user)} :: Exactly(s, i, user))
    && (forall user {:trigger StrictFor(s, user)} :: StrictFor(s, user))
  }

  ghost predicate Local<P>(e: Event<P>) {
    e.Deliver? ==> !e.tx.Summary? && !e.tx.Key?
  }

  lemma {:induction false} SortedFixed(l: seq<int>)
    requires Ascending(l)
    ensures Sorted(l) == l
  {
    if |l| > 1 {
      SortedFixed(l[1..]);
      assert l == [l[0]] + l[1..];
    }
  }

  lemma {:induction false} StrictBelow(l: seq<int>, bound: int)
    requires Strict(l) && forall i :: i in l ==> i < bound
    ensures Strict(l + [bound]) && Ascending(l + [bound])
  {
    if l != [] {
      assert l[|l| - 1] in l;
    }
  }

  lemma SameExact<P>(s: State<P>, s': State<P>)
    requires Exact(s) && s'.km == s.km && s'.vt == s.vt && s.lastUnassigned <= s'.lastUnassigned <= s'.lastCreated
    ensures Exact(s')
  {
    SameIndexes(s, s');
    forall i, user ensures Exactly(s', i, user) { assert Exactly(s, i, user); }
    forall user ensures StrictFor(s', user) { assert StrictFor(s, user); }
  }

  /** The new index is larger than all the user had, so sorting leaves it last. */
  lemma AssignAppends<P>(env: Env<P>, s: State<P>, f: Effect<P>)
    requires Exact(s) && f.KeyAssigned? && Legal(env, s, f)
    ensures var l := ListOf(s.vt, f.user) + [s.lastUnassigned];
            Sorted(l) == l && Strict(l)
  {
    var l, n := ListOf(s.vt, f.user), s.lastUnassigned;
    assert StrictFor(s, f.user);
    forall i | i in l ensures i < n { assert Exactly(s, i, f.user); }
    StrictBelow(l, n);
    SortedFixed(l + [n]);
  }

  lemma ExactWith<P>(s: State<P>, s': State<P>, m: KeyMapping<P>, user: string)
    requires Exact(s) && Agree(s') && m.index == s.lastUnassigned && Users(m) == {user}
    requires s'.km == s.km[m.index := m] && s'.vt == s.vt[user := ListOf(s.vt, user) + [m.index]]
    requires s'.lastUnassigned == s.lastUnassigned + 1 && Strict(ListOf(s.vt, user) + [m.index])
    ensures Exact(s')
  {
    forall u ensures StrictFor(s', u) { assert StrictFor(s, u); }
    forall i, u ensures Exactly(s', i, u) {
      assert Exactly(s, i, u);
      assert ListOf(s'.vt, u) == if u == user then ListOf(s.vt, u) + [m.index] else ListOf(s.vt, u);
    }
  }

  lemma AssignExact<P>(env: Env<P>, s: State<P>, f: Effect<P>)
    requires Exact(s) && f.KeyAssigned? && Legal(env, s, f)
    ensures Exact(Apply(s, f)) && f.m.index !in s.km
  {
    AssignAgrees(env, s, f);
    AssignAppends(env, s, f);
    ExactWith(s, Apply(s, f), f.m, f.user);
  }

  lemma UpdateExact<P>(env: Env<P>, s: State<P>, f: Effect<P>)
    requires Exact(s) && f.KeyUpdated? && Legal(env, s, f)
    ensures Exact(Apply(s, f))
  {
    var s' := Apply(s, f);
    UpdateAgrees(env, s, f);
    forall i, user ensures Exactly(s', i, user) { assert Exactly(s, i, user); }
    forall user ensures StrictFor(s', user) { assert StrictFor(s, user); }
  }

  lemma StepExact<P>(env: Env<P>, s: State<P>, f: Effect<P>)
    requires Exact(s) && Legal(env, s, f) && !f.SummaryVoted? && !f.KeyVoted?
    ensures Exact(Apply(s, f))
  {
    match f {
      case KeyAssigned(_, _, _) => AssignExact(env, s, f);
      case KeyUpdated(_) => UpdateExact(env, s, f);
      case _ => PlainFrame(s, f); SameExact(s, Apply(s, f));
    }
  }

  lemma LocalEffect<P(!new)>(env: Env<P>, s: State<P>, e: Event<P>)
    requires EnvOk(env) && Local(e)
    ensures !EffectOf(env, s, e).SummaryVoted? && !EffectOf(env, s, e).KeyVoted?
  {
  }

  lemma EventExact<P(!new)>(env: Env<P>, s: State<P>, e: Event<P>)
    requires EnvOk(env) && Exact(s) && Local(e)
    ensures Exact(After(env, s, e))
  {
    var f := EffectOf(env, s, e);
    LocalEffect(env, s, e);
    StepExact(env, s, f);
    SameExact(Apply(s, f), After(env, s, e));
  }

  /** Without migration messages the relation is exact and the lists are strictly ascending. */
  lemma {:induction false} IndexesExact<P(!new)>(env: Env<P>, s: State<P>, es: seq<Event<P>>)
    requires EnvOk(env) && Exact(s) && forall i :: 0 <= i < |es| ==> Local(es[i])
    ensures Exact(Run(env, s, es))
    decreases |es|
  {
    if es != [] {
      EventExact(env, s, es[0]);
      IndexesExact(env, After(env, s, es[0]), es[1..]);
    }
  }

  /** Nor is any key index assigned twice. */
  lemma NoIndexTwice<P(!new)>(env: Env<P>, es: seq<Event<P>>, e: Event<P>)
    requires EnvOk(env) && forall i :: 0 <= i < |es| ==> Local(es[i])
    requires EffectOf(env, Run(env, Init(), es), e).KeyAssigned?
    ensures Exact(Run(env, Init(), es))
    ensures EffectOf(env, Run(env, Init(), es), e).m.index !in Run(env, Init(), es).km
  {
    IndexesExact(env, Init(), es);
    AssignExact(env, Run(env, Init(), es), EffectOf(env, Run(env, Init(), es), e));
  }

  // ----- dealer updates

  /** Over every run a dealer update is accepted exactly if it is signed under the key stored for its index; it then replaces
      that key and nothing else. */
  lemma UpdateIsSigned<P(!new)>(env: Env<P>, es: seq<Event<P>>, tx: Tx<P>, sender: Node)
    requires EnvOk(env) && tx.UpdateKey?
    ensures var s, i := Run(env, Init(), es), tx.index;
            Step(env, s, tx, sender) ==
            if i in s.km && env.dealerOk(s.km[i].key, tx.newKey, tx.signature)
            then Outcome(s.(km := s.km[i := s.km[i].(key := tx.newKey)]), true)
            else Outcome(s, false)
  {
    InitAgrees(env, es);
    assert Named(Run(env, Init(), es), tx.index);
    UpdateAt(env, Run(env, Init(), es), tx, sender);
  }

  lemma UpdateAt<P(!new)>(env: Env<P>, s: State<P>, tx: Tx<P>, sender: Node)
    requires EnvOk(env) && tx.UpdateKey? && Named(s, tx.index)
    ensures Step(env, s, tx, sender) ==
            if tx.index in s.km && env.dealerOk(s.km[tx.index].key, tx.newKey, tx.signature)
            then Outcome(s.(km := s.km[tx.index := s.km[tx.index].(key := tx.newKey)]), true)
            else Outcome(s, false)
  {
  }

  lemma SignedChange<P(!new)>(env: Env<P>, s: State<P>, e: Event<P>, i: int)
    requires EnvOk(env) && Exact(s) && Local(e) && i in s.km
    ensures var s' := After(env, s, e);
            && i in s'.km
            && s'.km[i] == if e.Deliver? && e.tx.UpdateKey? && e.tx.index == i && env.dealerOk(s.km[i].key, e.tx.newKey, e.tx.signature)
                           then s.km[i].(key := e.tx.newKey) else s.km[i]
  {
    var f := EffectOf(env, s, e);
    LocalEffect(env, s, e);
    match f {
      case KeyAssigned(_, _, _) => AssignExact(env, s, f);
      case KeyUpdated(_) => assert Named(s, e.tx.index);
      case _ => PlainFrame(s, f);
    }
  }

  /** The key that index i has after a run: the one before, or the last one signed for it. */
  ghost function SignedKey<P(!new)>(env: Env<P>, es: seq<Event<P>>, i: int, key: P): P
    decreases |es|
  {
    if es == [] then key
    else
      var e := es[0];
      if e.Deliver? && e.tx.UpdateKey? && e.tx.index == i && env.dealerOk(key, e.tx.newKey, e.tx.signature)
      then SignedKey(env, es[1..], i, e.tx.newKey)
      else SignedKey(env, es[1..], i, key)
  }

  /** Without migration messages an assigned index keeps its users for good, and its key changes only along a chain of updates,
      each signed under the key before. */
  lemma {:induction false} KeysChangeBySignature<P(!new)>(env: Env<P>, s: State<P>, es: seq<Event<P>>, i: int)
    requires EnvOk(env) && Exact(s) && i in s.km && forall j :: 0 <= j < |es| ==> Local(es[j])
    ensures var s' := Run(env, s, es);
            i in s'.km && s'.km[i] == s.km[i].(key := SignedKey(env, es, i, s.km[i].key))
    decreases |es|
  {
    if es != [] {
      EventExact(env, s, es[0]);
      SignedChange(env, s, es[0], i);
      KeysChangeBySignature(env, After(env, s, es[0]), es[1..], i);
    }
  }
}
