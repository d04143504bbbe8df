/** The buffer of created keys, over runs: failed assignments are counted, and after a hundred of them in a row the rest of the
    buffer is given up. */
module Assigning {
  import opened Ids
  import opened Ledger
  import opened Decisions

  // ----- the count of failures

  /** Event e asks for a key on a chain that may assign and whose next index is not past the last one created. */
  ghost predicate Asks<P>(env: Env<P>, s: State<P>, e: Event<P>) {
    e.Deliver? && e.tx.Assign? && MayAssign(env, s) && s.lastUnassigned < s.lastCreated
  }

  ghost predicate Granted<P(!new)>(env: Env<P>, s: State<P>, e: Event<P>)
    requires EnvOk(env)
  {
    Asks(env, s, e) && Accepted(EffectOf(env, s, e))
  }

  /** The requests refused since the last one that was accepted: the key of the next index was missing. */
  ghost function Misses<P(!new)>(env: Env<P>, es: seq<Event<P>>): nat
    requires EnvOk(env)
    decreases |es|
  {
    if es == [] then 0
    else
      var before, e := es[..|es| - 1], es[|es| - 1];
      var s := Run(env, Init(), before);
      if Granted(env, s, e) then 0 else if Asks(env, s, e) then Misses(env, before) + 1 else Misses(env, before)
  }

  lemma SummaryKeepsCount<P>(s: State<P>, mid: string, last: nat)
    ensures Thaw(ConfirmSummary(s, mid, last), mid).failed == s.failed
  {
  }

  lemma KeyKeepsCount<P>(s: State<P>, mid: string, m: KeyMapping<P>)
    ensures var s' := Thaw(ConfirmKey(s, mid, m), mid);
            s'.failed == s.failed && s'.lastUnassigned == s.lastUnassigned && s'.newKeys == s.newKeys
  {
  }

  lemma CountMoves<P>(s: State<P>, f: Effect<P>)
    ensures Apply(s, f).failed == if f.KeyMissing? then s.failed + 1 else if f.KeyAssigned? || f.BufferDropped? then 0 else s.failed
  {
    match f {
      case SummaryVoted(mid, last, sender, _) => SummaryKeepsCount(AddSummaryVote(s, mid, last, sender), mid, last);
      case KeyVoted(mid, m, sender, _) => KeyKeepsCount(AddKeyVote(s, mid, m, sender), mid, m);
      case _ =>
    }
  }

  lemma AskEffect<P(!new)>(env: Env<P>, s: State<P>, e: Event<P>)
    requires EnvOk(env)
    ensures var f := EffectOf(env, s, e);
            && (f.KeyMissing? <==> Asks(env, s, e) && !Accepted(f)) && (f.KeyMissing? ==> s.failed != MaxFailedPubKeyAssigns)
            && (f.KeyAssigned? || f.BufferDropped? <==> Granted(env, s, e))
  {
  }

  /** Over every run the chain's count is the number of these refusals, and never above 100. */
  lemma {:induction false} FailuresCounted<P(!new)>(env: Env<P>, es: seq<Event<P>>)
    requires EnvOk(env)
    ensures Run(env, Init(), es).failed == Misses(env, es) <= 100
  {
    if es != [] {
      var n := |es| - 1;
      var before, e := es[..n], es[n];
      var s := Run(env, Init(), before);
      assert before + [e] == es;
      FailuresCounted(env, before);
      RunSnoc(env, Init(), before, e);
      AskEffect(env, s, e);
      CountMoves(s, EffectOf(env, s, e));
    }
  }

  // ----- giving up the buffer

  ghost predicate AllAssign<P>(es: seq<Event<P>>) {
    forall i :: 0 <= i < |es| ==> es[i].Deliver? && es[i].tx.Assign?
  }

  /** The chain may assign, and the key of the next index is missing. */
  ghost predicate Stuck<P>(env: Env<P>, s: State<P>) {
    MayAssign(env, s) && s.lastUnassigned < s.lastCreated && env.blank(KeyAt(env, s, s.lastUnassigned))
  }

  lemma OneMiss<P(!new)>(env: Env<P>, s: State<P>, e: Event<P>)
    requires EnvOk(env) && Stuck(env, s) && e.Deliver? && e.tx.Assign? && s.failed != 100
    ensures EffectOf(env, s, e) == KeyMissing && After(env, s, e) == s.(failed := s.failed + 1) && Stuck(env, After(env, s, e))
  {
    assert Frozen(env, s) <==> Frozen(env, s.(failed := s.failed + 1));
    assert SummaryConfirmed(env, s) <==> SummaryConfirmed(env, s.(failed := s.failed + 1));
  }

  /** Up to a hundred failures, each request is refused and counted. */
  lemma {:induction false} MissesInARow<P(!new)>(env: Env<P>, s: State<P>, es: seq<Event<P>>)
    requires EnvOk(env) && Stuck(env, s) && AllAssign(es) && s.failed + |es| <= 100
    ensures Run(env, s, es) == s.(failed := s.failed + |es|) && Stuck(env, Run(env, s, es))
    decreases |es|
  {
    if es != [] {
      OneMiss(env, s, es[0]);
      MissesInARow(env, After(env, s, es[0]), es[1..]);
    }
  }

  ghost predicate AcceptedAt<P(!new)>(env: Env<P>, s: State<P>, es: seq<Event<P>>, i: int)
    requires EnvOk(env)
  {
    0 <= i < |es| && Accepted(EffectOf(env, Run(env, s, es[..i]), es[i]))
  }

  /** Stuck on a missing key, the requests that make 101 with the failures already counted move the chain past the whole buffer:
      all but the last are refused, the last is accepted without a key, and the count starts again. */
  lemma BufferGivenUp<P(!new)>(env: Env<P>, s: State<P>, es: seq<Event<P>>)
    requires EnvOk(env) && Stuck(env, s) && s.failed <= 100 && AllAssign(es) && s.failed + |es| == 101
    ensures Run(env, s, es) == s.(failed := 0, lastUnassigned := s.lastCreated)
    ensures forall i :: 0 <= i < |es| - 1 ==> !AcceptedAt(env, s, es, i)
    ensures AcceptedAt(env, s, es, |es| - 1)
  {
    var n := |es| - 1;
    forall i | 0 <= i < n ensures !AcceptedAt(env, s, es, i) {
      RefusedAt(env, s, es, i);
    }
    LastRequest(env, s, es, es[..n], es[n]);
  }

  lemma LastRequest<P(!new)>(env: Env<P>, s: State<P>, es: seq<Event<P>>, before: seq<Event<P>>, e: Event<P>)
    requires EnvOk(env) && Stuck(env, s) && AllAssign(es) && s.failed + |before| == 100 && es == before + [e]
    ensures Run(env, s, es) == s.(failed := 0, lastUnassigned := s.lastCreated) && AcceptedAt(env, s, es, |es| - 1)
  {
    assert es[..|before|] == before;
    assert forall i :: 0 <= i < |before| ==> before[i] == es[i];
    assert e == es[|before|];
    MissesInARow(env, s, before);
    RunSnoc(env, s, before, e);
    LastMiss(env, Run(env, s, before), e);
  }

  lemma RefusedAt<P(!new)>(env: Env<P>, s: State<P>, es: seq<Event<P>>, i: nat)
    requires EnvOk(env) && Stuck(env, s) && AllAssign(es) && i < |es| && s.failed + i < 100
    ensures !AcceptedAt(env, s, es, i)
  {
    MissesInARow(env, s, es[..i]);
    OneMiss(env, Run(env, s, es[..i]), es[i]);
  }

  lemma LastMiss<P(!new)>(env: Env<P>, s: State<P>, e: Event<P>)
    requires EnvOk(env) && Stuck(env, s) && e.Deliver? && e.tx.Assign? && s.failed == 100
    ensures Accepted(EffectOf(env, s, e)) && After(env, s, e) == s.(failed := 0, lastUnassigned := s.lastCreated)
  {
  }

  /** And only then: a request is accepted without a key exactly at the hundred and first in a row, over every run. */
  lemma GivenUpIff<P(!new)>(env: Env<P>, es: seq<Event<P>>, e: Event<P>)
    requires EnvOk(env)
    ensures var s := Run(env, Init(), es);
            EffectOf(env, s, e).BufferDropped? <==> Asks(env, s, e) && Misses(env, es) == 100
  {
    FailuresCounted(env, es);
    GivenUpAt(env, Run(env, Init(), es), e);
  }

  lemma GivenUpAt<P(!new)>(env: Env<P>, s: State<P>, e: Event<P>)
    requires EnvOk(env)
    ensures EffectOf(env, s, e).BufferDropped? <==> Asks(env, s, e) && s.failed == 100
  {
  }

  // ----- assigned keys

  /** A request is granted a key exactly if one is published for the next index and the buffer is not given up. */
  lemma AssignedIff<P(!new)>(env: Env<P>, es: seq<Event<P>>, e: Event<P>)
    requires EnvOk(env)
    ensures var s, d := Run(env, Init(), es), GenerateDKGID(Run(env, Init(), es).lastUnassigned);
            EffectOf(env, s, e).KeyAssigned? <==>
            Asks(env, s, e) && Misses(env, es) < 100 && d in s.pubKeys && !env.blank(s.pubKeys[d].gs)
  {
    FailuresCounted(env, es);
    AssignedAt(env, Run(env, Init(), es), e);
  }

  lemma AssignedAt<P(!new)>(env: Env<P>, s: State<P>, e: Event<P>)
    requires EnvOk(env)
    ensures var d := GenerateDKGID(s.lastUnassigned);
            EffectOf(env, s, e).KeyAssigned? <==>
            Asks(env, s, e) && s.failed != 100 && d in s.pubKeys && !env.blank(s.pubKeys[d].gs)
  {
  }

  /** What a granted request stores: the published key under the next index, for the one user, who now finds it in the list. */
  lemma AssignedStores<P(!new)>(env: Env<P>, s: State<P>, e: Event<P>)
    requires EnvOk(env) && EffectOf(env, s, e).KeyAssigned?
    ensures var i, s', user := s.lastUnassigned, After(env, s, e), VerifierKey(e.tx.verifier, e.tx.verifierID);
            var d := GenerateDKGID(i);
            && d in s.pubKeys && i in s'.km && s'.km[i] == KeyMapping(i, s.pubKeys[d].gs, 1, map[e.tx.verifier := [e.tx.verifierID]])
            && user in s'.vt && i in s'.vt[user] && d !in s'.pubKeys && s'.lastUnassigned == i + 1
            && s'.newKeys == s.newKeys + [s'.km[i]]
  {
    SortedMembers(ListOf(s.vt, VerifierKey(e.tx.verifier, e.tx.verifierID)), s.lastUnassigned);
  }

  /** The keys granted since the block began. */
  ghost function InBlock<P(!new)>(env: Env<P>, es: seq<Event<P>>): seq<KeyMapping<P>>
    requires EnvOk(env)
    decreases |es|
  {
    if es == [] then []
    else
      var before, e := es[..|es| - 1], es[|es| - 1];
      var f := EffectOf(env, Run(env, Init(), before), e);
      if e.BeginBlock? then [] else if f.KeyAssigned? then InBlock(env, before) + [f.m] else InBlock(env, before)
  }

  lemma SummaryKeepsLog<P>(s: State<P>, mid: string, last: nat)
    ensures Thaw(ConfirmSummary(s, mid, last), mid).newKeys == s.newKeys
  {
  }

  lemma LogMoves<P>(s: State<P>, f: Effect<P>)
    ensures Apply(s, f).newKeys == if f.KeyAssigned? then s.newKeys + [f.m] else s.newKeys
  {
    match f {
      case SummaryVoted(mid, last, sender, _) => SummaryKeepsLog(AddSummaryVote(s, mid, last, sender), mid, last);
      case KeyVoted(mid, m, sender, _) => KeyKeepsCount(AddKeyVote(s, mid, m, sender), mid, m);
      case _ =>
    }
  }

  /** Over every run the log of new assignments is that of the block. */
  lemma {:induction false} LogIsOfBlock<P(!new)>(env: Env<P>, es: seq<Event<P>>)
    requires EnvOk(env)
    ensures Run(env, Init(), es).newKeys == InBlock(env, es)
  {
    if es != [] {
      var n := |es| - 1;
      var before, e := es[..n], es[n];
      assert before + [e] == es;
      LogIsOfBlock(env, before);
      RunSnoc(env, Init(), before, e);
      LogMoves(Run(env, Init(), before), EffectOf(env, Run(env, Init(), before), e));
    }
  }

  // ----- the next free index

  lemma SummaryMovesIndex<P>(s: State<P>, mid: string, last: nat)
    ensures var s' := Thaw(ConfirmSummary(s, mid, last), mid);
            s'.lastUnassigned == last && s'.lastCreated >= last && s'.lastCreated >= s.lastCreated
  {
  }

  /** The three ways the next free index moves. */
  lemma IndexMovesTo<P>(s: State<P>, f: Effect<P>)
    ensures Apply(s, f).lastUnassigned ==
            if f.KeyAssigned? then s.lastUnassigned + 1 else if f.BufferDropped? then s.lastCreated
            else if f.SummaryVoted? && f.confirmed then f.last else s.lastUnassigned
  {
    match f {
      case SummaryVoted(mid, last, sender, _) => SummaryMovesIndex(AddSummaryVote(s, mid, last, sender), mid, last);
      case KeyVoted(mid, m, sender, _) => KeyKeepsCount(AddKeyVote(s, mid, m, sender), mid, m);
      case _ =>
    }
  }

  /** No step of the run gives up the buffer or confirms a summary. */
  ghost predicate NoJump<P(!new)>(env: Env<P>, s: State<P>, es: seq<Event<P>>)
    requires EnvOk(env)
    decreases |es|
  {
    es != [] ==>
      var f := EffectOf(env, s, es[0]);
      !f.BufferDropped? && !(f.SummaryVoted? && f.confirmed) && NoJump(env, After(env, s, es[0]), es[1..])
  }

  ghost function Grants<P(!new)>(env: Env<P>, s: State<P>, es: seq<Event<P>>): nat
    requires EnvOk(env)
    decreases |es|
  {
    if es == [] then 0
    else (if EffectOf(env, s, es[0]).KeyAssigned? then 1 else 0) + Grants(env, After(env, s, es[0]), es[1..])
  }

  /** Otherwise it counts the keys that were granted. */
  lemma {:induction false} IndexCountsGrants<P(!new)>(env: Env<P>, s: State<P>, es: seq<Event<P>>)
    requires EnvOk(env) && NoJump(env, s, es)
    ensures Run(env, s, es).lastUnassigned == s.lastUnassigned + Grants(env, s, es)
    decreases |es|
  {
    if es != [] {
      IndexMovesTo(s, EffectOf(env, s, es[0]));
      IndexCountsGrants(env, After(env, s, es[0]), es[1..]);
    }
  }
}
