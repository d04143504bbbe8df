/** The votes on the chain, told by the transactions that were delivered. */
module Voting {
  import opened Ledger
  import opened Growth
  import opened Decisions

  /** What a vote is for. */
  datatype Ballot<P> = ForFreeze(mid: string) | ForSummary(mid: string, last: nat) | ForKey(mid: string, key: KeyMapping<P>)

  /** Event e votes for b in state s. A freeze is for the mapping it proposes, and is judged by the mapping it is sent under. */
  ghost predicate Votes<P>(s: State<P>, e: Event<P>, b: Ballot<P>) {
    && e.Deliver? && (e.tx.Freeze? || e.tx.Summary? || e.tx.Key?) && e.tx.mid !in s.thawed
    && match b
       case ForFreeze(mid) => e.tx.Freeze? && e.tx.proposed == mid
       case ForSummary(mid, last) => e.tx == Summary(mid, last)
       case ForKey(mid, key) => e.tx == Key(mid, key)
  }

  /** The senders the chain holds for b. */
  function Tally<P>(s: State<P>, b: Ballot<P>): set<Node> {
    match b
    case ForFreeze(mid) => Voters(s.freezes, mid)
    case ForSummary(mid, last) => Voters(SummaryVotes(s, mid), last)
    case ForKey(mid, key) => Voters(KeyVotes(s, mid), key)
  }

  ghost predicate VotedAt<P(!new)>(env: Env<P>, es: seq<Event<P>>, i: int, x: Node, b: Ballot<P>)
    requires EnvOk(env)
  {
    0 <= i < |es| && Votes(Run(env, Init(), es[..i]), es[i], b) && es[i].sender == x
  }

  ghost predicate VotedBy<P(!new)>(env: Env<P>, es: seq<Event<P>>, x: Node, b: Ballot<P>)
    requires EnvOk(env)
  {
    exists i :: VotedAt(env, es, i, x, b)
  }

  /** Those that voted for b. */
  ghost function Electors<P(!new)>(env: Env<P>, es: seq<Event<P>>, b: Ballot<P>): (r: set<Node>)
    requires EnvOk(env)
    ensures forall x :: x in r <==> VotedBy(env, es, x, b)
  {
    var r := set i | 0 <= i < |es| && Votes(Run(env, Init(), es[..i]), es[i], b) :: es[i].sender;
    assert forall i :: 0 <= i < |es| && Votes(Run(env, Init(), es[..i]), es[i], b) ==> es[i].sender in r;
    forall x | VotedBy(env, es, x, b) ensures x in r {
      var i :| VotedAt(env, es, i, x, b);
    }
    forall x | x in r ensures VotedBy(env, es, x, b) {
      var i :| 0 <= i < |es| && Votes(Run(env, Init(), es[..i]), es[i], b) && es[i].sender == x;
      assert VotedAt(env, es, i, x, b);
    }
    r
  }

  /** Once a mapping is thawed the votes for its keys are gone. */
  ghost predicate Cleared<P>(s: State<P>, b: Ballot<P>) {
    b.ForKey? && b.mid in s.thawed
  }

  lemma ElectorsMore<P(!new)>(env: Env<P>, es: seq<Event<P>>, e: Event<P>, b: Ballot<P>)
    requires EnvOk(env)
    ensures Electors(env, es + [e], b) == Electors(env, es, b) + (if Votes(Run(env, Init(), es), e, b) then {e.sender} else {})
  {
    var all := es + [e];
    forall x ensures VotedBy(env, all, x, b) <==> VotedBy(env, es, x, b) || (Votes(Run(env, Init(), es), e, b) && e.sender == x) {
      forall i | 0 <= i < |es| ensures VotedAt(env, all, i, x, b) <==> VotedAt(env, es, i, x, b) {
        assert all[..i] == es[..i] && all[i] == es[i];
      }
      assert all[..|es|] == es && all[|es|] == e;
      assert VotedAt(env, all, |es|, x, b) <==> Votes(Run(env, Init(), es), e, b) && e.sender == x;
      if i :| VotedAt(env, es, i, x, b) {
        assert VotedAt(env, all, i, x, b);
      }
    }
  }

  // ----- one step

  /** The sender an effect adds to the tally of b. */
  ghost function Added<P>(f: Effect<P>, b: Ballot<P>): set<Node> {
    match f
    case FreezeVoted(mid, sender) => if b == ForFreeze(mid) then {sender} else {}
    case SummaryVoted(mid, last, sender, _) => if b == ForSummary(mid, last) then {sender} else {}
    case KeyVoted(mid, key, sender, _) => if b == ForKey(mid, key) then {sender} else {}
    case _ => {}
  }

  ghost predicate Moves<P>(s: State<P>, s': State<P>, b: Ballot<P>, added: set<Node>) {
    Tally(s', b) == if Cleared(s', b) then {} else Tally(s, b) + added
  }

  lemma ThawMoves<P>(s: State<P>, mid: string, b: Ballot<P>)
    requires Cleared(s, b) ==> Tally(s, b) == {}
    ensures Moves(s, Thaw(s, mid), b, {})
  {
  }

  lemma SummaryTally<P>(s: State<P>, mid: string, last: nat, sender: Node, b: Ballot<P>)
    ensures var s1 := AddSummaryVote(s, mid, last, sender);
            s1.thawed == s.thawed && Tally(s1, b) == Tally(s, b) + if b == ForSummary(mid, last) then {sender} else {}
  {
  }

  lemma KeyTally<P>(s: State<P>, mid: string, key: KeyMapping<P>, sender: Node, b: Ballot<P>)
    ensures var s1 := AddKeyVote(s, mid, key, sender);
            s1.thawed == s.thawed && Tally(s1, b) == Tally(s, b) + if b == ForKey(mid, key) then {sender} else {}
  {
  }

  lemma SummaryVoteMoves<P>(s: State<P>, f: Effect<P>, b: Ballot<P>)
    requires f.SummaryVoted? && f.mid !in s.thawed && (Cleared(s, b) ==> Tally(s, b) == {})
    ensures Moves(s, Apply(s, f), b, Added(f, b))
  {
    var s1 := AddSummaryVote(s, f.mid, f.last, f.sender);
    SummaryTally(s, f.mid, f.last, f.sender, b);
    if f.confirmed {
      var s2 := ConfirmSummary(s1, f.mid, f.last);
      assert s2.thawed == s1.thawed && Tally(s2, b) == Tally(s1, b);
      ThawMoves(s2, f.mid, b);
    }
  }

  lemma KeyVoteMoves<P>(s: State<P>, f: Effect<P>, b: Ballot<P>)
    requires f.KeyVoted? && f.mid !in s.thawed && (Cleared(s, b) ==> Tally(s, b) == {})
    ensures Moves(s, Apply(s, f), b, Added(f, b))
  {
    var s1 := AddKeyVote(s, f.mid, f.m, f.sender);
    KeyTally(s, f.mid, f.m, f.sender, b);
    if f.confirmed {
      var s2 := ConfirmKey(s1, f.mid, f.m);
      assert s2.thawed == s1.thawed && Tally(s2, b) == Tally(s1, b);
      ThawMoves(s2, f.mid, b);
    }
  }

  lemma EffectMoves<P(!new)>(env: Env<P>, s: State<P>, f: Effect<P>, b: Ballot<P>)
    requires Legal(env, s, f) && (Cleared(s, b) ==> Tally(s, b) == {})
    ensures Moves(s, Apply(s, f), b, Added(f, b))
  {
    match f {
      case SummaryVoted(_, _, _, _) => SummaryVoteMoves(s, f, b);
      case KeyVoted(_, _, _, _) => KeyVoteMoves(s, f, b);
      case _ => OtherMoves(s, f, b);
    }
  }

  lemma OtherMoves<P>(s: State<P>, f: Effect<P>, b: Ballot<P>)
    requires !f.SummaryVoted? && !f.KeyVoted? && (Cleared(s, b) ==> Tally(s, b) == {})
    ensures Moves(s, Apply(s, f), b, Added(f, b))
  {
    OtherKeeps(s, f);
    SameTally(s, Apply(s, f), f, b);
  }

  lemma OtherKeeps<P>(s: State<P>, f: Effect<P>)
    requires !f.SummaryVoted? && !f.KeyVoted?
    ensures var s' := Apply(s, f);
            && s'.thawed == s.thawed && s'.summaries == s.summaries && s'.keyVotes == s.keyVotes
            && s'.freezes == if f.FreezeVoted? then s.freezes[f.mid := Voters(s.freezes, f.mid) + {f.sender}] else s.freezes
  {
  }

  lemma SameTally<P>(s: State<P>, s': State<P>, f: Effect<P>, b: Ballot<P>)
    requires !f.SummaryVoted? && !f.KeyVoted? && (Cleared(s, b) ==> Tally(s, b) == {})
    requires s'.thawed == s.thawed && s'.summaries == s.summaries && s'.keyVotes == s.keyVotes
    requires s'.freezes == if f.FreezeVoted? then s.freezes[f.mid := Voters(s.freezes, f.mid) + {f.sender}] else s.freezes
    ensures Moves(s, s', b, Added(f, b))
  {
  }

  /** A vote is added unless it was cast before. */
  lemma VoteAdds<P(!new)>(env: Env<P>, s: State<P>, e: Event<P>, b: Ballot<P>)
    requires EnvOk(env)
    ensures Tally(s, b) + Added(EffectOf(env, s, e), b) == Tally(s, b) + if Votes(s, e, b) then {e.sender} else {}
  {
    if e.Deliver? && (e.tx.Freeze? || e.tx.Summary? || e.tx.Key?) {
      VoteJudged(env, s, e);
      CastAdds(env, s, e.tx, e.sender, b);
    } else {
      OtherAddsNothing(env, s, e, b);
    }
  }

  lemma VoteJudged<P(!new)>(env: Env<P>, s: State<P>, e: Event<P>)
    requires EnvOk(env) && e.Deliver? && (e.tx.Freeze? || e.tx.Summary? || e.tx.Key?)
    ensures EffectOf(env, s, e) == JudgeVote(env, s, e.tx, e.sender)
  {
  }

  lemma CastAdds<P>(env: Env<P>, s: State<P>, tx: Tx<P>, sender: Node, b: Ballot<P>)
    requires tx.Freeze? || tx.Summary? || tx.Key?
    ensures Tally(s, b) + Added(JudgeVote(env, s, tx, sender), b) == Tally(s, b) + if Votes(s, Deliver(tx, sender), b) then {sender} else {}
  {
  }

  lemma OtherAddsNothing<P(!new)>(env: Env<P>, s: State<P>, e: Event<P>, b: Ballot<P>)
    requires EnvOk(env) && !(e.Deliver? && (e.tx.Freeze? || e.tx.Summary? || e.tx.Key?))
    ensures Added(EffectOf(env, s, e), b) == {} && !Votes(s, e, b)
  {
  }

  lemma StepTally<P(!new)>(env: Env<P>, s: State<P>, e: Event<P>, b: Ballot<P>)
    requires EnvOk(env) && (Cleared(s, b) ==> Tally(s, b) == {})
    ensures Moves(s, After(env, s, e), b, if Votes(s, e, b) then {e.sender} else {})
  {
    VoteAdds(env, s, e, b);
    if e.Deliver? {
      EffectMoves(env, s, EffectOf(env, s, e), b);
    }
  }

  // ----- every run

  lemma ThawedLater<P(!new)>(env: Env<P>, s: State<P>, e: Event<P>, mid: string)
    requires EnvOk(env) && mid in s.thawed
    ensures mid in After(env, s, e).thawed
  {
    StepGrows(env, s, e);
  }

  /** Over every run the chain holds exactly the senders that voted, except that the votes for the keys of a thawed mapping are
      cleared. */
  lemma {:induction false} TallyIs<P(!new)>(env: Env<P>, es: seq<Event<P>>, b: Ballot<P>)
    requires EnvOk(env)
    ensures var s := Run(env, Init(), es);
            Tally(s, b) == if Cleared(s, b) then {} else Electors(env, es, b)
  {
    if es == [] {
      assert forall x :: !VotedBy(env, es, x, b);
    } else {
      var n := |es| - 1;
      var before, e := es[..n], es[n];
      var s := Run(env, Init(), before);
      assert before + [e] == es;
      TallyIs(env, before, b);
      RunSnoc(env, Init(), before, e);
      StepTally(env, s, e, b);
      ElectorsMore(env, before, e, b);
      if Cleared(s, b) {
        ThawedLater(env, s, e, b.mid);
      }
    }
  }

  /** The chain is frozen exactly if K + T nodes have voted to freeze one mapping. */
  lemma FrozenIff<P(!new)>(env: Env<P>, es: seq<Event<P>>)
    requires EnvOk(env)
    ensures Frozen(env, Run(env, Init(), es)) <==> exists mid :: |Electors(env, es, ForFreeze(mid))| >= env.k + env.t
  {
    var s := Run(env, Init(), es);
    forall mid ensures Voters(s.freezes, mid) == Electors(env, es, ForFreeze(mid)) {
      TallyIs(env, es, ForFreeze(mid));
    }
    if mid :| |Electors(env, es, ForFreeze(mid))| >= env.k + env.t {
      assert Voters(s.freezes, mid) == Electors(env, es, ForFreeze(mid));
      assert mid in s.freezes;
    }
    if Frozen(env, s) {
      var mid :| mid in s.freezes && |s.freezes[mid]| >= env.k + env.t;
      assert |Electors(env, es, ForFreeze(mid))| >= env.k + env.t;
    }
  }

  /** A summary is confirmed exactly if K nodes have voted for one number of one mapping. */
  lemma SummaryConfirmedIff<P(!new)>(env: Env<P>, es: seq<Event<P>>)
    requires EnvOk(env)
    ensures SummaryConfirmed(env, Run(env, Init(), es)) <==> exists mid, last :: |Electors(env, es, ForSummary(mid, last))| >= env.k
  {
    var s := Run(env, Init(), es);
    forall mid, last: nat ensures Voters(SummaryVotes(s, mid), last) == Electors(env, es, ForSummary(mid, last)) {
      TallyIs(env, es, ForSummary(mid, last));
    }
    if mid, last :| |Electors(env, es, ForSummary(mid, last))| >= env.k {
      assert mid in s.summaries && last in s.summaries[mid];
    }
    if SummaryConfirmed(env, s) {
      var mid :| mid in s.summaries && ConfirmedIn(env.k, s.summaries[mid]);
      var last :| last in s.summaries[mid] && |s.summaries[mid][last]| >= env.k;
      assert |Electors(env, es, ForSummary(mid, last))| >= env.k;
    }
  }

  /** Hence, on the chain of a later epoch, when keys may be assigned: no mapping has K + T votes to freeze it, and some summary
      has K. */
  lemma MayAssignIff<P(!new)>(env: Env<P>, es: seq<Event<P>>)
    requires EnvOk(env)
    ensures MayAssign(env, Run(env, Init(), es)) <==>
            && (forall mid :: |Electors(env, es, ForFreeze(mid))| < env.k + env.t)
            && (env.waits ==> exists mid, last :: |Electors(env, es, ForSummary(mid, last))| >= env.k)
  {
    FrozenIff(env, es);
    SummaryConfirmedIff(env, es);
  }

  // ----- the K-th vote

  /** A vote for b by a node that had not voted for it makes K. */
  ghost predicate Completes<P(!new)>(env: Env<P>, es: seq<Event<P>>, e: Event<P>, b: Ballot<P>)
    requires EnvOk(env)
  {
    && Votes(Run(env, Init(), es), e, b) && e.sender !in Electors(env, es, b) && |Electors(env, es, b)| + 1 == env.k
  }

  lemma KeyVoteEffect<P(!new)>(env: Env<P>, s: State<P>, e: Event<P>)
    requires EnvOk(env) && e.Deliver? && e.tx.Key?
    ensures var f, b := EffectOf(env, s, e), ForKey(e.tx.mid, e.tx.key);
            && (f.KeyVoted? && f.confirmed <==> Votes(s, e, b) && e.sender !in Tally(s, b) && |Tally(s, b)| + 1 == env.k)
            && (f.KeyVoted? ==> f.m == e.tx.key) && (f.KeyVoted? || f.Nothing?)
  {
  }

  lemma KeyApplied<P>(s: State<P>, f: Effect<P>)
    requires f.KeyVoted? || f.Nothing?
    ensures var s' := Apply(s, f);
            if f.KeyVoted? && f.confirmed then f.m.index in s'.km && s'.km[f.m.index] == f.m else s'.km == s.km && s'.vt == s.vt
  {
    if f.KeyVoted? {
      KeyStored(AddKeyVote(s, f.mid, f.m, f.sender), f.mid, f.m);
    }
  }

  lemma KeyStored<P>(s: State<P>, mid: string, m: KeyMapping<P>)
    ensures var s' := Thaw(ConfirmKey(s, mid, m), mid); m.index in s'.km && s'.km[m.index] == m
  {
  }

  /** Over every run: the K-th node that votes for a key stores it, and no other vote for the key touches the store. */
  lemma KeyStoredIff<P(!new)>(env: Env<P>, es: seq<Event<P>>, e: Event<P>)
    requires EnvOk(env) && e.Deliver? && e.tx.Key?
    ensures var s, s', m := Run(env, Init(), es), Run(env, Init(), es + [e]), e.tx.key;
            if Completes(env, es, e, ForKey(e.tx.mid, m)) then m.index in s'.km && s'.km[m.index] == m
            else s'.km == s.km && s'.vt == s.vt
  {
    var s, b := Run(env, Init(), es), ForKey(e.tx.mid, e.tx.key);
    RunSnoc(env, Init(), es, e);
    TallyIs(env, es, b);
    KeyVoteEffect(env, s, e);
    KeyApplied(s, EffectOf(env, s, e));
  }

  lemma SummaryVoteEffect<P(!new)>(env: Env<P>, s: State<P>, e: Event<P>)
    requires EnvOk(env) && e.Deliver? && e.tx.Summary?
    ensures var f, b := EffectOf(env, s, e), ForSummary(e.tx.mid, e.tx.last);
            && (f.SummaryVoted? && f.confirmed <==> Votes(s, e, b) && e.sender !in Tally(s, b) && |Tally(s, b)| + 1 == env.k)
            && (f.SummaryVoted? ==> f.last == e.tx.last) && (f.SummaryVoted? || f.Nothing?)
  {
  }

  lemma SummaryApplied<P>(s: State<P>, f: Effect<P>)
    requires f.SummaryVoted? || f.Nothing?
    ensures var s' := Apply(s, f);
            if f.SummaryVoted? && f.confirmed
            then s'.lastUnassigned == f.last && s'.lastCreated == if s.lastCreated < f.last then f.last else s.lastCreated
            else s'.lastUnassigned == s.lastUnassigned && s'.lastCreated == s.lastCreated
  {
    if f.SummaryVoted? {
      SummarySets(AddSummaryVote(s, f.mid, f.last, f.sender), f.mid, f.last);
    }
  }

  lemma SummarySets<P>(s: State<P>, mid: string, last: nat)
    ensures var s' := Thaw(ConfirmSummary(s, mid, last), mid);
            s'.lastUnassigned == last && s'.lastCreated == if s.lastCreated < last then last else s.lastCreated
  {
  }

  /** Over every run: the K-th node that votes for a summary moves the chain to it, and no other vote for it moves the chain. */
  lemma SummarySetsIff<P(!new)>(env: Env<P>, es: seq<Event<P>>, e: Event<P>)
    requires EnvOk(env) && e.Deliver? && e.tx.Summary?
    ensures var s, s', last := Run(env, Init(), es), Run(env, Init(), es + [e]), e.tx.last;
            if Completes(env, es, e, ForSummary(e.tx.mid, last))
            then s'.lastUnassigned == last && s'.lastCreated == if s.lastCreated < last then last else s.lastCreated
            else s'.lastUnassigned == s.lastUnassigned && s'.lastCreated == s.lastCreated
  {
    var s, b := Run(env, Init(), es), ForSummary(e.tx.mid, e.tx.last);
    RunSnoc(env, Init(), es, e);
    TallyIs(env, es, b);
    SummaryVoteEffect(env, s, e);
    SummaryApplied(s, EffectOf(env, s, e));
  }
}
