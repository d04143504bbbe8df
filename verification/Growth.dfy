/** What no transaction takes back: decisions, votes and thaws. */
module Growth {
  import opened Ledger

  ghost predicate FreezeGrows<P>(s: State<P>, s': State<P>, mid: string) {
    Voters(s.freezes, mid) <= Voters(s'.freezes, mid)
  }

  ghost predicate SummaryGrows<P>(s: State<P>, s': State<P>, mid: string, x: nat) {
    Voters(SummaryVotes(s, mid), x) <= Voters(SummaryVotes(s', mid), x)
  }

  ghost predicate KeyGrows<P>(s: State<P>, s': State<P>, mid: string, x: KeyMapping<P>) {
    mid in s'.thawed || Voters(KeyVotes(s, mid), x) <= Voters(KeyVotes(s', mid), x)
  }

  /** A decided key generation keeps its entry or loses it for good; a known key stays known. */
  ghost predicate KeygenGrows<P>(env: Env<P>, s: State<P>, s': State<P>, d: string) {
    && (d in s.keygenDecisions && d in s'.pubKeys ==>
          d in s.pubKeys && (s.pubKeys[d].gs != env.g.zero ==> s'.pubKeys[d] == s.pubKeys[d]))
    && (d in s'.pubKeys ==> d in s.pubKeys || d in s'.keygenDecisions)
  }

  ghost predicate VotesGrow<P(!new)>(s: State<P>, s': State<P>) {
    && s.thawed <= s'.thawed
    && (forall mid {:trigger FreezeGrows(s, s', mid)} :: FreezeGrows(s, s', mid))
    && (forall mid, x {:trigger SummaryGrows(s, s', mid, x)} :: SummaryGrows(s, s', mid, x))
    && (forall mid, x {:trigger KeyGrows(s, s', mid, x)} :: KeyGrows(s, s', mid, x))
  }

  ghost predicate DecisionsGrow<P>(env: Env<P>, s: State<P>, s': State<P>) {
    && s.pssDecisions <= s'.pssDecisions && s.keygenDecisions <= s'.keygenDecisions
    && forall d {:trigger KeygenGrows(env, s, s', d)} :: KeygenGrows(env, s, s', d)
  }

  lemma ThawVotes<P(!new)>(s: State<P>, s1: State<P>, mid: string)
    requires VotesGrow(s, s1)
    ensures VotesGrow(s, Thaw(s1, mid))
  {
    var s' := Thaw(s1, mid);
    forall m ensures FreezeGrows(s, s', m) {
      assert FreezeGrows(s, s1, m);
    }
    forall m, x ensures SummaryGrows(s, s', m, x) {
      assert SummaryGrows(s, s1, m, x);
    }
    forall m, x ensures KeyGrows(s, s', m, x) {
      assert KeyGrows(s, s1, m, x);
    }
  }

  lemma SameVotes<P(!new)>(s: State<P>, s1: State<P>, s': State<P>)
    requires VotesGrow(s, s1)
    requires s'.freezes == s1.freezes && s'.summaries == s1.summaries && s'.keyVotes == s1.keyVotes && s'.thawed == s1.thawed
    ensures VotesGrow(s, s')
  {
    forall m ensures FreezeGrows(s, s', m) {
      assert FreezeGrows(s, s1, m);
    }
    forall m, x ensures SummaryGrows(s, s', m, x) {
      assert SummaryGrows(s, s1, m, x);
    }
    forall m, x ensures KeyGrows(s, s', m, x) {
      assert KeyGrows(s, s1, m, x);
    }
  }

  lemma VotesGrowSelf<P(!new)>(s: State<P>)
    ensures VotesGrow(s, s)
  {
  }

  lemma SummaryVotesGrow<P(!new)>(s: State<P>, mid: string, last: nat, sender: Node)
    ensures VotesGrow(s, AddSummaryVote(s, mid, last, sender))
  {
  }

  lemma KeyVotesGrow<P(!new)>(s: State<P>, mid: string, m: KeyMapping<P>, sender: Node)
    ensures VotesGrow(s, AddKeyVote(s, mid, m, sender))
  {
  }

  lemma FreezeVotesGrow<P(!new)>(s: State<P>, mid: string, sender: Node)
    ensures VotesGrow(s, Apply(s, FreezeVoted(mid, sender)))
  {
  }

  lemma SummaryVoteGrows<P(!new)>(s: State<P>, mid: string, last: nat, sender: Node, confirmed: bool)
    ensures VotesGrow(s, Apply(s, SummaryVoted(mid, last, sender, confirmed)))
  {
    var s1 := AddSummaryVote(s, mid, last, sender);
    SummaryVotesGrow(s, mid, last, sender);
    if confirmed {
      SameVotes(s, s1, ConfirmSummary(s1, mid, last));
      ThawVotes(s, ConfirmSummary(s1, mid, last), mid);
    }
  }

  lemma KeyVoteGrows<P(!new)>(s: State<P>, mid: string, m: KeyMapping<P>, sender: Node, confirmed: bool)
    ensures VotesGrow(s, Apply(s, KeyVoted(mid, m, sender, confirmed)))
  {
    var s1 := AddKeyVote(s, mid, m, sender);
    KeyVotesGrow(s, mid, m, sender);
    if confirmed {
      SameVotes(s, s1, ConfirmKey(s1, mid, m));
      ThawVotes(s, ConfirmKey(s1, mid, m), mid);
    }
  }

  /** Votes and thaws only accumulate. */
  lemma VotesAccumulate<P(!new)>(s: State<P>, f: Effect<P>)
    ensures VotesGrow(s, Apply(s, f))
  {
    match f {
      case FreezeVoted(mid, sender) =>
        FreezeVotesGrow(s, mid, sender);
      case SummaryVoted(mid, last, sender, confirmed) => SummaryVoteGrows(s, mid, last, sender, confirmed);
      case KeyVoted(mid, m, sender, confirmed) => KeyVoteGrows(s, mid, m, sender, confirmed);
      case _ => OtherVotes(s, f);
    }
  }

  lemma OtherVotes<P(!new)>(s: State<P>, f: Effect<P>)
    requires !f.FreezeVoted? && !f.SummaryVoted? && !f.KeyVoted?
    ensures VotesGrow(s, Apply(s, f))
  {
    VotesGrowSelf(s);
    SameVotes(s, s, Apply(s, f));
  }

  lemma ClosedKeygen<P>(env: Env<P>, s: State<P>, s': State<P>, d: string)
    requires s'.pubKeys == s.pubKeys - {d} && s'.keygenDecisions == s.keygenDecisions && s'.pssDecisions == s.pssDecisions
    ensures DecisionsGrow(env, s, s')
  {
  }

  lemma OpenedKeygen<P>(env: Env<P>, s: State<P>, s': State<P>, d: string, entry: PubKey<P>)
    requires d !in s.keygenDecisions || (d in s.pubKeys && s.pubKeys[d].gs == env.g.zero)
    requires s'.pubKeys == s.pubKeys[d := entry] && s'.pssDecisions == s.pssDecisions
    requires s.keygenDecisions <= s'.keygenDecisions && (d in s.pubKeys || d in s'.keygenDecisions)
    ensures DecisionsGrow(env, s, s')
  {
  }

  lemma SameKeygens<P>(env: Env<P>, s: State<P>, s': State<P>)
    requires s'.pubKeys == s.pubKeys && s'.keygenDecisions == s.keygenDecisions && s.pssDecisions <= s'.pssDecisions
    ensures DecisionsGrow(env, s, s')
  {
  }

  /** Decisions only accumulate, and no key generation is opened twice. */
  lemma DecisionsAccumulate<P>(env: Env<P>, s: State<P>, f: Effect<P>)
    requires Legal(env, s, f)
    ensures DecisionsGrow(env, s, Apply(s, f))
  {
    match f {
      case KeyAssigned(_, _, _) => AssignedCloses(env, s, f);
      case KeygenDecided(_, _, _) => DecidedOpens(env, s, f);
      case KeyPublished(_, _, _) => PublishedKeeps(env, s, f);
      case _ => OtherDecisions(env, s, f);
    }
  }

  lemma AssignedCloses<P>(env: Env<P>, s: State<P>, f: Effect<P>)
    requires f.KeyAssigned?
    ensures DecisionsGrow(env, s, Apply(s, f))
  {
    ClosedKeygen(env, s, Apply(s, f), f.dkgID);
  }

  lemma DecidedOpens<P>(env: Env<P>, s: State<P>, f: Effect<P>)
    requires f.KeygenDecided? && f.dkgID !in s.keygenDecisions
    ensures DecisionsGrow(env, s, Apply(s, f))
  {
    OpenedKeygen(env, s, Apply(s, f), f.dkgID, PubKey(f.gshs, f.none));
  }

  lemma PublishedKeeps<P>(env: Env<P>, s: State<P>, f: Effect<P>)
    requires f.KeyPublished? && f.dkgID in s.pubKeys && s.pubKeys[f.dkgID].gs == env.g.zero
    ensures DecisionsGrow(env, s, Apply(s, f))
  {
    OpenedKeygen(env, s, Apply(s, f), f.dkgID, s.pubKeys[f.dkgID].(gs := f.gs));
  }

  lemma OtherDecisions<P>(env: Env<P>, s: State<P>, f: Effect<P>)
    requires !f.KeyAssigned? && !f.KeygenDecided? && !f.KeyPublished?
    ensures DecisionsGrow(env, s, Apply(s, f))
  {
    match f {
      case SummaryVoted(mid, last, sender, confirmed) => SummaryDecides(env, s, mid, last, sender, confirmed);
      case KeyVoted(mid, m, sender, confirmed) => KeyDecides(env, s, mid, m, sender, confirmed);
      case _ => SameKeygens(env, s, Apply(s, f));
    }
  }

  lemma SummaryDecides<P>(env: Env<P>, s: State<P>, mid: string, last: nat, sender: Node, confirmed: bool)
    ensures DecisionsGrow(env, s, Apply(s, SummaryVoted(mid, last, sender, confirmed)))
  {
    SameKeygens(env, s, Apply(s, SummaryVoted(mid, last, sender, confirmed)));
  }

  lemma KeyDecides<P>(env: Env<P>, s: State<P>, mid: string, m: KeyMapping<P>, sender: Node, confirmed: bool)
    ensures DecisionsGrow(env, s, Apply(s, KeyVoted(mid, m, sender, confirmed)))
  {
    SameKeygens(env, s, Apply(s, KeyVoted(mid, m, sender, confirmed)));
  }

  lemma StepGrows<P(!new)>(env: Env<P>, s: State<P>, e: Event<P>)
    requires EnvOk(env)
    ensures VotesGrow(s, After(env, s, e)) && DecisionsGrow(env, s, After(env, s, e))
  {
    var f := EffectOf(env, s, e);
    VotesAccumulate(s, f);
    DecisionsAccumulate(env, s, f);
    SameVotes(s, Apply(s, f), After(env, s, e));
  }
}
