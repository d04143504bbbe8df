/** Freezing the mapping before a migration: nothing is assigned once enough nodes have proposed it. */
module Freezing {
  import opened Sets
  import opened Ledger
  import opened Growth

  ghost predicate Confirms<P>(f: Effect<P>) { f.SummaryVoted? && f.confirmed }

  /** No step of the run confirms a summary. */
  ghost predicate NoneConfirmed<P(!new)>(env: Env<P>, s: State<P>, es: seq<Event<P>>)
    requires EnvOk(env)
    decreases |es|
  {
    es == [] || (!Confirms(EffectOf(env, s, es[0])) && NoneConfirmed(env, After(env, s, es[0]), es[1..]))
  }

  lemma FrozenStays<P(!new)>(env: Env<P>, s: State<P>, s': State<P>)
    requires env.k >= 1 && Frozen(env, s) && VotesGrow(s, s')
    ensures Frozen(env, s')
  {
    var m :| m in s.freezes && |s.freezes[m]| >= env.k + env.t;
    assert FreezeGrows(s, s', m);
    SubsetSize(Voters(s.freezes, m), Voters(s'.freezes, m));
  }

  lemma FrozenAssignsNothing<P(!new)>(env: Env<P>, s: State<P>, e: Event<P>)
    requires EnvOk(env) && Frozen(env, s)
    ensures var f := EffectOf(env, s, e); !f.KeyAssigned? && !f.BufferDropped? && !f.KeyMissing?
  {
  }

  lemma IndexMoves<P>(s: State<P>, f: Effect<P>)
    requires !f.KeyAssigned? && !f.BufferDropped? && !Confirms(f)
    ensures Apply(s, f).lastUnassigned == s.lastUnassigned
  {
  }

  /** Frozen means frozen: until a summary is confirmed the next free index does not move, whatever is
      delivered, so reading it late gives the value it had at the freeze. */
  lemma {:induction false} FreezeIsStable<P(!new)>(env: Env<P>, s: State<P>, es: seq<Event<P>>)
    requires EnvOk(env) && Frozen(env, s) && NoneConfirmed(env, s, es)
    ensures Run(env, s, es).lastUnassigned == s.lastUnassigned && Frozen(env, Run(env, s, es))
    decreases |es|
  {
    if es != [] {
      FrozenAssignsNothing(env, s, es[0]);
      IndexMoves(s, EffectOf(env, s, es[0]));
      StepGrows(env, s, es[0]);
      FrozenStays(env, s, After(env, s, es[0]));
      FreezeIsStable(env, After(env, s, es[0]), es[1..]);
    }
  }

  /** No step confirms a migration message or updates a key. */
  ghost predicate Undisturbed<P(!new)>(env: Env<P>, s: State<P>, es: seq<Event<P>>)
    requires EnvOk(env)
    decreases |es|
  {
    es == [] ||
    (var f := EffectOf(env, s, es[0]);
     !Confirms(f) && !(f.KeyVoted? && f.confirmed) && !f.KeyUpdated? && Undisturbed(env, After(env, s, es[0]), es[1..]))
  }

  lemma MappingMoves<P>(s: State<P>, f: Effect<P>)
    requires !f.KeyAssigned? && !f.BufferDropped? && !f.KeyUpdated? && !Confirms(f) && !(f.KeyVoted? && f.confirmed)
    ensures Apply(s, f).km == s.km && Apply(s, f).lastUnassigned == s.lastUnassigned
  {
  }

  /** A frozen chain that is not itself migrated into and sees no dealer update keeps its key mappings, so whenever an old node
      reads them it reads the same. */
  lemma {:induction false} FrozenMappingFixed<P(!new)>(env: Env<P>, s: State<P>, es: seq<Event<P>>)
    requires EnvOk(env) && Frozen(env, s) && Undisturbed(env, s, es)
    ensures Run(env, s, es).km == s.km && Run(env, s, es).lastUnassigned == s.lastUnassigned
    decreases |es|
  {
    if es != [] {
      FrozenAssignsNothing(env, s, es[0]);
      MappingMoves(s, EffectOf(env, s, es[0]));
      StepGrows(env, s, es[0]);
      FrozenStays(env, s, After(env, s, es[0]));
      FrozenMappingFixed(env, After(env, s, es[0]), es[1..]);
    }
  }

  /** No assignment is accepted after a freeze, confirmed summary or not. */
  lemma {:induction false} FrozenRefusesAssignment<P(!new)>(env: Env<P>, s: State<P>, es: seq<Event<P>>, tx: Tx<P>, sender: Node)
    requires EnvOk(env) && Frozen(env, s) && tx.Assign?
    ensures Step(env, Run(env, s, es), tx, sender) == Outcome(Run(env, s, es), false)
    decreases |es|
  {
    if es != [] {
      StepGrows(env, s, es[0]);
      FrozenStays(env, s, After(env, s, es[0]));
      FrozenRefusesAssignment(env, After(env, s, es[0]), es[1..], tx, sender);
    }
  }

  // ----- the trigger

  ghost predicate Reached<P>(env: Env<P>, s: State<P>, mid: string) {
    |Voters(s.freezes, mid)| >= env.k + env.t
  }

  /** The vote that brings the count to K + T starts the migration. */
  ghost predicate Fires<P>(env: Env<P>, s: State<P>, f: Effect<P>, mid: string) {
    f.FreezeVoted? && f.mid == mid && |Voters(s.freezes, mid) + {f.sender}| == env.k + env.t
  }

  ghost function Firings<P(!new)>(env: Env<P>, s: State<P>, es: seq<Event<P>>, mid: string): nat
    requires EnvOk(env)
    decreases |es|
  {
    if es == [] then 0
    else (if Fires(env, s, EffectOf(env, s, es[0]), mid) then 1 else 0) + Firings(env, After(env, s, es[0]), es[1..], mid)
  }

  lemma FreezesOnlyByVote<P>(s: State<P>, f: Effect<P>)
    requires !f.FreezeVoted?
    ensures Apply(s, f).freezes == s.freezes
  {
    match f {
      case KeyVoted(mid, m, sender, _) => assert ConfirmKey(AddKeyVote(s, mid, m, sender), mid, m).freezes == s.freezes;
      case _ =>
    }
  }

  lemma FiresAtThreshold<P>(env: Env<P>, s: State<P>, f: Effect<P>, mid: string)
    requires env.k >= 1 && Legal(env, s, f)
    ensures Fires(env, s, f, mid) <==> !Reached(env, s, mid) && Reached(env, Apply(s, f), mid)
    ensures Reached(env, s, mid) ==> Reached(env, Apply(s, f), mid)
  {
    if !f.FreezeVoted? {
      FreezesOnlyByVote(s, f);
    }
  }

  lemma FiresInStep<P(!new)>(env: Env<P>, s: State<P>, e: Event<P>, mid: string)
    requires EnvOk(env)
    ensures Fires(env, s, EffectOf(env, s, e), mid) <==> !Reached(env, s, mid) && Reached(env, After(env, s, e), mid)
    ensures Reached(env, s, mid) ==> Reached(env, After(env, s, e), mid)
  {
    FiresAtThreshold(env, s, EffectOf(env, s, e), mid);
  }

  /** Over any run the trigger fires at most once per mapping, and exactly once if its votes get to K + T. */
  lemma {:induction false} TriggerFiresOnce<P(!new)>(env: Env<P>, s: State<P>, es: seq<Event<P>>, mid: string)
    requires EnvOk(env)
    ensures Firings(env, s, es, mid) == if !Reached(env, s, mid) && Reached(env, Run(env, s, es), mid) then 1 else 0
    ensures Reached(env, s, mid) ==> Reached(env, Run(env, s, es), mid)
    decreases |es|
  {
    if es != [] {
      FiresInStep(env, s, es[0], mid);
      TriggerFiresOnce(env, After(env, s, es[0]), es[1..], mid);
    }
  }
}
