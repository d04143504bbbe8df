/** The read-only check made before a transaction enters the pool, against delivery. */
module PreCheck {
  import opened Ids
  import opened Ledger
  import opened Growth
  import opened Freezing

  /** `validateTx`. The pool works on the state of the last commit (lag), but the freeze and summary
      scans and the key store belong to the running state (now). */
  ghost predicate Accepts<P(!new)>(env: Env<P>, now: State<P>, lag: State<P>, tx: Tx<P>, sender: Node)
    requires EnvOk(env)
  {
    match tx
    case Assign(_, _) => MayAssign(env, now) && lag.lastUnassigned < lag.lastCreated
    case KeygenPropose(_, _, _) => ProposeOk(env, lag, tx)
    case KeygenPubKey(_, _) => PubKeyOk(env, lag, tx)
    case PssPropose(_, _, _) => PssOk(env, lag, tx)
    case Freeze(mid, proposed) => mid !in lag.thawed && sender !in Voters(lag.freezes, proposed)
    case Summary(mid, last) => mid !in lag.thawed && sender !in Voters(SummaryVotes(lag, mid), last)
    case Key(mid, key) => mid !in lag.thawed && sender !in Voters(KeyVotes(lag, mid), key)
    case UpdateKey(_, _, _) => UpdateOk(env, now, tx)
    case Unknown => false
  }

  /** The two refusals that only delivery makes: no usable key for the index, an unreadable key id. */
  predicate OnlyAtDelivery<P>(env: Env<P>, s: State<P>, tx: Tx<P>) {
    || (tx.Assign? && s.failed != MaxFailedPubKeyAssigns && env.blank(KeyAt(env, s, s.lastUnassigned)))
    || (tx.KeygenPubKey? && DKGIndex(tx.dkgID).None?)
  }

  /** On one state, delivery accepts exactly what the pre-check accepts, less those two refusals. */
  lemma PreCheckRefined<P(!new)>(env: Env<P>, s: State<P>, tx: Tx<P>, sender: Node)
    requires EnvOk(env)
    ensures Step(env, s, tx, sender).ok <==> Accepts(env, s, s, tx, sender) && !OnlyAtDelivery(env, s, tx)
  {
  }

  /** Already decided, already voted, already thawed. */
  predicate Late<P>(env: Env<P>, s: State<P>, tx: Tx<P>, sender: Node) {
    match tx
    case KeygenPropose(d, _, _) => d in s.keygenDecisions
    case KeygenPubKey(d, _) => d in s.pubKeys && s.pubKeys[d].gs != env.g.zero
    case PssPropose(id, _, _) => id in s.pssDecisions
    case Freeze(mid, proposed) => mid in s.thawed || sender in Voters(s.freezes, proposed)
    case Summary(mid, last) => mid in s.thawed || sender in Voters(SummaryVotes(s, mid), last)
    case Key(mid, key) => mid in s.thawed || sender in Voters(KeyVotes(s, mid), key)
    case _ => false
  }

  /** What becomes of lateness: a key that was published may since have been assigned and removed. */
  predicate Dead<P>(env: Env<P>, s: State<P>, tx: Tx<P>, sender: Node) {
    if tx.KeygenPubKey? then
      tx.dkgID in s.keygenDecisions && (tx.dkgID in s.pubKeys ==> s.pubKeys[tx.dkgID].gs != env.g.zero)
    else Late(env, s, tx, sender)
  }

  lemma DeadStays<P(!new)>(env: Env<P>, s: State<P>, s': State<P>, tx: Tx<P>, sender: Node)
    requires VotesGrow(s, s') && DecisionsGrow(env, s, s') && Dead(env, s, tx, sender)
    ensures Dead(env, s', tx, sender)
  {
    match tx {
      case KeygenPubKey(d, _) => assert KeygenGrows(env, s, s', d);
      case Freeze(_, proposed) => assert FreezeGrows(s, s', proposed);
      case Summary(mid, last) => assert SummaryGrows(s, s', mid, last);
      case Key(mid, key) => assert KeyGrows(s, s', mid, key);
      case _ =>
    }
  }

  lemma DecidedKept<P(!new)>(env: Env<P>, s: State<P>, e: Event<P>)
    requires EnvOk(env) && s.pubKeys.Keys <= s.keygenDecisions
    ensures After(env, s, e).pubKeys.Keys <= After(env, s, e).keygenDecisions
  {
    StepGrows(env, s, e);
    var s' := After(env, s, e);
    forall d | d in s'.pubKeys ensures d in s'.keygenDecisions {
      assert KeygenGrows(env, s, s', d);
    }
  }

  /** A late transaction is refused in every later state, by delivery and by the pre-check. */
  lemma {:induction false} LateStaysRefused<P(!new)>(env: Env<P>, lag: State<P>, es: seq<Event<P>>, tx: Tx<P>, sender: Node)
    requires EnvOk(env) && lag.pubKeys.Keys <= lag.keygenDecisions
    requires Late(env, lag, tx, sender) || Dead(env, lag, tx, sender)
    ensures var s := Run(env, lag, es);
            !Step(env, s, tx, sender).ok && !Accepts(env, s, s, tx, sender)
    decreases |es|
  {
    if es != [] {
      DecidedKept(env, lag, es[0]);
      StepGrows(env, lag, es[0]);
      DeadStays(env, lag, After(env, lag, es[0]), tx, sender);
      LateStaysRefused(env, After(env, lag, es[0]), es[1..], tx, sender);
    }
  }

  lemma {:induction false} RunDecides<P(!new)>(env: Env<P>, s: State<P>, es: seq<Event<P>>)
    requires EnvOk(env) && s.pubKeys.Keys <= s.keygenDecisions
    ensures Run(env, s, es).pubKeys.Keys <= Run(env, s, es).keygenDecisions
    decreases |es|
  {
    if es != [] {
      DecidedKept(env, s, es[0]);
      RunDecides(env, After(env, s, es[0]), es[1..]);
    }
  }

  /** The pool's state is an earlier state of the run: refusing on it never refuses too much. */
  lemma LaggingRefusalIsFinal<P(!new)>(env: Env<P>, committed: seq<Event<P>>, since: seq<Event<P>>, tx: Tx<P>, sender: Node)
    requires EnvOk(env) && Late(env, Run(env, Init(), committed), tx, sender)
    ensures !Step(env, Run(env, Run(env, Init(), committed), since), tx, sender).ok
  {
    RunDecides(env, Init(), committed);
    LateStaysRefused(env, Run(env, Init(), committed), since, tx, sender);
  }

  // ----- which state the pool reads

  /** A vote or a decision enters the pool exactly if delivery on the committed state would accept it, apart from an unreadable
      key id; a dealer update exactly if delivery on the running state would; an assignment exactly if the running chain may assign
      and the committed one has an index left. */
  lemma PoolReads<P(!new)>(env: Env<P>, now: State<P>, lag: State<P>, tx: Tx<P>, sender: Node)
    requires EnvOk(env)
    ensures var ok := Accepts(env, now, lag, tx, sender);
            match tx
            case Assign(_, _) => ok <==> !Frozen(env, now) && (env.waits ==> SummaryConfirmed(env, now)) && lag.lastUnassigned < lag.lastCreated
            case UpdateKey(_, _, _) => ok <==> Step(env, now, tx, sender).ok
            case KeygenPubKey(d, _) => ok && DKGIndex(d).Some? <==> Step(env, lag, tx, sender).ok
            case _ => ok <==> Step(env, lag, tx, sender).ok
  {
    PreCheckRefined(env, lag, tx, sender);
    PreCheckRefined(env, now, tx, sender);
  }

  /** After a freeze in the running state no assignment enters the pool, whatever was committed. */
  lemma {:induction false} FrozenPoolRefuses<P(!new)>(env: Env<P>, s: State<P>, es: seq<Event<P>>, lag: State<P>, tx: Tx<P>, sender: Node)
    requires EnvOk(env) && Frozen(env, s) && tx.Assign?
    ensures !Accepts(env, Run(env, s, es), lag, tx, sender)
    decreases |es|
  {
    if es != [] {
      StepGrows(env, s, es[0]);
      FrozenStays(env, s, After(env, s, es[0]));
      FrozenPoolRefuses(env, After(env, s, es[0]), es[1..], lag, tx, sender);
    }
  }

  /** A vote or a decision that the committed state has already seen is refused by the pool whatever the running state, and would
      be refused by delivery on every state since. */
  lemma LateIsRefusedTwice<P(!new)>(env: Env<P>, committed: seq<Event<P>>, since: seq<Event<P>>, now: State<P>, tx: Tx<P>, sender: Node)
    requires EnvOk(env) && Late(env, Run(env, Init(), committed), tx, sender)
    ensures !Accepts(env, now, Run(env, Init(), committed), tx, sender)
    ensures !Step(env, Run(env, Run(env, Init(), committed), since), tx, sender).ok
  {
    LaggingRefusalIsFinal(env, committed, since, tx, sender);
  }
}
