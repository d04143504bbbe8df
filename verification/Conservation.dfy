/** Created keys are conserved: each is counted once, then held or assigned. */
module Conservation {
  import opened Modular
  import opened Curve
  import opened Polynomials
  import opened Lagrange
  import opened Nizk
  import opened Ids
  import opened Ledger
  import opened PreCheck

  /** Key generations whose public key is known and not yet assigned. */
  ghost function Held<P>(env: Env<P>, s: State<P>): set<string> {
    set d | d in s.pubKeys && s.pubKeys[d].gs != env.g.zero
  }

  function One(b: bool): int { if b then 1 else 0 }

  /** Where the count of created keys parts from the keys held: a zero key is counted and not held, an
      unreadable identifier is held and not counted, and a confirmed summary may raise the count. */
  ghost function Drift<P>(env: Env<P>, s: State<P>, f: Effect<P>): int {
    match f
    case KeyPublished(_, gs, counted) => One(counted) - One(gs != env.g.zero)
    case SummaryVoted(_, last, _, confirmed) => if confirmed && s.lastCreated < last then last - s.lastCreated else 0
    case _ => 0
  }

  ghost function Assignments<P(!new)>(env: Env<P>, s: State<P>, es: seq<Event<P>>): nat
    requires EnvOk(env)
    decreases |es|
  {
    if es == [] then 0
    else One(EffectOf(env, s, es[0]).KeyAssigned?) + Assignments(env, After(env, s, es[0]), es[1..])
  }

  ghost function Drifts<P(!new)>(env: Env<P>, s: State<P>, es: seq<Event<P>>): int
    requires EnvOk(env)
    decreases |es|
  {
    if es == [] then 0
    else Drift(env, s, EffectOf(env, s, es[0])) + Drifts(env, After(env, s, es[0]), es[1..])
  }

  lemma HeldSame<P>(env: Env<P>, s: State<P>, s': State<P>)
    requires s'.pubKeys == s.pubKeys
    ensures Held(env, s') == Held(env, s)
  {
  }

  lemma PublishBalances<P>(env: Env<P>, s: State<P>, f: Effect<P>)
    requires f.KeyPublished? && Legal(env, s, f)
    ensures |Held(env, Apply(s, f))| == |Held(env, s)| + One(f.gs != env.g.zero)
  {
    var h, h' := Held(env, s), Held(env, Apply(s, f));
    assert f.dkgID !in h;
    assert h' == if f.gs != env.g.zero then h + {f.dkgID} else h;
  }

  lemma AssignBalances<P(!new)>(env: Env<P>, s: State<P>, f: Effect<P>)
    requires EnvOk(env) && f.KeyAssigned? && Legal(env, s, f)
    ensures |Held(env, Apply(s, f))| + 1 == |Held(env, s)|
  {
    var h, h' := Held(env, s), Held(env, Apply(s, f));
    assert f.dkgID in h && h' == h - {f.dkgID};
  }

  lemma DecideBalances<P>(env: Env<P>, s: State<P>, f: Effect<P>)
    requires f.KeygenDecided? && Legal(env, s, f) && s.pubKeys.Keys <= s.keygenDecisions
    ensures Held(env, Apply(s, f)) == Held(env, s)
  {
  }

  lemma SummaryBalances<P>(s: State<P>, f: Effect<P>)
    requires f.SummaryVoted?
    ensures Apply(s, f).pubKeys == s.pubKeys
    ensures Apply(s, f).lastCreated == if f.confirmed && s.lastCreated < f.last then f.last else s.lastCreated
  {
  }

  lemma OtherBalances<P>(s: State<P>, f: Effect<P>)
    requires !f.KeyPublished? && !f.KeyAssigned? && !f.KeygenDecided? && !f.SummaryVoted?
    ensures Apply(s, f).pubKeys == s.pubKeys && Apply(s, f).lastCreated == s.lastCreated
  {
  }

  lemma StepBalances<P(!new)>(env: Env<P>, s: State<P>, f: Effect<P>)
    requires EnvOk(env) && Legal(env, s, f) && s.pubKeys.Keys <= s.keygenDecisions
    ensures Apply(s, f).lastCreated - |Held(env, Apply(s, f))|
            == s.lastCreated - |Held(env, s)| + One(f.KeyAssigned?) + Drift(env, s, f)
  {
    match f {
      case KeyPublished(_, _, _) => PublishBalances(env, s, f);
      case KeyAssigned(_, _, _) => AssignBalances(env, s, f);
      case KeygenDecided(_, _, _) => DecideBalances(env, s, f);
      case SummaryVoted(_, _, _, _) => SummaryBalances(s, f); HeldSame(env, s, Apply(s, f));
      case _ => OtherBalances(s, f); HeldSame(env, s, Apply(s, f));
    }
  }

  lemma EventBalances<P(!new)>(env: Env<P>, s: State<P>, e: Event<P>)
    requires EnvOk(env) && s.pubKeys.Keys <= s.keygenDecisions
    ensures var s', f := After(env, s, e), EffectOf(env, s, e);
            s'.lastCreated - |Held(env, s')| == s.lastCreated - |Held(env, s)| + One(f.KeyAssigned?) + Drift(env, s, f)
  {
    var f := EffectOf(env, s, e);
    StepBalances(env, s, f);
    HeldSame(env, Apply(s, f), After(env, s, e));
  }

  /** Over every run: created = assigned + held + drift. */
  lemma {:induction false} CreatedKeysBalance<P(!new)>(env: Env<P>, s: State<P>, es: seq<Event<P>>)
    requires EnvOk(env) && s.pubKeys.Keys <= s.keygenDecisions
    ensures Run(env, s, es).lastCreated - |Held(env, Run(env, s, es))|
            == s.lastCreated - |Held(env, s)| + Assignments(env, s, es) + Drifts(env, s, es)
    decreases |es|
  {
    if es != [] {
      EventBalances(env, s, es[0]);
      DecidedKept(env, s, es[0]);
      CreatedKeysBalance(env, After(env, s, es[0]), es[1..]);
    }
  }

  /** No confirmed summary, no zero key, no unreadable identifier. */
  ghost predicate Steady<P(!new)>(env: Env<P>, s: State<P>, es: seq<Event<P>>)
    requires EnvOk(env)
    decreases |es|
  {
    es == [] ||
    (var f := EffectOf(env, s, es[0]);
     && (f.SummaryVoted? ==> !f.confirmed)
     && (f.KeyPublished? ==> f.gs != env.g.zero && f.counted)
     && Steady(env, After(env, s, es[0]), es[1..]))
  }

  lemma {:induction false} SteadyHasNoDrift<P(!new)>(env: Env<P>, s: State<P>, es: seq<Event<P>>)
    requires EnvOk(env) && Steady(env, s, es)
    ensures Drifts(env, s, es) == 0
    decreases |es|
  {
    if es != [] {
      SteadyHasNoDrift(env, After(env, s, es[0]), es[1..]);
    }
  }

  /** The count of created keys is the keys assigned plus the keys still held. */
  lemma CreatedKeysConserved<P(!new)>(env: Env<P>, es: seq<Event<P>>)
    requires EnvOk(env) && Steady(env, Init(), es)
    ensures Run(env, Init(), es).lastCreated == Assignments(env, Init(), es) + |Held(env, Run(env, Init(), es))|
  {
    SteadyHasNoDrift(env, Init(), es);
    CreatedKeysBalance(env, Init(), es);
    assert Held(env, Init<P>()) == {};
  }

  // ----- one key generation, one key

  /** Event e publishes a key for d and raises the count. */
  ghost predicate Raises<P(!new)>(env: Env<P>, s: State<P>, e: Event<P>, d: string)
    requires EnvOk(env)
  {
    var f := EffectOf(env, s, e);
    f.KeyPublished? && f.dkgID == d && f.counted
  }

  ghost predicate RaisesAfter<P(!new)>(env: Env<P>, s: State<P>, es: seq<Event<P>>, e: Event<P>, d: string)
    requires EnvOk(env)
  {
    Raises(env, Run(env, s, es), e, d)
  }

  lemma PublishedByPubKey<P(!new)>(env: Env<P>, s: State<P>, e: Event<P>)
    requires EnvOk(env) && EffectOf(env, s, e).KeyPublished?
    ensures e.Deliver? && e.tx.KeygenPubKey? && e.tx.dkgID == EffectOf(env, s, e).dkgID
    ensures EffectOf(env, s, e) == JudgePubKey(env, s, e.tx) && PubKeyOk(env, s, e.tx)
  {
  }

  lemma PublishedIsDead<P(!new)>(env: Env<P>, s: State<P>, e: Event<P>, tx: Tx<P>)
    requires EnvOk(env) && s.pubKeys.Keys <= s.keygenDecisions && EffectOf(env, s, e).KeyPublished?
    requires tx.KeygenPubKey? && tx.dkgID == EffectOf(env, s, e).dkgID && EffectOf(env, s, e).gs != env.g.zero
    ensures Late(env, After(env, s, e), tx, 0)
  {
  }

  /** The public key a transaction would publish: its points interpolated at zero. */
  ghost function KeyOf<P(!new)>(env: Env<P>, tx: Tx<P>): P
    requires EnvOk(env) && tx.KeygenPubKey?
  {
    AtZero(env.g, Indexes(tx.keyProofs), Gsis(tx.keyProofs))
  }

  /** After a transaction has raised the count for its key generation, some continuation raises it again for the same one
      exactly if the points of its proofs interpolate to the zero point. */
  lemma RaisedTwiceIff<P(!new)>(env: Env<P>, before: seq<Event<P>>, tx: Tx<P>, sender: Node)
    requires EnvOk(env) && tx.KeygenPubKey? && Raises(env, Run(env, Init(), before), Deliver(tx, sender), tx.dkgID)
    ensures var s1 := After(env, Run(env, Init(), before), Deliver(tx, sender));
            KeyOf(env, tx) == env.g.zero <==> exists es, e :: RaisesAfter(env, s1, es, e, tx.dkgID)
  {
    var s, e, d := Run(env, Init(), before), Deliver(tx, sender), tx.dkgID;
    var s1 := After(env, s, e);
    PublishedByPubKey(env, s, e);
    RunDecides(env, Init(), before);
    DecidedKept(env, s, e);
    if KeyOf(env, tx) == env.g.zero {
      ReplayAccepted(env, s, e);
      assert RaisesAfter(env, s1, [], e, d);
    } else {
      forall es, e' ensures !RaisesAfter(env, s1, es, e', d) {
        if RaisesAfter(env, s1, es, e', d) {
          PublishedByPubKey(env, Run(env, s1, es), e');
          PublishedIsDead(env, s, e, e'.tx);
          LateStaysRefused(env, s1, es, e'.tx, 0);
        }
      }
    }
  }

  lemma ReplayAccepted<P(!new)>(env: Env<P>, s: State<P>, e: Event<P>)
    requires EnvOk(env) && EffectOf(env, s, e).KeyPublished? && EffectOf(env, s, e).gs == env.g.zero
    ensures EffectOf(env, After(env, s, e), e) == EffectOf(env, s, e)
  {
    PublishedByPubKey(env, s, e);
    assert After(env, s, e).pubKeys == s.pubKeys;
  }

  /** A published key is the decided commitment up to a multiple of H, if each proof shows points s*G and
      s*G + r*H. */
  lemma PublishedKeyIsCommitted<P(!new)>(env: Env<P>, s: State<P>, e: Event<P>, ss: seq<int>, rs: seq<int>)
    requires EnvOk(env) && EffectOf(env, s, e).KeyPublished?
    requires e.Deliver? && e.tx.KeygenPubKey? && |ss| == |rs| == |e.tx.keyProofs|
    requires forall i :: 0 <= i < |ss| ==> e.tx.keyProofs[i].gsi == env.g.mul(ss[i], env.g.G)
                                           && e.tx.keyProofs[i].gsihsi == env.g.Commit(ss[i], rs[i])
    ensures var s', d := After(env, s, e), e.tx.dkgID;
            d in s'.pubKeys && exists r :: env.g.add(s'.pubKeys[d].gs, env.g.mul(r, env.g.H)) == s'.pubKeys[d].gshs
  {
    var ps := e.tx.keyProofs;
    PublishedByPubKey(env, s, e);
    PublicKeyTiedToCommitment(env.g, Indexes(ps), ss, rs, Gsis(ps), Pedersens(ps));
    var r := Dot(Lambdas(env.g.q, Indexes(ps), 0), rs);
    var s' := After(env, s, e);
    assert env.g.add(s'.pubKeys[e.tx.dkgID].gs, env.g.mul(r, env.g.H)) == s'.pubKeys[e.tx.dkgID].gshs;
  }

  ghost predicate Opened<P>(g: Group<P>, gs: P, gshr: P) {
    exists s, r :: gs == g.mul(s, g.G) && gshr == g.Commit(s, r)
  }

  /** The second proof answers for the same nonce points under another hash function. */
  ghost predicate AnsweredTwice<P>(env: Env<P>, hash: seq<int> -> nat, kp: KeyProof<P>, p: Proof)
    requires env.g.q > 0
  {
    var g, gs, d := env.g, kp.gsi, env.g.add(kp.gsihsi, env.g.Neg(kp.gsi));
    && VerifyNIZKPK(g, hash, p, kp.gsi, kp.gsihsi)
    && g.add(g.mul(Abs(kp.proof.u1), g.G), g.mul(Abs(kp.proof.c), gs)) == g.add(g.mul(Abs(p.u1), g.G), g.mul(Abs(p.c), gs))
    && g.add(g.mul(Abs(kp.proof.u2), g.H), g.mul(Abs(kp.proof.c), d)) == g.add(g.mul(Abs(p.u2), g.H), g.mul(Abs(p.c), d))
    && !Cong(env.hash(Transcript(g, kp.proof, gs, kp.gsihsi)), hash(Transcript(g, kp.proof, gs, kp.gsihsi)), g.q)
  }

  ghost function OpeningOf<P>(g: Group<P>, gs: P, gshr: P): (o: (int, int))
    requires Opened(g, gs, gshr)
    ensures gs == g.mul(o.0, g.G) && gshr == g.Commit(o.0, o.1)
  {
    var s, r :| gs == g.mul(s, g.G) && gshr == g.Commit(s, r);
    (s, r)
  }

  /** So provers that could also answer a second challenge make the published key the decided commitment up to a multiple of H. */
  lemma AnsweredKeyIsCommitted<P(!new)>(env: Env<P>, s: State<P>, e: Event<P>, hash: seq<int> -> nat, ps: seq<Proof>)
    requires EnvOk(env) && EffectOf(env, s, e).KeyPublished?
    requires e.Deliver? && e.tx.KeygenPubKey? && |ps| == |e.tx.keyProofs|
    requires forall i :: 0 <= i < |ps| ==> AnsweredTwice(env, hash, e.tx.keyProofs[i], ps[i])
    ensures var s', d := After(env, s, e), e.tx.dkgID;
            d in s'.pubKeys && exists r :: env.g.add(s'.pubKeys[d].gs, env.g.mul(r, env.g.H)) == s'.pubKeys[d].gshs
  {
    var g, kps := env.g, e.tx.keyProofs;
    PublishedByPubKey(env, s, e);
    forall i | 0 <= i < |kps| ensures Opened(g, kps[i].gsi, kps[i].gsihsi) {
      var a, b := AcceptedTwiceOpens(g, env.hash, hash, kps[i].proof, ps[i], kps[i].gsi, kps[i].gsihsi);
    }
    var ss := seq(|kps|, i requires 0 <= i < |kps| => OpeningOf(g, kps[i].gsi, kps[i].gsihsi).0);
    var rs := seq(|kps|, i requires 0 <= i < |kps| => OpeningOf(g, kps[i].gsi, kps[i].gsihsi).1);
    PublishedKeyIsCommitted(env, s, e, ss, rs);
  }

  // ----- the zero key is reachable

  /** Keygens named without a single proof, which the rules accept. */
  ghost function EmptyProposal<P>(k: nat, d: string): Tx<P> {
    KeygenPropose(d, seq(k, _ => Join([d, Itoa(1)], Delimiter4)), seq(k, _ => map[]))
  }

  /** Honest proofs of the scalars 0 and 0. */
  ghost function ZeroPubKey<P>(env: Env<P>, d: string): Tx<P>
    requires env.g.q > 0
  {
    var p := GenerateNIZKPK(env.g, env.hash, 0, 0, 0, 0);
    KeygenPubKey(d, seq(env.k, _ => KeyProof(1, env.g.mul(0, env.g.G), env.g.Commit(0, 0), p)))
  }

  lemma {:induction false} EmptySum<P(!new)>(g: Group<P>, k: nat, proofs: seq<map<string, ReadyProof<P>>>)
    requires Laws(g) && forall i :: 0 <= i < |proofs| ==> proofs[i] == map[]
    ensures WinnersSum(g, k, proofs) == g.zero
  {
    if proofs != [] {
      EmptySum(g, k, proofs[..|proofs| - 1]);
      assert Winners(k, proofs[|proofs| - 1]) == {};
      AddZero(g, g.zero);
    }
  }

  lemma EmptyProposalAccepted<P(!new)>(env: Env<P>, d: string, sender: Node)
    requires EnvOk(env) && Delimiter4 !in d
    ensures EffectOf(env, Init(), Deliver(EmptyProposal(env.k, d), sender)) == KeygenDecided(d, env.g.zero, env.g.zero)
  {
    var tx: Tx<P> := EmptyProposal(env.k, d);
    KeygenIDDetailsRoundTrip(d, 1);
    forall i | 0 <= i < env.k ensures KeygenOk(env, tx, i) {
    }
    EmptySum(env.g, env.k, tx.proofs);
  }

  lemma ZeroPubKeyAccepted<P(!new)>(env: Env<P>, s: State<P>, d: string, sender: Node)
    requires EnvOk(env) && DKGIndex(d).Some? && d in s.pubKeys && s.pubKeys[d] == PubKey(env.g.zero, env.g.zero)
    ensures EffectOf(env, s, Deliver(ZeroPubKey(env, d), sender)) == KeyPublished(d, env.g.zero, true)
  {
    var ps := ZeroPubKey(env, d).keyProofs;
    HonestProofAccepted(env.g, env.hash, 0, 0, 0, 0);
    CommitZero(env.g);
    MulUnits(env.g, env.g.G);
    LinCombZeros(env.g, Lambdas(env.g.q, Indexes(ps), 0), Pedersens(ps));
    LinCombZeros(env.g, Lambdas(env.g.q, Indexes(ps), 0), Gsis(ps));
  }

  lemma ThreeSteps<P(!new)>(env: Env<P>, s: State<P>, a: Event<P>, b: Event<P>)
    requires EnvOk(env)
    ensures Run(env, s, [a, b, b]) == After(env, After(env, After(env, s, a), b), b)
  {
    var s1 := After(env, s, a);
    var s2 := After(env, s1, b);
    assert [a, b, b][1..] == [b, b] && [b, b][1..] == [b];
    assert Run(env, s, [a, b, b]) == Run(env, s1, [b, b]);
    assert Run(env, s1, [b, b]) == Run(env, s2, [b]);
    assert Run(env, s2, [b]) == After(env, s2, b);
  }

  lemma ZeroKeyAgain<P(!new)>(env: Env<P>, s: State<P>, d: string)
    requires EnvOk(env) && DKGIndex(d).Some? && d in s.pubKeys && s.pubKeys[d] == PubKey(env.g.zero, env.g.zero)
    ensures var s' := After(env, s, Deliver(ZeroPubKey(env, d), 1));
            s'.lastCreated == s.lastCreated + 1 && d in s'.pubKeys && s'.pubKeys[d] == s.pubKeys[d]
  {
    ZeroPubKeyAccepted(env, s, d, 1);
  }

  /** One key generation can count two keys: the second publication finds the first one's key zero. */
  lemma ZeroKeyCountedTwice<P(!new)>(env: Env<P>, d: string)
    requires EnvOk(env) && d == GenerateDKGID(0)
    ensures var a, b := Deliver(EmptyProposal(env.k, d), 1), Deliver(ZeroPubKey(env, d), 1);
            Run(env, Init(), [a, b, b]).lastCreated == 2
  {
    DKGIDAvoids(0);
    DKGIDRoundTrip(0);
    var a, b := Deliver(EmptyProposal<P>(env.k, d), 1), Deliver(ZeroPubKey(env, d), 1);
    EmptyProposalAccepted(env, d, 1);
    var s1 := After(env, Init(), a);
    assert s1 == Apply(Init(), KeygenDecided(d, env.g.zero, env.g.zero));
    ZeroKeyAgain(env, s1, d);
    ZeroKeyAgain(env, After(env, s1, b), d);
    ThreeSteps(env, Init(), a, b);
  }

  // ----- the key that is never counted

  /** A transaction that passes the checks with a nonzero key leaves the key held, and the count where it was exactly if its
      identifier does not parse. */
  lemma HeldUncountedIff<P(!new)>(env: Env<P>, s: State<P>, tx: Tx<P>, sender: Node)
    requires EnvOk(env) && tx.KeygenPubKey? && PubKeyOk(env, s, tx) && KeyOf(env, tx) != env.g.zero
    ensures var r := Step(env, s, tx, sender);
            && tx.dkgID in Held(env, r.state)
            && (r.state.lastCreated == s.lastCreated <==> DKGIndex(tx.dkgID).None?)
            && (r.ok <==> DKGIndex(tx.dkgID).Some?)
  {
  }

  const Unreadable := "X"

  lemma UnreadableParses()
    ensures DKGIndex(Unreadable).None? && Delimiter4 !in Unreadable
  {
    SplitWhole(Unreadable, Delimiter3);
  }

  /** One keygen with one proof of C00 = G. */
  ghost function UnreadableProposal<P>(env: Env<P>): Tx<P> {
    KeygenPropose(Unreadable, [Join([Unreadable, Itoa(1)], Delimiter4)], [map["1" := ReadyProof(env.g.G, "")]])
  }

  /** An honest proof of the scalars 1 and 0. */
  ghost function UnreadablePubKey<P>(env: Env<P>): Tx<P>
    requires env.g.q > 0
  {
    KeygenPubKey(Unreadable, [KeyProof(1, env.g.mul(1, env.g.G), env.g.Commit(1, 0), GenerateNIZKPK(env.g, env.hash, 1, 0, 0, 0))])
  }

  lemma UnreadableProposed<P(!new)>(env: Env<P>)
    requires EnvOk(env) && env.k == 1
    requires env.readyOk(Join([Unreadable, Itoa(1)], Delimiter4), "1", ReadyProof(env.g.G, ""))
    ensures EffectOf(env, Init(), Deliver(UnreadableProposal(env), 1)) == KeygenDecided(Unreadable, env.g.G, env.g.zero)
  {
    var g, tx := env.g, UnreadableProposal(env);
    var m := tx.proofs[0];
    UnreadableParses();
    KeygenIDDetailsRoundTrip(Unreadable, 1);
    assert KeygenOk(env, tx, 0);
    assert Holders(m, g.G) == {"1"};
    assert Winners(1, m) == {g.G};
    assert SumSet(g, {g.G}) == g.add(SumSet(g, {g.G} - {g.G}), g.G);
    assert {g.G} - {g.G} == {};
    AddZero(g, g.G);
    assert tx.proofs[..0] == [];
    assert WinnersSum(g, 1, tx.proofs) == g.add(WinnersSum(g, 1, []), SumSet(g, Winners(1, m)));
  }

  lemma SinglePoint<P(!new)>(g: Group<P>, p: P)
    requires Laws(g)
    ensures AtZero(g, [1], [p]) == p
  {
    forall x ensures PointEval(g, [p], x) == p {
      MulZero(g, x);
      AddZero(g, p);
      AddComm(g, p, g.zero);
    }
    PointReproduces(g, [p], [1], 0, [p]);
  }

  lemma UnreadablePublished<P(!new)>(env: Env<P>, s: State<P>)
    requires EnvOk(env) && env.k == 1 && Unreadable in s.pubKeys && s.pubKeys[Unreadable] == PubKey(env.g.G, env.g.zero)
    ensures PubKeyOk(env, s, UnreadablePubKey(env)) && KeyOf(env, UnreadablePubKey(env)) == env.g.G
  {
    var g, ps := env.g, UnreadablePubKey(env).keyProofs;
    MulUnits(g, g.G);
    MulUnits(g, g.H);
    AddZero(g, g.G);
    AddComm(g, g.G, g.zero);
    HonestProofAccepted(g, env.hash, 1, 0, 0, 0);
    assert Indexes(ps) == [1] && Gsis(ps) == [g.G] && Pedersens(ps) == [g.G];
    SinglePoint(g, g.G);
  }

  /** A run of two transactions after which a key is held that was refused and never counted. */
  lemma UnreadableKeyHeld<P(!new)>(env: Env<P>)
    requires EnvOk(env) && env.k == 1 && env.g.G != env.g.zero
    requires env.readyOk(Join([Unreadable, Itoa(1)], Delimiter4), "1", ReadyProof(env.g.G, ""))
    ensures var s1 := After(env, Init(), Deliver(UnreadableProposal(env), 1));
            var r := Step(env, s1, UnreadablePubKey(env), 1);
            !r.ok && Held(env, r.state) == {Unreadable} && r.state.lastCreated == 0
  {
    UnreadableProposed(env);
    UnreadableParses();
    var s1 := After(env, Init(), Deliver(UnreadableProposal(env), 1));
    assert s1 == Apply(Init(), KeygenDecided(Unreadable, env.g.G, env.g.zero));
    UnreadablePublished(env, s1);
    HeldUncountedIff(env, s1, UnreadablePubKey(env), 1);
  }
}
