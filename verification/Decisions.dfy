/** What is decided on the chain, told by the transactions that were delivered: over every run a key generation or a
    re-sharing is decided exactly if a proposal that meets the thresholds was delivered, and the decided commitment is the
    sum over its keygens. */
module Decisions {
  import opened Sets
  import opened Modular
  import opened Curve
  import opened Lagrange
  import opened Pvss
  import opened Nizk
  import opened Ids
  import opened Ledger
  import opened Chain
  import opened Refresh

  // ----- the sum of a proposal

  lemma {:induction false} WinnersSumConcat<P(!new)>(g: Group<P>, k: nat, a: seq<map<string, ReadyProof<P>>>,
                                                     b: seq<map<string, ReadyProof<P>>>)
    requires Laws(g)
    ensures WinnersSum(g, k, a + b) == g.add(WinnersSum(g, k, a), WinnersSum(g, k, b))
    decreases |b|
  {
    if b == [] {
      assert a + b == a;
      AddZero(g, WinnersSum(g, k, a));
    } else {
      var n := |b| - 1;
      assert (a + b)[..|a + b| - 1] == a + b[..n] && (a + b)[|a + b| - 1] == b[n];
      WinnersSumConcat(g, k, a, b[..n]);
      AddAssoc(g, WinnersSum(g, k, a), WinnersSum(g, k, b[..n]), SumSet(g, Winners(k, b[n])));
    }
  }

  lemma SumOfOne<P(!new)>(g: Group<P>, c: P)
    requires Laws(g)
    ensures SumSet(g, {c}) == c
  {
    SumSetAdd(g, {}, c);
    assert {} + {c} == {c};
    AddZero(g, c);
  }

  /** Proofs that all carry c, at least k of them, leave c as the one winner. */
  lemma UnanimousWinner<P>(k: nat, m: map<string, ReadyProof<P>>, c: P)
    requires k >= 1 && |m| >= k && forall x :: x in m ==> m[x].c00 == c
    ensures Winners(k, m) == {c}
  {
    assert Holders(m, c) == m.Keys && |m| == |m.Keys|;
    var x := Pick(m.Keys);
    assert x in m && |Holders(m, m[x].c00)| >= k;
  }

  /** One winner for each keygen: the sum is that of the winners. */
  lemma {:induction false} OneWinnerEach<P(!new)>(g: Group<P>, k: nat, proofs: seq<map<string, ReadyProof<P>>>, cs: seq<P>)
    requires Laws(g) && |cs| == |proofs| && forall i :: 0 <= i < |cs| ==> Winners(k, proofs[i]) == {cs[i]}
    ensures WinnersSum(g, k, proofs) == LinComb(g, Ones(|cs|), cs)
  {
    if cs != [] {
      var n := |cs| - 1;
      OneWinnerEach(g, k, proofs[..n], cs[..n]);
      assert Ones(|cs|)[..n] == Ones(n);
      SumOfOne(g, cs[n]);
      MulUnits(g, cs[n]);
      AddComm(g, cs[n], LinComb(g, Ones(n), cs[..n]));
    }
  }

  /** And if they commit to (ss[i], rs[i]) it commits to the two sums. */
  lemma WinnersCommitToSums<P(!new)>(g: Group<P>, k: nat, proofs: seq<map<string, ReadyProof<P>>>, cs: seq<P>, ss: seq<int>, rs: seq<int>)
    requires Laws(g) && |cs| == |proofs| == |ss| == |rs|
    requires forall i :: 0 <= i < |cs| ==> Winners(k, proofs[i]) == {cs[i]} && cs[i] == g.Commit(ss[i], rs[i])
    ensures WinnersSum(g, k, proofs) == g.Commit(Sum(ss), Sum(rs))
  {
    OneWinnerEach(g, k, proofs, cs);
    LinCombCommit(g, Ones(|cs|), ss, rs, cs);
    DotOnes(ss);
    DotOnes(rs);
  }

  // ----- runs, one event at a time

  lemma {:induction false} RunSnoc<P(!new)>(env: Env<P>, s: State<P>, es: seq<Event<P>>, e: Event<P>)
    requires EnvOk(env)
    ensures Run(env, s, es + [e]) == After(env, Run(env, s, es), e)
    decreases |es|
  {
    if es == [] {
      assert [] + [e] == [e] && [e][1..] == [];
      assert Run(env, s, [e]) == Run(env, After(env, s, e), []);
    } else {
      assert (es + [e])[0] == es[0] && (es + [e])[1..] == es[1..] + [e];
      RunSnoc(env, After(env, s, es[0]), es[1..], e);
    }
  }

  /** The identifier carries the name and a number. */
  ghost predicate Of(id: string, d: char, name: string) {
    exists i :: Tagged(id, d, name, i)
  }

  lemma NamesIff(id: string, d: char, name: string)
    ensures Names(id, d, name) <==> Of(id, d, name)
  {
    if Names(id, d, name) {
      ParsePairIff(id, d, name, ParsePair(id, d).value.1);
    }
    if i :| Tagged(id, d, name, i) {
      ParsePairIff(id, d, name, i);
    }
  }

  /** What an effect does to the decisions and the published keys. */
  ghost predicate Moved<P>(s: State<P>, f: Effect<P>, s': State<P>) {
    && s'.keygenDecisions == (if f.KeygenDecided? then s.keygenDecisions + {f.dkgID} else s.keygenDecisions)
    && s'.pssDecisions == (if f.PssDecided? then s.pssDecisions + {f.sharingID} else s.pssDecisions)
    && s'.pubKeys == if f.KeygenDecided? then s.pubKeys[f.dkgID := PubKey(f.gshs, f.none)]
                     else if f.KeyAssigned? then s.pubKeys - {f.dkgID}
                     else if f.KeyPublished? && f.dkgID in s.pubKeys then s.pubKeys[f.dkgID := s.pubKeys[f.dkgID].(gs := f.gs)]
                     else s.pubKeys
  }

  lemma SummaryMoves<P>(s: State<P>, mid: string, last: nat)
    ensures var s' := Thaw(ConfirmSummary(s, mid, last), mid);
            s'.keygenDecisions == s.keygenDecisions && s'.pssDecisions == s.pssDecisions && s'.pubKeys == s.pubKeys
  {
  }

  lemma KeyMoves<P>(s: State<P>, mid: string, m: KeyMapping<P>)
    ensures var s' := Thaw(ConfirmKey(s, mid, m), mid);
            s'.keygenDecisions == s.keygenDecisions && s'.pssDecisions == s.pssDecisions && s'.pubKeys == s.pubKeys
  {
  }

  lemma ApplyMoves<P>(s: State<P>, f: Effect<P>)
    ensures Moved(s, f, Apply(s, f))
  {
    match f {
      case SummaryVoted(mid, last, sender, _) => SummaryMoves(AddSummaryVote(s, mid, last, sender), mid, last);
      case KeyVoted(mid, m, sender, _) => KeyMoves(AddKeyVote(s, mid, m, sender), mid, m);
      case _ =>
    }
  }

  lemma StepMoves<P(!new)>(env: Env<P>, s: State<P>, e: Event<P>)
    requires EnvOk(env)
    ensures Moved(s, EffectOf(env, s, e), After(env, s, e))
  {
    if e.Deliver? {
      ApplyMoves(s, EffectOf(env, s, e));
    }
  }

  // ----- key generations

  /** Event e delivers a proposal for d: at least K keygens, all of d, with valid proofs only. */
  ghost predicate Proposes<P>(env: Env<P>, e: Event<P>, d: string) {
    && e.Deliver? && e.tx.KeygenPropose? && e.tx.dkgID == d
    && |e.tx.keygens| >= env.k && |e.tx.keygens| == |e.tx.proofs|
    && forall i :: 0 <= i < |e.tx.keygens| ==>
         && Of(e.tx.keygens[i], Delimiter4, d)
         && forall x :: x in e.tx.proofs[i] ==> env.readyOk(e.tx.keygens[i], x, e.tx.proofs[i][x])
  }

  ghost predicate ProposedAt<P>(env: Env<P>, es: seq<Event<P>>, i: int, d: string) {
    0 <= i < |es| && Proposes(env, es[i], d)
  }

  /** The first such event. */
  ghost predicate FirstProposed<P>(env: Env<P>, es: seq<Event<P>>, i: int, d: string) {
    ProposedAt(env, es, i, d) && forall j :: 0 <= j < i ==> !Proposes(env, es[j], d)
  }

  lemma ProposalEffect<P(!new)>(env: Env<P>, s: State<P>, e: Event<P>, d: string)
    requires EnvOk(env)
    ensures var f := EffectOf(env, s, e);
            && (f.KeygenDecided? && f.dkgID == d <==> Proposes(env, e, d) && d !in s.keygenDecisions)
            && (f.KeygenDecided? && f.dkgID == d ==> f.gshs == WinnersSum(env.g, env.k, e.tx.proofs))
  {
    if e.Deliver? && e.tx.KeygenPropose? && e.tx.dkgID == d && |e.tx.keygens| == |e.tx.proofs| {
      forall i | 0 <= i < |e.tx.keygens|
        ensures KeygenOk(env, e.tx, i) <==>
                && Of(e.tx.keygens[i], Delimiter4, d)
                && forall x :: x in e.tx.proofs[i] ==> env.readyOk(e.tx.keygens[i], x, e.tx.proofs[i][x])
      {
        NamesIff(e.tx.keygens[i], Delimiter4, d);
      }
    }
  }

  /** Over every run: decided exactly if such a proposal was delivered. */
  lemma {:induction false} KeygenDecidedIff<P(!new)>(env: Env<P>, es: seq<Event<P>>, d: string)
    requires EnvOk(env)
    ensures d in Run(env, Init(), es).keygenDecisions <==> exists i :: ProposedAt(env, es, i, d)
  {
    if es != [] {
      var n := |es| - 1;
      var before, e := es[..n], es[n];
      assert before + [e] == es;
      KeygenDecidedIff(env, before, d);
      RunSnoc(env, Init(), before, e);
      ProposalEffect(env, Run(env, Init(), before), e, d);
      StepMoves(env, Run(env, Init(), before), e);
      assert forall i :: i < n ==> (ProposedAt(env, before, i, d) <==> ProposedAt(env, es, i, d));
      assert ProposedAt(env, es, n, d) <==> Proposes(env, e, d);
      if i :| ProposedAt(env, before, i, d) {
        assert ProposedAt(env, es, i, d);
      }
    }
  }

  /** The commitment kept for d is the sum over the keygens of the first such proposal. */
  lemma {:induction false} DecidedCommitment<P(!new)>(env: Env<P>, es: seq<Event<P>>, d: string)
    requires EnvOk(env) && d in Run(env, Init(), es).pubKeys
    ensures exists i :: FirstProposed(env, es, i, d)
                        && Run(env, Init(), es).pubKeys[d].gshs == WinnersSum(env.g, env.k, es[i].tx.proofs)
  {
    var n := |es| - 1;
    var before, e := es[..n], es[n];
    var s := Run(env, Init(), before);
    var f := EffectOf(env, s, e);
    assert before + [e] == es;
    RunSnoc(env, Init(), before, e);
    ProposalEffect(env, s, e, d);
    StepMoves(env, s, e);
    if f.KeygenDecided? && f.dkgID == d {
      KeygenDecidedIff(env, before, d);
      forall j | 0 <= j < n ensures !Proposes(env, es[j], d) {
        assert !ProposedAt(env, before, j, d);
      }
      assert FirstProposed(env, es, n, d);
    } else {
      DecidedCommitment(env, before, d);
      var i :| FirstProposed(env, before, i, d) && s.pubKeys[d].gshs == WinnersSum(env.g, env.k, before[i].tx.proofs);
      assert forall j :: 0 <= j < n ==> before[j] == es[j];
      assert FirstProposed(env, es, i, d);
    }
  }

  // ----- published keys

  /** Event e delivers K proofs for d, all valid, whose Pedersen points interpolate to the commitment and whose public points to key. */
  ghost predicate Publishes<P(!new)>(env: Env<P>, e: Event<P>, d: string, gshs: P, key: P)
    requires EnvOk(env)
  {
    && e.Deliver? && e.tx.KeygenPubKey? && e.tx.dkgID == d && |e.tx.keyProofs| == env.k
    && var ps := e.tx.keyProofs;
       && (forall i :: 0 <= i < |ps| ==> VerifyNIZKPK(env.g, env.hash, ps[i].proof, ps[i].gsi, ps[i].gsihsi))
       && AtZero(env.g, Indexes(ps), Pedersens(ps)) == gshs && AtZero(env.g, Indexes(ps), Gsis(ps)) == key
  }

  lemma PublishEffect<P(!new)>(env: Env<P>, s: State<P>, e: Event<P>)
    requires EnvOk(env) && EffectOf(env, s, e).KeyPublished?
    ensures var f := EffectOf(env, s, e);
            f.dkgID in s.pubKeys && Publishes(env, e, f.dkgID, s.pubKeys[f.dkgID].gshs, f.gs)
  {
  }

  /** Over every run: a key that is held was delivered with K valid proofs against the decided commitment. */
  lemma {:induction false} HeldKeyWasProved<P(!new)>(env: Env<P>, es: seq<Event<P>>, d: string)
    requires EnvOk(env) && d in Run(env, Init(), es).pubKeys && Run(env, Init(), es).pubKeys[d].gs != env.g.zero
    ensures var pk := Run(env, Init(), es).pubKeys[d];
            exists i :: 0 <= i < |es| && Publishes(env, es[i], d, pk.gshs, pk.gs)
  {
    var n := |es| - 1;
    var before, e := es[..n], es[n];
    var s := Run(env, Init(), before);
    var f := EffectOf(env, s, e);
    assert before + [e] == es;
    RunSnoc(env, Init(), before, e);
    StepMoves(env, s, e);
    if f.KeyPublished? && f.dkgID == d {
      PublishEffect(env, s, e);
      assert Publishes(env, es[n], d, s.pubKeys[d].gshs, f.gs);
    } else {
      HeldKeyWasProved(env, before, d);
      var i :| 0 <= i < |before| && Publishes(env, before[i], d, s.pubKeys[d].gshs, s.pubKeys[d].gs);
      assert before[i] == es[i];
    }
  }

  // ----- re-sharings

  /** Event e delivers a proposal for the sharing id: at least kOld PSSIDs, all of that sharing, each with at least `needed`
      signed texts and valid ones only. */
  ghost predicate Reshares<P>(env: Env<P>, e: Event<P>, id: string, kOld: int, needed: int) {
    && e.Deliver? && e.tx.PssPropose? && e.tx.sharingID == id && |e.tx.psss| >= kOld && |e.tx.psss| == |e.tx.texts|
    && forall i :: 0 <= i < |e.tx.psss| ==>
         && Of(e.tx.psss[i], Delimiter1, id) && |e.tx.texts[i]| >= needed
         && forall x :: x in e.tx.texts[i] ==> env.textOk(e.tx.psss[i], x, e.tx.texts[i][x])
  }

  ghost predicate ResharedAt<P>(env: Env<P>, es: seq<Event<P>>, i: int, id: string, kOld: int, needed: int) {
    0 <= i < |es| && Reshares(env, es[i], id, kOld, needed)
  }

  lemma EntriesIff<P>(env: Env<P>, tx: Tx<P>, sender: Node, kOld: int, needed: int)
    requires tx.PssPropose?
    ensures Reshares(env, Deliver(tx, sender), tx.sharingID, kOld, needed) <==>
            |tx.psss| >= kOld && |tx.psss| == |tx.texts| && PssEntriesOk(env, tx, needed)
  {
    if |tx.psss| == |tx.texts| {
      forall i | 0 <= i < |tx.psss|
        ensures PssEntryOk(env, tx, i, needed) <==>
                && Of(tx.psss[i], Delimiter1, tx.sharingID) && |tx.texts[i]| >= needed
                && forall x :: x in tx.texts[i] ==> env.textOk(tx.psss[i], x, tx.texts[i][x])
      {
        NamesIff(tx.psss[i], Delimiter1, tx.sharingID);
      }
      assert PssEntriesOk(env, tx, needed) <==> (forall i :: 0 <= i < |tx.psss| ==> PssEntryOk(env, tx, i, needed));
    }
  }

  lemma MeetsIff<P>(env: Env<P>, tx: Tx<P>, sender: Node, ps: seq<int>, needed: int)
    requires tx.PssPropose? && |ps| == 8 && needed == Int64(ps[6] + ps[7])
    ensures MeetsThresholds(env, tx, ps) <==>
            ps[2] != 0 && ps[6] != 0 && Reshares(env, Deliver(tx, sender), tx.sharingID, ps[2], needed)
  {
    EntriesIff(env, tx, sender, ps[2], needed);
  }

  lemma ReshareOk<P>(env: Env<P>, s: State<P>, tx: Tx<P>, sender: Node, ps: seq<int>, needed: int)
    requires tx.PssPropose? && |ps| == 8 && EpochParams(tx.sharingID) == Some(ps) && needed == Int64(ps[6] + ps[7])
    ensures PssOk(env, s, tx) <==>
            ps[2] != 0 && ps[6] != 0 && tx.sharingID !in s.pssDecisions && Reshares(env, Deliver(tx, sender), tx.sharingID, ps[2], needed)
  {
    MeetsIff(env, tx, sender, ps, needed);
  }

  lemma ReshareEffect<P(!new)>(env: Env<P>, s: State<P>, e: Event<P>, id: string, ps: seq<int>, needed: int)
    requires EnvOk(env) && |ps| == 8 && EpochParams(id) == Some(ps) && needed == Int64(ps[6] + ps[7])
    ensures var f := EffectOf(env, s, e);
            f.PssDecided? && f.sharingID == id <==>
            ps[2] != 0 && ps[6] != 0 && id !in s.pssDecisions && Reshares(env, e, id, ps[2], needed)
  {
    if e.Deliver? && e.tx.PssPropose? && e.tx.sharingID == id {
      ReshareOk(env, s, e.tx, e.sender, ps, needed);
    }
  }

  lemma {:induction false} DecidedFor<P(!new)>(env: Env<P>, es: seq<Event<P>>, id: string, ps: seq<int>, needed: int)
    requires EnvOk(env) && |ps| == 8 && EpochParams(id) == Some(ps) && needed == Int64(ps[6] + ps[7])
    ensures id in Run(env, Init(), es).pssDecisions <==>
            ps[2] != 0 && ps[6] != 0 && exists i :: ResharedAt(env, es, i, id, ps[2], needed)
  {
    if es != [] {
      var n := |es| - 1;
      var before, e := es[..n], es[n];
      assert before + [e] == es;
      DecidedFor(env, before, id, ps, needed);
      RunSnoc(env, Init(), before, e);
      ReshareEffect(env, Run(env, Init(), before), e, id, ps, needed);
      StepMoves(env, Run(env, Init(), before), e);
      assert forall i :: i < n ==> (ResharedAt(env, before, i, id, ps[2], needed) <==> ResharedAt(env, es, i, id, ps[2], needed));
      assert ResharedAt(env, es, n, id, ps[2], needed) <==> Reshares(env, e, id, ps[2], needed);
      if i :| ResharedAt(env, before, i, id, ps[2], needed) {
        assert ResharedAt(env, es, i, id, ps[2], needed);
      }
    }
  }

  /** Over every run, for the identifier that carries the parameters ps of the two epochs: the re-sharing is decided exactly if
      kOld and kNew are not 0 and a proposal with kOld PSSIDs and kNew + tNew signed texts for each was delivered. The sum is one of
      64-bit numbers. */
  lemma ReshareDecidedIff<P(!new)>(env: Env<P>, es: seq<Event<P>>, keygenID: string, ps: seq<int>)
    requires EnvOk(env) && |ps| == 8 && (forall i :: 0 <= i < 8 ==> IsInt64(ps[i]))
    requires Delimiter1 !in keygenID && Delimiter2 !in keygenID
    ensures var id, kOld, kNew, needed := GetSharingID(keygenID, ps), ps[2], ps[6], Int64(ps[6] + ps[7]);
            id in Run(env, Init(), es).pssDecisions <==>
            kOld != 0 && kNew != 0 && exists i :: ResharedAt(env, es, i, id, kOld, needed)
  {
    SharingIDRoundTrip(keygenID, ps);
    DecidedFor(env, es, GetSharingID(keygenID, ps), ps, Int64(ps[6] + ps[7]));
  }

  /** An identifier without such parameters is never decided. */
  lemma {:induction false} UnreadableNeverDecided<P(!new)>(env: Env<P>, es: seq<Event<P>>, id: string)
    requires EnvOk(env) && EpochParams(id).None?
    ensures id !in Run(env, Init(), es).pssDecisions
  {
    if es != [] {
      var n := |es| - 1;
      var before, e := es[..n], es[n];
      assert before + [e] == es;
      UnreadableNeverDecided(env, before, id);
      RunSnoc(env, Init(), before, e);
      StepMoves(env, Run(env, Init(), before), e);
    }
  }

  /** With at most tNew signers bad, each PSSID of a decided re-sharing has at least kNew good ones, if kNew + tNew is a 64-bit
      number. */
  lemma DecidedHasGoodSigners<P>(env: Env<P>, e: Event<P>, id: string, kOld: int, kNew: int, tNew: int, i: nat, bad: set<string>)
    requires Reshares(env, e, id, kOld, Int64(kNew + tNew)) && IsInt64(kNew + tNew) && i < |e.tx.psss| && |bad| <= tNew
    ensures |e.tx.texts[i].Keys - bad| >= kNew
    ensures forall x :: x in e.tx.texts[i].Keys - bad ==> env.textOk(e.tx.psss[i], x, e.tx.texts[i][x])
  {
    var signers := e.tx.texts[i].Keys;
    Int64Exact(kNew + tNew);
    assert |e.tx.texts[i]| == |signers|;
    assert signers == (signers - bad) + (signers * bad) && |signers| == |signers - bad| + |signers * bad|;
    SubsetSize(signers * bad, bad);
  }

  /** Texts are asked for exactly if the sum is positive after wrapping: of positive numbers, exactly if it does not wrap. */
  lemma TextsNeededIff(kNew: int, tNew: int)
    requires IsInt64(kNew) && IsInt64(tNew) && kNew > 0 && tNew > 0
    ensures Int64(kNew + tNew) > 0 <==> IsInt64(kNew + tNew)
  {
    if IsInt64(kNew + tNew) {
      Int64Exact(kNew + tNew);
    } else {
      var w := kNew + tNew - 0x1_0000_0000_0000_0000;
      assert kNew + tNew - MinInt == (w - MinInt) + 1 * 0x1_0000_0000_0000_0000;
      assert (kNew + tNew - MinInt) % 0x1_0000_0000_0000_0000 == w - MinInt;
    }
  }

  /** At the largest kNew and tNew = 1 the sum wraps, and no text is asked for. */
  lemma WrappedThreshold()
    ensures Int64(MaxInt + 1) == MinInt
  {
    assert (MaxInt + 1 - MinInt) % 0x1_0000_0000_0000_0000 == 0;
  }
}
