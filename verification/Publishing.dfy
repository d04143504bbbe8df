/** From the dealers' runs to the key on the chain: the proposal decides the sum of their commitments, and the proofs that live
    nodes make from their summed shares publish the sum of their secrets times G. */
module Publishing {
  import opened Modular
  import opened Curve
  import opened Polynomials
  import opened Lagrange
  import opened Pvss
  import opened Avss
  import opened Refresh
  import opened Completion
  import opened EndToEnd
  import opened Nizk
  import opened Ids
  import L = Ledger
  import D = Decisions

  // ----- the blinding half of the sharings

  ghost function BlindOf<P>(sh: Shared<P>, x: int): int {
    if sh.at < |sh.tr| && x in sh.tr[sh.at].insts then sh.tr[sh.at].insts[x].si' else 0
  }

  ghost function HeldBlinds<P>(shs: seq<Shared<P>>, x: int): (r: seq<int>)
    ensures |r| == |shs|
  {
    seq(|shs|, d requires 0 <= d < |shs| => BlindOf(shs[d], x))
  }

  ghost function Blind<P>(sh: Shared<P>): int {
    if |sh.w.f'| > 0 && |sh.w.f'[0]| > 0 then sh.w.f'[0][0] else 0
  }

  ghost function SharedBlinds<P>(shs: seq<Shared<P>>): (r: seq<int>)
    ensures |r| == |shs|
  {
    seq(|shs|, d requires 0 <= d < |shs| => Blind(shs[d]))
  }

  ghost function BlindPolys<P>(shs: seq<Shared<P>>): (r: seq<seq<int>>)
    ensures |r| == |shs|
  {
    seq(|shs|, d requires 0 <= d < |shs| => AtY(shs[d].w.f', 0))
  }

  /** The commitments to the secrets. */
  ghost function Corners<P>(shs: seq<Shared<P>>, k: nat): (r: seq<P>)
    requires k > 0 && forall d :: 0 <= d < |shs| ==> IsSquare(shs[d].w.c, k)
    ensures |r| == |shs|
  {
    seq(|shs|, d requires 0 <= d < |shs| => Corner(shs[d].w.c, k))
  }

  ghost function Corner<P>(c: Matrix<P>, k: nat): P
    requires IsSquare(c, k) && k > 0
  {
    c[0][0]
  }

  lemma LiveBlindIsPoint<P(!new)>(sh: Shared<P>, g: Group<P>, k: nat, live: set<int>, x: int)
    requires Settled(sh, g, k, live) && x in live
    ensures Cong(BlindOf(sh, x), Eval(AtY(sh.w.f', 0), x), g.q)
  {
    LiveNodesComplete(sh.w, live, sh.ms, sh.tr, sh.at, x);
    BiIsColumn(sh.w.f', x, 0);
  }

  lemma BlindPolyConstant<P(!new)>(sh: Shared<P>, g: Group<P>, k: nat, live: set<int>)
    requires Settled(sh, g, k, live)
    ensures k > 0 && |AtY(sh.w.f', 0)| == k && AtY(sh.w.f', 0)[0] == Blind(sh)
    ensures IsSquare(sh.w.c, k) && sh.w.c[0][0] == g.Commit(Secret(sh), Blind(sh))
  {
    assert Eval(sh.w.f'[0], 0) == sh.w.f'[0][0] + 0 * Eval(sh.w.f'[0][1..], 0);
  }

  lemma BlindSetup<P(!new)>(shs: seq<Shared<P>>, g: Group<P>, k: nat, live: set<int>)
    requires g.q > 0 && k > 0 && AllSettled(shs, g, k, live)
    ensures forall d :: 0 <= d < |shs| ==> |BlindPolys(shs)[d]| == k && BlindPolys(shs)[d][0] == SharedBlinds(shs)[d]
    ensures forall d :: 0 <= d < |shs| ==> IsSquare(shs[d].w.c, k)
    ensures forall d :: 0 <= d < |shs| ==> Corners(shs, k)[d] == g.Commit(Secrets(shs)[d], SharedBlinds(shs)[d])
  {
    forall d | 0 <= d < |shs|
      ensures |BlindPolys(shs)[d]| == k && BlindPolys(shs)[d][0] == SharedBlinds(shs)[d]
      ensures IsSquare(shs[d].w.c, k) && shs[d].w.c[0][0] == g.Commit(Secrets(shs)[d], SharedBlinds(shs)[d])
    {
      assert SettledAt(shs, d, g, k, live);
      BlindPolyConstant(shs[d], g, k, live);
    }
  }

  ghost function BlindRows<P(!new)>(shs: seq<Shared<P>>, g: Group<P>, k: nat, live: set<int>, blinds: seq<Sample>): (held: seq<seq<int>>)
    requires g.q > 0 && AllSettled(shs, g, k, live) && forall i :: 0 <= i < |blinds| ==> blinds[i].x in live
    ensures |held| == |blinds| && forall i :: 0 <= i < |held| ==> |held[i]| == |shs| && held[i] == HeldBlinds(shs, blinds[i].x)
    ensures forall i, d :: 0 <= i < |held| && 0 <= d < |shs| ==> Cong(held[i][d], Eval(BlindPolys(shs)[d], blinds[i].x), g.q)
  {
    BlindsArePoints(shs, g, k, live);
    seq(|blinds|, i requires 0 <= i < |blinds| => HeldBlinds(shs, blinds[i].x))
  }

  lemma BlindsArePoints<P(!new)>(shs: seq<Shared<P>>, g: Group<P>, k: nat, live: set<int>)
    requires g.q > 0 && AllSettled(shs, g, k, live)
    ensures forall x, d :: x in live && 0 <= d < |shs| ==> Cong(HeldBlinds(shs, x)[d], Eval(BlindPolys(shs)[d], x), g.q)
  {
    forall x, d | x in live && 0 <= d < |shs| ensures Cong(HeldBlinds(shs, x)[d], Eval(BlindPolys(shs)[d], x), g.q) {
      assert SettledAt(shs, d, g, k, live);
      LiveBlindIsPoint(shs[d], g, k, live, x);
    }
  }

  // ----- the proofs of live nodes

  /** The summed share of node x, and its blinding. */
  ghost function ShareSum<P>(g: Group<P>, shs: seq<Shared<P>>, x: int): nat
    requires g.q > 0
  {
    Sum(Held(shs, x)) % g.q
  }

  ghost function BlindSum<P>(g: Group<P>, shs: seq<Shared<P>>, x: int): nat
    requires g.q > 0
  {
    Sum(HeldBlinds(shs, x)) % g.q
  }

  /** What node x contributes to the public key: its points and its proof, under the nonces v1 and v2. */
  ghost function KeyProofOf<P>(env: L.Env<P>, shs: seq<Shared<P>>, x: int, v1: nat, v2: nat): L.KeyProof<P>
    requires env.g.q > 0
  {
    var s, r := ShareSum(env.g, shs, x), BlindSum(env.g, shs, x);
    L.KeyProof(x, env.g.mul(s, env.g.G), env.g.Commit(s, r), GenerateNIZKPK(env.g, env.hash, s, r, v1, v2))
  }

  /** The proofs come from live nodes, distinct modulo q. */
  ghost predicate FromLive<P(!new)>(env: L.Env<P>, shs: seq<Shared<P>>, live: set<int>, ps: seq<L.KeyProof<P>>)
    requires env.g.q > 0
  {
    && DistinctMod(L.Indexes(ps), env.g.q)
    && forall i :: 0 <= i < |ps| ==> ps[i].index in live && exists v1, v2 :: ps[i] == KeyProofOf(env, shs, ps[i].index, v1, v2)
  }

  ghost function ShareSamples<P>(g: Group<P>, shs: seq<Shared<P>>, xs: seq<int>): (r: seq<Sample>)
    requires g.q > 0
    ensures |r| == |xs| && Xs(r) == xs
  {
    seq(|xs|, i requires 0 <= i < |xs| => Sample(xs[i], ShareSum(g, shs, xs[i])))
  }

  ghost function BlindSamples<P>(g: Group<P>, shs: seq<Shared<P>>, xs: seq<int>): (r: seq<Sample>)
    requires g.q > 0
    ensures |r| == |xs| && Xs(r) == xs
  {
    seq(|xs|, i requires 0 <= i < |xs| => Sample(xs[i], BlindSum(g, shs, xs[i])))
  }

  ghost function TimesG<P>(g: Group<P>, ys: seq<int>): (r: seq<P>)
    ensures |r| == |ys|
  {
    seq(|ys|, i requires 0 <= i < |ys| => g.mul(ys[i], g.G))
  }

  /** The blinding halves interpolate to the sum of the dealers' blinds. */
  lemma BlindsInterpolate<P(!new)>(g: Group<P>, k: nat, live: set<int>, shs: seq<Shared<P>>, xs: seq<int>)
    requires Laws(g) && k > 0 && AllSettled(shs, g, k, live)
    requires k <= |xs| && DistinctMod(xs, g.q) && forall i :: 0 <= i < |xs| ==> xs[i] in live
    ensures Cong(Dot(Lambdas(g.q, xs, 0), Ys(BlindSamples(g, shs, xs))), Sum(SharedBlinds(shs)), g.q)
  {
    BlindSetup(shs, g, k, live);
    assert Column(BlindPolys(shs), 0) == SharedBlinds(shs);
    var blinds := BlindSamples(g, shs, xs);
    GeneratedKeyIsSumOfSecrets(g, BlindPolys(shs), k, BlindRows(shs, g, k, live, blinds), blinds, TimesG(g, Ys(blinds)));
  }

  lemma SharesInterpolate<P(!new)>(g: Group<P>, k: nat, live: set<int>, shs: seq<Shared<P>>, xs: seq<int>)
    requires Laws(g) && k > 0 && AllSettled(shs, g, k, live)
    requires k <= |xs| && DistinctMod(xs, g.q) && forall i :: 0 <= i < |xs| ==> xs[i] in live
    ensures Cong(Dot(Lambdas(g.q, xs, 0), Ys(ShareSamples(g, shs, xs))), Sum(Secrets(shs)), g.q)
    ensures LinComb(g, Lambdas(g.q, xs, 0), TimesG(g, Ys(ShareSamples(g, shs, xs)))) == g.mul(Sum(Secrets(shs)), g.G)
  {
    var shares := ShareSamples(g, shs, xs);
    GeneratedRunsGiveKey(g, k, live, shs, shares, TimesG(g, Ys(shares)));
  }

  lemma ProofsAre<P(!new)>(env: L.Env<P>, shs: seq<Shared<P>>, live: set<int>, ps: seq<L.KeyProof<P>>, i: nat)
    requires L.EnvOk(env) && FromLive(env, shs, live, ps) && i < |ps|
    ensures var g, x := env.g, ps[i].index;
            && ps[i].gsi == g.mul(ShareSum(g, shs, x), g.G) && ps[i].gsihsi == g.Commit(ShareSum(g, shs, x), BlindSum(g, shs, x))
            && VerifyNIZKPK(g, env.hash, ps[i].proof, ps[i].gsi, ps[i].gsihsi)
  {
    var x := ps[i].index;
    var v1, v2 :| ps[i] == KeyProofOf(env, shs, x, v1, v2);
    HonestProofAccepted(env.g, env.hash, ShareSum(env.g, shs, x), BlindSum(env.g, shs, x), v1, v2);
  }

  lemma PedersenSum<P(!new)>(env: L.Env<P>, shs: seq<Shared<P>>, live: set<int>, ps: seq<L.KeyProof<P>>)
    requires L.EnvOk(env) && AllSettled(shs, env.g, env.k, live) && |ps| == env.k && FromLive(env, shs, live, ps)
    ensures L.AtZero(env.g, L.Indexes(ps), L.Pedersens(ps)) == env.g.Commit(Sum(Secrets(shs)), Sum(SharedBlinds(shs)))
  {
    var g, xs := env.g, L.Indexes(ps);
    var ls, ss, rs := Lambdas(g.q, xs, 0), Ys(ShareSamples(g, shs, xs)), Ys(BlindSamples(g, shs, xs));
    forall i | 0 <= i < |ps| ensures L.Pedersens(ps)[i] == g.Commit(ss[i], rs[i]) {
      ProofsAre(env, shs, live, ps, i);
    }
    LinCombCommit(g, ls, ss, rs, L.Pedersens(ps));
    SharesInterpolate(g, env.k, live, shs, xs);
    BlindsInterpolate(g, env.k, live, shs, xs);
    CommitCong(g, Dot(ls, ss), Dot(ls, rs), Sum(Secrets(shs)), Sum(SharedBlinds(shs)));
  }

  lemma KeySum<P(!new)>(env: L.Env<P>, shs: seq<Shared<P>>, live: set<int>, ps: seq<L.KeyProof<P>>)
    requires L.EnvOk(env) && AllSettled(shs, env.g, env.k, live) && |ps| == env.k && FromLive(env, shs, live, ps)
    ensures L.AtZero(env.g, L.Indexes(ps), L.Gsis(ps)) == env.g.mul(Sum(Secrets(shs)), env.g.G)
  {
    var g, xs := env.g, L.Indexes(ps);
    forall i | 0 <= i < |ps| ensures L.Gsis(ps)[i] == TimesG(g, Ys(ShareSamples(g, shs, xs)))[i] {
      ProofsAre(env, shs, live, ps, i);
    }
    assert L.Gsis(ps) == TimesG(g, Ys(ShareSamples(g, shs, xs)));
    SharesInterpolate(g, env.k, live, shs, xs);
  }

  /** K live nodes' proofs pass against the sum of the dealers' commitments, and publish the sum of their secrets. */
  lemma LiveProofsPublish<P(!new)>(env: L.Env<P>, s: L.State<P>, d: string, shs: seq<Shared<P>>, live: set<int>,
                                   ps: seq<L.KeyProof<P>>, sender: L.Node)
    requires L.EnvOk(env) && AllSettled(shs, env.g, env.k, live) && |ps| == env.k && FromLive(env, shs, live, ps)
    requires d in s.pubKeys && s.pubKeys[d] == L.PubKey(env.g.Commit(Sum(Secrets(shs)), Sum(SharedBlinds(shs))), env.g.zero)
    ensures L.EffectOf(env, s, L.Deliver(L.KeygenPubKey(d, ps), sender))
            == L.KeyPublished(d, env.g.mul(Sum(Secrets(shs)), env.g.G), DKGIndex(d).Some?)
  {
    PedersenSum(env, shs, live, ps);
    KeySum(env, shs, live, ps);
    forall i | 0 <= i < |ps| ensures VerifyNIZKPK(env.g, env.hash, ps[i].proof, ps[i].gsi, ps[i].gsihsi) {
      ProofsAre(env, shs, live, ps, i);
    }
  }

  /** The proposal holds, for each dealer, proofs of at least K nodes, all of the dealer's commitment. */
  ghost predicate Carries<P>(k: nat, shs: seq<Shared<P>>, proofs: seq<map<string, L.ReadyProof<P>>>)
    requires k > 0 && forall d :: 0 <= d < |shs| ==> IsSquare(shs[d].w.c, k)
  {
    && |proofs| == |shs|
    && forall i :: 0 <= i < |proofs| ==> |proofs[i]| >= k && forall x :: x in proofs[i] ==> proofs[i][x].c00 == Corners(shs, k)[i]
  }

  lemma ProposalSum<P(!new)>(env: L.Env<P>, shs: seq<Shared<P>>, live: set<int>, proofs: seq<map<string, L.ReadyProof<P>>>)
    requires L.EnvOk(env) && AllSettled(shs, env.g, env.k, live)
    requires (forall d :: 0 <= d < |shs| ==> IsSquare(shs[d].w.c, env.k)) && Carries(env.k, shs, proofs)
    ensures L.WinnersSum(env.g, env.k, proofs) == env.g.Commit(Sum(Secrets(shs)), Sum(SharedBlinds(shs)))
  {
    BlindSetup(shs, env.g, env.k, live);
    var cs := Corners(shs, env.k);
    forall i | 0 <= i < |proofs| ensures L.Winners(env.k, proofs[i]) == {cs[i]} {
      D.UnanimousWinner(env.k, proofs[i], cs[i]);
    }
    D.WinnersCommitToSums(env.g, env.k, proofs, cs, Secrets(shs), SharedBlinds(shs));
  }

  /** Key generation from messages to the chain, in every run: if the first proposal that meets the checks carries the
      commitments of sharings that live nodes completed, and no key is published yet, then the proofs of any K of these nodes
      are accepted, and the key that is stored is the sum of the dealers' secrets times G. */
  lemma KeyGenerationPublishes<P(!new)>(env: L.Env<P>, es: seq<L.Event<P>>, at: int, d: string, shs: seq<Shared<P>>, live: set<int>,
                                        ps: seq<L.KeyProof<P>>, sender: L.Node)
    requires L.EnvOk(env) && AllSettled(shs, env.g, env.k, live) && |ps| == env.k && FromLive(env, shs, live, ps)
    requires D.FirstProposed(env, es, at, d)
    requires (forall i :: 0 <= i < |shs| ==> IsSquare(shs[i].w.c, env.k)) && Carries(env.k, shs, es[at].tx.proofs)
    requires var s := L.Run(env, L.Init(), es); d in s.pubKeys && s.pubKeys[d].gs == env.g.zero
    ensures var s := L.Run(env, L.Init(), es + [L.Deliver(L.KeygenPubKey(d, ps), sender)]);
            d in s.pubKeys && s.pubKeys[d].gs == env.g.mul(Sum(Secrets(shs)), env.g.G)
  {
    var s, e := L.Run(env, L.Init(), es), L.Deliver(L.KeygenPubKey(d, ps), sender);
    D.DecidedCommitment(env, es, d);
    var i :| D.FirstProposed(env, es, i, d) && s.pubKeys[d].gshs == L.WinnersSum(env.g, env.k, es[i].tx.proofs);
    assert i == at;
    ProposalSum(env, shs, live, es[at].tx.proofs);
    LiveProofsPublish(env, s, d, shs, live, ps, sender);
    D.RunSnoc(env, L.Init(), es, e);
    D.StepMoves(env, s, e);
  }
}
