/** From message runs to keys: shares that nodes end their sharings with, combined as `decide` combines them. */
module EndToEnd {
  import opened Modular
  import opened Curve
  import opened Polynomials
  import opened Lagrange
  import opened Pvss
  import opened Avss
  import opened Machine
  import opened Instance
  import opened Refresh
  import opened Completion

  /** One dealer's sharing: a run of its network and a moment of that run. */
  datatype Shared<!P> = Shared(w: World<P>, ms: seq<Msg<P>>, tr: seq<System<P>>, at: nat)

  /** The hypotheses of completion, for the thresholds of one network. */
  ghost predicate Settled<P(!new)>(sh: Shared<P>, g: Group<P>, k: nat, live: set<int>) {
    var cfg := sh.w.cfg;
    && Valid(sh.w) && cfg.g == g && cfg.k == k && 1 <= cfg.t < k && |cfg.nodes| - cfg.t >= k + cfg.t
    && live <= cfg.nodes && |live| >= |cfg.nodes| - cfg.t
    && Completion.Run(sh.w, sh.ms, sh.tr) && sh.at < |sh.tr| && Quiet(live, sh.tr[sh.at])
  }

  /** The share node x holds from this dealer. */
  ghost function ShareOf<P>(sh: Shared<P>, x: int): int {
    if sh.at < |sh.tr| && x in sh.tr[sh.at].insts then sh.tr[sh.at].insts[x].si else 0
  }

  ghost function Held<P>(shs: seq<Shared<P>>, x: int): (r: seq<int>)
    ensures |r| == |shs|
  {
    seq(|shs|, d requires 0 <= d < |shs| => ShareOf(shs[d], x))
  }

  /** The secrets the dealers shared. */
  ghost function Secret<P>(sh: Shared<P>): int {
    if |sh.w.f| > 0 && |sh.w.f[0]| > 0 then sh.w.f[0][0] else 0
  }

  ghost function Secrets<P>(shs: seq<Shared<P>>): (r: seq<int>)
    ensures |r| == |shs|
  {
    seq(|shs|, d requires 0 <= d < |shs| => Secret(shs[d]))
  }

  ghost function SharePolys<P>(shs: seq<Shared<P>>): (r: seq<seq<int>>)
    ensures |r| == |shs|
  {
    seq(|shs|, d requires 0 <= d < |shs| => AtY(shs[d].w.f, 0))
  }

  /** A live node ends each sharing with its point of the polynomial whose constant term is the secret. */
  lemma LiveShareIsPoint<P(!new)>(sh: Shared<P>, g: Group<P>, k: nat, live: set<int>, x: int)
    requires Settled(sh, g, k, live) && x in live
    ensures Cong(ShareOf(sh, x), Eval(AtY(sh.w.f, 0), x), g.q)
  {
    LiveNodesComplete(sh.w, live, sh.ms, sh.tr, sh.at, x);
    BiIsColumn(sh.w.f, x, 0);
  }

  lemma SharePolySecret<P(!new)>(sh: Shared<P>, g: Group<P>, k: nat, live: set<int>)
    requires Settled(sh, g, k, live)
    ensures k > 0 && |AtY(sh.w.f, 0)| == k && AtY(sh.w.f, 0)[0] == Secret(sh)
  {
    assert Eval(sh.w.f[0], 0) == sh.w.f[0][0] + 0 * Eval(sh.w.f[0][1..], 0);
  }

  ghost predicate AllSettled<P(!new)>(shs: seq<Shared<P>>, g: Group<P>, k: nat, live: set<int>) {
    forall d {:trigger SettledAt(shs, d, g, k, live)} :: SettledAt(shs, d, g, k, live)
  }

  ghost predicate SettledAt<P(!new)>(shs: seq<Shared<P>>, d: int, g: Group<P>, k: nat, live: set<int>) {
    0 <= d < |shs| ==> Settled(shs[d], g, k, live)
  }

  lemma PolysSet<P(!new)>(shs: seq<Shared<P>>, g: Group<P>, k: nat, live: set<int>)
    requires g.q > 0 && AllSettled(shs, g, k, live)
    ensures forall d :: 0 <= d < |shs| ==> |SharePolys(shs)[d]| == k && k > 0 && SharePolys(shs)[d][0] == Secrets(shs)[d]
  {
    forall d | 0 <= d < |shs| ensures |SharePolys(shs)[d]| == k && k > 0 && SharePolys(shs)[d][0] == Secrets(shs)[d] {
      assert SettledAt(shs, d, g, k, live);
      SharePolySecret(shs[d], g, k, live);
    }
  }

  lemma Setup<P(!new)>(shs: seq<Shared<P>>, g: Group<P>, k: nat, live: set<int>)
    requires g.q > 0 && AllSettled(shs, g, k, live)
    ensures forall d :: 0 <= d < |shs| ==> |SharePolys(shs)[d]| == k && k > 0 && SharePolys(shs)[d][0] == Secrets(shs)[d]
    ensures forall x, d :: x in live && 0 <= d < |shs| ==> Cong(Held(shs, x)[d], Eval(SharePolys(shs)[d], x), g.q)
  {
    forall d | 0 <= d < |shs| ensures |SharePolys(shs)[d]| == k && k > 0 && SharePolys(shs)[d][0] == Secrets(shs)[d] {
      PolysSet(shs, g, k, live);
    }
    forall x, d | x in live && 0 <= d < |shs| ensures Cong(Held(shs, x)[d], Eval(SharePolys(shs)[d], x), g.q) {
      assert SettledAt(shs, d, g, k, live);
      LiveShareIsPoint(shs[d], g, k, live, x);
    }
  }

  /** The shares of each node, row by row, are points of the dealers' polynomials. */
  ghost function HeldRows<P(!new)>(shs: seq<Shared<P>>, g: Group<P>, k: nat, live: set<int>, shares: seq<Sample>): (held: seq<seq<int>>)
    requires g.q > 0 && AllSettled(shs, g, k, live) && forall i :: 0 <= i < |shares| ==> shares[i].x in live
    ensures |held| == |shares| && forall i :: 0 <= i < |held| ==> |held[i]| == |shs| && held[i] == Held(shs, shares[i].x)
    ensures forall i, d :: 0 <= i < |held| && 0 <= d < |shs| ==> Cong(held[i][d], Eval(SharePolys(shs)[d], shares[i].x), g.q)
  {
    Setup(shs, g, k, live);
    seq(|shares|, i requires 0 <= i < |shares| => Held(shs, shares[i].x))
  }

  /** Re-sharing end to end: the dealers share their points of the old polynomial f in runs with stopped
      nodes; the shares live nodes compute at `decide` interpolate, k at a time, to the old secret f(0). */
  lemma ResharedRunsKeepSecret<P(!new)>(g: Group<P>, k: nat, live: set<int>, f: seq<int>, dealers: seq<int>,
                                        shs: seq<Shared<P>>, shares: seq<Sample>)
    requires Laws(g) && k > 0 && AllSettled(shs, g, k, live)
    requires |shs| == |dealers| && DistinctMod(dealers, g.q) && |f| <= |dealers|
    requires forall d :: 0 <= d < |shs| ==> Cong(Secrets(shs)[d], Eval(f, dealers[d]), g.q)
    requires k <= |shares| && DistinctMod(Xs(shares), g.q)
    requires forall i :: 0 <= i < |shares| ==>
               shares[i].x in live && shares[i].y == Dot(Lambdas(g.q, dealers, 0), Held(shs, shares[i].x)) % g.q
    ensures Dot(Lambdas(g.q, Xs(shares), 0), Ys(shares)) % g.q == Eval(f, 0) % g.q
  {
    PolysSet(shs, g, k, live);
    ResharingKeepsSecret(g.q, f, dealers, SharePolys(shs), k, HeldRows(shs, g, k, live, shares), shares);
  }

  /** Key generation end to end: the summed shares interpolate to the sum of the dealers' secrets, and the
      public key made from the points s*G of k live nodes is that sum times G. */
  lemma GeneratedRunsGiveKey<P(!new)>(g: Group<P>, k: nat, live: set<int>, shs: seq<Shared<P>>, shares: seq<Sample>, gsis: seq<P>)
    requires Laws(g) && k > 0 && AllSettled(shs, g, k, live)
    requires k <= |shares| == |gsis| && DistinctMod(Xs(shares), g.q)
    requires forall i :: 0 <= i < |shares| ==>
               && shares[i].x in live && shares[i].y == Sum(Held(shs, shares[i].x)) % g.q
               && gsis[i] == g.mul(shares[i].y, g.G)
    ensures Dot(Lambdas(g.q, Xs(shares), 0), Ys(shares)) % g.q == Sum(Secrets(shs)) % g.q
    ensures LinComb(g, Lambdas(g.q, Xs(shares), 0), gsis) == g.mul(Sum(Secrets(shs)), g.G)
  {
    PolysSet(shs, g, k, live);
    assert Column(SharePolys(shs), 0) == Secrets(shs);
    GeneratedKeyIsSumOfSecrets(g, SharePolys(shs), k, HeldRows(shs, g, k, live, shares), shares, gsis);
  }

  // ----- `decide` at a live node

  /** What node x has from the dealers when it decides. */
  ghost function EndedAt<P>(shs: seq<Shared<P>>, dealers: seq<int>, x: int): (es: seq<Ended<P>>)
    requires |shs| == |dealers|
    ensures |es| == |shs|
  {
    seq(|shs|, d requires 0 <= d < |shs| => EndedOf(shs[d], dealers[d], x))
  }

  ghost function EndedOf<P>(sh: Shared<P>, dealer: int, x: int): Ended<P> {
    if sh.at < |sh.tr| && x in sh.tr[sh.at].insts then
      var s := sh.tr[sh.at].insts[x];
      Ended(dealer, Abs(s.si), Abs(s.si'), s.cbar)
    else Ended(dealer, 0, 0, [])
  }

  /** The first columns of the dealers' matrices: nothing in them depends on a node. */
  ghost function DealtColumns<P>(shs: seq<Shared<P>>, k: nat): (r: seq<seq<P>>)
    requires k > 0 && forall d :: 0 <= d < |shs| ==> IsSquare(shs[d].w.c, k)
    ensures |r| == |shs| && forall d :: 0 <= d < |r| ==> |r[d]| == k
  {
    seq(|shs|, d requires 0 <= d < |shs| => FirstColumn(shs[d].w.c, k))
  }

  ghost function FirstColumn<P>(c: Matrix<P>, k: nat): (r: seq<P>)
    requires IsSquare(c, k) && k > 0
    ensures |r| == k
  {
    Column(c, 0)
  }

  /** A live node's share of one sharing opens the dealer's matrix. */
  lemma LiveShareOpens<P(!new)>(sh: Shared<P>, g: Group<P>, k: nat, live: set<int>, dealer: int, x: int)
    requires Settled(sh, g, k, live) && x in live
    ensures var e := EndedOf(sh, dealer, x);
            k > 0 && IsSquare(e.cbar, k) && e.cbar == sh.w.c && e.si == ShareOf(sh, x) && ShareOk(g, e.cbar, x, e.si, e.si')
  {
    LiveNodesComplete(sh.w, live, sh.ms, sh.tr, sh.at, x);
    var f, f', c, s := sh.w.f, sh.w.f', sh.w.c, sh.tr[sh.at].insts[x];
    CommittedEval(g, Column(f, 0), Column(f', 0), Column(c, 0), x);
    AtConstant(f, x);
    AtConstant(f', x);
    CommitCong(g, s.si, s.si', Bi(f, x, 0), Bi(f', x, 0));
  }

  lemma AtConstant(f: Matrix<int>, x: int)
    requires IsSquare(f, |f|) && |f| > 0
    ensures Bi(f, x, 0) == Eval(Column(f, 0), x)
  {
    var r := AtX(f, x);
    assert Eval(r, 0) == r[0] + 0 * Eval(r[1..], 0);
  }

  lemma EndedAtLive<P(!new)>(shs: seq<Shared<P>>, g: Group<P>, k: nat, live: set<int>, dealers: seq<int>, x: int)
    requires Laws(g) && k > 0 && AllSettled(shs, g, k, live) && |shs| == |dealers| && x in live
    ensures var es := EndedAt(shs, dealers, x);
            && Shaped(es, k) && Dealers(es) == dealers && Shares(es) == Held(shs, x)
            && (forall e :: e in es ==> ShareOk(g, e.cbar, x, e.si, e.si'))
            && (forall d :: 0 <= d < |shs| ==> IsSquare(shs[d].w.c, k)) && FirstColumns(es) == DealtColumns(shs, k)
  {
    var es := EndedAt(shs, dealers, x);
    forall d | 0 <= d < |shs|
      ensures IsSquare(es[d].cbar, k) && es[d].cbar == shs[d].w.c && es[d].si == Held(shs, x)[d] && ShareOk(g, es[d].cbar, x, es[d].si, es[d].si')
    {
      assert SettledAt(shs, d, g, k, live);
      LiveShareOpens(shs[d], g, k, live, dealers[d], x);
    }
  }

  /** At every live node `Recover.Decide` accepts, with one and the same `Vbar`. */
  lemma LiveNodesDecide<P(!new)>(shs: seq<Shared<P>>, g: Group<P>, k: nat, live: set<int>, dealers: seq<int>, x: int)
    requires Laws(g) && k > 0 && AllSettled(shs, g, k, live) && 0 < |shs| == |dealers| && x in live
    ensures forall d :: 0 <= d < |shs| ==> IsSquare(shs[d].w.c, k)
    ensures var es, cs := EndedAt(shs, dealers, x), Lambdas(g.q, dealers, 0);
            var vbar := CombinePolys(g, cs, DealtColumns(shs, k), k);
            && Shaped(es, k) && Dealers(es) == dealers && Shares(es) == Held(shs, x)
            && CombinePolys(g, Lambdas(g.q, Dealers(es), 0), FirstColumns(es), k) == vbar
            && g.Commit(Dot(cs, Shares(es)) % g.q, Dot(cs, Blinds(es)) % g.q) == PointEval(g, vbar, x)
  {
    EndedAtLive(shs, g, k, live, dealers, x);
    var es, cs := EndedAt(shs, dealers, x), Lambdas(g.q, dealers, 0);
    RefreshedShareMatchesVbar(g, es, k, x, Dot(cs, Shares(es)) % g.q, Dot(cs, Blinds(es)) % g.q,
                              CombinePolys(g, cs, FirstColumns(es), k));
  }
}
