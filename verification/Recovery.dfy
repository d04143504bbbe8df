/** Agreeing on the old commitment before a re-sharing is proposed: `recover` and `complete` messages. */
module Recovery {
  import opened Modular
  import opened Sets
  import opened Curve
  import opened Polynomials
  import opened Lagrange
  import opened Avss
  import opened Reconstruction
  import opened Refresh
  import opened Ids

  /** A completed sharing: its PSSID and the constant commitment C00 it came with. */
  datatype Completed<P> = Completed(pssID: string, c00: P)

  /** dCount: who announced which commitment polynomial. waiting: completed sharings that wait for an agreed polynomial d.
      done: the PSSIDs whose sharing matched it, with its C00. */
  datatype Record<P(==)> = Record(dCount: map<seq<P>, set<int>>, d: Option<seq<P>>, waiting: set<Completed<P>>, done: map<string, P>)

  function Empty<P(==)>(): Record<P> { Record(map[], None, {}, map[]) }

  function From<P(==)>(r: Record<P>, v: seq<P>): set<int> {
    if v in r.dCount then r.dCount[v] else {}
  }

  /** An announced polynomial becomes the agreed one when its K-th sender is counted. */
  function OnRecover<P(==)>(k: nat, r: Record<P>, sender: int, v: seq<P>): Record<P> {
    if v == [] then r
    else
      var from := From(r, v) + {sender};
      r.(dCount := r.dCount[v := from], d := if |from| == k then Some(v) else r.d)
  }

  /** What `VerifyShareCommitment` accepts. */
  ghost predicate UpToSign<P>(g: Group<P>, c: P, d: seq<P>, i: int) {
    c == PointEval(g, d, i) || g.add(c, PointEval(g, d, i)) == g.zero
  }

  /** The PSSID names a dealer, and C00 is the agreed polynomial at its index, up to sign. */
  ghost predicate Fits<P>(g: Group<P>, d: seq<P>, pssID: string, c00: P) {
    ParsePair(pssID, Delimiter1).Some? && UpToSign(g, c00, d, ParsePair(pssID, Delimiter1).value.1)
  }

  /** The PSSID is one of this sharing. */
  predicate Of(sharingID: string, pssID: string) {
    ParsePair(pssID, Delimiter1).Some? && ParsePair(pssID, Delimiter1).value.0 == sharingID
  }

  /** The handler of `complete` starts: it fails on a PSSID that does not parse, else it waits for an agreed polynomial, in
      the record of the sharing that the PSSID names. */
  function OnComplete<P(==)>(sharingID: string, r: Record<P>, m: Completed<P>): Record<P> {
    if Of(sharingID, m.pssID) then r.(waiting := r.waiting + {m}) else r
  }

  /** The wait is over: the sharing is counted under its PSSID if it matches. */
  ghost function OnResume<P>(g: Group<P>, r: Record<P>, m: Completed<P>): Record<P> {
    if r.d.None? || m !in r.waiting then r
    else r.(waiting := r.waiting - {m}, done := if Fits(g, r.d.value, m.pssID, m.c00) then r.done[m.pssID := m.c00] else r.done)
  }

  /** The sharing that is counted when the wait for m ends is the K-th: the proposal is made. */
  ghost predicate Proposes<P>(g: Group<P>, k: nat, r: Record<P>, m: Completed<P>) {
    r.d.Some? && m in r.waiting && Fits(g, r.d.value, m.pssID, m.c00) && |OnResume(g, r, m).done| == k
  }

  class Recoverer<P(!new,==)> {
    const g: Group<P>
    const k: nat
    const sharingID: string
    var record: Record<P>

    constructor (g: Group<P>, k: nat, sharingID: string)
      ensures this.g == g && this.k == k && this.sharingID == sharingID && record == Empty()
    {
      this.g, this.k, this.sharingID := g, k, sharingID;
      record := Empty();
    }

    method ProcessRecover(sender: int, v: seq<P>)
      modifies `record
      ensures record == OnRecover(k, old(record), sender, v)
    {
      if |v| == 0 {
        return;
      }
      if v !in record.dCount {
        record := record.(dCount := record.dCount[v := {}]);
      }
      var dCount := record.dCount[v] + {sender};
      record := record.(dCount := record.dCount[v := dCount]);
      if |dCount| == k {
        record := record.(d := Some(v));
      }
    }

    method ProcessComplete(m: Completed<P>) returns (ok: bool)
      modifies `record
      ensures record == OnComplete(sharingID, old(record), m) && ok == ParsePair(m.pssID, Delimiter1).Some?
    {
      var details := ParsePair(m.pssID, Delimiter1);
      ok := details.Some?;
      if ok && details.value.0 == sharingID {
        record := record.(waiting := record.waiting + {m});
      }
    }

    /** A waiting handler finds an agreed polynomial. The proposal is made when this returns true. */
    method Resume(m: Completed<P>) returns (propose: bool)
      requires Laws(g) && m in record.waiting && record.d.Some?
      modifies `record
      ensures record == OnResume(g, old(record), m)
      ensures propose == Proposes(g, k, old(record), m)
    {
      record := record.(waiting := record.waiting - {m});
      var details := ParsePair(m.pssID, Delimiter1);
      if details.None? {
        return false;
      }
      var verified := VerifyShareCommitment(g, m.c00, record.d.value, details.value.1);
      if !verified {
        return false;
      }
      record := record.(done := record.done[m.pssID := m.c00]);
      propose := |record.done| == k;
    }
  }

  // ----- every run

  datatype Arrival<P> = Announce(sender: int, v: seq<P>) | Complete(m: Completed<P>) | Resumed(m: Completed<P>)

  ghost function After<P>(g: Group<P>, k: nat, sharingID: string, es: seq<Arrival<P>>): Record<P> {
    if es == [] then Empty() else OnArrival(g, k, sharingID, After(g, k, sharingID, es[..|es| - 1]), es[|es| - 1])
  }

  ghost function OnArrival<P>(g: Group<P>, k: nat, sharingID: string, r: Record<P>, e: Arrival<P>): Record<P> {
    match e
    case Announce(sender, v) => OnRecover(k, r, sender, v)
    case Complete(m) => OnComplete(sharingID, r, m)
    case Resumed(m) => OnResume(g, r, m)
  }

  lemma AfterOne<P>(g: Group<P>, k: nat, sharingID: string, es: seq<Arrival<P>>, e: Arrival<P>)
    ensures After(g, k, sharingID, es + [e]) == OnArrival(g, k, sharingID, After(g, k, sharingID, es), e)
  {
    assert (es + [e])[..|es + [e]| - 1] == es;
  }

  /** Old nodes outside bad announce the commitment polynomial d0 of the key. */
  ghost predicate Truthful<P>(bad: set<int>, d0: seq<P>, es: seq<Arrival<P>>) {
    forall i :: 0 <= i < |es| && es[i].Announce? && es[i].sender !in bad ==> es[i].v == d0
  }

  ghost predicate Agreed<P(!new)>(g: Group<P>, bad: set<int>, d0: seq<P>, r: Record<P>) {
    && (forall v, x :: x in From(r, v) && x !in bad ==> v == d0)
    && (r.d.Some? ==> r.d.value == d0)
    && (forall id :: id in r.done ==> Fits(g, d0, id, r.done[id]))
  }

  lemma RecoverAgrees<P(!new)>(g: Group<P>, k: nat, bad: set<int>, d0: seq<P>, r: Record<P>, sender: int, v: seq<P>)
    requires |bad| < k && Agreed(g, bad, d0, r) && (sender !in bad ==> v == d0)
    ensures Agreed(g, bad, d0, OnRecover(k, r, sender, v))
  {
    var r' := OnRecover(k, r, sender, v);
    if v != [] {
      forall w, x | x in From(r', w) && x !in bad ensures w == d0 {
        assert w == v || x in From(r, w);
        assert x in From(r, w) || x == sender;
      }
      if |From(r', v)| == k {
        var x := Outside(From(r', v), bad);
        assert x in From(r', v);
      }
    }
  }

  lemma FromSame<P(!new)>(g: Group<P>, bad: set<int>, d0: seq<P>, r: Record<P>, r': Record<P>)
    requires Agreed(g, bad, d0, r) && r'.dCount == r.dCount && r'.d == r.d
    requires forall id :: id in r'.done ==> Fits(g, d0, id, r'.done[id])
    ensures Agreed(g, bad, d0, r')
  {
    forall w, x | x in From(r', w) && x !in bad ensures w == d0 {
      assert x in From(r, w);
    }
  }

  /** With fewer than K bad old nodes, in every run the agreed polynomial can only be the true one, and
      every counted sharing carries its value at the dealer's index, up to sign. */
  lemma {:induction false} OnlyTheOldCommitment<P(!new)>(g: Group<P>, k: nat, sharingID: string, bad: set<int>, d0: seq<P>,
                                                         es: seq<Arrival<P>>)
    requires |bad| < k && Truthful(bad, d0, es)
    ensures Agreed(g, bad, d0, After(g, k, sharingID, es))
  {
    if es != [] {
      var n := |es| - 1;
      OnlyTheOldCommitment(g, k, sharingID, bad, d0, es[..n]);
      var r := After(g, k, sharingID, es[..n]);
      match es[n] {
        case Announce(sender, v) => RecoverAgrees(g, k, bad, d0, r, sender, v);
        case Complete(m) => FromSame(g, bad, d0, r, OnComplete(sharingID, r, m));
        case Resumed(m) => FromSame(g, bad, d0, r, OnResume(g, r, m));
      }
    }
  }

  // ----- who is counted

  /** Only PSSIDs of this sharing wait or are counted. */
  lemma {:induction false} OnlyThisSharing<P>(g: Group<P>, k: nat, sharingID: string, es: seq<Arrival<P>>)
    ensures var r := After(g, k, sharingID, es);
            (forall m :: m in r.waiting ==> Of(sharingID, m.pssID)) && forall id :: id in r.done ==> Of(sharingID, id)
  {
    if es != [] {
      OnlyThisSharing(g, k, sharingID, es[..|es| - 1]);
    }
  }

  function DealerOf(id: string): int {
    var d := ParsePair(id, Delimiter1);
    if d.Some? then d.value.1 else 0
  }

  ghost function DealersOf(ids: set<string>): set<int> { set id | id in ids :: DealerOf(id) }

  lemma SameName(sharingID: string, a: string, b: string)
    requires Of(sharingID, a) && Of(sharingID, b) && Plain(a) && Plain(b) && DealerOf(a) == DealerOf(b)
    ensures a == b
  {
  }

  lemma {:induction false} PlainNames(sharingID: string, ids: set<string>)
    requires forall id :: id in ids ==> Of(sharingID, id) && Plain(id)
    ensures |DealersOf(ids)| == |ids|
  {
    if ids != {} {
      var id := Pick(ids);
      var rest := ids - {id};
      PlainNames(sharingID, rest);
      forall other | other in rest ensures DealerOf(other) != DealerOf(id) {
        if DealerOf(other) == DealerOf(id) { SameName(sharingID, id, other); }
      }
      assert DealersOf(ids) == DealersOf(rest) + {DealerOf(id)};
    }
  }

  /** In every run: if all counted PSSIDs are plain, they name as many dealers as there are PSSIDs. */
  lemma PlainCountsDealers<P>(g: Group<P>, k: nat, sharingID: string, es: seq<Arrival<P>>)
    requires forall id :: id in After(g, k, sharingID, es).done ==> Plain(id)
    ensures |DealersOf(After(g, k, sharingID, es).done.Keys)| == |After(g, k, sharingID, es).done|
  {
    var done := After(g, k, sharingID, es).done;
    OnlyThisSharing(g, k, sharingID, es);
    PlainNames(sharingID, done.Keys);
    assert |done| == |done.Keys|;
  }

  // ----- what the counted sharings give

  /** The sharings `ended` are the counted ones of these PSSIDs. */
  ghost predicate Counted<P>(r: Record<P>, ids: seq<string>, ended: seq<Ended<P>>) {
    && |ids| == |ended|
    && forall i :: 0 <= i < |ids| ==>
         && ids[i] in r.done && |ended[i].cbar| > 0 && |ended[i].cbar[0]| > 0 && r.done[ids[i]] == ended[i].cbar[0][0]
         && ended[i].dealer == DealerOf(ids[i])
  }

  /** Different plain PSSIDs: the dealers are distinct, node indexes being what they are. */
  lemma PlainDealersDistinct<P>(g: Group<P>, k: nat, sharingID: string, es: seq<Arrival<P>>, ids: seq<string>, ended: seq<Ended<P>>)
    requires g.q > 0 && Counted(After(g, k, sharingID, es), ids, ended)
    requires forall i, j :: 0 <= i < j < |ids| ==> ids[i] != ids[j]
    requires forall i :: 0 <= i < |ids| ==> Plain(ids[i]) && 0 < ended[i].dealer < g.q
    ensures DistinctMod(Dealers(ended), g.q)
  {
    OnlyThisSharing(g, k, sharingID, es);
    forall i, j | 0 <= i < j < |ids| ensures !Cong(Dealers(ended)[i], Dealers(ended)[j], g.q) {
      if Cong(ended[i].dealer, ended[j].dealer, g.q) {
        ReducedUnique(ended[i].dealer, ended[j].dealer, g.q);
        SameName(sharingID, ids[i], ids[j]);
      }
    }
  }

  /** The refreshed constant term. */
  ghost function Refreshed<P(!new)>(g: Group<P>, ended: seq<Ended<P>>, k: nat): P
    requires Laws(g) && k > 0 && Shaped(ended, k)
  {
    CombinePolys(g, Lambdas(g.q, Dealers(ended), 0), FirstColumns(ended), k)[0]
  }

  /** So K counted sharings under different plain PSSIDs, each with the sign right, keep the public commitment: the
      refreshed `Vbar` has the old constant term. */
  lemma CountedSharingsKeepCommitment<P(!new)>(g: Group<P>, k: nat, sharingID: string, bad: set<int>, d0: seq<P>,
                                               es: seq<Arrival<P>>, ids: seq<string>, ended: seq<Ended<P>>, kNew: nat)
    requires Laws(g) && |bad| < k && Truthful(bad, d0, es) && Counted(After(g, k, sharingID, es), ids, ended)
    requires kNew > 0 && Shaped(ended, kNew) && 0 < |d0| <= |ended|
    requires forall i, j :: 0 <= i < j < |ids| ==> ids[i] != ids[j]
    requires forall i :: 0 <= i < |ids| ==>
               && Plain(ids[i]) && 0 < ended[i].dealer < g.q
               && g.add(ended[i].cbar[0][0], PointEval(g, d0, ended[i].dealer)) != g.zero
    ensures Refreshed(g, ended, kNew) == d0[0]
  {
    PlainDealersDistinct(g, k, sharingID, es, ids, ended);
    OnlyTheOldCommitment(g, k, sharingID, bad, d0, es);
    forall e | e in ended ensures e.cbar[0][0] == PointEval(g, d0, e.dealer) {
      var i :| 0 <= i < |ended| && ended[i] == e;
      assert Fits(g, d0, ids[i], After(g, k, sharingID, es).done[ids[i]]);
    }
    VbarKeepsPublicCommitment(g, ended, kNew, d0);
  }

  /** One C00 in doubt, the others right: the refreshed constant term is the old one exactly if that C00 is right too. */
  lemma RefreshedIff<P(!new)>(g: Group<P>, ended: seq<Ended<P>>, k: nat, d0: seq<P>, n: nat)
    requires Laws(g) && k > 0 && Shaped(ended, k) && 0 < |d0| <= |ended| && n < |ended|
    requires DistinctMod(Dealers(ended), g.q) && forall i :: 0 <= i < |ended| ==> !Cong(0, ended[i].dealer, g.q)
    requires forall i :: 0 <= i < |ended| && i != n ==> ended[i].cbar[0][0] == PointEval(g, d0, ended[i].dealer)
    ensures Refreshed(g, ended, k) == d0[0] <==> ended[n].cbar[0][0] == PointEval(g, d0, ended[n].dealer)
  {
    var xs, us := Dealers(ended), Column(FirstColumns(ended), 0);
    var vs := seq(|ended|, i requires 0 <= i < |ended| => PointEval(g, d0, xs[i]));
    PointReproduces(g, d0, xs, 0, vs);
    ConstantTerm(g, d0);
    LambdaNonzero(g.q, xs, n, 0);
    LinCombDiffer(g, Lambdas(g.q, xs, 0), us, vs, n);
  }

  /** The negative of a C00 is counted exactly if the C00 is, and it is another point unless zero. */
  lemma FlippedSignCounts<P(!new)>(g: Group<P>, d: seq<P>, pssID: string, c00: P)
    requires Laws(g) && g.q != 2
    ensures Fits(g, d, pssID, c00) <==> Fits(g, d, pssID, g.Neg(c00))
    ensures c00 != g.zero ==> g.Neg(c00) != c00
  {
    if ParsePair(pssID, Delimiter1).Some? {
      NegUpToSign(g, c00, PointEval(g, d, ParsePair(pssID, Delimiter1).value.1));
    }
    if g.Neg(c00) == c00 { NegDiffers(g, c00); }
  }

  lemma NegUpToSign<P(!new)>(g: Group<P>, a: P, b: P)
    requires Laws(g)
    ensures (a == b || g.add(a, b) == g.zero) <==> (g.Neg(a) == b || g.add(g.Neg(a), b) == g.zero)
  {
    DiffZero(g, b, a);
    AddComm(g, g.Neg(a), b);
    DiffZero(g, b, g.Neg(a));
    MulMul(g, -1, -1, a);
    MulUnits(g, a);
    AddComm(g, a, b);
  }

  lemma NegDiffers<P(!new)>(g: Group<P>, a: P)
    requires Laws(g) && g.q != 2 && g.Neg(a) == a
    ensures a == g.zero
  {
    AddNeg(g, a);
    MulAdd(g, 1, 1, a);
    MulUnits(g, a);
    TwoIsUnit(g.q);
    MulCancel(g, 2, a);
  }

  lemma TwoIsUnit(q: nat)
    requires IsPrime(q) && q != 2
    ensures !Cong(2, 0, q)
  {
    ModUnique(2, 0, 2, q);
    ModUnique(0, 0, 0, q);
  }

  /** Over every run: among counted sharings of distinct dealers, all but number n with the sign right, the refreshed
      constant term is the old one exactly if n has not carried the negative of a nonzero value. */
  lemma SignIff<P(!new)>(g: Group<P>, k: nat, sharingID: string, bad: set<int>, d0: seq<P>,
                         es: seq<Arrival<P>>, ids: seq<string>, ended: seq<Ended<P>>, kNew: nat, n: nat)
    requires Laws(g) && |bad| < k && Truthful(bad, d0, es) && Counted(After(g, k, sharingID, es), ids, ended)
    requires kNew > 0 && Shaped(ended, kNew) && 0 < |d0| <= |ended| && n < |ended|
    requires DistinctMod(Dealers(ended), g.q) && forall i :: 0 <= i < |ended| ==> !Cong(0, ended[i].dealer, g.q)
    requires forall i :: 0 <= i < |ended| && i != n ==> ended[i].cbar[0][0] == PointEval(g, d0, ended[i].dealer)
    ensures var v := PointEval(g, d0, ended[n].dealer);
            Refreshed(g, ended, kNew) != d0[0] <==> ended[n].cbar[0][0] == g.Neg(v) && g.Neg(v) != v
  {
    var c, v := ended[n].cbar[0][0], PointEval(g, d0, ended[n].dealer);
    OnlyTheOldCommitment(g, k, sharingID, bad, d0, es);
    assert Fits(g, d0, ids[n], After(g, k, sharingID, es).done[ids[n]]);
    RefreshedIff(g, ended, kNew, d0, n);
    DiffZero(g, c, g.Neg(v));
    MulMul(g, -1, -1, v);
    MulUnits(g, v);
  }

  // ----- one dealer counted twice

  /** Two spellings of dealer 1. */
  function One(sharingID: string): string { Join([sharingID, "1"], Delimiter1) }
  function PlusOne(sharingID: string): string { Join([sharingID, "+1"], Delimiter1) }

  lemma OneDealerTwoNames(sharingID: string)
    requires Delimiter1 !in sharingID
    ensures var a, b := One(sharingID), PlusOne(sharingID);
            a != b && ParsePair(a, Delimiter1) == ParsePair(b, Delimiter1) == Some((sharingID, 1))
  {
    SplitJoin([sharingID, "1"], Delimiter1);
    SplitJoin([sharingID, "+1"], Delimiter1);
    assert "+1"[1..] == "1";
    assert ParseDigits("1", 10) == Some(1);
    assert [sharingID, "1"][1] != [sharingID, "+1"][1];
  }

  /** K = 2: two old nodes announce d, and a sharing is counted under each of two names. */
  ghost function TwiceCounted<P>(d: seq<P>, c00: P, a: string, b: string): seq<Arrival<P>> {
    [Announce(1, d), Announce(2, d), Complete(Completed(a, c00)), Complete(Completed(b, c00)),
     Resumed(Completed(a, c00)), Resumed(Completed(b, c00))]
  }

  /** If both are names of dealer 1 the last `Resume` of that run makes the proposal: 2 PSSIDs are counted, and 1 dealer. */
  lemma ProposedByOneDealer<P(!new)>(g: Group<P>, sharingID: string, d: seq<P>, a: string, b: string)
    requires d != [] && a != b && ParsePair(a, Delimiter1) == ParsePair(b, Delimiter1) == Some((sharingID, 1))
    ensures var r := After(g, 2, sharingID, TwiceCounted(d, PointEval(g, d, 1), a, b));
            |r.done| == 2 && DealersOf(r.done.Keys) == {1}
  {
    var c00 := PointEval(g, d, 1);
    var es := BothWait(g, sharingID, d, Completed(a, c00), Completed(b, c00));
    BothResume(g, 2, sharingID, es, TwiceCounted(d, c00, a, b), d, Completed(a, c00), Completed(b, c00));
    TwoNamesOneDealer(a, b, c00);
  }

  lemma TwoNamesOneDealer<P>(a: string, b: string, c00: P)
    requires a != b && DealerOf(a) == DealerOf(b) == 1
    ensures var done := map[a := c00, b := c00]; |done| == 2 && DealersOf(done.Keys) == {1}
  {
    var done := map[a := c00, b := c00];
    assert done.Keys == {a, b} && |done| == |done.Keys|;
  }

  lemma BothWait<P>(g: Group<P>, sharingID: string, d: seq<P>, a: Completed<P>, b: Completed<P>) returns (es: seq<Arrival<P>>)
    requires d != [] && Of(sharingID, a.pssID) && Of(sharingID, b.pssID)
    ensures es == [Announce(1, d), Announce(2, d), Complete(a), Complete(b)]
    ensures var r := After(g, 2, sharingID, es); r.d == Some(d) && r.done == map[] && a in r.waiting && b in r.waiting
  {
    es := TwoAnnounce(g, sharingID, d);
    AfterOne(g, 2, sharingID, es, Complete(a));
    AfterOne(g, 2, sharingID, es + [Complete(a)], Complete(b));
    es := es + [Complete(a)] + [Complete(b)];
  }

  lemma BothResume<P>(g: Group<P>, k: nat, sharingID: string, es: seq<Arrival<P>>, all: seq<Arrival<P>>, d: seq<P>,
                      a: Completed<P>, b: Completed<P>)
    requires all == es + [Resumed(a)] + [Resumed(b)]
    requires var r := After(g, k, sharingID, es); r.d == Some(d) && r.done == map[] && a in r.waiting && b in r.waiting
    requires a.pssID != b.pssID && Fits(g, d, a.pssID, a.c00) && Fits(g, d, b.pssID, b.c00)
    ensures After(g, k, sharingID, all).done == map[a.pssID := a.c00, b.pssID := b.c00]
  {
    AfterOne(g, k, sharingID, es, Resumed(a));
    AfterOne(g, k, sharingID, es + [Resumed(a)], Resumed(b));
  }

  lemma SameIndexTwice(x: int, t: int)
    ensures Num([x, x], x, t) == 1
  {
    assert [x, x][..1] == [x] && [x][..0] == [];
    assert Num([x], x, t) == Num([x][..0], x, t);
  }

  /** And the refreshed constant term is then twice the value at that dealer. */
  lemma RepeatedDealer<P(!new)>(g: Group<P>, ended: seq<Ended<P>>, k: nat, v: P)
    requires Laws(g) && k > 0 && Shaped(ended, k) && |ended| == 2 && ended[0].dealer == ended[1].dealer
    requires ended[0].cbar[0][0] == ended[1].cbar[0][0] == v
    ensures Refreshed(g, ended, k) == g.mul(2, v)
  {
    var x, cs := ended[0].dealer, Lambdas(g.q, Dealers(ended), 0);
    assert Dealers(ended) == [x, x];
    SameIndexTwice(x, 0);
    SameIndexTwice(x, x);
    ModUnique(1, 0, 1, g.q);
    ModUnique(0, 0, 0, g.q);
    InvOrZeroCorrect(1, g.q);
    assert CongSeq(cs, [1, 1], g.q);
    var us := Column(FirstColumns(ended), 0);
    assert us == [v, v];
    LinCombCong(g, cs, [1, 1], us);
    assert [v, v][..1] == [v] && [1, 1][..1] == [1] && [v][..0] == [] && [1][..0] == [];
    assert LinComb(g, [1], [v]) == g.add(g.mul(1, v), LinComb(g, [], []));
    assert LinComb(g, [1, 1], [v, v]) == g.add(g.mul(1, v), LinComb(g, [1], [v]));
    MulUnits(g, v);
    AddZero(g, v);
    MulAdd(g, 1, 1, v);
  }

  lemma TwoAnnounce<P>(g: Group<P>, sharingID: string, d: seq<P>) returns (es: seq<Arrival<P>>)
    requires d != []
    ensures es == [Announce(1, d), Announce(2, d)]
    ensures var r := After(g, 2, sharingID, es); r.d == Some(d) && r.done == map[]
  {
    es := [Announce(1, d)] + [Announce(2, d)];
    AfterOne(g, 2, sharingID, [], Announce(1, d));
    assert [] + [Announce(1, d)] == [Announce(1, d)];
    AfterOne(g, 2, sharingID, [Announce(1, d)], Announce(2, d));
    var r1 := After(g, 2, sharingID, [Announce(1, d)]);
    assert From(r1, d) + {2} == {1, 2} && |{1, 2}| == 2;
  }

  /** K = 1: a dealer whose C00 is the negative of the true one is counted, and the refreshed key is not the old one. */
  lemma NegatedKey<P(!new)>(g: Group<P>, sharingID: string)
    requires Laws(g) && g.q != 2 && g.G != g.zero && Delimiter1 !in sharingID
    ensures var m := Completed(One(sharingID), g.Neg(g.G));
            var r := After(g, 1, sharingID, [Announce(1, [g.G]), Complete(m), Resumed(m)]);
            var ended := [Ended(1, 0, 0, [[g.Neg(g.G)]])];
            Counted(r, [One(sharingID)], ended) && Shaped(ended, 1) && Refreshed(g, ended, 1) != g.G
  {
    var d, m := [g.G], Completed(One(sharingID), g.Neg(g.G));
    var es := [Announce(1, d), Complete(m), Resumed(m)];
    OneDealerTwoNames(sharingID);
    ConstantValue(g, g.G, 1);
    FlippedSignCounts(g, d, m.pssID, g.G);
    OneCounted(g, sharingID, d, m);
    var ended := [Ended(1, 0, 0, [[g.Neg(g.G)]])];
    assert !Cong(0, 1, g.q) by { if Cong(0, 1, g.q) { ReducedUnique(0, 1, g.q); } }
    SignIff(g, 1, sharingID, {}, d, es, [m.pssID], ended, 1, 0);
  }

  lemma OneCounted<P>(g: Group<P>, sharingID: string, d: seq<P>, m: Completed<P>)
    requires d != [] && Of(sharingID, m.pssID) && Fits(g, d, m.pssID, m.c00)
    ensures After(g, 1, sharingID, [Announce(1, d), Complete(m), Resumed(m)]).done == map[m.pssID := m.c00]
  {
    var e1, e2, e3 := Announce(1, d), Complete(m), Resumed(m);
    AfterOne(g, 1, sharingID, [], e1);
    assert [] + [e1] == [e1] && [e1] + [e2] == [e1, e2] && [e1, e2] + [e3] == [e1, e2, e3];
    AfterOne(g, 1, sharingID, [e1], e2);
    AfterOne(g, 1, sharingID, [e1, e2], e3);
    assert |{} + {1}| == 1;
  }
}
