/** What a re-sharing record holds, told by the messages that arrived: the announcements of each polynomial, the polynomial that
    reached K of them last, and the sharings that were completed and fit it. */
module Announcing {
  import opened Modular
  import opened Sets
  import opened Curve
  import opened Recovery

  ghost predicate Announces<P>(e: Arrival<P>, x: int, v: seq<P>) {
    e.Announce? && e.sender == x && e.v == v
  }

  ghost predicate AnnouncedBy<P>(es: seq<Arrival<P>>, x: int, v: seq<P>) {
    exists i :: 0 <= i < |es| && Announces(es[i], x, v)
  }

  /** Those that announced v. */
  ghost function Announcers<P>(es: seq<Arrival<P>>, v: seq<P>): (r: set<int>)
    ensures forall x :: x in r <==> AnnouncedBy(es, x, v)
  {
    var r := set i | 0 <= i < |es| && es[i].Announce? && es[i].v == v :: es[i].sender;
    assert forall x :: x in r ==> AnnouncedBy(es, x, v);
    assert forall i :: 0 <= i < |es| && es[i].Announce? && es[i].v == v ==> es[i].sender in r;
    r
  }

  lemma AnnouncersMore<P>(es: seq<Arrival<P>>, e: Arrival<P>, v: seq<P>)
    ensures Announcers(es + [e], v) == Announcers(es, v) + (if e.Announce? && e.v == v then {e.sender} else {})
  {
    var all := es + [e];
    forall x ensures AnnouncedBy(all, x, v) <==> AnnouncedBy(es, x, v) || Announces(e, x, v) {
      assert all[|es|] == e;
      if AnnouncedBy(es, x, v) {
        var i :| 0 <= i < |es| && Announces(es[i], x, v);
        assert all[i] == es[i];
      }
    }
  }

  /** Over every run the senders counted for a polynomial are those that announced it; none for the empty one. */
  lemma {:induction false} AnnouncersCounted<P>(g: Group<P>, k: nat, sharingID: string, es: seq<Arrival<P>>, v: seq<P>)
    ensures From(After(g, k, sharingID, es), v) == if v == [] then {} else Announcers(es, v)
  {
    if es != [] {
      var n := |es| - 1;
      assert es == es[..n] + [es[n]];
      AnnouncersCounted(g, k, sharingID, es[..n], v);
      AnnouncersMore(es[..n], es[n], v);
      FromMoves(g, k, sharingID, After(g, k, sharingID, es[..n]), es[n], v);
    }
  }

  lemma FromMoves<P>(g: Group<P>, k: nat, sharingID: string, r: Record<P>, e: Arrival<P>, v: seq<P>)
    ensures From(OnArrival(g, k, sharingID, r, e), v) == From(r, v) + if e.Announce? && e.v == v != [] then {e.sender} else {}
  {
  }

  /** Announcement number i leaves exactly K senders of its polynomial. */
  ghost predicate ReachesAt<P>(k: nat, es: seq<Arrival<P>>, i: int, v: seq<P>) {
    0 <= i < |es| && es[i].Announce? && es[i].v == v != [] && |Announcers(es[..i + 1], v)| == k
  }

  ghost predicate NoneReaches<P>(k: nat, es: seq<Arrival<P>>, from: int) {
    forall i :: 0 <= i < |es| && from <= i && es[i].Announce? ==> !ReachesAt(k, es, i, es[i].v)
  }

  lemma ReachesSame<P>(k: nat, es: seq<Arrival<P>>, n: nat, i: int, v: seq<P>)
    requires n <= |es| && i < n
    ensures ReachesAt(k, es[..n], i, v) <==> ReachesAt(k, es, i, v)
  {
    if 0 <= i {
      assert es[..n][..i + 1] == es[..i + 1];
    }
  }

  /** The last announcement that left exactly K was one of v. */
  ghost predicate LastReached<P>(k: nat, es: seq<Arrival<P>>, v: seq<P>) {
    exists i :: ReachesAt(k, es, i, v) && NoneReaches(k, es, i + 1)
  }

  lemma LastReachedMoves<P>(k: nat, es: seq<Arrival<P>>, v: seq<P>)
    requires es != []
    ensures var n, e := |es| - 1, es[|es| - 1];
            LastReached(k, es, v) <==> if e.Announce? && ReachesAt(k, es, n, e.v) then v == e.v else LastReached(k, es[..n], v)
  {
    var n, e := |es| - 1, es[|es| - 1];
    forall i, w | i < n ensures ReachesAt(k, es[..n], i, w) <==> ReachesAt(k, es, i, w) {
      ReachesSame(k, es, n, i, w);
    }
    if e.Announce? && ReachesAt(k, es, n, e.v) {
      assert NoneReaches(k, es, n + 1);
      forall i | ReachesAt(k, es, i, v) && NoneReaches(k, es, i + 1) ensures v == e.v {
        assert i == n;
      }
    } else {
      assert forall i :: i <= n ==> (NoneReaches(k, es[..n], i) <==> NoneReaches(k, es, i));
    }
  }

  /** Over every run the agreed polynomial is that of the last announcement that left exactly K. */
  lemma {:induction false} AgreedIff<P>(g: Group<P>, k: nat, sharingID: string, es: seq<Arrival<P>>, v: seq<P>)
    ensures After(g, k, sharingID, es).d == Some(v) <==> LastReached(k, es, v)
  {
    if es != [] {
      AgreedIff(g, k, sharingID, es[..|es| - 1], v);
      LastReachedMoves(k, es, v);
      if es[|es| - 1].Announce? {
        LastAnnounced(g, k, sharingID, es);
      }
    }
  }

  lemma LastAnnounced<P>(g: Group<P>, k: nat, sharingID: string, es: seq<Arrival<P>>)
    requires es != [] && es[|es| - 1].Announce?
    ensures var n, e := |es| - 1, es[|es| - 1];
            After(g, k, sharingID, es).d ==
            if ReachesAt(k, es, n, e.v) then Some(e.v) else After(g, k, sharingID, es[..n]).d
  {
    var n, e := |es| - 1, es[|es| - 1];
    AnnouncersCounted(g, k, sharingID, es, e.v);
    AnnouncersCounted(g, k, sharingID, es[..n], e.v);
    assert es[..n + 1] == es;
    assert es == es[..n] + [e];
    AnnouncersMore(es[..n], e, e.v);
  }

  /** Hence a polynomial is agreed exactly if some polynomial has K announcers, and the agreed one has. */
  lemma SomeAgreedIff<P(!new)>(g: Group<P>, k: nat, sharingID: string, es: seq<Arrival<P>>)
    requires k >= 1
    ensures var r := After(g, k, sharingID, es);
            && (r.d.Some? <==> exists v :: v != [] && |Announcers(es, v)| >= k)
            && (r.d.Some? ==> r.d.value != [] && |Announcers(es, r.d.value)| >= k)
  {
    var r := After(g, k, sharingID, es);
    if r.d.Some? {
      var v := r.d.value;
      AgreedIff(g, k, sharingID, es, v);
      var i :| ReachesAt(k, es, i, v);
      AnnouncersGrow(es, i + 1, v);
    }
    if v :| v != [] && |Announcers(es, v)| >= k {
      SomeAgreed(g, k, sharingID, es, v);
    }
  }

  lemma AnnouncersGrow<P>(es: seq<Arrival<P>>, n: nat, v: seq<P>)
    requires n <= |es|
    ensures Announcers(es[..n], v) <= Announcers(es, v) && |Announcers(es[..n], v)| <= |Announcers(es, v)|
  {
    forall x | AnnouncedBy(es[..n], x, v) ensures AnnouncedBy(es, x, v) {
      var i :| 0 <= i < n && Announces(es[..n][i], x, v);
      assert es[i] == es[..n][i];
    }
    SubsetSize(Announcers(es[..n], v), Announcers(es, v));
  }

  lemma {:induction false} SomeAgreed<P>(g: Group<P>, k: nat, sharingID: string, es: seq<Arrival<P>>, v: seq<P>)
    requires k >= 1 && v != [] && |Announcers(es, v)| >= k
    ensures After(g, k, sharingID, es).d.Some?
  {
    if es == [] {
      assert false;
    } else {
      var n := |es| - 1;
      var e := es[n];
      assert es == es[..n] + [e] && es[..n + 1] == es;
      AnnouncersMore(es[..n], e, v);
      if |Announcers(es[..n], v)| >= k {
        SomeAgreed(g, k, sharingID, es[..n], v);
      } else {
        assert ReachesAt(k, es, n, v);
      }
      if e.Announce? {
        LastAnnounced(g, k, sharingID, es);
      }
    }
  }

  // ----- counted sharings

  /** The wait for m ends at j. */
  ghost predicate EndsAt<P>(g: Group<P>, k: nat, sharingID: string, es: seq<Arrival<P>>, m: Completed<P>, j: int) {
    0 <= j < |es| && es[j] == Resumed(m) && m in After(g, k, sharingID, es[..j]).waiting && After(g, k, sharingID, es[..j]).d.Some?
  }

  /** It ends with m counted: m fits the polynomial agreed by then. */
  ghost predicate CountsAt<P>(g: Group<P>, k: nat, sharingID: string, es: seq<Arrival<P>>, m: Completed<P>, j: int) {
    EndsAt(g, k, sharingID, es, m, j) && Fits(g, After(g, k, sharingID, es[..j]).d.value, m.pssID, m.c00)
  }

  /** m arrived at i, for this sharing, and its wait has not ended since. */
  ghost predicate WaitsFrom<P>(g: Group<P>, k: nat, sharingID: string, es: seq<Arrival<P>>, m: Completed<P>, i: int) {
    && 0 <= i < |es| && es[i] == Complete(m) && Of(sharingID, m.pssID)
    && forall j :: i < j ==> !EndsAt(g, k, sharingID, es, m, j)
  }

  lemma EndsMore<P>(g: Group<P>, k: nat, sharingID: string, es: seq<Arrival<P>>, e: Arrival<P>, m: Completed<P>)
    ensures forall j :: j < |es| ==> (EndsAt(g, k, sharingID, es + [e], m, j) <==> EndsAt(g, k, sharingID, es, m, j))
    ensures forall j :: j < |es| ==> (CountsAt(g, k, sharingID, es + [e], m, j) <==> CountsAt(g, k, sharingID, es, m, j))
    ensures EndsAt(g, k, sharingID, es + [e], m, |es|) <==>
            e == Resumed(m) && m in After(g, k, sharingID, es).waiting && After(g, k, sharingID, es).d.Some?
    ensures CountsAt(g, k, sharingID, es + [e], m, |es|) <==>
            EndsAt(g, k, sharingID, es + [e], m, |es|) && Fits(g, After(g, k, sharingID, es).d.value, m.pssID, m.c00)
  {
    var all := es + [e];
    forall j | 0 <= j < |es| ensures all[..j] == es[..j] && all[j] == es[j] {
    }
    assert all[..|es|] == es && all[|es|] == e;
  }

  /** Over every run a sharing waits exactly if it arrived and its wait has not ended since. */
  lemma {:induction false} WaitingIff<P>(g: Group<P>, k: nat, sharingID: string, es: seq<Arrival<P>>, m: Completed<P>)
    ensures m in After(g, k, sharingID, es).waiting <==> exists i :: WaitsFrom(g, k, sharingID, es, m, i)
  {
    if es != [] {
      var n := |es| - 1;
      var before, e := es[..n], es[n];
      assert es == before + [e];
      WaitingIff(g, k, sharingID, before, m);
      EndsMore(g, k, sharingID, before, e, m);
      WaitsMore(g, k, sharingID, before, e, m);
    }
  }

  lemma WaitsMore<P>(g: Group<P>, k: nat, sharingID: string, es: seq<Arrival<P>>, e: Arrival<P>, m: Completed<P>)
    ensures (exists i :: WaitsFrom(g, k, sharingID, es + [e], m, i)) <==>
            || (e == Complete(m) && Of(sharingID, m.pssID))
            || (!EndsAt(g, k, sharingID, es + [e], m, |es|) && exists i :: WaitsFrom(g, k, sharingID, es, m, i))
  {
    var all, n := es + [e], |es|;
    EndsMore(g, k, sharingID, es, e, m);
    assert forall j :: j > n ==> !EndsAt(g, k, sharingID, all, m, j);
    assert forall i :: i < n ==> (WaitsFrom(g, k, sharingID, all, m, i) <==>
                                  WaitsFrom(g, k, sharingID, es, m, i) && !EndsAt(g, k, sharingID, all, m, n));
    assert WaitsFrom(g, k, sharingID, all, m, n) <==> e == Complete(m) && Of(sharingID, m.pssID);
    if i :| WaitsFrom(g, k, sharingID, es, m, i) {
      assert i < n;
    }
  }

  /** The last sharing counted under id is m. */
  ghost predicate LastCounted<P(!new)>(g: Group<P>, k: nat, sharingID: string, es: seq<Arrival<P>>, m: Completed<P>, j: int) {
    && CountsAt(g, k, sharingID, es, m, j)
    && forall m': Completed<P>, j' :: j < j' && m'.pssID == m.pssID ==> !CountsAt(g, k, sharingID, es, m', j')
  }

  /** Over every run a PSSID is counted with C00 exactly if that of the last sharing counted under it. */
  lemma {:induction false} CountedIff<P(!new)>(g: Group<P>, k: nat, sharingID: string, es: seq<Arrival<P>>, m: Completed<P>)
    ensures var done := After(g, k, sharingID, es).done;
            m.pssID in done && done[m.pssID] == m.c00 <==> exists j :: LastCounted(g, k, sharingID, es, m, j)
  {
    if es != [] {
      var n := |es| - 1;
      var before, e := es[..n], es[n];
      assert es == before + [e];
      CountedIff(g, k, sharingID, before, m);
      LastMore(g, k, sharingID, before, e, m);
    }
  }

  ghost predicate CountsNow<P>(g: Group<P>, r: Record<P>, e: Arrival<P>) {
    e.Resumed? && e.m in r.waiting && r.d.Some? && Fits(g, r.d.value, e.m.pssID, e.m.c00)
  }

  lemma LastMore<P(!new)>(g: Group<P>, k: nat, sharingID: string, es: seq<Arrival<P>>, e: Arrival<P>, m: Completed<P>)
    ensures (exists j :: LastCounted(g, k, sharingID, es + [e], m, j)) <==>
            if CountsNow(g, After(g, k, sharingID, es), e) && e.m.pssID == m.pssID then e.m == m
            else exists j :: LastCounted(g, k, sharingID, es, m, j)
  {
    var all, n := es + [e], |es|;
    forall m' {
      EndsMore(g, k, sharingID, es, e, m');
    }
    assert forall m', j :: j > n ==> !CountsAt(g, k, sharingID, all, m', j);
    assert forall m' :: CountsAt(g, k, sharingID, all, m', n) <==> CountsNow(g, After(g, k, sharingID, es), e) && e.m == m';
    if CountsNow(g, After(g, k, sharingID, es), e) && e.m.pssID == m.pssID {
      assert CountsAt(g, k, sharingID, all, e.m, n);
      forall j | LastCounted(g, k, sharingID, all, m, j) ensures e.m == m {
        assert j == n;
      }
      if e.m == m {
        assert LastCounted(g, k, sharingID, all, m, n);
      }
    } else {
      forall j ensures LastCounted(g, k, sharingID, all, m, j) <==> LastCounted(g, k, sharingID, es, m, j) {
      }
    }
  }

  // ----- the proposal

  ghost predicate ProposedAt<P>(g: Group<P>, k: nat, sharingID: string, es: seq<Arrival<P>>, j: int) {
    0 <= j < |es| && es[j].Resumed? && Proposes(g, k, After(g, k, sharingID, es[..j]), es[j].m)
  }

  /** A proposal is made with exactly K PSSIDs counted. */
  lemma ProposedWithK<P>(g: Group<P>, k: nat, sharingID: string, es: seq<Arrival<P>>, j: int)
    requires ProposedAt(g, k, sharingID, es, j)
    ensures |After(g, k, sharingID, es[..j + 1]).done| == k
  {
    assert es[..j + 1][..j] == es[..j];
  }

  /** Over every run a proposal has been made exactly if at least K PSSIDs are counted. */
  lemma {:induction false} ProposedIff<P>(g: Group<P>, k: nat, sharingID: string, es: seq<Arrival<P>>)
    requires k >= 1
    ensures (exists j :: ProposedAt(g, k, sharingID, es, j)) <==> |After(g, k, sharingID, es).done| >= k
  {
    if es != [] {
      var n := |es| - 1;
      var before, e := es[..n], es[n];
      assert es == before + [e];
      ProposedIff(g, k, sharingID, before);
      forall j | 0 <= j < n ensures ProposedAt(g, k, sharingID, es, j) <==> ProposedAt(g, k, sharingID, before, j) {
        assert es[..j] == before[..j];
      }
      assert ProposedAt(g, k, sharingID, es, n) <==> e.Resumed? && Proposes(g, k, After(g, k, sharingID, before), e.m);
      DoneMoves(g, k, sharingID, After(g, k, sharingID, before), e);
      if j :| ProposedAt(g, k, sharingID, before, j) {
        assert ProposedAt(g, k, sharingID, es, j);
      }
    }
  }

  lemma DoneMoves<P>(g: Group<P>, k: nat, sharingID: string, r: Record<P>, e: Arrival<P>)
    ensures var r' := OnArrival(g, k, sharingID, r, e);
            && |r.done| <= |r'.done| <= |r.done| + 1
            && (|r'.done| > |r.done| ==> CountsNow(g, r, e))
  {
    if CountsNow(g, r, e) && e.m.pssID in r.done {
      assert r.done[e.m.pssID := e.m.c00].Keys == r.done.Keys;
      assert |r.done[e.m.pssID := e.m.c00]| == |r.done[e.m.pssID := e.m.c00].Keys| == |r.done.Keys| == |r.done|;
    }
  }
}
