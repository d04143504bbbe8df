/** What a node has counted and stored, told by the messages that reached it: over every history, exactly the first echo
    and the first ready of each sender, and only if they passed their checks in time. */
module History {
  import opened Modular
  import opened Sets
  import opened Curve
  import opened Polynomials
  import opened Lagrange
  import opened Avss
  import opened Reconstruction
  import opened Interpolant
  import opened Machine
  import opened Instance
  import opened Endings

  // ----- positions in a history

  predicate IsKind<P>(m: Msg<P>, ready: bool) { !m.Send? && m.Ready? == ready }

  /** Message j is the first echo, or the first ready, of x. */
  ghost predicate FirstOf<P>(ms: seq<Msg<P>>, j: int, ready: bool, x: int) {
    && 0 <= j < |ms| && IsKind(ms[j], ready) && ms[j].from == x
    && forall i :: 0 <= i < j ==> !(IsKind(ms[i], ready) && ms[i].from == x)
  }

  /** The points open the matrix, and a ready is signed. */
  ghost predicate Sound<P>(cfg: Config<P>, me: int, m: Msg<P>) {
    && !m.Send? && PointCheck(cfg.g, m.c, m.from, me, m.pts.alpha, m.pts.alpha') == Passed
    && (m.Ready? ==> m.signed)
  }

  ghost predicate Late<P>(cfg: Config<P>, me: int, dealer: int, ms: seq<Msg<P>>, j: int)
    requires 0 <= j <= |ms|
  {
    After(cfg, me, dealer, ms[..j]).phase.Over?
  }

  /** Message j counts x for c. */
  ghost predicate CountedAt<P>(cfg: Config<P>, me: int, dealer: int, ms: seq<Msg<P>>, j: int, ready: bool, x: int, c: Matrix<P>) {
    FirstOf(ms, j, ready, x) && ms[j].c == c && Sound(cfg, me, ms[j]) && !Late(cfg, me, dealer, ms, j)
  }

  ghost predicate Counted<P>(cfg: Config<P>, me: int, dealer: int, ms: seq<Msg<P>>, ready: bool, x: int, c: Matrix<P>) {
    exists j :: CountedAt(cfg, me, dealer, ms, j, ready, x, c)
  }

  ghost predicate Heard<P>(ms: seq<Msg<P>>, ready: bool, x: int) {
    exists j :: 0 <= j < |ms| && IsKind(ms[j], ready) && ms[j].from == x
  }

  // ----- one more message

  lemma HeardMore<P>(ms: seq<Msg<P>>, m: Msg<P>, ready: bool, x: int)
    ensures Heard(ms + [m], ready, x) <==> Heard(ms, ready, x) || (IsKind(m, ready) && m.from == x)
  {
    var all := ms + [m];
    if Heard(ms, ready, x) {
      var j :| 0 <= j < |ms| && IsKind(ms[j], ready) && ms[j].from == x;
      assert all[j] == ms[j];
    }
    if IsKind(m, ready) && m.from == x {
      assert all[|ms|] == m;
    }
  }

  lemma CountedSame<P>(cfg: Config<P>, me: int, dealer: int, ms: seq<Msg<P>>, m: Msg<P>, j: int, ready: bool, x: int, c: Matrix<P>)
    requires j < |ms|
    ensures CountedAt(cfg, me, dealer, ms + [m], j, ready, x, c) <==> CountedAt(cfg, me, dealer, ms, j, ready, x, c)
  {
    if 0 <= j {
      var all := ms + [m];
      assert all[..j] == ms[..j] && all[j] == ms[j];
      assert forall i :: 0 <= i < j ==> all[i] == ms[i];
    }
  }

  /** The last message counts x exactly if it is the first of its kind from x, sound and in time. */
  lemma CountedLast<P>(cfg: Config<P>, me: int, dealer: int, ms: seq<Msg<P>>, m: Msg<P>, ready: bool, x: int, c: Matrix<P>)
    ensures CountedAt(cfg, me, dealer, ms + [m], |ms|, ready, x, c) <==>
            && IsKind(m, ready) && m.from == x && !Heard(ms, ready, x) && m.c == c && Sound(cfg, me, m)
            && !After(cfg, me, dealer, ms).phase.Over?
  {
    var all := ms + [m];
    assert all[|ms|] == m && all[..|ms|] == ms;
    assert forall i :: 0 <= i < |ms| ==> all[i] == ms[i];
  }

  lemma CountedMore<P>(cfg: Config<P>, me: int, dealer: int, ms: seq<Msg<P>>, m: Msg<P>, ready: bool, x: int, c: Matrix<P>)
    ensures Counted(cfg, me, dealer, ms + [m], ready, x, c) <==>
            || Counted(cfg, me, dealer, ms, ready, x, c)
            || CountedAt(cfg, me, dealer, ms + [m], |ms|, ready, x, c)
  {
    if Counted(cfg, me, dealer, ms, ready, x, c) {
      var j :| CountedAt(cfg, me, dealer, ms, j, ready, x, c);
      CountedSame(cfg, me, dealer, ms, m, j, ready, x, c);
    }
    if Counted(cfg, me, dealer, ms + [m], ready, x, c) && !CountedAt(cfg, me, dealer, ms + [m], |ms|, ready, x, c) {
      var j :| CountedAt(cfg, me, dealer, ms + [m], j, ready, x, c);
      CountedSame(cfg, me, dealer, ms, m, j, ready, x, c);
    }
  }

  // ----- what one message does to marks and counts

  /** The set that counts senders of this kind, and the one that marks them. */
  function Counters(cell: Cell, ready: bool): set<int> { if ready then cell.readyFrom else cell.echoFrom }
  function Marks<P>(s: Inst<P>, ready: bool): set<int> { if ready then s.receivedReady else s.receivedEcho }

  lemma MarksAfter<P>(cfg: Config<P>, me: int, dealer: int, s: Inst<P>, m: Msg<P>, ready: bool)
    ensures Marks(OnMsg(cfg, me, dealer, s, m).inst, ready) == Marks(s, ready) + if IsKind(m, ready) then {m.from} else {}
  {
    match m
    case Send(_, _, _, _, _, _, _) =>
    case Echo(_, _, _, _) => EchoMarks(cfg, me, s, m, Verified(cfg, me, m));
    case Ready(_, _, _, _, _) => ReadyMarks(cfg, me, s, m, Verified(cfg, me, m));
  }

  lemma EchoMarks<P>(cfg: Config<P>, me: int, s: Inst<P>, m: Msg<P>, ok: bool)
    requires m.Echo?
    ensures var s' := OnEcho(cfg, me, s, m, ok).inst;
            s'.receivedEcho == s.receivedEcho + {m.from} && s'.receivedReady == s.receivedReady
  {
  }

  lemma ReadyMarks<P>(cfg: Config<P>, me: int, s: Inst<P>, m: Msg<P>, ok: bool)
    requires m.Ready?
    ensures var s' := OnReady(cfg, me, s, m, ok).inst;
            s'.receivedReady == s.receivedReady + {m.from} && s'.receivedEcho == s.receivedEcho
  {
  }

  /** The message is taken: sound, in time, and the first of its kind from its sender. */
  ghost predicate Takes<P>(cfg: Config<P>, me: int, s: Inst<P>, m: Msg<P>) {
    Sound(cfg, me, m) && !s.phase.Over? && m.from !in Marks(s, m.Ready?)
  }

  /** From s to s' the message m joined its cell, or no cell changed. */
  ghost predicate Joined<P>(s: Inst<P>, s': Inst<P>, m: Msg<P>, taken: bool, c: Matrix<P>)
    requires !m.Send?
  {
    var now, then', mine := CellOf(s, c), CellOf(s', c), taken && m.c == c;
    && then'.echoFrom == (if mine && m.Echo? then now.echoFrom + {m.from} else now.echoFrom)
    && then'.readyFrom == (if mine && m.Ready? then now.readyFrom + {m.from} else now.readyFrom)
    && then'.pts == (if mine then now.pts[m.from := m.pts] else now.pts)
  }

  lemma EchoStores<P>(cfg: Config<P>, me: int, s: Inst<P>, m: Msg<P>, ok: bool)
    requires m.Echo?
    ensures var s', cell := OnEcho(cfg, me, s, m, ok).inst, EchoCell(s, m);
            s'.cells == if ok && !s.phase.Over? && m.from !in s.receivedEcho
                        then s.cells[m.c := Kept(cfg, cell, |cell.echoFrom| == cfg.EcThreshold() && |cell.readyFrom| < cfg.k)]
                        else s.cells
  {
  }

  lemma ReadyStores<P>(cfg: Config<P>, me: int, s: Inst<P>, m: Msg<P>, ok: bool)
    requires m.Ready?
    ensures var s', cell := OnReady(cfg, me, s, m, ok).inst, ReadyCell(s, m);
            s'.cells == if ok && m.signed && !s.phase.Over? && m.from !in s.receivedReady
                        then s.cells[m.c := Kept(cfg, cell, |cell.readyFrom| == cfg.k && |cell.echoFrom| < cfg.EcThreshold())]
                        else s.cells
  {
  }

  lemma EchoJoins<P>(cfg: Config<P>, s: Inst<P>, s': Inst<P>, m: Msg<P>, taken: bool, fire: bool, c: Matrix<P>)
    requires m.Echo? && s'.cells == if taken then s.cells[m.c := Kept(cfg, EchoCell(s, m), fire)] else s.cells
    ensures Joined(s, s', m, taken, c)
  {
  }

  lemma ReadyJoins<P>(cfg: Config<P>, s: Inst<P>, s': Inst<P>, m: Msg<P>, taken: bool, fire: bool, c: Matrix<P>)
    requires m.Ready? && s'.cells == if taken then s.cells[m.c := Kept(cfg, ReadyCell(s, m), fire)] else s.cells
    ensures Joined(s, s', m, taken, c)
  {
  }

  lemma MsgJoins<P>(cfg: Config<P>, me: int, dealer: int, s: Inst<P>, m: Msg<P>, c: Matrix<P>)
    requires !m.Send?
    ensures Joined(s, OnMsg(cfg, me, dealer, s, m).inst, m, Takes(cfg, me, s, m), c)
  {
    var s', ok, taken := OnMsg(cfg, me, dealer, s, m).inst, Verified(cfg, me, m), Takes(cfg, me, s, m);
    if m.Echo? {
      var cell := EchoCell(s, m);
      EchoStores(cfg, me, s, m, ok);
      EchoJoins(cfg, s, s', m, taken, |cell.echoFrom| == cfg.EcThreshold() && |cell.readyFrom| < cfg.k, c);
    } else {
      var cell := ReadyCell(s, m);
      ReadyStores(cfg, me, s, m, ok);
      ReadyJoins(cfg, s, s', m, taken, |cell.readyFrom| == cfg.k && |cell.echoFrom| < cfg.EcThreshold(), c);
    }
  }

  lemma TakenAfter<P>(cfg: Config<P>, me: int, dealer: int, s: Inst<P>, m: Msg<P>, c: Matrix<P>, ready: bool)
    ensures var now, then', taken := CellOf(s, c), CellOf(OnMsg(cfg, me, dealer, s, m).inst, c), Takes(cfg, me, s, m) && m.c == c;
            && Counters(then', ready) == Counters(now, ready) + (if taken && IsKind(m, ready) then {m.from} else {})
            && then'.pts == (if taken then now.pts[m.from := m.pts] else now.pts)
  {
    if m.Send? {
      SendKeeps(cfg, me, dealer, s, m, Verified(cfg, me, m));
    } else {
      MsgJoins(cfg, me, dealer, s, m, c);
    }
  }

  // ----- over every history

  /** A sender is marked exactly if a message of the kind came from it, sound or not. */
  lemma {:induction false} MarkedIff<P>(cfg: Config<P>, me: int, dealer: int, ms: seq<Msg<P>>, ready: bool, x: int)
    ensures x in Marks(After(cfg, me, dealer, ms), ready) <==> Heard(ms, ready, x)
  {
    if ms != [] {
      var n := |ms| - 1;
      MarkedIff(cfg, me, dealer, ms[..n], ready, x);
      MarksAfter(cfg, me, dealer, After(cfg, me, dealer, ms[..n]), ms[n], ready);
      HeardMore(ms[..n], ms[n], ready, x);
      assert ms[..n] + [ms[n]] == ms;
    }
  }

  /** A sender is counted for c exactly if its first message of the kind was for c, passed its check and came in time. */
  lemma {:induction false} CountedIff<P>(cfg: Config<P>, me: int, dealer: int, ms: seq<Msg<P>>, ready: bool, x: int, c: Matrix<P>)
    ensures x in Counters(CellOf(After(cfg, me, dealer, ms), c), ready) <==> Counted(cfg, me, dealer, ms, ready, x, c)
  {
    if ms != [] {
      var n := |ms| - 1;
      var before, m := ms[..n], ms[n];
      assert before + [m] == ms;
      CountedIff(cfg, me, dealer, before, ready, x, c);
      CountedMore(cfg, me, dealer, before, m, ready, x, c);
      CountedLast(cfg, me, dealer, before, m, ready, x, c);
      MarkedIff(cfg, me, dealer, before, ready, x);
      TakenAfter(cfg, me, dealer, After(cfg, me, dealer, before), m, c, ready);
    }
  }

  /** j is the last message that counts x for c. */
  ghost predicate LastCount<P>(cfg: Config<P>, me: int, dealer: int, ms: seq<Msg<P>>, j: int, x: int, c: Matrix<P>) {
    && (exists ready :: CountedAt(cfg, me, dealer, ms, j, ready, x, c))
    && forall i, ready {:trigger CountedAt(cfg, me, dealer, ms, i, ready, x, c)} :: i > j ==> !CountedAt(cfg, me, dealer, ms, i, ready, x, c)
  }

  lemma CountedNow<P>(cfg: Config<P>, me: int, dealer: int, ms: seq<Msg<P>>, m: Msg<P>, ready: bool, x: int, c: Matrix<P>)
    ensures CountedAt(cfg, me, dealer, ms + [m], |ms|, ready, x, c) <==>
            Takes(cfg, me, After(cfg, me, dealer, ms), m) && m.c == c && m.from == x && IsKind(m, ready)
  {
    CountedLast(cfg, me, dealer, ms, m, ready, x, c);
    MarkedIff(cfg, me, dealer, ms, ready, x);
  }

  /** The points stored for x are those of the last message that counted it. */
  lemma {:induction false} PointsAre<P>(cfg: Config<P>, me: int, dealer: int, ms: seq<Msg<P>>, x: int, c: Matrix<P>)
    requires x in CellOf(After(cfg, me, dealer, ms), c).pts
    ensures exists j :: LastCount(cfg, me, dealer, ms, j, x, c) && CellOf(After(cfg, me, dealer, ms), c).pts[x] == ms[j].pts
  {
    var n := |ms| - 1;
    var before, m := ms[..n], ms[n];
    var s := After(cfg, me, dealer, before);
    assert before + [m] == ms;
    TakenAfter(cfg, me, dealer, s, m, c, false);
    forall ready ensures CountedAt(cfg, me, dealer, ms, n, ready, x, c)
                         <==> Takes(cfg, me, s, m) && m.c == c && m.from == x && IsKind(m, ready) {
      CountedNow(cfg, me, dealer, before, m, ready, x, c);
    }
    if Takes(cfg, me, s, m) && m.c == c && m.from == x {
      assert CountedAt(cfg, me, dealer, ms, n, m.Ready?, x, c);
      assert LastCount(cfg, me, dealer, ms, n, x, c);
    } else {
      PointsAre(cfg, me, dealer, before, x, c);
      var j :| LastCount(cfg, me, dealer, before, j, x, c) && CellOf(s, c).pts[x] == before[j].pts;
      LastStays(cfg, me, dealer, before, m, j, x, c);
      assert before[j] == ms[j];
    }
  }

  lemma LastStays<P>(cfg: Config<P>, me: int, dealer: int, ms: seq<Msg<P>>, m: Msg<P>, j: int, x: int, c: Matrix<P>)
    requires LastCount(cfg, me, dealer, ms, j, x, c)
    requires forall ready :: !CountedAt(cfg, me, dealer, ms + [m], |ms|, ready, x, c)
    ensures LastCount(cfg, me, dealer, ms + [m], j, x, c)
  {
    var ready :| CountedAt(cfg, me, dealer, ms, j, ready, x, c);
    CountedSame(cfg, me, dealer, ms, m, j, ready, x, c);
    forall i, r | i > j ensures !CountedAt(cfg, me, dealer, ms + [m], i, r, x, c) {
      if i < |ms| { CountedSame(cfg, me, dealer, ms, m, i, r, x, c); }
    }
  }

  /** So every stored point has passed the check against its matrix. */
  lemma StoredPointsPass<P>(cfg: Config<P>, me: int, dealer: int, ms: seq<Msg<P>>, x: int, c: Matrix<P>)
    requires x in CellOf(After(cfg, me, dealer, ms), c).pts
    ensures var p := CellOf(After(cfg, me, dealer, ms), c).pts[x]; PointCheck(cfg.g, c, x, me, p.alpha, p.alpha') == Passed
  {
    PointsAre(cfg, me, dealer, ms, x, c);
  }

  ghost predicate DealtAt<P>(cfg: Config<P>, me: int, dealer: int, ms: seq<Msg<P>>, j: int) {
    0 <= j < |ms| && ms[j].Send? && ms[j].from == dealer && !Late(cfg, me, dealer, ms, j)
  }

  lemma DealtSame<P>(cfg: Config<P>, me: int, dealer: int, ms: seq<Msg<P>>, n: nat, j: int)
    requires j < n <= |ms|
    ensures DealtAt(cfg, me, dealer, ms[..n], j) <==> DealtAt(cfg, me, dealer, ms, j)
  {
    if 0 <= j { assert ms[..n][..j] == ms[..j]; }
  }

  /** A `send` is marked exactly if one came from the dealer before the end, sound or not. */
  lemma {:induction false} SendMarkedIff<P>(cfg: Config<P>, me: int, dealer: int, ms: seq<Msg<P>>)
    ensures After(cfg, me, dealer, ms).receivedSend <==> exists j :: DealtAt(cfg, me, dealer, ms, j)
  {
    if ms != [] {
      var n := |ms| - 1;
      SendMarkedIff(cfg, me, dealer, ms[..n]);
      SendMark(cfg, me, dealer, After(cfg, me, dealer, ms[..n]), ms[n]);
      forall j | j < n ensures DealtAt(cfg, me, dealer, ms[..n], j) <==> DealtAt(cfg, me, dealer, ms, j) {
        DealtSame(cfg, me, dealer, ms, n, j);
      }
      assert DealtAt(cfg, me, dealer, ms, n) <==> ms[n].Send? && ms[n].from == dealer && !After(cfg, me, dealer, ms[..n]).phase.Over?;
      if j :| DealtAt(cfg, me, dealer, ms[..n], j) {
        assert DealtAt(cfg, me, dealer, ms, j);
      }
    }
  }

  lemma SendMark<P>(cfg: Config<P>, me: int, dealer: int, s: Inst<P>, m: Msg<P>)
    ensures OnMsg(cfg, me, dealer, s, m).inst.receivedSend
            <==> s.receivedSend || (m.Send? && m.from == dealer && !s.phase.Over?)
  {
    match m
    case Send(_, _, _, _, _, _, _) =>
    case Echo(_, _, _, _) => EchoUnsent(cfg, me, s, m, Verified(cfg, me, m));
    case Ready(_, _, _, _, _) => ReadyUnsent(cfg, me, s, m, Verified(cfg, me, m));
  }

  lemma EchoUnsent<P>(cfg: Config<P>, me: int, s: Inst<P>, m: Msg<P>, ok: bool)
    requires m.Echo?
    ensures OnEcho(cfg, me, s, m, ok).inst.receivedSend == s.receivedSend
  {
  }

  lemma ReadyUnsent<P>(cfg: Config<P>, me: int, s: Inst<P>, m: Msg<P>, ok: bool)
    requires m.Ready?
    ensures OnReady(cfg, me, s, m, ok).inst.receivedSend == s.receivedSend
  {
  }

  // ----- the verdict

  /** The verdict is Fine exactly if the message took effect: an echo or ready that is counted, a `send` of the
      dealer that passes its check, comes in time and is not a refused second one. */
  lemma FineIff<P(!new)>(cfg: Config<P>, me: int, dealer: int, s: Inst<P>, m: Msg<P>)
    requires cfg.Valid() && InstOk(cfg, s) && (m.Send? || m.from in cfg.nodes)
    ensures OnMsg(cfg, me, dealer, s, m).status == Fine <==>
            if m.Send? then
              && m.from == dealer && !s.phase.Over? && !(cfg.onceOnly && s.receivedSend)
              && PolysAccepted(cfg.g, m.c, me, cfg.k, m.a, m.a', m.b, m.b')
            else Takes(cfg, me, s, m)
    ensures OnMsg(cfg, me, dealer, s, m).status == Ignored <==> s.phase.Over?
  {
    if m.Ready? {
      ReadyNeverCrashes(cfg, me, s, m, Verified(cfg, me, m));
      ReadyStatus(cfg, me, s, m, Verified(cfg, me, m));
    }
  }

  lemma ReadyStatus<P>(cfg: Config<P>, me: int, s: Inst<P>, m: Msg<P>, ok: bool)
    requires m.Ready?
    ensures var t := OnReady(cfg, me, s, m, ok).status;
            && (t == Fine || t == Crash <==> ok && m.signed && !s.phase.Over? && m.from !in s.receivedReady)
            && (t == Ignored <==> s.phase.Over?)
  {
  }

  // ----- the interpolated polynomials

  /** n is the length of history at which the first of the two thresholds for c is met. */
  ghost predicate MetAt<P>(cfg: Config<P>, me: int, dealer: int, ms: seq<Msg<P>>, n: int, c: Matrix<P>) {
    && 0 < n <= |ms| && Reached(cfg, After(cfg, me, dealer, ms[..n]), c) && !Reached(cfg, After(cfg, me, dealer, ms[..n - 1]), c)
  }

  ghost predicate BarsFrom<P>(cfg: Config<P>, cell: Cell, pts: map<int, Points>) {
    cell.bars == Some(Interpolated(cfg.g.q, pts))
  }

  /** The polynomials are those of the points held when a threshold was first met, at length n. */
  ghost predicate DrawnAt<P>(cfg: Config<P>, me: int, dealer: int, ms: seq<Msg<P>>, n: int, c: Matrix<P>) {
    && MetAt(cfg, me, dealer, ms, n, c)
    && BarsFrom(cfg, CellOf(After(cfg, me, dealer, ms), c), CellOf(After(cfg, me, dealer, ms[..n]), c).pts)
  }

  /** The polynomials of a matrix are interpolated from the points held at that moment, and from no others. */
  lemma {:induction false} BarsAre<P(!new)>(cfg: Config<P>, me: int, dealer: int, ms: seq<Msg<P>>, c: Matrix<P>)
    requires cfg.Valid() && FromNetwork(cfg, ms) && CellOf(After(cfg, me, dealer, ms), c).bars.Some?
    ensures exists n :: DrawnAt(cfg, me, dealer, ms, n, c)
  {
    var n := |ms| - 1;
    var before, m := ms[..n], ms[n];
    var s := After(cfg, me, dealer, before);
    AfterOk(cfg, me, dealer, before);
    if CellOf(s, c).bars.Some? {
      BarsAre(cfg, me, dealer, before, c);
      BarsStayOnce(cfg, me, dealer, s, m, c);
      var i :| DrawnAt(cfg, me, dealer, before, i, c);
      DrawnStays(cfg, me, dealer, ms, n, i, c);
    } else {
      NewBars(cfg, me, dealer, s, m, c);
      AfterOk(cfg, me, dealer, ms);
      DrawnNow(cfg, me, dealer, ms, c);
    }
  }

  lemma DrawnStays<P>(cfg: Config<P>, me: int, dealer: int, ms: seq<Msg<P>>, n: nat, i: int, c: Matrix<P>)
    requires n < |ms| && DrawnAt(cfg, me, dealer, ms[..n], i, c)
    requires CellOf(After(cfg, me, dealer, ms), c).bars == CellOf(After(cfg, me, dealer, ms[..n]), c).bars
    ensures DrawnAt(cfg, me, dealer, ms, i, c)
  {
    assert ms[..n][..i] == ms[..i] && ms[..n][..i - 1] == ms[..i - 1];
  }

  lemma DrawnNow<P(!new)>(cfg: Config<P>, me: int, dealer: int, ms: seq<Msg<P>>, c: Matrix<P>)
    requires cfg.Valid() && ms != [] && InstOk(cfg, After(cfg, me, dealer, ms)) && InstOk(cfg, After(cfg, me, dealer, ms[..|ms| - 1]))
    requires CellOf(After(cfg, me, dealer, ms[..|ms| - 1]), c).bars.None?
    requires BarsFrom(cfg, CellOf(After(cfg, me, dealer, ms), c), CellOf(After(cfg, me, dealer, ms), c).pts)
    ensures DrawnAt(cfg, me, dealer, ms, |ms|, c)
  {
    assert ms[..|ms|] == ms;
    ReachedIff(cfg, After(cfg, me, dealer, ms[..|ms| - 1]), c);
    ReachedIff(cfg, After(cfg, me, dealer, ms), c);
  }

  lemma ReachedIff<P(!new)>(cfg: Config<P>, s: Inst<P>, c: Matrix<P>)
    requires cfg.Valid() && InstOk(cfg, s)
    ensures Reached(cfg, s, c) <==> CellOf(s, c).bars.Some?
  {
    OldCellOk(cfg, s, c);
  }

  lemma NewBars<P>(cfg: Config<P>, me: int, dealer: int, s: Inst<P>, m: Msg<P>, c: Matrix<P>)
    requires CellOf(s, c).bars.None? && CellOf(OnMsg(cfg, me, dealer, s, m).inst, c).bars.Some?
    ensures var cell := CellOf(OnMsg(cfg, me, dealer, s, m).inst, c); BarsFrom(cfg, cell, cell.pts)
  {
    match m
    case Send(_, _, _, _, _, _, _) =>
    case Echo(_, _, _, _) => EchoCellsAre(cfg, me, s, m, Verified(cfg, me, m));
    case Ready(_, _, _, _, _) => ReadyCellsAre(cfg, me, s, m, Verified(cfg, me, m));
  }

  /** Points that have passed the check at node me, at least as many as the matrix has rows. */
  ghost predicate AllPass<P>(cfg: Config<P>, me: int, c: Matrix<P>, pts: map<int, Points>) {
    && pts.Keys <= cfg.nodes && |c| <= |pts|
    && forall x :: x in pts ==> PointCheck(cfg.g, c, x, me, pts[x].alpha, pts[x].alpha') == Passed
  }

  /** Every coefficient of Bbar commits to its row of c at the node's index, and to zero beyond. */
  ghost predicate BbarOpens<P>(cfg: Config<P>, me: int, c: Matrix<P>, b: Bars)
    requires |b.bbar| == |b.bbar'|
  {
    forall j :: 0 <= j < |b.bbar| ==> Opens(cfg.g, RowValues(cfg.g, Cut(c), me), b.bbar, b.bbar', j)
  }

  lemma PassedPointsOpenIff<P(!new)>(cfg: Config<P>, me: int, c: Matrix<P>, pts: map<int, Points>)
    requires cfg.Valid() && Laws(cfg.g) && AllPass(cfg, me, c, pts)
    ensures var b := Interpolated(cfg.g.q, pts);
            |b.bbar| == |b.bbar'|
            && (BbarOpens(cfg, me, c, b) <==> forall x :: x in pts ==> SignKept(cfg.g, pts[x].alpha, pts[x].alpha'))
  {
    var g, q := cfg.g, cfg.g.q;
    InterpolatedSize(q, pts);
    var ac, ac' := Listed(q, pts);
    assert Accepted(g, c, me, ac, ac') by {
      forall m | 0 <= m < |ac| ensures PointOk(g, c, ac[m].x, me, ac[m].y, ac'[m].y) {
        assert PointCheck(g, c, ac[m].x, me, pts[ac[m].x].alpha, pts[ac[m].x].alpha') == Passed;
      }
    }
    ReconstructionIff(g, c, me, ac, ac', Fit(q, Alphas(pts)), Fit(q, Alphas'(pts)));
    SignsListed(g, pts, ac, ac');
  }

  /** The alphas of a map of points, listed in one order. */
  lemma Listed(q: nat, pts: map<int, Points>) returns (ac: seq<Sample>, ac': seq<Sample>)
    requires IsPrime(q) && forall x :: x in pts ==> 0 < x < q
    ensures |ac| == |ac'| == |pts| && Xs(ac) == Xs(ac') && DistinctMod(Xs(ac), q)
    ensures Interpolates(Fit(q, Alphas(pts)), ac, q) && Interpolates(Fit(q, Alphas'(pts)), ac', q)
    ensures forall j :: 0 <= j < |ac| ==> ac[j].x in pts && ac[j].y == pts[ac[j].x].alpha && ac'[j].y == pts[ac[j].x].alpha'
    ensures forall x :: x in pts ==> Sample(x, pts[x].alpha) in ac
  {
    var alphas, alphas' := Alphas(pts), Alphas'(pts);
    assert alphas.Keys == alphas'.Keys == pts.Keys;
    assert |alphas| == |alphas.Keys| && |alphas'| == |alphas'.Keys| && |pts| == |pts.Keys|;
    ac := Enumerate(alphas);
    ac' := seq(|ac|, j requires 0 <= j < |ac| => Sample(ac[j].x, alphas'[ac[j].x]));
    EnumerationIsDistinct(ac, alphas, q);
    EnumerationCovers(ac, alphas);
    FitInterpolates(q, alphas, ac);
    FitInterpolates(q, alphas', ac');
    assert Xs(ac) == Xs(ac');
  }

  lemma SignsListed<P>(g: Group<P>, pts: map<int, Points>, ac: seq<Sample>, ac': seq<Sample>)
    requires |ac| == |ac'| && (forall j :: 0 <= j < |ac| ==> ac[j].x in pts && ac[j].y == pts[ac[j].x].alpha && ac'[j].y == pts[ac[j].x].alpha')
    requires forall x :: x in pts ==> Sample(x, pts[x].alpha) in ac
    ensures (forall j :: 0 <= j < |ac| ==> SignKept(g, ac[j].y, ac'[j].y))
            <==> forall x :: x in pts ==> SignKept(g, pts[x].alpha, pts[x].alpha')
  {
    if forall j :: 0 <= j < |ac| ==> SignKept(g, ac[j].y, ac'[j].y) {
      forall x | x in pts ensures SignKept(g, pts[x].alpha, pts[x].alpha') {
        var j :| 0 <= j < |ac| && ac[j] == Sample(x, pts[x].alpha);
        assert SignKept(g, ac[j].y, ac'[j].y);
      }
    }
  }

  lemma MetPointsPass<P(!new)>(cfg: Config<P>, me: int, dealer: int, ms: seq<Msg<P>>, c: Matrix<P>)
    requires cfg.Valid() && FromNetwork(cfg, ms) && |c| <= cfg.k && Reached(cfg, After(cfg, me, dealer, ms), c)
    ensures AllPass(cfg, me, c, CellOf(After(cfg, me, dealer, ms), c).pts)
  {
    var s := After(cfg, me, dealer, ms);
    var cell := CellOf(s, c);
    AfterOk(cfg, me, dealer, ms);
    OldCellOk(cfg, s, c);
    SubsetSize(cell.echoFrom, cell.pts.Keys);
    SubsetSize(cell.readyFrom, cell.pts.Keys);
    assert |cell.pts| == |cell.pts.Keys|;
    forall x | x in cell.pts ensures PointCheck(cfg.g, c, x, me, cell.pts[x].alpha, cell.pts[x].alpha') == Passed {
      StoredPointsPass(cfg, me, dealer, ms, x, c);
    }
  }

  /** Bbar of the cell opens c exactly if the sign of no point in pts matters. */
  ghost predicate OpensBySign<P>(cfg: Config<P>, me: int, c: Matrix<P>, cell: Cell, pts: map<int, Points>) {
    && cell.bars.Some? && |cell.bars.value.bbar| == |cell.bars.value.bbar'|
    && (BbarOpens(cfg, me, c, cell.bars.value) <==> forall x :: x in pts ==> SignKept(cfg.g, pts[x].alpha, pts[x].alpha'))
  }

  /** Over every history: Bbar of a matrix with at most k rows opens it exactly if the sign of no point it was interpolated
      from matters, and those points are the ones held when the threshold was met. */
  lemma BbarIff<P(!new)>(cfg: Config<P>, me: int, dealer: int, ms: seq<Msg<P>>, c: Matrix<P>) returns (n: nat)
    requires cfg.Valid() && Laws(cfg.g) && FromNetwork(cfg, ms) && |c| <= cfg.k
    requires CellOf(After(cfg, me, dealer, ms), c).bars.Some?
    ensures MetAt(cfg, me, dealer, ms, n, c)
    ensures OpensBySign(cfg, me, c, CellOf(After(cfg, me, dealer, ms), c), CellOf(After(cfg, me, dealer, ms[..n]), c).pts)
  {
    BarsAre(cfg, me, dealer, ms, c);
    n :| DrawnAt(cfg, me, dealer, ms, n, c);
    FromPrefix(cfg, ms, n);
    MetPointsPass(cfg, me, dealer, ms[..n], c);
    DrawnOpenIff(cfg, me, c, CellOf(After(cfg, me, dealer, ms), c), CellOf(After(cfg, me, dealer, ms[..n]), c).pts);
  }

  lemma DrawnOpenIff<P(!new)>(cfg: Config<P>, me: int, c: Matrix<P>, cell: Cell, pts: map<int, Points>)
    requires cfg.Valid() && Laws(cfg.g) && AllPass(cfg, me, c, pts) && BarsFrom(cfg, cell, pts)
    ensures OpensBySign(cfg, me, c, cell, pts)
  {
    PassedPointsOpenIff(cfg, me, c, pts);
  }

  lemma FromPrefix<P>(cfg: Config<P>, ms: seq<Msg<P>>, n: nat)
    requires n <= |ms| && FromNetwork(cfg, ms)
    ensures FromNetwork(cfg, ms[..n])
  {
  }

  /** No number in an echo or ready for c is negative. */
  ghost predicate Unsigned<P>(ms: seq<Msg<P>>, c: Matrix<P>) {
    forall j :: 0 <= j < |ms| && !ms[j].Send? && ms[j].c == c ==> ms[j].pts.alpha >= 0 && ms[j].pts.alpha' >= 0
  }

  /** So if no number is negative, whatever was sent and in whatever order: Bbar opens the matrix. */
  lemma BbarRespectsCommitment<P(!new)>(cfg: Config<P>, me: int, dealer: int, ms: seq<Msg<P>>, c: Matrix<P>)
    requires cfg.Valid() && Laws(cfg.g) && FromNetwork(cfg, ms) && |c| <= cfg.k && Unsigned(ms, c)
    requires CellOf(After(cfg, me, dealer, ms), c).bars.Some?
    ensures var b := CellOf(After(cfg, me, dealer, ms), c).bars.value; |b.bbar| == |b.bbar'| && BbarOpens(cfg, me, c, b)
  {
    var n := BbarIff(cfg, me, dealer, ms, c);
    var pts := CellOf(After(cfg, me, dealer, ms[..n]), c).pts;
    forall x | x in pts ensures SignKept(cfg.g, pts[x].alpha, pts[x].alpha') {
      PointsAre(cfg, me, dealer, ms[..n], x, c);
      var j :| LastCount(cfg, me, dealer, ms[..n], j, x, c) && pts[x] == ms[..n][j].pts;
      assert ms[..n][j] == ms[j];
    }
  }
}
