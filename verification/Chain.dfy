/** The chain application: the loops and in-place updates behind the transition function. */
module Chain {
  import opened Modular
  import opened Sets
  import opened Curve
  import opened Pvss
  import opened Nizk
  import opened Ids
  import opened Ledger

  // ----- sums over sets of points

  /** The sum of a set does not depend on the order its elements are taken in. */
  lemma {:induction false} SumSetAdd<P(!new)>(g: Group<P>, s: set<P>, x: P)
    requires Laws(g) && x !in s
    ensures SumSet(g, s + {x}) == g.add(SumSet(g, s), x)
    decreases |s|
  {
    var y := Pick(s + {x});
    if y == x {
      assert s + {x} - {x} == s;
    } else {
      var rest := s - {y};
      assert s + {x} - {y} == rest + {x} && rest + {y} == s;
      SumSetAdd(g, rest, x);
      SumSetAdd(g, rest, y);
      AddAssoc(g, SumSet(g, rest), x, y);
      AddAssoc(g, SumSet(g, rest), y, x);
      AddComm(g, x, y);
    }
  }

  /** Fewer than 2k proofs leave room for one commitment with k of them. */
  lemma AtMostOneWinner<P>(k: nat, m: map<string, ReadyProof<P>>)
    requires |m| < 2 * k
    ensures |Winners(k, m)| <= 1
  {
    var w := Winners(k, m);
    if w != {} {
      var a := Pick(w);
      forall b | b in w ensures b == a {
        var ha, hb := Holders(m, a), Holders(m, b);
        Overlap(ha, hb, m.Keys);
        assert |m| == |m.Keys|;
        var x := Pick(ha * hb);
        assert m[x].c00 == a && m[x].c00 == b;
      }
      assert w == {a};
    }
  }

  // ----- the counting loop of a keygen proposal

  lemma SeenGrows<P>(k: nat, m: map<string, ReadyProof<P>>, rest: set<string>, x: string)
    requires k >= 1 && x in rest && rest <= m.Keys
    ensures var before, after, c := m - rest, m - (rest - {x}), m[x].c00;
            && |Holders(after, c)| == |Holders(before, c)| + 1
            && (forall d :: d != c ==> Holders(after, d) == Holders(before, d))
            && Winners(k, after) == (if |Holders(after, c)| == k then Winners(k, before) + {c} else Winners(k, before))
            && (|Holders(after, c)| == k ==> c !in Winners(k, before))
  {
    var before, after, c := m - rest, m - (rest - {x}), m[x].c00;
    assert Holders(after, c) == Holders(before, c) + {x};
    forall d | d != c ensures Holders(after, d) == Holders(before, d) {
    }
    var expected := if |Holders(after, c)| == k then Winners(k, before) + {c} else Winners(k, before);
    forall p | p in Winners(k, after) ensures p in expected {
      var y :| y in after && |Holders(after, after[y].c00)| >= k && after[y].c00 == p;
      if p == c && |Holders(after, c)| > k {
        assert Holders(before, c) != {};
        var z := Pick(Holders(before, c));
        assert z in before && before[z].c00 == c && |Holders(before, before[z].c00)| >= k;
      } else if p != c {
        assert y in before && |Holders(before, before[y].c00)| >= k;
      }
    }
    forall p | p in expected ensures p in Winners(k, after) {
      if p == c && |Holders(after, c)| == k {
        assert x in after && |Holders(after, after[x].c00)| >= k;
      } else {
        var y :| y in before && |Holders(before, before[y].c00)| >= k && before[y].c00 == p;
        assert y in after && |Holders(after, after[y].c00)| >= k;
      }
    }
    assert Winners(k, after) == expected;
  }

  ghost predicate Counts<P(!new)>(counts: map<P, nat>, m: map<string, ReadyProof<P>>) {
    forall c :: |Holders(m, c)| == if c in counts then counts[c] else 0
  }

  lemma CountStep<P(!new)>(k: nat, m: map<string, ReadyProof<P>>, rest: set<string>, x: string, counts: map<P, nat>)
    requires k >= 1 && x in rest && rest <= m.Keys && Counts(counts, m - rest)
    ensures var c := m[x].c00;
            var n := (if c in counts then counts[c] else 0) + 1;
            Counts(counts[c := n], m - (rest - {x})) && n == |Holders(m - (rest - {x}), c)|
  {
    SeenGrows(k, m, rest, x);
  }

  lemma SumStep<P(!new)>(g: Group<P>, k: nat, m: map<string, ReadyProof<P>>, rest: set<string>, x: string, sum: P)
    requires Laws(g) && k >= 1 && x in rest && rest <= m.Keys
    ensures var c, before, after := m[x].c00, m - rest, m - (rest - {x});
            g.add(sum, SumSet(g, Winners(k, after)))
            == if |Holders(after, c)| == k then g.add(g.add(sum, SumSet(g, Winners(k, before))), c)
               else g.add(sum, SumSet(g, Winners(k, before)))
  {
    SeenGrows(k, m, rest, x);
    var winners, c := Winners(k, m - rest), m[x].c00;
    if |Holders(m - (rest - {x}), c)| == k {
      SumSetAdd(g, winners, c);
      AddAssoc(g, sum, SumSet(g, winners), c);
    }
  }

  /** The proofs of one keygen, in any order: every one is checked, and a commitment joins the sum
      when its count reaches the threshold. */
  method CountProofs<P(!new,==)>(env: Env<P>, id: string, m: map<string, ReadyProof<P>>, sum: P)
    returns (ok: bool, r: P)
    requires EnvOk(env)
    ensures ok == ProofsOk(env, id, m)
    ensures ok ==> r == env.g.add(sum, SumSet(env.g, Winners(env.k, m)))
  {
    var counts: map<P, nat> := map[];
    var rest := m.Keys;
    r := sum;
    assert Winners(env.k, m - rest) == {};
    AddZero(env.g, sum);
    while rest != {}
      invariant rest <= m.Keys
      invariant forall x :: x in m && x !in rest ==> env.readyOk(id, x, m[x])
      invariant Counts(counts, m - rest)
      invariant r == env.g.add(sum, SumSet(env.g, Winners(env.k, m - rest)))
      decreases |rest|
    {
      var x := Choose(rest);
      if !env.readyOk(id, x, m[x]) {
        return false, r;
      }
      CountStep(env.k, m, rest, x, counts);
      SumStep(env.g, env.k, m, rest, x, sum);
      var c := m[x].c00;
      counts := counts[c := (if c in counts then counts[c] else 0) + 1];
      if counts[c] == env.k {
        r := env.g.add(r, c);
      }
      rest := rest - {x};
    }
    assert m - {} == m;
    ok := true;
  }

  method CheckKeygen<P(!new,==)>(env: Env<P>, tx: Tx<P>, i: nat, sum: P) returns (ok: bool, r: P)
    requires EnvOk(env) && tx.KeygenPropose? && i < |tx.keygens| && i < |tx.proofs|
    ensures ok == KeygenOk(env, tx, i)
    ensures ok ==> r == env.g.add(sum, SumSet(env.g, Winners(env.k, tx.proofs[i])))
  {
    var details := ParsePair(tx.keygens[i], Delimiter4);
    if details.None? || details.value.0 != tx.dkgID {
      return false, sum;
    }
    ok, r := CountProofs(env, tx.keygens[i], tx.proofs[i], sum);
  }

  /** The nested loops of a keygen proposal. */
  method CheckProposal<P(!new,==)>(env: Env<P>, tx: Tx<P>) returns (ok: bool, sum: P)
    requires EnvOk(env) && tx.KeygenPropose? && |tx.keygens| == |tx.proofs|
    ensures ok <==> forall i :: 0 <= i < |tx.keygens| ==> KeygenOk(env, tx, i)
    ensures ok ==> sum == WinnersSum(env.g, env.k, tx.proofs)
  {
    sum := env.g.zero;
    for i := 0 to |tx.keygens|
      invariant forall j :: 0 <= j < i ==> KeygenOk(env, tx, j)
      invariant sum == WinnersSum(env.g, env.k, tx.proofs[..i])
    {
      ok, sum := CheckKeygen(env, tx, i, sum);
      if !ok {
        return;
      }
      assert tx.proofs[..i + 1][..i] == tx.proofs[..i];
    }
    assert tx.proofs[..|tx.proofs|] == tx.proofs;
    ok := true;
  }

  method VerifyAll<P(!new,==)>(env: Env<P>, ps: seq<KeyProof<P>>) returns (ok: bool)
    ensures ok <==> forall i :: 0 <= i < |ps| ==> VerifyNIZKPK(env.g, env.hash, ps[i].proof, ps[i].gsi, ps[i].gsihsi)
  {
    for i := 0 to |ps|
      invariant forall j :: 0 <= j < i ==> VerifyNIZKPK(env.g, env.hash, ps[j].proof, ps[j].gsi, ps[j].gsihsi)
    {
      if !VerifyNIZKPK(env.g, env.hash, ps[i].proof, ps[i].gsi, ps[i].gsihsi) {
        return false;
      }
    }
    ok := true;
  }

  /** The public key of a batch of proofs, if the Pedersen points match and every proof verifies. */
  method CheckPubKey<P(!new,==)>(env: Env<P>, ps: seq<KeyProof<P>>, decided: P) returns (gs: Option<P>)
    requires EnvOk(env) && |ps| == env.k
    ensures gs.Some? <==> AtZero(env.g, Indexes(ps), Pedersens(ps)) == decided
                          && forall i :: 0 <= i < |ps| ==> VerifyNIZKPK(env.g, env.hash, ps[i].proof, ps[i].gsi, ps[i].gsihsi)
    ensures gs.Some? ==> gs.value == AtZero(env.g, Indexes(ps), Gsis(ps))
  {
    var pedersen := LagrangeCurvePts(env.g, Indexes(ps), Pedersens(ps));
    if pedersen.value != decided {
      return None;
    }
    var fine := VerifyAll(env, ps);
    if !fine {
      return None;
    }
    gs := LagrangeCurvePts(env.g, Indexes(ps), Gsis(ps));
  }

  method CheckTexts<P>(env: Env<P>, id: string, texts: map<string, string>) returns (ok: bool)
    ensures ok <==> forall x :: x in texts ==> env.textOk(id, x, texts[x])
  {
    var rest := texts.Keys;
    while rest != {}
      invariant rest <= texts.Keys
      invariant forall x :: x in texts && x !in rest ==> env.textOk(id, x, texts[x])
      decreases |rest|
    {
      var x := Choose(rest);
      if !env.textOk(id, x, texts[x]) {
        return false;
      }
      rest := rest - {x};
    }
    ok := true;
  }

  method CheckPssEntry<P(!new,==)>(env: Env<P>, tx: Tx<P>, i: nat, needed: int) returns (ok: bool)
    requires tx.PssPropose? && i < |tx.psss| && i < |tx.texts|
    ensures ok == PssEntryOk(env, tx, i, needed)
  {
    var details := ParsePair(tx.psss[i], Delimiter1);
    if details.None? || details.value.0 != tx.sharingID || |tx.texts[i]| < needed {
      return false;
    }
    ok := CheckTexts(env, tx.psss[i], tx.texts[i]);
  }

  method CheckPssEntries<P(!new,==)>(env: Env<P>, tx: Tx<P>, needed: int) returns (ok: bool)
    requires tx.PssPropose? && |tx.psss| == |tx.texts|
    ensures ok == PssEntriesOk(env, tx, needed)
  {
    for i := 0 to |tx.psss|
      invariant forall j :: 0 <= j < i ==> PssEntryOk(env, tx, j, needed)
    {
      ok := CheckPssEntry(env, tx, i, needed);
      if !ok {
        return;
      }
    }
    ok := true;
  }

  method CheckPss<P(!new,==)>(env: Env<P>, s: State<P>, tx: Tx<P>) returns (ok: bool)
    requires tx.PssPropose?
    ensures ok == PssOk(env, s, tx)
  {
    if tx.sharingID in s.pssDecisions {
      return false;
    }
    var params := GetEpochParams(tx.sharingID);
    if params.None? {
      return false;
    }
    var e := params.value;
    if e[2] == 0 || e[6] == 0 || |tx.psss| < e[2] || |tx.psss| != |tx.texts| {
      return false;
    }
    ok := CheckPssEntries(env, tx, Int64(e[6] + e[7]));
  }

  // ----- the scans of the assignment rule

  method AnyFrozen<P(!new,==)>(env: Env<P>, s: State<P>) returns (b: bool)
    ensures b == Frozen(env, s)
  {
    var rest := s.freezes.Keys;
    while rest != {}
      invariant rest <= s.freezes.Keys
      invariant forall m :: m in s.freezes && m !in rest ==> |s.freezes[m]| < env.k + env.t
      decreases |rest|
    {
      var m := Choose(rest);
      if |s.freezes[m]| >= env.k + env.t {
        return true;
      }
      rest := rest - {m};
    }
    b := false;
  }

  method AnyConfirmed(k: nat, votes: map<nat, set<Node>>, was: bool) returns (b: bool)
    ensures b == (was || ConfirmedIn(k, votes))
  {
    b := was;
    var rest := votes.Keys;
    while rest != {}
      invariant rest <= votes.Keys
      invariant b <==> was || exists x :: x in votes && x !in rest && |votes[x]| >= k
      decreases |rest|
    {
      var x := Choose(rest);
      if |votes[x]| >= k {
        b := true;
      }
      rest := rest - {x};
    }
  }

  method AnySummary<P(!new,==)>(env: Env<P>, s: State<P>) returns (b: bool)
    ensures b == SummaryConfirmed(env, s)
  {
    b := false;
    var rest := s.summaries.Keys;
    while rest != {}
      invariant rest <= s.summaries.Keys
      invariant b <==> exists m :: m in s.summaries && m !in rest && ConfirmedIn(env.k, s.summaries[m])
      decreases |rest|
    {
      var m := Choose(rest);
      b := AnyConfirmed(env.k, s.summaries[m], b);
      rest := rest - {m};
    }
  }

  method CheckMayAssign<P(!new,==)>(env: Env<P>, s: State<P>) returns (b: bool)
    ensures b == MayAssign(env, s)
  {
    var frozen := AnyFrozen(env, s);
    if frozen {
      return false;
    }
    if env.waits {
      b := AnySummary(env, s);
    } else {
      b := true;
    }
  }

  // ----- storing a migrated key under each of its users

  function AddUser(vt: map<string, seq<int>>, key: string, i: int): map<string, seq<int>> {
    if i in ListOf(vt, key) then vt else vt[key := Sorted(ListOf(vt, key) + [i])]
  }

  lemma AddIndexAt(vt: map<string, seq<int>>, keys: set<string>, i: int, key: string)
    ensures ListOf(AddIndex(vt, keys, i), key) == if key in keys then WithIndex(ListOf(vt, key), i) else ListOf(vt, key)
  {
  }

  /** Storing one list is overriding it. */
  lemma AddUserIs(vt: map<string, seq<int>>, key: string, i: int)
    ensures AddUser(vt, key, i) == vt[key := WithIndex(ListOf(vt, key), i)]
  {
  }

  lemma WithIndexTwice(l: seq<int>, i: int)
    ensures WithIndex(WithIndex(l, i), i) == WithIndex(l, i)
  {
    SortedMembers(l, i);
  }

  lemma Override(vt: map<string, seq<int>>, keys: set<string>, key: string, i: int, l: seq<int>)
    requires l == WithIndex(ListOf(vt, key), i)
    ensures AddIndex(vt, keys, i)[key := l] == AddIndex(vt, keys + {key}, i)
  {
    var a, b := AddIndex(vt, keys, i)[key := l], AddIndex(vt, keys + {key}, i);
    assert a.Keys == b.Keys;
    forall x | x in a ensures a[x] == b[x] {
      assert x == key || a[x] == AddIndex(vt, keys, i)[x];
    }
  }

  lemma AddUserStep(vt: map<string, seq<int>>, keys: set<string>, key: string, i: int)
    ensures AddUser(AddIndex(vt, keys, i), key, i) == AddIndex(vt, keys + {key}, i)
  {
    var l := ListOf(vt, key);
    AddUserIs(AddIndex(vt, keys, i), key, i);
    AddIndexAt(vt, keys, i, key);
    WithIndexTwice(l, i);
    Override(vt, keys, key, i, WithIndex(l, i));
  }

  function KeysOf(v: string, ids: seq<string>): set<string> {
    set id | id in ids :: VerifierKey(v, id)
  }

  lemma KeysOfSnoc(v: string, ids: seq<string>, id: string)
    ensures KeysOf(v, ids + [id]) == KeysOf(v, ids) + {VerifierKey(v, id)}
  {
  }

  method StoreUser(vt0: map<string, seq<int>>, key: string, i: int, ghost base: map<string, seq<int>>, ghost done: set<string>)
    returns (vt: map<string, seq<int>>)
    requires vt0 == AddIndex(base, done, i)
    ensures vt == AddIndex(base, done + {key}, i)
  {
    AddUserStep(base, done, key, i);
    var keyIndexes := ListOf(vt0, key);
    var found := false;
    for n := 0 to |keyIndexes|
      invariant found <==> i in keyIndexes[..n]
    {
      if keyIndexes[n] == i {
        found := true;
      }
    }
    vt := if found then vt0 else vt0[key := Sorted(keyIndexes + [i])];
  }

  method StoreUsersOf(vt0: map<string, seq<int>>, v: string, ids: seq<string>, i: int,
                      ghost base: map<string, seq<int>>, ghost done: set<string>)
    returns (vt: map<string, seq<int>>)
    requires vt0 == AddIndex(base, done, i)
    ensures vt == AddIndex(base, done + KeysOf(v, ids), i)
  {
    vt := vt0;
    ghost var more: set<string> := {};
    assert done + {} == done;
    for j := 0 to |ids|
      invariant more == KeysOf(v, ids[..j]) && vt == AddIndex(base, done + more, i)
    {
      var key := VerifierKey(v, ids[j]);
      KeysOfSnoc(v, ids[..j], ids[j]);
      assert ids[..j + 1] == ids[..j] + [ids[j]];
      assert done + more + {key} == done + (more + {key});
      vt := StoreUser(vt, key, i, base, done + more);
      more := more + {key};
    }
    assert ids[..|ids|] == ids;
  }

  ghost function UsersIn<P>(m: KeyMapping<P>, vs: set<string>): set<string> {
    set v, id | v in m.verifiers && v in vs && id in m.verifiers[v] :: VerifierKey(v, id)
  }

  lemma UsersInGrows<P>(m: KeyMapping<P>, vs: set<string>, v: string)
    requires v in m.verifiers
    ensures UsersIn(m, vs + {v}) == UsersIn(m, vs) + KeysOf(v, m.verifiers[v])
  {
  }

  lemma UsersInEnds<P>(vt: map<string, seq<int>>, m: KeyMapping<P>)
    ensures AddIndex(vt, UsersIn(m, {}), m.index) == vt && UsersIn(m, m.verifiers.Keys) == Users(m)
  {
  }

  method StoreUsers<P>(vt0: map<string, seq<int>>, m: KeyMapping<P>) returns (vt: map<string, seq<int>>)
    ensures vt == AddIndex(vt0, Users(m), m.index)
  {
    vt := vt0;
    var rest := m.verifiers.Keys;
    ghost var done: set<string> := {};
    UsersInEnds(vt0, m);
    while rest != {}
      invariant rest <= m.verifiers.Keys && done == m.verifiers.Keys - rest
      invariant vt == AddIndex(vt0, UsersIn(m, done), m.index)
      decreases |rest|
    {
      var v := Choose(rest);
      UsersInGrows(m, done, v);
      vt := StoreUsersOf(vt, v, m.verifiers[v], m.index, vt0, UsersIn(m, done));
      done := done + {v};
      rest := rest - {v};
    }
    assert done == m.verifiers.Keys;
  }
}
