/** The replicated state of the key assignment chain and its transition function. */
module Ledger {
  import opened Sets
  import opened Curve
  import opened Lagrange
  import opened Nizk
  import opened Ids

  type Node = int

  const MaxFailedPubKeyAssigns := 100

  datatype KeyMapping<P> = KeyMapping(index: int, key: P, threshold: int, verifiers: map<string, seq<string>>)

  /** A decided key generation; gs is the zero point until the public key is known. */
  datatype PubKey<P> = PubKey(gshs: P, gs: P)

  datatype Counter = Counter(required: int, keys: int)

  /** `State`, and the two indexes the chain keeps in its store: key mappings by index (km) and
      key indexes by verifier key (vt). */
  datatype State<P(==)> = State(
    lastUnassigned: nat, lastCreated: nat, failed: nat, newKeys: seq<KeyMapping<P>>,
    pssDecisions: set<string>, keygenDecisions: set<string>, pubKeys: map<string, PubKey<P>>,
    freezes: map<string, set<Node>>,
    summaries: map<string, map<nat, set<Node>>>,
    keyVotes: map<string, map<KeyMapping<P>, set<Node>>>,
    counters: map<string, Counter>, thawed: set<string>,
    km: map<int, KeyMapping<P>>, vt: map<string, seq<int>>)

  datatype ReadyProof<P> = ReadyProof(c00: P, signature: string)
  datatype KeyProof<P> = KeyProof(index: int, gsi: P, gsihsi: P, proof: Proof)

  datatype Tx<P> =
    | Assign(verifier: string, verifierID: string)
    | KeygenPropose(dkgID: string, keygens: seq<string>, proofs: seq<map<string, ReadyProof<P>>>)
    | KeygenPubKey(dkgID: string, keyProofs: seq<KeyProof<P>>)
    | PssPropose(sharingID: string, psss: seq<string>, texts: seq<map<string, string>>)
    | Freeze(mid: string, proposed: string)
    | Summary(mid: string, last: nat)
    | Key(mid: string, key: KeyMapping<P>)
    | UpdateKey(index: int, newKey: P, signature: string)
    | Unknown

  /** What the chain reads from outside: the epoch's thresholds and node list, and signature checks.
      blank: one of the coordinates is 0. waits: the epoch is not 1 and the override is off. */
  datatype Env<!P> = Env(
    g: Group<P>, hash: seq<int> -> nat, blank: P -> bool, k: nat, t: nat, waits: bool,
    readyOk: (string, string, ReadyProof<P>) -> bool,
    textOk: (string, string, string) -> bool,
    dealerOk: (P, P, string) -> bool)

  ghost predicate EnvOk<P(!new)>(env: Env<P>) {
    Laws(env.g) && env.k >= 1 && env.blank(env.g.zero)
  }

  function Init<P(==)>(): State<P> {
    State(0, 0, 0, [], {}, {}, map[], map[], map[], map[], map[], {}, map[], map[])
  }

  // ----- sorted index lists

  predicate Ascending(l: seq<int>) {
    forall i :: 1 <= i < |l| ==> l[i - 1] <= l[i]
  }

  function Insert(x: int, l: seq<int>): (r: seq<int>)
    ensures r != [] && (r[0] == x || (l != [] && r[0] == l[0] < x))
    ensures Ascending(l) ==> Ascending(r)
  {
    if l == [] || x <= l[0] then [x] + l else [l[0]] + Insert(x, l[1..])
  }

  lemma {:induction false} InsertKeeps(x: int, l: seq<int>)
    ensures multiset(Insert(x, l)) == multiset(l) + multiset{x}
  {
    if l != [] && x > l[0] {
      InsertKeeps(x, l[1..]);
      assert l == [l[0]] + l[1..];
    }
  }

  /** `sort.Slice` on key indexes */
  function Sorted(l: seq<int>): (r: seq<int>)
    ensures Ascending(r) && multiset(r) == multiset(l)
  {
    if l == [] then []
    else
      InsertKeeps(l[0], Sorted(l[1..]));
      assert l == [l[0]] + l[1..];
      Insert(l[0], Sorted(l[1..]))
  }

  lemma SortedMembers(l: seq<int>, x: int)
    ensures x in Sorted(l + [x]) && forall y :: y in Sorted(l + [x]) <==> y in l || y == x
  {
    forall y ensures y in Sorted(l + [x]) <==> y in l || y == x {
      assert y in Sorted(l + [x]) <==> y in multiset(Sorted(l + [x]));
      assert y in l + [x] <==> y in multiset(l + [x]);
    }
  }

  function ListOf(vt: map<string, seq<int>>, key: string): seq<int> {
    if key in vt then vt[key] else []
  }

  /** Every user a mapping lists, by verifier key. */
  function Users<P>(m: KeyMapping<P>): set<string> {
    set v, id | v in m.verifiers && id in m.verifiers[v] :: VerifierKey(v, id)
  }

  function WithIndex(l: seq<int>, i: int): seq<int> {
    if i in l then l else Sorted(l + [i])
  }

  /** Index i added to the list of each key that does not hold it yet. */
  function AddIndex(vt: map<string, seq<int>>, keys: set<string>, i: int): map<string, seq<int>> {
    map key | key in vt.Keys + keys :: if key in keys then WithIndex(ListOf(vt, key), i) else vt[key]
  }

  // ----- the sum of commitments a proposal fixes

  function Holders<P(==)>(m: map<string, ReadyProof<P>>, c: P): set<string> {
    set x | x in m && m[x].c00 == c
  }

  /** The commitments that k of the proofs agree on. */
  function Winners<P(==)>(k: nat, m: map<string, ReadyProof<P>>): set<P> {
    set x | x in m && |Holders(m, m[x].c00)| >= k :: m[x].c00
  }

  ghost function SumSet<P>(g: Group<P>, s: set<P>): P
    decreases |s|
  {
    if s == {} then g.zero else var x := Pick(s); g.add(SumSet(g, s - {x}), x)
  }

  ghost function WinnersSum<P>(g: Group<P>, k: nat, proofs: seq<map<string, ReadyProof<P>>>): P {
    if proofs == [] then g.zero
    else g.add(WinnersSum(g, k, proofs[..|proofs| - 1]), SumSet(g, Winners(k, proofs[|proofs| - 1])))
  }

  // ----- the rules

  predicate Frozen<P>(env: Env<P>, s: State<P>) {
    exists m :: m in s.freezes && |s.freezes[m]| >= env.k + env.t
  }

  predicate ConfirmedIn(k: nat, votes: map<nat, set<Node>>) {
    exists x :: x in votes && |votes[x]| >= k
  }

  predicate SummaryConfirmed<P>(env: Env<P>, s: State<P>) {
    exists m :: m in s.summaries && ConfirmedIn(env.k, s.summaries[m])
  }

  function KeyAt<P>(env: Env<P>, s: State<P>, i: int): P {
    var d := GenerateDKGID(i);
    if d in s.pubKeys then s.pubKeys[d].gs else env.g.zero
  }

  /** The part of the assignment rule that the pre-check repeats. */
  predicate MayAssign<P>(env: Env<P>, s: State<P>) {
    !Frozen(env, s) && (env.waits ==> SummaryConfirmed(env, s))
  }

  // ----- effects: what a transaction is judged to do, and the update that follows

  datatype Effect<P> =
    | Nothing
    | KeyMissing
    | BufferDropped
    | KeyAssigned(m: KeyMapping<P>, user: string, dkgID: string)
    | KeygenDecided(dkgID: string, gshs: P, none: P)
    | KeyPublished(dkgID: string, gs: P, counted: bool)
    | PssDecided(sharingID: string)
    | FreezeVoted(mid: string, sender: Node)
    | SummaryVoted(mid: string, last: nat, sender: Node, confirmed: bool)
    | KeyVoted(mid: string, m: KeyMapping<P>, sender: Node, confirmed: bool)
    | KeyUpdated(m: KeyMapping<P>)

  function JudgeAssign<P>(env: Env<P>, s: State<P>, tx: Tx<P>): Effect<P>
    requires tx.Assign?
  {
    var i := s.lastUnassigned;
    if !MayAssign(env, s) || i >= s.lastCreated then Nothing
    else if s.failed == MaxFailedPubKeyAssigns then BufferDropped
    else if env.blank(KeyAt(env, s, i)) then KeyMissing
    else KeyAssigned(KeyMapping(i, KeyAt(env, s, i), 1, map[tx.verifier := [tx.verifierID]]),
                     VerifierKey(tx.verifier, tx.verifierID), GenerateDKGID(i))
  }

  predicate KeygenOk<P>(env: Env<P>, tx: Tx<P>, i: nat)
    requires tx.KeygenPropose? && i < |tx.keygens| && i < |tx.proofs|
  {
    Names(tx.keygens[i], Delimiter4, tx.dkgID) && ProofsOk(env, tx.keygens[i], tx.proofs[i])
  }

  /** The identifier parses, and its first part is the given name. */
  predicate Names(id: string, d: char, name: string) {
    ParsePair(id, d).Some? && ParsePair(id, d).value.0 == name
  }

  predicate ProofsOk<P>(env: Env<P>, id: string, m: map<string, ReadyProof<P>>) {
    forall x :: x in m ==> env.readyOk(id, x, m[x])
  }

  predicate ProposeOk<P>(env: Env<P>, s: State<P>, tx: Tx<P>)
    requires tx.KeygenPropose?
  {
    && tx.dkgID !in s.keygenDecisions && |tx.keygens| >= env.k && |tx.keygens| == |tx.proofs|
    && forall i :: 0 <= i < |tx.keygens| ==> KeygenOk(env, tx, i)
  }

  function Indexes<P>(ps: seq<KeyProof<P>>): seq<int> { seq(|ps|, i requires 0 <= i < |ps| => ps[i].index) }
  function Gsis<P>(ps: seq<KeyProof<P>>): seq<P> { seq(|ps|, i requires 0 <= i < |ps| => ps[i].gsi) }
  function Pedersens<P>(ps: seq<KeyProof<P>>): seq<P> { seq(|ps|, i requires 0 <= i < |ps| => ps[i].gsihsi) }

  /** `LagrangeCurvePts` */
  ghost function AtZero<P>(g: Group<P>, indexes: seq<int>, points: seq<P>): P
    requires g.q >= 2 && |indexes| == |points|
  {
    LinComb(g, Lambdas(g.q, indexes, 0), points)
  }

  ghost predicate PubKeyOk<P(!new)>(env: Env<P>, s: State<P>, tx: Tx<P>)
    requires EnvOk(env) && tx.KeygenPubKey?
  {
    && |tx.keyProofs| == env.k && tx.dkgID in s.pubKeys && s.pubKeys[tx.dkgID].gs == env.g.zero
    && AtZero(env.g, Indexes(tx.keyProofs), Pedersens(tx.keyProofs)) == s.pubKeys[tx.dkgID].gshs
    && forall i :: 0 <= i < |tx.keyProofs| ==>
         VerifyNIZKPK(env.g, env.hash, tx.keyProofs[i].proof, tx.keyProofs[i].gsi, tx.keyProofs[i].gsihsi)
  }

  /** The public key is stored before the identifier is parsed. */
  ghost function JudgePubKey<P(!new)>(env: Env<P>, s: State<P>, tx: Tx<P>): Effect<P>
    requires EnvOk(env) && tx.KeygenPubKey?
  {
    if !PubKeyOk(env, s, tx) then Nothing
    else KeyPublished(tx.dkgID, AtZero(env.g, Indexes(tx.keyProofs), Gsis(tx.keyProofs)), DKGIndex(tx.dkgID).Some?)
  }

  predicate PssOk<P>(env: Env<P>, s: State<P>, tx: Tx<P>)
    requires tx.PssPropose?
  {
    && tx.sharingID !in s.pssDecisions && EpochParams(tx.sharingID).Some?
    && MeetsThresholds(env, tx, EpochParams(tx.sharingID).value)
  }

  /** Enough PSSIDs and signed texts, by the eight numbers of the identifier. */
  predicate MeetsThresholds<P>(env: Env<P>, tx: Tx<P>, e: seq<int>)
    requires tx.PssPropose? && |e| == 8
  {
    && e[2] != 0 && e[6] != 0 && |tx.psss| >= e[2] && |tx.psss| == |tx.texts| && PssEntriesOk(env, tx, Int64(e[6] + e[7]))
  }

  predicate PssEntriesOk<P>(env: Env<P>, tx: Tx<P>, needed: int)
    requires tx.PssPropose? && |tx.psss| == |tx.texts|
  {
    forall i :: 0 <= i < |tx.psss| ==> PssEntryOk(env, tx, i, needed)
  }

  predicate PssEntryOk<P>(env: Env<P>, tx: Tx<P>, i: nat, needed: int)
    requires tx.PssPropose? && i < |tx.psss| && i < |tx.texts|
  {
    && Names(tx.psss[i], Delimiter1, tx.sharingID)
    && |tx.texts[i]| >= needed
    && forall x :: x in tx.texts[i] ==> env.textOk(tx.psss[i], x, tx.texts[i][x])
  }

  function Voters<K(==)>(votes: map<K, set<Node>>, x: K): set<Node> {
    if x in votes then votes[x] else {}
  }

  function SummaryVotes<P>(s: State<P>, mid: string): map<nat, set<Node>> {
    if mid in s.summaries then s.summaries[mid] else map[]
  }

  function KeyVotes<P>(s: State<P>, mid: string): map<KeyMapping<P>, set<Node>> {
    if mid in s.keyVotes then s.keyVotes[mid] else map[]
  }

  function JudgeVote<P>(env: Env<P>, s: State<P>, tx: Tx<P>, sender: Node): Effect<P>
    requires tx.Freeze? || tx.Summary? || tx.Key?
  {
    if tx.mid in s.thawed then Nothing
    else if tx.Freeze? then
      if sender in Voters(s.freezes, tx.proposed) then Nothing else FreezeVoted(tx.proposed, sender)
    else if tx.Summary? then
      var voters := Voters(SummaryVotes(s, tx.mid), tx.last);
      if sender in voters then Nothing else SummaryVoted(tx.mid, tx.last, sender, |voters + {sender}| == env.k)
    else
      var voters := Voters(KeyVotes(s, tx.mid), tx.key);
      if sender in voters then Nothing else KeyVoted(tx.mid, tx.key, sender, |voters + {sender}| == env.k)
  }

  predicate UpdateOk<P>(env: Env<P>, s: State<P>, tx: Tx<P>)
    requires tx.UpdateKey?
  {
    tx.index in s.km && env.dealerOk(s.km[tx.index].key, tx.newKey, tx.signature)
  }

  /** The checks of `ValidateAndUpdateAndTagBFTTx`. A dealer update goes to the index named inside
      the stored mapping. */
  ghost function Judge<P(!new)>(env: Env<P>, s: State<P>, tx: Tx<P>, sender: Node): Effect<P>
    requires EnvOk(env)
  {
    match tx
    case Assign(_, _) => JudgeAssign(env, s, tx)
    case KeygenPropose(d, _, proofs) =>
      if ProposeOk(env, s, tx) then KeygenDecided(d, WinnersSum(env.g, env.k, proofs), env.g.zero) else Nothing
    case KeygenPubKey(_, _) => JudgePubKey(env, s, tx)
    case PssPropose(id, _, _) => if PssOk(env, s, tx) then PssDecided(id) else Nothing
    case UpdateKey(i, key, _) => if UpdateOk(env, s, tx) then KeyUpdated(s.km[i].(key := key)) else Nothing
    case Unknown => Nothing
    case _ => JudgeVote(env, s, tx, sender)
  }

  function CounterOf<P>(s: State<P>, mid: string): Counter {
    if mid in s.counters then s.counters[mid] else Counter(0, 0)
  }

  /** `isThawed` and the marking that follows it */
  function Thaw<P>(s: State<P>, mid: string): State<P> {
    var c := CounterOf(s, mid);
    if c.required == 0 || c.required != c.keys then s
    else s.(counters := s.counters - {mid}, keyVotes := s.keyVotes - {mid}, thawed := s.thawed + {mid})
  }

  function AddSummaryVote<P>(s: State<P>, mid: string, last: nat, sender: Node): State<P> {
    var votes := SummaryVotes(s, mid);
    s.(summaries := s.summaries[mid := votes[last := Voters(votes, last) + {sender}]])
  }

  function AddKeyVote<P>(s: State<P>, mid: string, m: KeyMapping<P>, sender: Node): State<P> {
    var votes := KeyVotes(s, mid);
    s.(keyVotes := s.keyVotes[mid := votes[m := Voters(votes, m) + {sender}]])
  }

  function ConfirmSummary<P>(s: State<P>, mid: string, last: nat): State<P> {
    s.(counters := s.counters[mid := CounterOf(s, mid).(required := last)], lastUnassigned := last,
       lastCreated := if s.lastCreated < last then last else s.lastCreated)
  }

  function ConfirmKey<P>(s: State<P>, mid: string, m: KeyMapping<P>): State<P> {
    var c := CounterOf(s, mid);
    s.(counters := s.counters[mid := c.(keys := c.keys + 1)],
       km := s.km[m.index := m], vt := AddIndex(s.vt, Users(m), m.index))
  }

  /** The state changes of `ValidateAndUpdateAndTagBFTTx`. */
  function Apply<P>(s: State<P>, f: Effect<P>): State<P> {
    match f
    case Nothing => s
    case KeyMissing => s.(failed := s.failed + 1)
    case BufferDropped => s.(failed := 0, lastUnassigned := s.lastCreated)
    case KeyAssigned(m, user, d) =>
      s.(failed := 0, km := s.km[m.index := m], vt := s.vt[user := Sorted(ListOf(s.vt, user) + [m.index])],
         lastUnassigned := s.lastUnassigned + 1, newKeys := s.newKeys + [m], pubKeys := s.pubKeys - {d})
    case KeygenDecided(d, gshs, none) =>
      s.(keygenDecisions := s.keygenDecisions + {d}, pubKeys := s.pubKeys[d := PubKey(gshs, none)])
    case KeyPublished(d, gs, counted) =>
      if d !in s.pubKeys then s   // a published key was decided before
      else s.(pubKeys := s.pubKeys[d := s.pubKeys[d].(gs := gs)],
              lastCreated := if counted then s.lastCreated + 1 else s.lastCreated)
    case PssDecided(id) => s.(pssDecisions := s.pssDecisions + {id})
    case FreezeVoted(mid, sender) => s.(freezes := s.freezes[mid := Voters(s.freezes, mid) + {sender}])
    case SummaryVoted(mid, last, sender, confirmed) =>
      var s1 := AddSummaryVote(s, mid, last, sender);
      if confirmed then Thaw(ConfirmSummary(s1, mid, last), mid) else s1
    case KeyVoted(mid, m, sender, confirmed) =>
      var s1 := AddKeyVote(s, mid, m, sender);
      if confirmed then Thaw(ConfirmKey(s1, mid, m), mid) else s1
    case KeyUpdated(m) => s.(km := s.km[m.index := m])
  }

  /** The verdict: a missing key and an unreadable identifier are refusals that leave a trace. */
  predicate Accepted<P>(f: Effect<P>) {
    !f.Nothing? && !f.KeyMissing? && (f.KeyPublished? ==> f.counted)
  }

  datatype Outcome<P(==)> = Outcome(state: State<P>, ok: bool)

  /** `ValidateAndUpdateAndTagBFTTx` */
  ghost function Step<P(!new)>(env: Env<P>, s: State<P>, tx: Tx<P>, sender: Node): Outcome<P>
    requires EnvOk(env)
  {
    var f := Judge(env, s, tx, sender);
    Outcome(Apply(s, f), Accepted(f))
  }

  /** What the checks establish about an effect, apart from the freeze and summary scans. */
  ghost predicate Legal<P>(env: Env<P>, s: State<P>, f: Effect<P>) {
    match f
    case BufferDropped => s.lastUnassigned < s.lastCreated && s.failed == MaxFailedPubKeyAssigns
    case KeyAssigned(m, user, d) =>
      && s.lastUnassigned < s.lastCreated && m.index == s.lastUnassigned && Users(m) == {user}
      && d == GenerateDKGID(s.lastUnassigned) && !env.blank(m.key)
      && d in s.pubKeys && s.pubKeys[d].gs == m.key
    case KeygenDecided(d, _, none) => d !in s.keygenDecisions && none == env.g.zero
    case KeyPublished(d, _, counted) =>
      d in s.pubKeys && s.pubKeys[d].gs == env.g.zero && counted == DKGIndex(d).Some?
    case FreezeVoted(mid, sender) => sender !in Voters(s.freezes, mid)
    case SummaryVoted(mid, last, sender, confirmed) =>
      var voters := Voters(SummaryVotes(s, mid), last);
      mid !in s.thawed && sender !in voters && confirmed == (|voters| + 1 == env.k)
    case KeyVoted(mid, m, sender, confirmed) =>
      var voters := Voters(KeyVotes(s, mid), m);
      mid !in s.thawed && sender !in voters && confirmed == (|voters| + 1 == env.k)
    case KeyUpdated(m) => exists i :: i in s.km && s.km[i] == m.(key := s.km[i].key)
    case _ => true
  }

  lemma UsersOfOne<P>(i: int, key: P, v: string, id: string)
    ensures Users(KeyMapping(i, key, 1, map[v := [id]])) == {VerifierKey(v, id)}
  {
    var m := KeyMapping(i, key, 1, map[v := [id]]);
    assert id in m.verifiers[v];
  }

  lemma AssignLegal<P(!new)>(env: Env<P>, s: State<P>, tx: Tx<P>)
    requires EnvOk(env) && tx.Assign?
    ensures Legal(env, s, JudgeAssign(env, s, tx))
  {
    UsersOfOne(s.lastUnassigned, KeyAt(env, s, s.lastUnassigned), tx.verifier, tx.verifierID);
  }

  lemma JudgeLegal<P(!new)>(env: Env<P>, s: State<P>, tx: Tx<P>, sender: Node)
    requires EnvOk(env)
    ensures Legal(env, s, Judge(env, s, tx, sender))
  {
    match tx {
      case Assign(_, _) => AssignLegal(env, s, tx);
      case _ =>
    }
  }

  /** One step of a run: a delivered transaction, or the start of a block. */
  datatype Event<P> = Deliver(tx: Tx<P>, sender: Node) | BeginBlock

  ghost function EffectOf<P(!new)>(env: Env<P>, s: State<P>, e: Event<P>): (f: Effect<P>)
    requires EnvOk(env)
    ensures Legal(env, s, f)
  {
    if e.BeginBlock? then Nothing
    else
      JudgeLegal(env, s, e.tx, e.sender);
      Judge(env, s, e.tx, e.sender)
  }

  ghost function After<P(!new)>(env: Env<P>, s: State<P>, e: Event<P>): State<P>
    requires EnvOk(env)
  {
    if e.BeginBlock? then s.(newKeys := []) else Apply(s, EffectOf(env, s, e))
  }

  ghost function Run<P(!new)>(env: Env<P>, s: State<P>, es: seq<Event<P>>): State<P>
    requires EnvOk(env)
    decreases |es|
  {
    if es == [] then s else Run(env, After(env, s, es[0]), es[1..])
  }
}
