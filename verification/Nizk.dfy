/** The proof that a Pedersen commitment and a discrete-log commitment hide the same scalar. */
module Nizk {
  import opened Modular
  import opened Curve
  import opened Lagrange

  datatype Proof = Proof(c: int, u1: int, u2: int)

  /** The padded X coordinates that are hashed; `hash` stands for the padding and Keccak. */
  function Challenge<P>(g: Group<P>, hash: seq<int> -> nat, gs: P, gshr: P, t1: P, t2: P): nat {
    hash([g.xOf(g.G), g.xOf(g.H), g.xOf(gs), g.xOf(gshr), g.xOf(t1), g.xOf(t2)])
  }

  /** `GenerateNIZKPK`, with its two random scalars as parameters. Points are multiplied by absolute values, the responses
      computed from the numbers themselves. */
  function GenerateNIZKPK<P>(g: Group<P>, hash: seq<int> -> nat, s: int, r: int, v1: int, v2: int): Proof
    requires g.q > 0
  {
    var gs := g.mul(Abs(s), g.G);
    var c := Challenge(g, hash, gs, g.add(gs, g.mul(Abs(r), g.H)), g.mul(Abs(v1), g.G), g.mul(Abs(v2), g.H));
    Proof(c, (v1 - (c * s) % g.q) % g.q, (v2 - (c * r) % g.q) % g.q)
  }

  /** `VerifyNIZKPK` */
  predicate VerifyNIZKPK<P>(g: Group<P>, hash: seq<int> -> nat, p: Proof, gs: P, gshr: P) {
    var t1 := g.add(g.mul(Abs(p.u1), g.G), g.mul(Abs(p.c), gs));
    var t2 := g.add(g.mul(Abs(p.u2), g.H), g.mul(Abs(p.c), g.add(gshr, g.Neg(gs))));
    Challenge(g, hash, gs, gshr, t1, t2) == p.c
  }

  /** u*B + c*(w*B) = v*B for the response u = v - c*w. */
  lemma ResponseOpens<P(!new)>(g: Group<P>, base: P, c: int, w: int, v: int)
    requires Laws(g)
    ensures g.add(g.mul((v - (c * w) % g.q) % g.q, base), g.mul(c, g.mul(w, base))) == g.mul(v, base)
  {
    var u := (v - (c * w) % g.q) % g.q;
    ModIsCong(c * w, g.q);
    ModIsCong(v - (c * w) % g.q, g.q);
    CongSub(v, v, (c * w) % g.q, c * w, g.q);
    CongAdd(u, v - c * w, c * w, c * w, g.q);
    MulMul(g, c, w, base);
    MulAdd(g, u, c * w, base);
    MulCong(g, u + c * w, v, base);
  }

  /** Every honestly generated proof is accepted, for all secrets and nonces as they are drawn and all hash functions. */
  lemma HonestProofAccepted<P(!new)>(g: Group<P>, hash: seq<int> -> nat, s: nat, r: nat, v1: nat, v2: nat)
    requires Laws(g)
    ensures VerifyNIZKPK(g, hash, GenerateNIZKPK(g, hash, s, r, v1, v2), g.mul(s, g.G), g.Commit(s, r))
  {
    var gs, hr, c := g.mul(s, g.G), g.mul(r, g.H), GenerateNIZKPK(g, hash, s, r, v1, v2).c;
    ResponseOpens(g, g.G, c, s, v1);
    DiffOfCommit(g, s, r);
    ResponseOpens(g, g.H, c, r, v2);
  }

  // ----- what is refused

  lemma DiffOfCommit<P(!new)>(g: Group<P>, s: int, r: int)
    requires Laws(g)
    ensures g.add(g.Commit(s, r), g.Neg(g.mul(s, g.G))) == g.mul(r, g.H)
  {
    var gs, hr := g.mul(s, g.G), g.mul(r, g.H);
    AddComm(g, gs, hr);
    AddAssoc(g, hr, gs, g.Neg(gs));
    AddNeg(g, gs);
    AddZero(g, hr);
  }

  /** A proof whose challenge is no value of the hash is refused. */
  lemma ForeignChallengeRefused<P>(g: Group<P>, hash: seq<int> -> nat, p: Proof, gs: P, gshr: P)
    requires forall xs :: hash(xs) != p.c
    ensures !VerifyNIZKPK(g, hash, p, gs, gshr)
  {
    var t1 := g.add(g.mul(Abs(p.u1), g.G), g.mul(Abs(p.c), gs));
    var t2 := g.add(g.mul(Abs(p.u2), g.H), g.mul(Abs(p.c), g.add(gshr, g.Neg(gs))));
    assert hash([g.xOf(g.G), g.xOf(g.H), g.xOf(gs), g.xOf(gshr), g.xOf(t1), g.xOf(t2)]) != p.c;
  }

  /** p is the proof that the prover makes with the nonces v1 and v2, up to signs and multiples of q in the responses. */
  ghost predicate MadeWith<P>(g: Group<P>, hash: seq<int> -> nat, p: Proof, s: int, r: int, v1: nat, v2: nat)
    requires g.q > 0
  {
    var made := GenerateNIZKPK(g, hash, s, r, v1, v2);
    p.c == made.c && Cong(Abs(p.u1), made.u1, g.q) && Cong(Abs(p.u2), made.u2, g.q)
  }

  /** For points s*G and s*G + r*H the verifier accepts exactly the proofs that the prover makes from s and r with some nonces. */
  lemma AcceptedIffMade<P(!new)>(g: Group<P>, hash: seq<int> -> nat, p: Proof, s: nat, r: nat)
    requires Laws(g)
    ensures VerifyNIZKPK(g, hash, p, g.mul(s, g.G), g.Commit(s, r)) <==> exists v1, v2 :: MadeWith(g, hash, p, s, r, v1, v2)
  {
    if VerifyNIZKPK(g, hash, p, g.mul(s, g.G), g.Commit(s, r)) {
      AcceptedIsMade(g, hash, p, s, r);
    }
    if exists v1, v2 :: MadeWith(g, hash, p, s, r, v1, v2) {
      var v1, v2 :| MadeWith(g, hash, p, s, r, v1, v2);
      MadeIsAccepted(g, hash, p, s, r, v1, v2);
    }
  }

  lemma AcceptedIsMade<P(!new)>(g: Group<P>, hash: seq<int> -> nat, p: Proof, s: nat, r: nat)
    requires Laws(g) && VerifyNIZKPK(g, hash, p, g.mul(s, g.G), g.Commit(s, r))
    ensures p.c >= 0 && MadeWith(g, hash, p, s, r, Abs(p.u1) + p.c * s, Abs(p.u2) + p.c * r)
  {
    var v1, v2 := Abs(p.u1) + p.c * s, Abs(p.u2) + p.c * r;
    DiffOfCommit(g, s, r);
    NonceOf(g, g.G, Abs(p.u1), p.c, s);
    NonceOf(g, g.H, Abs(p.u2), p.c, r);
    AnswerOf(g.q, Abs(p.u1), p.c, s);
    AnswerOf(g.q, Abs(p.u2), p.c, r);
  }

  lemma NonceOf<P(!new)>(g: Group<P>, base: P, u: nat, c: nat, w: int)
    requires Laws(g)
    ensures g.add(g.mul(u, base), g.mul(c, g.mul(w, base))) == g.mul(u + c * w, base)
  {
    MulMul(g, c, w, base);
    MulAdd(g, u, c * w, base);
  }

  lemma AnswerOf(q: nat, u: int, c: int, w: int)
    requires q > 0
    ensures Cong(u, (u + c * w - (c * w) % q) % q, q)
  {
    var v := u + c * w;
    ModIsCong(c * w, q);
    ModIsCong(v - (c * w) % q, q);
    CongSub(v, v, (c * w) % q, c * w, q);
  }

  lemma MadeIsAccepted<P(!new)>(g: Group<P>, hash: seq<int> -> nat, p: Proof, s: nat, r: nat, v1: nat, v2: nat)
    requires Laws(g) && MadeWith(g, hash, p, s, r, v1, v2)
    ensures VerifyNIZKPK(g, hash, p, g.mul(s, g.G), g.Commit(s, r))
  {
    var made := GenerateNIZKPK(g, hash, s, r, v1, v2);
    DiffOfCommit(g, s, r);
    ResponseOpens(g, g.G, p.c, s, v1);
    ResponseOpens(g, g.H, p.c, r, v2);
    MulCong(g, Abs(p.u1), made.u1, g.G);
    MulCong(g, Abs(p.u2), made.u2, g.H);
  }

  /** Two answers to different challenges for the same nonce point open the target. */
  lemma TwoAnswers<P(!new)>(g: Group<P>, base: P, target: P, u: int, c: int, u': int, c': int) returns (w: int)
    requires Laws(g) && !Cong(c, c', g.q)
    requires g.add(g.mul(u, base), g.mul(c, target)) == g.add(g.mul(u', base), g.mul(c', target))
    ensures target == g.mul(w, base)
  {
    var d, inv := c - c', InvOrZero(c - c', g.q);
    CongZero(c, c', g.q);
    InvOrZeroCorrect(d, g.q);
    assert g.mul(d, target) == g.mul(u' - u, base) by {
      Moved(g, base, target, u, c, u', c');
    }
    w := inv * (u' - u);
    MulMul(g, inv, u' - u, base);
    MulMul(g, inv, d, target);
    assert inv * d == d * inv;
    MulCong(g, inv * d, 1, target);
    MulUnits(g, target);
  }

  lemma Moved<P(!new)>(g: Group<P>, base: P, target: P, u: int, c: int, u': int, c': int)
    requires Laws(g) && g.add(g.mul(u, base), g.mul(c, target)) == g.add(g.mul(u', base), g.mul(c', target))
    ensures g.mul(c - c', target) == g.mul(u' - u, base)
  {
    var b, b', t, t' := g.mul(u, base), g.mul(u', base), g.mul(c, target), g.mul(c', target);
    var x := g.add(g.mul(-u, base), g.mul(-c', target));
    MulAdd(g, u, -u, base);
    MulAdd(g, u', -u, base);
    MulAdd(g, c, -c', target);
    MulAdd(g, c', -c', target);
    MulUnits(g, base);
    MulUnits(g, target);
    AddSwap(g, b, t, g.mul(-u, base), g.mul(-c', target));
    AddSwap(g, b', t', g.mul(-u, base), g.mul(-c', target));
    assert g.add(g.add(b, t), x) == g.add(g.mul(0, base), g.mul(c - c', target));
    assert g.add(g.add(b', t'), x) == g.add(g.mul(u' - u, base), g.mul(0, target));
    AddZero(g, g.mul(c - c', target));
    AddZero(g, g.mul(u' - u, base));
  }

  /** The text that is hashed for a proof: it holds the nonce points that the proof answers for. */
  function Transcript<P>(g: Group<P>, p: Proof, gs: P, gshr: P): seq<int> {
    var t1 := g.add(g.mul(Abs(p.u1), g.G), g.mul(Abs(p.c), gs));
    var t2 := g.add(g.mul(Abs(p.u2), g.H), g.mul(Abs(p.c), g.add(gshr, g.Neg(gs))));
    [g.xOf(g.G), g.xOf(g.H), g.xOf(gs), g.xOf(gshr), g.xOf(t1), g.xOf(t2)]
  }

  /** Soundness: proofs accepted under two hash functions that answer for the same nonce points, where the functions differ
      modulo q on what is hashed, show points s*G and s*G + r*H. */
  lemma AcceptedTwiceOpens<P(!new)>(g: Group<P>, hash: seq<int> -> nat, hash': seq<int> -> nat, p: Proof, p': Proof, gs: P, gshr: P)
    returns (s: int, r: int)
    requires Laws(g) && VerifyNIZKPK(g, hash, p, gs, gshr) && VerifyNIZKPK(g, hash', p', gs, gshr)
    requires g.add(g.mul(Abs(p.u1), g.G), g.mul(Abs(p.c), gs)) == g.add(g.mul(Abs(p'.u1), g.G), g.mul(Abs(p'.c), gs))
    requires var d := g.add(gshr, g.Neg(gs));
             g.add(g.mul(Abs(p.u2), g.H), g.mul(Abs(p.c), d)) == g.add(g.mul(Abs(p'.u2), g.H), g.mul(Abs(p'.c), d))
    requires !Cong(hash(Transcript(g, p, gs, gshr)), hash'(Transcript(g, p, gs, gshr)), g.q)
    ensures gs == g.mul(s, g.G) && gshr == g.Commit(s, r)
  {
    assert Transcript(g, p, gs, gshr) == Transcript(g, p', gs, gshr);
    var d := g.add(gshr, g.Neg(gs));
    s := TwoAnswers(g, g.G, gs, Abs(p.u1), Abs(p.c), Abs(p'.u1), Abs(p'.c));
    r := TwoAnswers(g, g.H, d, Abs(p.u2), Abs(p.c), Abs(p'.u2), Abs(p'.c));
    AddComm(g, gs, d);
    AddAssoc(g, gshr, g.Neg(gs), gs);
    AddComm(g, g.Neg(gs), gs);
    AddNeg(g, gs);
    AddZero(g, gshr);
  }

  // ----- public keys

  /** If every proof shows points s*G and s*G + r*H, the interpolated public key differs from the
      interpolated Pedersen commitment by a multiple of H only. */
  lemma PublicKeyTiedToCommitment<P(!new)>(g: Group<P>, indexes: seq<int>, ss: seq<int>, rs: seq<int>,
                                           gsis: seq<P>, pedersen: seq<P>)
    requires Laws(g) && |indexes| == |ss| == |rs| == |gsis| == |pedersen|
    requires forall i :: 0 <= i < |ss| ==> gsis[i] == g.mul(ss[i], g.G) && pedersen[i] == g.Commit(ss[i], rs[i])
    ensures var ls := Lambdas(g.q, indexes, 0);
            g.add(LinComb(g, ls, gsis), g.mul(Dot(ls, rs), g.H)) == LinComb(g, ls, pedersen)
  {
    LinCombShift(g, Lambdas(g.q, indexes, 0), gsis, rs, g.H, pedersen);
  }
}
