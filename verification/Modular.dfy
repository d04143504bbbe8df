/** Arithmetic of Z modulo a prime, as `math/big` performs it on the order of the curve group. */
module Modular {

  datatype Option<+T> = None | Some(value: T)

  function Abs(a: int): (r: nat)
    ensures a >= 0 ==> r == a
  {
    if a < 0 then -a else a
  }

  /** d divides n. */
  ghost predicate Divides(d: int, n: int)
    requires d > 0
  {
    n % d == 0
  }

  ghost predicate IsPrime(q: int) {
    q >= 2 && forall d: nat :: 1 <= d <= q && Divides(d, q) ==> d == 1 || d == q
  }

  /** Equality modulo q. */
  predicate Cong(a: int, b: int, q: nat)
    requires q > 0
  {
    a % q == b % q
  }

  lemma ModUnique(a: int, k: int, r: int, q: nat)
    requires 0 <= r < q && a == k * q + r
    ensures a % q == r
  {
    var d := a / q - k;
    assert d * q == r - a % q by {
      assert (a / q) * q + a % q == a;
      assert d * q == (a / q) * q - k * q;
    }
    MultipleInRange(d, q);
  }

  lemma MultipleInRange(d: int, q: nat)
    requires q > 0
    ensures 0 - q < d * q < q ==> d == 0
  {
  }

  lemma CongIntro(a: int, b: int, k: int, q: nat)
    requires q > 0 && a == b + k * q
    ensures Cong(a, b, q)
  {
    assert b == (b / q) * q + b % q;
    assert a == (b / q + k) * q + b % q;
    ModUnique(a, b / q + k, b % q, q);
  }

  lemma CongElim(a: int, b: int, q: nat) returns (k: int)
    requires q > 0 && Cong(a, b, q)
    ensures a == b + k * q
  {
    k := a / q - b / q;
    assert a == (a / q) * q + a % q && b == (b / q) * q + b % q;
  }

  lemma ModIsCong(a: int, q: nat)
    requires q > 0
    ensures 0 <= a % q < q && Cong(a % q, a, q)
  {
    assert a == (a / q) * q + a % q;
    CongIntro(a, a % q, a / q, q);
  }

  lemma CongAdd(a: int, b: int, c: int, d: int, q: nat)
    requires q > 0 && Cong(a, b, q) && Cong(c, d, q)
    ensures Cong(a + c, b + d, q)
  {
    var k := CongElim(a, b, q);
    var l := CongElim(c, d, q);
    assert (k + l) * q == k * q + l * q;
    CongIntro(a + c, b + d, k + l, q);
  }

  lemma CongMul(a: int, b: int, c: int, d: int, q: nat)
    requires q > 0 && Cong(a, b, q) && Cong(c, d, q)
    ensures Cong(a * c, b * d, q)
  {
    var k := CongElim(a, b, q);
    var l := CongElim(c, d, q);
    var w := b * l + k * d + k * l * q;
    ExpandProduct(b, k, d, l, q);
    CongIntro(a * c, b * d, w, q);
  }

  lemma ExpandProduct(b: int, k: int, d: int, l: int, q: int)
    ensures (b + k * q) * (d + l * q) == b * d + (b * l + k * d + k * l * q) * q
  {
  }

  lemma CongSub(a: int, b: int, c: int, d: int, q: nat)
    requires q > 0 && Cong(a, b, q) && Cong(c, d, q)
    ensures Cong(a - c, b - d, q)
  {
    CongMul(-1, -1, c, d, q);
    CongAdd(a, b, -1 * c, -1 * d, q);
  }

  /** Two residues that are equal modulo q are equal. */
  lemma ReducedUnique(a: int, b: int, q: nat)
    requires 0 <= a < q && 0 <= b < q && Cong(a, b, q)
    ensures a == b
  {
    ModUnique(a, 0, a, q);
    ModUnique(b, 0, b, q);
  }

  lemma CongZero(a: int, b: int, q: nat)
    requires q > 0
    ensures Cong(a, b, q) <==> Cong(a - b, 0, q)
  {
    if Cong(a, b, q) { CongSub(a, b, b, b, q); }
    if Cong(a - b, 0, q) { CongAdd(a - b, 0, b, b, q); }
  }

  // ----- modular inverse

  /** The extended Euclidean algorithm: g = a*s + b*t divides both arguments. */
  function ExtendedGcd(a: nat, b: nat): (r: (nat, int, int))
    requires a > 0 || b > 0
    ensures r.0 > 0 && a * r.1 + b * r.2 == r.0
    ensures Divides(r.0, a) && Divides(r.0, b)
    decreases b
  {
    if b == 0 then
      assert Divides(a, a) by { ModUnique(a, 1, 0, a); }
      (a, 1, 0)
    else
      var (g, s, t) := ExtendedGcd(b, a % b);
      EuclidStep(a, b, g, s, t);
      (g, t, s - a / b * t)
  }

  /** One step of the algorithm carries Bezout's identity and divisibility back. */
  lemma EuclidStep(a: nat, b: nat, g: nat, s: int, t: int)
    requires b > 0 && g > 0 && b * s + (a % b) * t == g
    requires Divides(g, b) && Divides(g, a % b)
    ensures a * t + b * (s - a / b * t) == g && Divides(g, a)
  {
    var k, r := a / b, a % b;
    assert a == k * b + r;
    assert a * t == k * b * t + r * t;
    assert b * (s - k * t) == b * s - k * b * t;
    ModUnique(0, 0, 0, g);
    CongMul(k, k, b, 0, g);
    CongAdd(k * b, 0, r, 0, g);
  }

  /** `ModInverse`: none when a and q have a common factor. */
  function ModInverse(a: int, q: nat): (r: Option<nat>)
    requires q >= 2
    ensures r.Some? ==> r.value < q && Cong(a * r.value, 1, q)
  {
    var (g, s, t) := ExtendedGcd(a % q, q);
    if g == 1 then
      assert Cong(a * (s % q), 1, q) by {
        ModIsCong(a, q);
        ModIsCong(s, q);
        CongMul(a, a % q, s % q, s, q);
        CongIntro((a % q) * s, 1, -t, q);
      }
      Some(s % q)
    else None
  }

  /** Modulo a prime exactly the multiples of it have no inverse. */
  lemma InverseExists(a: int, q: nat)
    requires IsPrime(q)
    ensures ModInverse(a, q).Some? <==> !Cong(a, 0, q)
  {
    ModIsCong(a, q);
    ModUnique(0, 0, 0, q);
    var g := ExtendedGcd(a % q, q).0;
    DivisorBound(g, q);
    if !Cong(a, 0, q) {
      DivisorBound(g, a % q);
      assert Divides(g, q);
    } else if ModInverse(a, q).Some? {
      var i := ModInverse(a, q).value;
      CongMul(a, 0, i, i, q);
      ModUnique(1, 0, 1, q);
      assert false;
    }
  }

  lemma DivisorBound(g: nat, n: nat)
    requires g > 0 && n > 0 && Divides(g, n)
    ensures g <= n
  {
    assert n == n / g * g;
  }

  /** The inverse as the interpolation loops use it: 0 when there is none. */
  function InvOrZero(a: int, q: nat): (r: nat)
    requires q >= 2
    ensures r < q
  {
    match ModInverse(a, q)
    case Some(i) => i
    case None => 0
  }

  lemma InvOrZeroCorrect(a: int, q: nat)
    requires IsPrime(q) && !Cong(a, 0, q)
    ensures Cong(a * InvOrZero(a, q), 1, q)
  {
    InverseExists(a, q);
  }

  /** Euclid: a product vanishes modulo a prime only if a factor does. */
  lemma ProductZero(a: int, b: int, q: nat)
    requires IsPrime(q)
    ensures Cong(a * b, 0, q) <==> Cong(a, 0, q) || Cong(b, 0, q)
  {
    if Cong(a, 0, q) { CongMul(a, 0, b, b, q); }
    if Cong(b, 0, q) { CongMul(a, a, b, 0, q); }
    if Cong(a * b, 0, q) && !Cong(a, 0, q) {
      InvOrZeroCorrect(a, q);
      var i := InvOrZero(a, q);
      CongMul(a * b, 0, i, i, q);
      CongMul(a * i, 1, b, b, q);
      assert a * b * i == a * i * b;
    }
  }
}
