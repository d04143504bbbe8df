/** The curve group as the sharing code sees it: a commutative group on which
    scalars act, killed by the prime q, with two base points and an X coordinate
    that determines a point up to sign. */
module Curve {
  import opened Modular

  datatype Group<!P> = Group(
    q: nat,                 // order of the group
    zero: P,                // the point the code writes as (0, 0)
    add: (P, P) -> P,       // Curve.Add
    mul: (int, P) -> P,     // Curve.ScalarMult, scalar first
    G: P,
    H: P,
    xOf: P -> int           // the X coordinate
  ) {
    /** Pedersen commitment to (a, b): a*G + b*H. */
    function Commit(a: int, b: int): P {
      add(mul(a, G), mul(b, H))
    }

    /** What the code computes when it commits to (a, b): `big.Int.Bytes` drops the sign of a scalar. */
    function Checked(a: int, b: int): P {
      Commit(Abs(a), Abs(b))
    }

    function Neg(a: P): P {
      mul(-1, a)
    }
  }

  ghost predicate Associates<P>(g: Group<P>, a: P, b: P, c: P) {
    g.add(g.add(a, b), c) == g.add(a, g.add(b, c))
  }

  /** Addition commutes, and the X coordinate tells points apart up to sign. */
  ghost predicate Commutes<P>(g: Group<P>, a: P, b: P) {
    g.add(a, b) == g.add(b, a) && (g.xOf(a) == g.xOf(b) <==> a == b || g.add(a, b) == g.zero)
  }

  ghost predicate Units<P>(g: Group<P>, a: P) {
    g.add(g.zero, a) == a && g.mul(0, a) == g.zero && g.mul(1, a) == a && g.mul(g.q, a) == g.zero
  }

  ghost predicate Scales<P>(g: Group<P>, i: int, j: int, a: P) {
    g.mul(i + j, a) == g.add(g.mul(i, a), g.mul(j, a)) && g.mul(i * j, a) == g.mul(i, g.mul(j, a))
  }

  ghost predicate Distributes<P>(g: Group<P>, i: int, a: P, b: P) {
    g.mul(i, g.add(a, b)) == g.add(g.mul(i, a), g.mul(i, b))
  }

  // The laws are instantiated by hand: the predicates above are their only triggers.
  ghost predicate Laws<P(!new)>(g: Group<P>) {
    && IsPrime(g.q)
    && (forall a, b, c {:trigger Associates(g, a, b, c)} :: Associates(g, a, b, c))
    && (forall a, b {:trigger Commutes(g, a, b)} :: Commutes(g, a, b))
    && (forall a {:trigger Units(g, a)} :: Units(g, a))
    && (forall i, j, a {:trigger Scales(g, i, j, a)} :: Scales(g, i, j, a))
    && (forall i, a, b {:trigger Distributes(g, i, a, b)} :: Distributes(g, i, a, b))
  }

  newtype Fifth = x: int | 0 <= x < 5

  function Mod5(x: int): (r: Fifth)
    ensures Cong(r as int, x, 5)
  {
    ModIsCong(x, 5);
    (x % 5) as Fifth
  }

  function Add5(a: Fifth, b: Fifth): Fifth { Mod5(a as int + b as int) }
  function Mul5(i: int, a: Fifth): Fifth { Mod5(i * a as int) }
  function X5(a: Fifth): int { if a as int <= 2 then a as int else 5 - a as int }

  /** The integers modulo 5, a point and its negative sharing the X coordinate: the laws can be met. */
  function FifthGroup(): Group<Fifth> { Group(5, 0, Add5, Mul5, 1, 2, X5) }

  lemma SameMod5(x: int, y: int)
    requires Cong(x, y, 5)
    ensures Mod5(x) == Mod5(y)
  {
    ReducedUnique(Mod5(x) as int, Mod5(y) as int, 5);
  }

  lemma SumMod5(x: int, y: int)
    ensures Add5(Mod5(x), Mod5(y)) == Mod5(x + y)
  {
    CongAdd(Mod5(x) as int, x, Mod5(y) as int, y, 5);
    SameMod5(Mod5(x) as int + Mod5(y) as int, x + y);
  }

  lemma ProductMod5(i: int, y: int)
    ensures Mul5(i, Mod5(y)) == Mod5(i * y)
  {
    CongMul(i, i, Mod5(y) as int, y, 5);
    SameMod5(i * Mod5(y) as int, i * y);
  }

  lemma WholeMod5(a: Fifth)
    ensures Mod5(a as int) == a
  {
  }

  lemma FifthAssociates(a: Fifth, b: Fifth, c: Fifth)
    ensures Add5(Add5(a, b), c) == Add5(a, Add5(b, c))
  {
    WholeMod5(a);
    WholeMod5(c);
    SumMod5(a as int + b as int, c as int);
    SumMod5(a as int, b as int + c as int);
  }

  lemma FifthAdds(i: int, j: int, a: Fifth)
    ensures Mul5(i + j, a) == Add5(Mul5(i, a), Mul5(j, a))
  {
    SumMod5(i * a as int, j * a as int);
    assert (i + j) * a as int == i * a as int + j * a as int;
  }

  lemma FifthMultiplies(i: int, j: int, a: Fifth)
    ensures Mul5(i * j, a) == Mul5(i, Mul5(j, a))
  {
    ProductMod5(i, j * a as int);
    assert i * j * a as int == i * (j * a as int);
  }

  lemma FifthDistributes(i: int, a: Fifth, b: Fifth)
    ensures Mul5(i, Add5(a, b)) == Add5(Mul5(i, a), Mul5(i, b))
  {
    var x, y := a as int, b as int;
    assert i * (x + y) == i * x + i * y;
    SplitMod5(i, x + y, i * x, i * y);
  }

  lemma SplitMod5(i: int, z: int, u: int, v: int)
    requires i * z == u + v
    ensures Mul5(i, Mod5(z)) == Add5(Mod5(u), Mod5(v))
  {
    ProductMod5(i, z);
    SumMod5(u, v);
  }

  lemma FifthCommutes(a: Fifth, b: Fifth)
    ensures Add5(a, b) == Add5(b, a) && (X5(a) == X5(b) <==> a == b || Add5(a, b) == 0)
  {
  }

  lemma FifthUnits(a: Fifth)
    ensures Add5(0, a) == a && Mul5(0, a) == 0 && Mul5(1, a) == a && Mul5(5, a) == 0
  {
    WholeMod5(a);
    ModUnique(5 * a as int, a as int, 0, 5);
    ModUnique(0, 0, 0, 5);
    SameMod5(5 * a as int, 0);
  }

  lemma FiveIsPrime()
    ensures IsPrime(5)
  {
    assert !Divides(2, 5) && !Divides(3, 5) && !Divides(4, 5);
  }

  lemma FifthIsLawful()
    ensures Laws(FifthGroup())
  {
    var g := FifthGroup();
    FiveIsPrime();
    forall a, b, c ensures Associates(g, a, b, c) { FifthAssociates(a, b, c); }
    forall a, b ensures Commutes(g, a, b) { FifthCommutes(a, b); }
    forall a ensures Units(g, a) { FifthUnits(a); }
    forall i, j, a ensures Scales(g, i, j, a) { FifthAdds(i, j, a); FifthMultiplies(i, j, a); }
    forall i, a, b ensures Distributes(g, i, a, b) { FifthDistributes(i, a, b); }
  }

  lemma AddAssoc<P(!new)>(g: Group<P>, a: P, b: P, c: P)
    requires Laws(g)
    ensures g.add(g.add(a, b), c) == g.add(a, g.add(b, c))
  {
    assert Associates(g, a, b, c);
  }

  lemma AddComm<P(!new)>(g: Group<P>, a: P, b: P)
    requires Laws(g)
    ensures g.add(a, b) == g.add(b, a)
  {
    assert Commutes(g, a, b);
  }

  lemma AddZero<P(!new)>(g: Group<P>, a: P)
    requires Laws(g)
    ensures g.add(g.zero, a) == a && g.add(a, g.zero) == a
  {
    assert Units(g, a);
    AddComm(g, a, g.zero);
  }

  lemma MulUnits<P(!new)>(g: Group<P>, a: P)
    requires Laws(g)
    ensures g.mul(0, a) == g.zero && g.mul(1, a) == a
  {
    assert Units(g, a);
  }

  lemma MulAdd<P(!new)>(g: Group<P>, i: int, j: int, a: P)
    requires Laws(g)
    ensures g.mul(i + j, a) == g.add(g.mul(i, a), g.mul(j, a))
  {
    assert Scales(g, i, j, a);
  }

  lemma MulMul<P(!new)>(g: Group<P>, i: int, j: int, a: P)
    requires Laws(g)
    ensures g.mul(i * j, a) == g.mul(i, g.mul(j, a))
  {
    assert Scales(g, i, j, a);
  }

  lemma MulDistributes<P(!new)>(g: Group<P>, i: int, a: P, b: P)
    requires Laws(g)
    ensures g.mul(i, g.add(a, b)) == g.add(g.mul(i, a), g.mul(i, b))
  {
    assert Distributes(g, i, a, b);
  }

  lemma MulZero<P(!new)>(g: Group<P>, i: int)
    requires Laws(g)
    ensures g.mul(i, g.zero) == g.zero
  {
    MulUnits(g, g.zero);
    MulMul(g, i, 0, g.zero);
  }

  lemma AddNeg<P(!new)>(g: Group<P>, a: P)
    requires Laws(g)
    ensures g.add(a, g.Neg(a)) == g.zero
  {
    MulAdd(g, 1, -1, a);
    MulUnits(g, a);
  }

  lemma SameX<P(!new)>(g: Group<P>, a: P, b: P)
    requires Laws(g)
    ensures g.xOf(a) == g.xOf(b) <==> a == b || g.add(a, b) == g.zero
  {
    assert Commutes(g, a, b);
  }

  /** (a + b) + (c + d) = (a + c) + (b + d) */
  lemma AddSwap<P(!new)>(g: Group<P>, a: P, b: P, c: P, d: P)
    requires Laws(g)
    ensures g.add(g.add(a, b), g.add(c, d)) == g.add(g.add(a, c), g.add(b, d))
  {
    AddAssoc(g, a, b, g.add(c, d));
    AddAssoc(g, b, c, d);
    AddComm(g, b, c);
    AddAssoc(g, c, b, d);
    AddAssoc(g, a, c, g.add(b, d));
  }

  /** Scalars equal modulo q act alike. */
  lemma MulCong<P(!new)>(g: Group<P>, i: int, j: int, a: P)
    requires Laws(g) && Cong(i, j, g.q)
    ensures g.mul(i, a) == g.mul(j, a)
  {
    var k := CongElim(i, j, g.q);
    assert Units(g, a);
    MulAdd(g, j, k * g.q, a);
    MulMul(g, k, g.q, a);
    MulZero(g, k);
    AddZero(g, g.mul(j, a));
  }

  /** Equal points have a zero difference, and only they do. */
  lemma DiffZero<P(!new)>(g: Group<P>, a: P, b: P)
    requires Laws(g)
    ensures a == b <==> g.add(a, g.Neg(b)) == g.zero
  {
    AddNeg(g, b);
    AddAssoc(g, a, g.Neg(b), b);
    AddComm(g, g.Neg(b), b);
    AddZero(g, a);
    AddZero(g, b);
  }

  /** A scalar that is not a multiple of q can be cancelled. */
  lemma MulCancel<P(!new)>(g: Group<P>, i: int, a: P)
    requires Laws(g) && !Cong(i, 0, g.q) && g.mul(i, a) == g.zero
    ensures a == g.zero
  {
    var inv := InvOrZero(i, g.q);
    InvOrZeroCorrect(i, g.q);
    assert inv * i == i * inv;
    MulCong(g, inv * i, 1, a);
    MulMul(g, inv, i, a);
    MulUnits(g, a);
    MulZero(g, inv);
  }

  // ----- commitments are linear

  lemma CommitAdd<P(!new)>(g: Group<P>, a: int, b: int, c: int, d: int)
    requires Laws(g)
    ensures g.add(g.Commit(a, b), g.Commit(c, d)) == g.Commit(a + c, b + d)
  {
    AddSwap(g, g.mul(a, g.G), g.mul(b, g.H), g.mul(c, g.G), g.mul(d, g.H));
    MulAdd(g, a, c, g.G);
    MulAdd(g, b, d, g.H);
  }

  lemma CommitMul<P(!new)>(g: Group<P>, i: int, a: int, b: int)
    requires Laws(g)
    ensures g.mul(i, g.Commit(a, b)) == g.Commit(i * a, i * b)
  {
    MulDistributes(g, i, g.mul(a, g.G), g.mul(b, g.H));
    MulMul(g, i, a, g.G);
    MulMul(g, i, b, g.H);
  }

  lemma CommitZero<P(!new)>(g: Group<P>)
    requires Laws(g)
    ensures g.Commit(0, 0) == g.zero
  {
    MulUnits(g, g.G);
    MulUnits(g, g.H);
    AddZero(g, g.zero);
  }

  lemma CommitCong<P(!new)>(g: Group<P>, a: int, b: int, a': int, b': int)
    requires Laws(g) && Cong(a, a', g.q) && Cong(b, b', g.q)
    ensures g.Commit(a, b) == g.Commit(a', b')
  {
    MulCong(g, a, a', g.G);
    MulCong(g, b, b', g.H);
  }

  lemma AddCancel<P(!new)>(g: Group<P>, a: P, b: P, c: P)
    requires Laws(g)
    ensures g.add(a, c) == g.add(b, c) <==> a == b
  {
    AddAssoc(g, a, c, g.Neg(c));
    AddAssoc(g, b, c, g.Neg(c));
    AddNeg(g, c);
    AddZero(g, a);
    AddZero(g, b);
  }

  lemma MulInjective<P(!new)>(g: Group<P>, i: int, a: P, b: P)
    requires Laws(g) && !Cong(i, 0, g.q)
    ensures g.mul(i, a) == g.mul(i, b) <==> a == b
  {
    if g.mul(i, a) == g.mul(i, b) {
      DiffZero(g, g.mul(i, a), g.mul(i, b));
      MulMul(g, -1, i, b);
      MulMul(g, i, -1, b);
      MulDistributes(g, i, a, g.Neg(b));
      MulCancel(g, i, g.add(a, g.Neg(b)));
      DiffZero(g, a, b);
    }
  }
}
