/** The sharing of a constant: a sharing that an honest dealer can make in any network. */
module Constants {
  import opened Curve
  import opened Polynomials
  import opened Lagrange
  import opened Avss
  import opened Machine
  import opened Completion

  /** The polynomial v, with k coefficients. */
  function Constant(k: nat, v: nat): (r: seq<int>)
    ensures |r| == k && NonNegative(r) && forall l :: 0 <= l < k ==> r[l] == if l == 0 then v else 0
  {
    seq(k, l => if l == 0 then v else 0)
  }

  function ConstantMatrix(k: nat, v: nat): (f: Matrix<int>)
    ensures IsSquare(f, k) && forall j, l :: 0 <= j < k && 0 <= l < k ==> f[j][l] == if j == 0 && l == 0 then v else 0
  {
    seq(k, j => seq(k, l => if j == 0 && l == 0 then v else 0))
  }

  function Committed<P>(g: Group<P>, k: nat, v: nat): (c: Matrix<P>)
    ensures IsSquare(c, k)
  {
    seq(k, j => seq(k, l => if j == 0 && l == 0 then g.Commit(v, 0) else g.Commit(0, 0)))
  }

  function ConstantWorld<P>(cfg: Config<P>, dealer: int, v: nat): World<P> {
    var k, c := cfg.k, Committed(cfg.g, cfg.k, v);
    World(cfg, dealer, ConstantMatrix(k, v), ConstantMatrix(k, 0), c,
          map i | i in cfg.nodes :: Send(dealer, i, c, Constant(k, v), Constant(k, 0), Constant(k, v), Constant(k, 0)))
  }

  lemma ConstantEval(k: nat, v: nat, x: int)
    requires k > 0
    ensures Eval(Constant(k, v), x) == v
  {
    EvalZeros(k - 1, x);
    assert Constant(k, v)[1..] == Zeros(k - 1);
  }

  lemma ConstantSlices(k: nat, v: nat, x: int)
    requires k > 0
    ensures AtX(ConstantMatrix(k, v), x) == Constant(k, v) && AtY(ConstantMatrix(k, v), x) == Constant(k, v)
  {
    var f := ConstantMatrix(k, v);
    ConstantEval(k, v, x);
    ConstantEval(k, 0, x);
    assert Column(f, 0) == f[0] == Constant(k, v);
    forall l | 0 < l < k ensures Column(f, l) == f[l] == Constant(k, 0) {
    }
  }

  lemma ConstantWorldIsValid<P(!new)>(cfg: Config<P>, dealer: int, v: nat)
    requires cfg.Valid() && Laws(cfg.g)
    ensures Valid(ConstantWorld(cfg, dealer, v))
  {
    var w := ConstantWorld(cfg, dealer, v);
    forall i | i in cfg.nodes ensures RightSend(w, w.sends[i], i) {
      ConstantSlices(cfg.k, v, i);
      ConstantSlices(cfg.k, 0, i);
    }
    forall j, l | 0 <= j < cfg.k && 0 <= l < cfg.k ensures w.c[j][l] == cfg.g.Commit(w.f[j][l], w.f'[j][l]) {
      assert w.f'[j][l] == 0;
    }
  }

  lemma ConstantsDiffer<P(!new)>(g: Group<P>, k: nat)
    requires Laws(g) && k > 0 && g.G != g.zero
    ensures Committed(g, k, 0) != Committed(g, k, 1)
  {
    CommitZero(g);
    MulUnits(g, g.G);
    MulUnits(g, g.H);
    AddZero(g, g.G);
    assert g.Commit(1, 0) == g.G;
    assert Committed(g, k, 0)[0][0] == g.Commit(0, 0) && Committed(g, k, 1)[0][0] == g.Commit(1, 0);
  }
}
