/** Bivariate sharing and its checks, after Cachin, Kursawe, Lysyanskaya and Strobl (2002). */
module Avss {
  import opened Modular
  import opened Curve
  import opened Polynomials
  import opened Lagrange

  type Matrix<P> = seq<seq<P>>

  predicate IsSquare<P>(c: Matrix<P>, k: nat) {
    |c| == k && forall j :: 0 <= j < k ==> |c[j]| == k
  }

  // ----- what the checks test

  /** Each row evaluated at y. */
  function RowValues<P>(g: Group<P>, c: Matrix<P>, y: int): (r: seq<P>)
    ensures |r| == |c|
  {
    seq(|c|, j requires 0 <= j < |c| => PointEval(g, c[j], y))
  }

  /** Sum of x^j * y^l * c[j][l]. */
  function BiEval<P>(g: Group<P>, c: Matrix<P>, x: int, y: int): P {
    PointEval(g, RowValues(g, c, y), x)
  }

  /** Each row cut to the length of the first, which is all that the point check reads. */
  function Cut<P>(c: Matrix<P>): (r: Matrix<P>)
    ensures |r| == |c| && ((forall j :: 0 <= j < |c| ==> |c[j]| == |c[0]|) ==> r == c)
  {
    seq(|c|, j requires 0 <= j < |c| => if |c[j]| <= |c[0]| then c[j] else c[j][..|c[0]|])
  }

  /** A row shorter than the first: reading the matrix runs off its end. */
  predicate ShortRow<P>(c: Matrix<P>) {
    exists j :: 0 <= j < |c| && |c[j]| < |c[0]|
  }

  /** The polynomials handed to node i are committed to by the columns and rows of c, as the code commits. */
  ghost predicate PolyOk<P>(g: Group<P>, c: Matrix<P>, i: int, a: seq<int>, a': seq<int>, b: seq<int>, b': seq<int>)
    requires |a| == |a'| && |b| == |b'| && IsSquare(c, |a|) && |b| == |a|
  {
    && (forall l :: 0 <= l < |a| ==> g.Checked(a[l], a'[l]) == PointEval(g, Column(c, l), i))
    && (forall j :: 0 <= j < |b| ==> g.Checked(b[j], b'[j]) == PointEval(g, c[j], i))
  }

  predicate PointOk<P(==)>(g: Group<P>, c: Matrix<P>, m: int, i: int, alpha: int, alpha': int) {
    g.Checked(alpha, alpha') == BiEval(g, Cut(c), m, i)
  }

  /** What an honest beta satisfies; `AVSSVerifyPoint` does not test it. */
  predicate BetaOk<P(==)>(g: Group<P>, c: Matrix<P>, m: int, i: int, beta: int, beta': int) {
    g.Commit(beta, beta') == BiEval(g, c, i, m)
  }

  predicate ShareOk<P(==)>(g: Group<P>, c: Matrix<P>, m: int, sigma: int, sigma': int)
    requires forall j :: 0 <= j < |c| ==> |c[j]| > 0
  {
    g.Checked(sigma, sigma') == PointEval(g, Column(c, 0), m)
  }

  /** The outcome of a check: the source panics where it indexes out of range. */
  datatype Check = Passed | Failed | OutOfRange

  /** The column equations in the order the code tests them: a mismatch or an index out of range, whichever
      is first, decides. */
  ghost function ScanColumns<P>(g: Group<P>, c: Matrix<P>, i: int, a: seq<int>, a': seq<int>, l: nat): Check
    decreases |a| - l
  {
    if l >= |a| then Passed
    else if l >= |a'| || exists j :: 0 <= j < |c| && l >= |c[j]| then OutOfRange
    else if g.Checked(a[l], a'[l]) != PointEval(g, Column(c, l), i) then Failed
    else ScanColumns(g, c, i, a, a', l + 1)
  }

  /** The row equations likewise; k entries of a row are read. */
  ghost function ScanRows<P>(g: Group<P>, c: Matrix<P>, k: nat, i: int, b: seq<int>, b': seq<int>, j: nat): Check
    decreases |b| - j
  {
    if j >= |b| then Passed
    else if j >= |b'| || j >= |c| || k > |c[j]| then OutOfRange
    else if g.Checked(b[j], b'[j]) != PointEval(g, c[j][..k], i) then Failed
    else ScanRows(g, c, k, i, b, b', j + 1)
  }

  /** `AVSSVerifyPoly` on anything that arrives, the four thresholds being k. */
  ghost function PolyCheck<P>(g: Group<P>, c: Matrix<P>, i: int, k: nat,
                              a: seq<int>, a': seq<int>, b: seq<int>, b': seq<int>): Check
    requires k > 0
  {
    if k != |c| || k != |c[0]| then Failed
    else if ScanColumns(g, c, i, a, a', 0) != Passed then ScanColumns(g, c, i, a, a', 0)
    else ScanRows(g, c, k, i, b, b', 0)
  }

  /** `AVSSVerifyPoint` reads the whole matrix before it compares. */
  ghost function PointCheck<P>(g: Group<P>, c: Matrix<P>, m: int, i: int, alpha: int, alpha': int): Check {
    if ShortRow(c) then OutOfRange else if PointOk(g, c, m, i, alpha, alpha') then Passed else Failed
  }

  // ----- the loops

  /** `GetCommitmentMatrix` */
  method GetCommitmentMatrix<P>(g: Group<P>, f: Matrix<int>, f': Matrix<int>) returns (c: Matrix<P>)
    requires IsSquare(f, |f|) && IsSquare(f', |f|)
    ensures IsSquare(c, |f|)
    ensures forall j, l :: 0 <= j < |f| && 0 <= l < |f| ==> c[j][l] == g.Checked(f[j][l], f'[j][l])
  {
    c := [];
    for j := 0 to |f|
      invariant |c| == j && forall m :: 0 <= m < j ==> |c[m]| == |f|
      invariant forall m, l :: 0 <= m < j && 0 <= l < |f| ==> c[m][l] == g.Checked(f[m][l], f'[m][l])
    {
      var row := [];
      for l := 0 to |f|
        invariant |row| == l
        invariant forall m :: 0 <= m < l ==> row[m] == g.Checked(f[j][m], f'[j][m])
      {
        row := row + [g.add(g.mul(Abs(f[j][l]), g.G), g.mul(Abs(f'[j][l]), g.H))];
      }
      c := c + [row];
    }
  }

  predicate NonNegative(s: seq<int>) {
    forall i :: 0 <= i < |s| ==> s[i] >= 0
  }

  predicate NonNegativeMatrix(f: Matrix<int>) {
    forall j :: 0 <= j < |f| ==> NonNegative(f[j])
  }

  lemma ProductSign(a: int, b: nat)
    ensures a >= 0 ==> a * b >= 0
  {
  }

  /** The inner loop of both evaluations: the terms are reduced, the sum is not. */
  method EvalTerms(q: nat, coeffs: seq<int>, index: int) returns (sum: int)
    requires q > 0
    ensures Cong(sum, Eval(coeffs, index), q)
    ensures NonNegative(coeffs) ==> sum >= 0
  {
    sum := 0;
    for j := 0 to |coeffs|
      invariant Cong(sum, Eval(coeffs[..j], index), q)
      invariant NonNegative(coeffs) ==> sum >= 0
    {
      var e := Pow(index, j) % q;
      ModIsCong(Pow(index, j), q);
      CongMul(coeffs[j], coeffs[j], e, Pow(index, j), q);
      CongAdd(sum, Eval(coeffs[..j], index), coeffs[j] * e, coeffs[j] * Pow(index, j), q);
      assert coeffs[..j + 1] == coeffs[..j] + [coeffs[j]];
      EvalSnoc(coeffs[..j], coeffs[j], index);
      ProductSign(coeffs[j], e);
      sum := sum + coeffs[j] * e;
    }
    assert coeffs[..|coeffs|] == coeffs;
  }

  /** Row polynomial f(index, Y). */
  ghost function AtX(f: Matrix<int>, index: int): (r: seq<int>)
    requires IsSquare(f, |f|)
    ensures |r| == |f|
  {
    seq(|f|, l requires 0 <= l < |f| => Eval(Column(f, l), index))
  }

  /** Column polynomial f(X, index). */
  ghost function AtY(f: Matrix<int>, index: int): (r: seq<int>)
    ensures |r| == |f|
  {
    seq(|f|, j requires 0 <= j < |f| => Eval(f[j], index))
  }

  method EvaluateBivarPolyAtX(q: nat, f: Matrix<int>, index: int) returns (coeff: seq<int>)
    requires q > 0 && IsSquare(f, |f|)
    ensures CongSeq(coeff, AtX(f, index), q)
    ensures NonNegativeMatrix(f) ==> NonNegative(coeff)
  {
    coeff := [];
    for l := 0 to |f|
      invariant |coeff| == l
      invariant NonNegativeMatrix(f) ==> NonNegative(coeff)
      invariant forall m :: 0 <= m < l ==> Cong(coeff[m], AtX(f, index)[m], q)
    {
      var s := EvalTerms(q, Column(f, l), index);
      coeff := coeff + [s];
    }
  }

  method EvaluateBivarPolyAtY(q: nat, f: Matrix<int>, index: int) returns (coeff: seq<int>)
    requires q > 0
    ensures CongSeq(coeff, AtY(f, index), q)
    ensures NonNegativeMatrix(f) ==> NonNegative(coeff)
  {
    coeff := [];
    for j := 0 to |f|
      invariant |coeff| == j
      invariant NonNegativeMatrix(f) ==> NonNegative(coeff)
      invariant forall m :: 0 <= m < j ==> Cong(coeff[m], AtY(f, index)[m], q)
    {
      var s := EvalTerms(q, f[j], index);
      coeff := coeff + [s];
    }
  }

  /** The running point of the checks: sum of index^j * p[j]. */
  method EvalPoints<P(!new)>(g: Group<P>, p: seq<P>, index: int) returns (pt: P)
    requires Laws(g)
    ensures pt == PointEval(g, p, index)
  {
    pt := g.zero;
    for j := 0 to |p|
      invariant pt == PointEval(g, p[..j], index)
    {
      var e := Pow(index, j) % g.q;
      ModIsCong(Pow(index, j), g.q);
      MulCong(g, e, Pow(index, j), p[j]);
      assert p[..j + 1] == p[..j] + [p[j]];
      PointEvalSnoc(g, p[..j], p[j], index);
      pt := g.add(pt, g.mul(e, p[j]));
    }
    assert p[..|p|] == p;
  }

  method AVSSVerifyPoly<P(!new,==)>(g: Group<P>, c: Matrix<P>, index: int, k: nat,
                                    a: seq<int>, a': seq<int>, b: seq<int>, b': seq<int>) returns (r: Check)
    requires Laws(g) && k > 0
    ensures r == PolyCheck(g, c, index, k, a, a', b, b')
  {
    if k != |c| || k != |c[0]| {
      return Failed;
    }
    r := VerifyColumns(g, c, index, a, a');
    if r == Passed {
      r := VerifyRows(g, c, k, index, b, b');
    }
  }

  method VerifyColumns<P(!new,==)>(g: Group<P>, c: Matrix<P>, index: int, a: seq<int>, a': seq<int>) returns (r: Check)
    requires Laws(g)
    ensures r == ScanColumns(g, c, index, a, a', 0)
  {
    for l := 0 to |a|
      invariant ScanColumns(g, c, index, a, a', 0) == ScanColumns(g, c, index, a, a', l)
    {
      if l >= |a'| || exists j :: 0 <= j < |c| && l >= |c[j]| {
        return OutOfRange;
      }
      var pt := EvalPoints(g, Column(c, l), index);
      if g.add(g.mul(Abs(a[l]), g.G), g.mul(Abs(a'[l]), g.H)) != pt {
        return Failed;
      }
    }
    r := Passed;
  }

  method VerifyRows<P(!new,==)>(g: Group<P>, c: Matrix<P>, k: nat, index: int, b: seq<int>, b': seq<int>) returns (r: Check)
    requires Laws(g)
    ensures r == ScanRows(g, c, k, index, b, b', 0)
  {
    for j := 0 to |b|
      invariant ScanRows(g, c, k, index, b, b', 0) == ScanRows(g, c, k, index, b, b', j)
    {
      if j >= |b'| || j >= |c| || k > |c[j]| {
        return OutOfRange;
      }
      var pt := EvalPoints(g, c[j][..k], index);
      if g.add(g.mul(Abs(b[j]), g.G), g.mul(Abs(b'[j]), g.H)) != pt {
        return Failed;
      }
    }
    r := Passed;
  }

  /** `AVSSVerifyPoint`: beta and betaprime are parameters of the source that it never reads. */
  method AVSSVerifyPoint<P(!new,==)>(g: Group<P>, c: Matrix<P>, m: int, index: int, alpha: int, alpha': int)
    returns (r: Check)
    requires Laws(g)
    ensures r == PointCheck(g, c, m, index, alpha, alpha')
  {
    if exists j :: 0 <= j < |c| && |c[j]| < |c[0]| {
      return OutOfRange;
    }
    var pt := g.zero;
    ghost var cut := Cut(c);
    ghost var rows := RowValues(g, cut, index);
    for j := 0 to |c|
      invariant pt == PointEval(g, rows[..j], m)
    {
      pt := AddRow(g, c[j], |c[0]|, m, j, index, pt);
      assert cut[j] == c[j][..|c[0]|];
      assert rows[..j + 1] == rows[..j] + [rows[j]];
      PointEvalSnoc(g, rows[..j], rows[j], m);
    }
    assert rows[..|rows|] == rows;
    r := if g.add(g.mul(Abs(alpha), g.G), g.mul(Abs(alpha'), g.H)) == pt then Passed else Failed;
  }

  /** The inner loop: one row of the matrix. */
  method AddRow<P(!new)>(g: Group<P>, row: seq<P>, n: nat, m: int, j: nat, index: int, before: P) returns (pt: P)
    requires Laws(g) && n <= |row|
    ensures pt == g.add(before, g.mul(Pow(m, j), PointEval(g, row[..n], index)))
  {
    pt := before;
    MulZero(g, Pow(m, j));
    AddZero(g, pt);
    for l := 0 to n
      invariant pt == g.add(before, g.mul(Pow(m, j), PointEval(g, row[..l], index)))
    {
      var mj := Pow(m, j) % g.q;
      var il := Pow(index, l) % g.q;
      ModIsCong(Pow(m, j), g.q);
      ModIsCong(Pow(index, l), g.q);
      CongMul(mj, Pow(m, j), il, Pow(index, l), g.q);
      MulCong(g, mj * il, Pow(m, j) * Pow(index, l), row[l]);
      PointTerm(g, before, Pow(m, j), row, l, index);
      pt := g.add(pt, g.mul(mj * il, row[l]));
    }
  }

  lemma PointTerm<P(!new)>(g: Group<P>, base: P, s: int, row: seq<P>, l: nat, y: int)
    requires Laws(g) && l < |row|
    ensures g.add(g.add(base, g.mul(s, PointEval(g, row[..l], y))), g.mul(s * Pow(y, l), row[l]))
            == g.add(base, g.mul(s, PointEval(g, row[..l + 1], y)))
  {
    var u, v := PointEval(g, row[..l], y), g.mul(Pow(y, l), row[l]);
    assert row[..l + 1] == row[..l] + [row[l]];
    PointEvalSnoc(g, row[..l], row[l], y);
    MulDistributes(g, s, u, v);
    MulMul(g, s, Pow(y, l), row[l]);
    AddAssoc(g, base, g.mul(s, u), g.mul(s, v));
  }

  /** `AVSSVerifyShare` */
  method AVSSVerifyShare<P(!new,==)>(g: Group<P>, c: Matrix<P>, m: int, sigma: int, sigma': int) returns (r: Check)
    requires Laws(g)
    ensures r == OutOfRange <==> exists j :: 0 <= j < |c| && |c[j]| == 0
    ensures r == Passed <==> (forall j :: 0 <= j < |c| ==> |c[j]| > 0) && ShareOk(g, c, m, sigma, sigma')
  {
    if exists j :: 0 <= j < |c| && |c[j]| == 0 {
      return OutOfRange;
    }
    var pt := EvalPoints(g, Column(c, 0), m);
    r := if g.add(g.mul(Abs(sigma), g.G), g.mul(Abs(sigma'), g.H)) == pt then Passed else Failed;
  }

  /** `VerifyShareCommitment` compares X coordinates only: it accepts the point and its negative. */
  method VerifyShareCommitment<P(!new)>(g: Group<P>, commitment: P, pubPoly: seq<P>, index: int) returns (ok: bool)
    requires Laws(g)
    ensures ok <==> commitment == PointEval(g, pubPoly, index)
                    || g.add(commitment, PointEval(g, pubPoly, index)) == g.zero
  {
    var rhs := EvalPoints(g, pubPoly, index);
    SameX(g, commitment, rhs);
    ok := g.xOf(commitment) == g.xOf(rhs);
  }

  // ----- evaluation by rows and by columns agree

  function ColumnValues<P>(g: Group<P>, c: Matrix<P>, x: int, k: nat): (r: seq<P>)
    requires forall j :: 0 <= j < |c| ==> |c[j]| == k
    ensures |r| == k
  {
    seq(k, l requires 0 <= l < k => PointEval(g, Column(c, l), x))
  }

  lemma {:induction false} RowsAndColumns<P(!new)>(g: Group<P>, c: Matrix<P>, k: nat, x: int, y: int)
    requires Laws(g) && forall j :: 0 <= j < |c| ==> |c[j]| == k
    ensures PointEval(g, ColumnValues(g, c, x, k), y) == BiEval(g, c, x, y)
  {
    var v := ColumnValues(g, c, x, k);
    if c == [] {
      assert v == [] + ZeroPoints(g, k);
      PointEvalPad(g, [], k, y);
    } else {
      RowsAndColumns(g, c[1..], k, x, y);
      var v' := ColumnValues(g, c[1..], x, k);
      forall l | 0 <= l < k ensures v[l] == g.add(c[0][l], g.mul(x, v'[l])) {
        assert Column(c, l)[1..] == Column(c[1..], l);
      }
      assert v == PointsAddScaled(g, c[0], x, v');
      PointEvalAddScaled(g, c[0], x, v', y);
      assert RowValues(g, c, y)[1..] == RowValues(g, c[1..], y);
    }
  }

  /** Evaluating committed coefficients gives the commitment to the values. */
  lemma {:induction false} CommittedEval<P(!new)>(g: Group<P>, a: seq<int>, a': seq<int>, v: seq<P>, x: int)
    requires Laws(g) && |a| == |a'| == |v|
    requires forall l :: 0 <= l < |a| ==> v[l] == g.Commit(a[l], a'[l])
    ensures PointEval(g, v, x) == g.Commit(Eval(a, x), Eval(a', x))
  {
    if a == [] {
      CommitZero(g);
    } else {
      CommittedEval(g, a[1..], a'[1..], v[1..], x);
      CommitMul(g, x, Eval(a[1..], x), Eval(a'[1..], x));
      CommitAdd(g, a[0], a'[0], x * Eval(a[1..], x), x * Eval(a'[1..], x));
    }
  }

  /** A matrix committed to entry by entry commits to the values of the bivariate polynomials. */
  lemma CommittedBi<P(!new)>(g: Group<P>, f: Matrix<int>, f': Matrix<int>, c: Matrix<P>, x: int, y: int)
    requires Laws(g) && IsSquare(f, |f|) && IsSquare(f', |f|) && IsSquare(c, |f|)
    requires forall j, l :: 0 <= j < |f| && 0 <= l < |f| ==> c[j][l] == g.Commit(f[j][l], f'[j][l])
    ensures BiEval(g, c, x, y) == g.Commit(Eval(AtX(f, x), y), Eval(AtX(f', x), y))
  {
    var d := ColumnValues(g, c, x, |f|);
    forall l | 0 <= l < |f| ensures d[l] == g.Commit(AtX(f, x)[l], AtX(f', x)[l]) {
      CommittedEval(g, Column(f, l), Column(f', l), Column(c, l), x);
    }
    CommittedEval(g, AtX(f, x), AtX(f', x), d, y);
    RowsAndColumns(g, c, |f|, x, y);
  }

  // ----- the checks fit together

  /** A square matrix passes through the shape tests as it is. */
  lemma SquareIsWhole<P>(c: Matrix<P>, k: nat)
    requires IsSquare(c, k)
    ensures Cut(c) == c && !ShortRow(c)
  {
  }

  lemma SquarePoint<P>(g: Group<P>, c: Matrix<P>, k: nat, m: int, i: int, alpha: int, alpha': int)
    requires IsSquare(c, k)
    ensures PointOk(g, c, m, i, alpha, alpha') <==> g.Checked(alpha, alpha') == BiEval(g, c, m, i)
  {
    SquareIsWhole(c, k);
  }

  /** Shapes right, up to superfluous entries that are never read, and all equations. */
  ghost predicate PolysAccepted<P>(g: Group<P>, c: Matrix<P>, i: int, k: nat,
                                   a: seq<int>, a': seq<int>, b: seq<int>, b': seq<int>) {
    && |a| == |b| == |c| == k > 0 && |a'| >= k && |b'| >= k && |c[0]| == k && !ShortRow(c)
    && PolyOk(g, Cut(c), i, a, a'[..k], b, b'[..k])
  }

  ghost predicate ColumnFits<P>(g: Group<P>, c: Matrix<P>, i: int, a: seq<int>, a': seq<int>, m: nat) {
    && m < |a| && m < |a'| && (forall j :: 0 <= j < |c| ==> m < |c[j]|)
    && g.Checked(a[m], a'[m]) == PointEval(g, Column(c, m), i)
  }

  ghost predicate RowFits<P>(g: Group<P>, c: Matrix<P>, k: nat, i: int, b: seq<int>, b': seq<int>, m: nat) {
    && m < |b| && m < |b'| && m < |c| && k <= |c[m]|
    && g.Checked(b[m], b'[m]) == PointEval(g, c[m][..k], i)
  }

  lemma {:induction false} ColumnsPass<P>(g: Group<P>, c: Matrix<P>, i: int, a: seq<int>, a': seq<int>, l: nat)
    ensures ScanColumns(g, c, i, a, a', l) == Passed <==> forall m :: l <= m < |a| ==> ColumnFits(g, c, i, a, a', m)
    decreases |a| - l
  {
    if l < |a| {
      ColumnsPass(g, c, i, a, a', l + 1);
      assert ScanColumns(g, c, i, a, a', l) == Passed
             <==> ColumnFits(g, c, i, a, a', l) && ScanColumns(g, c, i, a, a', l + 1) == Passed;
    }
  }

  lemma {:induction false} RowsPass<P>(g: Group<P>, c: Matrix<P>, k: nat, i: int, b: seq<int>, b': seq<int>, j: nat)
    ensures ScanRows(g, c, k, i, b, b', j) == Passed <==> forall m :: j <= m < |b| ==> RowFits(g, c, k, i, b, b', m)
    decreases |b| - j
  {
    if j < |b| {
      RowsPass(g, c, k, i, b, b', j + 1);
      assert ScanRows(g, c, k, i, b, b', j) == Passed
             <==> RowFits(g, c, k, i, b, b', j) && ScanRows(g, c, k, i, b, b', j + 1) == Passed;
    }
  }

  lemma CutColumns<P>(c: Matrix<P>, k: nat)
    requires |c| == k > 0 && |c[0]| == k && !ShortRow(c)
    ensures IsSquare(Cut(c), k)
    ensures forall j :: 0 <= j < k ==> Cut(c)[j] == c[j][..k]
    ensures forall l :: 0 <= l < k ==> Column(Cut(c), l) == Column(c, l)
  {
    forall j | 0 <= j < k ensures Cut(c)[j] == c[j][..k] {
    }
  }

  /** `AVSSVerifyPoly` lets a message through to where its polynomials can be evaluated exactly if it is accepted here. */
  lemma PolyCheckPasses<P>(g: Group<P>, c: Matrix<P>, i: int, k: nat, a: seq<int>, a': seq<int>, b: seq<int>, b': seq<int>)
    requires k > 0
    ensures PolyCheck(g, c, i, k, a, a', b, b') == Passed && |a| >= k && |b| >= k
            <==> PolysAccepted(g, c, i, k, a, a', b, b')
  {
    ColumnsPass(g, c, i, a, a', 0);
    RowsPass(g, c, k, i, b, b', 0);
    if PolysAccepted(g, c, i, k, a, a', b, b') {
      AcceptedFit(g, c, i, k, a, a', b, b');
    }
    if PolyCheck(g, c, i, k, a, a', b, b') == Passed && |a| >= k && |b| >= k {
      FitAccepted(g, c, i, k, a, a', b, b');
    }
  }

  lemma AcceptedFit<P>(g: Group<P>, c: Matrix<P>, i: int, k: nat, a: seq<int>, a': seq<int>, b: seq<int>, b': seq<int>)
    requires PolysAccepted(g, c, i, k, a, a', b, b')
    ensures forall m :: 0 <= m < |a| ==> ColumnFits(g, c, i, a, a', m)
    ensures forall m :: 0 <= m < |b| ==> RowFits(g, c, k, i, b, b', m)
  {
    CutColumns(c, k);
    forall m | 0 <= m < |a| ensures ColumnFits(g, c, i, a, a', m) {
      assert g.Checked(a[m], a'[..k][m]) == PointEval(g, Column(Cut(c), m), i);
    }
    forall m | 0 <= m < |b| ensures RowFits(g, c, k, i, b, b', m) {
      assert g.Checked(b[m], b'[..k][m]) == PointEval(g, Cut(c)[m], i);
    }
  }

  lemma FitAccepted<P>(g: Group<P>, c: Matrix<P>, i: int, k: nat, a: seq<int>, a': seq<int>, b: seq<int>, b': seq<int>)
    requires |c| == k > 0 && |c[0]| == k && |a| >= k && |b| >= k
    requires forall m :: 0 <= m < |a| ==> ColumnFits(g, c, i, a, a', m)
    requires forall m :: 0 <= m < |b| ==> RowFits(g, c, k, i, b, b', m)
    ensures PolysAccepted(g, c, i, k, a, a', b, b')
  {
    assert ColumnFits(g, c, i, a, a', |a| - 1) && RowFits(g, c, k, i, b, b', |b| - 1);
    forall j | 0 <= j < k ensures |c[j]| >= k {
      assert RowFits(g, c, k, i, b, b', j);
    }
    CutColumns(c, k);
    forall l | 0 <= l < k ensures g.Checked(a[l], a'[..k][l]) == PointEval(g, Column(Cut(c), l), i) {
      assert ColumnFits(g, c, i, a, a', l);
    }
    forall j | 0 <= j < k ensures g.Checked(b[j], b'[..k][j]) == PointEval(g, Cut(c)[j], i) {
      assert RowFits(g, c, k, i, b, b', j);
    }
  }

  /** Polynomials that pass `AVSSVerifyPoly` at node m give every receiver i an echo that passes
      `AVSSVerifyPoint`, for any matrix, if no number is negative; the betas are right too. */
  lemma VerifiedPolysGiveValidPoints<P(!new)>(g: Group<P>, c: Matrix<P>, m: int, i: int,
                                              a: seq<int>, a': seq<int>, b: seq<int>, b': seq<int>,
                                              alpha: nat, alpha': nat, beta: int, beta': int)
    requires Laws(g) && |a| == |a'| == |b| == |b'| && IsSquare(c, |a|) && PolyOk(g, c, m, a, a', b, b')
    requires NonNegative(a) && NonNegative(a') && NonNegative(b) && NonNegative(b')
    requires Cong(alpha, Eval(a, i), g.q) && Cong(alpha', Eval(a', i), g.q)
    requires Cong(beta, Eval(b, i), g.q) && Cong(beta', Eval(b', i), g.q)
    ensures PointOk(g, c, m, i, alpha, alpha') && BetaOk(g, c, m, i, beta, beta')
  {
    SquarePoint(g, c, |a|, m, i, alpha, alpha');
    EvaluatedPoint(g, ColumnValues(g, c, m, |a|), a, a', i, alpha, alpha');
    RowsAndColumns(g, c, |a|, m, i);
    EvaluatedPoint(g, RowValues(g, c, m), b, b', i, beta, beta');
  }

  lemma EvaluatedPoint<P(!new)>(g: Group<P>, v: seq<P>, a: seq<int>, a': seq<int>, i: int, alpha: int, alpha': int)
    requires Laws(g) && |v| == |a| == |a'| && forall l :: 0 <= l < |a| ==> v[l] == g.Commit(a[l], a'[l])
    requires Cong(alpha, Eval(a, i), g.q) && Cong(alpha', Eval(a', i), g.q)
    ensures g.Commit(alpha, alpha') == PointEval(g, v, i)
  {
    CommittedEval(g, a, a', v, i);
    CommitCong(g, alpha, alpha', Eval(a, i), Eval(a', i));
  }

  /** What an honest dealer sends passes `AVSSVerifyPoly` at every node: its scalars are drawn non-negative. */
  lemma HonestDealerVerifies<P(!new)>(g: Group<P>, f: Matrix<int>, f': Matrix<int>, c: Matrix<P>, i: int,
                                      a: seq<int>, a': seq<int>, b: seq<int>, b': seq<int>)
    requires Laws(g) && IsSquare(f, |f|) && IsSquare(f', |f|) && IsSquare(c, |f|)
    requires forall j, l :: 0 <= j < |f| && 0 <= l < |f| ==> c[j][l] == g.Commit(f[j][l], f'[j][l])
    requires CongSeq(a, AtX(f, i), g.q) && CongSeq(a', AtX(f', i), g.q)
    requires CongSeq(b, AtY(f, i), g.q) && CongSeq(b', AtY(f', i), g.q)
    requires NonNegative(a) && NonNegative(a') && NonNegative(b) && NonNegative(b')
    ensures PolyOk(g, c, i, a, a', b, b')
  {
    forall l | 0 <= l < |a| ensures g.Checked(a[l], a'[l]) == PointEval(g, Column(c, l), i) {
      assert Cong(a[l], AtX(f, i)[l], g.q) && Cong(a'[l], AtX(f', i)[l], g.q);
      EvaluatedPoint(g, Column(c, l), Column(f, l), Column(f', l), i, a[l], a'[l]);
    }
    forall j | 0 <= j < |b| ensures g.Checked(b[j], b'[j]) == PointEval(g, c[j], i) {
      assert Cong(b[j], AtY(f, i)[j], g.q) && Cong(b'[j], AtY(f', i)[j], g.q);
      EvaluatedPoint(g, c[j], f[j], f'[j], i, b[j], b'[j]);
    }
  }
}
