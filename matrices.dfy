/**
 * Dense matrices over exact reals, stored as sequences of rows, and the few
 * vector operations that Gaussian elimination and the kernel computation use.
 * Dafny's `real` is exact rational arithmetic, so "exactly zero" tests are
 * exact here.
 */
module Matrices {

  type Vector = seq<real>
  type Matrix = seq<Vector>

  /** Every row of `m` has `cols` entries (a matrix may have zero rows). */
  predicate IsMatrix(m: Matrix, cols: nat) {
    forall i :: 0 <= i < |m| ==> |m[i]| == cols
  }

  predicate IsZero(v: Vector) {
    forall j :: 0 <= j < |v| ==> v[j] == 0.0
  }

  /** A vector that is not zero has a nonzero entry. */
  lemma NonzeroEntry(v: Vector) returns (j: nat)
    requires !IsZero(v)
    ensures j < |v| && v[j] != 0.0
  {
    j :| 0 <= j < |v| && v[j] != 0.0;
  }

  function Zeros(n: nat): Vector {
    seq(n, _ => 0.0)
  }

  /** The `n`-entry unit vector with a 1 at position `k` (all zero when `k` is out of range). */
  function Unit(n: nat, k: int): Vector {
    seq(n, j => if j == k then 1.0 else 0.0)
  }

  /** The rows of the `n` by `n` identity matrix. */
  function Identity(n: nat): Matrix {
    seq(n, i => Unit(n, i))
  }

  function Scale(c: real, v: Vector): Vector {
    seq(|v|, j requires 0 <= j < |v| => c * v[j])
  }

  /** `u - f * v`, the elementary "subtract a multiple of another row" update. */
  function SubMul(u: Vector, v: Vector, f: real): Vector
    requires |u| == |v|
  {
    seq(|u|, j requires 0 <= j < |u| => u[j] - v[j] * f)
  }

  function Dot(u: Vector, v: Vector): real
    decreases |u|
  {
    if |u| == 0 || |v| == 0 then 0.0 else u[0] * v[0] + Dot(u[1..], v[1..])
  }

  /** The matrix-vector product `A x`. */
  function MatVec(a: Matrix, x: Vector): Vector {
    seq(|a|, i requires 0 <= i < |a| => Dot(a[i], x))
  }

  /** The transpose of an `|m|` by `cols` matrix: a `cols` by `|m|` matrix. */
  function Transpose(m: Matrix, cols: nat): (t: Matrix)
    requires IsMatrix(m, cols)
    ensures |t| == cols && IsMatrix(t, |m|)
    ensures forall i, j :: 0 <= i < cols && 0 <= j < |m| ==> t[i][j] == m[j][i]
  {
    seq(cols, i requires 0 <= i < cols => seq(|m|, j requires 0 <= j < |m| => m[j][i]))
  }

  /** The first column of a matrix whose rows are non-empty. */
  function Col0(m: Matrix): seq<real>
    requires forall i :: 0 <= i < |m| ==> |m[i]| > 0
  {
    Column(m, 0)
  }

  /** The matrix without its first column. */
  function DropCol(m: Matrix): Matrix
    requires forall i :: 0 <= i < |m| ==> |m[i]| > 0
  {
    seq(|m|, i requires 0 <= i < |m| => m[i][1..])
  }

  /** The matrix with `col` attached on the left as a new first column. */
  function PrependCol(col: seq<real>, m: Matrix): Matrix
    requires |col| == |m|
  {
    seq(|m|, i requires 0 <= i < |m| => [col[i]] + m[i])
  }

  /** `P` describes a set of `w`-vectors closed under the elementary row updates. */
  ghost predicate Subspace(p: Vector -> bool, w: nat) {
    && (forall u: Vector, c: real :: |u| == w && p(u) ==> p(Scale(c, u)))
    && (forall u: Vector, v: Vector, f: real :: |u| == w && |v| == w && p(u) && p(v) ==> p(SubMul(u, v, f)))
  }

  ghost predicate AllRows(p: Vector -> bool, m: Matrix) {
    forall i :: 0 <= i < |m| ==> p(m[i])
  }

  lemma {:induction false} DotScale(u: Vector, v: Vector, c: real)
    requires |u| == |v|
    ensures Dot(u, Scale(c, v)) == c * Dot(u, v)
    decreases |u|
  {
    if |u| > 0 {
      ScaleTail(c, v);
      DotScale(u[1..], v[1..], c);
    }
  }

  lemma {:induction false} DotSubMul(u: Vector, x: Vector, y: Vector, f: real)
    requires |u| == |x| == |y|
    ensures Dot(u, SubMul(x, y, f)) == Dot(u, x) - Dot(u, y) * f
    decreases |u|
  {
    if |u| > 0 {
      SubMulTail(x, y, f);
      DotSubMul(u[1..], x[1..], y[1..], f);
    }
  }

  lemma ScaleTail(c: real, v: Vector)
    requires |v| > 0
    ensures Scale(c, v)[1..] == Scale(c, v[1..])
  {
    assert forall j :: 0 <= j < |v| - 1 ==> Scale(c, v)[1..][j] == Scale(c, v[1..])[j];
  }

  lemma SubMulTail(x: Vector, y: Vector, f: real)
    requires |x| == |y| > 0
    ensures SubMul(x, y, f)[1..] == SubMul(x[1..], y[1..], f)
  {
    assert forall j :: 0 <= j < |x| - 1 ==> SubMul(x, y, f)[1..][j] == SubMul(x[1..], y[1..], f)[j];
  }

  /** Multiplying by the `k`-th unit vector picks out entry `k`. */
  lemma {:induction false} DotUnit(u: Vector, k: nat)
    requires k < |u|
    ensures Dot(u, Unit(|u|, k)) == u[k]
    decreases |u|
  {
    if k == 0 {
      DotZeros(u[1..]);
      assert Unit(|u|, k)[1..] == Zeros(|u| - 1);
    } else {
      assert Unit(|u|, k)[1..] == Unit(|u| - 1, k - 1);
      DotUnit(u[1..], k - 1);
    }
  }

  lemma {:induction false} DotZeros(u: Vector)
    ensures Dot(u, Zeros(|u|)) == 0.0
    decreases |u|
  {
    if |u| > 0 {
      assert Zeros(|u|)[1..] == Zeros(|u| - 1);
      DotZeros(u[1..]);
    }
  }

  /** `A (c x) = c (A x)` and `A (x - f y) = A x - f (A y)`. */
  lemma MatVecLinear(a: Matrix, x: Vector, y: Vector, c: real, f: real)
    requires IsMatrix(a, |x|) && |x| == |y|
    ensures MatVec(a, Scale(c, x)) == Scale(c, MatVec(a, x))
    ensures MatVec(a, SubMul(x, y, f)) == SubMul(MatVec(a, x), MatVec(a, y), f)
  {
    forall i | 0 <= i < |a| ensures MatVec(a, Scale(c, x))[i] == Scale(c, MatVec(a, x))[i] {
      DotScale(a[i], x, c);
    }
    forall i | 0 <= i < |a| ensures MatVec(a, SubMul(x, y, f))[i] == SubMul(MatVec(a, x), MatVec(a, y), f)[i] {
      DotSubMul(a[i], x, y, f);
    }
  }

  lemma ScalePrepend(c: real, u: Vector)
    ensures [0.0] + Scale(c, u) == Scale(c, [0.0] + u)
  {
    assert forall j :: 0 <= j < |u| + 1 ==> ([0.0] + Scale(c, u))[j] == Scale(c, [0.0] + u)[j];
  }

  lemma SubMulPrepend(u: Vector, v: Vector, f: real)
    requires |u| == |v|
    ensures [0.0] + SubMul(u, v, f) == SubMul([0.0] + u, [0.0] + v, f)
  {
    assert forall j :: 0 <= j < |u| + 1 ==> ([0.0] + SubMul(u, v, f))[j] == SubMul([0.0] + u, [0.0] + v, f)[j];
  }

  /** Scaling by `a` undoes scaling by `1 / a`. */
  lemma ScaleInverse(a: real, v: Vector)
    requires a != 0.0
    ensures Scale(a, Scale(1.0 / a, v)) == v
  {
    forall j | 0 <= j < |v| ensures Scale(a, Scale(1.0 / a, v))[j] == v[j] {
      assert a * (1.0 / a) == 1.0;
      assert a * ((1.0 / a) * v[j]) == (a * (1.0 / a)) * v[j];
    }
  }

  /** Adding back `f * v` undoes subtracting it. */
  lemma SubMulInverse(u: Vector, v: Vector, f: real)
    requires |u| == |v|
    ensures SubMul(SubMul(u, v, f), v, -f) == u
  {
    assert forall j :: 0 <= j < |u| ==> SubMul(SubMul(u, v, f), v, -f)[j] == u[j];
  }

  /** Column `j` of a matrix whose rows all have more than `j` entries. */
  function Column(m: Matrix, j: nat): (col: seq<real>)
    requires forall i :: 0 <= i < |m| ==> j < |m[i]|
    ensures |col| == |m| && forall i :: 0 <= i < |m| ==> col[i] == m[i][j]
  {
    seq(|m|, i requires 0 <= i < |m| => m[i][j])
  }

  /** The linear combination `x[0] m[0] + x[1] m[1] + ...` of the rows of `m`. */
  function Combo(x: seq<real>, m: Matrix, w: nat): (v: Vector)
    requires IsMatrix(m, w)
    ensures |v| == w
  {
    seq(w, j requires 0 <= j < w => Dot(x, Column(m, j)))
  }

  /** The rows of `m` are linearly independent: only the zero combination vanishes. */
  ghost predicate Independent(m: Matrix, w: nat)
    requires IsMatrix(m, w)
  {
    forall x: seq<real> :: |x| == |m| && Combo(x, m, w) == Zeros(w) ==> IsZero(x)
  }

  /** The vectors of width `w` that are combinations of the rows of `m`. */
  ghost function SpanOf(m: Matrix, w: nat): Vector -> bool
    requires IsMatrix(m, w)
  {
    u => |u| == w && exists y: seq<real> :: |y| == |m| && Combo(y, m, w) == u
  }

  lemma {:induction false} DotComm(u: Vector, v: Vector)
    requires |u| == |v|
    ensures Dot(u, v) == Dot(v, u)
    decreases |u|
  {
    if |u| > 0 {
      DotComm(u[1..], v[1..]);
    }
  }

  /** A sum whose every term has a zero factor is zero. */
  lemma {:induction false} DotZeroTerms(x: Vector, c: Vector)
    requires |x| == |c| && forall i :: 0 <= i < |x| ==> x[i] == 0.0 || c[i] == 0.0
    ensures Dot(x, c) == 0.0
    decreases |x|
  {
    if |x| > 0 {
      assert x[0] * c[0] == 0.0;
      DotZeroTerms(x[1..], c[1..]);
    }
  }

  /** Changing entry `k` of the right factor changes the product by `u[k]` times the difference. */
  lemma {:induction false} DotUpdate(u: Vector, v: Vector, k: nat, a: real)
    requires |u| == |v| && k < |v|
    ensures Dot(u, v[k := a]) == Dot(u, v) + u[k] * (a - v[k])
    decreases |u|
  {
    if k == 0 {
      assert v[k := a][1..] == v[1..];
    } else {
      assert v[k := a][1..] == v[1..][k - 1 := a];
      DotUpdate(u[1..], v[1..], k - 1, a);
    }
  }

  /** Exchanging two entries of one factor is the same as exchanging them in the other. */
  lemma DotSwap(x: Vector, c: Vector, i: nat)
    requires |x| == |c| && 0 < i < |x|
    ensures Dot(x, c[0 := c[i]][i := c[0]]) == Dot(x[0 := x[i]][i := x[0]], c)
  {
    DotSwapTails(x, c, i);
    DotSwappedRight(x, c, i);
    DotSwappedRight(c, x, i);
    DotComm(x[0 := x[i]][i := x[0]], c);
    DotComm(x[1..][i - 1 := x[0]], c[1..]);
  }

  /** `Dot` with the right factor's first and `i`-th entries exchanged, split at the head. */
  lemma DotSwappedRight(x: Vector, c: Vector, i: nat)
    requires |x| == |c| && 0 < i < |x|
    ensures Dot(x, c[0 := c[i]][i := c[0]]) == x[0] * c[i] + Dot(x[1..], c[1..][i - 1 := c[0]])
  {
    SwapTail(c, i);
  }

  lemma DotSwapTails(x: Vector, c: Vector, i: nat)
    requires |x| == |c| && 0 < i < |x|
    ensures x[0] * c[i] + Dot(x[1..], c[1..][i - 1 := c[0]]) == x[i] * c[0] + Dot(x[1..][i - 1 := x[0]], c[1..])
  {
    var xt, ct := x[1..], c[1..];
    assert ct[i - 1] == c[i] && xt[i - 1] == x[i];
    DotExchange(xt, ct, i - 1, x[0], c[0]);
  }

  /** Moving `a` into `x` at `k` and `b` into `c` at `k`, with the displaced entries multiplied outside. */
  lemma DotExchange(x: Vector, c: Vector, k: nat, a: real, b: real)
    requires |x| == |c| && k < |x|
    ensures a * c[k] + Dot(x, c[k := b]) == x[k] * b + Dot(x[k := a], c)
  {
    DotUpdate(x, c, k, b);
    DotUpdate(c, x, k, a);
    DotComm(c, x);
    DotComm(c, x[k := a]);
    SwapArith(a, x[k], b, c[k], Dot(x, c));
  }

  lemma SwapTail(v: Vector, i: nat)
    requires 0 < i < |v|
    ensures v[0 := v[i]][i := v[0]][0] == v[i]
    ensures v[0 := v[i]][i := v[0]][1..] == v[1..][i - 1 := v[0]]
  {
    var w := v[0 := v[i]][i := v[0]];
    forall k | 0 <= k < |v| - 1 ensures w[1..][k] == v[1..][i - 1 := v[0]][k] {
      assert w[1..][k] == w[k + 1];
    }
  }

  lemma DotCons(x: Vector, c: Vector)
    requires |x| == |c| > 0
    ensures Dot(x, c) == x[0] * c[0] + Dot(x[1..], c[1..])
  {
  }

  lemma SwapArith(x0: real, xi: real, c0: real, ci: real, d: real)
    ensures x0 * ci + (d + xi * (c0 - ci)) == xi * c0 + (d + ci * (x0 - xi))
  {
  }

  /** `Dot` over a sequence cut in two is the sum of the two parts. */
  lemma {:induction false} DotSplit(x: Vector, c: Vector, k: nat)
    requires |x| == |c| && k <= |x|
    ensures Dot(x, c) == Dot(x[..k], c[..k]) + Dot(x[k..], c[k..])
    decreases k
  {
    if k > 0 {
      var x1, c1 := x[1..], c[1..];
      assert x[..k][1..] == x1[..k - 1] && c[..k][1..] == c1[..k - 1];
      assert x[k..] == x1[k - 1..] && c[k..] == c1[k - 1..];
      DotSplit(x1, c1, k - 1);
      assert Dot(x[..k], c[..k]) == x[0] * c[0] + Dot(x1[..k - 1], c1[..k - 1]);
    } else {
      assert x[k..] == x && c[k..] == c;
    }
  }

  /** The first row's share of a combination, and the rest. */
  lemma ComboHead(x: seq<real>, m: Matrix, w: nat)
    requires IsMatrix(m, w) && |x| == |m| > 0
    ensures forall j :: 0 <= j < w ==> Combo(x, m, w)[j] == x[0] * m[0][j] + Combo(x[1..], m[1..], w)[j]
  {
    forall j | 0 <= j < w ensures Combo(x, m, w)[j] == x[0] * m[0][j] + Combo(x[1..], m[1..], w)[j] {
      ComboHeadAt(x, m, w, j);
    }
  }

  /** `ComboHead` at one column. */
  lemma ComboHeadAt(x: seq<real>, m: Matrix, w: nat, j: nat)
    requires IsMatrix(m, w) && |x| == |m| > 0 && j < w
    ensures Combo(x, m, w)[j] == x[0] * m[0][j] + Combo(x[1..], m[1..], w)[j]
  {
    assert Column(m, j)[1..] == Column(m[1..], j);
  }

  /** Multiplying by the `k`-th unit vector on the left picks out entry `k`. */
  lemma UnitDot(c: Vector, k: nat)
    requires k < |c|
    ensures Dot(Unit(|c|, k), c) == c[k]
  {
    DotUnit(c, k);
    DotComm(c, Unit(|c|, k));
  }

  /** Row `k` is the combination with the `k`-th unit vector as coefficients. */
  lemma ComboUnit(m: Matrix, w: nat, k: nat)
    requires IsMatrix(m, w) && k < |m|
    ensures Combo(Unit(|m|, k), m, w) == m[k]
  {
    forall j | 0 <= j < w ensures Combo(Unit(|m|, k), m, w)[j] == m[k][j] {
      UnitDot(Column(m, j), k);
    }
  }

  /** The zero combination is the zero vector. */
  lemma ComboZero(x: seq<real>, m: Matrix, w: nat)
    requires IsMatrix(m, w) && |x| == |m| && IsZero(x)
    ensures Combo(x, m, w) == Zeros(w)
  {
    forall j | 0 <= j < w ensures Combo(x, m, w)[j] == 0.0 {
      DotZeroTerms(x, Column(m, j));
    }
  }

  /** Combinations are linear in their coefficients. */
  lemma ComboLinear(x: seq<real>, y: seq<real>, m: Matrix, w: nat, c: real, f: real)
    requires IsMatrix(m, w) && |x| == |y| == |m|
    ensures Combo(Scale(c, x), m, w) == Scale(c, Combo(x, m, w))
    ensures Combo(SubMul(x, y, f), m, w) == SubMul(Combo(x, m, w), Combo(y, m, w), f)
  {
    forall j | 0 <= j < w ensures Combo(Scale(c, x), m, w)[j] == Scale(c, Combo(x, m, w))[j] {
      var col := Column(m, j);
      DotComm(Scale(c, x), col);
      DotScale(col, x, c);
      DotComm(col, x);
    }
    forall j | 0 <= j < w ensures Combo(SubMul(x, y, f), m, w)[j] == SubMul(Combo(x, m, w), Combo(y, m, w), f)[j] {
      var col := Column(m, j);
      DotComm(SubMul(x, y, f), col);
      DotSubMul(col, x, y, f);
      DotComm(col, x);
      DotComm(col, y);
    }
  }

  /** The combinations of the rows of `m` are closed under the elementary row updates. */
  lemma SpanSubspace(m: Matrix, w: nat)
    requires IsMatrix(m, w)
    ensures Subspace(SpanOf(m, w), w)
    ensures SpanOf(m, w)(Zeros(w))
    ensures AllRows(SpanOf(m, w), m)
  {
    var p := SpanOf(m, w);
    forall u: Vector, c: real | |u| == w && p(u) ensures p(Scale(c, u)) {
      var y :| |y| == |m| && Combo(y, m, w) == u;
      ComboLinear(y, y, m, w, c, 0.0);
    }
    forall u: Vector, v: Vector, f: real | |u| == w && |v| == w && p(u) && p(v) ensures p(SubMul(u, v, f)) {
      var y :| |y| == |m| && Combo(y, m, w) == u;
      var z :| |z| == |m| && Combo(z, m, w) == v;
      ComboLinear(y, z, m, w, 1.0, f);
    }
    ComboZero(Zeros(|m|), m, w);
    forall k | 0 <= k < |m| ensures p(m[k]) {
      ComboUnit(m, w, k);
    }
  }

  /** A closed set that holds the zero vector and every row of `m` holds every combination of them. */
  lemma {:induction false} SubspaceCombo(p: Vector -> bool, m: Matrix, w: nat, x: seq<real>)
    requires IsMatrix(m, w) && |x| == |m| && Subspace(p, w) && p(Zeros(w)) && AllRows(p, m)
    ensures p(Combo(x, m, w))
    decreases |m|
  {
    if |m| == 0 {
      assert Combo(x, m, w) == Zeros(w);
    } else {
      SubspaceCombo(p, m[1..], w, x[1..]);
      ComboHead(x, m, w);
      var t := Combo(x[1..], m[1..], w);
      assert forall j :: 0 <= j < w ==> Combo(x, m, w)[j] == SubMul(t, m[0], -x[0])[j];
      assert Combo(x, m, w) == SubMul(t, m[0], -x[0]);
    }
  }

  /**
   * Row independence survives putting a row on top when that row is nonzero
   * in a column `l` where every other row is zero.
   */
  lemma IndependentCons(top: Vector, q: Matrix, w: nat, l: nat)
    requires IsMatrix(q, w) && |top| == w && l < w && top[l] != 0.0
    requires forall k :: 0 <= k < |q| ==> q[k][l] == 0.0
    requires Independent(q, w)
    ensures Independent([top] + q, w)
  {
    var m := [top] + q;
    forall x: seq<real> | |x| == |m| && Combo(x, m, w) == Zeros(w) ensures IsZero(x) {
      ConsZeroCombo(top, q, w, l, x);
    }
  }

  /** The step of `IndependentCons` for one vanishing combination `x`. */
  lemma ConsZeroCombo(top: Vector, q: Matrix, w: nat, l: nat, x: seq<real>)
    requires IsMatrix(q, w) && |top| == w && l < w && top[l] != 0.0
    requires forall k :: 0 <= k < |q| ==> q[k][l] == 0.0
    requires Independent(q, w)
    requires |x| == |q| + 1 && Combo(x, [top] + q, w) == Zeros(w)
    ensures IsZero(x)
  {
    var m := [top] + q;
    assert m[0] == top && m[1..] == q;
    var rest := Combo(x[1..], q, w);
    assert x[0] == 0.0 by {
      ComboHeadAt(x, m, w, l);
      DotZeroTerms(x[1..], Column(q, l));
      assert Combo(x, m, w)[l] == 0.0;
      assert x[0] * top[l] == 0.0;
    }
    forall j | 0 <= j < w ensures rest[j] == 0.0 {
      ComboHeadAt(x, m, w, j);
      assert Combo(x, m, w)[j] == 0.0;
    }
    assert rest == Zeros(w);
    assert IsZero(x[1..]);
    forall i | 0 <= i < |x| ensures x[i] == 0.0 {
      if i > 0 { assert x[i] == x[1..][i - 1]; }
    }
  }

  /** Dropping the top row keeps the rest independent. */
  lemma IndependentTail(top: Vector, q: Matrix, w: nat)
    requires IsMatrix(q, w) && |top| == w && Independent([top] + q, w)
    ensures Independent(q, w)
  {
    var m := [top] + q;
    assert m[1..] == q;
    forall x: seq<real> | |x| == |q| && Combo(x, q, w) == Zeros(w) ensures IsZero(x) {
      var y := [0.0] + x;
      assert y[1..] == x;
      ComboHead(y, m, w);
      assert Combo(y, m, w) == Zeros(w);
      forall i | 0 <= i < |x| ensures x[i] == 0.0 {
        assert x[i] == y[i + 1];
      }
    }
  }

  /** Independent rows are never zero. */
  lemma IndependentNonzero(m: Matrix, w: nat)
    requires IsMatrix(m, w) && Independent(m, w)
    ensures forall k :: 0 <= k < |m| ==> !IsZero(m[k])
  {
    forall k | 0 <= k < |m| ensures !IsZero(m[k]) {
      var u := Unit(|m|, k);
      ComboUnit(m, w, k);
      assert u[k] == 1.0;
      assert Combo(u, m, w) != Zeros(w);
      ZerosIsZero(m[k]);
    }
  }

  lemma ZerosIsZero(v: Vector)
    ensures IsZero(v) <==> v == Zeros(|v|)
  {
  }

  /** An all-zero first column can be dropped without losing independence. */
  lemma IndependentDropZeroCol(m: Matrix, c: nat)
    requires c > 0 && IsMatrix(m, c) && forall k :: 0 <= k < |m| ==> m[k][0] == 0.0
    requires Independent(m, c)
    ensures IsMatrix(DropCol(m), c - 1) && Independent(DropCol(m), c - 1)
  {
    var d := DropCol(m);
    forall x: seq<real> | |x| == |d| && Combo(x, d, c - 1) == Zeros(c - 1) ensures IsZero(x) {
      forall j | 0 <= j < c ensures Combo(x, m, c)[j] == 0.0 {
        if j == 0 {
          DotZeroTerms(x, Column(m, 0));
        } else {
          assert Column(m, j) == Column(d, j - 1);
          assert Combo(x, d, c - 1)[j - 1] == 0.0;
        }
      }
      assert Combo(x, m, c) == Zeros(c);
    }
  }

  /** Attaching any first column keeps independent rows independent. */
  lemma IndependentPrependCol(col: seq<real>, b: Matrix, c: nat)
    requires c > 0 && |col| == |b| && IsMatrix(b, c - 1) && Independent(b, c - 1)
    ensures IsMatrix(PrependCol(col, b), c) && Independent(PrependCol(col, b), c)
  {
    var p := PrependCol(col, b);
    var w := c - 1;
    forall x: seq<real> | |x| == |p| && Combo(x, p, c) == Zeros(c) ensures IsZero(x) {
      forall j | 0 <= j < w ensures Combo(x, b, w)[j] == 0.0 {
        assert Column(p, j + 1) == Column(b, j);
        assert Combo(x, p, c)[j + 1] == 0.0;
      }
      assert Combo(x, b, w) == Zeros(w);
    }
  }
}
