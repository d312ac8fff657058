/**
 * Recursive, column-by-column Gaussian elimination to row-echelon form
 * (`row_echelon` in matrix_util.py).  `RowEchelon` is the value the
 * algorithm computes; `RowEchelonInPlace` is the algorithm itself, run in
 * place on a window of an `array2`, and is proved to leave `RowEchelon` of
 * the window's old contents in the window.
 */
module Echelon {
  import opened Matrices

  /** Index of the first row whose first entry is nonzero, or `|m|` if there is none. */
  function FirstNonzero(m: Matrix): (i: nat)
    requires forall r :: 0 <= r < |m| ==> |m[r]| > 0
    ensures i <= |m|
    ensures i < |m| ==> m[i][0] != 0.0
    ensures forall r :: 0 <= r < i ==> m[r][0] == 0.0
    decreases |m|
  {
    if |m| == 0 then 0
    else if m[0][0] != 0.0 then 0
    else 1 + FirstNonzero(m[1..])
  }

  function Swap(m: Matrix, i: nat, j: nat): Matrix
    requires i < |m| && j < |m|
  {
    m[i := m[j]][j := m[i]]
  }

  /** Clear the first column of every row of `rows` with the normalized pivot row `top`. */
  function Eliminate(top: Vector, rows: Matrix): Matrix
    requires |top| > 0 && IsMatrix(rows, |top|)
  {
    seq(|rows|, j requires 0 <= j < |rows| => SubMul(rows[j], top, rows[j][0]))
  }

  /** The pivot row `m[i]` divided by its first entry (after it is swapped to the top). */
  function PivotRow(m: Matrix, i: nat): Vector
    requires i < |m| && |m[i]| > 0 && m[i][0] != 0.0
  {
    Scale(1.0 / m[i][0], m[i])
  }

  /** The rows under the pivot after the swap, with the pivot row subtracted to clear column 0. */
  function BelowPivot(m: Matrix, i: nat, c: nat): Matrix
    requires c > 0 && IsMatrix(m, c) && i < |m| && m[i][0] != 0.0
  {
    Eliminate(PivotRow(m, i), Swap(m, 0, i)[1..])
  }

  /** The matrix after the pivot step: the normalized pivot row on top of the cleared rows below it. */
  function Pivoted(m: Matrix, i: nat, c: nat): Matrix
    requires c > 0 && IsMatrix(m, c) && i < |m| && m[i][0] != 0.0
  {
    [PivotRow(m, i)] + BelowPivot(m, i, c)
  }

  /** `m` with its top row and first column kept and the block right of and below them in row-echelon form. */
  function CornerReduced(m: Matrix, c: nat): Matrix
    requires c > 0 && IsMatrix(m, c) && |m| > 0
  {
    [m[0]] + PrependCol(Col0(m[1..]), RowEchelon(DropCol(m[1..]), c - 1))
  }

  /** The row-echelon form that `row_echelon` computes for an `|m|` by `c` matrix. */
  function RowEchelon(m: Matrix, c: nat): (r: Matrix)
    requires IsMatrix(m, c)
    ensures |r| == |m| && IsMatrix(r, c)
    ensures |m| == 0 || c == 0 ==> r == m
    decreases c
  {
    if |m| == 0 || c == 0 then m
    else
      var i := FirstNonzero(m);
      if i == |m| then
        PrependCol(Col0(m), RowEchelon(DropCol(m), c - 1))
      else
        [PivotRow(m, i)] + PrependCol(Col0(BelowPivot(m, i, c)), RowEchelon(DropCol(BelowPivot(m, i, c)), c - 1))
  }

  /** Position of the leading (first nonzero) entry of `v`, or `|v|` when `v` is zero. */
  function Lead(v: Vector): (k: nat)
    ensures k <= |v|
    ensures k < |v| ==> v[k] != 0.0
    decreases |v|
  {
    if |v| == 0 then 0
    else if v[0] != 0.0 then 0
    else 1 + Lead(v[1..])
  }

  /**
   * Row-echelon form: each row's leading entry lies strictly right of the
   * leading entry of every row above it, unless the lower row is all zero
   * (so zero rows come last), and every leading entry is exactly 1.
   */
  predicate IsEchelon(m: Matrix, c: nat) {
    && IsMatrix(m, c)
    && (forall i, j {:trigger Lead(m[i]), Lead(m[j])} :: 0 <= i < j < |m| ==> Lead(m[i]) < Lead(m[j]) || Lead(m[j]) == c)
    && (forall i {:trigger Lead(m[i])} :: 0 <= i < |m| && Lead(m[i]) < c ==> m[i][Lead(m[i])] == 1.0)
  }

  /** In row-echelon form a nonzero row leads strictly right of every row above it. */
  lemma EchelonLeadsIncrease(m: Matrix, c: nat, i: nat, j: nat)
    requires IsEchelon(m, c) && i < j < |m| && Lead(m[j]) < c
    ensures Lead(m[i]) < Lead(m[j])
  {
  }

  lemma LeadPrependZero(v: Vector)
    ensures Lead([0.0] + v) == 1 + Lead(v)
  {
    assert ([0.0] + v)[1..] == v;
  }

  /** After the pivot step the pivot row starts with 1 and the remaining rows start with 0. */
  lemma PivotStep(m: Matrix, c: nat, i: nat)
    requires IsMatrix(m, c) && c > 0 && i < |m| && m[i][0] != 0.0
    ensures PivotRow(m, i)[0] == 1.0
    ensures IsMatrix(BelowPivot(m, i, c), c) && |BelowPivot(m, i, c)| == |m| - 1
    ensures IsZero(Col0(BelowPivot(m, i, c)))
  {
    var s := Swap(m, 0, i);
    var top := PivotRow(m, i);
    var rest := BelowPivot(m, i, c);
    assert top[0] == 1.0;
    forall j | 0 <= j < |rest| ensures rest[j][0] == 0.0 {
      assert rest[j][0] == s[j + 1][0] - top[0] * s[j + 1][0];
    }
  }

  /** Attaching an all-zero first column keeps echelon form (one more column). */
  lemma PrependZeroColEchelon(col: seq<real>, b: Matrix, c: nat)
    requires c > 0 && |col| == |b| && IsEchelon(b, c - 1) && IsZero(col)
    ensures IsEchelon(PrependCol(col, b), c)
    ensures forall k :: 0 <= k < |b| ==> Lead(PrependCol(col, b)[k]) >= 1
  {
    var r := PrependCol(col, b);
    forall k | 0 <= k < |b| ensures r[k] == [0.0] + b[k] && Lead(r[k]) == 1 + Lead(b[k]) {
      LeadPrependZero(b[k]);
    }
  }

  /** A pivot row with leading 1 in column 0 on top of rows led further right. */
  lemma PivotOnTopEchelon(top: Vector, q: Matrix, c: nat)
    requires c > 0 && |top| == c && top[0] == 1.0 && IsEchelon(q, c)
    requires forall k :: 0 <= k < |q| ==> Lead(q[k]) >= 1
    ensures IsEchelon([top] + q, c)
  {
    var r := [top] + q;
    assert Lead(r[0]) == 0;
    assert forall k :: 1 <= k < |r| ==> r[k] == q[k - 1];
  }

  lemma {:induction false} DeferEchelon(m: Matrix, c: nat)
    requires IsMatrix(m, c) && |m| > 0 && c > 0 && FirstNonzero(m) == |m|
    ensures IsEchelon(RowEchelon(m, c), c)
    decreases c, 0
  {
    var b := RowEchelon(DropCol(m), c - 1);
    RowEchelonIsEchelon(DropCol(m), c - 1);
    assert IsZero(Col0(m));
    PrependZeroColEchelon(Col0(m), b, c);
    DeferUnfold(m, c);
    EchelonTransfer(PrependCol(Col0(m), b), RowEchelon(m, c), c);
  }

  lemma {:induction false} PivotEchelon(m: Matrix, c: nat, i: nat)
    requires IsMatrix(m, c) && |m| > 0 && c > 0 && FirstNonzero(m) == i < |m|
    ensures IsEchelon(RowEchelon(m, c), c)
    decreases c, 0
  {
    PivotStep(m, c, i);
    RowEchelonIsEchelon(DropCol(BelowPivot(m, i, c)), c - 1);
    PivotCaseEchelon(m, c, i);
  }

  /** The pivot branch keeps echelon form once the recursive result has it. */
  lemma PivotCaseEchelon(m: Matrix, c: nat, i: nat)
    requires IsMatrix(m, c) && |m| > 0 && c > 0 && FirstNonzero(m) == i < |m|
    requires IsEchelon(RowEchelon(DropCol(BelowPivot(m, i, c)), c - 1), c - 1)
    ensures IsEchelon(RowEchelon(m, c), c)
  {
    PivotStep(m, c, i);
    var rest := BelowPivot(m, i, c);
    var b := RowEchelon(DropCol(rest), c - 1);
    AssembleEchelon(PivotRow(m, i), Col0(rest), b, c);
    PivotUnfold(m, c, i);
    EchelonTransfer([PivotRow(m, i)] + PrependCol(Col0(rest), b), RowEchelon(m, c), c);
  }

  /**
   * Echelon form carried across an equality. Like the other small lemmas that
   * only pass a fact across an equation, it is a separate lemma so that the
   * solver proves it apart from the heavy context of its caller.
   */
  lemma EchelonTransfer(m: Matrix, r: Matrix, c: nat)
    requires IsEchelon(m, c) && r == m
    ensures IsEchelon(r, c)
  {
  }

  lemma AssembleEchelon(top: Vector, col: seq<real>, b: Matrix, c: nat)
    requires c > 0 && |top| == c && top[0] == 1.0
    requires |col| == |b| && IsZero(col) && IsEchelon(b, c - 1)
    ensures IsEchelon([top] + PrependCol(col, b), c)
  {
    PrependZeroColEchelon(col, b, c);
    PivotOnTopEchelon(top, PrependCol(col, b), c);
  }

  /** `row_echelon` produces row-echelon form with leading ones. */
  lemma {:induction false} RowEchelonIsEchelon(m: Matrix, c: nat)
    requires IsMatrix(m, c)
    ensures IsEchelon(RowEchelon(m, c), c)
    decreases c, 1
  {
    if |m| == 0 || c == 0 {
      return;
    }
    var i := FirstNonzero(m);
    if i == |m| {
      DeferEchelon(m, c);
    } else {
      PivotEchelon(m, c, i);
    }
  }

  /**
   * The first column of the result: a pivot 1 on top with zeros below when the
   * input's first column has a nonzero entry, and still all zero otherwise.
   */
  lemma RowEchelonFirstColumn(m: Matrix, c: nat)
    requires IsMatrix(m, c) && |m| > 0 && c > 0
    ensures IsZero(Col0(m)) ==> IsZero(Col0(RowEchelon(m, c)))
    ensures !IsZero(Col0(m)) ==>
              && RowEchelon(m, c)[0][0] == 1.0
              && forall k :: 1 <= k < |m| ==> RowEchelon(m, c)[k][0] == 0.0
  {
    var i := FirstNonzero(m);
    if i == |m| {
      assert IsZero(Col0(m));
    } else {
      assert Col0(m)[i] != 0.0;
      PivotStep(m, c, i);
    }
  }

  /** The property `p` read on a vector with a 0 attached in front. */
  ghost function Shifted(p: Vector -> bool): Vector -> bool {
    v => p([0.0] + v)
  }

  lemma ShiftedSubspace(p: Vector -> bool, w: nat)
    requires w > 0 && Subspace(p, w)
    ensures Subspace(Shifted(p), w - 1)
  {
    forall u: Vector, c: real | |u| == w - 1 && Shifted(p)(u) ensures Shifted(p)(Scale(c, u)) {
      ScalePrepend(c, u);
    }
    forall u: Vector, v: Vector, f: real | |u| == w - 1 && |v| == w - 1 && Shifted(p)(u) && Shifted(p)(v)
      ensures Shifted(p)(SubMul(u, v, f))
    {
      SubMulPrepend(u, v, f);
    }
  }

  /** For rows that start with 0, `p` holds of the rows iff `Shifted(p)` holds of their tails. */
  lemma DropZeroCol(p: Vector -> bool, m: Matrix)
    requires forall k :: 0 <= k < |m| ==> |m[k]| > 0 && m[k][0] == 0.0
    ensures AllRows(p, m) <==> AllRows(Shifted(p), DropCol(m))
  {
    assert forall k :: 0 <= k < |m| ==> m[k] == [0.0] + DropCol(m)[k];
  }

  lemma PrependZeroCol(p: Vector -> bool, col: seq<real>, b: Matrix)
    requires |col| == |b| && IsZero(col)
    ensures AllRows(p, PrependCol(col, b)) <==> AllRows(Shifted(p), b)
  {
    assert forall k :: 0 <= k < |b| ==> PrependCol(col, b)[k] == [0.0] + b[k];
  }

  lemma SwapKeepsRows(p: Vector -> bool, m: Matrix, i: nat)
    requires i < |m|
    ensures AllRows(p, Swap(m, 0, i)) <==> AllRows(p, m)
  {
    var s := Swap(m, 0, i);
    if AllRows(p, m) {
      forall k | 0 <= k < |s| ensures p(s[k]) {
        assert s[k] == m[if k == 0 then i else if k == i then 0 else k];
      }
    }
    if AllRows(p, s) {
      forall k | 0 <= k < |m| ensures p(m[k]) {
        assert m[k] == s[if k == 0 then i else if k == i then 0 else k];
      }
    }
  }

  /** Normalizing the pivot row and eliminating below it are invertible row updates. */
  lemma NormalizeEliminate(p: Vector -> bool, m: Matrix, c: nat, i: nat)
    requires c > 0 && i < |m| && IsMatrix(m, c) && m[i][0] != 0.0 && Subspace(p, c)
    ensures AllRows(p, Swap(m, 0, i)) <==> p(PivotRow(m, i)) && AllRows(p, BelowPivot(m, i, c))
  {
    var s := Swap(m, 0, i);
    var top := PivotRow(m, i);
    var rest := BelowPivot(m, i, c);
    assert s[0] == m[i];
    if AllRows(p, s) {
      assert p(top);
      forall k | 0 <= k < |rest| ensures p(rest[k]) {
        assert p(s[k + 1]);
      }
    }
    if p(top) && AllRows(p, rest) {
      forall k | 0 <= k < |s| ensures p(s[k]) {
        if k == 0 {
          ScaleInverse(s[0][0], s[0]);
        } else {
          SubMulInverse(s[k], top, s[k][0]);
          assert s[k] == SubMul(rest[k - 1], top, -s[k][0]);
        }
      }
    }
  }

  lemma DeferRowSpace(p: Vector -> bool, m: Matrix, c: nat)
    requires IsMatrix(m, c) && |m| > 0 && c > 0 && FirstNonzero(m) == |m|
    requires AllRows(Shifted(p), DropCol(m)) <==> AllRows(Shifted(p), RowEchelon(DropCol(m), c - 1))
    ensures AllRows(p, m) <==> AllRows(p, RowEchelon(m, c))
  {
    DropZeroCol(p, m);
    PrependZeroCol(p, Col0(m), RowEchelon(DropCol(m), c - 1));
  }

  lemma PivotOnTopRows(p: Vector -> bool, top: Vector, q: Matrix)
    ensures AllRows(p, [top] + q) <==> p(top) && AllRows(p, q)
  {
    var r := [top] + q;
    assert r[0] == top;
    assert forall k :: 1 <= k < |r| ==> r[k] == q[k - 1];
    if p(top) && AllRows(p, q) {
      forall k | 0 <= k < |r| ensures p(r[k]) {
        if k > 0 { assert r[k] == q[k - 1]; }
      }
    }
    if AllRows(p, r) {
      forall k | 0 <= k < |q| ensures p(q[k]) {
        assert r[k + 1] == q[k];
      }
    }
  }

  lemma PivotRowSpace(p: Vector -> bool, m: Matrix, c: nat, i: nat)
    requires IsMatrix(m, c) && |m| > 0 && c > 0 && FirstNonzero(m) == i < |m| && Subspace(p, c)
    requires AllRows(Shifted(p), DropCol(BelowPivot(m, i, c))) <==>
             AllRows(Shifted(p), RowEchelon(DropCol(BelowPivot(m, i, c)), c - 1))
    ensures AllRows(p, m) <==> AllRows(p, RowEchelon(m, c))
  {
    PivotStep(m, c, i);
    var top := PivotRow(m, i);
    var rest := BelowPivot(m, i, c);
    SwapKeepsRows(p, m, i);
    NormalizeEliminate(p, m, c, i);
    DropZeroCol(p, rest);
    var b := RowEchelon(DropCol(rest), c - 1);
    PrependZeroCol(p, Col0(rest), b);
    PivotOnTopRows(p, top, PrependCol(Col0(rest), b));
  }

  /**
   * `row_echelon` changes rows only by swaps, scaling by a nonzero pivot and
   * subtracting multiples of the pivot row, so the input and output rows have
   * the same span: every set of vectors closed under those updates contains
   * all input rows exactly when it contains all output rows.
   */
  lemma {:induction false} RowEchelonRowSpace(p: Vector -> bool, m: Matrix, c: nat)
    requires IsMatrix(m, c) && Subspace(p, c)
    ensures AllRows(p, m) <==> AllRows(p, RowEchelon(m, c))
    decreases c, 1
  {
    if |m| == 0 || c == 0 {
      return;
    }
    if FirstNonzero(m) == |m| {
      DeferCase(p, m, c);
    } else {
      PivotCase(p, m, c, FirstNonzero(m));
    }
  }

  lemma {:induction false} DeferCase(p: Vector -> bool, m: Matrix, c: nat)
    requires IsMatrix(m, c) && |m| > 0 && c > 0 && FirstNonzero(m) == |m| && Subspace(p, c)
    ensures AllRows(p, m) <==> AllRows(p, RowEchelon(m, c))
    decreases c, 0
  {
    ShiftedSubspace(p, c);
    RowEchelonRowSpace(Shifted(p), DropCol(m), c - 1);
    DeferRowSpace(p, m, c);
  }

  lemma {:induction false} PivotCase(p: Vector -> bool, m: Matrix, c: nat, i: nat)
    requires IsMatrix(m, c) && |m| > 0 && c > 0 && FirstNonzero(m) == i < |m| && Subspace(p, c)
    ensures AllRows(p, m) <==> AllRows(p, RowEchelon(m, c))
    decreases c, 0
  {
    ShiftedSubspace(p, c);
    PivotStep(m, c, i);
    RowEchelonRowSpace(Shifted(p), DropCol(BelowPivot(m, i, c)), c - 1);
    PivotRowSpace(p, m, c, i);
  }

  /** The part of `a` from row `r0` and column `c0` on, as a matrix. */
  ghost function Window(a: array2<real>, r0: nat, c0: nat): (w: Matrix)
    requires r0 <= a.Length0 && c0 <= a.Length1
    reads a
    ensures |w| == a.Length0 - r0 && IsMatrix(w, a.Length1 - c0)
  {
    seq(a.Length0 - r0, i requires 0 <= i < a.Length0 - r0 reads a =>
      seq(a.Length1 - c0, j requires 0 <= j < a.Length1 - c0 reads a => a[r0 + i, c0 + j]))
  }

  lemma WindowEntries(a: array2<real>, r0: nat, c0: nat)
    requires r0 <= a.Length0 && c0 <= a.Length1
    ensures forall i, j :: 0 <= i < a.Length0 - r0 && 0 <= j < a.Length1 - c0 ==> Window(a, r0, c0)[i][j] == a[r0 + i, c0 + j]
  {
  }

  lemma WindowEntry(a: array2<real>, r0: nat, c0: nat, x: nat, y: nat)
    requires r0 + x < a.Length0 && c0 + y < a.Length1
    ensures Window(a, r0, c0)[x][y] == a[r0 + x, c0 + y]
  {
  }

  lemma WindowEq(a: array2<real>, r0: nat, c0: nat, m: Matrix)
    requires r0 <= a.Length0 && c0 <= a.Length1
    requires |m| == a.Length0 - r0 && IsMatrix(m, a.Length1 - c0)
    requires forall i, j :: 0 <= i < |m| && 0 <= j < a.Length1 - c0 ==> a[r0 + i, c0 + j] == m[i][j]
    ensures Window(a, r0, c0) == m
  {
    var w := Window(a, r0, c0);
    forall i | 0 <= i < |m| ensures w[i] == m[i] {
      assert forall j :: 0 <= j < a.Length1 - c0 ==> w[i][j] == m[i][j];
    }
  }

  /** A window is its first column in front of the window one column to the right. */
  lemma WindowColumns(a: array2<real>, r0: nat, c0: nat)
    requires r0 <= a.Length0 && c0 < a.Length1
    ensures DropCol(Window(a, r0, c0)) == Window(a, r0, c0 + 1)
    ensures Window(a, r0, c0) == PrependCol(Col0(Window(a, r0, c0)), Window(a, r0, c0 + 1))
  {
    var w := Window(a, r0, c0);
    WindowEq(a, r0, c0 + 1, DropCol(w));
    WindowEq(a, r0, c0, PrependCol(Col0(w), Window(a, r0, c0 + 1)));
  }

  /** A window is its first row on top of its first column and the lower-right window. */
  lemma WindowCorner(a: array2<real>, r0: nat, c0: nat)
    requires r0 < a.Length0 && c0 < a.Length1
    ensures DropCol(Window(a, r0, c0)[1..]) == Window(a, r0 + 1, c0 + 1)
    ensures Window(a, r0, c0) ==
            [Window(a, r0, c0)[0]] + PrependCol(Col0(Window(a, r0, c0)[1..]), Window(a, r0 + 1, c0 + 1))
  {
    var w := Window(a, r0, c0);
    WindowEq(a, r0 + 1, c0 + 1, DropCol(w[1..]));
    var m := [w[0]] + PrependCol(Col0(w[1..]), Window(a, r0 + 1, c0 + 1));
    forall i | 0 <= i < |m| ensures w[i] == m[i] {
      if i > 0 {
        assert forall j :: 0 <= j < a.Length1 - c0 ==> w[i][j] == m[i][j];
      }
    }
  }

  /** Exchange rows `r0` and `i` from column `c0` on (`A[i]`, `A[0]` of the view). */
  method SwapRows(a: array2<real>, r0: nat, i: nat, c0: nat)
    requires r0 < a.Length0 && i < a.Length0 && c0 <= a.Length1
    modifies a
    ensures forall x, y :: 0 <= x < a.Length0 && 0 <= y < a.Length1 ==>
              a[x, y] == if y >= c0 && x == r0 then old(a[i, y])
                         else if y >= c0 && x == i then old(a[r0, y])
                         else old(a[x, y])
    ensures r0 <= i ==> Window(a, r0, c0) == Swap(old(Window(a, r0, c0)), 0, i - r0)
  {
    ghost var w := Window(a, r0, c0);
    for j := c0 to a.Length1
      invariant forall x, y :: 0 <= x < a.Length0 && 0 <= y < a.Length1 ==>
                  a[x, y] == if c0 <= y < j && x == r0 then old(a[i, y])
                             else if c0 <= y < j && x == i then old(a[r0, y])
                             else old(a[x, y])
    {
      var t := a[i, j];
      a[i, j] := a[r0, j];
      a[r0, j] := t;
    }
    if r0 <= i {
      WindowEq(a, r0, c0, Swap(w, 0, i - r0));
    }
  }

  /** Divide row `r0`, from column `c0` on, by its entry in column `c0`. */
  method NormalizeRow(a: array2<real>, r0: nat, c0: nat)
    requires r0 < a.Length0 && c0 < a.Length1 && a[r0, c0] != 0.0
    modifies a
    ensures forall x, y :: 0 <= x < a.Length0 && 0 <= y < a.Length1 ==>
              a[x, y] == if y >= c0 && x == r0 then (1.0 / old(a[r0, c0])) * old(a[r0, y]) else old(a[x, y])
    ensures Window(a, r0, c0) ==
            old(Window(a, r0, c0))[0 := Scale(1.0 / old(a[r0, c0]), old(Window(a, r0, c0))[0])]
  {
    ghost var w := Window(a, r0, c0);
    var pivot := a[r0, c0];
    for j := c0 to a.Length1
      invariant forall x, y :: 0 <= x < a.Length0 && 0 <= y < a.Length1 ==>
                  a[x, y] == if c0 <= y < j && x == r0 then (1.0 / pivot) * old(a[r0, y]) else old(a[x, y])
    {
      a[r0, j] := a[r0, j] / pivot;
    }
    WindowEq(a, r0, c0, w[0 := Scale(1.0 / pivot, w[0])]);
  }

  /** Rows below `r0` lose their column-`c0` entry times row `r0` (`A[1:] -= A[0] * A[1:,0:1]`). */
  method EliminateBelow(a: array2<real>, r0: nat, c0: nat)
    requires r0 < a.Length0 && c0 < a.Length1
    modifies a
    ensures forall x, y :: 0 <= x < a.Length0 && 0 <= y < a.Length1 ==>
              a[x, y] == if y >= c0 && x > r0 then old(a[x, y]) - old(a[r0, y]) * old(a[x, c0]) else old(a[x, y])
    ensures Window(a, r0, c0) ==
            [old(Window(a, r0, c0))[0]] + Eliminate(old(Window(a, r0, c0))[0], old(Window(a, r0, c0))[1..])
  {
    ghost var w := Window(a, r0, c0);
    for k := r0 + 1 to a.Length0
      invariant forall x, y :: 0 <= x < a.Length0 && 0 <= y < a.Length1 ==>
                  a[x, y] == if y >= c0 && r0 < x < k then old(a[x, y]) - old(a[r0, y]) * old(a[x, c0]) else old(a[x, y])
    {
      var f := a[k, c0];
      for j := c0 to a.Length1
        invariant forall x, y :: 0 <= x < a.Length0 && 0 <= y < a.Length1 ==>
                    a[x, y] == if y >= c0 && (r0 < x < k || (x == k && y < j)) then old(a[x, y]) - old(a[r0, y]) * old(a[x, c0])
                               else old(a[x, y])
      {
        a[k, j] := a[k, j] - a[r0, j] * f;
      }
    }
    ghost var m := [w[0]] + Eliminate(w[0], w[1..]);
    forall i, j | 0 <= i < |m| && 0 <= j < a.Length1 - c0 ensures a[r0 + i, c0 + j] == m[i][j] {
      if i > 0 {
        assert m[i] == SubMul(w[i], w[0], w[i][0]);
      }
    }
    WindowEq(a, r0, c0, m);
  }

  /** The defer-the-zero-column branch of `RowEchelon`. */
  lemma DeferUnfold(m: Matrix, c: nat)
    requires IsMatrix(m, c) && |m| > 0 && c > 0 && FirstNonzero(m) == |m|
    ensures RowEchelon(m, c) == PrependCol(Col0(m), RowEchelon(DropCol(m), c - 1))
  {
  }

  /** The pivot branch of `RowEchelon`. */
  lemma PivotUnfold(m: Matrix, c: nat, i: nat)
    requires IsMatrix(m, c) && |m| > 0 && c > 0 && FirstNonzero(m) == i < |m|
    ensures RowEchelon(m, c) ==
            [PivotRow(m, i)] + PrependCol(Col0(BelowPivot(m, i, c)), RowEchelon(DropCol(BelowPivot(m, i, c)), c - 1))
  {
  }

  lemma WindowFromColumn(a: array2<real>, r0: nat, c0: nat, col: seq<real>, inner: Matrix)
    requires r0 <= a.Length0 && c0 < a.Length1
    requires |col| == a.Length0 - r0 && forall k :: 0 <= k < |col| ==> a[r0 + k, c0] == col[k]
    requires Window(a, r0, c0 + 1) == inner
    ensures Window(a, r0, c0) == PrependCol(col, inner)
  {
    WindowColumns(a, r0, c0);
    assert Col0(Window(a, r0, c0)) == col;
  }

  lemma WindowFromCorner(a: array2<real>, r0: nat, c0: nat, top: Vector, col: seq<real>, inner: Matrix)
    requires r0 < a.Length0 && c0 < a.Length1
    requires |top| == a.Length1 - c0 && forall j :: 0 <= j < |top| ==> a[r0, c0 + j] == top[j]
    requires |col| == a.Length0 - r0 - 1 && forall k :: 0 <= k < |col| ==> a[r0 + 1 + k, c0] == col[k]
    requires Window(a, r0 + 1, c0 + 1) == inner
    ensures Window(a, r0, c0) == [top] + PrependCol(col, inner)
  {
    WindowCorner(a, r0, c0);
    assert Window(a, r0, c0)[0] == top;
    assert Col0(Window(a, r0, c0)[1..]) == col;
  }

  /** The top row and the first column below it, read off the array. */
  lemma CornerParts(a: array2<real>, r0: nat, c0: nat)
    requires r0 < a.Length0 && c0 < a.Length1
    ensures DropCol(Window(a, r0, c0)[1..]) == Window(a, r0 + 1, c0 + 1)
    ensures forall j :: 0 <= j < a.Length1 - c0 ==> a[r0, c0 + j] == Window(a, r0, c0)[0][j]
    ensures forall k :: 0 <= k < a.Length0 - r0 - 1 ==> a[r0 + 1 + k, c0] == Col0(Window(a, r0, c0)[1..])[k]
  {
    WindowCorner(a, r0, c0);
    WindowEntries(a, r0, c0);
  }

  /** Swap the pivot row `i` to the top of the window, normalize it and clear the column below. */
  method PivotInPlace(a: array2<real>, r0: nat, c0: nat, i: nat)
    requires r0 <= i < a.Length0 && c0 < a.Length1 && a[i, c0] != 0.0
    modifies a
    ensures Window(a, r0, c0) == Pivoted(old(Window(a, r0, c0)), i - r0, a.Length1 - c0)
    ensures forall x, y :: 0 <= x < r0 && 0 <= y < a.Length1 ==> a[x, y] == old(a[x, y])
    ensures forall x, y :: r0 <= x < a.Length0 && 0 <= y < c0 ==> a[x, y] == old(a[x, y])
  {
    ghost var w := Window(a, r0, c0);
    if i > r0 {
      SwapRows(a, r0, i, c0);
    }
    ghost var sw := Swap(w, 0, i - r0);
    assert Window(a, r0, c0) == sw;
    WindowEntry(a, r0, c0, 0, 0);
    assert a[r0, c0] == w[i - r0][0];
    NormalizeRow(a, r0, c0);
    ghost var nw := sw[0 := PivotRow(w, i - r0)];
    assert Window(a, r0, c0) == nw;
    EliminateBelow(a, r0, c0);
    assert nw[0] == PivotRow(w, i - r0) && nw[1..] == sw[1..];
  }

  /**
   * `row_echelon` run in place on the window of `a` from row `r0` and column
   * `c0` on (the recursion's sub-views); everything outside the window is
   * left as it was.
   */
  method RowEchelonInPlace(a: array2<real>, r0: nat, c0: nat)
    requires r0 <= a.Length0 && c0 <= a.Length1
    modifies a
    ensures Window(a, r0, c0) == RowEchelon(old(Window(a, r0, c0)), a.Length1 - c0)
    ensures forall x, y :: 0 <= x < r0 && 0 <= y < a.Length1 ==> a[x, y] == old(a[x, y])
    ensures forall x, y :: r0 <= x < a.Length0 && 0 <= y < c0 ==> a[x, y] == old(a[x, y])
    decreases a.Length1 - c0, 2
  {
    if r0 == a.Length0 || c0 == a.Length1 {
      return;
    }
    ghost var w := Window(a, r0, c0);
    var i := r0;
    while i < a.Length0 && a[i, c0] == 0.0
      invariant r0 <= i <= a.Length0
      invariant forall k :: r0 <= k < i ==> a[k, c0] == 0.0
    {
      i := i + 1;
    }
    FirstNonzeroIs(w, i - r0);
    if i == a.Length0 {
      ReduceAfterZeroColumn(a, r0, c0);
    } else {
      ReduceAfterPivot(a, r0, c0, i);
    }
  }

  /** The first column of the window is zero: reduce the window right of it and keep it. */
  method ReduceAfterZeroColumn(a: array2<real>, r0: nat, c0: nat)
    requires r0 < a.Length0 && c0 < a.Length1
    requires FirstNonzero(Window(a, r0, c0)) == a.Length0 - r0
    modifies a
    ensures Window(a, r0, c0) == RowEchelon(old(Window(a, r0, c0)), a.Length1 - c0)
    ensures forall x, y :: 0 <= x < r0 && 0 <= y < a.Length1 ==> a[x, y] == old(a[x, y])
    ensures forall x, y :: r0 <= x < a.Length0 && 0 <= y < c0 ==> a[x, y] == old(a[x, y])
    decreases a.Length1 - c0, 0
  {
    ghost var w := Window(a, r0, c0);
    ghost var cols := a.Length1 - c0;
    WindowColumns(a, r0, c0);
    ghost var col := Col0(w);
    assert forall k :: 0 <= k < |col| ==> a[r0 + k, c0] == col[k];
    RowEchelonInPlace(a, r0, c0 + 1);
    WindowFromColumn(a, r0, c0, col, RowEchelon(DropCol(w), cols - 1));
    DeferUnfold(w, cols);
  }

  /** Row `i` holds the window's first nonzero in column `c0`: pivot on it and reduce the lower-right window. */
  method ReduceAfterPivot(a: array2<real>, r0: nat, c0: nat, i: nat)
    requires r0 <= i < a.Length0 && c0 < a.Length1
    requires FirstNonzero(Window(a, r0, c0)) == i - r0
    modifies a
    ensures Window(a, r0, c0) == RowEchelon(old(Window(a, r0, c0)), a.Length1 - c0)
    ensures forall x, y :: 0 <= x < r0 && 0 <= y < a.Length1 ==> a[x, y] == old(a[x, y])
    ensures forall x, y :: r0 <= x < a.Length0 && 0 <= y < c0 ==> a[x, y] == old(a[x, y])
    decreases a.Length1 - c0, 1
  {
    ghost var w := Window(a, r0, c0);
    ghost var cols, k := a.Length1 - c0, i - r0;
    WindowEntry(a, r0, c0, k, 0);
    PivotResult(w, cols, k);
    PivotInPlace(a, r0, c0, i);
    ReduceCorner(a, r0, c0);
  }

  /** A window whose pivot row and the rows below it have been reduced holds the pivot branch of `RowEchelon`. */
  lemma PivotResult(w: Matrix, cols: nat, i: nat)
    requires IsMatrix(w, cols) && |w| > 0 && cols > 0 && FirstNonzero(w) == i < |w|
    ensures IsMatrix(Pivoted(w, i, cols), cols)
    ensures CornerReduced(Pivoted(w, i, cols), cols) == RowEchelon(w, cols)
  {
    var p := Pivoted(w, i, cols);
    assert p[0] == PivotRow(w, i) && p[1..] == BelowPivot(w, i, cols);
    PivotUnfold(w, cols, i);
  }

  /** Reduce the window right of column `c0` and below row `r0`, keeping that row and column. */
  method ReduceCorner(a: array2<real>, r0: nat, c0: nat)
    requires r0 < a.Length0 && c0 < a.Length1
    modifies a
    ensures Window(a, r0, c0) == CornerReduced(old(Window(a, r0, c0)), a.Length1 - c0)
    ensures forall x, y :: 0 <= x < r0 && 0 <= y < a.Length1 ==> a[x, y] == old(a[x, y])
    ensures forall x, y :: r0 <= x < a.Length0 && 0 <= y < c0 ==> a[x, y] == old(a[x, y])
    decreases a.Length1 - c0, 0
  {
    ghost var w := Window(a, r0, c0);
    CornerParts(a, r0, c0);
    RowEchelonInPlace(a, r0 + 1, c0 + 1);
    WindowFromCorner(a, r0, c0, w[0], Col0(w[1..]), RowEchelon(DropCol(w[1..]), a.Length1 - c0 - 1));
  }

  lemma FirstNonzeroIs(m: Matrix, i: nat)
    requires forall r :: 0 <= r < |m| ==> |m[r]| > 0
    requires i <= |m| && (i < |m| ==> m[i][0] != 0.0)
    requires forall r :: 0 <= r < i ==> m[r][0] == 0.0
    ensures FirstNonzero(m) == i
  {
  }

  /** `m` with `k` zero columns attached on the left. */
  function ZeroPad(k: nat, m: Matrix): (z: Matrix)
    ensures |z| == |m| && forall i :: 0 <= i < |m| ==> z[i] == Zeros(k) + m[i]
  {
    seq(|m|, i requires 0 <= i < |m| => Zeros(k) + m[i])
  }

  /** Leading all-zero columns are deferred one by one and come back unchanged. */
  lemma {:induction false} RowEchelonZeroPad(k: nat, m: Matrix, c: nat)
    requires IsMatrix(m, c)
    ensures RowEchelon(ZeroPad(k, m), k + c) == ZeroPad(k, RowEchelon(m, c))
    decreases k
  {
    if k == 0 {
      ZeroPadNone(m);
      ZeroPadNone(RowEchelon(m, c));
    } else if |m| > 0 {
      RowEchelonZeroPad(k - 1, m, c);
      ZeroPadStep(k, m, c);
    }
  }

  lemma ZeroPadNone(m: Matrix)
    ensures ZeroPad(0, m) == m
  {
    assert forall i :: 0 <= i < |m| ==> ZeroPad(0, m)[i] == m[i];
  }

  /** One more zero column on the left is deferred and comes back unchanged. */
  lemma ZeroPadStep(k: nat, m: Matrix, c: nat)
    requires IsMatrix(m, c) && k > 0 && |m| > 0
    requires RowEchelon(ZeroPad(k - 1, m), k - 1 + c) == ZeroPad(k - 1, RowEchelon(m, c))
    ensures RowEchelon(ZeroPad(k, m), k + c) == ZeroPad(k, RowEchelon(m, c))
  {
    var z := ZeroPad(k, m);
    ZeroPadColumns(k, m);
    FirstNonzeroIs(z, |m|);
    DeferUnfold(z, k + c);
    ZeroPadColumns(k, RowEchelon(m, c));
  }

  lemma ZeroPadColumns(k: nat, m: Matrix)
    requires k > 0
    ensures Col0(ZeroPad(k, m)) == Zeros(|m|)
    ensures DropCol(ZeroPad(k, m)) == ZeroPad(k - 1, m)
    ensures PrependCol(Zeros(|m|), ZeroPad(k - 1, m)) == ZeroPad(k, m)
  {
    var z := ZeroPad(k, m);
    assert Zeros(k)[1..] == Zeros(k - 1);
    assert [0.0] + Zeros(k - 1) == Zeros(k);
    assert forall i :: 0 <= i < |m| ==> DropCol(z)[i] == ZeroPad(k - 1, m)[i];
    assert forall i :: 0 <= i < |m| ==> PrependCol(Zeros(|m|), ZeroPad(k - 1, m))[i] == z[i];
  }

  /** The identity is already in row-echelon form: each pivot is 1 with zeros below. */
  lemma {:induction false} RowEchelonIdentity(d: nat)
    ensures RowEchelon(Identity(d), d) == Identity(d)
    decreases d
  {
    var m := Identity(d);
    if d > 0 {
      FirstNonzeroIs(m, 0);
      PivotUnfold(m, d, 0);
      IdentityPivot(d);
      IdentityTail(d);
      RowEchelonIdentity(d - 1);
      assert m == [m[0]] + m[1..];
    }
  }

  /** Pivoting on the identity's first row changes nothing. */
  lemma IdentityPivot(d: nat)
    requires d > 0
    ensures PivotRow(Identity(d), 0) == Identity(d)[0]
    ensures BelowPivot(Identity(d), 0, d) == Identity(d)[1..]
  {
    var m := Identity(d);
    var top := PivotRow(m, 0);
    assert forall j :: 0 <= j < d ==> top[j] == m[0][j];
    var rest := BelowPivot(m, 0, d);
    assert Swap(m, 0, 0) == m;
    forall j | 0 <= j < d - 1 ensures rest[j] == m[1..][j] {
      assert forall x :: 0 <= x < d ==> rest[j][x] == m[j + 1][x];
    }
  }

  /** Below its first row the identity is a zero column beside a smaller identity. */
  lemma IdentityTail(d: nat)
    requires d > 0
    ensures Col0(Identity(d)[1..]) == Zeros(d - 1)
    ensures DropCol(Identity(d)[1..]) == Identity(d - 1)
    ensures PrependCol(Zeros(d - 1), Identity(d - 1)) == Identity(d)[1..]
  {
    var t := Identity(d)[1..];
    forall j | 0 <= j < d - 1 ensures DropCol(t)[j] == Identity(d - 1)[j] {
      assert forall x :: 0 <= x < d - 1 ==> DropCol(t)[j][x] == Identity(d - 1)[j][x];
    }
    var q := PrependCol(Zeros(d - 1), Identity(d - 1));
    forall j | 0 <= j < d - 1 ensures q[j] == t[j] {
      assert forall x :: 0 <= x < d ==> q[j][x] == t[j][x];
    }
  }

  /** Exchanging rows 0 and `i` exchanges the matching coefficients. */
  lemma ComboSwap(x: seq<real>, m: Matrix, w: nat, i: nat)
    requires IsMatrix(m, w) && |x| == |m| && i < |m|
    ensures IsMatrix(Swap(m, 0, i), w)
    ensures Combo(x, Swap(m, 0, i), w) == Combo(x[0 := x[i]][i := x[0]], m, w)
  {
    if i == 0 {
      assert Swap(m, 0, 0) == m && x[0 := x[0]][0 := x[0]] == x;
    } else {
      forall j | 0 <= j < w ensures Combo(x, Swap(m, 0, i), w)[j] == Combo(x[0 := x[i]][i := x[0]], m, w)[j] {
        var col := Column(m, j);
        assert Column(Swap(m, 0, i), j) == col[0 := col[i]][i := col[0]];
        DotSwap(x, col, i);
      }
    }
  }

  lemma SwapIndependent(m: Matrix, w: nat, i: nat)
    requires IsMatrix(m, w) && i < |m| && Independent(m, w)
    ensures IsMatrix(Swap(m, 0, i), w) && Independent(Swap(m, 0, i), w)
  {
    forall x: seq<real> | |x| == |m| && Combo(x, Swap(m, 0, i), w) == Zeros(w) ensures IsZero(x) {
      ComboSwap(x, m, w, i);
      var y := x[0 := x[i]][i := x[0]];
      assert IsZero(y);
      forall k | 0 <= k < |x| ensures x[k] == 0.0 {
        assert x[k] == y[if k == 0 then i else if k == i then 0 else k];
      }
    }
  }

  lemma PivotArith(x0: real, dx: real, p: real, s0: real, d: real)
    requires p != 0.0
    ensures x0 * ((1.0 / p) * s0) + (d - dx * ((1.0 / p) * s0)) == ((x0 - dx) / p) * s0 + d
  {
  }

  /** Column `j` of the eliminated rows: column `j` of the rows minus their first column times `top[j]`. */
  lemma EliminateColumn(top: Vector, rows: Matrix, j: nat)
    requires |top| > 0 && IsMatrix(rows, |top|) && j < |top|
    ensures Column(Eliminate(top, rows), j) == SubMul(Column(rows, j), Column(rows, 0), top[j])
  {
    var e := Eliminate(top, rows);
    forall k | 0 <= k < |rows| ensures Column(e, j)[k] == SubMul(Column(rows, j), Column(rows, 0), top[j])[k] {
      assert e[k] == SubMul(rows[k], top, rows[k][0]);
    }
  }

  /** Entry `j` of a combination of the pivoted rows, split into the pivot row's share and the eliminated rows' share. */
  lemma PivotedComboEntry(x: seq<real>, m: Matrix, c: nat, i: nat, j: nat)
    requires c > 0 && IsMatrix(m, c) && i < |m| && m[i][0] != 0.0 && |x| == |m| && j < c
    ensures IsMatrix([PivotRow(m, i)] + BelowPivot(m, i, c), c)
    ensures var s := Swap(m, 0, i);
            var tj := PivotRow(m, i)[j];
            Combo(x, [PivotRow(m, i)] + BelowPivot(m, i, c), c)[j]
              == x[0] * tj + (Dot(x[1..], Column(s[1..], j)) - Dot(x[1..], Column(s[1..], 0)) * tj)
  {
    var s := Swap(m, 0, i);
    var top := PivotRow(m, i);
    var t := [top] + BelowPivot(m, i, c);
    assert t[0] == top && t[1..] == BelowPivot(m, i, c);
    ComboHeadAt(x, t, c, j);
    EliminateColumn(top, s[1..], j);
    DotSubMul(x[1..], Column(s[1..], j), Column(s[1..], 0), top[j]);
  }

  /** Entry `j` of a combination of the swapped rows with first coefficient `g0`. */
  lemma SwappedComboEntry(g0: real, x: seq<real>, m: Matrix, c: nat, i: nat, j: nat)
    requires IsMatrix(m, c) && i < |m| && |x| == |m| > 0 && j < c
    ensures var s := Swap(m, 0, i);
            Combo([g0] + x[1..], s, c)[j] == g0 * m[i][j] + Dot(x[1..], Column(s[1..], j))
  {
    var s := Swap(m, 0, i);
    var y := [g0] + x[1..];
    assert y[0] == g0 && y[1..] == x[1..] && s[0] == m[i];
    ComboHeadAt(y, s, c, j);
  }

  /**
   * Entry `j` of a combination of the pivoted rows is entry `j` of a
   * combination of the swapped rows, with the first coefficient adjusted.
   */
  lemma ComboPivotEntry(x: seq<real>, m: Matrix, c: nat, i: nat, j: nat)
    requires c > 0 && IsMatrix(m, c) && i < |m| && m[i][0] != 0.0 && |x| == |m| && j < c
    ensures IsMatrix([PivotRow(m, i)] + BelowPivot(m, i, c), c)
    ensures var s := Swap(m, 0, i);
            var g := x[0] - Dot(x[1..], Column(s[1..], 0));
            Combo(x, [PivotRow(m, i)] + BelowPivot(m, i, c), c)[j] == Combo([g / m[i][0]] + x[1..], s, c)[j]
  {
    var s := Swap(m, 0, i);
    var dx := Dot(x[1..], Column(s[1..], 0));
    PivotedComboEntry(x, m, c, i, j);
    SwappedComboEntry((x[0] - dx) / m[i][0], x, m, c, i, j);
    assert PivotRow(m, i)[j] == (1.0 / m[i][0]) * m[i][j];
    PivotArith(x[0], dx, m[i][0], m[i][j], Dot(x[1..], Column(s[1..], j)));
  }

  /** A zero first coefficient `(x[0] - Dot(x[1..], f)) / p` together with zero later ones makes every coefficient zero. */
  lemma UnpivotZero(x: seq<real>, f: Vector, p: real)
    requires |x| > 0 && |f| == |x| - 1 && p != 0.0
    requires IsZero([(x[0] - Dot(x[1..], f)) / p] + x[1..])
    ensures IsZero(x)
  {
    var y := [(x[0] - Dot(x[1..], f)) / p] + x[1..];
    assert IsZero(x[1..]) by {
      forall k | 0 <= k < |x| - 1 ensures x[1..][k] == 0.0 {
        assert x[1..][k] == y[k + 1];
      }
    }
    DotZeroTerms(x[1..], f);
    assert y[0] == 0.0;
    forall k | 0 <= k < |x| ensures x[k] == 0.0 {
      if k > 0 {
        assert x[k] == x[1..][k - 1];
      }
    }
  }

  /** Normalizing the pivot row and eliminating below it keep the rows independent. */
  lemma PivotIndependent(m: Matrix, c: nat, i: nat)
    requires c > 0 && IsMatrix(m, c) && i < |m| && m[i][0] != 0.0
    requires Independent(Swap(m, 0, i), c)
    ensures IsMatrix([PivotRow(m, i)] + BelowPivot(m, i, c), c)
    ensures Independent([PivotRow(m, i)] + BelowPivot(m, i, c), c)
  {
    PivotStep(m, c, i);
    var t := [PivotRow(m, i)] + BelowPivot(m, i, c);
    forall x: seq<real> | |x| == |t| && Combo(x, t, c) == Zeros(c) ensures IsZero(x) {
      PivotZeroCombo(m, c, i, x);
    }
  }

  /** A vanishing combination of the pivoted rows has all coefficients zero. */
  lemma PivotZeroCombo(m: Matrix, c: nat, i: nat, x: seq<real>)
    requires c > 0 && IsMatrix(m, c) && i < |m| && m[i][0] != 0.0 && |x| == |m|
    requires Independent(Swap(m, 0, i), c)
    requires IsMatrix([PivotRow(m, i)] + BelowPivot(m, i, c), c)
    requires Combo(x, [PivotRow(m, i)] + BelowPivot(m, i, c), c) == Zeros(c)
    ensures IsZero(x)
  {
    var f := Column(Swap(m, 0, i)[1..], 0);
    SwappedZeroCombo(m, c, i, x);
    UnpivotZero(x, f, m[i][0]);
  }

  /** A vanishing combination of the pivoted rows gives one of the swapped rows, with the first coefficient adjusted. */
  lemma SwappedZeroCombo(m: Matrix, c: nat, i: nat, x: seq<real>)
    requires c > 0 && IsMatrix(m, c) && i < |m| && m[i][0] != 0.0 && |x| == |m|
    requires IsMatrix([PivotRow(m, i)] + BelowPivot(m, i, c), c)
    requires Combo(x, [PivotRow(m, i)] + BelowPivot(m, i, c), c) == Zeros(c)
    ensures var s := Swap(m, 0, i);
            Combo([(x[0] - Dot(x[1..], Column(s[1..], 0))) / m[i][0]] + x[1..], s, c) == Zeros(c)
  {
    var s := Swap(m, 0, i);
    var t := [PivotRow(m, i)] + BelowPivot(m, i, c);
    var y := [(x[0] - Dot(x[1..], Column(s[1..], 0))) / m[i][0]] + x[1..];
    forall j | 0 <= j < c ensures Combo(y, s, c)[j] == 0.0 {
      ComboPivotEntry(x, m, c, i, j);
      assert Combo(x, t, c)[j] == Zeros(c)[j];
    }
    assert Combo(y, s, c) == Zeros(c);
  }

  /** Every combination of the input rows is also a combination of the rows `row_echelon` returns. */
  lemma EchelonSpans(m: Matrix, c: nat, x: seq<real>) returns (y: seq<real>)
    requires IsMatrix(m, c) && |x| == |m|
    ensures |y| == |m| && Combo(y, RowEchelon(m, c), c) == Combo(x, m, c)
  {
    var r := RowEchelon(m, c);
    var p := SpanOf(r, c);
    SpanSubspace(r, c);
    RowEchelonRowSpace(p, m, c);
    SubspaceCombo(p, m, c, x);
    y :| |y| == |r| && Combo(y, r, c) == Combo(x, m, c);
  }

  /** `row_echelon` keeps linearly independent rows linearly independent. */
  lemma {:induction false} RowEchelonIndependent(m: Matrix, c: nat)
    requires IsMatrix(m, c) && Independent(m, c)
    ensures Independent(RowEchelon(m, c), c)
    decreases c, 1
  {
    if |m| == 0 || c == 0 {
      return;
    }
    var i := FirstNonzero(m);
    if i == |m| {
      DeferIndependent(m, c);
    } else {
      PivotIndependentCase(m, c, i);
    }
  }

  lemma {:induction false} DeferIndependent(m: Matrix, c: nat)
    requires IsMatrix(m, c) && |m| > 0 && c > 0 && FirstNonzero(m) == |m| && Independent(m, c)
    ensures Independent(RowEchelon(m, c), c)
    decreases c, 0
  {
    IndependentDropZeroCol(m, c);
    RowEchelonIndependent(DropCol(m), c - 1);
    IndependentPrependCol(Col0(m), RowEchelon(DropCol(m), c - 1), c);
    DeferUnfold(m, c);
  }

  lemma {:induction false} PivotIndependentCase(m: Matrix, c: nat, i: nat)
    requires IsMatrix(m, c) && |m| > 0 && c > 0 && FirstNonzero(m) == i < |m| && Independent(m, c)
    ensures Independent(RowEchelon(m, c), c)
    decreases c, 0
  {
    PivotStep(m, c, i);
    var top := PivotRow(m, i);
    var rest := BelowPivot(m, i, c);
    SwapIndependent(m, c, i);
    PivotIndependent(m, c, i);
    IndependentTail(top, rest, c);
    IndependentDropZeroCol(rest, c);
    RowEchelonIndependent(DropCol(rest), c - 1);
    var b := RowEchelon(DropCol(rest), c - 1);
    IndependentPrependCol(Col0(rest), b, c);
    var q := PrependCol(Col0(rest), b);
    assert forall k :: 0 <= k < |q| ==> q[k][0] == 0.0;
    IndependentCons(top, q, c, 0);
    PivotUnfold(m, c, i);
  }

  /** Rows in echelon form none of which is zero are linearly independent. */
  lemma {:induction false} EchelonIndependent(m: Matrix, c: nat)
    requires IsEchelon(m, c) && forall k :: 0 <= k < |m| ==> Lead(m[k]) < c
    ensures Independent(m, c)
    decreases |m|
  {
    if |m| > 0 {
      var q := m[1..];
      assert forall k :: 0 <= k < |q| ==> q[k] == m[k + 1];
      EchelonIndependent(q, c);
      var l := Lead(m[0]);
      forall k | 0 <= k < |q| ensures q[k][l] == 0.0 {
        assert Lead(m[0]) < Lead(m[k + 1]);
        LeadZerosBefore(m[k + 1]);
      }
      IndependentCons(m[0], q, c, l);
      assert [m[0]] + q == m;
    }
  }

  /** Every entry before the leading one is zero. */
  lemma {:induction false} LeadZerosBefore(v: Vector)
    ensures forall j :: 0 <= j < Lead(v) ==> v[j] == 0.0
    decreases |v|
  {
    if |v| > 0 && v[0] == 0.0 {
      LeadZerosBefore(v[1..]);
      assert forall j :: 1 <= j < Lead(v) ==> v[j] == v[1..][j - 1];
    }
  }

  /** `Lead` is the first position holding a nonzero entry. */
  lemma {:induction false} LeadIs(v: Vector, k: nat)
    requires k <= |v| && (k < |v| ==> v[k] != 0.0)
    requires forall j :: 0 <= j < k ==> v[j] == 0.0
    ensures Lead(v) == k
    decreases |v|
  {
    if |v| > 0 && k > 0 {
      LeadIs(v[1..], k - 1);
    }
  }

  /** A vector is zero exactly when its leading entry is past its end. */
  /** Every row that is not zero has its leading entry inside the row. */
  lemma NonzeroLeads(m: Matrix, c: nat)
    requires IsMatrix(m, c) && forall k :: 0 <= k < |m| ==> !IsZero(m[k])
    ensures forall k :: 0 <= k < |m| ==> Lead(m[k]) < c
  {
    forall k | 0 <= k < |m| ensures Lead(m[k]) < c {
      LeadZero(m[k]);
    }
  }

  lemma LeadZero(v: Vector)
    ensures IsZero(v) <==> Lead(v) == |v|
  {
    LeadZerosBefore(v);
  }

  /** The first `n` entries are zero exactly when the leading entry is at `n` or beyond. */
  lemma LeadPrefix(v: Vector, n: nat)
    requires n <= |v|
    ensures IsZero(v[..n]) <==> Lead(v) >= n
  {
    LeadZerosBefore(v);
    if Lead(v) < n {
      assert v[..n][Lead(v)] != 0.0;
    }
  }

  /** Cutting a vector after its leading entry keeps the leading entry. */
  lemma LeadTruncate(v: Vector, n: nat)
    requires Lead(v) < n <= |v|
    ensures Lead(v[..n]) == Lead(v)
  {
    LeadZerosBefore(v);
    LeadIs(v[..n], Lead(v));
  }
}
