/**
 * `null_space`: a basis of the kernel of an `nv` by `d` matrix `A`, computed by
 * stacking `A` over the `d` by `d` identity, row-reducing the transpose of that
 * stack, and keeping the identity part of every reduced row whose `A` part is
 * all zero. Row `i` of the reduced transpose is column `i` of the
 * transposed-back matrix `BC` that the source scans.
 */
module Kernel {
  import opened Matrices
  import opened Echelon

  /** `[A; I]`: the rows of `a` above the rows of the `d` by `d` identity. */
  function Stacked(a: Matrix, d: nat): (s: Matrix)
    requires IsMatrix(a, d)
    ensures |s| == |a| + d && IsMatrix(s, d)
    ensures forall k :: 0 <= k < |a| ==> s[k] == a[k]
    ensures forall k :: 0 <= k < d ==> s[|a| + k] == Unit(d, k)
  {
    a + Identity(d)
  }

  /**
   * The transpose of `[A; I]`, row by row: row `i` is column `i` of `A`
   * followed by the unit vector `e_i` (`StackedTransposeIs` proves it equal
   * to `Transpose(Stacked(a, d), d)`).
   */
  function StackedT(a: Matrix, d: nat): (t: Matrix)
    requires IsMatrix(a, d)
    ensures |t| == d && IsMatrix(t, |a| + d)
  {
    seq(d, i requires 0 <= i < d => seq(|a|, k requires 0 <= k < |a| => a[k][i]) + Unit(d, i))
  }

  lemma StackedTransposeIs(a: Matrix, d: nat)
    requires IsMatrix(a, d)
    ensures StackedT(a, d) == Transpose(Stacked(a, d), d)
  {
    var s := Stacked(a, d);
    var t := Transpose(s, d);
    forall i | 0 <= i < d ensures StackedT(a, d)[i] == t[i] {
      forall x | 0 <= x < |a| + d ensures StackedT(a, d)[i][x] == t[i][x] {
        assert t[i][x] == s[x][i];
        if x < |a| {
          assert s[x] == a[x];
        } else {
          assert s[x] == Unit(d, x - |a|);
        }
      }
    }
  }

  /** The row-echelon form of the transpose of `[A; I]`: `d` rows of `|a| + d` entries. */
  function Reduced(a: Matrix, d: nat): (r: Matrix)
    requires IsMatrix(a, d)
    ensures |r| == d && IsMatrix(r, |a| + d)
  {
    RowEchelon(StackedT(a, d), |a| + d)
  }

  predicate RowsAtLeast(r: Matrix, nv: nat) {
    forall i :: 0 <= i < |r| ==> |r[i]| >= nv
  }

  /**
   * The indices, in increasing order, of the rows of `r` whose first `nv`
   * entries are all zero.
   */
  function Picked(r: Matrix, nv: nat): (ix: seq<nat>)
    requires RowsAtLeast(r, nv)
    ensures |ix| <= |r|
    ensures forall j :: 0 <= j < |ix| ==> ix[j] < |r| && IsZero(r[ix[j]][..nv])
    ensures forall j, k :: 0 <= j < k < |ix| ==> ix[j] < ix[k]
    ensures forall i :: 0 <= i < |r| && IsZero(r[i][..nv]) ==> i in ix
    decreases |r|
  {
    if |r| == 0 then []
    else
      var front := r[..|r| - 1];
      assert forall i :: 0 <= i < |front| ==> front[i] == r[i];
      var ix := Picked(front, nv);
      if IsZero(r[|r| - 1][..nv]) then ix + [|r| - 1] else ix
  }

  /** The indices `lo, lo + 1, ..., hi - 1`. */
  function Range(lo: nat, hi: nat): (s: seq<nat>)
    requires lo <= hi
    ensures |s| == hi - lo && forall j :: 0 <= j < |s| ==> s[j] == lo + j
    decreases hi - lo
  {
    if lo == hi then [] else Range(lo, hi - 1) + [hi - 1]
  }

  /** The parts after position `nv` of the picked rows, in order. */
  function Collect(r: Matrix, nv: nat): (vs: seq<Vector>)
    requires RowsAtLeast(r, nv)
    ensures |vs| == |Picked(r, nv)|
  {
    var ix := Picked(r, nv);
    seq(|ix|, j requires 0 <= j < |ix| => r[ix[j]][nv..])
  }

  /**
   * The basis `null_space` returns, one vector per column of the result:
   * at most `v_dim` vectors, each with `v_dim` entries.
   */
  function NullSpaceSpec(a: Matrix, d: nat): (vs: seq<Vector>)
    requires IsMatrix(a, d)
    ensures |vs| <= d && IsMatrix(vs, d)
  {
    Collect(Reduced(a, d), |a|)
  }

  /** A vector of the transposed stack: its `A` part is `A` applied to its identity part. */
  ghost function KernelInvariant(a: Matrix, d: nat): Vector -> bool {
    r => |r| == |a| + d && r[..|a|] == MatVec(a, r[|a|..])
  }

  lemma SliceScale(c: real, u: Vector, n: nat)
    requires n <= |u|
    ensures Scale(c, u)[..n] == Scale(c, u[..n]) && Scale(c, u)[n..] == Scale(c, u[n..])
  {
    assert forall j :: 0 <= j < n ==> Scale(c, u)[..n][j] == Scale(c, u[..n])[j];
    assert forall j :: 0 <= j < |u| - n ==> Scale(c, u)[n..][j] == Scale(c, u[n..])[j];
  }

  lemma SliceSubMul(u: Vector, v: Vector, f: real, n: nat)
    requires |u| == |v| && n <= |u|
    ensures SubMul(u, v, f)[..n] == SubMul(u[..n], v[..n], f)
    ensures SubMul(u, v, f)[n..] == SubMul(u[n..], v[n..], f)
  {
    assert forall j :: 0 <= j < n ==> SubMul(u, v, f)[..n][j] == SubMul(u[..n], v[..n], f)[j];
    assert forall j :: 0 <= j < |u| - n ==> SubMul(u, v, f)[n..][j] == SubMul(u[n..], v[n..], f)[j];
  }

  /** The invariant is preserved by the elementary row updates. */
  lemma KernelInvariantSubspace(a: Matrix, d: nat)
    requires IsMatrix(a, d)
    ensures Subspace(KernelInvariant(a, d), |a| + d)
  {
    var p := KernelInvariant(a, d);
    var nv := |a|;
    forall u: Vector, c: real | |u| == nv + d && p(u) ensures p(Scale(c, u)) {
      SliceScale(c, u, nv);
      MatVecLinear(a, u[nv..], u[nv..], c, 0.0);
    }
    forall u: Vector, v: Vector, f: real | |u| == nv + d && |v| == nv + d && p(u) && p(v)
      ensures p(SubMul(u, v, f))
    {
      SliceSubMul(u, v, f, nv);
      MatVecLinear(a, u[nv..], v[nv..], 1.0, f);
    }
  }

  /** Row `i` of the transposed stack is `A e_i` followed by `e_i`. */
  lemma TransposedStackRows(a: Matrix, d: nat)
    requires IsMatrix(a, d)
    ensures AllRows(KernelInvariant(a, d), StackedT(a, d))
  {
    var t := StackedT(a, d);
    var nv := |a|;
    forall i | 0 <= i < d ensures KernelInvariant(a, d)(t[i]) {
      assert t[i][nv..] == Unit(d, i);
      forall k | 0 <= k < nv ensures t[i][..nv][k] == MatVec(a, t[i][nv..])[k] {
        DotUnit(a[k], i);
      }
    }
  }

  /** Every collected part of a row that keeps the invariant is in the kernel of `A`. */
  lemma CollectInKernel(a: Matrix, d: nat, r: Matrix)
    requires IsMatrix(a, d) && IsMatrix(r, |a| + d) && AllRows(KernelInvariant(a, d), r)
    ensures forall j :: 0 <= j < |Collect(r, |a|)| ==>
              |Collect(r, |a|)[j]| == d && MatVec(a, Collect(r, |a|)[j]) == Zeros(|a|)
  {
    var nv := |a|;
    var ix := Picked(r, nv);
    forall j | 0 <= j < |ix|
      ensures |r[ix[j]][nv..]| == d && MatVec(a, r[ix[j]][nv..]) == Zeros(nv)
    {
      assert KernelInvariant(a, d)(r[ix[j]]);
      assert MatVec(a, r[ix[j]][nv..]) == r[ix[j]][..nv];
    }
  }

  /** Every returned vector `v` has `d` entries and satisfies `A v = 0` exactly. */
  lemma NullSpaceInKernel(a: Matrix, d: nat)
    requires IsMatrix(a, d)
    ensures forall j :: 0 <= j < |NullSpaceSpec(a, d)| ==>
              |NullSpaceSpec(a, d)[j]| == d && MatVec(a, NullSpaceSpec(a, d)[j]) == Zeros(|a|)
  {
    KernelInvariantSubspace(a, d);
    TransposedStackRows(a, d);
    ReducedRows(KernelInvariant(a, d), a, d);
    CollectInKernel(a, d, Reduced(a, d));
  }

  /** A closed set containing every row of the transposed stack contains every row of its reduction. */
  lemma ReducedRows(p: Vector -> bool, a: Matrix, d: nat)
    requires IsMatrix(a, d) && Subspace(p, |a| + d) && AllRows(p, StackedT(a, d))
    ensures AllRows(p, Reduced(a, d))
  {
    RowsOf(p, StackedT(a, d), |a| + d, Reduced(a, d));
  }

  /**
   * `RowEchelonRowSpace` for a matrix known to equal the row-echelon form of `t`.
   * This and the other one-step lemmas below (`EchelonOf`, `ReducedOfFixedStack`,
   * `StackIs`, `SameStack`, `IndependentOf`) only pass a fact across an equation;
   * they are separate so that the solver proves each apart from the heavy
   * context of its caller.
   */
  lemma RowsOf(p: Vector -> bool, t: Matrix, w: nat, r: Matrix)
    requires IsMatrix(t, w) && Subspace(p, w) && AllRows(p, t) && r == RowEchelon(t, w)
    ensures AllRows(p, r)
  {
    RowEchelonRowSpace(p, t, w);
  }

  /** When every row has a zero prefix, every row is picked. */
  lemma {:induction false} PickedAll(r: Matrix, nv: nat)
    requires RowsAtLeast(r, nv) && forall i :: 0 <= i < |r| ==> IsZero(r[i][..nv])
    ensures |Picked(r, nv)| == |r| && forall j :: 0 <= j < |r| ==> Picked(r, nv)[j] == j
    decreases |r|
  {
    if |r| > 0 {
      var front := r[..|r| - 1];
      assert forall i :: 0 <= i < |front| ==> front[i] == r[i];
      PickedAll(front, nv);
    }
  }

  /** Behind a zero prefix of length `n`, the leading entry is `n` further right. */
  lemma {:induction false} LeadAfterZeros(v: Vector, n: nat)
    requires n <= |v| && IsZero(v[..n])
    ensures Lead(v) == n + Lead(v[n..])
    decreases n
  {
    if n == 0 {
      assert v[0..] == v;
    } else {
      assert v[0] == v[..n][0];
      assert v[1..][..n - 1] == v[..n][1..];
      assert v[1..][n - 1..] == v[n..];
      LeadAfterZeros(v[1..], n - 1);
    }
  }

  /** The collected parts of the rows of an echelon matrix are themselves in echelon form. */
  lemma CollectEchelon(r: Matrix, nv: nat, c: nat)
    requires IsEchelon(r, nv + c)
    ensures IsEchelon(Collect(r, nv), c)
  {
    CollectLeads(r, nv, c);
    CollectLeadingOnes(r, nv, c);
    CollectLeadsIncrease(r, nv, c);
  }

  lemma CollectLeads(r: Matrix, nv: nat, c: nat)
    requires IsMatrix(r, nv + c)
    ensures forall j :: 0 <= j < |Collect(r, nv)| ==>
              |Collect(r, nv)[j]| == c && Lead(r[Picked(r, nv)[j]]) == nv + Lead(Collect(r, nv)[j])
  {
    forall j | 0 <= j < |Collect(r, nv)|
      ensures |Collect(r, nv)[j]| == c && Lead(r[Picked(r, nv)[j]]) == nv + Lead(Collect(r, nv)[j])
    {
      CollectLead(r, nv, j);
    }
  }

  lemma CollectLeadingOnes(r: Matrix, nv: nat, c: nat)
    requires IsEchelon(r, nv + c)
    ensures forall j :: 0 <= j < |Collect(r, nv)| && Lead(Collect(r, nv)[j]) < c ==>
              Collect(r, nv)[j][Lead(Collect(r, nv)[j])] == 1.0
  {
    var ix := Picked(r, nv);
    var vs := Collect(r, nv);
    forall j | 0 <= j < |vs| && Lead(vs[j]) < c ensures vs[j][Lead(vs[j])] == 1.0 {
      CollectLead(r, nv, j);
      assert Lead(r[ix[j]]) < nv + c;
    }
  }

  lemma CollectLeadsIncrease(r: Matrix, nv: nat, c: nat)
    requires IsEchelon(r, nv + c)
    ensures forall j, k :: 0 <= j < k < |Collect(r, nv)| ==>
              Lead(Collect(r, nv)[j]) < Lead(Collect(r, nv)[k]) || Lead(Collect(r, nv)[k]) == c
  {
    var ix := Picked(r, nv);
    var vs := Collect(r, nv);
    forall j, k | 0 <= j < k < |vs| ensures Lead(vs[j]) < Lead(vs[k]) || Lead(vs[k]) == c {
      CollectLead(r, nv, j);
      CollectLead(r, nv, k);
      assert Lead(r[ix[j]]) < Lead(r[ix[k]]) || Lead(r[ix[k]]) == nv + c;
    }
  }

  /** A collected part starts `nv` entries into its row, after a zero prefix. */
  lemma CollectLead(r: Matrix, nv: nat, j: nat)
    requires RowsAtLeast(r, nv) && j < |Collect(r, nv)|
    ensures Collect(r, nv)[j] == r[Picked(r, nv)[j]][nv..]
    ensures Lead(r[Picked(r, nv)[j]]) == nv + Lead(Collect(r, nv)[j])
  {
    LeadAfterZeros(r[Picked(r, nv)[j]], nv);
  }

  /**
   * The returned vectors are in echelon form: each one's leading entry is 1 and
   * lies strictly right of the leading entries of those before it, unless it is
   * zero. Their nonzero members are therefore linearly independent.
   */
  lemma NullSpaceEchelon(a: Matrix, d: nat)
    requires IsMatrix(a, d)
    ensures IsEchelon(NullSpaceSpec(a, d), d)
  {
    ReducedIsEchelon(a, d);
    CollectEchelon(Reduced(a, d), |a|, d);
  }

  lemma ReducedIsEchelon(a: Matrix, d: nat)
    requires IsMatrix(a, d)
    ensures IsEchelon(Reduced(a, d), |a| + d)
  {
    EchelonOf(StackedT(a, d), |a| + d, Reduced(a, d));
  }

  /** `RowEchelonIsEchelon` for a matrix known to equal the row-echelon form of `t` (a one-step lemma, see `RowsOf`). */
  lemma EchelonOf(t: Matrix, w: nat, r: Matrix)
    requires IsMatrix(t, w) && r == RowEchelon(t, w)
    ensures IsEchelon(r, w)
  {
    RowEchelonIsEchelon(t, w);
  }

  /** With `A` all zero (in particular with no rows), the transposed stack is `[0 | I]`. */
  lemma ZeroStack(a: Matrix, d: nat)
    requires IsMatrix(a, d) && forall k :: 0 <= k < |a| ==> IsZero(a[k])
    ensures StackedT(a, d) == ZeroPad(|a|, Identity(d))
  {
    var t := StackedT(a, d);
    var z := ZeroPad(|a|, Identity(d));
    forall i | 0 <= i < d ensures t[i] == z[i] {
      assert t[i][..|a|] == Zeros(|a|);
      assert t[i] == t[i][..|a|] + t[i][|a|..];
    }
  }

  /** Reducing `[0 | I]` leaves it unchanged. */
  lemma ReducedOfZero(a: Matrix, d: nat)
    requires IsMatrix(a, d) && forall k :: 0 <= k < |a| ==> IsZero(a[k])
    ensures Reduced(a, d) == ZeroPad(|a|, Identity(d))
  {
    ZeroStack(a, d);
    ZeroPadIdentityReduced(|a|, d);
    ReducedOfFixedStack(a, d, ZeroPad(|a|, Identity(d)));
  }

  /** When the transposed stack is already reduced, it is its own reduction (a one-step lemma, see `RowsOf`). */
  lemma ReducedOfFixedStack(a: Matrix, d: nat, z: Matrix)
    requires IsMatrix(a, d) && StackedT(a, d) == z
    requires IsMatrix(z, |a| + d) && RowEchelon(z, |a| + d) == z
    ensures Reduced(a, d) == z
  {
  }

  lemma ZeroPadIdentityReduced(k: nat, d: nat)
    ensures IsMatrix(ZeroPad(k, Identity(d)), k + d)
    ensures RowEchelon(ZeroPad(k, Identity(d)), k + d) == ZeroPad(k, Identity(d))
  {
    RowEchelonZeroPad(k, Identity(d), d);
    RowEchelonIdentity(d);
  }

  /** Every row of `[0 | I]` is picked, and its identity part is kept. */
  lemma CollectZeroPadIdentity(nv: nat, d: nat)
    ensures Collect(ZeroPad(nv, Identity(d)), nv) == Identity(d)
  {
    var r := ZeroPad(nv, Identity(d));
    forall i | 0 <= i < d ensures IsZero(r[i][..nv]) && r[i][nv..] == Identity(d)[i] {
      assert r[i][..nv] == Zeros(nv);
    }
    PickedAll(r, nv);
  }

  /** `null_space` of an all-zero `A`, or of one with no rows, is the `d` by `d` identity. */
  lemma NullSpaceOfZero(a: Matrix, d: nat)
    requires IsMatrix(a, d) && forall k :: 0 <= k < |a| ==> IsZero(a[k])
    ensures NullSpaceSpec(a, d) == Identity(d)
  {
    ReducedOfZero(a, d);
    CollectZeroPadIdentity(|a|, d);
  }

  lemma CollectSnoc(r: Matrix, nv: nat, i: nat)
    requires RowsAtLeast(r, nv) && i < |r|
    ensures Collect(r[..i + 1], nv) ==
            Collect(r[..i], nv) + (if IsZero(r[i][..nv]) then [r[i][nv..]] else [])
  {
    PickedSnoc(r, nv, i);
    var rhs := Collect(r[..i], nv) + (if IsZero(r[i][..nv]) then [r[i][nv..]] else []);
    forall j | 0 <= j < |Collect(r[..i + 1], nv)| ensures Collect(r[..i + 1], nv)[j] == rhs[j] {
      CollectSnocEntry(r, nv, i, j);
    }
  }

  lemma CollectSnocEntry(r: Matrix, nv: nat, i: nat, j: nat)
    requires RowsAtLeast(r, nv) && i < |r| && j < |Collect(r[..i + 1], nv)|
    ensures |Collect(r[..i + 1], nv)| == |Collect(r[..i], nv)| + (if IsZero(r[i][..nv]) then 1 else 0)
    ensures Collect(r[..i + 1], nv)[j] ==
            (Collect(r[..i], nv) + (if IsZero(r[i][..nv]) then [r[i][nv..]] else []))[j]
  {
    PickedSnoc(r, nv, i);
    var ix := Picked(r[..i], nv);
    if j < |ix| {
      assert r[..i + 1][ix[j]] == r[..i][ix[j]];
    }
  }

  lemma PickedSnoc(r: Matrix, nv: nat, i: nat)
    requires RowsAtLeast(r, nv) && i < |r|
    ensures Picked(r[..i + 1], nv) == Picked(r[..i], nv) + (if IsZero(r[i][..nv]) then [i] else [])
  {
    var s := r[..i + 1];
    assert s[..|s| - 1] == r[..i];
  }

  /** `AI = np.vstack([A, np.eye(v_dim)])`, as a fresh array. */
  method StackIdentity(a: array2<real>) returns (ai: array2<real>)
    ensures fresh(ai)
    ensures ai.Length0 == a.Length0 + a.Length1 && ai.Length1 == a.Length1
    ensures Window(ai, 0, 0) == Stacked(Window(a, 0, 0), a.Length1)
  {
    var nv, d := a.Length0, a.Length1;
    ai := new real[nv + d, d];
    for k := 0 to nv + d
      invariant forall x, y :: 0 <= x < k && 0 <= y < d ==>
                  ai[x, y] == if x < nv then a[x, y] else if x - nv == y then 1.0 else 0.0
    {
      for j := 0 to d
        invariant forall x, y :: 0 <= x < k && 0 <= y < d ==>
                    ai[x, y] == if x < nv then a[x, y] else if x - nv == y then 1.0 else 0.0
        invariant forall y :: 0 <= y < j ==>
                    ai[k, y] == if k < nv then a[k, y] else if k - nv == y then 1.0 else 0.0
      {
        ai[k, j] := if k < nv then a[k, j] else if k - nv == j then 1.0 else 0.0;
      }
    }
    WindowEntries(a, 0, 0);
    WindowEq(ai, 0, 0, Stacked(Window(a, 0, 0), d));
  }

  /** `np.transpose(m)`, as a fresh array. */
  method TransposeArray(m: array2<real>) returns (t: array2<real>)
    ensures fresh(t)
    ensures t.Length0 == m.Length1 && t.Length1 == m.Length0
    ensures Window(t, 0, 0) == Transpose(Window(m, 0, 0), m.Length1)
  {
    t := new real[m.Length1, m.Length0];
    for i := 0 to m.Length1
      invariant forall x, y :: 0 <= x < i && 0 <= y < m.Length0 ==> t[x, y] == m[y, x]
    {
      for k := 0 to m.Length0
        invariant forall x, y :: 0 <= x < i && 0 <= y < m.Length0 ==> t[x, y] == m[y, x]
        invariant forall y :: 0 <= y < k ==> t[i, y] == m[y, i]
      {
        t[i, k] := m[k, i];
      }
    }
    WindowEntries(m, 0, 0);
    WindowEq(t, 0, 0, Transpose(Window(m, 0, 0), m.Length1));
  }

  /**
   * The scan over the columns of `BC` (the rows of `t`): the lower part of
   * every one whose first `nv` entries are all zero, in order.
   */
  method ZeroPrefixColumns(t: array2<real>, nv: nat) returns (cols: seq<Vector>)
    requires nv <= t.Length1
    ensures cols == Collect(Window(t, 0, 0), nv)
  {
    ghost var r := Window(t, 0, 0);
    WindowEntries(t, 0, 0);
    cols := [];
    for i := 0 to t.Length0
      invariant cols == Collect(r[..i], nv)
    {
      var zero := ZeroPrefix(t, i, nv);
      assert forall y :: 0 <= y < nv ==> r[i][..nv][y] == t[i, y];
      CollectSnoc(r, nv, i);
      if zero {
        var v := seq(t.Length1 - nv, j requires 0 <= j < t.Length1 - nv reads t => t[i, nv + j]);
        assert v == r[i][nv..];
        cols := cols + [v];
      }
    }
    assert r[..t.Length0] == r;
  }

  /** Whether the first `nv` entries of row `i` of `t` are all zero. */
  method ZeroPrefix(t: array2<real>, i: nat, nv: nat) returns (zero: bool)
    requires i < t.Length0 && nv <= t.Length1
    ensures zero <==> forall y :: 0 <= y < nv ==> t[i, y] == 0.0
  {
    zero := true;
    var k := 0;
    while k < nv && zero
      invariant 0 <= k <= nv
      invariant zero <==> forall y :: 0 <= y < k ==> t[i, y] == 0.0
    {
      zero := t[i, k] == 0.0;
      k := k + 1;
    }
  }

  /** `np.hstack` of the collected columns: a `rows` by `|cols|` array, column `c` being `cols[c]`. */
  method FromColumns(cols: seq<Vector>, rows: nat) returns (b: array2<real>)
    requires IsMatrix(cols, rows)
    ensures fresh(b)
    ensures b.Length0 == rows && b.Length1 == |cols|
    ensures Transpose(Window(b, 0, 0), |cols|) == cols
  {
    b := new real[rows, |cols|];
    for j := 0 to rows
      invariant forall x, y :: 0 <= x < j && 0 <= y < |cols| ==> b[x, y] == cols[y][x]
    {
      for c := 0 to |cols|
        invariant forall x, y :: 0 <= x < j && 0 <= y < |cols| ==> b[x, y] == cols[y][x]
        invariant forall y :: 0 <= y < c ==> b[j, y] == cols[y][j]
      {
        b[j, c] := cols[c][j];
      }
    }
    WindowEntries(b, 0, 0);
    var t := Transpose(Window(b, 0, 0), |cols|);
    forall c | 0 <= c < |cols| ensures t[c] == cols[c] {
      assert forall x :: 0 <= x < rows ==> t[c][x] == cols[c][x];
    }
  }

  /** `row_echelon(np.transpose(AI))`, computed in place on a fresh transposed copy. */
  method ReduceStack(a: array2<real>) returns (t: array2<real>)
    ensures fresh(t)
    ensures t.Length0 == a.Length1 && t.Length1 == a.Length0 + a.Length1
    ensures Window(t, 0, 0) == Reduced(Window(a, 0, 0), a.Length1)
  {
    ghost var w := Window(a, 0, 0);
    var ai := StackIdentity(a);
    t := TransposeArray(ai);
    ghost var before := Window(t, 0, 0);
    StackIs(w, a.Length1, before);
    SameStack(w, a.Length1, before, t.Length1);
    ReduceWhole(t, before, Reduced(w, a.Length1));
    assert Window(a, 0, 0) == w;
  }

  /** `row_echelon` on a whole array, with the expected result named by the caller. */
  method ReduceWhole(t: array2<real>, ghost before: Matrix, ghost target: Matrix)
    requires before == Window(t, 0, 0) && target == RowEchelon(before, t.Length1)
    modifies t
    ensures Window(t, 0, 0) == target
  {
    RowEchelonInPlace(t, 0, 0);
    ResultIs(Window(t, 0, 0), old(Window(t, 0, 0)), before, t.Length1, target);
  }

  /** The reduction of a matrix equal to `before` is the reduction of `before` (a one-step lemma, see `RowsOf`). */
  lemma ResultIs(x: Matrix, o: Matrix, before: Matrix, w: nat, target: Matrix)
    requires o == before && IsMatrix(before, w)
    requires x == RowEchelon(o, w) && target == RowEchelon(before, w)
    ensures x == target
  {
  }

  /** The transpose of `[A; I]` is the transposed stack (a one-step lemma, see `RowsOf`). */
  lemma StackIs(a: Matrix, d: nat, before: Matrix)
    requires IsMatrix(a, d) && before == Transpose(Stacked(a, d), d)
    ensures before == StackedT(a, d)
  {
    StackedTransposeIs(a, d);
  }

  /** Reducing the transposed stack gives `Reduced` (a one-step lemma, see `RowsOf`). */
  lemma SameStack(a: Matrix, d: nat, before: Matrix, n: nat)
    requires IsMatrix(a, d) && before == StackedT(a, d) && n == |a| + d
    ensures IsMatrix(before, n) && Reduced(a, d) == RowEchelon(before, n)
  {
    assert Reduced(a, d) == RowEchelon(StackedT(a, d), |a| + d);
  }

  /**
   * `null_space(A)`: a `v_dim` by `k` array whose columns are the basis
   * vectors `NullSpaceSpec` describes. `A` itself is left unchanged.
   */
  method NullSpace(a: array2<real>) returns (bases: array2<real>)
    ensures bases.Length0 == a.Length1
    ensures Transpose(Window(bases, 0, 0), bases.Length1) == NullSpaceSpec(Window(a, 0, 0), a.Length1)
  {
    var t := ReduceStack(a);
    var cols := ZeroPrefixColumns(t, a.Length0);
    bases := FromColumns(cols, a.Length1);
  }

  /** Column `|a| + j` of the transposed stack is the unit vector `e_j`. */
  lemma StackedIdentityColumn(a: Matrix, d: nat, j: nat)
    requires IsMatrix(a, d) && j < d
    ensures Column(StackedT(a, d), |a| + j) == Unit(d, j)
  {
    var t := StackedT(a, d);
    forall i | 0 <= i < d ensures t[i][|a| + j] == Unit(d, j)[i] {
      assert t[i][|a| + j] == Unit(d, i)[j];
    }
  }

  /** Column `k < |a|` of the transposed stack is row `k` of `a`. */
  lemma StackedAColumn(a: Matrix, d: nat, k: nat)
    requires IsMatrix(a, d) && k < |a|
    ensures Column(StackedT(a, d), k) == a[k]
  {
  }

  /** The rows of the transposed stack are independent: their identity parts already are. */
  lemma StackIndependent(a: Matrix, d: nat)
    requires IsMatrix(a, d)
    ensures Independent(StackedT(a, d), |a| + d)
  {
    var t := StackedT(a, d);
    var w := |a| + d;
    forall x: seq<real> | |x| == d && Combo(x, t, w) == Zeros(w) ensures IsZero(x) {
      forall j | 0 <= j < d ensures x[j] == 0.0 {
        StackedIdentityColumn(a, d, j);
        DotUnit(x, j);
        assert Combo(x, t, w)[|a| + j] == 0.0;
      }
    }
  }

  /** `RowEchelonIndependent` for a matrix known to equal the row-echelon form of `t` (a one-step lemma, see `RowsOf`). */
  lemma IndependentOf(t: Matrix, w: nat, r: Matrix)
    requires IsMatrix(t, w) && Independent(t, w) && r == RowEchelon(t, w)
    ensures IsMatrix(r, w) && Independent(r, w)
  {
    RowEchelonIndependent(t, w);
  }

  /** The reduced stack has independent, hence nonzero, rows. */
  lemma ReducedIndependent(a: Matrix, d: nat)
    requires IsMatrix(a, d)
    ensures Independent(Reduced(a, d), |a| + d)
    ensures forall k :: 0 <= k < d ==> Lead(Reduced(a, d)[k]) < |a| + d
  {
    StackIndependent(a, d);
    var r := Reduced(a, d);
    IndependentOf(StackedT(a, d), |a| + d, r);
    IndependentNonzero(r, |a| + d);
    NonzeroLeads(r, |a| + d);
  }

  /**
   * The returned vectors are linearly independent and none of them is zero:
   * they are the nonzero identity parts of rows in echelon form.
   */
  lemma NullSpaceIndependent(a: Matrix, d: nat)
    requires IsMatrix(a, d)
    ensures Independent(NullSpaceSpec(a, d), d)
    ensures forall j :: 0 <= j < |NullSpaceSpec(a, d)| ==> !IsZero(NullSpaceSpec(a, d)[j])
  {
    var r := Reduced(a, d);
    var vs := NullSpaceSpec(a, d);
    ReducedIndependent(a, d);
    NullSpaceEchelon(a, d);
    CollectLeads(r, |a|, d);
    forall j | 0 <= j < |vs| ensures Lead(vs[j]) < d && !IsZero(vs[j]) {
      LeadZero(vs[j]);
    }
    EchelonIndependent(vs, d);
  }

  /**
   * `null_space` returns no vectors exactly when `A v = 0` only for `v = 0`
   * (full column rank).
   */
  lemma NullSpaceEmptyIff(a: Matrix, d: nat)
    requires IsMatrix(a, d)
    ensures NullSpaceSpec(a, d) == [] <==> forall v: Vector :: |v| == d && MatVec(a, v) == Zeros(|a|) ==> IsZero(v)
  {
    var vs := NullSpaceSpec(a, d);
    if vs == [] {
      forall v: Vector | |v| == d && MatVec(a, v) == Zeros(|a|) ensures IsZero(v) {
        var z := NullSpaceSpans(a, d, v);
        ComboZero(z, vs, d);
        ZerosIsZero(v);
      }
    } else {
      NullSpaceInKernel(a, d);
      NullSpaceIndependent(a, d);
      var u := vs[0];
      assert |u| == d && MatVec(a, u) == Zeros(|a|) && !IsZero(u);
    }
  }

  /** With the identity part `v` of a kernel vector as coefficients, the stack's rows combine to `[0; v]`. */
  lemma StackCombo(a: Matrix, d: nat, v: Vector)
    requires IsMatrix(a, d) && |v| == d && MatVec(a, v) == Zeros(|a|)
    ensures Combo(v, StackedT(a, d), |a| + d) == Zeros(|a|) + v
  {
    var t := StackedT(a, d);
    var w := |a| + d;
    forall col | 0 <= col < w ensures Combo(v, t, w)[col] == (Zeros(|a|) + v)[col] {
      if col < |a| {
        StackedAColumn(a, d, col);
        DotComm(v, a[col]);
        assert MatVec(a, v)[col] == 0.0;
      } else {
        StackedIdentityColumn(a, d, col - |a|);
        DotUnit(v, col - |a|);
      }
    }
  }

  /** `[0; v]` for a kernel vector `v` is a combination of the rows of the reduced stack. */
  lemma ReducedSpansKernel(a: Matrix, d: nat, v: Vector) returns (y: seq<real>)
    requires IsMatrix(a, d) && |v| == d && MatVec(a, v) == Zeros(|a|)
    ensures |y| == d && Combo(y, Reduced(a, d), |a| + d) == Zeros(|a|) + v
  {
    y := EchelonSpans(StackedT(a, d), |a| + d, v);
    StackCombo(a, d, v);
  }

  /**
   * In the reduced stack the rows with a nonzero `A` part come first, and
   * `null_space` picks exactly the rows after them.
   */
  lemma ReducedSplit(a: Matrix, d: nat) returns (p0: nat)
    requires IsMatrix(a, d)
    ensures p0 <= d
    ensures forall k :: 0 <= k < p0 ==> Lead(Reduced(a, d)[k]) < |a|
    ensures forall k :: p0 <= k < d ==> IsZero(Reduced(a, d)[k][..|a|])
    ensures Picked(Reduced(a, d), |a|) == Range(p0, d)
  {
    var r := Reduced(a, d);
    var nv := |a|;
    p0 := FirstPicked(r, nv);
    ReducedIsEchelon(a, d);
    EchelonZeroTail(r, nv + d, nv, p0);
    PickedSuffix(r, nv, p0);
  }

  /**
   * The first picked index (or the row count when none is picked): every row
   * above it has a nonzero prefix, so its leading entry lies in the prefix.
   */
  lemma FirstPicked(r: Matrix, nv: nat) returns (p0: nat)
    requires RowsAtLeast(r, nv)
    ensures p0 <= |r| && (p0 == |r| || IsZero(r[p0][..nv]))
    ensures forall k :: 0 <= k < p0 ==> !IsZero(r[k][..nv]) && Lead(r[k]) < nv
  {
    var ix := Picked(r, nv);
    p0 := if |ix| == 0 then |r| else ix[0];
    forall k | 0 <= k < p0 ensures !IsZero(r[k][..nv]) && Lead(r[k]) < nv {
      LeadPrefix(r[k], nv);
      assert k !in ix by {
        forall j | 0 <= j < |ix| ensures ix[j] != k {
          if j > 0 {
            assert ix[0] < ix[j];
          }
        }
      }
    }
  }

  /** In echelon form, once a row has a zero prefix, so do all the rows below it. */
  lemma EchelonZeroTail(r: Matrix, c: nat, nv: nat, p0: nat)
    requires IsEchelon(r, c) && nv <= c && p0 <= |r| && (p0 == |r| || IsZero(r[p0][..nv]))
    ensures forall k :: p0 <= k < |r| ==> IsZero(r[k][..nv])
  {
    forall k | p0 <= k < |r| ensures IsZero(r[k][..nv]) {
      LeadPrefix(r[k], nv);
      LeadPrefix(r[p0], nv);
      if k > p0 {
        assert Lead(r[p0]) < Lead(r[k]) || Lead(r[k]) == c;
      }
    }
  }

  /** When exactly the rows from `p0` on have a zero prefix, those are the picked ones. */
  lemma {:induction false} PickedSuffix(r: Matrix, nv: nat, p0: nat)
    requires RowsAtLeast(r, nv) && p0 <= |r|
    requires forall k :: 0 <= k < p0 ==> !IsZero(r[k][..nv])
    requires forall k :: p0 <= k < |r| ==> IsZero(r[k][..nv])
    ensures Picked(r, nv) == Range(p0, |r|)
    decreases |r|
  {
    if |r| > 0 {
      var q := if p0 == |r| then |r| - 1 else p0;
      SuffixFront(r, r[..|r| - 1], nv, p0, q);
      PickedSuffix(r[..|r| - 1], nv, q);
      PickedSuffixStep(r, nv, p0);
    }
  }

  /** The rows before the last one keep the zero-prefix split, at `p0` or, when no row is picked, one earlier. */
  lemma SuffixFront(r: Matrix, front: Matrix, nv: nat, p0: nat, q: nat)
    requires RowsAtLeast(r, nv) && 0 < |r| && front == r[..|r| - 1] && p0 <= |r| && q == if p0 == |r| then |r| - 1 else p0
    requires forall k :: 0 <= k < p0 ==> !IsZero(r[k][..nv])
    requires forall k :: p0 <= k < |r| ==> IsZero(r[k][..nv])
    ensures RowsAtLeast(front, nv) && q <= |front|
    ensures forall k :: 0 <= k < q ==> !IsZero(front[k][..nv])
    ensures forall k :: q <= k < |front| ==> IsZero(front[k][..nv])
    ensures p0 < |r| <==> IsZero(r[|r| - 1][..nv])
  {
  }

  /** Adding the last row to the picked indices of the others. */
  lemma PickedSuffixStep(r: Matrix, nv: nat, p0: nat)
    requires RowsAtLeast(r, nv) && 0 < |r| && p0 <= |r|
    requires p0 < |r| <==> IsZero(r[|r| - 1][..nv])
    requires RowsAtLeast(r[..|r| - 1], nv)
    requires Picked(r[..|r| - 1], nv) == Range(if p0 == |r| then |r| - 1 else p0, |r| - 1)
    ensures Picked(r, nv) == Range(p0, |r|)
  {
    PickedLast(r, nv);
  }

  /** `Picked` adds the last row when its prefix is zero. */
  lemma PickedLast(r: Matrix, nv: nat)
    requires RowsAtLeast(r, nv) && |r| > 0
    ensures Picked(r, nv) == if IsZero(r[|r| - 1][..nv]) then Picked(r[..|r| - 1], nv) + [|r| - 1] else Picked(r[..|r| - 1], nv)
  {
  }

  /** A combination splits into the part from rows before `k` and the part from the rest. */
  lemma ComboSplit(y: seq<real>, m: Matrix, w: nat, k: nat)
    requires IsMatrix(m, w) && |y| == |m| && k <= |m|
    ensures forall j :: 0 <= j < w ==> Combo(y, m, w)[j] == Combo(y[..k], m[..k], w)[j] + Combo(y[k..], m[k..], w)[j]
  {
    forall j | 0 <= j < w ensures Combo(y, m, w)[j] == Combo(y[..k], m[..k], w)[j] + Combo(y[k..], m[k..], w)[j] {
      ComboSplitAt(y, m, w, k, j);
    }
  }

  /** `ComboSplit` at one column. */
  lemma ComboSplitAt(y: seq<real>, m: Matrix, w: nat, k: nat, j: nat)
    requires IsMatrix(m, w) && |y| == |m| && k <= |m| && j < w
    ensures Combo(y, m, w)[j] == Combo(y[..k], m[..k], w)[j] + Combo(y[k..], m[k..], w)[j]
  {
    var col := Column(m, j);
    assert Column(m[..k], j) == col[..k] && Column(m[k..], j) == col[k..];
    DotSplit(y, col, k);
  }

  /** The `A` parts of the leading rows, which are in echelon form and nonzero. */
  lemma HeadsEchelon(r: Matrix, nv: nat, c: nat, p0: nat)
    requires nv <= c && IsEchelon(r, c) && p0 <= |r|
    requires forall k :: 0 <= k < p0 ==> Lead(r[k]) < nv
    ensures IsEchelon(seq(p0, k requires 0 <= k < p0 => r[k][..nv]), nv)
    ensures forall k :: 0 <= k < p0 ==> Lead(r[k][..nv]) < nv
  {
    var h := seq(p0, k requires 0 <= k < p0 => r[k][..nv]);
    forall k | 0 <= k < p0 ensures Lead(h[k]) == Lead(r[k]) {
      LeadTruncate(r[k], nv);
    }
  }

  /**
   * Every `v` with `A v = 0` is a linear combination of the vectors
   * `null_space` returns: together with their independence, they are a basis
   * of the kernel.
   */
  lemma NullSpaceSpans(a: Matrix, d: nat, v: Vector) returns (z: seq<real>)
    requires IsMatrix(a, d) && |v| == d && MatVec(a, v) == Zeros(|a|)
    ensures |z| == |NullSpaceSpec(a, d)| && Combo(z, NullSpaceSpec(a, d), d) == v
  {
    var r := Reduced(a, d);
    var y := ReducedSpansKernel(a, d, v);
    var p0 := ReducedSplit(a, d);
    ReducedIsEchelon(a, d);
    z := SplitKernelCombo(r, |a|, d, p0, y, v);
  }

  /**
   * The kernel step on an echelon stack whose rows with a nonzero `A` part
   * come first: a combination equal to `[0; v]` yields `v` as a combination of
   * the collected identity parts.
   */
  lemma SplitKernelCombo(r: Matrix, nv: nat, d: nat, p0: nat, y: seq<real>, v: Vector) returns (z: seq<real>)
    requires IsMatrix(r, nv + d) && IsEchelon(r, nv + d) && p0 <= |r| && |y| == |r| && |v| == d
    requires forall k :: 0 <= k < p0 ==> Lead(r[k]) < nv
    requires forall k :: p0 <= k < |r| ==> IsZero(r[k][..nv])
    requires Picked(r, nv) == Range(p0, |r|)
    requires Combo(y, r, nv + d) == Zeros(nv) + v
    ensures |z| == |Collect(r, nv)| && IsMatrix(Collect(r, nv), d) && Combo(z, Collect(r, nv), d) == v
  {
    HeadCoefficientsZero(r, nv, d, p0, y, v);
    CollectSuffix(r, nv, p0);
    CollectedColumns(r, nv, d, p0);
    TailCombo(r, nv, d, p0, y, v, Collect(r, nv));
    z := y[p0..];
  }

  /**
   * If a combination of echelon rows has a zero `A` part, and only the first
   * `p0` rows have a nonzero `A` part, then those rows get zero coefficients.
   */
  lemma HeadCoefficientsZero(r: Matrix, nv: nat, d: nat, p0: nat, y: seq<real>, v: Vector)
    requires IsMatrix(r, nv + d) && IsEchelon(r, nv + d) && p0 <= |r| && |y| == |r| && |v| == d
    requires forall k :: 0 <= k < p0 ==> Lead(r[k]) < nv
    requires forall k :: p0 <= k < |r| ==> IsZero(r[k][..nv])
    requires Combo(y, r, nv + d) == Zeros(nv) + v
    ensures IsZero(y[..p0])
  {
    HeadsEchelon(r, nv, nv + d, p0);
    var h := seq(p0, k requires 0 <= k < p0 => r[k][..nv]);
    forall col | 0 <= col < nv ensures Combo(y[..p0], h, nv)[col] == 0.0 {
      HeadColumnZero(r, nv, d, p0, y, v, col);
      assert Column(h, col) == Column(r[..p0], col);
    }
    assert Combo(y[..p0], h, nv) == Zeros(nv);
    EchelonIndependent(h, nv);
  }

  /** In column `col` of the `A` part, only the first `p0` rows can contribute, and the total is 0. */
  lemma HeadColumnZero(r: Matrix, nv: nat, d: nat, p0: nat, y: seq<real>, v: Vector, col: nat)
    requires IsMatrix(r, nv + d) && p0 <= |r| && |y| == |r| && |v| == d && col < nv
    requires forall k :: p0 <= k < |r| ==> IsZero(r[k][..nv])
    requires Combo(y, r, nv + d) == Zeros(nv) + v
    ensures Combo(y[..p0], r[..p0], nv + d)[col] == 0.0
  {
    ComboSplitAt(y, r, nv + d, p0, col);
    var tail := Column(r[p0..], col);
    forall k | 0 <= k < |tail| ensures tail[k] == 0.0 {
      assert r[p0 + k][..nv][col] == 0.0;
    }
    DotZeroTerms(y[p0..], tail);
    assert (Zeros(nv) + v)[col] == 0.0;
  }

  /**
   * With zero coefficients on the first `p0` rows, a combination equal to
   * `[0; v]` gives `v` as a combination of the identity parts `vs` of the rest.
   */
  lemma TailCombo(r: Matrix, nv: nat, d: nat, p0: nat, y: seq<real>, v: Vector, vs: Matrix)
    requires IsMatrix(r, nv + d) && p0 <= |r| && |y| == |r| && |v| == d
    requires IsMatrix(vs, d) && |vs| == |r| - p0
    requires forall j :: 0 <= j < d ==> Column(vs, j) == Column(r[p0..], nv + j)
    requires IsZero(y[..p0]) && Combo(y, r, nv + d) == Zeros(nv) + v
    ensures Combo(y[p0..], vs, d) == v
  {
    var w := nv + d;
    ComboZero(y[..p0], r[..p0], w);
    var z := y[p0..];
    forall j | 0 <= j < d ensures Combo(z, vs, d)[j] == v[j] {
      ComboSplitAt(y, r, w, p0, nv + j);
      assert Combo(z, vs, d)[j] == Combo(z, r[p0..], w)[nv + j];
      assert (Zeros(nv) + v)[nv + j] == v[j];
    }
  }

  /** When the picked rows are exactly those from `p0` on, the collected vectors are their identity parts, in order. */
  lemma CollectSuffix(r: Matrix, nv: nat, p0: nat)
    requires RowsAtLeast(r, nv) && p0 <= |r|
    requires Picked(r, nv) == Range(p0, |r|)
    ensures |Collect(r, nv)| == |r| - p0
    ensures forall k :: 0 <= k < |r| - p0 ==> Collect(r, nv)[k] == r[p0 + k][nv..]
  {
    var ix := Picked(r, nv);
    forall k | 0 <= k < |r| - p0 ensures Collect(r, nv)[k] == r[p0 + k][nv..] {
      assert ix[k] == p0 + k;
    }
  }

  /** Dropping the first `nv` entries of every row shifts column `nv + j` to column `j`. */
  lemma DropColumns(vs: Matrix, tail: Matrix, nv: nat, d: nat)
    requires IsMatrix(tail, nv + d) && |vs| == |tail|
    requires forall k :: 0 <= k < |vs| ==> vs[k] == tail[k][nv..]
    ensures IsMatrix(vs, d)
    ensures forall j :: 0 <= j < d ==> Column(vs, j) == Column(tail, nv + j)
  {
    forall j | 0 <= j < d ensures Column(vs, j) == Column(tail, nv + j) {
      forall k | 0 <= k < |vs| ensures Column(vs, j)[k] == Column(tail, nv + j)[k] {
        assert vs[k][j] == tail[k][nv + j];
      }
    }
  }

  /** The picked rows from `p0` on contribute their identity parts: column `j` of the result is column `nv + j` of those rows. */
  lemma CollectedColumns(r: Matrix, nv: nat, d: nat, p0: nat)
    requires IsMatrix(r, nv + d) && p0 <= |r|
    requires Picked(r, nv) == Range(p0, |r|)
    ensures IsMatrix(Collect(r, nv), d)
    ensures forall j :: 0 <= j < d ==> Column(Collect(r, nv), j) == Column(r[p0..], nv + j)
  {
    CollectSuffix(r, nv, p0);
    var tail := r[p0..];
    DropColumns(Collect(r, nv), tail, nv, d);
  }
}
