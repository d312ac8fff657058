/**
 * The classical side of Simon's algorithm (`simons_alg` and
 * `verify_flip_but_bit` in simons.py). The quantum circuit and the simulator
 * are replaced by the sequence of measurement distributions they would
 * return, one per pass of the loop.
 */
module Simons {
  import opened Matrices
  import opened Echelon
  import opened Kernel
  import opened Constraints

  datatype Option<T> = None | Some(value: T)

  /** One `get_counts` result: (bit-string, count) pairs in the dictionary's order. */
  type Distribution = seq<(string, nat)>

  predicate IsBitString(s: string, n: nat) {
    |s| == n && forall i :: 0 <= i < n ==> s[i] == '0' || s[i] == '1'
  }

  /** A non-empty dictionary of distinct `n`-bit keys. */
  predicate WellFormed(dist: Distribution, n: nat) {
    && |dist| > 0
    && (forall i :: 0 <= i < |dist| ==> IsBitString(dist[i].0, n))
    && (forall i, j :: 0 <= i < j < |dist| ==> dist[i].0 != dist[j].0)
  }

  predicate AllWellFormed(dists: seq<Distribution>, n: nat) {
    forall i :: 0 <= i < |dists| ==> WellFormed(dists[i], n)
  }

  /**
   * `max(distribution, key=distribution.get)`: the position of a largest
   * count, the first one when several tie.
   */
  function ArgMax(dist: Distribution): (i: nat)
    requires |dist| > 0
    ensures i < |dist|
    ensures forall j :: 0 <= j < |dist| ==> dist[j].1 <= dist[i].1
    ensures forall j :: 0 <= j < i ==> dist[j].1 < dist[i].1
    decreases |dist|
  {
    if |dist| == 1 then 0
    else
      var i := ArgMax(dist[..|dist| - 1]);
      assert forall j :: 0 <= j < |dist| - 1 ==> dist[..|dist| - 1][j] == dist[j];
      if dist[|dist| - 1].1 > dist[i].1 then |dist| - 1 else i
  }

  /** `np.fromstring(' '.join(k), dtype=int, sep=' ')`: the digit of every character. */
  function Parse(s: string): (k: Row)
    ensures |k| == |s|
    ensures IsBitString(s, |s|) ==> IsBits(k, |s|) && forall i :: 0 <= i < |s| ==> (k[i] == 1 <==> s[i] == '1')
  {
    seq(|s|, i requires 0 <= i < |s| => (s[i] as int) - ('0' as int))
  }

  /** The row the loop adds to `E` for one distribution. */
  function Pick(dist: Distribution, n: nat): (k: Row)
    requires WellFormed(dist, n)
    ensures IsBits(k, n)
  {
    Parse(dist[ArgMax(dist)].0)
  }

  /** Python's float `x % 2`: the value in `[0, 2)` that differs from `x` by an even integer. */
  function Mod2(x: real): (y: real)
    ensures 0.0 <= y < 2.0
    ensures ((x - y) / 2.0).Floor as real == (x - y) / 2.0
  {
    var q := (x / 2.0).Floor;
    assert q as real <= x / 2.0 < q as real + 1.0;
    assert (x - (x - 2.0 * (q as real))) / 2.0 == q as real;
    x - 2.0 * (q as real)
  }

  function Mod2Vec(v: Vector): (w: Vector)
    ensures |w| == |v| && forall i :: 0 <= i < |v| ==> w[i] == Mod2(v[i])
  {
    seq(|v|, i requires 0 <= i < |v| => Mod2(v[i]))
  }

  function ToReals(r: Row): (v: Vector)
    ensures |v| == |r| && forall i :: 0 <= i < |r| ==> v[i] == r[i] as real
  {
    seq(|r|, i requires 0 <= i < |r| => r[i] as real)
  }

  /** `E` as the floating matrix `null_space` receives. */
  function RealRows(e: seq<Row>): (m: Matrix)
    ensures |m| == |e| && forall i :: 0 <= i < |e| ==> m[i] == ToReals(e[i])
  {
    seq(|e|, i requires 0 <= i < |e| => ToReals(e[i]))
  }

  predicate IsZeroRow(r: Row) {
    forall i :: 0 <= i < |r| ==> r[i] == 0
  }

  /**
   * What one pass decides once `E` holds this pass's row, given the null
   * space `ns` of `E`: the single null-space vector mod 2, or the all-zero
   * row when this pass's distribution has one key and that key is all zeros,
   * or nothing.
   */
  function Outcome(n: nat, dist: Distribution, ns: seq<Vector>): Option<Vector>
    requires WellFormed(dist, n)
  {
    if |ns| == 1 then Some(Mod2Vec(ns[0]))
    else if |dist| == 1 && IsZeroRow(Pick(dist, n)) then Some(ToReals(Pick(dist, n)))
    else None
  }

  /** `null_space(E)` for the constraint rows `E` of width `n`, as a function of `E`. */
  function NullSpaceOf(n: nat): seq<Row> -> seq<Vector> {
    e => if Width(e, n) then NullSpaceSpec(RealRows(e), n) else []
  }

  /** `E` after `t` passes: the rows picked so far, sorted, without repeats. */
  function EAfter(n: nat, dists: seq<Distribution>, t: nat): (e: seq<Row>)
    requires t <= |dists| && AllWellFormed(dists, n)
    ensures StrictlySorted(e) && Width(e, n)
    ensures forall x :: x in e <==> exists i :: 0 <= i < t && x == Pick(dists[i], n)
  {
    if t == 0 then []
    else
      var prev := EAfter(n, dists, t - 1);
      var e := Insert(prev, Pick(dists[t - 1], n));
      assert forall x :: x in e <==> (exists i :: 0 <= i < t - 1 && x == Pick(dists[i], n)) || x == Pick(dists[t - 1], n);
      e
  }

  /** The value `simons_alg` returns and the number of passes it made. */
  datatype Run = Run(answer: Option<Vector>, iterations: nat)

  /** What pass `s` (counting from 0) decides, once `E` holds the rows of passes `0..s`. */
  function PassOutcome(n: nat, dists: seq<Distribution>, s: nat): Option<Vector>
    requires s < |dists| && AllWellFormed(dists, n)
  {
    Outcome(n, dists[s], NullSpaceOf(n)(EAfter(n, dists, s + 1)))
  }

  /** The decisions of all passes, as one function of the pass number. */
  function Passes(n: nat, dists: seq<Distribution>): nat -> Option<Vector> {
    (s: nat) => if s < |dists| && AllWellFormed(dists, n) then PassOutcome(n, dists, s) else None
  }

  /**
   * The `while` loop of `simons_alg` from the state after `it` passes, in which
   * `a_vec` is `a`, to its exit; `pass(s)` is what pass `s` decides and `bound`
   * is `10 n`.
   */
  function Loop(pass: nat -> Option<Vector>, bound: nat, it: nat, a: Option<Vector>): Run
    requires it <= bound
    decreases bound - it
  {
    if a.Some? || it == bound then Run(a, it)
    else Loop(pass, bound, it + 1, pass(it))
  }

  /** A whole run of `simons_alg` on the distributions `dists`. */
  function SimonsSpec(n: nat, dists: seq<Distribution>): Run {
    Loop(Passes(n, dists), 10 * n, 0, None)
  }

  /** No pass before `t` decided anything. */
  predicate Quiet(pass: nat -> Option<Vector>, t: nat) {
    forall s :: 0 <= s < t ==> pass(s).None?
  }

  lemma {:induction false} LoopRun(pass: nat -> Option<Vector>, bound: nat, it: nat)
    requires it <= bound && Quiet(pass, it)
    ensures var r := Loop(pass, bound, it, None);
            && it <= r.iterations <= bound
            && (r.answer.None? ==> r.iterations == bound && Quiet(pass, bound))
            && (r.answer.Some? ==>
                  && it < r.iterations
                  && Quiet(pass, r.iterations - 1)
                  && r.answer == pass(r.iterations - 1))
    decreases bound - it
  {
    if it < bound && pass(it).None? {
      QuietStep(pass, it);
      LoopRun(pass, bound, it + 1);
    }
  }

  /** A pass that decides nothing hands over to the next one. */
  lemma LoopStep(pass: nat -> Option<Vector>, bound: nat, it: nat)
    requires it < bound
    ensures Loop(pass, bound, it, None) == Loop(pass, bound, it + 1, pass(it))
  {
  }

  lemma QuietStep(pass: nat -> Option<Vector>, t: nat)
    requires Quiet(pass, t) && pass(t).None?
    ensures Quiet(pass, t + 1)
  {
  }

  /**
   * The run, pass by pass: it stops at the first pass that decides something
   * and returns that, or after `10 n` passes that all decided nothing.
   */
  lemma SimonsRun(n: nat, dists: seq<Distribution>)
    ensures var r := SimonsSpec(n, dists);
            && r.iterations <= 10 * n
            && (r.answer.None? ==> r.iterations == 10 * n && Quiet(Passes(n, dists), 10 * n))
            && (r.answer.Some? ==>
                  && 0 < r.iterations
                  && Quiet(Passes(n, dists), r.iterations - 1)
                  && r.answer == Passes(n, dists)(r.iterations - 1))
  {
    LoopRun(Passes(n, dists), 10 * n, 0);
  }

  /** Whatever the run returns is a row of `n` entries, each in `[0, 2)`. */
  lemma AnswerShape(n: nat, dists: seq<Distribution>)
    requires 10 * n <= |dists| && AllWellFormed(dists, n)
    ensures var r := SimonsSpec(n, dists);
            r.answer.Some? ==> |r.answer.value| == n && forall i :: 0 <= i < n ==> 0.0 <= r.answer.value[i] < 2.0
  {
    var r := SimonsSpec(n, dists);
    SimonsRun(n, dists);
    if r.answer.Some? {
      PassShape(n, dists, r.iterations - 1);
    }
  }

  /** A pass that decides something decides a row of `n` entries in `[0, 2)`. */
  lemma PassShape(n: nat, dists: seq<Distribution>, s: nat)
    requires s < |dists| && AllWellFormed(dists, n)
    ensures var v := Passes(n, dists)(s);
            v.Some? ==> |v.value| == n && forall i :: 0 <= i < n ==> 0.0 <= v.value[i] < 2.0
  {
    assert Passes(n, dists)(s) == PassOutcome(n, dists, s);
    OutcomeShape(n, dists[s], EAfter(n, dists, s + 1));
  }

  /** `E` never holds more than `2^n` rows, and its rows only accumulate. */
  lemma EAfterBounds(n: nat, dists: seq<Distribution>, s: nat, t: nat)
    requires s <= t <= |dists| && AllWellFormed(dists, n)
    ensures |EAfter(n, dists, t)| <= Pow2(n)
    ensures forall x :: x in EAfter(n, dists, s) ==> x in EAfter(n, dists, t)
    ensures 0 < t ==> Pick(dists[t - 1], n) in EAfter(n, dists, t)
  {
    var e := EAfter(n, dists, t);
    forall i | 0 <= i < |e| ensures IsBits(e[i], n) {
      assert e[i] in e;
      var j :| 0 <= j < t && e[i] == Pick(dists[j], n);
    }
    SortedBitsBound(e, n);
  }

  /**
   * An answer has `n` entries in `[0, 2)`. It is either the single null-space
   * vector `u` of `E` (so `E u = 0`) taken mod 2, or, when the null space does
   * not have exactly one vector, the all-zero row of a one-key distribution.
   */
  lemma OutcomeShape(n: nat, dist: Distribution, e: seq<Row>)
    requires WellFormed(dist, n) && Width(e, n)
    ensures var ns := NullSpaceSpec(RealRows(e), n);
            match Outcome(n, dist, NullSpaceOf(n)(e))
            case None => |ns| != 1 && !(|dist| == 1 && IsZeroRow(Pick(dist, n)))
            case Some(v) =>
              && |v| == n && (forall i :: 0 <= i < n ==> 0.0 <= v[i] < 2.0)
              && (|ns| == 1 ==> v == Mod2Vec(ns[0]) && MatVec(RealRows(e), ns[0]) == Zeros(|e|))
              && (|ns| != 1 ==> |dist| == 1 && v == Zeros(n))
  {
    var ns := NullSpaceSpec(RealRows(e), n);
    assert NullSpaceOf(n)(e) == ns;
    if |ns| == 1 {
      NullSpaceInKernel(RealRows(e), n);
    } else if |dist| == 1 && IsZeroRow(Pick(dist, n)) {
      assert ToReals(Pick(dist, n)) == Zeros(n);
    }
  }

  /** The constraint rows `0110`, `1010`, `1100`, in the order `E` keeps them. */
  const MaskRows: seq<Row> := [[0, 1, 1, 0], [1, 0, 1, 0], [1, 1, 0, 0]]

  /** `E v` for `E = MaskRows`, entry by entry. */
  lemma MaskRowsTimes(v: Vector)
    requires |v| == 4
    ensures MatVec(RealRows(MaskRows), v) == [v[1] + v[2], v[0] + v[2], v[0] + v[1]]
  {
    var a := RealRows(MaskRows);
    assert a[0] == [0.0, 1.0, 1.0, 0.0] && a[1] == [1.0, 0.0, 1.0, 0.0] && a[2] == [1.0, 1.0, 0.0, 0.0];
    DotOfFour(a[0], v);
    DotOfFour(a[1], v);
    DotOfFour(a[2], v);
    var w := MatVec(a, v);
    assert w[0] == v[1] + v[2] && w[1] == v[0] + v[2] && w[2] == v[0] + v[1];
  }

  lemma DotOfFour(u: Vector, v: Vector)
    requires |u| == 4 && |v| == 4
    ensures Dot(u, v) == u[0] * v[0] + u[1] * v[1] + u[2] * v[2] + u[3] * v[3]
  {
    var u1, v1 := u[1..], v[1..];
    var u2, v2 := u1[1..], v1[1..];
    var u3, v3 := u2[1..], v2[1..];
    assert Dot(u3[1..], v3[1..]) == 0.0;
    assert Dot(u3, v3) == u[3] * v[3];
    assert Dot(u2, v2) == u[2] * v[2] + Dot(u3, v3);
    assert Dot(u1, v1) == u[1] * v[1] + Dot(u2, v2);
  }

  /** A nonzero vector whose first three entries are zero leads at its last entry. */
  lemma LeadOfLast(v: Vector)
    requires |v| == 4 && v[0] == 0.0 && v[1] == 0.0 && v[2] == 0.0 && !IsZero(v)
    ensures v[3] != 0.0 && Lead(v) == 3
  {
    var j := NonzeroEntry(v);
    assert j == 3;
    var v1 := v[1..];
    var v2 := v1[1..];
    var v3 := v2[1..];
    assert v3[0] == v[3] && Lead(v3) == 0;
    assert v2[0] == v[2] && Lead(v2) == 1;
    assert v1[0] == v[1] && Lead(v1) == 2;
  }

  /** Over the reals a solution of `E v = 0` for `E = MaskRows` is a multiple of `0001`. */
  lemma MaskKernelVector(v: Vector)
    requires |v| == 4 && MatVec(RealRows(MaskRows), v) == Zeros(3)
    ensures v[0] == 0.0 && v[1] == 0.0 && v[2] == 0.0
  {
    var w := MatVec(RealRows(MaskRows), v);
    MaskRowsTimes(v);
    assert w[0] == v[1] + v[2] && w[1] == v[0] + v[2] && w[2] == v[0] + v[1];
    assert w[0] == 0.0 && w[1] == 0.0 && w[2] == 0.0;
  }

  /** `0001` is a nonzero solution, so `null_space(E)` is not empty. */
  lemma MaskNullSpaceNotEmpty()
    ensures NullSpaceSpec(RealRows(MaskRows), 4) != []
  {
    var a := RealRows(MaskRows);
    var u: Vector := [0.0, 0.0, 0.0, 1.0];
    MaskRowsTimes(u);
    assert MatVec(a, u) == Zeros(3);
    assert u[3] != 0.0;
    NullSpaceEmptyIff(a, 4);
  }

  /** Every vector `null_space(E)` returns for `E = MaskRows` is nonzero and zero in its first three entries. */
  lemma MaskBasisVectors()
    ensures var ns := NullSpaceSpec(RealRows(MaskRows), 4);
            forall j :: 0 <= j < |ns| ==>
              |ns[j]| == 4 && ns[j][0] == 0.0 && ns[j][1] == 0.0 && ns[j][2] == 0.0 && !IsZero(ns[j])
  {
    var a := RealRows(MaskRows);
    var ns := NullSpaceSpec(a, 4);
    NullSpaceInKernel(a, 4);
    NullSpaceIndependent(a, 4);
    forall j | 0 <= j < |ns| ensures ns[j][0] == 0.0 && ns[j][1] == 0.0 && ns[j][2] == 0.0 {
      MaskKernelVector(ns[j]);
    }
  }

  /** An echelon basis of nonzero vectors that all vanish outside their last entry is `[0001]`. */
  lemma LastUnitBasis(ns: seq<Vector>)
    requires IsEchelon(ns, 4) && ns != []
    requires forall j :: 0 <= j < |ns| ==>
               |ns[j]| == 4 && ns[j][0] == 0.0 && ns[j][1] == 0.0 && ns[j][2] == 0.0 && !IsZero(ns[j])
    ensures ns == [[0.0, 0.0, 0.0, 1.0]]
  {
    forall j | 0 <= j < |ns| ensures ns[j] == [0.0, 0.0, 0.0, 1.0] && Lead(ns[j]) == 3 {
      LeadOfLast(ns[j]);
      assert ns[j][3] == 1.0;
    }
    if |ns| >= 2 {
      EchelonLeadsIncrease(ns, 4, 0, 1);
    }
  }

  /** `null_space(E)` for `E = MaskRows` is exactly `[0001]`. */
  lemma MaskNullSpace()
    ensures NullSpaceSpec(RealRows(MaskRows), 4) == [[0.0, 0.0, 0.0, 1.0]]
  {
    var a := RealRows(MaskRows);
    MaskNullSpaceNotEmpty();
    MaskBasisVectors();
    NullSpaceEchelon(a, 4);
    LastUnitBasis(NullSpaceSpec(a, 4));
  }

  /**
   * Reducing `E` over the reals and only then taking the answer mod 2 can
   * miss the hidden mask. Each of the rows `0110`, `1010`, `1100` is
   * orthogonal mod 2 to the mask `1110` (every entry of `E (1110)` is even),
   * yet over the reals these rows leave only `0001` in the null space, so a
   * pass that ends with exactly this `E` answers `0001`, whatever its
   * distribution.
   */
  lemma RealKernelMissesMask(dist: Distribution)
    requires WellFormed(dist, 4)
    ensures var e := MaskRows;
            && Width(e, 4) && (forall i :: 0 <= i < |e| ==> IsBits(e[i], 4))
            && MatVec(RealRows(e), [1.0, 1.0, 1.0, 0.0]) == [2.0, 2.0, 2.0]
            && NullSpaceOf(4)(e) == [[0.0, 0.0, 0.0, 1.0]]
            && Outcome(4, dist, NullSpaceOf(4)(e)) == Some([0.0, 0.0, 0.0, 1.0])
  {
    var u: Vector := [0.0, 0.0, 0.0, 1.0];
    MaskRowsTimes([1.0, 1.0, 1.0, 0.0]);
    MaskNullSpace();
    assert NullSpaceOf(4)(MaskRows) == [u];
    assert (1.0 / 2.0).Floor == 0 && (0.0 / 2.0).Floor == 0;
    assert Mod2Vec(u) == u;
  }

  /** The all-zero bit-string of length `n`. */
  function ZeroKey(n: nat): (s: string)
    ensures IsBitString(s, n)
  {
    seq(n, _ => '0')
  }

  /**
   * The degenerate exit: if the first distribution has the single key
   * `0...0`, then `E = [0...0]` and its null space is the identity, so with
   * `n >= 2` the run stops after one pass with the zero vector, and with
   * `n == 1` it stops after one pass with `[1]`.
   */
  lemma AllZeroFirstPass(n: nat, dists: seq<Distribution>, c: nat)
    requires 1 <= n && 10 * n <= |dists| && AllWellFormed(dists, n)
    requires dists[0] == [(ZeroKey(n), c)]
    ensures SimonsSpec(n, dists).iterations == 1
    ensures n >= 2 ==> SimonsSpec(n, dists).answer == Some(Zeros(n))
    ensures n == 1 ==> SimonsSpec(n, dists).answer == Some([1.0])
  {
    var k := Pick(dists[0], n);
    FirstPassRows(n, dists, c);
    ZeroRowNullSpace(n, k);
    var a := Outcome(n, dists[0], Identity(n));
    if n == 1 {
      assert Identity(1)[0] == [1.0];
      assert Mod2Vec([1.0]) == [1.0];
      assert a == Some([1.0]);
    } else {
      assert ToReals(k) == Zeros(n);
      assert a == Some(Zeros(n));
    }
    assert Passes(n, dists)(0) == PassOutcome(n, dists, 0) == a;
    assert SimonsSpec(n, dists) == Loop(Passes(n, dists), 10 * n, 1, a);
  }

  lemma FirstPassRows(n: nat, dists: seq<Distribution>, c: nat)
    requires 1 <= n && 1 <= |dists| && AllWellFormed(dists, n)
    requires dists[0] == [(ZeroKey(n), c)]
    ensures IsZeroRow(Pick(dists[0], n)) && EAfter(n, dists, 1) == [Pick(dists[0], n)]
  {
    var k := Pick(dists[0], n);
    assert EAfter(n, dists, 1) == Insert([], k);
  }

  /** The null space of a single all-zero row is the whole space. */
  lemma ZeroRowNullSpace(n: nat, k: Row)
    requires IsBits(k, n) && IsZeroRow(k)
    ensures NullSpaceOf(n)([k]) == Identity(n)
  {
    var m := RealRows([k]);
    assert forall i :: 0 <= i < |m| ==> IsZero(m[i]);
    NullSpaceOfZero(m, n);
  }

  /** `E` as a `|e|` by `n` array, the input `null_space` is called with. */
  method RowsToArray(e: seq<Row>, n: nat) returns (m: array2<real>)
    requires Width(e, n)
    ensures fresh(m)
    ensures m.Length0 == |e| && m.Length1 == n
    ensures Window(m, 0, 0) == RealRows(e)
  {
    m := new real[|e|, n];
    for i := 0 to |e|
      invariant forall x, y :: 0 <= x < i && 0 <= y < n ==> m[x, y] == e[x][y] as real
    {
      for j := 0 to n
        invariant forall x, y :: 0 <= x < i && 0 <= y < n ==> m[x, y] == e[x][y] as real
        invariant forall y :: 0 <= y < j ==> m[i, y] == e[i][y] as real
      {
        m[i, j] := e[i][j] as real;
      }
    }
    WindowEq(m, 0, 0, RealRows(e));
  }

  /**
   * The end of one pass: `null_space(E) % 2`, then the two exit tests, with
   * `k` the row this pass added to `E`.
   */
  method PassDecision(n: nat, dist: Distribution, k: Row, e: seq<Row>) returns (a: Option<Vector>)
    requires WellFormed(dist, n) && k == Pick(dist, n) && Width(e, n)
    ensures a == Outcome(n, dist, NullSpaceOf(n)(e))
  {
    var m := RowsToArray(e, n);
    var bases := NullSpace(m);
    ghost var ns := NullSpaceSpec(RealRows(e), n);
    assert NullSpaceOf(n)(e) == ns;
    if bases.Length1 == 1 {
      WindowEntries(bases, 0, 0);
      a := Some(seq(n, j requires 0 <= j < n reads bases => Mod2(bases[j, 0])));
      assert a.value == Mod2Vec(ns[0]);
    } else if |dist| == 1 && IsZeroRow(k) {
      a := Some(ToReals(k));
    } else {
      a := None;
    }
  }

  /**
   * `simons_alg`, with the `k`-th simulator run replaced by `dists[k]`: at most
   * `10 n` passes, each adding the most frequent key's row to `E` and stopping
   * on a one-vector null space or on an all-zero single key.
   */
  method SimonsAlg(n: nat, dists: seq<Distribution>) returns (aVec: Option<Vector>)
    requires 10 * n <= |dists| && AllWellFormed(dists, n)
    ensures aVec == SimonsSpec(n, dists).answer
  {
    var e: seq<Row> := [];
    var nIter := 0;
    aVec := None;
    while aVec.None? && nIter < 10 * n
      invariant nIter <= 10 * n && e == EAfter(n, dists, nIter)
      invariant Loop(Passes(n, dists), 10 * n, nIter, aVec) == SimonsSpec(n, dists)
      decreases 10 * n - nIter
    {
      LoopStep(Passes(n, dists), 10 * n, nIter);
      e, aVec := Pass(n, dists, nIter, e);
      nIter := nIter + 1;
    }
  }

  /** One pass of the loop body: `E` gains this pass's row, then `PassDecision`. */
  method Pass(n: nat, dists: seq<Distribution>, t: nat, e: seq<Row>) returns (e': seq<Row>, a: Option<Vector>)
    requires t < |dists| && AllWellFormed(dists, n) && e == EAfter(n, dists, t)
    ensures e' == EAfter(n, dists, t + 1)
    ensures a == Passes(n, dists)(t)
  {
    var dist := dists[t];
    var k := Parse(dist[ArgMax(dist)].0);
    e' := Insert(e, k);
    a := PassDecision(n, dist, k, e');
  }

  /**
   * The check of `verify_flip_but_bit`: with `z = (1 - a) mod 2`, entry
   * `n - 1 - i` of `z` is 1 exactly for the positions `i` other than `t`.
   */
  ghost predicate FlipsAllBut(a: Vector, t: int) {
    forall j :: 0 <= j < |a| ==> (Mod2(1.0 - a[j]) == 1.0 <==> |a| - 1 - j != t)
  }

  /** `verify_flip_but_bit`, returning success instead of printing it. */
  method VerifyFlipButBit(aVec: Vector, tBit: int) returns (ok: bool)
    ensures ok <==> FlipsAllBut(aVec, tBit)
  {
    var n := |aVec|;
    var z := seq(n, j requires 0 <= j < n => Mod2(1.0 - aVec[j]));
    for i := 0 to n
      invariant forall j :: n - i <= j < n ==> (Mod2(1.0 - aVec[j]) == 1.0 <==> n - 1 - j != tBit)
    {
      if i != tBit && 1.0 != z[n - 1 - i] {
        assert n - 1 - (n - 1 - i) == i;
        return false;
      } else if i == tBit && 1.0 == z[n - 1 - i] {
        assert n - 1 - (n - 1 - i) == i;
        return false;
      }
    }
    return true;
  }

  /** For `a` in `[0, 2)`, `(1 - a) mod 2 == 1` exactly when `a == 0`. */
  lemma FlipEntry(a: real)
    requires 0.0 <= a < 2.0
    ensures Mod2(1.0 - a) == 1.0 <==> a == 0.0
  {
    var q := ((1.0 - a) / 2.0).Floor;
    if a <= 1.0 {
      assert q == 0;
    } else {
      assert q == -1;
    }
  }

  /**
   * On an answer with entries in `[0, 2)` the check succeeds exactly when the
   * answer is zero everywhere except at position `n - 1 - t`, where it is
   * nonzero: mod 2, the unit vector at `n - 1 - t`.
   */
  lemma FlipsAllButMeansUnit(a: Vector, t: int)
    requires forall j :: 0 <= j < |a| ==> 0.0 <= a[j] < 2.0
    ensures FlipsAllBut(a, t) <==> forall j :: 0 <= j < |a| ==> (a[j] == 0.0 <==> j != |a| - 1 - t)
  {
    forall j | 0 <= j < |a| ensures (Mod2(1.0 - a[j]) == 1.0 <==> a[j] == 0.0) {
      FlipEntry(a[j]);
    }
  }
}
