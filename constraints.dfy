/**
 * The constraint matrix `E` of Simon's loop: the measured bit-strings parsed
 * into integer rows, kept as `np.unique(..., axis=0)` keeps them, that is
 * lexicographically sorted with no repeated row.
 */
module Constraints {

  /** A parsed measurement: one integer per character of the bit-string. */
  type Row = seq<int>

  predicate IsBits(r: Row, n: nat) {
    |r| == n && forall i :: 0 <= i < n ==> r[i] == 0 || r[i] == 1
  }

  /** Lexicographic order: the first differing entry decides. */
  predicate LexLess(u: Row, v: Row)
    decreases |u|
  {
    |u| > 0 && |v| > 0 && (u[0] < v[0] || (u[0] == v[0] && LexLess(u[1..], v[1..])))
  }

  lemma {:induction false} LexIrreflexive(u: Row)
    ensures !LexLess(u, u)
    decreases |u|
  {
    if |u| > 0 {
      LexIrreflexive(u[1..]);
    }
  }

  lemma {:induction false} LexTransitive(u: Row, v: Row, w: Row)
    requires LexLess(u, v) && LexLess(v, w)
    ensures LexLess(u, w)
    decreases |u|
  {
    if u[0] == v[0] && v[0] == w[0] {
      LexTransitive(u[1..], v[1..], w[1..]);
    }
  }

  /** Two different rows of the same width are ordered one way or the other. */
  lemma {:induction false} LexTotal(u: Row, v: Row)
    requires |u| == |v| && u != v
    ensures LexLess(u, v) || LexLess(v, u)
    decreases |u|
  {
    if u[0] == v[0] {
      assert u == [u[0]] + u[1..] && v == [v[0]] + v[1..];
      LexTotal(u[1..], v[1..]);
    }
  }

  predicate StrictlySorted(e: seq<Row>) {
    forall i, j :: 0 <= i < j < |e| ==> LexLess(e[i], e[j])
  }

  predicate Width(e: seq<Row>, n: nat) {
    forall i :: 0 <= i < |e| ==> |e[i]| == n
  }

  /**
   * `np.unique(np.vstack([E, k]), axis=0)` for a sorted, repeat-free `E`:
   * `k` is added unless present, and the result is again sorted and repeat-free.
   */
  function Insert(e: seq<Row>, k: Row): (r: seq<Row>)
    requires StrictlySorted(e) && Width(e, |k|)
    ensures StrictlySorted(r) && Width(r, |k|)
    ensures forall x :: x in r <==> x in e || x == k
    decreases |e|
  {
    if |e| == 0 then [k]
    else if k == e[0] then e
    else if LexLess(k, e[0]) then
      InsertFront(e, k);
      [k] + e
    else
      LexTotal(k, e[0]);
      var tail := Insert(e[1..], k);
      InsertBehind(e, k, tail);
      [e[0]] + tail
  }

  lemma InsertFront(e: seq<Row>, k: Row)
    requires |e| > 0 && StrictlySorted(e) && LexLess(k, e[0])
    ensures StrictlySorted([k] + e)
  {
    forall j | 0 < j < |e| ensures LexLess(k, e[j]) {
      LexTransitive(k, e[0], e[j]);
    }
  }

  lemma InsertBehind(e: seq<Row>, k: Row, tail: seq<Row>)
    requires |e| > 0 && StrictlySorted(e) && LexLess(e[0], k)
    requires StrictlySorted(tail) && forall x :: x in tail <==> x in e[1..] || x == k
    ensures StrictlySorted([e[0]] + tail)
  {
    var r := [e[0]] + tail;
    forall j | 1 <= j < |r| ensures LexLess(r[0], r[j]) {
      assert r[j] in tail;
    }
  }

  /** A sorted, repeat-free sequence is determined by its elements. */
  lemma {:induction false} SortedUnique(e1: seq<Row>, e2: seq<Row>)
    requires StrictlySorted(e1) && StrictlySorted(e2)
    requires forall x :: x in e1 <==> x in e2
    ensures e1 == e2
    decreases |e1|
  {
    if |e1| > 0 {
      assert e1[0] in e2;
      assert |e2| > 0;
      if e1[0] != e2[0] {
        assert e2[0] in e1;
        var i :| 0 <= i < |e1| && e1[i] == e2[0];
        var j :| 0 <= j < |e2| && e2[j] == e1[0];
        assert i > 0 && j > 0;
        LexTransitive(e1[0], e2[0], e1[0]);
        LexIrreflexive(e1[0]);
      }
      forall x ensures x in e1[1..] <==> x in e2[1..] {
        if x in e1[1..] {
          TailMember(e1, e2, x);
        }
        if x in e2[1..] {
          TailMember(e2, e1, x);
        }
      }
      SortedUnique(e1[1..], e2[1..]);
      assert e1 == [e1[0]] + e1[1..] && e2 == [e2[0]] + e2[1..];
    } else if |e2| > 0 {
      NotIn(e2[0], e1);
      assert false;
    }
  }

  /** Nothing is in an empty sequence; a separate lemma so that the branch that uses it stays free of checked terms. */
  lemma NotIn(x: Row, e: seq<Row>)
    requires |e| == 0
    ensures x !in e
  {
  }

  lemma TailMember(e1: seq<Row>, e2: seq<Row>, x: Row)
    requires StrictlySorted(e1) && |e1| > 0 && |e2| > 0 && e1[0] == e2[0]
    requires x in e1[1..] && x in e2
    ensures x in e2[1..]
  {
    var i :| 1 <= i < |e1| && e1[i] == x;
    var j :| 0 <= j < |e2| && e2[j] == x;
    if j == 0 {
      assert LexLess(x, x);
      LexIrreflexive(x);
    }
    assert e2[1..][j - 1] == x;
  }

  function Pow2(n: nat): (p: nat)
    ensures p >= 1
  {
    if n == 0 then 1 else 2 * Pow2(n - 1)
  }

  /** The number a bit row spells, most significant entry first. */
  function Value(r: Row): int {
    if |r| == 0 then 0 else r[0] * Pow2(|r| - 1) + Value(r[1..])
  }

  lemma {:induction false} ValueRange(r: Row, n: nat)
    requires IsBits(r, n)
    ensures 0 <= Value(r) < Pow2(n)
    decreases n
  {
    if n > 0 {
      ValueRange(r[1..], n - 1);
    }
  }

  /** On bit rows of one width, lexicographic order is numeric order. */
  lemma {:induction false} LexValue(u: Row, v: Row, n: nat)
    requires IsBits(u, n) && IsBits(v, n) && LexLess(u, v)
    ensures Value(u) < Value(v)
    decreases n
  {
    ValueRange(u[1..], n - 1);
    ValueRange(v[1..], n - 1);
    if u[0] == v[0] {
      LexValue(u[1..], v[1..], n - 1);
    }
  }

  lemma {:induction false} IncreasingBound(s: seq<int>, b: int)
    requires b >= 0
    requires forall i, j :: 0 <= i < j < |s| ==> s[i] < s[j]
    requires forall i :: 0 <= i < |s| ==> 0 <= s[i] < b
    ensures |s| <= b
    decreases |s|
  {
    if |s| > 0 {
      var front := s[..|s| - 1];
      assert forall i :: 0 <= i < |front| ==> front[i] == s[i] && s[i] < s[|s| - 1];
      IncreasingBound(front, s[|s| - 1]);
    }
  }

  /** A sorted, repeat-free set of `n`-bit rows has at most `2^n` members. */
  lemma SortedBitsBound(e: seq<Row>, n: nat)
    requires StrictlySorted(e) && forall i :: 0 <= i < |e| ==> IsBits(e[i], n)
    ensures |e| <= Pow2(n)
  {
    var s := seq(|e|, i requires 0 <= i < |e| => Value(e[i]));
    forall i, j | 0 <= i < j < |e| ensures s[i] < s[j] {
      LexValue(e[i], e[j], n);
    }
    forall i | 0 <= i < |e| ensures 0 <= s[i] < Pow2(n) {
      ValueRange(e[i], n);
    }
    IncreasingBound(s, Pow2(n));
  }
}
