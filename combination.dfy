/**
 * The combination enumerator of the BDD timing drivers: `init_array` and
 * `next_array` step an int array through every strictly increasing n-tuple
 * over {0, ..., varmax-1} with the value v0 left out, in lexicographic order.
 *
 * The allowed values, in increasing order, are Val(0, v0), Val(1, v0), ...:
 * the r-th allowed value ("rank" r) is r below v0 and r + 1 from v0 on.
 */
module Combination {

  // ---------------------------------------------------------------------
  // Allowed values and their ranks

  /** The allowed value of rank r. */
  function Val(r: int, v0: int): int {
    if r < v0 then r else r + 1
  }

  /** The rank of an allowed value x (x != v0). */
  function Rank(x: int, v0: int): int {
    if x < v0 then x else x - 1
  }

  /** The smallest allowed value above x: `++array[i]`, then `++` again if it hit v0. */
  function Bump(x: int, v0: int): int {
    if x + 1 == v0 then x + 2 else x + 1
  }

  predicate Allowed(x: int, varmax: int, v0: int) {
    0 <= x < varmax && x != v0
  }

  /** A strictly increasing tuple of allowed values. */
  predicate IsCombination(s: seq<int>, varmax: int, v0: int) {
    && (forall k :: 0 <= k < |s| ==> Allowed(s[k], varmax, v0))
    && (forall j, k :: 0 <= j < k < |s| ==> s[j] < s[k])
  }

  /** The largest value position k of an n-tuple can hold. */
  function MaxAt(k: int, n: int, varmax: int, v0: int): int {
    Val(varmax - 1 - n + k, v0)
  }

  /** The final tuple: every position holds its largest possible value. */
  predicate IsLast(s: seq<int>, varmax: int, v0: int) {
    forall k :: 0 <= k < |s| ==> s[k] == MaxAt(k, |s|, varmax, v0)
  }

  /** The allowed values of ranks q, q + 1, ..., q + len - 1, in order. */
  function Climb(q: int, len: nat, v0: int): (r: seq<int>)
    ensures |r| == len
    ensures forall j :: 0 <= j < len ==> r[j] == Val(q + j, v0)
    decreases len
  {
    if len == 0 then [] else [Val(q, v0)] + Climb(q + 1, len - 1, v0)
  }

  /** The first tuple: the n smallest allowed values. */
  function Initial(n: nat, v0: int): (s: seq<int>)
    ensures |s| == n
  {
    Climb(0, n, v0)
  }

  lemma RankOfAllowed(x: int, v0: int)
    requires x != v0 && x >= 0 && v0 >= 0
    ensures Val(Rank(x, v0), v0) == x && Rank(x, v0) >= 0
    ensures Bump(x, v0) == Val(Rank(x, v0) + 1, v0)
  {
  }

  /** Every position holds an allowed value no larger than that position's maximum. */
  predicate WithinBounds(s: seq<int>, varmax: int, v0: int) {
    forall k :: 0 <= k < |s| ==> 0 <= s[k] && s[k] != v0 && s[k] <= MaxAt(k, |s|, varmax, v0)
  }

  lemma CombinationWithinBounds(s: seq<int>, varmax: int, v0: int)
    requires IsCombination(s, varmax, v0) && 0 <= v0 < varmax
    ensures WithinBounds(s, varmax, v0)
  {
    CombinationBounds(s, varmax, v0);
  }

  /** Bumping the allowed value of rank r gives the allowed value of rank r + 1. */
  lemma BumpVal(r: int, v0: int)
    requires 0 <= r && 0 <= v0
    ensures Bump(Val(r, v0), v0) == Val(r + 1, v0)
    ensures Val(r, v0) + 1 == v0 ==> Val(r + 1, v0) == v0 + 1
    ensures Val(r, v0) + 1 != v0 ==> Val(r + 1, v0) == Val(r, v0) + 1
  {
  }

  /** Bumping an allowed value stays within a bound x has not reached yet. */
  lemma BumpWithin(x: int, r: int, v0: int)
    requires 0 <= v0 && 0 <= x && x != v0 && x <= Val(r, v0)
    ensures Bump(x, v0) <= Val(r, v0) <==> x < Val(r, v0)
  {
  }

  /** Ranks of a combination grow by at least one per position. */
  lemma {:induction false} RanksSpread(s: seq<int>, varmax: int, v0: int, i: int, j: int)
    requires IsCombination(s, varmax, v0) && 0 <= v0
    requires 0 <= i <= j < |s|
    ensures Rank(s[j], v0) - Rank(s[i], v0) >= j - i
    decreases j - i
  {
    if i < j {
      RanksSpread(s, varmax, v0, i + 1, j);
      assert s[i] < s[i + 1];
    }
  }

  /**
   * Every position of a combination lies between its smallest and its
   * largest possible value, and an n-tuple needs n <= varmax - 1.
   */
  lemma CombinationBounds(s: seq<int>, varmax: int, v0: int)
    requires IsCombination(s, varmax, v0) && 0 <= v0 < varmax
    ensures |s| <= varmax - 1
    ensures forall k :: 0 <= k < |s| ==> Val(k, v0) <= s[k] <= MaxAt(k, |s|, varmax, v0)
  {
    if |s| > 0 {
      var n := |s|;
      RanksSpread(s, varmax, v0, 0, n - 1);
      forall k | 0 <= k < n
        ensures Val(k, v0) <= s[k] <= MaxAt(k, n, varmax, v0)
      {
        RanksSpread(s, varmax, v0, 0, k);
        RanksSpread(s, varmax, v0, k, n - 1);
        RankOfAllowed(s[k], v0);
      }
    }
  }

  // ---------------------------------------------------------------------
  // Lexicographic order

  /** s and t agree before position p and s is smaller at p. */
  predicate LexLessAt(s: seq<int>, t: seq<int>, p: int) {
    && |s| == |t| && 0 <= p < |s|
    && (forall k :: 0 <= k < p ==> s[k] == t[k])
    && s[p] < t[p]
  }

  ghost predicate LexLess(s: seq<int>, t: seq<int>) {
    exists p :: LexLessAt(s, t, p)
  }

  ghost predicate LexLessEq(s: seq<int>, t: seq<int>) {
    s == t || LexLess(s, t)
  }

  /** Two different tuples of one length differ at a first position. */
  lemma FirstDifference(s: seq<int>, t: seq<int>) returns (p: nat)
    requires |s| == |t| && s != t
    ensures p < |s| && s[p] != t[p] && forall k :: 0 <= k < p ==> s[k] == t[k]
  {
    p := 0;
    while s[p] == t[p]
      invariant p < |s| && forall k :: 0 <= k < p ==> s[k] == t[k]
      decreases |s| - p
    {
      p := p + 1;
    }
  }

  /** Different tuples of one length are ordered one way or the other. */
  lemma LexTotal(s: seq<int>, t: seq<int>)
    requires |s| == |t| && s != t
    ensures LexLess(s, t) || LexLess(t, s)
  {
    var p := FirstDifference(s, t);
    if s[p] < t[p] {
      assert LexLessAt(s, t, p);
    } else {
      assert LexLessAt(t, s, p);
    }
  }

  lemma LexAsymmetric(s: seq<int>, t: seq<int>)
    requires LexLess(s, t)
    ensures !LexLess(t, s) && s != t
  {
    var p :| LexLessAt(s, t, p);
  }

  lemma LexTransitive(r: seq<int>, s: seq<int>, t: seq<int>)
    requires LexLess(r, s) && LexLess(s, t)
    ensures LexLess(r, t)
  {
    var p :| LexLessAt(r, s, p);
    var q :| LexLessAt(s, t, q);
    if p <= q {
      assert LexLessAt(r, t, p);
    } else {
      assert LexLessAt(r, t, q);
    }
  }

  // ---------------------------------------------------------------------
  // First, last and successor

  /** init_array's result is the least combination of its length. */
  lemma InitialIsLeast(n: nat, varmax: int, v0: int)
    requires 0 <= v0 < varmax && n <= varmax - 1
    ensures IsCombination(Initial(n, v0), varmax, v0)
    ensures forall t :: IsCombination(t, varmax, v0) && |t| == n ==> LexLessEq(Initial(n, v0), t)
  {
    var init := Initial(n, v0);
    forall t | IsCombination(t, varmax, v0) && |t| == n
      ensures LexLessEq(init, t)
    {
      if init != t {
        CombinationBounds(t, varmax, v0);
        var p := FirstDifference(init, t);
        assert LexLessAt(init, t, p);
      }
    }
  }

  /** The final tuple is the greatest combination of its length. */
  lemma LastIsGreatest(s: seq<int>, varmax: int, v0: int)
    requires 0 <= v0 < varmax && IsCombination(s, varmax, v0) && IsLast(s, varmax, v0)
    ensures forall t :: IsCombination(t, varmax, v0) && |t| == |s| ==> LexLessEq(t, s)
  {
    forall t | IsCombination(t, varmax, v0) && |t| == |s|
      ensures LexLessEq(t, s)
    {
      if t != s {
        CombinationBounds(t, varmax, v0);
        var p := FirstDifference(t, s);
        assert LexLessAt(t, s, p);
      }
    }
  }

  /** The rightmost position at or left of i that can still grow (-1 if none). */
  function Pivot(s: seq<int>, varmax: int, v0: int, i: int): (p: int)
    requires -1 <= i < |s|
    ensures -1 <= p <= i
    decreases i + 1
  {
    if i < 0 then -1
    else if s[i] < MaxAt(i, |s|, varmax, v0) then i
    else Pivot(s, varmax, v0, i - 1)
  }

  lemma {:induction false} PivotIsRightmost(s: seq<int>, varmax: int, v0: int, i: int)
    requires -1 <= i < |s|
    ensures var p := Pivot(s, varmax, v0, i);
      && (p >= 0 ==> s[p] < MaxAt(p, |s|, varmax, v0))
      && (forall k :: p < k <= i ==> s[k] >= MaxAt(k, |s|, varmax, v0))
    decreases i + 1
  {
    if i >= 0 && s[i] >= MaxAt(i, |s|, varmax, v0) {
      PivotIsRightmost(s, varmax, v0, i - 1);
    }
  }

  lemma {:induction false} PivotOf(s: seq<int>, varmax: int, v0: int, i: int, p: int)
    requires -1 <= p <= i < |s|
    requires p >= 0 ==> s[p] < MaxAt(p, |s|, varmax, v0)
    requires forall k :: p < k <= i ==> s[k] >= MaxAt(k, |s|, varmax, v0)
    ensures Pivot(s, varmax, v0, i) == p
    decreases i + 1
  {
    if i > p {
      PivotOf(s, varmax, v0, i - 1, p);
    }
  }

  /** Some position can still grow, so a successor exists. */
  predicate HasSuccessor(s: seq<int>, varmax: int, v0: int) {
    0 <= Pivot(s, varmax, v0, |s| - 1)
  }

  /**
   * The lexicographic successor of a combination that is not the last one:
   * keep everything left of the pivot, move the pivot to the next allowed
   * value and fill the rest with the allowed values that follow it.
   */
  function Successor(s: seq<int>, varmax: int, v0: int): (r: seq<int>)
    requires HasSuccessor(s, varmax, v0)
    ensures |r| == |s|
  {
    var p := Pivot(s, varmax, v0, |s| - 1);
    s[..p] + Climb(Rank(s[p], v0) + 1, |s| - p, v0)
  }

  /** A combination has a successor exactly when it is not the last one. */
  lemma HasSuccessorIffNotLast(s: seq<int>, varmax: int, v0: int)
    requires WithinBounds(s, varmax, v0)
    ensures HasSuccessor(s, varmax, v0) <==> !IsLast(s, varmax, v0)
  {
    PivotIsRightmost(s, varmax, v0, |s| - 1);
  }

  /** Successor keeps the prefix left of the pivot and climbs from there by single ranks. */
  lemma SuccessorShape(s: seq<int>, varmax: int, v0: int)
    requires HasSuccessor(s, varmax, v0)
    ensures var p := Pivot(s, varmax, v0, |s| - 1);
      var r := Successor(s, varmax, v0);
      && (forall k :: 0 <= k < p ==> r[k] == s[k])
      && (forall k :: p <= k < |s| ==> r[k] == Val(Rank(s[p], v0) + 1 + (k - p), v0))
  {
  }

  lemma SuccessorIsCombination(s: seq<int>, varmax: int, v0: int)
    requires 0 <= v0 < varmax && IsCombination(s, varmax, v0)
    requires HasSuccessor(s, varmax, v0)
    ensures IsCombination(Successor(s, varmax, v0), varmax, v0)
  {
    var n := |s|;
    var p := Pivot(s, varmax, v0, n - 1);
    var r := Successor(s, varmax, v0);
    var q := Rank(s[p], v0);
    PivotIsRightmost(s, varmax, v0, n - 1);
    SuccessorShape(s, varmax, v0);
    RankOfAllowed(s[p], v0);
    // s[p] < MaxAt(p) bounds every rank of the tail by varmax - 2
    assert q + 1 <= varmax - 1 - n + p;
    forall k | 0 <= k < n
      ensures Allowed(r[k], varmax, v0)
    {
      if k < p {
        assert r[k] == s[k];
      } else {
        assert r[k] == Val(q + 1 + (k - p), v0) && q + 1 + (k - p) <= varmax - 2;
      }
    }
    forall j, k | 0 <= j < k < n
      ensures r[j] < r[k]
    {
      if k < p {
        assert r[j] == s[j] && r[k] == s[k];
      } else if j < p {
        assert r[j] == s[j] < s[p] == Val(q, v0);
        assert r[k] == Val(q + 1 + (k - p), v0);
      } else {
        assert r[j] == Val(q + 1 + (j - p), v0) && r[k] == Val(q + 1 + (k - p), v0);
      }
    }
  }

  /**
   * A tuple that agrees with a combination t before position p and from
   * there climbs by single ranks, starting no higher than t[p], is t itself
   * or lexicographically below it.
   */
  lemma ClimbIsLeast(r: seq<int>, t: seq<int>, p: int, q: int, varmax: int, v0: int)
    requires 0 <= v0 < varmax && IsCombination(t, varmax, v0)
    requires |r| == |t| && 0 <= p < |t| && 0 <= q
    requires forall k :: 0 <= k < p ==> r[k] == t[k]
    requires forall k :: p <= k < |r| ==> r[k] == Val(q + (k - p), v0)
    requires Val(q, v0) <= t[p]
    ensures LexLessEq(r, t)
  {
    if t[p] > r[p] {
      assert LexLessAt(r, t, p);
    } else if r != t {
      var e := FirstDifference(r, t);
      RankOfAllowed(t[p], v0);
      RanksSpread(t, varmax, v0, p, e);
      RankOfAllowed(t[e], v0);
      assert LexLessAt(r, t, e);
    }
  }

  /** Right of the pivot, no combination of the same length exceeds s. */
  lemma NoGrowthRightOfPivot(s: seq<int>, varmax: int, v0: int, t: seq<int>, d: int)
    requires 0 <= v0 < varmax && IsCombination(t, varmax, v0) && |t| == |s|
    requires Pivot(s, varmax, v0, |s| - 1) < d < |s|
    ensures t[d] <= s[d]
  {
    PivotIsRightmost(s, varmax, v0, |s| - 1);
    CombinationBounds(t, varmax, v0);
  }

  /** No combination lies strictly between s and Successor(s). */
  lemma SuccessorIsLeastAbove(s: seq<int>, varmax: int, v0: int, t: seq<int>)
    requires 0 <= v0 < varmax && IsCombination(s, varmax, v0)
    requires HasSuccessor(s, varmax, v0)
    requires IsCombination(t, varmax, v0) && |t| == |s| && LexLess(s, t)
    ensures LexLessEq(Successor(s, varmax, v0), t)
  {
    var p := Pivot(s, varmax, v0, |s| - 1);
    var r := Successor(s, varmax, v0);
    var d :| LexLessAt(s, t, d);
    SuccessorShape(s, varmax, v0);
    if d < p {
      assert LexLessAt(r, t, d);
    } else if d > p {
      NoGrowthRightOfPivot(s, varmax, v0, t, d);
      assert false;
    } else {
      RankOfAllowed(s[p], v0);
      assert forall k :: 0 <= k < p ==> r[k] == s[k] == t[k];
      ClimbIsLeast(r, t, p, Rank(s[p], v0) + 1, varmax, v0);
    }
  }

  /**
   * Successor is the next combination in lexicographic order: it is a
   * combination, it is greater than s, and no combination lies strictly
   * between the two.
   */
  lemma SuccessorIsNext(s: seq<int>, varmax: int, v0: int)
    requires 0 <= v0 < varmax && IsCombination(s, varmax, v0) && !IsLast(s, varmax, v0)
    ensures HasSuccessor(s, varmax, v0)
    ensures IsCombination(Successor(s, varmax, v0), varmax, v0)
    ensures LexLess(s, Successor(s, varmax, v0))
    ensures forall t :: IsCombination(t, varmax, v0) && |t| == |s| && LexLess(s, t) ==>
              LexLessEq(Successor(s, varmax, v0), t)
  {
    CombinationWithinBounds(s, varmax, v0);
    HasSuccessorIffNotLast(s, varmax, v0);
    SuccessorIsCombination(s, varmax, v0);
    var p := Pivot(s, varmax, v0, |s| - 1);
    PivotIsRightmost(s, varmax, v0, |s| - 1);
    SuccessorShape(s, varmax, v0);
    RankOfAllowed(s[p], v0);
    assert LexLessAt(s, Successor(s, varmax, v0), p);
    forall t | IsCombination(t, varmax, v0) && |t| == |s| && LexLess(s, t)
      ensures LexLessEq(Successor(s, varmax, v0), t)
    {
      SuccessorIsLeastAbove(s, varmax, v0, t);
    }
  }

  /**
   * A tuple that keeps s left of its pivot and climbs by single ranks from
   * the value after s[pivot] is the successor of s.
   */
  lemma FilledIsSuccessor(s: seq<int>, r: seq<int>, varmax: int, v0: int, p: int)
    requires 0 <= p == Pivot(s, varmax, v0, |s| - 1) && |r| == |s|
    requires forall k :: 0 <= k < p ==> r[k] == s[k]
    requires forall k :: p <= k < |s| ==> r[k] == Val(Rank(s[p], v0) + 1 + (k - p), v0)
    ensures r == Successor(s, varmax, v0)
  {
    SuccessorShape(s, varmax, v0);
  }

  /** What next_array leaves behind when it reports that no tuple is left. */
  predicate BumpedFrom(r: seq<int>, s: seq<int>, v0: int) {
    |r| == |s| && forall k :: 0 <= k < |s| ==> r[k] == Bump(s[k], v0)
  }

  // ---------------------------------------------------------------------
  // A positional code, to show that the enumeration terminates

  function Pow(b: nat, e: nat): nat {
    if e == 0 then 1 else b * Pow(b, e - 1)
  }

  /** The tuple read as a base-b numeral, most significant position first. */
  function Code(s: seq<int>, b: nat): int {
    if |s| == 0 then 0 else s[0] * Pow(b, |s| - 1) + Code(s[1..], b)
  }

  lemma MulLe(x: int, y: int, m: nat)
    requires x <= y
    ensures x * m <= y * m
  {
    assert (y - x) * m >= 0;
  }

  lemma {:induction false} CodeBounds(s: seq<int>, b: nat)
    requires forall k :: 0 <= k < |s| ==> 0 <= s[k] < b
    ensures 0 <= Code(s, b) < Pow(b, |s|)
  {
    if |s| > 0 {
      CodeBounds(s[1..], b);
      var m := Pow(b, |s| - 1);
      MulLe(s[0], b - 1, m);
      MulLe(0, s[0], m);
      assert (b - 1) * m + m == b * m;
    }
  }

  /** A smaller leading digit wins whatever the lower digits are. */
  lemma HeadDominates(x: int, y: int, m: nat, cx: int, cy: int)
    requires x < y && 0 <= cx < m && 0 <= cy
    ensures x * m + cx < y * m + cy
  {
    MulLe(x + 1, y, m);
    assert (x + 1) * m == x * m + m;
  }

  /** Lexicographic order is numeric order of the codes. */
  lemma {:induction false} LexCode(s: seq<int>, t: seq<int>, b: nat, p: int)
    requires LexLessAt(s, t, p)
    requires forall k :: 0 <= k < |s| ==> 0 <= s[k] < b && 0 <= t[k] < b
    ensures Code(s, b) < Code(t, b)
    decreases p
  {
    var m := Pow(b, |s| - 1);
    assert Code(s, b) == s[0] * m + Code(s[1..], b);
    assert Code(t, b) == t[0] * m + Code(t[1..], b);
    if p == 0 {
      CodeBounds(s[1..], b);
      CodeBounds(t[1..], b);
      HeadDominates(s[0], t[0], m, Code(s[1..], b), Code(t[1..], b));
    } else {
      assert LexLessAt(s[1..], t[1..], p - 1);
      LexCode(s[1..], t[1..], b, p - 1);
    }
  }

  // ---------------------------------------------------------------------
  // The array code

  /**
   * init_array: write the `top` smallest allowed values into array[0..top),
   * in increasing order.
   */
  method InitArray(top: int, v0: int, a: array<int>)
    requires 0 <= top <= a.Length && 0 <= v0
    modifies a
    ensures a[..top] == Initial(top, v0)
    ensures a[top..] == old(a[top..])
  {
    var i, val := 0, 0;
    while i < top
      invariant 0 <= i <= top
      invariant val == if i > v0 then i + 1 else i
      invariant forall k :: 0 <= k < i ==> a[k] == Val(k, v0)
      invariant a[top..] == old(a[top..])
    {
      if val == v0 {
        val := val + 1;
      }
      a[i] := val;
      i, val := i + 1, val + 1;
    }
  }

  /**
   * The backward search of next_array: from the last position leftwards,
   * bump each entry past v0 until one stays within its position's maximum.
   * It stops at the pivot, or runs off the left end (-1) when every entry
   * was already at its maximum; the entries it passed over are left bumped.
   */
  method FindPivot(n: int, varmax: int, v0: int, a: array<int>) returns (i: int)
    requires 0 <= n <= a.Length && 0 <= v0 < varmax
    requires WithinBounds(a[..n], varmax, v0)
    modifies a
    ensures i == Pivot(old(a[..n]), varmax, v0, n - 1)
    ensures forall k :: 0 <= k < n ==> a[k] == if k < i then old(a[k]) else Bump(old(a[k]), v0)
    ensures a[n..] == old(a[n..])
  {
    ghost var s := a[..n];
    ghost var rest := a[n..];
    i := n - 1;
    var limit := varmax - 1;
    while true
      invariant -1 <= i < n
      invariant limit == if varmax - n + i >= v0 then varmax - n + i else varmax - 1 - n + i
      invariant forall k :: 0 <= k <= i ==> a[k] == s[k]
      invariant forall k :: i < k < n ==> s[k] == MaxAt(k, n, varmax, v0) && a[k] == Bump(s[k], v0)
      invariant a[n..] == rest
      decreases i + 1
    {
      if i < 0 {
        PivotOf(s, varmax, v0, n - 1, -1);
        return;
      }
      if limit == v0 {
        limit := limit - 1;
      }
      BumpWithin(s[i], varmax - 1 - n + i, v0);
      a[i] := a[i] + 1;
      if a[i] == v0 {
        a[i] := a[i] + 1;
      }
      if a[i] <= limit {
        PivotOf(s, varmax, v0, n - 1, i);
        return;
      }
      i, limit := i - 1, limit - 1;
    }
  }

  /**
   * The second loop of next_array: positions p+1 .. n-1 receive the allowed
   * values that follow the one just placed at the pivot p.
   */
  method FillAfterPivot(n: int, p: int, ghost q: int, v0: int, a: array<int>)
    requires 0 <= p < n <= a.Length && 0 <= q && 0 <= v0
    requires a[p] == Val(q, v0)
    modifies a
    ensures forall k :: p <= k < n ==> a[k] == Val(q + (k - p), v0)
    ensures a[..p] == old(a[..p]) && a[n..] == old(a[n..])
  {
    ghost var prefix, rest := a[..p], a[n..];
    var val := a[p] + 1;
    var i := p + 1;
    while i < n
      invariant p < i <= n
      invariant val == Val(q + (i - p) - 1, v0) + 1
      invariant a[..p] == prefix
      invariant forall k :: p <= k < i ==> a[k] == Val(q + (k - p), v0)
      invariant a[n..] == rest
    {
      BumpVal(q + (i - p) - 1, v0);
      if val == v0 {
        val := val + 1;
      }
      a[i] := val;
      i, val := i + 1, val + 1;
    }
  }

  /**
   * next_array: step a combination held in a[..n] to its lexicographic
   * successor and answer 1, or answer 0 when it was the last one.
   */
  method NextArray(n: int, varmax: int, v0: int, a: array<int>) returns (more: int)
    requires 0 <= n <= a.Length && 0 <= v0 < varmax
    requires WithinBounds(a[..n], varmax, v0)
    modifies a
    ensures more == 0 || more == 1
    ensures more == 0 <==> IsLast(old(a[..n]), varmax, v0)
    ensures more == 1 ==> HasSuccessor(old(a[..n]), varmax, v0)
                          && a[..n] == Successor(old(a[..n]), varmax, v0)
    ensures more == 0 ==> BumpedFrom(a[..n], old(a[..n]), v0)
    ensures a[n..] == old(a[n..])
  {
    ghost var s := a[..n];
    var i := FindPivot(n, varmax, v0, a);
    if i < 0 {
      HasSuccessorIffNotLast(s, varmax, v0);
      return 0;
    }
    assert a[..i] == s[..i];
    RankOfAllowed(s[i], v0);
    FillAfterPivot(n, i, Rank(s[i], v0) + 1, v0, a);
    assert forall k :: 0 <= k < i ==> a[..i][k] == a[k];
    FilledIsSuccessor(s, a[..n], varmax, v0, i);
    HasSuccessorIffNotLast(s, varmax, v0);
    more := 1;
  }

  // ---------------------------------------------------------------------
  // The enumeration driven by both timing programs

  /**
   * `visited` lists combinations of length n in strictly increasing order,
   * and misses none up to its last element.
   */
  ghost predicate Enumerated(visited: seq<seq<int>>, n: int, varmax: int, v0: int) {
    && |visited| > 0
    && (forall k :: 0 <= k < |visited| ==> IsCombination(visited[k], varmax, v0) && |visited[k]| == n)
    && (forall j, k :: 0 <= j < k < |visited| ==> LexLess(visited[j], visited[k]))
    && (forall t :: IsCombination(t, varmax, v0) && |t| == n && LexLessEq(t, visited[|visited| - 1]) ==> t in visited)
  }

  /** The first tuple alone is an enumeration. */
  lemma EnumerationStarts(n: nat, varmax: int, v0: int)
    requires 0 <= v0 < varmax && n < varmax
    ensures Enumerated([Initial(n, v0)], n, varmax, v0)
  {
    InitialIsLeast(n, varmax, v0);
    forall t | IsCombination(t, varmax, v0) && |t| == n && LexLessEq(t, Initial(n, v0))
      ensures t in [Initial(n, v0)]
    {
      if t != Initial(n, v0) {
        LexAsymmetric(t, Initial(n, v0));
      }
    }
  }

  /** Appending a tuple above every listed one keeps the list increasing. */
  lemma AppendKeepsOrder(visited: seq<seq<int>>, next: seq<int>)
    requires |visited| > 0
    requires forall j, k :: 0 <= j < k < |visited| ==> LexLess(visited[j], visited[k])
    requires LexLess(visited[|visited| - 1], next)
    ensures forall j, k :: 0 <= j < k < |visited| + 1 ==> LexLess((visited + [next])[j], (visited + [next])[k])
  {
    var vs := visited + [next];
    var last := visited[|visited| - 1];
    forall j, k | 0 <= j < k < |vs| ensures LexLess(vs[j], vs[k]) {
      if k == |vs| - 1 && j < |visited| - 1 {
        LexTransitive(visited[j], last, next);
      }
    }
  }

  /**
   * If nothing lies strictly between last and next, a list complete up to
   * last and extended by next is complete up to next.
   */
  lemma AppendKeepsComplete(visited: seq<seq<int>>, next: seq<int>, n: int, varmax: int, v0: int)
    requires |visited| > 0 && |next| == n
    requires forall t :: IsCombination(t, varmax, v0) && |t| == n && LexLessEq(t, visited[|visited| - 1]) ==> t in visited
    requires LexLess(visited[|visited| - 1], next)
    requires forall t :: IsCombination(t, varmax, v0) && |t| == n && LexLess(visited[|visited| - 1], t) ==> LexLessEq(next, t)
    ensures forall t :: IsCombination(t, varmax, v0) && |t| == n && LexLessEq(t, next) ==> t in visited + [next]
  {
    var last := visited[|visited| - 1];
    forall t | IsCombination(t, varmax, v0) && |t| == n && LexLessEq(t, next)
      ensures t in visited + [next]
    {
      if t != next && !LexLessEq(t, last) {
        LexTotal(t, last);
        LexAsymmetric(t, next);
      }
    }
  }

  /** Appending the next combination after the last one keeps an enumeration. */
  lemma AppendKeepsEnumerated(visited: seq<seq<int>>, next: seq<int>, n: int, varmax: int, v0: int)
    requires Enumerated(visited, n, varmax, v0)
    requires IsCombination(next, varmax, v0) && |next| == n
    requires LexLess(visited[|visited| - 1], next)
    requires forall t :: IsCombination(t, varmax, v0) && |t| == n && LexLess(visited[|visited| - 1], t) ==> LexLessEq(next, t)
    ensures Enumerated(visited + [next], n, varmax, v0)
  {
    var vs := visited + [next];
    AppendKeepsOrder(visited, next);
    AppendKeepsComplete(visited, next, n, varmax, v0);
    assert vs[|vs| - 1] == next;
    assert forall k :: 0 <= k < |visited| ==> vs[k] == visited[k];
  }

  /** Stepping to the successor strictly raises the code, which stays below its bound. */
  lemma SuccessorRaisesCode(s: seq<int>, varmax: int, v0: int)
    requires 0 <= v0 < varmax && IsCombination(s, varmax, v0) && !IsLast(s, varmax, v0)
    ensures HasSuccessor(s, varmax, v0)
    ensures IsCombination(Successor(s, varmax, v0), varmax, v0)
    ensures Code(s, varmax) < Code(Successor(s, varmax, v0), varmax) < Pow(varmax, |s|)
  {
    SuccessorIsNext(s, varmax, v0);
    var next := Successor(s, varmax, v0);
    var p :| LexLessAt(s, next, p);
    LexCode(s, next, varmax, p);
    CodeBounds(next, varmax);
  }

  /** Appending the successor of the last tuple keeps an enumeration. */
  lemma EnumerationSteps(visited: seq<seq<int>>, last: seq<int>, n: int, varmax: int, v0: int)
    requires 0 <= v0 < varmax && Enumerated(visited, n, varmax, v0)
    requires last == visited[|visited| - 1] && |last| == n && HasSuccessor(last, varmax, v0)
    ensures Enumerated(visited + [Successor(last, varmax, v0)], n, varmax, v0)
  {
    assert IsCombination(last, varmax, v0);
    CombinationWithinBounds(last, varmax, v0);
    HasSuccessorIffNotLast(last, varmax, v0);
    SuccessorIsNext(last, varmax, v0);
    AppendKeepsEnumerated(visited, Successor(last, varmax, v0), n, varmax, v0);
  }

  /**
   * The tuples the driver loop visits: init_array's tuple, then the
   * successor of each one in turn.
   */
  predicate IsRun(vs: seq<seq<int>>, n: nat, varmax: int, v0: int)
    decreases |vs|
  {
    if |vs| <= 1 then vs == [Initial(n, v0)]
    else
      && IsRun(vs[..|vs| - 1], n, varmax, v0)
      && HasSuccessor(vs[|vs| - 2], varmax, v0)
      && vs[|vs| - 1] == Successor(vs[|vs| - 2], varmax, v0)
  }

  /** A run extended by the successor of its last tuple is a run. */
  lemma RunExtends(vs: seq<seq<int>>, next: seq<int>, n: nat, varmax: int, v0: int)
    requires IsRun(vs, n, varmax, v0) && |vs| > 0
    requires HasSuccessor(vs[|vs| - 1], varmax, v0) && next == Successor(vs[|vs| - 1], varmax, v0)
    ensures IsRun(vs + [next], n, varmax, v0)
  {
    var w := vs + [next];
    assert w[..|w| - 1] == vs;
    assert w[|w| - 2] == vs[|vs| - 1];
  }

  /** One step of the driver keeps a run, and the code grows. */
  lemma RunSteps(vs: seq<seq<int>>, last: seq<int>, next: seq<int>, n: nat, varmax: int, v0: int)
    requires 0 <= v0 < varmax && IsRun(vs, n, varmax, v0) && last == vs[|vs| - 1]
    requires IsCombination(last, varmax, v0) && |last| == n
    requires HasSuccessor(last, varmax, v0) && next == Successor(last, varmax, v0)
    ensures IsRun(vs + [next], n, varmax, v0) && (vs + [next])[|vs|] == next
    ensures IsCombination(next, varmax, v0) && |next| == n
    ensures Code(last, varmax) < Code(next, varmax) < Pow(varmax, n)
  {
    RunExtends(vs, next, n, varmax, v0);
    CombinationWithinBounds(last, varmax, v0);
    HasSuccessorIffNotLast(last, varmax, v0);
    SuccessorRaisesCode(last, varmax, v0);
  }

  /** Every run is an enumeration: increasing, and complete up to its last tuple. */
  lemma {:induction false} RunIsEnumerated(vs: seq<seq<int>>, n: nat, varmax: int, v0: int)
    requires 0 <= v0 < varmax && n < varmax && IsRun(vs, n, varmax, v0)
    ensures Enumerated(vs, n, varmax, v0)
    decreases |vs|
  {
    if |vs| <= 1 {
      EnumerationStarts(n, varmax, v0);
    } else {
      var init := vs[..|vs| - 1];
      assert init + [vs[|vs| - 1]] == vs;
      var last := vs[|vs| - 2];
      assert init[|init| - 1] == last;
      RunIsEnumerated(init, n, varmax, v0);
      EnumerationSteps(init, last, n, varmax, v0);
    }
  }

  /** An enumeration that has reached the final tuple lists every combination. */
  lemma EnumerationEnds(visited: seq<seq<int>>, n: int, varmax: int, v0: int)
    requires 0 <= v0 < varmax && Enumerated(visited, n, varmax, v0)
    requires |visited[|visited| - 1]| == n && IsLast(visited[|visited| - 1], varmax, v0)
    ensures forall t :: IsCombination(t, varmax, v0) && |t| == n ==> t in visited
  {
    LastIsGreatest(visited[|visited| - 1], varmax, v0);
  }

  /**
   * The driver loop of both timing programs: start from init_array and
   * call next_array until it returns 0, recording every tuple produced.
   * Every combination is produced, each exactly once, in increasing order.
   */
  method Enumerate(n: int, varmax: int, v0: int) returns (visited: seq<seq<int>>)
    requires 0 <= n < varmax && 0 <= v0 < varmax
    ensures IsRun(visited, n, varmax, v0) && IsLast(visited[|visited| - 1], varmax, v0)
    ensures forall k :: 0 <= k < |visited| ==> IsCombination(visited[k], varmax, v0) && |visited[k]| == n
    ensures forall j, k :: 0 <= j < k < |visited| ==> LexLess(visited[j], visited[k])
    ensures forall t :: IsCombination(t, varmax, v0) && |t| == n ==> t in visited
  {
    var a := new int[n];
    InitArray(n, v0, a);
    InitialIsLeast(n, varmax, v0);
    visited := [a[..n]];
    ghost var last := a[..n];
    CombinationWithinBounds(last, varmax, v0);
    var more := NextArray(n, varmax, v0, a);
    while more == 1
      invariant IsRun(visited, n, varmax, v0) && last == visited[|visited| - 1]
      invariant IsCombination(last, varmax, v0) && |last| == n
      invariant more == 0 || more == 1
      invariant more == 0 <==> IsLast(last, varmax, v0)
      invariant more == 1 ==> HasSuccessor(last, varmax, v0) && a[..n] == Successor(last, varmax, v0)
      decreases Pow(varmax, n) - Code(last, varmax)
    {
      RunSteps(visited, last, a[..n], n, varmax, v0);
      visited := visited + [a[..n]];
      last := a[..n];
      CombinationWithinBounds(last, varmax, v0);
      more := NextArray(n, varmax, v0, a);
    }
    RunIsEnumerated(visited, n, varmax, v0);
    EnumerationEnds(visited, n, varmax, v0);
  }
}
