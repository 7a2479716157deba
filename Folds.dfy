/**
 * Folds over sequences of integers shared by the histogram, the statistics
 * builder and the aggregates: sums, and the running Math.min / Math.max that
 * start from Integer.MAX_VALUE / Integer.MIN_VALUE.
 */
module Folds {
  import opened Types

  // ---------------------------------------------------------------------------
  // Sums

  function Sum(s: seq<int>): int
  {
    if s == [] then 0 else Sum(s[..|s| - 1]) + s[|s| - 1]
  }

  predicate NonNegative(s: seq<int>) {
    forall i :: 0 <= i < |s| ==> s[i] >= 0
  }

  lemma {:induction false} SumAppend(s: seq<int>, t: seq<int>)
    ensures Sum(s + t) == Sum(s) + Sum(t)
  {
    if t == [] {
      assert s + t == s;
    } else {
      assert (s + t)[..|s + t| - 1] == s + t[..|t| - 1];
      SumAppend(s, t[..|t| - 1]);
    }
  }

  /** The bins below i, bin i and the bins above i make up the whole. */
  lemma SumAround(s: seq<int>, i: int)
    requires 0 <= i < |s|
    ensures Sum(s) == Sum(s[..i]) + s[i] + Sum(s[i + 1..])
  {
    var a, b := s[..i], s[i + 1..];
    assert s == (a + [s[i]]) + b;
    SumAppend(a + [s[i]], b);
    SumAppend(a, [s[i]]);
    assert Sum([s[i]]) == s[i] by {
      assert [s[i]][..0] == [];
    }
  }

  lemma SumIncrement(s: seq<int>, i: int)
    requires 0 <= i < |s|
    ensures Sum(s[i := s[i] + 1]) == Sum(s) + 1
  {
    var t := s[i := s[i] + 1];
    SumAround(s, i);
    SumAround(t, i);
    assert t[..i] == s[..i] && t[i + 1..] == s[i + 1..];
  }

  /** Extending a slice by one element on the right adds that element. */
  lemma SumExtend(s: seq<int>, lo: int, hi: int)
    requires 0 <= lo <= hi < |s|
    ensures Sum(s[lo..hi + 1]) == Sum(s[lo..hi]) + s[hi]
  {
    assert s[lo..hi + 1][..hi - lo] == s[lo..hi];
  }

  lemma {:induction false} SumNonNegative(s: seq<int>)
    requires NonNegative(s)
    ensures Sum(s) >= 0
  {
    if s != [] {
      SumNonNegative(s[..|s| - 1]);
    }
  }

  lemma {:induction false} SumZeros(n: nat)
    ensures Sum(seq(n, _ => 0)) == 0
  {
    if n > 0 {
      assert seq(n, _ => 0)[..n - 1] == seq(n - 1, _ => 0);
      SumZeros(n - 1);
    }
  }

  // ---------------------------------------------------------------------------
  // Running minimum and maximum

  function Min(a: int, b: int): int { if a <= b then a else b }
  function Max(a: int, b: int): int { if a >= b then a else b }

  /** Math.min folded over the values, starting from Integer.MAX_VALUE. */
  function MinFrom(vals: seq<int>): int {
    if vals == [] then IntMax else Min(MinFrom(vals[..|vals| - 1]), vals[|vals| - 1])
  }

  /** Math.max folded over the values, starting from Integer.MIN_VALUE. */
  function MaxFrom(vals: seq<int>): int {
    if vals == [] then IntMin else Max(MaxFrom(vals[..|vals| - 1]), vals[|vals| - 1])
  }

  predicate AllJavaInts(vals: seq<int>) {
    forall k :: 0 <= k < |vals| ==> IsJavaInt(vals[k])
  }

  /** The folded minimum is at most, and the folded maximum at least, every value. */
  lemma {:induction false} BoundsHold(vals: seq<int>)
    ensures forall k :: 0 <= k < |vals| ==> MinFrom(vals) <= vals[k] <= MaxFrom(vals)
  {
    if vals != [] {
      var init := vals[..|vals| - 1];
      BoundsHold(init);
      assert forall k :: 0 <= k < |init| ==> vals[k] == init[k];
    }
  }

  /** On Java ints, a non-empty sequence attains both bounds; an empty one keeps the start values. */
  lemma {:induction false} BoundsAttained(vals: seq<int>)
    requires AllJavaInts(vals)
    ensures vals == [] ==> MinFrom(vals) == IntMax && MaxFrom(vals) == IntMin
    ensures vals != [] ==> MinFrom(vals) in vals && MaxFrom(vals) in vals
  {
    if vals != [] {
      var init := vals[..|vals| - 1];
      BoundsAttained(init);
      assert forall k :: 0 <= k < |init| ==> vals[k] == init[k];
      if init != [] {
        assert MinFrom(init) in vals && MaxFrom(init) in vals;
      }
    }
  }

  // ---------------------------------------------------------------------------
  // Integer division and cancellation

  lemma FloorDivision(x: nat, b: int)
    requires b > 0
    ensures 0 <= (x / b) * b <= x < (x / b) * b + b
  {
  }

  lemma CancelLe(x: int, y: int, n: int)
    requires n > 0 && x * n <= y * n
    ensures x <= y
  {
    assert (y - x) * n == y * n - x * n;
  }

  lemma CancelLt(x: int, y: int, n: int)
    requires n > 0 && x * n < y * n
    ensures x < y
  {
    assert (y - x) * n == y * n - x * n;
  }
}
