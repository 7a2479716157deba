/**
 * An equi-width histogram over one integer column: `buckets` bins splitting the
 * closed domain [min, max] into slices of real width (max - min + 1) / buckets,
 * and the closed-form selectivity estimates computed from the bins.
 *
 * Widths and selectivities are exact reals; the bucket of a value is the
 * integer quotient ((v - min) * buckets) / (max - min + 1), which
 * BucketIndexIsFloor shows to be floor((v - min) / width).
 */
module Histogram {
  import opened Types
  import opened Folds

  /** The comparison operators a selectivity can be asked for (Predicate.Op). */
  datatype Op = Equals | GreaterThan | LessThan | LessThanOrEq | GreaterThanOrEq | Like | NotEquals

  /**
   * Why an estimate has no value: an operator with no rule (the source throws
   * UnsupportedOperationException), or the 0/0 of a histogram holding no values
   * asked about a value inside its range (NaN in the source).
   */
  datatype EstimateError = UnsupportedOperator | NoTuples

  type Estimate = Result<real, EstimateError>

  // ---------------------------------------------------------------------------
  // Bucket arithmetic

  lemma ScaledIndexBound(a: int, d: int, b: int)
    requires 0 <= a < d && b > 0
    ensures 0 <= a * b / d < b
  {
    var n := a * b;
    assert 0 <= n by {
      assert a * b >= 0 * b;
    }
    assert n < b * d by {
      assert b * d - a * b == (d - a) * b;
      assert (d - a) * b > 0;
    }
    var q := n / d;
    FloorDivision(n, d);
    CancelLe(0, q, d);
    CancelLt(q, b, d);
  }

  /** The bucket holding v: floor((v - min) / width), written in integer arithmetic. */
  function BucketIndex(v: int, min: int, max: int, buckets: nat): (r: nat)
    requires min <= v <= max && buckets > 0
    ensures r < buckets
  {
    ScaledIndexBound(v - min, max - min + 1, buckets);
    ((v - min) * buckets) / (max - min + 1)
  }

  function WidthOf(min: int, max: int, buckets: nat): real
    requires buckets > 0
  {
    (max - min + 1) as real / buckets as real
  }

  lemma WidthPositive(min: int, max: int, buckets: nat)
    requires min <= max && buckets > 0
    ensures WidthOf(min, max, buckets) > 0.0
  {
  }

  /**
   * Bucket i covers [min + i * width, min + (i + 1) * width): the bucket index
   * of v is the floor of (v - min) / width, and v lies between that bucket's
   * left and right edges.
   */
  lemma BucketIndexIsFloor(v: int, min: int, max: int, buckets: nat)
    requires min <= v <= max && buckets > 0
    ensures var w := WidthOf(min, max, buckets);
            var i := BucketIndex(v, min, max, buckets);
            && w > 0.0
            && i as real * w + min as real <= v as real < (i + 1) as real * w + min as real
            && i as real <= (v - min) as real / w < (i + 1) as real
  {
    var w := WidthOf(min, max, buckets);
    var i := BucketIndex(v, min, max, buckets);
    EdgeBounds((v - min) * buckets, max - min + 1, buckets, v - min);
    DivBounds(i as real, (v - min) as real, w);
  }

  /** With i = n / d and n = x * b: i * (d / b) <= x < (i + 1) * (d / b), in exact arithmetic. */
  lemma EdgeBounds(n: int, d: int, b: int, x: int)
    requires d > 0 && b > 0 && n == x * b && 0 <= x
    ensures var i := n / d;
            var w := d as real / b as real;
            i as real * w <= x as real < (i + 1) as real * w
  {
    var i := n / d;
    var w := d as real / b as real;
    assert i * d <= n < (i + 1) * d;
    assert (i * d) as real <= n as real;
    assert n as real < ((i + 1) * d) as real;
    assert i as real * w == (i * d) as real / b as real;
    assert (i + 1) as real * w == ((i + 1) * d) as real / b as real;
    assert x as real == n as real / b as real;
  }

  lemma MulCancel(x: real, y: real, w: real)
    requires w > 0.0
    ensures x * w <= y * w ==> x <= y
    ensures x * w < y * w ==> x < y
  {
  }

  lemma DivBounds(i: real, x: real, w: real)
    requires w > 0.0 && i * w <= x < (i + 1.0) * w
    ensures i <= x / w < i + 1.0
  {
    assert x / w * w == x;
    MulCancel(i, x / w, w);
    MulCancel(x / w, i + 1.0, w);
  }

  // ---------------------------------------------------------------------------
  // The bins as a function of the values added

  predicate InRange(vals: seq<int>, min: int, max: int) {
    forall i :: 0 <= i < |vals| ==> min <= vals[i] <= max
  }

  /** The bins after adding `vals` one by one to empty bins. */
  function BinsOf(vals: seq<int>, min: int, max: int, buckets: nat): (r: seq<int>)
    requires buckets > 0 && InRange(vals, min, max)
    ensures |r| == buckets
  {
    if vals == [] then seq(buckets, _ => 0)
    else
      var prev := BinsOf(vals[..|vals| - 1], min, max, buckets);
      var i := BucketIndex(vals[|vals| - 1], min, max, buckets);
      prev[i := prev[i] + 1]
  }

  /** Every bin is a count, and the bins together count every value added once. */
  lemma {:induction false} BinsCountValues(vals: seq<int>, min: int, max: int, buckets: nat)
    requires buckets > 0 && InRange(vals, min, max)
    ensures NonNegative(BinsOf(vals, min, max, buckets))
    ensures Sum(BinsOf(vals, min, max, buckets)) == |vals|
  {
    if vals == [] {
      SumZeros(buckets);
    } else {
      var init := vals[..|vals| - 1];
      BinsCountValues(init, min, max, buckets);
      var prev := BinsOf(init, min, max, buckets);
      var i := BucketIndex(vals[|vals| - 1], min, max, buckets);
      SumIncrement(prev, i);
    }
  }

  function Distinct(vals: seq<int>): set<int> {
    set x | x in vals
  }

  /** There are at most as many distinct values as values, and at least one if any. */
  lemma {:induction false} DistinctBound(vals: seq<int>)
    ensures |Distinct(vals)| <= |vals|
    ensures vals != [] ==> |Distinct(vals)| >= 1
  {
    if vals != [] {
      var init := vals[..|vals| - 1];
      var x := vals[|vals| - 1];
      DistinctBound(init);
      assert Distinct(vals) == Distinct(init) + {x};
      assert x in Distinct(vals);
    }
  }

  // ---------------------------------------------------------------------------
  // Selectivity estimates over the histogram's state

  /** The fields of a histogram the estimates read. */
  datatype Snapshot = Snapshot(bins: seq<int>, min: int, max: int, ntups: int)

  function Width(h: Snapshot): real
    requires |h.bins| > 0
  {
    WidthOf(h.min, h.max, |h.bins|)
  }

  /** Bins that are counts summing to the number of values. */
  predicate Wf(h: Snapshot) {
    |h.bins| > 0 && NonNegative(h.bins) && Sum(h.bins) == h.ntups
  }

  /** estimateEqual: 0 outside [min, max], else the per-unit density of v's bucket. */
  function EqualEstimate(h: Snapshot, v: int): Estimate
    requires |h.bins| > 0
  {
    if v > h.max || v < h.min then Ok(0.0)
    else if h.ntups == 0 then Err(NoTuples)
    else
      BucketIndexIsFloor(v, h.min, h.max, |h.bins|);
      Ok(h.bins[BucketIndex(v, h.min, h.max, |h.bins|)] as real / Width(h) / h.ntups as real)
  }

  /**
   * estimateGreaterThan: 0 from max upwards, 1 below min; otherwise the share of
   * v's bucket lying right of v plus the share of the buckets above it.
   */
  function GreaterThanEstimate(h: Snapshot, v: int): Estimate
    requires |h.bins| > 0
  {
    if v >= h.max then Ok(0.0)
    else if v < h.min then Ok(1.0)
    else if h.ntups == 0 then Err(NoTuples)
    else
      WidthPositive(h.min, h.max, |h.bins|);
      var idx := BucketIndex(v, h.min, h.max, |h.bins|);
      Ok(Share(h.bins[idx], h.ntups, RightPart(idx, Width(h), h.min, v), Sum(h.bins[idx + 1..])))
  }

  /**
   * estimateLessThan: 1 above max, 0 from min downwards; otherwise the share of
   * v's bucket lying left of v plus the share of the buckets below it.
   */
  function LessThanEstimate(h: Snapshot, v: int): Estimate
    requires |h.bins| > 0
  {
    if v > h.max then Ok(1.0)
    else if v <= h.min then Ok(0.0)
    else if h.ntups == 0 then Err(NoTuples)
    else
      WidthPositive(h.min, h.max, |h.bins|);
      var idx := BucketIndex(v, h.min, h.max, |h.bins|);
      Ok(Share(h.bins[idx], h.ntups, LeftPart(idx, Width(h), h.min, v), Sum(h.bins[..idx])))
  }

  /** The part of bucket idx (left edge min + idx * w, width w) lying right of v. */
  function RightPart(idx: nat, w: real, min: int, v: int): real
    requires w > 0.0
  {
    ((idx + 1) as real * w + min as real - v as real) / w
  }

  /** The part of bucket idx (left edge min + idx * w, width w) lying left of v. */
  function LeftPart(idx: nat, w: real, min: int, v: int): real
    requires w > 0.0
  {
    (v as real - (idx as real * w + min as real)) / w
  }

  /**
   * The fraction of the values selected: the part `part` of v's bucket (holding
   * `binCount` values) plus the `rest` values of the buckets wholly selected.
   */
  function Share(binCount: int, ntups: int, part: real, rest: int): real
    requires ntups != 0
  {
    binCount as real / ntups as real * part + rest as real / ntups as real
  }

  /** a + b, where a missing value (NaN) on either side leaves no value. */
  function Plus(a: Estimate, b: Estimate): Estimate {
    if a.Err? then a else if b.Err? then b else Ok(a.value + b.value)
  }

  function OneMinus(a: Estimate): Estimate {
    if a.Err? then a else Ok(1.0 - a.value)
  }

  /** estimateSelectivity: each operator's rule, the compound ones built from the three basic ones. */
  function Selectivity(h: Snapshot, op: Op, v: int): Estimate
    requires |h.bins| > 0
  {
    match op
    case Equals => EqualEstimate(h, v)
    case LessThan => LessThanEstimate(h, v)
    case GreaterThan => GreaterThanEstimate(h, v)
    case LessThanOrEq => Plus(LessThanEstimate(h, v), EqualEstimate(h, v))
    case GreaterThanOrEq => Plus(GreaterThanEstimate(h, v), EqualEstimate(h, v))
    case NotEquals => OneMinus(EqualEstimate(h, v))
    case Like => Err(UnsupportedOperator)
  }

  /** avgSelectivity: 1 / (number of distinct values added); None where the source divides by zero. */
  function AvgSelectivityOf(distinct: nat): (r: Option<real>)
    ensures r.Some? <==> distinct > 0
    ensures r.Some? ==> 0.0 < r.value <= 1.0 && r.value * distinct as real == 1.0
  {
    if distinct == 0 then None else Some(1.0 / distinct as real)
  }

  // ---------------------------------------------------------------------------
  // The histogram object

  class IntHistogram {
    const buckets: nat
    const min: int
    const max: int
    const width: real
    const bins: array<int>
    var ntups: int
    var uniqueValue: set<int>
    /** Every value added so far, in order. */
    ghost var Values: seq<int>

    ghost predicate Valid()
      reads this, bins
    {
      && buckets > 0
      && bins.Length == buckets
      && width == WidthOf(min, max, buckets)
      && InRange(Values, min, max)
      && bins[..] == BinsOf(Values, min, max, buckets)
      && ntups == |Values|
      && uniqueValue == Distinct(Values)
    }

    function State(): (s: Snapshot)
      reads this, bins
    {
      Snapshot(bins[..], min, max, ntups)
    }

    /** A new histogram: `buckets` empty bins over [min, max]. */
    constructor (buckets: nat, min: int, max: int)
      requires buckets > 0
      ensures Valid() && fresh(bins)
      ensures this.buckets == buckets && this.min == min && this.max == max
      ensures width == (max - min + 1) as real / buckets as real
      ensures bins[..] == seq(buckets, _ => 0) && ntups == 0
      ensures Values == [] && uniqueValue == {}
    {
      this.min := min;
      this.max := max;
      this.buckets := buckets;
      bins := new int[buckets](_ => 0);
      ntups := 0;
      width := (max - min + 1) as real / buckets as real;
      uniqueValue := {};
      Values := [];
    }

    /** addValue: one more count in v's bucket; every other bin is unchanged. */
    method AddValue(v: int)
      requires Valid() && min <= v <= max
      modifies this, bins
      ensures Valid()
      ensures Values == old(Values) + [v]
      ensures var i := BucketIndex(v, min, max, buckets);
              bins[..] == old(bins[..])[i := old(bins[i]) + 1]
      ensures ntups == old(ntups) + 1 && uniqueValue == old(uniqueValue) + {v}
    {
      var idx := BucketIndex(v, min, max, buckets);
      bins[idx] := bins[idx] + 1;
      ntups := ntups + 1;
      uniqueValue := uniqueValue + {v};
      Values := Values + [v];
      assert Values[..|Values| - 1] == old(Values);
    }

    /** getIndex: the bucket of v, and no bucket for a value outside [min, max]. */
    function GetIndex(v: int): (r: Option<nat>)
      requires buckets > 0
      ensures r.Some? <==> min <= v <= max
      ensures r.Some? ==> r.value < buckets
      ensures r.Some? ==> r.value as real <= (v - min) as real / WidthOf(min, max, buckets) < (r.value + 1) as real
    {
      if v > max || v < min then None
      else
        BucketIndexIsFloor(v, min, max, buckets);
        Some(BucketIndex(v, min, max, buckets))
    }

    method EstimateGreaterThan(v: int) returns (r: Estimate)
      requires Valid()
      ensures r == GreaterThanEstimate(State(), v)
    {
      if v >= max {
        return Ok(0.0);
      }
      if v < min {
        return Ok(1.0);
      }
      if ntups == 0 {
        return Err(NoTuples);
      }
      var idx := GetIndex(v).value;
      ghost var h := State();
      WidthPositive(min, max, buckets);
      var bPart := RightPart(idx, width, min, v);
      var ntupsGreater := 0;
      for i := idx + 1 to buckets
        invariant ntupsGreater == Sum(bins[..][idx + 1..i])
      {
        SumExtend(bins[..], idx + 1, i);
        ntupsGreater := ntupsGreater + bins[i];
      }
      assert bins[..][idx + 1..buckets] == h.bins[idx + 1..];
      r := Ok(Share(bins[idx], ntups, bPart, ntupsGreater));
    }

    method EstimateLessThan(v: int) returns (r: Estimate)
      requires Valid()
      ensures r == LessThanEstimate(State(), v)
    {
      if v > max {
        return Ok(1.0);
      }
      if v <= min {
        return Ok(0.0);
      }
      if ntups == 0 {
        return Err(NoTuples);
      }
      var idx := GetIndex(v).value;
      ghost var h := State();
      WidthPositive(min, max, buckets);
      var bPart := LeftPart(idx, width, min, v);
      var ntupsLess := 0;
      for i := 0 to idx
        invariant ntupsLess == Sum(bins[..][0..i])
      {
        SumExtend(bins[..], 0, i);
        ntupsLess := ntupsLess + bins[i];
      }
      assert bins[..][0..idx] == h.bins[..idx];
      r := Ok(Share(bins[idx], ntups, bPart, ntupsLess));
    }

    /** estimateSelectivity, dispatching on the operator. */
    method EstimateSelectivity(op: Op, v: int) returns (r: Estimate)
      requires Valid()
      ensures r == Selectivity(State(), op, v)
    {
      match op {
        case Equals =>
          r := EqualEstimate(State(), v);
        case LessThan =>
          r := EstimateLessThan(v);
        case GreaterThan =>
          r := EstimateGreaterThan(v);
        case LessThanOrEq =>
          var lt := EstimateLessThan(v);
          r := Plus(lt, EqualEstimate(State(), v));
        case GreaterThanOrEq =>
          var gt := EstimateGreaterThan(v);
          r := Plus(gt, EqualEstimate(State(), v));
        case NotEquals =>
          r := OneMinus(EqualEstimate(State(), v));
        case Like =>
          r := Err(UnsupportedOperator);
      }
    }

    /** avgSelectivity: the reciprocal of the number of distinct values, never below 1 / ntups. */
    function AvgSelectivity(): (r: Option<real>)
      reads this, bins
      requires Valid()
      ensures r.Some? <==> ntups > 0
      ensures r.Some? ==> 1.0 / ntups as real <= r.value <= 1.0
    {
      DistinctBound(Values);
      var r := AvgSelectivityOf(|uniqueValue|);
      if r.Some? then
        ReciprocalAntitone(|uniqueValue|, ntups);
        r
      else r
    }
  }

  lemma ReciprocalAntitone(a: nat, b: nat)
    requires 0 < a <= b
    ensures 1.0 / b as real <= 1.0 / a as real
  {
    assert 1.0 / b as real == (1.0 / a as real) * (a as real / b as real);
    assert a as real / b as real <= 1.0;
  }

  /** The histogram's state satisfies the bin invariant sum(bins) == ntups. */
  lemma ValidStateIsWf(h: IntHistogram)
    requires h.Valid()
    ensures Wf(h.State()) && |h.State().bins| == h.buckets
  {
    BinsCountValues(h.Values, h.min, h.max, h.buckets);
  }

  // ---------------------------------------------------------------------------
  // Properties of the estimates

  /** x / w lies in [0, 1] when 0 <= x <= w, and is 1 exactly at x == w. */
  lemma UnitFraction(x: real, w: real)
    requires 0.0 <= x <= w && w > 0.0
    ensures 0.0 <= x / w <= 1.0
    ensures x < w ==> x / w < 1.0
    ensures x > 0.0 ==> x / w > 0.0
  {
    assert x / w * w == x;
    MulCancel(x / w, 1.0, w);
  }

  /** Cutting a width w into a left and a right piece gives fractions adding to 1. */
  lemma SplitWhole(left: real, right: real, w: real)
    requires w > 0.0 && 0.0 <= left && 0.0 < right && left + right == w
    ensures 0.0 < right / w <= 1.0 && 0.0 <= left / w < 1.0
    ensures left / w + right / w == 1.0
  {
    UnitFraction(right, w);
    UnitFraction(left, w);
    assert left / w + right / w == (left + right) / w;
    assert (left + right) / w == w / w == 1.0;
  }

  /**
   * Inside [min, max] the part of v's bucket right of v is in (0, 1], the part
   * left of v is in [0, 1), and the two make up the whole bucket.
   */
  lemma PartsOfBucket(v: int, min: int, max: int, buckets: nat)
    requires min <= v <= max && buckets > 0
    ensures var w := WidthOf(min, max, buckets);
            var i := BucketIndex(v, min, max, buckets);
            && w > 0.0
            && 0.0 < RightPart(i, w, min, v) <= 1.0
            && 0.0 <= LeftPart(i, w, min, v) < 1.0
            && LeftPart(i, w, min, v) + RightPart(i, w, min, v) == 1.0
  {
    BucketIndexIsFloor(v, min, max, buckets);
    BucketParts(BucketIndex(v, min, max, buckets), WidthOf(min, max, buckets), min, v);
  }

  /** The parts of bucket i right and left of a value v inside it. */
  lemma BucketParts(i: nat, w: real, min: int, v: int)
    requires w > 0.0 && i as real * w + min as real <= v as real < (i + 1) as real * w + min as real
    ensures 0.0 < RightPart(i, w, min, v) <= 1.0
    ensures 0.0 <= LeftPart(i, w, min, v) < 1.0
    ensures LeftPart(i, w, min, v) + RightPart(i, w, min, v) == 1.0
  {
    assert (i + 1) as real == i as real + 1.0;
    EdgeParts(i as real, w, min as real, v as real);
  }

  lemma EdgeParts(i: real, w: real, lo: real, v: real)
    requires w > 0.0 && i * w + lo <= v < (i + 1.0) * w + lo
    ensures 0.0 < ((i + 1.0) * w + lo - v) / w <= 1.0
    ensures 0.0 <= (v - (i * w + lo)) / w < 1.0
    ensures (v - (i * w + lo)) / w + ((i + 1.0) * w + lo - v) / w == 1.0
  {
    var right := (i + 1.0) * w + lo - v;
    var left := v - (i * w + lo);
    assert (i + 1.0) * w == i * w + w;
    SplitWhole(left, right, w);
  }

  /** A share of part of one bucket plus other buckets, all within ntups, is a fraction. */
  lemma ShareIsFraction(binCount: int, ntups: int, part: real, rest: int)
    requires ntups > 0 && binCount >= 0 && rest >= 0 && binCount + rest <= ntups
    requires 0.0 <= part <= 1.0
    ensures 0.0 <= Share(binCount, ntups, part, rest) <= 1.0
  {
    var n, b, r := ntups as real, binCount as real, rest as real;
    UnitFraction(b, n);
    UnitFraction(r, n);
    AddFractions(b, r, n);
    UnitFraction(b + r, n);
    ScaledSumWithin(b / n, part, r / n);
  }

  /** z * part + y stays in [0, 1] when z, y and z + y do and part is a fraction. */
  lemma ScaledSumWithin(z: real, part: real, y: real)
    requires 0.0 <= z && 0.0 <= y && z + y <= 1.0 && 0.0 <= part <= 1.0
    ensures 0.0 <= z * part + y <= 1.0
  {
    ScaleDown(z, part);
  }

  lemma AddFractions(a: real, b: real, n: real)
    requires n > 0.0
    ensures a / n + b / n == (a + b) / n
  {
  }

  lemma ScaleDown(f: real, p: real)
    requires 0.0 <= f && 0.0 <= p <= 1.0
    ensures 0.0 <= f * p <= f
  {
    assert f - f * p == f * (1.0 - p);
  }

  /** Complementary parts of one bucket plus the buckets on either side make up all ntups. */
  lemma ShareComplement(b: real, below: real, above: real, n: real, lp: real, rp: real)
    requires n > 0.0 && b + below + above == n && lp + rp == 1.0
    ensures (b / n * lp + below / n) + (b / n * rp + above / n) == 1.0
  {
    assert b / n * lp + b / n * rp == b / n * (lp + rp) == b / n;
    assert b / n + below / n + above / n == (b + below + above) / n;
    assert n / n == 1.0;
  }

  /** Bin idx and the bins on either side of it count every value once. */
  lemma BinSplit(h: Snapshot, idx: nat)
    requires Wf(h) && idx < |h.bins|
    ensures h.bins[idx] >= 0 && Sum(h.bins[..idx]) >= 0 && Sum(h.bins[idx + 1..]) >= 0
    ensures Sum(h.bins[..idx]) + h.bins[idx] + Sum(h.bins[idx + 1..]) == h.ntups
  {
    SumAround(h.bins, idx);
    SumNonNegative(h.bins[..idx]);
    SumNonNegative(h.bins[idx + 1..]);
  }

  /** With values present, the greater-than and less-than estimates are fractions. */
  lemma RangeEstimatesAreFractions(h: Snapshot, v: int)
    requires Wf(h) && h.ntups > 0
    ensures GreaterThanEstimate(h, v).Ok? && 0.0 <= GreaterThanEstimate(h, v).value <= 1.0
    ensures LessThanEstimate(h, v).Ok? && 0.0 <= LessThanEstimate(h, v).value <= 1.0
  {
    if h.min <= v <= h.max {
      var idx := BucketIndex(v, h.min, h.max, |h.bins|);
      PartsOfBucket(v, h.min, h.max, |h.bins|);
      BinSplit(h, idx);
      if v < h.max {
        ShareIsFraction(h.bins[idx], h.ntups, RightPart(idx, Width(h), h.min, v), Sum(h.bins[idx + 1..]));
      }
      if v > h.min {
        ShareIsFraction(h.bins[idx], h.ntups, LeftPart(idx, Width(h), h.min, v), Sum(h.bins[..idx]));
      }
    }
  }

  /** With values present, the equality estimate is non-negative, and at most 1 when a bucket is at least one unit wide. */
  lemma EqualEstimateBounds(h: Snapshot, v: int)
    requires Wf(h) && h.ntups > 0
    ensures EqualEstimate(h, v).Ok? && EqualEstimate(h, v).value >= 0.0
    ensures Width(h) >= 1.0 ==> EqualEstimate(h, v).value <= 1.0
  {
    if h.min <= v <= h.max {
      var idx := BucketIndex(v, h.min, h.max, |h.bins|);
      WidthPositive(h.min, h.max, |h.bins|);
      BinSplit(h, idx);
      Density(h.bins[idx] as real, h.ntups as real, Width(h));
    }
  }

  lemma NonNegQuot(x: real, w: real)
    requires 0.0 <= x && w > 0.0
    ensures 0.0 <= x / w
  {
    assert x / w * w == x;
    MulCancel(x / w, 0.0, w);
  }

  /** b / w / n is non-negative, and at most 1 when w >= 1. */
  lemma Density(b: real, n: real, w: real)
    requires n > 0.0 && 0.0 <= b <= n && w > 0.0
    ensures 0.0 <= b / w / n
    ensures w >= 1.0 ==> b / w / n <= 1.0
  {
    UnitFraction(b, n);
    assert b / w / n == (b / n) / w;
    NonNegQuot(b / n, w);
    if w >= 1.0 {
      UnitFraction(b / n, w);
    }
  }

  /**
   * Buckets narrower than one value: with min == max == 0 and two buckets, one
   * added value 0 gives an equality estimate of 2.
   */
  lemma EqualEstimateCanExceedOne()
    ensures var h := Snapshot(BinsOf([0], 0, 0, 2), 0, 0, 1);
            Wf(h) && EqualEstimate(h, 0) == Ok(2.0)
  {
    var h := Snapshot(BinsOf([0], 0, 0, 2), 0, 0, 1);
    assert BinsOf([0], 0, 0, 2) == [1, 0] by {
      assert [0][..0] == [];
    }
    assert Sum([1, 0]) == 1 by {
      assert [1, 0][..1] == [1];
      assert [1][..0] == [];
    }
  }

  /** v's bucket split at v, plus the buckets on either side, accounts for every tuple once. */
  lemma ComplementaryShares(h: Snapshot, v: int)
    requires Wf(h) && h.ntups > 0 && h.min <= v <= h.max
    ensures var idx, w := BucketIndex(v, h.min, h.max, |h.bins|), Width(h);
            && w > 0.0
            && Share(h.bins[idx], h.ntups, LeftPart(idx, w, h.min, v), Sum(h.bins[..idx]))
               + Share(h.bins[idx], h.ntups, RightPart(idx, w, h.min, v), Sum(h.bins[idx + 1..])) == 1.0
  {
    var idx, w := BucketIndex(v, h.min, h.max, |h.bins|), Width(h);
    PartsOfBucket(v, h.min, h.max, |h.bins|);
    var lp, rp := LeftPart(idx, w, h.min, v), RightPart(idx, w, h.min, v);
    var below, above := Sum(h.bins[..idx]), Sum(h.bins[idx + 1..]);
    BinSplit(h, idx);
    ShareComplement(h.bins[idx] as real, below as real, above as real, h.ntups as real, lp, rp);
  }

  /** At v == min nothing of v's bucket lies left of v. */
  lemma NothingLeftOfMin(h: Snapshot)
    requires Wf(h) && h.ntups > 0 && h.min <= h.max
    ensures var idx, w := BucketIndex(h.min, h.min, h.max, |h.bins|), Width(h);
            && idx == 0 && w > 0.0
            && Share(h.bins[idx], h.ntups, LeftPart(idx, w, h.min, h.min), Sum(h.bins[..idx])) == 0.0
  {
    var w := Width(h);
    WidthPositive(h.min, h.max, |h.bins|);
    assert LeftPart(0, w, h.min, h.min) == 0.0 / w == 0.0;
    assert h.bins[..0] == [];
  }

  /**
   * Strictly below and strictly above v together select everything when v is in
   * [min, max): the two parts of v's bucket add to the whole bucket.
   */
  lemma LessPlusGreaterIsOne(h: Snapshot, v: int)
    requires Wf(h) && h.ntups > 0 && h.min <= v < h.max
    ensures LessThanEstimate(h, v).Ok? && GreaterThanEstimate(h, v).Ok?
    ensures LessThanEstimate(h, v).value + GreaterThanEstimate(h, v).value == 1.0
  {
    ComplementaryShares(h, v);
    if v == h.min {
      NothingLeftOfMin(h);
    }
  }

  /** Out of range: nothing equals v, so not-equals selects everything. */
  lemma OutOfRangeAnswers(h: Snapshot, v: int)
    requires |h.bins| > 0 && (v < h.min || v > h.max)
    ensures Selectivity(h, Equals, v) == Ok(0.0)
    ensures Selectivity(h, NotEquals, v) == Ok(1.0)
    ensures Selectivity(h, GreaterThan, v) == Ok(if v >= h.max then 0.0 else 1.0)
    ensures Selectivity(h, LessThan, v) == Ok(if v > h.max then 1.0 else 0.0)
    ensures Selectivity(h, GreaterThanOrEq, v) == Selectivity(h, GreaterThan, v)
    ensures Selectivity(h, LessThanOrEq, v) == Selectivity(h, LessThan, v)
  {
  }

  /** Equals and not-equals are complementary whenever the equality estimate has a value. */
  lemma EqualsPlusNotEqualsIsOne(h: Snapshot, v: int)
    requires Wf(h) && h.ntups > 0
    ensures Selectivity(h, Equals, v).Ok? && Selectivity(h, NotEquals, v).Ok?
    ensures Selectivity(h, Equals, v).value + Selectivity(h, NotEquals, v).value == 1.0
  {
    EqualEstimateBounds(h, v);
  }

  /**
   * A histogram over [0, 99] with ten buckets holding 0, 0, 50 and 99: the
   * equality estimate for 0 is the density of its bucket, and nothing is above
   * the maximum or below the minimum.
   */
  lemma SmallHistogramExample()
    ensures var h := Snapshot(BinsOf([0, 0, 50, 99], 0, 99, 10), 0, 99, 4);
            && Wf(h)
            && EqualEstimate(h, 0) == Ok(0.05)
            && GreaterThanEstimate(h, 99) == Ok(0.0)
            && LessThanEstimate(h, 0) == Ok(0.0)
            && Selectivity(h, Like, 0) == Err(UnsupportedOperator)
  {
    var vals := [0, 0, 50, 99];
    assert vals[..3] == [0, 0, 50] && vals[..3][..2] == [0, 0] && vals[..3][..2][..1] == [0];
    assert [0][..0] == [];
    var zero := seq(10, _ => 0);
    assert BinsOf([0], 0, 99, 10) == zero[0 := 1];
    assert BinsOf([0, 0], 0, 99, 10) == zero[0 := 2];
    assert BucketIndex(50, 0, 99, 10) == 5;
    assert BinsOf([0, 0, 50], 0, 99, 10) == zero[0 := 2][5 := 1];
    assert BucketIndex(99, 0, 99, 10) == 9;
    BinsCountValues(vals, 0, 99, 10);
    var bins := BinsOf(vals, 0, 99, 10);
    assert bins == zero[0 := 2][5 := 1][9 := 1];
    assert bins[0] == 2;
    assert Width(Snapshot(bins, 0, 99, 4)) == 10.0;
  }
}
