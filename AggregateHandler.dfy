/**
 * The per-group running state behind the aggregate operators: one handler per
 * aggregate, keeping the result of every group in a map keyed by the group's
 * field value (no value when the aggregate is not grouped).
 *
 * The five handler subclasses of the source become one class tagged with its
 * kind. A ghost history of the merged (group, field) pairs gives each map
 * entry its meaning.
 */
module Aggregates {
  import opened Types
  import opened Folds

  /** Aggregator.Op: the aggregate operators a query can ask for. */
  datatype AggOp = MinOp | MaxOp | SumOp | AvgOp | CountOp | SumCountOp | ScAvgOp

  /** The five handlers: IntCountHandler and StringCountHandler share CountHandler. */
  datatype HandlerKind = CountHandler | SumHandler | MaxHandler | MinHandler | AvgHandler

  /** The operator an aggregator was built with is not one it supports (IllegalArgumentException). */
  datatype AggregatorError = NotSupported

  /** The operator each handler computes. */
  function OpOf(kind: HandlerKind): AggOp {
    match kind
    case CountHandler => CountOp
    case SumHandler => SumOp
    case MaxHandler => MaxOp
    case MinHandler => MinOp
    case AvgHandler => AvgOp
  }

  /** Aggregator.NO_GROUPING: the group-by index meaning "one group for everything". */
  const NoGrouping: int := -1

  /** A group key: the group-by field's value, or none (null) without grouping. */
  type Key = Option<Field>


  // ---------------------------------------------------------------------------
  // Reference definitions over the merged history

  /** The integer the handlers read from an aggregate field. */
  function IntValue(f: Field): int {
    if f.IntField? then f.value else 0
  }

  /** The group keys seen so far. */
  function Keys(h: seq<(Key, Field)>): set<Key> {
    set e | e in h :: e.0
  }

  /** The aggregate values merged under key k, in merge order. */
  function GroupValues(h: seq<(Key, Field)>, k: Key): seq<int> {
    if h == [] then []
    else
      var rest := GroupValues(h[..|h| - 1], k);
      if h[|h| - 1].0 == k then rest + [IntValue(h[|h| - 1].1)] else rest
  }

  /** Java's int division on a positive divisor: the quotient truncated toward zero. */
  function TruncDiv(a: int, b: int): (q: int)
    requires b > 0
    ensures a >= 0 ==> 0 <= q * b <= a < q * b + b
    ensures a < 0 ==> q * b - b < a <= q * b <= 0
  {
    var x := if a >= 0 then a else -a;
    FloorDivision(x, b);
    var q := if a >= 0 then x / b else -(x / b);
    assert a < 0 ==> q * b == -((x / b) * b);
    q
  }

  /** What a handler of the given kind reports for a group whose values are vals. */
  function Aggregate(kind: HandlerKind, vals: seq<int>): int {
    match kind
    case CountHandler => |vals|
    case SumHandler => Sum(vals)
    case MaxHandler => MaxFrom(vals)
    case MinHandler => MinFrom(vals)
    case AvgHandler => if vals == [] then 0 else TruncDiv(Sum(vals), |vals|)
  }

  /** What a handler of the given kind reports for group k after the merges in h. */
  function Expected(kind: HandlerKind, h: seq<(Key, Field)>, k: Key): int {
    Aggregate(kind, GroupValues(h, k))
  }

  /** map.getOrDefault. */
  function GetOrDefault(m: map<Key, int>, k: Key, d: int): (r: int)
    ensures k in m ==> r == m[k]
    ensures k !in m ==> r == d
  {
    if k in m then m[k] else d
  }

  // ---------------------------------------------------------------------------
  // Facts about the history

  lemma GroupValuesSnoc(h: seq<(Key, Field)>, e: (Key, Field), k: Key)
    ensures e.0 == k ==> GroupValues(h + [e], k) == GroupValues(h, k) + [IntValue(e.1)]
    ensures e.0 != k ==> GroupValues(h + [e], k) == GroupValues(h, k)
    ensures Keys(h + [e]) == Keys(h) + {e.0}
  {
    assert (h + [e])[..|h + [e]| - 1] == h;
  }

  /** Merging e touches the values of e's group only, and appends e's value there. */
  lemma ExtendHistory(h: seq<(Key, Field)>, e: (Key, Field))
    ensures Keys(h + [e]) == Keys(h) + {e.0}
    ensures GroupValues(h + [e], e.0) == GroupValues(h, e.0) + [IntValue(e.1)]
    ensures e.0 !in Keys(h) ==> GroupValues(h, e.0) == []
  {
    GroupValuesSnoc(h, e, e.0);
    GroupValuesPresent(h, e.0);
  }

  /** The running folds the handlers keep: one more value updates each in one step. */
  lemma FoldsStep(vals: seq<int>, v: int)
    ensures Sum(vals + [v]) == Sum(vals) + v
    ensures MinFrom(vals + [v]) == Min(MinFrom(vals), v)
    ensures MaxFrom(vals + [v]) == Max(MaxFrom(vals), v)
  {
    assert (vals + [v])[..|vals|] == vals;
  }

  /** A key has values exactly when it was merged at least once. */
  lemma {:induction false} GroupValuesPresent(h: seq<(Key, Field)>, k: Key)
    ensures GroupValues(h, k) != [] <==> k in Keys(h)
  {
    if h != [] {
      var init := h[..|h| - 1];
      GroupValuesPresent(init, k);
      assert h == init + [h[|h| - 1]];
      GroupValuesSnoc(init, h[|h| - 1], k);
    }
  }

  /** Every value of a group comes from a merged field of that group. */
  lemma {:induction false} GroupValuesFromHistory(h: seq<(Key, Field)>, k: Key, j: nat)
    requires j < |GroupValues(h, k)|
    ensures exists e :: e in h && e.0 == k && IntValue(e.1) == GroupValues(h, k)[j]
  {
    var init := h[..|h| - 1];
    var e := h[|h| - 1];
    assert h == init + [e];
    GroupValuesSnoc(init, e, k);
    if j < |GroupValues(init, k)| {
      GroupValuesFromHistory(init, k, j);
      var e' :| e' in init && e'.0 == k && IntValue(e'.1) == GroupValues(init, k)[j];
      assert e' in h;
    } else {
      assert e in h;
    }
  }

  /** Sums of values between lo and hi lie between n * lo and n * hi. */
  lemma {:induction false} SumBetween(vals: seq<int>, lo: int, hi: int)
    requires forall j :: 0 <= j < |vals| ==> lo <= vals[j] <= hi
    ensures |vals| * lo <= Sum(vals) <= |vals| * hi
  {
    if vals != [] {
      var init := vals[..|vals| - 1];
      assert forall j :: 0 <= j < |init| ==> init[j] == vals[j];
      SumBetween(init, lo, hi);
      assert |vals| * lo == |init| * lo + lo;
      assert |vals| * hi == |init| * hi + hi;
    }
  }

  /** A truncated average of values between lo and hi is itself between lo and hi. */
  lemma TruncDivBetween(s: int, n: int, lo: int, hi: int)
    requires n > 0 && n * lo <= s <= n * hi
    ensures lo <= TruncDiv(s, n) <= hi
  {
    var q := TruncDiv(s, n);
    assert (lo - 1) * n == n * lo - n && (hi + 1) * n == n * hi + n;
    if s >= 0 {
      CancelLe(q, hi, n);
      CancelLt(lo - 1, q, n);
    } else {
      CancelLe(lo, q, n);
      CancelLt(q, hi + 1, n);
    }
  }

  /** Every group's average lies between the group's minimum and maximum. */
  lemma AverageWithinExtremes(h: seq<(Key, Field)>, k: Key)
    requires k in Keys(h)
    ensures MinFrom(GroupValues(h, k)) <= Expected(AvgHandler, h, k) <= MaxFrom(GroupValues(h, k))
  {
    var vals := GroupValues(h, k);
    GroupValuesPresent(h, k);
    BoundsHold(vals);
    SumBetween(vals, MinFrom(vals), MaxFrom(vals));
    TruncDivBetween(Sum(vals), |vals|, MinFrom(vals), MaxFrom(vals));
  }

  /**
   * Java's truncating division at work: averaging 1 and 2 gives 1, and
   * averaging -1 and -2 gives -1 (where rounding down would give -2).
   */
  lemma AverageTruncatesTowardZero(k: Key)
    ensures Expected(AvgHandler, [(k, IntField(1)), (k, IntField(2))], k) == 1
    ensures Expected(AvgHandler, [(k, IntField(-1)), (k, IntField(-2))], k) == -1
  {
    AverageOfPair(k, 1, 2);
    AverageOfPair(k, -1, -2);
    assert TruncDiv(3, 2) == 1;
    assert TruncDiv(-3, 2) == -1;
  }

  /**
   * Tuples (A, 1), (A, 3), (B, 2) grouped on the first field: SUM gives A -> 4
   * and B -> 2, and COUNT without grouping gives 3.
   */
  lemma SumAndCountExample(a: Field, b: Field)
    requires a != b
    ensures var h: seq<(Key, Field)> := [(Some(a), IntField(1)), (Some(a), IntField(3)), (Some(b), IntField(2))];
            && Keys(h) == {Some(a), Some(b)}
            && Expected(SumHandler, h, Some(a)) == 4
            && Expected(SumHandler, h, Some(b)) == 2
    ensures var u: seq<(Key, Field)> := [(None, IntField(1)), (None, IntField(3)), (None, IntField(2))];
            Expected(CountHandler, u, None) == 3
  {
    var x: (Key, Field), y: (Key, Field), z: (Key, Field) := (Some(a), IntField(1)), (Some(a), IntField(3)), (Some(b), IntField(2));
    assert Keys([x, y, z]) == {Some(a), Some(b)} by {
      ThreeKeys(x, y, z);
    }
    assert Expected(SumHandler, [x, y, z], Some(a)) == 4 by {
      ThreeMerges(x, y, z, Some(a));
      assert GroupValues([x, y, z], Some(a)) == [1, 3];
      assert [1, 3][..1] == [1] && [1][..0] == [];
    }
    assert Expected(SumHandler, [x, y, z], Some(b)) == 2 by {
      ThreeMerges(x, y, z, Some(b));
      assert GroupValues([x, y, z], Some(b)) == [2];
      assert [2][..0] == [];
    }
    var p: (Key, Field), q: (Key, Field), r: (Key, Field) := (None, IntField(1)), (None, IntField(3)), (None, IntField(2));
    assert Expected(CountHandler, [p, q, r], None) == 3 by {
      ThreeMerges(p, q, r, None);
    }
  }

  /** The groups after three merges. */
  lemma ThreeKeys(x: (Key, Field), y: (Key, Field), z: (Key, Field))
    ensures Keys([x, y, z]) == {x.0, y.0, z.0}
  {
    assert forall e :: e in [x, y, z] <==> e == x || e == y || e == z;
  }

  /** The values of group k after three merges, merge by merge. */
  lemma ThreeMerges(x: (Key, Field), y: (Key, Field), z: (Key, Field), k: Key)
    ensures GroupValues([x], k) == if x.0 == k then [IntValue(x.1)] else []
    ensures GroupValues([x, y], k) == GroupValues([x], k) + if y.0 == k then [IntValue(y.1)] else []
    ensures GroupValues([x, y, z], k) == GroupValues([x, y], k) + if z.0 == k then [IntValue(z.1)] else []
  {
    assert GroupValues([x], k) == if x.0 == k then [IntValue(x.1)] else [] by {
      assert [x] == [] + [x];
      GroupValuesSnoc([], x, k);
    }
    assert GroupValues([x, y], k) == GroupValues([x], k) + if y.0 == k then [IntValue(y.1)] else [] by {
      assert [x, y] == [x] + [y];
      GroupValuesSnoc([x], y, k);
    }
    assert [x, y, z] == [x, y] + [z];
    GroupValuesSnoc([x, y], z, k);
  }

  lemma AverageOfPair(k: Key, a: int, b: int)
    ensures Expected(AvgHandler, [(k, IntField(a)), (k, IntField(b))], k) == TruncDiv(a + b, 2)
  {
    GroupValuesSnoc([], (k, IntField(a)), k);
    GroupValuesSnoc([(k, IntField(a))], (k, IntField(b)), k);
    assert [(k, IntField(a)), (k, IntField(b))] == [(k, IntField(a))] + [(k, IntField(b))];
    FoldsStep([], a);
    FoldsStep([a], b);
    assert [a] == [] + [a];
  }

  // ---------------------------------------------------------------------------
  // The sum of a map's values

  ghost function Total(m: map<Key, int>): int
    decreases |m|
  {
    if m == map[] then 0
    else
      var k :| k in m;
      m[k] + Total(m - {k})
  }

  /** Total does not depend on which key is taken out first. */
  lemma {:induction false} TotalRemove(m: map<Key, int>, k: Key)
    requires k in m
    ensures Total(m) == m[k] + Total(m - {k})
    decreases |m|
  {
    var j :| j in m && Total(m) == m[j] + Total(m - {j});
    if j != k {
      var mj, mk := m - {j}, m - {k};
      assert k in mj && j in mk;
      TotalRemove(mj, k);
      TotalRemove(mk, j);
      assert mj - {k} == mk - {j};
    }
  }

  /** How many tuples each group received. */
  function CountMap(h: seq<(Key, Field)>): map<Key, int> {
    map k | k in Keys(h) :: |GroupValues(h, k)|
  }

  /** Changing one entry of a map changes its total by the difference. */
  lemma TotalUpdate(m: map<Key, int>, k: Key, v: int)
    ensures Total(m[k := v]) == Total(m) - GetOrDefault(m, k, 0) + v
  {
    TotalRemove(m[k := v], k);
    assert m[k := v] - {k} == m - {k};
    if k in m {
      TotalRemove(m, k);
    } else {
      assert m - {k} == m;
    }
  }

  lemma CountMapStep(h: seq<(Key, Field)>, e: (Key, Field))
    ensures CountMap(h + [e]) == CountMap(h)[e.0 := GetOrDefault(CountMap(h), e.0, 0) + 1]
  {
    ExtendHistory(h, e);
  }

  /** The group counts add up to the number of merged tuples. */
  lemma {:induction false} CountsAddUp(h: seq<(Key, Field)>)
    ensures Total(CountMap(h)) == |h|
  {
    if h == [] {
      assert CountMap(h) == map[];
    } else {
      var init := h[..|h| - 1];
      var e := h[|h| - 1];
      assert h == init + [e];
      CountsAddUp(init);
      CountMapStep(init, e);
      TotalUpdate(CountMap(init), e.0, GetOrDefault(CountMap(init), e.0, 0) + 1);
    }
  }

  // ---------------------------------------------------------------------------
  // The handler

  /** Every non-COUNT handler is fed integer fields only. */
  ghost predicate IntsOnly(kind: HandlerKind, h: seq<(Key, Field)>) {
    kind != CountHandler ==> forall e :: e in h ==> FieldHasType(e.1, IntType)
  }

  /** One result per group seen, each the aggregate of the group's values. */
  ghost predicate ResultsMatch(kind: HandlerKind, h: seq<(Key, Field)>, aggResult: map<Key, int>) {
    && aggResult.Keys == Keys(h)
    && forall k :: k in aggResult ==> aggResult[k] == Expected(kind, h, k)
  }

  /** IntAvgHandler's running sum and count of every group; nothing for the other kinds. */
  ghost predicate RunningMatch(kind: HandlerKind, h: seq<(Key, Field)>, sum: map<Key, int>, count: map<Key, int>) {
    && (kind == AvgHandler ==>
          && sum.Keys == Keys(h) && count.Keys == Keys(h)
          && forall k :: k in sum ==> sum[k] == Sum(GroupValues(h, k)) && count[k] == |GroupValues(h, k)|)
    && (kind != AvgHandler ==> sum == map[] && count == map[])
  }

  /** The handler's maps agree with its history. */
  ghost predicate Consistent(kind: HandlerKind, h: seq<(Key, Field)>, aggResult: map<Key, int>,
                             sum: map<Key, int>, count: map<Key, int>)
  {
    IntsOnly(kind, h) && ResultsMatch(kind, h, aggResult) && RunningMatch(kind, h, sum, count)
  }

  /** What getOrDefault finds for a group is the aggregate of the group's values so far. */
  lemma PreviousResult(kind: HandlerKind, h: seq<(Key, Field)>, aggResult: map<Key, int>, k: Key)
    requires ResultsMatch(kind, h, aggResult)
    ensures GetOrDefault(aggResult, k, Aggregate(kind, [])) == Expected(kind, h, k)
  {
    GroupValuesPresent(h, k);
  }

  /** Likewise for IntAvgHandler's running sum and count. */
  lemma PreviousRunning(h: seq<(Key, Field)>, sum: map<Key, int>, count: map<Key, int>, k: Key)
    requires RunningMatch(AvgHandler, h, sum, count)
    ensures GetOrDefault(sum, k, 0) == Sum(GroupValues(h, k))
    ensures GetOrDefault(count, k, 0) == |GroupValues(h, k)|
  {
    GroupValuesPresent(h, k);
  }

  lemma IntsOnlyStep(kind: HandlerKind, h: seq<(Key, Field)>, e: (Key, Field))
    requires IntsOnly(kind, h)
    requires kind != CountHandler ==> FieldHasType(e.1, IntType)
    ensures IntsOnly(kind, h + [e])
  {
    if kind != CountHandler {
      forall x | x in h + [e] ensures FieldHasType(x.1, IntType) {
        assert x in h || x == e;
      }
    }
  }

  /** Merging one pair and refreshing that pair's group keeps every result right. */
  lemma ResultsStep(kind: HandlerKind, h: seq<(Key, Field)>, aggResult: map<Key, int>, e: (Key, Field))
    requires ResultsMatch(kind, h, aggResult)
    ensures ResultsMatch(kind, h + [e], aggResult[e.0 := Expected(kind, h + [e], e.0)])
  {
    var h', agg' := h + [e], aggResult[e.0 := Expected(kind, h + [e], e.0)];
    ExtendHistory(h, e);
    assert agg'.Keys == Keys(h');
    forall k | k in agg' ensures agg'[k] == Expected(kind, h', k) {
      if k != e.0 {
        GroupValuesSnoc(h, e, k);
      }
    }
  }

  lemma RunningStep(kind: HandlerKind, h: seq<(Key, Field)>, sum: map<Key, int>, count: map<Key, int>,
                    e: (Key, Field), sum': map<Key, int>, count': map<Key, int>)
    requires RunningMatch(kind, h, sum, count)
    requires kind == AvgHandler ==>
               && sum' == sum[e.0 := Sum(GroupValues(h + [e], e.0))]
               && count' == count[e.0 := |GroupValues(h + [e], e.0)|]
    requires kind != AvgHandler ==> sum' == sum && count' == count
    ensures RunningMatch(kind, h + [e], sum', count')
  {
    var h' := h + [e];
    ExtendHistory(h, e);
    if kind == AvgHandler {
      assert sum'.Keys == Keys(h') && count'.Keys == Keys(h');
      forall k | k in sum'
        ensures sum'[k] == Sum(GroupValues(h', k)) && count'[k] == |GroupValues(h', k)|
      {
        if k != e.0 {
          GroupValuesSnoc(h, e, k);
        }
      }
    }
  }

  class AggregateHandler {
    const kind: HandlerKind
    /** The aggregate of each group so far. */
    var aggResult: map<Key, int>
    /** IntAvgHandler's running sums and counts; empty for the other kinds. */
    var sum: map<Key, int>
    var count: map<Key, int>
    /** Every (group, aggregate field) pair passed to Calculate, in order. */
    ghost var Merged: seq<(Key, Field)>

    ghost predicate Valid()
      reads this
    {
      Consistent(kind, Merged, aggResult, sum, count)
    }

    /** A fresh handler: no group has a result yet. */
    constructor (kind: HandlerKind)
      ensures Valid() && this.kind == kind
      ensures aggResult == map[] && Merged == []
    {
      this.kind := kind;
      aggResult := map[];
      sum := map[];
      count := map[];
      Merged := [];
    }

    /**
     * calculate: fold one aggregate field into its group. Only the entry of
     * that group changes, and it becomes the aggregate of the group's values.
     */
    method Calculate(gbField: Key, aggField: Field)
      requires Valid()
      requires kind != CountHandler ==> FieldHasType(aggField, IntType)
      modifies this
      ensures Valid()
      ensures Merged == old(Merged) + [(gbField, aggField)]
      ensures aggResult == old(aggResult)[gbField := Expected(kind, Merged, gbField)]
    {
      ghost var h, e := Merged, (gbField, aggField);
      ghost var sum0, count0 := sum, count;
      PreviousResult(kind, h, aggResult, gbField);
      if kind == AvgHandler {
        PreviousRunning(h, sum, count, gbField);
      }
      var result := Recompute(gbField, aggField);
      aggResult := aggResult[gbField := result];
      Merged := h + [e];
      MergeStep(kind, h, old(aggResult), sum0, count0, e, sum, count);
    }

    /**
     * The body of each handler's calculate up to the final put: the group's new
     * aggregate from getOrDefault, and for IntAvgHandler the updated running
     * sum and count.
     */
    method Recompute(gbField: Key, aggField: Field) returns (result: int)
      requires kind != CountHandler ==> FieldHasType(aggField, IntType)
      requires GetOrDefault(aggResult, gbField, Aggregate(kind, [])) == Expected(kind, Merged, gbField)
      requires kind == AvgHandler ==>
                 && GetOrDefault(sum, gbField, 0) == Sum(GroupValues(Merged, gbField))
                 && GetOrDefault(count, gbField, 0) == |GroupValues(Merged, gbField)|
      modifies this
      ensures aggResult == old(aggResult) && Merged == old(Merged)
      ensures result == Expected(kind, Merged + [(gbField, aggField)], gbField)
      ensures kind == AvgHandler ==>
                && sum == old(sum)[gbField := Sum(GroupValues(Merged + [(gbField, aggField)], gbField))]
                && count == old(count)[gbField := |GroupValues(Merged + [(gbField, aggField)], gbField)|]
      ensures kind != AvgHandler ==> sum == old(sum) && count == old(count)
    {
      ghost var h, e := Merged, (gbField, aggField);
      ExtendHistory(h, e);
      ghost var vals := GroupValues(h, gbField);
      ghost var v := IntValue(aggField);
      FoldsStep(vals, v);
      assert Expected(kind, h + [e], gbField) == Aggregate(kind, vals + [v]);
      match kind {
        case CountHandler =>
          result := GetOrDefault(aggResult, gbField, 0) + 1;
        case SumHandler =>
          var val := aggField.value;
          result := GetOrDefault(aggResult, gbField, 0) + val;
        case MaxHandler =>
          var val := aggField.value;
          result := Max(GetOrDefault(aggResult, gbField, IntMin), val);
        case MinHandler =>
          var val := aggField.value;
          result := Min(GetOrDefault(aggResult, gbField, IntMax), val);
        case AvgHandler =>
          var val := aggField.value;
          sum := sum[gbField := GetOrDefault(sum, gbField, 0) + val];
          count := count[gbField := GetOrDefault(count, gbField, 0) + 1];
          assert sum[gbField] == Sum(vals + [v]) && count[gbField] == |vals + [v]|;
          result := TruncDiv(sum[gbField], count[gbField]);
      }
    }
  }

  /** Merging one pair and storing its group's new aggregate keeps the handler consistent with its history. */
  lemma MergeStep(kind: HandlerKind, h: seq<(Key, Field)>, aggResult: map<Key, int>,
                  sum: map<Key, int>, count: map<Key, int>, e: (Key, Field), sum': map<Key, int>, count': map<Key, int>)
    requires Consistent(kind, h, aggResult, sum, count)
    requires kind != CountHandler ==> FieldHasType(e.1, IntType)
    requires kind == AvgHandler ==>
               && sum' == sum[e.0 := Sum(GroupValues(h + [e], e.0))]
               && count' == count[e.0 := |GroupValues(h + [e], e.0)|]
    requires kind != AvgHandler ==> sum' == sum && count' == count
    ensures Consistent(kind, h + [e], aggResult[e.0 := Expected(kind, h + [e], e.0)], sum', count')
  {
    IntsOnlyStep(kind, h, e);
    ResultsStep(kind, h, aggResult, e);
    RunningStep(kind, h, sum, count, e, sum', count');
  }

  /** A MIN or MAX handler's result for a group is one of the group's values and bounds all of them. */
  lemma ExtremeIsGroupMember(a: AggregateHandler, k: Key)
    requires a.Valid() && (a.kind == MinHandler || a.kind == MaxHandler) && k in a.aggResult
    ensures a.aggResult[k] in GroupValues(a.Merged, k)
    ensures a.kind == MinHandler ==> forall v :: v in GroupValues(a.Merged, k) ==> a.aggResult[k] <= v
    ensures a.kind == MaxHandler ==> forall v :: v in GroupValues(a.Merged, k) ==> v <= a.aggResult[k]
  {
    var vals := GroupValues(a.Merged, k);
    forall j | 0 <= j < |vals|
      ensures IsJavaInt(vals[j])
    {
      GroupValuesFromHistory(a.Merged, k, j);
    }
    GroupValuesPresent(a.Merged, k);
    BoundsAttained(vals);
    BoundsHold(vals);
  }

  /** A COUNT handler's results add up to the number of merged tuples. */
  lemma CountHandlerTotal(a: AggregateHandler)
    requires a.Valid() && a.kind == CountHandler
    ensures Total(a.aggResult) == |a.Merged|
  {
    assert a.aggResult == CountMap(a.Merged);
    CountsAddUp(a.Merged);
  }

  // ---------------------------------------------------------------------------
  // Result tuples

  /** The schema of the result: the aggregate alone, or the group field then the aggregate. */
  function ResultDesc(grouped: bool, gbType: Type): (td: TupleDesc)
    ensures |td| == (if grouped then 2 else 1) && td[|td| - 1] == IntType
  {
    if grouped then [gbType, IntType] else [IntType]
  }

  /** The result tuple of one group: (aggregate) without grouping, (group, aggregate) with it. */
  function ResultTuple(td: TupleDesc, grouped: bool, k: Key, v: int): Tuple
    requires grouped ==> k.Some?
  {
    Tuple(td, if grouped then [k.value, IntField(v)] else [IntField(v)], None)
  }

  /** Keys as the aggregators produce them: all present with grouping, all absent without. */
  predicate KeysMatchGrouping(m: map<Key, int>, grouped: bool) {
    forall k :: k in m ==> (grouped <==> k.Some?)
  }

  /** Without grouping every key is null, so there is at most one group. */
  lemma UngroupedHasOneGroup(m: map<Key, int>)
    requires KeysMatchGrouping(m, false)
    ensures |m| <= 1
  {
    if m.Keys != {} {
      assert m.Keys == {None};
    }
  }

  /** The key a tuple is merged under: null without grouping, else its group-by field. */
  function GroupKey(gbfield: int, tup: Tuple): (k: Key)
    requires gbfield != NoGrouping ==> 0 <= gbfield < |tup.fields|
    ensures k.Some? <==> gbfield != NoGrouping
    ensures k.Some? ==> k.value in tup.fields
  {
    if gbfield == NoGrouping then None else Some(tup.fields[gbfield])
  }

  /**
   * The loop of iterator(): one result tuple per entry of the result map, in
   * whatever order the map yields its entries.
   */
  method Materialize(td: TupleDesc, grouped: bool, aggResult: map<Key, int>) returns (res: seq<Tuple>)
    requires KeysMatchGrouping(aggResult, grouped)
    ensures |res| == |aggResult|
    ensures forall i :: 0 <= i < |res| ==>
              exists k :: k in aggResult && res[i] == ResultTuple(td, grouped, k, aggResult[k])
    ensures forall k :: k in aggResult ==>
              exists i :: 0 <= i < |res| && res[i] == ResultTuple(td, grouped, k, aggResult[k])
  {
    res := [];
    var todo := aggResult.Keys;
    while todo != {}
      invariant todo <= aggResult.Keys
      invariant |res| + |todo| == |aggResult|
      invariant forall i :: 0 <= i < |res| ==>
                  exists k :: k in aggResult && res[i] == ResultTuple(td, grouped, k, aggResult[k])
      invariant forall k :: k in aggResult && k !in todo ==>
                  exists i :: 0 <= i < |res| && res[i] == ResultTuple(td, grouped, k, aggResult[k])
      decreases |todo|
    {
      var k :| k in todo;
      var t := ResultTuple(td, grouped, k, aggResult[k]);
      ghost var prev := res;
      res := res + [t];
      todo := todo - {k};
      assert forall i :: 0 <= i < |prev| ==> res[i] == prev[i];
      assert res[|res| - 1] == t;
    }
  }
}
