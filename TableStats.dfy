/**
 * Per-table statistics for the optimizer: a first scan finds the tuple count
 * and the bounds of every INT column, a second scan fills one histogram per
 * column, and the cost and cardinality estimates are read off the result.
 */
module Statistics {
  import opened Types
  import opened Histogram
  import opened Folds
  import opened HeapStorage
  import opened CatalogRegistry

  /** Cost of reading one page, used when statistics are computed for every table. */
  const IoCostPerPage: int := 1000

  /** Number of buckets of every histogram built here. */
  const NumHistBins: nat := 32

  // ---------------------------------------------------------------------------
  // Columns and their bounds

  /** Every tuple of the scan has the table's schema. */
  predicate AllConform(scan: seq<Tuple>, td: TupleDesc) {
    forall k :: 0 <= k < |scan| ==> Conforms(scan[k], td)
  }

  /** The values of INT column c, in scan order. */
  function IntColumn(scan: seq<Tuple>, td: TupleDesc, c: nat): seq<int>
    requires AllConform(scan, td) && c < |td| && td[c] == IntType
  {
    seq(|scan|, k requires 0 <= k < |scan| => scan[k].fields[c].value)
  }

  /** The values of STRING column c, in scan order. */
  function StringColumn(scan: seq<Tuple>, td: TupleDesc, c: nat): seq<string>
    requires AllConform(scan, td) && c < |td| && td[c] == StringType
  {
    seq(|scan|, k requires 0 <= k < |scan| => scan[k].fields[c].text)
  }

  /** The lower bound the first pass leaves for column c: Integer.MAX_VALUE for a non-INT column. */
  function ColumnMin(scan: seq<Tuple>, td: TupleDesc, c: nat): int
    requires AllConform(scan, td) && c < |td|
  {
    if td[c] == IntType then MinFrom(IntColumn(scan, td, c)) else IntMax
  }

  /** The upper bound the first pass leaves for column c: Integer.MIN_VALUE for a non-INT column. */
  function ColumnMax(scan: seq<Tuple>, td: TupleDesc, c: nat): int
    requires AllConform(scan, td) && c < |td|
  {
    if td[c] == IntType then MaxFrom(IntColumn(scan, td, c)) else IntMin
  }

  /** Every value of an INT column is a Java int. */
  lemma IntColumnJavaInts(scan: seq<Tuple>, td: TupleDesc, c: nat)
    requires AllConform(scan, td) && c < |td| && td[c] == IntType
    ensures AllJavaInts(IntColumn(scan, td, c))
  {
    forall k | 0 <= k < |scan|
      ensures IsJavaInt(IntColumn(scan, td, c)[k])
    {
      assert FieldHasType(scan[k].fields[c], td[c]);
    }
  }

  /** A table with at least one tuple has min <= max in every INT column; an empty one has min > max. */
  lemma ColumnBoundsOrder(scan: seq<Tuple>, td: TupleDesc, c: nat)
    requires AllConform(scan, td) && c < |td| && td[c] == IntType
    ensures scan != [] <==> ColumnMin(scan, td, c) <= ColumnMax(scan, td, c)
  {
    var vals := IntColumn(scan, td, c);
    IntColumnJavaInts(scan, td, c);
    BoundsAttained(vals);
    if scan != [] {
      BoundsHold(vals);
      assert vals[0] in vals;
    }
  }

  lemma ColumnExtend(scan: seq<Tuple>, td: TupleDesc, c: nat, k: nat)
    requires AllConform(scan, td) && c < |td| && td[c] == IntType && k < |scan|
    ensures AllConform(scan[..k], td) && AllConform(scan[..k + 1], td)
    ensures IntColumn(scan[..k + 1], td, c) == IntColumn(scan[..k], td, c) + [scan[k].fields[c].value]
  {
    assert forall j :: 0 <= j < k + 1 ==> scan[..k + 1][j] == scan[j];
  }

  lemma StringColumnExtend(scan: seq<Tuple>, td: TupleDesc, c: nat, k: nat)
    requires AllConform(scan, td) && c < |td| && td[c] == StringType && k < |scan|
    ensures AllConform(scan[..k], td) && AllConform(scan[..k + 1], td)
    ensures StringColumn(scan[..k + 1], td, c) == StringColumn(scan[..k], td, c) + [scan[k].fields[c].text]
  {
    assert forall j :: 0 <= j < k + 1 ==> scan[..k + 1][j] == scan[j];
  }

  lemma PrefixConforms(scan: seq<Tuple>, td: TupleDesc, k: nat)
    requires AllConform(scan, td) && k <= |scan|
    ensures AllConform(scan[..k], td)
  {
    assert forall j :: 0 <= j < k ==> scan[..k][j] == scan[j];
  }

  /** One more tuple updates the bounds of column c by one Math.min / Math.max step. */
  lemma BoundsStep(scan: seq<Tuple>, td: TupleDesc, c: nat, k: nat)
    requires AllConform(scan, td) && c < |td| && k < |scan|
    ensures AllConform(scan[..k], td) && AllConform(scan[..k + 1], td)
    ensures td[c] == IntType ==>
              && ColumnMin(scan[..k + 1], td, c) == Min(ColumnMin(scan[..k], td, c), scan[k].fields[c].value)
              && ColumnMax(scan[..k + 1], td, c) == Max(ColumnMax(scan[..k], td, c), scan[k].fields[c].value)
    ensures td[c] != IntType ==>
              ColumnMin(scan[..k + 1], td, c) == IntMax && ColumnMax(scan[..k + 1], td, c) == IntMin
  {
    assert forall j :: 0 <= j < k + 1 ==> scan[..k + 1][j] == scan[j];
    if td[c] == IntType {
      ColumnExtend(scan, td, c, k);
      var vals := IntColumn(scan[..k + 1], td, c);
      assert vals[..|vals| - 1] == IntColumn(scan[..k], td, c);
    }
  }

  /**
   * The first pass: count the tuples and fold Math.min / Math.max over every
   * INT column, starting from Integer.MAX_VALUE / Integer.MIN_VALUE.
   */
  method BoundsPass(scan: seq<Tuple>, td: TupleDesc) returns (minVals: seq<int>, maxVals: seq<int>, numTuples: nat)
    requires AllConform(scan, td)
    ensures numTuples == |scan|
    ensures |minVals| == |td| && |maxVals| == |td|
    ensures forall c :: 0 <= c < |td| ==> minVals[c] == ColumnMin(scan, td, c) && maxVals[c] == ColumnMax(scan, td, c)
  {
    var mins := new int[|td|](_ => IntMax);
    var maxs := new int[|td|](_ => IntMin);
    numTuples := 0;
    assert scan[..0] == [];
    while numTuples < |scan|
      invariant numTuples <= |scan|
      invariant Bounds(scan[..numTuples], td, mins[..], maxs[..])
    {
      PrefixConforms(scan, td, numTuples + 1);
      BoundsOfTuple(scan, td, numTuples, mins, maxs);
      numTuples := numTuples + 1;
    }
    assert scan[..numTuples] == scan;
    minVals, maxVals := mins[..], maxs[..];
  }

  /** mins and maxs hold the bounds of every column of the scan. */
  ghost predicate Bounds(scan: seq<Tuple>, td: TupleDesc, mins: seq<int>, maxs: seq<int>)
    requires AllConform(scan, td)
  {
    && |mins| == |td| && |maxs| == |td|
    && forall c :: 0 <= c < |td| ==> mins[c] == ColumnMin(scan, td, c) && maxs[c] == ColumnMax(scan, td, c)
  }

  /** The inner loop of the first pass: tuple k moves the bound of every INT column. */
  method BoundsOfTuple(scan: seq<Tuple>, td: TupleDesc, k: nat, mins: array<int>, maxs: array<int>)
    requires AllConform(scan, td) && k < |scan| && mins != maxs
    requires AllConform(scan[..k], td) && AllConform(scan[..k + 1], td)
    requires Bounds(scan[..k], td, mins[..], maxs[..])
    modifies mins, maxs
    ensures Bounds(scan[..k + 1], td, mins[..], maxs[..])
  {
    var t := scan[k];
    for i := 0 to |td|
      invariant forall c :: 0 <= c < i ==>
                  mins[c] == ColumnMin(scan[..k + 1], td, c) && maxs[c] == ColumnMax(scan[..k + 1], td, c)
      invariant forall c :: i <= c < |td| ==>
                  mins[c] == ColumnMin(scan[..k], td, c) && maxs[c] == ColumnMax(scan[..k], td, c)
    {
      BoundsStep(scan, td, i, k);
      if td[i] == IntType {
        var v := t.fields[i].value;
        mins[i] := Min(mins[i], v);
        maxs[i] := Max(maxs[i], v);
      }
    }
  }

  /** Every value of an INT column lies inside the bounds the first pass finds for it. */
  lemma ValuesWithinBounds(scan: seq<Tuple>, td: TupleDesc, c: nat, k: nat)
    requires AllConform(scan, td) && c < |td| && td[c] == IntType && k < |scan|
    ensures ColumnMin(scan, td, c) <= scan[k].fields[c].value <= ColumnMax(scan, td, c)
  {
    BoundsHold(IntColumn(scan, td, c));
    assert IntColumn(scan, td, c)[k] == scan[k].fields[c].value;
  }

  // ---------------------------------------------------------------------------
  // String histograms

  /**
   * The histogram kept for a STRING column. Its estimates are not part of
   * this model; it only records the values the statistics builder adds.
   */
  class StringHistogram {
    const buckets: nat
    ghost var Values: seq<string>

    constructor (buckets: nat)
      ensures this.buckets == buckets && Values == []
    {
      this.buckets := buckets;
      Values := [];
    }

    method AddValue(s: string)
      modifies this
      ensures Values == old(Values) + [s]
    {
      Values := Values + [s];
    }
  }

  // ---------------------------------------------------------------------------
  // The histograms of a table

  /** One INT histogram per INT column and one STRING histogram per STRING column, keyed by column index. */
  ghost predicate Layout(td: TupleDesc, ints: map<nat, IntHistogram>, strs: map<nat, StringHistogram>) {
    && (forall c: nat :: c in ints <==> c < |td| && td[c] == IntType)
    && (forall c: nat :: c in strs <==> c < |td| && td[c] == StringType)
  }

  /** No two columns share a histogram or a bin array. */
  predicate Separate(ints: map<nat, IntHistogram>, strs: map<nat, StringHistogram>) {
    && (forall c, d :: c in ints && d in ints && c != d ==> ints[c] != ints[d] && ints[c].bins != ints[d].bins)
    && (forall c, d :: c in strs && d in strs && c != d ==> strs[c] != strs[d])
  }

  /** Everything the histograms of a table own. */
  ghost function Footprint(ints: map<nat, IntHistogram>, strs: map<nat, StringHistogram>): set<object> {
    (set c | c in ints :: ints[c] as object)
    + (set c | c in ints :: ints[c].bins as object)
    + (set c | c in strs :: strs[c] as object)
  }

  /** The histograms hold the values of the first `k` tuples, each inside its column's first-pass bounds. */
  ghost predicate Filled(scan: seq<Tuple>, td: TupleDesc, k: nat,
                         ints: map<nat, IntHistogram>, strs: map<nat, StringHistogram>)
    reads Footprint(ints, strs)
    requires AllConform(scan, td) && k <= |scan| && Layout(td, ints, strs)
  {
    PrefixConforms(scan, td, k);
    && (forall c :: c in ints ==>
          && ints[c].Valid()
          && ints[c].buckets == NumHistBins
          && ints[c].min == ColumnMin(scan, td, c)
          && ints[c].max == ColumnMax(scan, td, c)
          && ints[c].Values == IntColumn(scan[..k], td, c))
    && (forall c :: c in strs ==> strs[c].buckets == NumHistBins && strs[c].Values == StringColumn(scan[..k], td, c))
  }

  /**
   * The histograms of a fresh table: an IntHistogram over the first-pass bounds
   * for each INT column, a StringHistogram for each STRING column, all empty.
   */
  method MakeHistograms(scan: seq<Tuple>, td: TupleDesc, minVals: seq<int>, maxVals: seq<int>)
      returns (ints: map<nat, IntHistogram>, strs: map<nat, StringHistogram>)
    requires AllConform(scan, td) && |minVals| == |td| && |maxVals| == |td|
    requires forall c :: 0 <= c < |td| ==> minVals[c] == ColumnMin(scan, td, c) && maxVals[c] == ColumnMax(scan, td, c)
    ensures Layout(td, ints, strs) && Separate(ints, strs)
    ensures forall o :: o in Footprint(ints, strs) ==> fresh(o)
    ensures Filled(scan, td, 0, ints, strs)
  {
    ints, strs := map[], map[];
    for i := 0 to |td|
      invariant forall c: nat :: c in ints <==> c < i && td[c] == IntType
      invariant forall c: nat :: c in strs <==> c < i && td[c] == StringType
      invariant Separate(ints, strs)
      invariant forall c :: c in ints ==> fresh(ints[c]) && fresh(ints[c].bins)
      invariant forall c :: c in strs ==> fresh(strs[c])
      invariant forall c :: c in ints ==> Empty(ints[c], minVals[c], maxVals[c])
      invariant forall c :: c in strs ==> strs[c].buckets == NumHistBins && strs[c].Values == []
    {
      if td[i] == IntType {
        ints := WithIntColumn(ints, strs, i, minVals[i], maxVals[i]);
      } else if td[i] == StringType {
        strs := WithStringColumn(ints, strs, i);
      }
    }
    EmptyIsFilled(scan, td, minVals, maxVals, ints, strs);
  }

  /** A new empty INT histogram over [lo, hi] for column i, shared with no other column. */
  method WithIntColumn(ints: map<nat, IntHistogram>, strs: map<nat, StringHistogram>, i: nat, lo: int, hi: int)
      returns (ints': map<nat, IntHistogram>)
    requires i !in ints && Separate(ints, strs)
    ensures i in ints' && ints' == ints[i := ints'[i]] && Separate(ints', strs)
    ensures fresh(ints'[i]) && fresh(ints'[i].bins) && Empty(ints'[i], lo, hi)
  {
    var h := new IntHistogram(NumHistBins, lo, hi);
    ints' := ints[i := h];
  }

  /** A new empty STRING histogram for column i, shared with no other column. */
  method WithStringColumn(ints: map<nat, IntHistogram>, strs: map<nat, StringHistogram>, i: nat)
      returns (strs': map<nat, StringHistogram>)
    requires i !in strs && Separate(ints, strs)
    ensures i in strs' && strs' == strs[i := strs'[i]] && Separate(ints, strs')
    ensures fresh(strs'[i]) && strs'[i].buckets == NumHistBins && strs'[i].Values == []
  {
    var h := new StringHistogram(NumHistBins);
    strs' := strs[i := h];
  }

  /** A histogram of NUM_HIST_BINS bins over [lo, hi] that holds no value yet. */
  ghost predicate Empty(h: IntHistogram, lo: int, hi: int)
    reads h, h.bins
  {
    h.Valid() && h.buckets == NumHistBins && h.min == lo && h.max == hi && h.Values == []
  }

  /** Empty histograms over the first-pass bounds hold the values of no tuple. */
  lemma EmptyIsFilled(scan: seq<Tuple>, td: TupleDesc, minVals: seq<int>, maxVals: seq<int>,
                      ints: map<nat, IntHistogram>, strs: map<nat, StringHistogram>)
    requires AllConform(scan, td) && |minVals| == |td| && |maxVals| == |td| && Layout(td, ints, strs)
    requires forall c :: 0 <= c < |td| ==> minVals[c] == ColumnMin(scan, td, c) && maxVals[c] == ColumnMax(scan, td, c)
    requires forall c :: c in ints ==> Empty(ints[c], minVals[c], maxVals[c])
    requires forall c :: c in strs ==> strs[c].buckets == NumHistBins && strs[c].Values == []
    ensures Filled(scan, td, 0, ints, strs)
  {
    assert scan[..0] == [];
  }

  /** The inner loop of the second pass: each column's value of one tuple goes into that column's histogram. */
  method AddTuple(t: Tuple, td: TupleDesc, ints: map<nat, IntHistogram>, strs: map<nat, StringHistogram>)
    requires Conforms(t, td) && Layout(td, ints, strs) && Separate(ints, strs)
    requires forall c :: c in ints ==> ints[c].Valid() && ints[c].min <= t.fields[c].value <= ints[c].max
    modifies Footprint(ints, strs)
    ensures forall c :: c in ints ==> ints[c].Valid() && ints[c].Values == old(ints[c].Values) + [t.fields[c].value]
    ensures forall c :: c in strs ==> strs[c].Values == old(strs[c].Values) + [t.fields[c].text]
  {
    for i := 0 to |td|
      invariant forall c :: c in ints ==>
                  && ints[c].Valid()
                  && ints[c].Values == old(ints[c].Values) + if c < i then [t.fields[c].value] else []
      invariant forall c :: c in strs ==>
                  strs[c].Values == old(strs[c].Values) + if c < i then [t.fields[c].text] else []
    {
      AddField(t, td, i, ints, strs);
    }
  }

  /** One step of the inner loop: field i of t goes into column i's histogram, and no other histogram changes. */
  method AddField(t: Tuple, td: TupleDesc, i: nat, ints: map<nat, IntHistogram>, strs: map<nat, StringHistogram>)
    requires Conforms(t, td) && i < |td| && Layout(td, ints, strs) && Separate(ints, strs)
    requires forall c :: c in ints ==> ints[c].Valid()
    requires i in ints ==> ints[i].min <= t.fields[i].value <= ints[i].max
    modifies Footprint(ints, strs)
    ensures forall c :: c in ints ==> ints[c].Valid()
    ensures forall c :: c in ints && c != i ==> ints[c].Values == old(ints[c].Values)
    ensures i in ints ==> ints[i].Values == old(ints[i].Values) + [t.fields[i].value]
    ensures forall c :: c in strs && c != i ==> strs[c].Values == old(strs[c].Values)
    ensures i in strs ==> strs[i].Values == old(strs[i].Values) + [t.fields[i].text]
  {
    assert FieldHasType(t.fields[i], td[i]);
    if td[i] == IntType {
      ints[i].AddValue(t.fields[i].value);
    } else {
      strs[i].AddValue(t.fields[i].text);
    }
  }

  /** The second pass: every tuple of the scan goes through AddTuple, in scan order. */
  method FillHistograms(scan: seq<Tuple>, td: TupleDesc, ints: map<nat, IntHistogram>, strs: map<nat, StringHistogram>)
    requires AllConform(scan, td) && Layout(td, ints, strs) && Separate(ints, strs)
    requires Filled(scan, td, 0, ints, strs)
    modifies Footprint(ints, strs)
    ensures Filled(scan, td, |scan|, ints, strs)
  {
    for k := 0 to |scan|
      invariant Filled(scan, td, k, ints, strs)
    {
      FillOne(scan, td, k, ints, strs);
    }
  }

  /** One round of the second pass: tuple k goes into the histograms. */
  method FillOne(scan: seq<Tuple>, td: TupleDesc, k: nat, ints: map<nat, IntHistogram>, strs: map<nat, StringHistogram>)
    requires AllConform(scan, td) && k < |scan| && Layout(td, ints, strs) && Separate(ints, strs)
    requires Filled(scan, td, k, ints, strs)
    modifies Footprint(ints, strs)
    ensures Filled(scan, td, k + 1, ints, strs)
  {
    NextTuple(scan, td, k);
    AddTuple(scan[k], td, ints, strs);
  }

  /** Tuple k of the scan: its INT values lie within the first-pass bounds, and each column grows by its value. */
  lemma NextTuple(scan: seq<Tuple>, td: TupleDesc, k: nat)
    requires AllConform(scan, td) && k < |scan|
    ensures Conforms(scan[k], td) && AllConform(scan[..k], td) && AllConform(scan[..k + 1], td)
    ensures forall c: nat :: c < |td| && td[c] == IntType ==>
              && ColumnMin(scan, td, c) <= scan[k].fields[c].value <= ColumnMax(scan, td, c)
              && IntColumn(scan[..k + 1], td, c) == IntColumn(scan[..k], td, c) + [scan[k].fields[c].value]
    ensures forall c: nat :: c < |td| && td[c] == StringType ==>
              StringColumn(scan[..k + 1], td, c) == StringColumn(scan[..k], td, c) + [scan[k].fields[c].text]
  {
    PrefixConforms(scan, td, k);
    PrefixConforms(scan, td, k + 1);
    forall c: nat | c < |td| && td[c] == IntType
      ensures ColumnMin(scan, td, c) <= scan[k].fields[c].value <= ColumnMax(scan, td, c)
      ensures IntColumn(scan[..k + 1], td, c) == IntColumn(scan[..k], td, c) + [scan[k].fields[c].value]
    {
      ValuesWithinBounds(scan, td, c, k);
      ColumnExtend(scan, td, c, k);
    }
    forall c: nat | c < |td| && td[c] == StringType
      ensures StringColumn(scan[..k + 1], td, c) == StringColumn(scan[..k], td, c) + [scan[k].fields[c].text]
    {
      StringColumnExtend(scan, td, c, k);
    }
  }

  // ---------------------------------------------------------------------------
  // Double-to-int conversion and the estimates

  /** Truncation of x toward zero. */
  function Trunc(x: real): (r: int)
    ensures 0.0 <= x ==> 0 <= r && r as real <= x < r as real + 1.0
    ensures x <= 0.0 ==> r <= 0 && r as real - 1.0 < x <= r as real
  {
    if x >= 0.0 then x.Floor else -((-x).Floor)
  }

  /** Java's (int) cast of a double: toward zero, saturating at the int bounds. */
  function JavaIntOf(x: real): (r: int)
    ensures IsJavaInt(r)
    ensures IntMin as real <= x <= IntMax as real ==> r == Trunc(x)
    ensures x > IntMax as real ==> r == IntMax
    ensures x < IntMin as real ==> r == IntMin
  {
    if x >= IntMax as real then IntMax
    else if x <= IntMin as real then IntMin
    else Trunc(x)
  }

  // ---------------------------------------------------------------------------
  // The statistics object

  class TableStats {
    const ioCostPerPage: int
    const tupleDesc: TupleDesc
    const numPages: nat
    const numTuples: nat
    const intHistograms: map<nat, IntHistogram>
    const stringHistograms: map<nat, StringHistogram>
    /** The tuples the two passes read. */
    ghost const Scan: seq<Tuple>

    ghost predicate Valid()
      reads this, Footprint(intHistograms, stringHistograms)
    {
      && AllConform(Scan, tupleDesc)
      && Layout(tupleDesc, intHistograms, stringHistograms)
      && Separate(intHistograms, stringHistograms)
      && Filled(Scan, tupleDesc, |Scan|, intHistograms, stringHistograms)
      && numTuples == |Scan|
    }

    /**
     * Statistics of a table with schema `td`, `numPages` pages and the tuples
     * `scan`: both passes over the scan, the histograms built in between.
     */
    constructor (td: TupleDesc, numPages: nat, scan: seq<Tuple>, ioCostPerPage: int)
      requires AllConform(scan, td)
      ensures Valid()
      ensures tupleDesc == td && this.numPages == numPages && this.ioCostPerPage == ioCostPerPage
      ensures Scan == scan && numTuples == |scan|
      ensures forall o :: o in Footprint(intHistograms, stringHistograms) ==> fresh(o)
    {
      var minVals, maxVals, n := BoundsPass(scan, td);
      var ints, strs := MakeHistograms(scan, td, minVals, maxVals);
      FillHistograms(scan, td, ints, strs);
      assert scan[..|scan|] == scan;
      this.ioCostPerPage := ioCostPerPage;
      tupleDesc := td;
      this.numPages := numPages;
      numTuples := n;
      intHistograms := ints;
      stringHistograms := strs;
      Scan := scan;
    }

    /** estimateScanCost: every page is read at the full cost of a page. */
    function EstimateScanCost(): (r: int)
      ensures numPages == 0 ==> r == 0
      ensures ioCostPerPage >= 0 ==> r >= 0
    {
      numPages * ioCostPerPage
    }

    /** totalTuples: the number of tuples the first pass counted. */
    function TotalTuples(): (r: nat)
      reads this, Footprint(intHistograms, stringHistograms)
      requires Valid()
      ensures r == |Scan|
    {
      numTuples
    }

    /** estimateTableCardinality: the total scaled by the selectivity, cast to int. */
    function EstimateTableCardinality(selectivityFactor: real): (r: int)
      ensures IsJavaInt(r)
    {
      JavaIntOf(numTuples as real * selectivityFactor)
    }
  }

  /** Each histogram of a table built from a scan ends with one value per tuple. */
  lemma HistogramsCountTuples(s: TableStats, c: nat)
    requires s.Valid() && c in s.intHistograms
    ensures s.intHistograms[c].ntups == s.numTuples == |s.Scan|
    ensures s.intHistograms[c].Values == IntColumn(s.Scan, s.tupleDesc, c)
  {
    assert s.Scan[..|s.Scan|] == s.Scan;
  }

  /** Factor 1 gives the tuple count, factor 0 gives 0, and a factor in [0, 1] gives at most the count. */
  lemma CardinalityBounds(s: TableStats, f: real)
    requires IsJavaInt(s.numTuples)
    ensures s.EstimateTableCardinality(1.0) == s.numTuples
    ensures s.EstimateTableCardinality(0.0) == 0
    ensures 0.0 <= f <= 1.0 ==> 0 <= s.EstimateTableCardinality(f) <= s.numTuples
  {
    CardinalityAtOne(s);
    CardinalityAtZero(s);
    if 0.0 <= f <= 1.0 {
      CardinalityWithin(s, f);
    }
  }

  lemma CardinalityAtOne(s: TableStats)
    requires IsJavaInt(s.numTuples)
    ensures s.EstimateTableCardinality(1.0) == s.numTuples
  {
    var n := s.numTuples as real;
    assert n * 1.0 == n;
    CastWithin(n, s.numTuples);
  }

  lemma CardinalityAtZero(s: TableStats)
    ensures s.EstimateTableCardinality(0.0) == 0
  {
    assert s.numTuples as real * 0.0 == 0.0;
    CastWithin(0.0, 0);
  }

  lemma CardinalityWithin(s: TableStats, f: real)
    requires IsJavaInt(s.numTuples) && 0.0 <= f <= 1.0
    ensures 0 <= s.EstimateTableCardinality(f) <= s.numTuples
  {
    var n := s.numTuples as real;
    ScaleWithin(n, f);
    CastWithin(n * f, s.numTuples);
  }

  /** The cast of a value between 0 and a non-negative Java int n lies in [0, n], and is n at n. */
  lemma CastWithin(x: real, n: int)
    requires 0 <= n <= IntMax && 0.0 <= x <= n as real
    ensures 0 <= JavaIntOf(x) <= n
    ensures x == n as real ==> JavaIntOf(x) == n
  {
    assert x <= IntMax as real;
    assert JavaIntOf(x) == Trunc(x);
  }

  lemma ScaleWithin(n: real, f: real)
    requires n >= 0.0 && 0.0 <= f <= 1.0
    ensures 0.0 <= n * f <= n
  {
    assert n * f + n * (1.0 - f) == n;
    if n > 0.0 {
      assert n * (1.0 - f) >= 0.0 * (1.0 - f);
    }
  }

  // ---------------------------------------------------------------------------
  // The registry of statistics

  /** The statistics of table `t`, whose heap file holds `pages`, as computeStatistics builds them. */
  ghost predicate Describes(s: TableStats, t: Table, pages: seq<Slots>)
  {
    && s.tupleDesc == t.file.desc
    && s.ioCostPerPage == IoCostPerPage
    && s.numPages == |pages|
    && s.Scan == AllLive(pages)
  }

  /** The heap file of every catalog table: filed under the table's identifier, with the table's schema. */
  ghost predicate FilesOf(tables: Tables, files: map<int, HeapFile>)
    reads set id | id in files :: files[id]
  {
    forall id :: id in tables ==>
      && id in files
      && files[id].Valid()
      && files[id].id == id
      && files[id].tupleDesc == tables[id].file.desc
      && AllConform(AllLive(files[id].pages), tables[id].file.desc)
  }

  /** Some table among the identifiers `ids` is called `name`. */
  predicate NameAmong(tables: Tables, ids: set<int>, name: string) {
    exists id :: id in ids && id in tables && tables[id].name == name
  }

  /**
   * Part way through computeStatistics: the tables in `done` have statistics
   * under their names, the other names are those registered `before`, and a
   * name no table in `done` has keeps its old entry.
   */
  ghost predicate Registered(tables: Tables, pagesOf: map<int, seq<Slots>>, before: map<string, TableStats>,
                             done: set<int>, registered: map<string, TableStats>)
    requires tables.Keys <= pagesOf.Keys
  {
    && (forall id :: id in done && id in tables ==>
          tables[id].name in registered && Describes(registered[tables[id].name], tables[id], pagesOf[id]))
    && (forall n :: n in registered <==> n in before || NameAmong(tables, done, n))
    && (forall n :: n in before && !NameAmong(tables, done, n) ==> registered[n] == before[n])
  }

  /** Before the loop nothing is registered beyond what was there already. */
  lemma NothingRegistered(tables: Tables, pagesOf: map<int, seq<Slots>>, before: map<string, TableStats>)
    requires tables.Keys <= pagesOf.Keys
    ensures Registered(tables, pagesOf, before, {}, before)
  {
  }

  /** After the loop every table is registered, and the names registered are the old ones and the catalog's. */
  lemma AllRegistered(tables: Tables, pagesOf: map<int, seq<Slots>>, before: map<string, TableStats>,
                      registered: map<string, TableStats>)
    requires tables.Keys <= pagesOf.Keys
    requires Registered(tables, pagesOf, before, tables.Keys, registered)
    ensures forall id :: id in tables ==>
              tables[id].name in registered && Describes(registered[tables[id].name], tables[id], pagesOf[id])
    ensures forall n :: n in registered <==> n in before || HasName(tables, n)
    ensures forall n :: n in before && !HasName(tables, n) ==> registered[n] == before[n]
  {
    forall n ensures NameAmong(tables, tables.Keys, n) == HasName(tables, n) {
    }
  }

  /**
   * Stopped part way (by an exception): every registered name is an old one
   * or a catalog table's, a table's entry is its new statistics or the old
   * entry under its name, and a name no table has keeps its entry.
   */
  lemma PartlyRegistered(tables: Tables, pagesOf: map<int, seq<Slots>>, before: map<string, TableStats>,
                         done: set<int>, registered: map<string, TableStats>)
    requires UniqueNames(tables) && tables.Keys <= pagesOf.Keys && done <= tables.Keys
    requires Registered(tables, pagesOf, before, done, registered)
    ensures forall n :: n in registered ==> n in before || HasName(tables, n)
    ensures forall id :: id in tables && tables[id].name in registered ==>
              var name := tables[id].name;
              Describes(registered[name], tables[id], pagesOf[id]) || (name in before && registered[name] == before[name])
    ensures forall n :: n in before && !HasName(tables, n) ==> registered[n] == before[n]
  {
    forall id | id in tables && tables[id].name in registered && id !in done
      ensures tables[id].name in before && registered[tables[id].name] == before[tables[id].name]
    {
      assert !NameAmong(tables, done, tables[id].name);
    }
    forall n | n in before && !HasName(tables, n) ensures !NameAmong(tables, done, n) {
    }
  }

  /** Registering one more table under its (unique) name keeps the earlier tables' entries. */
  lemma RegisterStep(tables: Tables, pagesOf: map<int, seq<Slots>>, before: map<string, TableStats>,
                     done: set<int>, registered: map<string, TableStats>, id: int, stats: TableStats)
    requires UniqueNames(tables) && tables.Keys <= pagesOf.Keys && id in tables
    requires Registered(tables, pagesOf, before, done, registered)
    requires Describes(stats, tables[id], pagesOf[id])
    ensures Registered(tables, pagesOf, before, done + {id}, registered[tables[id].name := stats])
  {
    var name := tables[id].name;
    var registered' := registered[name := stats];
    forall j | j in done + {id} && j in tables
      ensures tables[j].name in registered' && Describes(registered'[tables[j].name], tables[j], pagesOf[j])
    {
      if j != id {
        assert tables[j].name != name;
      }
    }
    forall n ensures n in registered' <==> n in before || NameAmong(tables, done + {id}, n) {
      if n == name {
        assert NameAmong(tables, done + {id}, n);
      } else if NameAmong(tables, done + {id}, n) {
        var j :| j in done + {id} && j in tables && tables[j].name == n;
        assert NameAmong(tables, done, n);
      }
    }
    forall n | n in before && !NameAmong(tables, done + {id}, n) ensures registered'[n] == before[n] {
      assert n != name;
    }
  }

  /**
   * new TableStats(tableid, IO_COST_PEERAGE) as computeStatistics calls it:
   * the schema and page count come from the table's heap file, the tuples from
   * a scan of that file. Opening the scan of a file without pages reads page
   * 0 past the end, and that IllegalArgumentException leaves the constructor.
   */
  method StatsOf(table: Table, hf: HeapFile) returns (r: Result<TableStats, StorageError>)
    requires hf.Valid() && AllConform(AllLive(hf.pages), table.file.desc)
    ensures r.Err? <==> |hf.pages| == 0
    ensures r.Err? ==> r.error == NoMoreData
    ensures r.Ok? ==> Describes(r.value, table, hf.pages)
  {
    if hf.NumPages() == 0 {
      return Err(NoMoreData);
    }
    var stats := new TableStats(table.file.desc, hf.NumPages(), AllLive(hf.pages), IoCostPerPage);
    r := Ok(stats);
  }

  /**
   * The loop of computeStatistics: statistics for every table, from its heap
   * file, put under the table's name into the registry `before`. A table
   * without pages stops the loop with an error; the tables visited before it
   * (in the map's unspecified order) keep their new entries.
   */
  method RegisterAll(tables: Tables, files: map<int, HeapFile>, before: map<string, TableStats>)
      returns (registered: map<string, TableStats>, r: Result<(), StorageError>)
    requires UniqueNames(tables) && FilesOf(tables, files)
    ensures r.Err? <==> exists id :: id in tables && |files[id].pages| == 0
    ensures r.Err? ==> r.error == NoMoreData
    ensures r.Ok? ==> forall id :: id in tables ==>
              var name := tables[id].name;
              && name in registered
              && Describes(registered[name], tables[id], files[id].pages)
    ensures r.Ok? ==> forall n :: n in before || HasName(tables, n) ==> n in registered
    ensures forall n :: n in registered ==> n in before || HasName(tables, n)
    ensures forall id :: id in tables && tables[id].name in registered ==>
              var name := tables[id].name;
              Describes(registered[name], tables[id], files[id].pages) || (name in before && registered[name] == before[name])
    ensures forall n :: n in before && !HasName(tables, n) ==> n in registered && registered[n] == before[n]
  {
    registered := before;
    ghost var pagesOf := map id | id in files :: files[id].pages;
    forall id | id in tables ensures id in pagesOf {
      assert id in files;
    }
    NothingRegistered(tables, pagesOf, before);
    var pending := tables.Keys;
    ghost var done: set<int> := {};
    while pending != {}
      invariant pending <= tables.Keys && done == tables.Keys - pending
      invariant Registered(tables, pagesOf, before, done, registered)
      invariant forall id :: id in done ==> |files[id].pages| > 0
      decreases |pending|
    {
      HasMember(pending);
      var tableid :| tableid in pending;
      var table := tables[tableid];
      var made := StatsOf(table, files[tableid]);
      if made.Err? {
        PartlyRegistered(tables, pagesOf, before, done, registered);
        return registered, Err(made.error);
      }
      var stats := made.value;
      RegisterStep(tables, pagesOf, before, done, registered, tableid, stats);
      registered := registered[table.name := stats];
      pending := pending - {tableid};
      done := done + {tableid};
    }
    assert done == tables.Keys;
    AllRegistered(tables, pagesOf, before, registered);
    PartlyRegistered(tables, pagesOf, before, done, registered);
    r := Ok(());
  }

  /** STATS_MAP: the statistics of each table, keyed by table name. */
  class StatsRegistry {
    var statsMap: map<string, TableStats>

    constructor ()
      ensures statsMap == map[]
    {
      statsMap := map[];
    }

    /** getTableStats: the statistics registered under the name, or none (null). */
    function GetTableStats(tablename: string): (r: Option<TableStats>)
      reads this
      ensures r.Some? <==> tablename in statsMap
      ensures r.Some? ==> r.value == statsMap[tablename]
    {
      if tablename in statsMap then Some(statsMap[tablename]) else None
    }

    /** setTableStats: the name now leads to these statistics; every other name keeps its entry. */
    method SetTableStats(tablename: string, stats: TableStats)
      modifies this
      ensures GetTableStats(tablename) == Some(stats)
      ensures forall n :: n != tablename ==> GetTableStats(n) == old(GetTableStats(n))
      ensures statsMap.Keys == old(statsMap.Keys) + {tablename}
    {
      statsMap := statsMap[tablename := stats];
    }

    /**
     * computeStatistics: for every table of the catalog, statistics built from
     * its heap file at IO_COST_PEERAGE, registered under the table's name.
     * Names of other tables keep their entries. A table whose file has no
     * pages makes new TableStats throw IllegalArgumentException, which leaves
     * computeStatistics with the tables visited so far registered.
     */
    method ComputeStatistics(catalog: Catalog, files: map<int, HeapFile>) returns (r: Result<(), StorageError>)
      requires catalog.Valid() && FilesOf(catalog.tables, files)
      modifies this
      ensures r.Err? <==> exists id :: id in catalog.tables && |files[id].pages| == 0
      ensures r.Err? ==> r.error == NoMoreData
      ensures r.Ok? ==> forall id :: id in catalog.tables ==>
                var name := catalog.tables[id].name;
                && name in statsMap
                && Describes(statsMap[name], catalog.tables[id], files[id].pages)
      ensures r.Ok? ==> forall n :: n in old(statsMap) || HasName(catalog.tables, n) ==> n in statsMap
      ensures forall n :: n in statsMap ==> n in old(statsMap) || HasName(catalog.tables, n)
      ensures forall id :: id in catalog.tables && catalog.tables[id].name in statsMap ==>
                var name := catalog.tables[id].name;
                || Describes(statsMap[name], catalog.tables[id], files[id].pages)
                || (name in old(statsMap) && statsMap[name] == old(statsMap[name]))
      ensures forall n :: n in old(statsMap) && !HasName(catalog.tables, n) ==> n in statsMap && statsMap[n] == old(statsMap[n])
    {
      statsMap, r := RegisterAll(catalog.tables, files, statsMap);
    }
  }
}
