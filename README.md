# SimpleDB core in Dafny

This project models the core of SimpleDB, a small teaching database written in
Java, and proves properties of the model. It covers six parts of the system.

- **Integer histograms** (`IntHistogram`): equal-width buckets over
  `[min, max]`, used by the optimizer to estimate the selectivity of `=`, `<>`,
  `<`, `<=`, `>` and `>=` against a constant.
- **Table statistics** (`TableStats`): a per-table summary built from two
  sequential scans. The first scan finds each integer column's bounds. The
  second fills one histogram per column. The summary gives the scan cost and
  the cardinality estimate. A registry maps table names to their statistics.
- **Aggregation** (`IntAggregator`, `StringAggregator`, `AggregateHandler`):
  COUNT, SUM, MIN, MAX and AVG, with or without a group-by field, kept as a
  running map from group key to result.
- **Delete** (`Delete`): an operator that drains its child, deletes each tuple
  through the buffer pool, and returns a single one-field tuple holding the
  count.
- **Heap files** (`HeapFile`, its inner iterator, and the standalone
  `HeapFileIterator`): a table stored as fixed-size pages of slots. The file
  supports first-fit insertion, deletion by record id, page reads and writes,
  and two page-by-page scans.
- **The catalog** (`Catalog`): a registry of tables keyed by file id with
  unique names, and the parser for one line of a schema file.

Modules:

- `Types`: fields, tuples and record ids.
- `Folds`: sums and min/max folds.
- `JavaStrings`: Java's `trim`, `split` and `equalsIgnoreCase`.
- `Histogram`, `Statistics`, `Aggregates`, `IntAggregation`,
  `StringAggregation`, `DeleteOperator`, `HeapStorage`, `FileScan`,
  `CatalogRegistry`: one module per source file.

How the model represents the Java program:

- Objects whose fields the Java code updates are Dafny classes. Their `Valid()`
  invariant ties the concrete state to a ghost history: the values added to a
  histogram, the (key, field) pairs merged into an aggregate, the tuples handed
  to the buffer pool for deletion.
- The estimates are pure functions of that history, and lemmas state what they
  mean.
- Exceptions become `Result`/`Option` values.
- Floating-point arithmetic is exact `real` arithmetic. NaN (no tuples) is an
  error value.
- The buffer pool's answers to Delete are a parameter.

Where the code departs from what its callers might expect, the model follows
the code:

- The inner heap-file iterator's `open` fails on a file with no pages, because
  it reads page 0 past the end of the file. It is not a no-op. So building
  statistics for such a table throws, and `computeStatistics` stops there.
- Delete skips a tuple whose deletion raises an I/O error. It does not stop.
- `estimateTableCardinality` truncates toward zero with an `(int)` cast. It
  does not round.
- The standalone `HeapFileIterator.hasNext` reports no more tuples when it
  reaches an empty page, even if later pages hold tuples. The model keeps this
  behaviour and proves it (`FileScan.BlankPageHidesLaterTuples`).

## Model

| member | source | states |
|---|---|---|
| Histogram.BucketIndex | src/java/simpledb/optimizer/IntHistogram.java:57-58 | the bucket of an in-range value is below the bucket count |
| Histogram.BucketIndexIsFloor | src/java/simpledb/optimizer/IntHistogram.java:57-58 | the integer bucket index is the floor of (v - min) / width, with width = (max - min + 1) / buckets: v lies in [i*width + min, (i+1)*width + min) |
| Histogram.BinsOf | src/java/simpledb/optimizer/IntHistogram.java:57-62 | the bucket counts of a value history have one entry per bucket |
| Histogram.BinsCountValues | src/java/simpledb/optimizer/IntHistogram.java:57-62 | bucket counts are non-negative and add up to the number of values added |
| Histogram.DistinctBound | src/java/simpledb/optimizer/IntHistogram.java:61 | the distinct-value set is no larger than the history, and non-empty once a value is added |
| Histogram.IntHistogram.constructor | src/java/simpledb/optimizer/IntHistogram.java:42-50 | a fresh histogram has zeroed buckets, no tuples, no distinct values and width (max - min + 1) / buckets |
| Histogram.IntHistogram.AddValue | src/java/simpledb/optimizer/IntHistogram.java:57-62 | adding v appends it to the history, bumps exactly its bucket, counts one more tuple and records v as seen, keeping the invariant |
| Histogram.IntHistogram.GetIndex | src/java/simpledb/optimizer/IntHistogram.java:93-98 | an index exists exactly for min <= v <= max; it is below the bucket count and is the floor of (v - min) / width |
| Histogram.IntHistogram.EstimateGreaterThan | src/java/simpledb/optimizer/IntHistogram.java:110-129 | the summing loop returns the specification's estimate: 0 at or above max, 1 below min, otherwise the right part of v's bucket plus the share of tuples in later buckets |
| Histogram.IntHistogram.EstimateLessThan | src/java/simpledb/optimizer/IntHistogram.java:132-151 | the summing loop returns the specification's estimate: 1 above max, 0 at or below min, otherwise the left part of v's bucket plus the share of tuples in earlier buckets |
| Histogram.IntHistogram.EstimateSelectivity | src/java/simpledb/optimizer/IntHistogram.java:74-91 | dispatches on the operator; <= and >= add the equality estimate, <> is one minus it, LIKE is an unsupported-operator error |
| Histogram.IntHistogram.AvgSelectivity | src/java/simpledb/optimizer/IntHistogram.java:160-162 | defined exactly when a value has been added, and then lies between 1/ntups and 1 |
| Histogram.AvgSelectivityOf | src/java/simpledb/optimizer/IntHistogram.java:160-162 | 1 / distinct is defined iff some value was seen, lies in (0, 1] and times the distinct count gives 1 |
| Histogram.ValidStateIsWf | src/java/simpledb/optimizer/IntHistogram.java:42-62 | every reachable histogram state has non-negative buckets summing to ntups |
| Histogram.PartsOfBucket | src/java/simpledb/optimizer/IntHistogram.java:119-120 | the fractions of v's bucket left and right of v are in [0, 1) and (0, 1] and add up to 1 |
| Histogram.ShareIsFraction | src/java/simpledb/optimizer/IntHistogram.java:128 | a bucket fraction plus a share of the remaining tuples is between 0 and 1 |
| Histogram.BinSplit | src/java/simpledb/optimizer/IntHistogram.java:122-125 | the buckets before, at and after an index partition the tuple count |
| Histogram.RangeEstimatesAreFractions | src/java/simpledb/optimizer/IntHistogram.java:110-151 | with tuples present, the < and > estimates are defined and lie in [0, 1] |
| Histogram.EqualEstimateBounds | src/java/simpledb/optimizer/IntHistogram.java:101-108 | with tuples present, the = estimate is defined and non-negative, and at most 1 when the bucket width is at least 1 |
| Histogram.EqualEstimateCanExceedOne | src/java/simpledb/optimizer/IntHistogram.java:101-108 | buckets narrower than one value: over [0, 0] with two buckets and the single value 0, the = estimate for 0 is 2 |
| Histogram.LessPlusGreaterIsOne | src/java/simpledb/optimizer/IntHistogram.java:110-151 | for min <= v < max the < and > estimates add up to exactly 1 |
| Histogram.OutOfRangeAnswers | src/java/simpledb/optimizer/IntHistogram.java:101-151 | outside [min, max] every operator gets a fixed 0 or 1 answer, with no arithmetic on the buckets |
| Histogram.EqualsPlusNotEqualsIsOne | src/java/simpledb/optimizer/IntHistogram.java:86-87 | the = and <> estimates add up to 1 |
| Histogram.SmallHistogramExample | src/java/simpledb/optimizer/IntHistogram.java:42-151 | values 0, 0, 50, 99 in 10 buckets over [0, 99]: = 0 gives 0.05, > 99 and < 0 give 0, LIKE is unsupported |
| Statistics.ColumnBoundsOrder | src/java/simpledb/optimizer/TableStats.java:97-122 | an integer column's computed min is at most its max exactly when the table has tuples |
| Statistics.BoundsStep | src/java/simpledb/optimizer/TableStats.java:109-115 | one more tuple updates each integer column's bounds by Math.min/Math.max and leaves other columns at the initial bounds |
| Statistics.BoundsPass | src/java/simpledb/optimizer/TableStats.java:97-122 | the first scan counts every tuple and yields each integer column's minimum and maximum over the scan |
| Statistics.BoundsOfTuple | src/java/simpledb/optimizer/TableStats.java:111-117 | after one tuple, every column's bounds are those of the scan up to and including that tuple |
| Statistics.ValuesWithinBounds | src/java/simpledb/optimizer/TableStats.java:125-147 | every value of an integer column lies within its computed bounds, so each addValue is in range |
| Statistics.StringHistogram.AddValue | src/java/simpledb/optimizer/TableStats.java:144-145 | a string value is appended to the histogram's history |
| Statistics.MakeHistograms | src/java/simpledb/optimizer/TableStats.java:125-133 | one fresh, empty histogram per column: an integer histogram over the column's bounds with 32 buckets for INT columns, a string histogram for STRING columns |
| Statistics.WithIntColumn | src/java/simpledb/optimizer/TableStats.java:126-129 | column i gets a fresh, empty 32-bucket integer histogram over the given bounds, shared with no other column |
| Statistics.WithStringColumn | src/java/simpledb/optimizer/TableStats.java:130-131 | column i gets a fresh, empty string histogram, shared with no other column |
| Statistics.AddTuple | src/java/simpledb/optimizer/TableStats.java:138-148 | each column's histogram receives exactly that tuple's field |
| Statistics.AddField | src/java/simpledb/optimizer/TableStats.java:140-146 | one field goes to its column's histogram and no other histogram changes |
| Statistics.FillHistograms | src/java/simpledb/optimizer/TableStats.java:136-154 | after the second scan, each histogram holds exactly its column of the scan, in scan order |
| Statistics.FillOne | src/java/simpledb/optimizer/TableStats.java:138-148 | after one more tuple, each histogram holds its column of the scan up to and including that tuple |
| Statistics.NextTuple | src/java/simpledb/optimizer/TableStats.java:138-148 | the tuple's integer values lie within the first-pass bounds, and each column grows by exactly that tuple's field |
| Statistics.JavaIntOf | src/java/simpledb/optimizer/TableStats.java:182 | the (int) cast: truncation toward zero inside the int range, saturating at Integer.MIN_VALUE / MAX_VALUE outside it |
| Statistics.TableStats.constructor | src/java/simpledb/optimizer/TableStats.java:89-155 | the statistics record the scan, its tuple count and page count, with one filled histogram per column |
| Statistics.TableStats.EstimateScanCost | src/java/simpledb/optimizer/TableStats.java:169-171 | an empty file costs nothing and a non-negative page cost gives a non-negative estimate |
| Statistics.TableStats.TotalTuples | src/java/simpledb/optimizer/TableStats.java:223-225 | the total is the number of tuples the scan produced |
| Statistics.TableStats.EstimateTableCardinality | src/java/simpledb/optimizer/TableStats.java:181-183 | the estimate is always a Java int |
| Statistics.HistogramsCountTuples | src/java/simpledb/optimizer/TableStats.java:125-154 | each integer histogram holds exactly its column of the scan, so its tuple count equals the table's |
| Statistics.CardinalityBounds | src/java/simpledb/optimizer/TableStats.java:181-183 | selectivity 1 gives the tuple count, 0 gives 0, and a selectivity in [0, 1] gives a count between 0 and the total |
| Statistics.CardinalityAtOne | src/java/simpledb/optimizer/TableStats.java:181-183 | selectivity 1 gives exactly the tuple count |
| Statistics.CardinalityAtZero | src/java/simpledb/optimizer/TableStats.java:181-183 | selectivity 0 gives 0 |
| Statistics.CardinalityWithin | src/java/simpledb/optimizer/TableStats.java:181-183 | a selectivity in [0, 1] gives a count between 0 and the total |
| Statistics.StatsRegistry.GetTableStats | src/java/simpledb/optimizer/TableStats.java:40-42 | a name's statistics are present iff the name is registered, and are the registered object |
| Statistics.StatsRegistry.SetTableStats | src/java/simpledb/optimizer/TableStats.java:44-46 | the name maps to the new statistics and every other name keeps its entry |
| Statistics.StatsRegistry.ComputeStatistics | src/java/simpledb/optimizer/TableStats.java:62-72 | fails with IllegalArgumentException iff some catalog table's file has no pages; otherwise every table's name gets statistics describing its file (descriptor, page count, live tuples, cost 1000 per page); in both cases every entry is old or a table's new statistics, and names no table has keep their entries |
| Statistics.RegisterAll | src/java/simpledb/optimizer/TableStats.java:66-70 | the loop over the catalog's tables stops with an error iff some table's file has no pages; otherwise every table's name gets statistics describing its file; nothing but old names and table names is ever registered, and names no table has keep their entries |
| Statistics.StatsOf | src/java/simpledb/optimizer/TableStats.java:68 | new TableStats(tableid, IO_COST_PEERAGE) throws IllegalArgumentException iff the file has no pages (opening the scan reads page 0 past the end); otherwise it describes the file: descriptor, page count, live tuples and the 1000 page cost |
| Statistics.PartlyRegistered | src/java/simpledb/optimizer/TableStats.java:66-70 | when the loop stops part way, every registered name is old or a table's, each table's entry is its new statistics or the old entry, and names no table has are untouched |
| Statistics.RegisterStep | src/java/simpledb/optimizer/TableStats.java:66-70 | registering one more table under its unique name keeps every earlier table's entry and every untouched old name |
| Aggregates.TruncDiv | src/java/simpledb/execution/IntAggregator.java:57 | Java's int division: the quotient truncates toward zero for either sign of the dividend |
| Aggregates.GetOrDefault | src/java/simpledb/execution/IntAggregator.java:21 | map.getOrDefault returns the entry when present and the default otherwise |
| Aggregates.GroupValuesSnoc | src/java/simpledb/execution/IntAggregator.java:18-58 | merging a pair appends its value to that key's group only, and adds the key |
| Aggregates.GroupValuesPresent | src/java/simpledb/execution/IntAggregator.java:18-58 | a key's group is non-empty iff the key has been merged |
| Aggregates.GroupValuesFromHistory | src/java/simpledb/execution/IntAggregator.java:18-58 | every value in a group comes from a merged pair with that key |
| Aggregates.AverageWithinExtremes | src/java/simpledb/execution/IntAggregator.java:50-58 | AVG of a group lies between the group's MIN and MAX |
| Aggregates.AverageTruncatesTowardZero | src/java/simpledb/execution/IntAggregator.java:57 | AVG of 1, 2 is 1 and AVG of -1, -2 is -1 |
| Aggregates.SumAndCountExample | src/java/simpledb/execution/IntAggregator.java:18-31 | (A, 1), (A, 3), (B, 2) grouped gives groups {A, B} with SUM 4 and 2; COUNT of three ungrouped tuples is 3 |
| Aggregates.AverageOfPair | src/java/simpledb/execution/IntAggregator.java:50-58 | AVG of two values is their sum divided by 2, truncating |
| Aggregates.TotalRemove | src/java/simpledb/execution/IntAggregator.java:18-23 | the total over a map splits into one entry plus the rest |
| Aggregates.TotalUpdate | src/java/simpledb/execution/IntAggregator.java:18-23 | overwriting one entry changes the total by the difference |
| Aggregates.CountsAddUp | src/java/simpledb/execution/IntAggregator.java:18-23 | the COUNT results over all groups add up to the number of merged tuples |
| Aggregates.PreviousResult | src/java/simpledb/execution/IntAggregator.java:18-48 | getOrDefault with the handler's initial value (0, Integer.MIN_VALUE or Integer.MAX_VALUE) gives the aggregate of the group so far |
| Aggregates.ResultsStep | src/java/simpledb/execution/IntAggregator.java:18-58 | storing the recomputed aggregate of the merged key keeps every group's result equal to its reference aggregate |
| Aggregates.RunningStep | src/java/simpledb/execution/IntAggregator.java:50-58 | the AVG handler's running sum and count maps stay the sum and size of each group |
| Aggregates.AggregateHandler.constructor | src/java/simpledb/execution/AggregateHandler.java:13-17 | a new handler has an empty result map and an empty history |
| Aggregates.AggregateHandler.Calculate | src/java/simpledb/execution/IntAggregator.java:18-58 | each handler's calculate records the pair and sets the key's result to COUNT, SUM, MAX, MIN or truncated AVG of its group; other keys keep theirs |
| Aggregates.AggregateHandler.Recompute | src/java/simpledb/execution/IntAggregator.java:18-58 | the new result for the key is the handler's aggregate of the group with the new value appended, and AVG's running sum and count move by the value and one |
| Aggregates.ExtremeIsGroupMember | src/java/simpledb/execution/IntAggregator.java:33-48 | a MIN/MAX result is one of the group's values and is below/above all of them |
| Aggregates.CountHandlerTotal | src/java/simpledb/execution/IntAggregator.java:18-23 | a COUNT handler's results add up to the number of merged tuples |
| Aggregates.ResultDesc | src/java/simpledb/execution/IntAggregator.java:96-101 | the result schema is (group, aggregate) when grouping and (aggregate) otherwise, the aggregate being INT |
| Aggregates.UngroupedHasOneGroup | src/java/simpledb/execution/IntAggregator.java:122-126 | without grouping there is at most one group |
| Aggregates.GroupKey | src/java/simpledb/execution/IntAggregator.java:122-124 | the key is the group-by field of the tuple when grouping and null (None) otherwise |
| Aggregates.Materialize | src/java/simpledb/execution/IntAggregator.java:136-150 | one result tuple per group, each group appearing once, each tuple (group, value) or (value) |
| IntAggregation.HandlerFor | src/java/simpledb/execution/IntAggregator.java:106-113 | the handler factory covers COUNT, SUM, MAX, MIN and AVG and nothing else, each handler computing its operator |
| IntAggregation.FactoryCoversEveryHandler | src/java/simpledb/execution/IntAggregator.java:106-113 | every handler kind is what the factory returns for its own operator |
| IntAggregation.IntAggregator.constructor | src/java/simpledb/execution/IntAggregator.java:91-104 | a fresh aggregator with an empty handler of the requested kind and the result schema for its grouping |
| IntAggregation.IntAggregator.New | src/java/simpledb/execution/IntAggregator.java:91-104 | construction fails with IllegalArgumentException exactly for operators without a handler; otherwise the aggregator starts empty |
| IntAggregation.IntAggregator.MergeTupleIntoGroup | src/java/simpledb/execution/IntAggregator.java:122-126 | the tuple's (group key, aggregate field) is merged, and only that group's result changes, to the aggregate of its group |
| IntAggregation.IntAggregator.Iterator | src/java/simpledb/execution/IntAggregator.java:136-150 | one result tuple per group with the current result; at most one when not grouping; none before any merge |
| StringAggregation.StringAggregator.constructor | src/java/simpledb/execution/StringAggregator.java:40-52 | a fresh aggregator with an empty COUNT handler |
| StringAggregation.StringAggregator.New | src/java/simpledb/execution/StringAggregator.java:40-52 | construction fails exactly when the operator is not COUNT |
| StringAggregation.StringAggregator.MergeTupleIntoGroup | src/java/simpledb/execution/StringAggregator.java:58-62 | the tuple's group count goes up by one; other groups keep theirs |
| StringAggregation.StringAggregator.Iterator | src/java/simpledb/execution/StringAggregator.java:72-86 | one (group, count) or (count) tuple per group; at most one when not grouping |
| DeleteOperator.CountTuple | src/java/simpledb/execution/Delete.java:87-89 | the result is a one-field INT tuple holding the count |
| DeleteOperator.FailureSticks | src/java/simpledb/execution/Delete.java:78-86 | once a deletion raises a DbException or abort, the pass result is that error whatever follows |
| DeleteOperator.DrainCountsDeletions | src/java/simpledb/execution/Delete.java:77-89 | the pass succeeds iff no deletion fails fatally, and then counts exactly the deletions that went through (I/O failures skipped) |
| DeleteOperator.DrainStep | src/java/simpledb/execution/Delete.java:78-86 | one more answer: a fatal failure ends the pass with its error, a deletion adds one to the count, anything else leaves it |
| DeleteOperator.DeletionsBound | src/java/simpledb/execution/Delete.java:78-86 | the count is at most the number of child tuples, and equals it iff every deletion succeeded |
| DeleteOperator.PassCountBound | src/java/simpledb/execution/Delete.java:78-86 | a successful pass reports no more deletions than tuples it read |
| DeleteOperator.ChildIterator.HasNext | src/java/simpledb/execution/Delete.java:78 | the child has a next tuple iff its position is before the end |
| DeleteOperator.ChildIterator.Next | src/java/simpledb/execution/Delete.java:79 | the child yields the tuple at its position and advances by one |
| DeleteOperator.Delete.constructor | src/java/simpledb/execution/Delete.java:39-44 | a new operator has a one-INT-field schema, has not run and has requested no deletions |
| DeleteOperator.Delete.Rewind | src/java/simpledb/execution/Delete.java:60-63 | rewinding resets the child to its start and clears the has-run flag |
| DeleteOperator.Delete.FetchNext | src/java/simpledb/execution/Delete.java:74-92 | the first call drains the child, sends each tuple to the buffer pool and returns the count tuple or the first fatal error; later calls return null |
| DeleteOperator.Delete.Drain | src/java/simpledb/execution/Delete.java:77-86 | the loop's result is the reference pass result over the remaining child tuples, and exactly those tuples are requested for deletion |
| DeleteOperator.Delete.GetChildren | src/java/simpledb/execution/Delete.java:95-97 | the children are the single child operator |
| DeleteOperator.Delete.SetChildren | src/java/simpledb/execution/Delete.java:100-102 | the first child becomes the operator's child; an empty array is an ArrayIndexOutOfBounds error and leaves the operator unchanged |
| HeapStorage.OffsetWithinFile | src/java/simpledb/storage/HeapFile.java:73-88 | a page's offset lies within a file of n pages iff its number is below n |
| HeapStorage.WholePages | src/java/simpledb/storage/HeapFile.java:107-109 | the page count computed from the file length is the number of pages |
| HeapStorage.EmptySlots | src/java/simpledb/storage/HeapFile.java:126 | a new page has every slot empty |
| HeapStorage.EmptySlotsCount | src/java/simpledb/storage/HeapFile.java:119 | the number of empty slots is at most the slot count and positive iff a slot is free |
| HeapStorage.FirstEmpty | src/java/simpledb/storage/HeapFile.java:120 | the chosen slot is empty and every earlier slot is full |
| HeapStorage.PlaceOnPage | src/java/simpledb/storage/HeapFile.java:113-133 | a tuple can be placed iff its descriptor matches the file's and the page has a free slot |
| HeapStorage.FillOneSlot | src/java/simpledb/storage/HeapFile.java:120 | filling an empty slot leaves one fewer empty slot |
| HeapStorage.ClearOneSlot | src/java/simpledb/storage/HeapFile.java:147 | clearing a full slot leaves one more empty slot |
| HeapStorage.PlacedTuple | src/java/simpledb/storage/HeapFile.java:113-133 | the placed tuple gets the record id of its slot, no other slot changes and the page holds one more tuple |
| HeapStorage.FirstFree | src/java/simpledb/storage/HeapFile.java:116-124 | the page chosen for insertion is the first with a free slot; none means every page is full |
| HeapStorage.WrittenReadsBack | src/java/simpledb/storage/HeapFile.java:92-102 | after a write, reading the page gives what was written, other pages are unchanged and pages skipped past the end read as empty |
| HeapStorage.InsertFirstFit | src/java/simpledb/storage/HeapFile.java:113-133 | insertion fills the first page with room, or appends one new page when all are full, changing only that page and adding one tuple to it |
| HeapStorage.NoTuplesOnEmptyPage | src/java/simpledb/storage/HeapFile.java:126 | every slot of a new page is free |
| HeapStorage.AppendedPageHasRoom | src/java/simpledb/storage/HeapFile.java:125-131 | when every page is full, a matching tuple still goes in, onto the appended page |
| HeapStorage.DeleteTouchesOnePage | src/java/simpledb/storage/HeapFile.java:137-150 | deletion fails on a descriptor mismatch or a foreign table; otherwise it empties exactly the tuple's slot and changes only its page |
| HeapStorage.HeapFile.constructor | src/java/simpledb/storage/HeapFile.java:33-37 | a heap file over the given pages and descriptor |
| HeapStorage.HeapFile.NumPages | src/java/simpledb/storage/HeapFile.java:107-109 | the page count is the number of stored pages |
| HeapStorage.HeapFile.ReadPage | src/java/simpledb/storage/HeapFile.java:73-88 | a page can be read iff its number is below the page count, and it is then the stored page |
| HeapStorage.HeapFile.WritePage | src/java/simpledb/storage/HeapFile.java:92-102 | the new pages are the written-page function of the old ones |
| HeapStorage.HeapFile.InsertTuple | src/java/simpledb/storage/HeapFile.java:113-133 | the result and the new pages are the first-fit insertion outcome of the old pages |
| HeapStorage.HeapFile.DeleteTuple | src/java/simpledb/storage/HeapFile.java:137-150 | the result and the new pages are the deletion outcome of the old pages |
| HeapStorage.FirstFreeAt | src/java/simpledb/storage/HeapFile.java:116-124 | a page with room after only full pages is the one chosen |
| HeapStorage.NoFreePage | src/java/simpledb/storage/HeapFile.java:116-124 | with every page full, no page is chosen |
| HeapStorage.AllLiveSplit | src/java/simpledb/storage/HeapFile.java:172-199 | the live tuples from a page on are that page's followed by the rest |
| HeapStorage.NextPageStep | src/java/simpledb/storage/HeapFile.java:177-194 | moving to the next page keeps the pending tuples the same |
| HeapStorage.LastPageStep | src/java/simpledb/storage/HeapFile.java:177-194 | at the last page with its tuples used up nothing is pending |
| HeapStorage.HeapFileIterator.constructor | src/java/simpledb/storage/HeapFile.java:159-162 | a new iterator is closed and yields nothing |
| HeapStorage.HeapFileIterator.Open | src/java/simpledb/storage/HeapFile.java:165-169 | opening succeeds iff the file has a page; the iterator then yields every live tuple of the file in page and slot order |
| HeapStorage.HeapFileIterator.ReadNext | src/java/simpledb/storage/HeapFile.java:172-199 | returns the next pending tuple and removes it, skipping empty pages; nothing once all are consumed |
| HeapStorage.HeapFileIterator.Close | src/java/simpledb/storage/HeapFile.java:208-212 | a closed iterator has no page and no tuple iterator |
| HeapStorage.HeapFileIterator.Rewind | src/java/simpledb/storage/HeapFile.java:202-205 | rewinding restarts the scan at page 0 with every live tuple pending, failing like open on an empty file |
| FileScan.ClosedHasNothing | src/java/simpledb/storage/HeapFileIterator.java:53-78 | a closed iterator has no next tuple, and next throws NoSuchElementException |
| FileScan.OpenStartsAtPageZero | src/java/simpledb/storage/HeapFileIterator.java:44-47 | opening positions the iterator before page 0 with no tuple iterator |
| FileScan.HasNextFetchesInOrder | src/java/simpledb/storage/HeapFileIterator.java:53-64 | hasNext loads the next page only when the current tuples are used up, and then answers whether that page has live tuples |
| FileScan.NextAgreesWithHasNext | src/java/simpledb/storage/HeapFileIterator.java:73-78 | next succeeds iff hasNext is true, and returns the first held tuple |
| FileScan.FirstBlank | src/java/simpledb/storage/HeapFileIterator.java:53-64 | the first page from p on with no live tuples (or the end), all pages before it non-empty |
| FileScan.ScanStopsAtFirstBlank | src/java/simpledb/storage/HeapFileIterator.java:53-78 | iterating to exhaustion yields the held tuples and then the live tuples of the pages up to the first empty page |
| FileScan.FullScanWithoutBlankPages | src/java/simpledb/storage/HeapFileIterator.java:53-78 | without empty pages, a full iteration yields every live tuple of the file |
| FileScan.BlankPageHidesLaterTuples | src/java/simpledb/storage/HeapFileIterator.java:53-64 | an empty first page makes hasNext false even though page 1 holds a tuple |
| FileScan.HeapFileIterator.constructor | src/java/simpledb/storage/HeapFileIterator.java:17-37 | a new iterator is closed |
| FileScan.HeapFileIterator.HasNextPage | src/java/simpledb/storage/HeapFileIterator.java:20-22 | there is a next page iff the page number is non-negative and below the page count |
| FileScan.HeapFileIterator.NextTupleIter | src/java/simpledb/storage/HeapFileIterator.java:24-32 | returns the live tuples of the current page and advances the page number |
| FileScan.HeapFileIterator.Open | src/java/simpledb/storage/HeapFileIterator.java:44-47 | the new state is the open step of the old one |
| FileScan.HeapFileIterator.HasNext | src/java/simpledb/storage/HeapFileIterator.java:53-64 | answer and new state are the hasNext step of the old state |
| FileScan.HeapFileIterator.Next | src/java/simpledb/storage/HeapFileIterator.java:73-78 | result and new state are the next step of the old state |
| FileScan.HeapFileIterator.Close | src/java/simpledb/storage/HeapFileIterator.java:92-95 | the iterator is closed |
| FileScan.HeapFileIterator.Rewind | src/java/simpledb/storage/HeapFileIterator.java:85-88 | rewinding is closing then opening |
| CatalogRegistry.WithoutName | src/java/simpledb/common/Catalog.java:61-65 | the tables left after removing a name are exactly those with another name, unchanged |
| CatalogRegistry.AddTableRegistersLast | src/java/simpledb/common/Catalog.java:60-67 | after addTable the file's id maps to the new table, no other table has its name, and every other table is kept unless it had that name |
| CatalogRegistry.AddTableKeepsInvariant | src/java/simpledb/common/Catalog.java:60-67 | addTable keeps tables keyed by their file id and names unique |
| CatalogRegistry.Catalog.constructor | src/java/simpledb/common/Catalog.java:46-48 | a new catalog is empty |
| CatalogRegistry.Catalog.AddTable | src/java/simpledb/common/Catalog.java:60-67 | the loop removes every table with the name, then the file is registered under it |
| CatalogRegistry.Catalog.AddTableWithoutKey | src/java/simpledb/common/Catalog.java:69-71 | adding with an empty primary key |
| CatalogRegistry.Catalog.AddAnonymousTable | src/java/simpledb/common/Catalog.java:81-83 | adding with an empty name and primary key |
| CatalogRegistry.Catalog.GetTableId | src/java/simpledb/common/Catalog.java:90-97 | the search finds an id iff some table has the name, and that table has it; otherwise NoSuchElementException |
| CatalogRegistry.Catalog.GetTupleDesc | src/java/simpledb/common/Catalog.java:106-113 | the descriptor is found iff the id is registered, and is that table's |
| CatalogRegistry.Catalog.GetDatabaseFile | src/java/simpledb/common/Catalog.java:122-128 | the file is found iff the id is registered, and has that id |
| CatalogRegistry.Catalog.GetPrimaryKey | src/java/simpledb/common/Catalog.java:130-136 | a primary key is found iff the id is registered |
| CatalogRegistry.Catalog.GetTableName | src/java/simpledb/common/Catalog.java:142-148 | a name is found iff the id is registered, and no other table has it |
| CatalogRegistry.Catalog.TableIds | src/java/simpledb/common/Catalog.java:138-140 | the table ids are exactly those with a registered table |
| CatalogRegistry.Catalog.Clear | src/java/simpledb/common/Catalog.java:153-155 | clearing removes every table |
| CatalogRegistry.Catalog.LoadSchemaLine | src/java/simpledb/common/Catalog.java:168-201 | a line parses to its schema, and the table is then added under its name and primary key; a bad line leaves the catalog unchanged |
| CatalogRegistry.GettersAfterAddTable | src/java/simpledb/common/Catalog.java:60-148 | after addTable every getter returns the added file's descriptor, file, key and name, and the name lookup finds only that id |
| CatalogRegistry.ParseField | src/java/simpledb/common/Catalog.java:177-194 | a parsed field name contains no space |
| CatalogRegistry.FieldResults | src/java/simpledb/common/Catalog.java:173-177 | each comma-separated text is parsed on its own, in order |
| CatalogRegistry.Collect | src/java/simpledb/common/Catalog.java:177-195 | a successful parse has one field per text |
| CatalogRegistry.ParseFields | src/java/simpledb/common/Catalog.java:173-195 | a successful parse has one field per comma-separated text |
| CatalogRegistry.PrimaryKeyOf | src/java/simpledb/common/Catalog.java:176-189 | the primary key is empty or the name of a field marked pk |
| CatalogRegistry.FirstErrorSticks | src/java/simpledb/common/Catalog.java:183-192 | after the first failing field (System.exit), later fields do not change the outcome |
| CatalogRegistry.CollectStep | src/java/simpledb/common/Catalog.java:177-195 | a good field appends its spec to the fields so far |
| CatalogRegistry.FailingFieldEndsCollect | src/java/simpledb/common/Catalog.java:183-192 | the line's error is that of its first failing field |
| CatalogRegistry.SpecsSnoc | src/java/simpledb/common/Catalog.java:178-190 | a field adds its name and type, and becomes the primary key if marked pk |
| CatalogRegistry.ParseSchemaLine | src/java/simpledb/common/Catalog.java:168-196 | the parse returns the reference schema of the line |
| CatalogRegistry.ReadFields | src/java/simpledb/common/Catalog.java:177-195 | the field loop fails iff some field fails, with the first field's error, and otherwise collects names, types and the last pk in order |
| CatalogRegistry.ParsedLineIsConsistent | src/java/simpledb/common/Catalog.java:168-196 | a parsed line has as many names as types, its key is empty or one of the names, its name is trimmed and no field name contains a space |
| CatalogRegistry.FieldNamesHaveNoSpace | src/java/simpledb/common/Catalog.java:178-179 | every parsed field name is free of spaces |
| CatalogRegistry.NoParenthesisIsInvalid | src/java/simpledb/common/Catalog.java:170 | a line without "(" is an invalid catalog entry |
| CatalogRegistry.TypeKeywordsIgnoreCase | src/java/simpledb/common/Catalog.java:180-183 | INT, Int, STRING and String are types, integer and str are not |
| CatalogRegistry.KeyAnnotation | src/java/simpledb/common/Catalog.java:187-193 | a third word makes the field the key when it is exactly pk, and is an unknown annotation otherwise (case-sensitive) |
| JavaStrings.TrimKeepsTheMiddle | src/java/simpledb/common/Catalog.java:170 | trim removes only leading and trailing blanks (code point at most U+0020) and keeps the middle |
| JavaStrings.TrimIdempotent | src/java/simpledb/common/Catalog.java:170 | trimming twice is trimming once |
| JavaStrings.JoinPieces | src/java/simpledb/common/Catalog.java:173 | the pieces of a string between separators rejoin to the string |
| JavaStrings.PiecesOfJoin | src/java/simpledb/common/Catalog.java:173 | splitting separator-free parts after joining them gives the parts back |
| JavaStrings.SplitDropsOnlyTrailingEmpty | src/java/simpledb/common/Catalog.java:173 | String.split keeps every piece except trailing empty ones |
| Folds.BoundsHold | src/java/simpledb/optimizer/TableStats.java:109-115 | every value lies between the running Math.min and Math.max folds |
| Folds.BoundsAttained | src/java/simpledb/optimizer/TableStats.java:97-115 | folds of no values stay at Integer.MAX_VALUE / MIN_VALUE; otherwise the bounds are values of the column |

## Left out

- File I/O: `RandomAccessFile` reads and writes, the `.dat` file name, and the swallowed `IOException` in `writePage`. Pages are a sequence in memory; a page's byte layout (header bitmap, `HeapPage`) is abstracted as a sequence of optional tuples.
- `HeapFile.getId` hashes the absolute file path; the model takes the id as given. `getFile` and `getTupleDesc` are plain field reads.
- The buffer pool, locks and transactions: `insertTuple`, `deleteTuple` and both iterators read pages directly. Delete receives the buffer pool's answer for each tuple as a parameter.
- `Delete.open` and `Delete.close` only forward to the child and the operator base class; the base class is not part of this model.
- `ConcurrentHashMap` concurrency of the statistics map, the reflective `setStatsMap`/`getStatsMap` and the progress messages of `computeStatistics`.
- `loadSchema`'s file reading, its `System.exit` and its printing: only the parse of one line and the resulting `addTable` are modelled. A line that fails stops the Java loop; in the model it returns an error.
- `HashMap` iteration order: `tableIdIterator`, the aggregate iterators and `computeStatistics` are order-free in the model (sets and maps).
- `TableStats.avgSelectivity`, `TableStats.estimateSelectivity` and the `StringHistogram` estimates are not part of this model; a `StringHistogram` keeps only the values added to it.
- Floating point: all `double` arithmetic is exact `real` arithmetic, so IEEE rounding (for example in `(v - min) / width`) is not modelled; NaN from `0.0 / 0` is the error `NoTuples` and `1.0 / 0` in `avgSelectivity` is `None`.
- Java `int` overflow: SUM and AVG's running sum, `max - min + 1`, `numPages * ioCostPerPage`, and the unbounded tuple counter are not wrapped. For an empty table Java builds a histogram with min = Integer.MAX_VALUE and max = Integer.MIN_VALUE, where `max - min + 1` wraps; the model's width differs there, but every estimate on that histogram is one of its out-of-range answers.
- Histogram.IntHistogram.AddValue: `max - min + 1` (IntHistogram.java:48) and `v - min` (IntHistogram.java:58) are not wrapped to 32 bits. For a range spanning 2^31 or more, such as min = Integer.MIN_VALUE and max = 0, Java's width is negative and `addValue(0)` computes index 32 of a 32-bucket array and throws ArrayIndexOutOfBoundsException; the model puts every value in [min, max] into a bucket, so it describes only histograms whose range fits in a Java int.
- Statistics.ValuesWithinBounds: holds for unbounded integers; with Java's wrap-around an INT column whose values span 2^31 or more (for example {Integer.MIN_VALUE, 0}) makes an `addValue` in pass two throw, and the exception leaves the `TableStats` constructor (TableStats.java:119 and :149 catch only DbException and TransactionAbortedException) and `computeStatistics`. The model's statistics are those of tables whose INT columns span less than 2^31.
- The `DbException` and `TransactionAbortedException` that the `TableStats` constructor catches and prints (TableStats.java:119 and :149) come from the buffer pool, which is not part of this model: the constructor receives the scan's tuples. The `IllegalArgumentException` it does not catch, from scanning a file without pages, is modelled by `Statistics.StatsOf`.
- Histogram.IntHistogram.constructor: requires at least one bucket; Java with zero buckets builds an unusable histogram (infinite width, empty array).
- Histogram.IntHistogram.AddValue: requires min <= v <= max, as every caller in the core guarantees; Java truncates a value slightly below min into bucket 0 and throws for values past the last bucket.
- IntAggregation.IntAggregator.MergeTupleIntoGroup: requires an INT aggregate field; Java throws ClassCastException for a string field.
- Statistics.StatsRegistry.ComputeStatistics: states what each registered statistics object describes (descriptor, page count, live tuples, page cost) but not that its histograms are filled; that is stated by the constructor it calls. When a table without pages stops it, which other tables were registered first depends on HashMap order and is not stated.
- DeleteOperator.Delete.FetchNext: the child is a list of tuples whose `hasNext` and `next` (Delete.java:78-79) cannot fail; a child that throws DbException or TransactionAbortedException, which Java lets out of `fetchNext` after `isDeleted` is set, is not modelled, so `r.Ok?` depends only on the buffer pool's answers.
- DeleteOperator.Delete.Drain: the same list-backed child; only the buffer pool's answers can end the loop early.
- Statistics.TableStats.EstimateScanCost: states only that zero pages cost nothing and that the cost is non-negative; the product itself is the body.
- Statistics.TableStats.EstimateTableCardinality: its own contract states only that the result is a Java int; the bounds are the lemma Statistics.CardinalityBounds.
