/**
 * StringAggregator: grouped COUNT over a column of any type (the aggregate
 * field is never inspected). Every other operator is refused.
 */
module StringAggregation {
  import opened Types
  import opened Aggregates

  class StringAggregator {
    const gbfield: int
    const afield: int
    const handler: AggregateHandler
    const resTupleDesc: TupleDesc

    ghost predicate Valid()
      reads this, handler
    {
      && handler.Valid()
      && handler.kind == CountHandler
      && KeysMatchGrouping(handler.aggResult, gbfield != NoGrouping)
      && |resTupleDesc| > 0 && resTupleDesc == ResultDesc(gbfield != NoGrouping, resTupleDesc[0])
    }

    /** The constructor once the operator has been accepted: a fresh StringCountHandler. */
    constructor (gbfield: int, gbfieldtype: Type, afield: int)
      ensures Valid() && fresh(handler)
      ensures this.gbfield == gbfield && this.afield == afield
      ensures handler.aggResult == map[] && handler.Merged == []
      ensures resTupleDesc == ResultDesc(gbfield != NoGrouping, gbfieldtype)
    {
      this.gbfield := gbfield;
      this.afield := afield;
      handler := new AggregateHandler(CountHandler);
      resTupleDesc := ResultDesc(gbfield != NoGrouping, gbfieldtype);
    }

    /** The public constructor: only COUNT is supported. */
    static method New(gbfield: int, gbfieldtype: Type, afield: int, what: AggOp)
      returns (r: Result<StringAggregator, AggregatorError>)
      ensures r.Err? <==> what != CountOp
      ensures r.Ok? ==> && r.value.Valid() && fresh(r.value) && fresh(r.value.handler)
                        && r.value.gbfield == gbfield && r.value.afield == afield
                        && r.value.handler.aggResult == map[] && r.value.handler.Merged == []
    {
      if what != CountOp {
        return Err(NotSupported);
      }
      var agg := new StringAggregator(gbfield, gbfieldtype, afield);
      return Ok(agg);
    }

    /**
     * mergeTupleIntoGroup: one more tuple counted in its own group; the other
     * groups keep their counts.
     */
    method MergeTupleIntoGroup(tup: Tuple)
      requires Valid()
      requires 0 <= afield < |tup.fields|
      requires gbfield != NoGrouping ==> 0 <= gbfield < |tup.fields|
      modifies handler
      ensures Valid()
      ensures handler.Merged == old(handler.Merged) + [(GroupKey(gbfield, tup), tup.fields[afield])]
      ensures handler.aggResult
              == old(handler.aggResult)[GroupKey(gbfield, tup) := GetOrDefault(old(handler.aggResult), GroupKey(gbfield, tup), 0) + 1]
    {
      var gbField: Key := if gbfield == NoGrouping then None else Some(tup.fields[gbfield]);
      var aggField := tup.fields[afield];
      ghost var before := handler.aggResult;
      PreviousResult(CountHandler, handler.Merged, before, gbField);
      handler.Calculate(gbField, aggField);
      ExtendHistory(old(handler.Merged), (gbField, aggField));
    }

    /**
     * iterator: one (group, count) tuple per group, or a single (count) tuple
     * without grouping; nothing at all before the first merge.
     */
    method Iterator() returns (res: seq<Tuple>)
      requires Valid()
      ensures |res| == |handler.aggResult|
      ensures forall i :: 0 <= i < |res| ==>
                exists k :: k in handler.aggResult
                            && res[i] == ResultTuple(resTupleDesc, gbfield != NoGrouping, k, handler.aggResult[k])
      ensures forall k :: k in handler.aggResult ==>
                exists i :: 0 <= i < |res|
                            && res[i] == ResultTuple(resTupleDesc, gbfield != NoGrouping, k, handler.aggResult[k])
      ensures gbfield == NoGrouping ==> |res| <= 1
      ensures forall i :: 0 <= i < |res| ==> |res[i].fields| == |resTupleDesc|
      ensures handler.Merged == [] ==> res == []
    {
      res := Materialize(resTupleDesc, gbfield != NoGrouping, handler.aggResult);
      if gbfield == NoGrouping {
        UngroupedHasOneGroup(handler.aggResult);
      }
    }
  }
}
