/**
 * IntAggregator: grouped COUNT, SUM, MIN, MAX and AVG over an integer column.
 * The aggregator picks the handler for its operator once, routes every merged
 * tuple through it and turns the handler's result map into result tuples.
 */
module IntAggregation {
  import opened Types
  import opened Aggregates

  /** The handler factory: the handler registered for each operator, if any. */
  function HandlerFor(what: AggOp): (r: Option<HandlerKind>)
    ensures r.None? <==> what == SumCountOp || what == ScAvgOp
    ensures r.Some? ==> OpOf(r.value) == what
  {
    match what
    case CountOp => Some(CountHandler)
    case MinOp => Some(MinHandler)
    case AvgOp => Some(AvgHandler)
    case SumOp => Some(SumHandler)
    case MaxOp => Some(MaxHandler)
    case _ => None
  }

  /** Every handler is the one the factory registers for its own operator. */
  lemma {:induction false} FactoryCoversEveryHandler(kind: HandlerKind)
    ensures HandlerFor(OpOf(kind)) == Some(kind)
  {
    match kind
    case CountHandler =>
    case SumHandler =>
    case MaxHandler =>
    case MinHandler =>
    case AvgHandler =>
  }

  class IntAggregator {
    const gbfield: int
    const afield: int
    const handler: AggregateHandler
    const resTupleDesc: TupleDesc

    ghost predicate Valid()
      reads this, handler
    {
      && handler.Valid()
      && KeysMatchGrouping(handler.aggResult, gbfield != NoGrouping)
      && |resTupleDesc| > 0 && resTupleDesc == ResultDesc(gbfield != NoGrouping, resTupleDesc[0])
    }

    /** The body of the constructor once the factory has produced a handler. */
    constructor (gbfield: int, gbfieldtype: Type, afield: int, kind: HandlerKind)
      ensures Valid() && fresh(handler)
      ensures this.gbfield == gbfield && this.afield == afield && handler.kind == kind
      ensures handler.aggResult == map[] && handler.Merged == []
      ensures resTupleDesc == ResultDesc(gbfield != NoGrouping, gbfieldtype)
    {
      this.gbfield := gbfield;
      this.afield := afield;
      handler := new AggregateHandler(kind);
      resTupleDesc := ResultDesc(gbfield != NoGrouping, gbfieldtype);
    }

    /**
     * The public constructor: an operator without a registered handler is
     * refused, any other gets a fresh aggregator with an empty result.
     */
    static method New(gbfield: int, gbfieldtype: Type, afield: int, what: AggOp)
      returns (r: Result<IntAggregator, AggregatorError>)
      ensures r.Err? <==> HandlerFor(what).None?
      ensures r.Ok? ==> && r.value.Valid() && fresh(r.value) && fresh(r.value.handler)
                        && r.value.gbfield == gbfield && r.value.afield == afield
                        && OpOf(r.value.handler.kind) == what
                        && r.value.handler.aggResult == map[] && r.value.handler.Merged == []
    {
      var kind := HandlerFor(what);
      if kind.None? {
        return Err(NotSupported);
      }
      var agg := new IntAggregator(gbfield, gbfieldtype, afield, kind.value);
      return Ok(agg);
    }

    /**
     * mergeTupleIntoGroup: the tuple's aggregate field (an integer) goes to the
     * group named by its group-by field; only that group's result changes.
     */
    method MergeTupleIntoGroup(tup: Tuple)
      requires Valid()
      requires 0 <= afield < |tup.fields| && FieldHasType(tup.fields[afield], IntType)
      requires gbfield != NoGrouping ==> 0 <= gbfield < |tup.fields|
      modifies handler
      ensures Valid()
      ensures handler.Merged == old(handler.Merged) + [(GroupKey(gbfield, tup), tup.fields[afield])]
      ensures handler.aggResult
              == old(handler.aggResult)[GroupKey(gbfield, tup) := Expected(handler.kind, handler.Merged, GroupKey(gbfield, tup))]
    {
      var aggField := tup.fields[afield];
      var gbField: Key := if gbfield == NoGrouping then None else Some(tup.fields[gbfield]);
      handler.Calculate(gbField, aggField);
    }

    /**
     * iterator: one result tuple per group in the result map; without
     * grouping that is at most one tuple, holding just the aggregate.
     */
    method Iterator() returns (res: seq<Tuple>)
      requires Valid()
      ensures |res| == |handler.aggResult|
      ensures forall i :: 0 <= i < |res| ==>
                exists k :: k in handler.aggResult
                            && res[i] == ResultTuple(resTupleDesc, gbfield != NoGrouping, k, handler.aggResult[k])
      ensures forall k :: k in handler.aggResult ==>
                exists i :: 0 <= i < |res|
                            && res[i] == ResultTuple(resTupleDesc, gbfield != NoGrouping, k, handler.aggResult[k])
      ensures gbfield == NoGrouping ==> |res| <= 1
      ensures forall i :: 0 <= i < |res| ==> |res[i].fields| == |resTupleDesc|
      ensures handler.Merged == [] ==> res == []
    {
      res := Materialize(resTupleDesc, gbfield != NoGrouping, handler.aggResult);
      if gbfield == NoGrouping {
        UngroupedHasOneGroup(handler.aggResult);
      }
    }
  }
}
