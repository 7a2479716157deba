/**
 * The delete operator: on its first fetch it drains its child, asks the
 * buffer pool to delete every tuple it reads, and returns a single tuple
 * holding the number of deletions that succeeded.
 *
 * The buffer pool is not part of this model: its answer to the i-th deletion
 * request of a pass is the parameter `respond(i)`, so every sequence of
 * answers is covered.
 */
module DeleteOperator {
  import opened Types

  /** How the buffer pool answers one deleteTuple call. */
  datatype DeleteOutcome =
    | Deleted
    | IoFailure   // IOException: reported and skipped
    | Aborted     // TransactionAbortedException: propagates
    | DbFailure   // DbException: propagates

  /** The exceptions fetchNext lets through. */
  datatype DeleteError = TransactionAborted | DbError

  /** The exception setChildren raises for an empty array. */
  datatype IndexError = ArrayIndexOutOfBounds

  type TransactionId = nat

  predicate Fails(o: DeleteOutcome) {
    o.Aborted? || o.DbFailure?
  }

  function ErrorOf(o: DeleteOutcome): DeleteError
    requires Fails(o)
  {
    if o.Aborted? then TransactionAborted else DbError
  }

  /** How many of the first n requests of a pass the buffer pool carried out. */
  function Deletions(respond: nat -> DeleteOutcome, n: nat): nat {
    if n == 0 then 0
    else Deletions(respond, n - 1) + (if respond(n - 1).Deleted? then 1 else 0)
  }

  /**
   * The outcome of a pass of n requests: the count of successful deletions,
   * or the error of the first answer that propagates.
   */
  function DrainResult(respond: nat -> DeleteOutcome, n: nat): Result<nat, DeleteError> {
    if n == 0 then Ok(0)
    else
      var prior := DrainResult(respond, n - 1);
      var o := respond(n - 1);
      if prior.Err? then prior
      else if Fails(o) then Err(ErrorOf(o))
      else if o.Deleted? then Ok(prior.value + 1)
      else Ok(prior.value)
  }

  /** The count tuple fetchNext returns. */
  function CountTuple(count: int): (t: Tuple)
    ensures t.desc == [IntType] && t.fields == [IntField(count)]
  {
    Tuple([IntType], [IntField(count)], None)
  }

  // ---------------------------------------------------------------------------
  // Properties of a pass

  /** Once a request has failed, later answers no longer matter. */
  lemma {:induction false} FailureSticks(respond: nat -> DeleteOutcome, k: nat, n: nat)
    requires k <= n && DrainResult(respond, k).Err?
    ensures DrainResult(respond, n) == DrainResult(respond, k)
    decreases n - k
  {
    if k < n {
      FailureSticks(respond, k, n - 1);
    }
  }

  /** One more answer: an error ends the pass, a deletion adds one to the count. */
  lemma DrainStep(respond: nat -> DeleteOutcome, n: nat, count: nat)
    requires DrainResult(respond, n) == Ok(count)
    ensures Fails(respond(n)) ==> DrainResult(respond, n + 1) == Err(ErrorOf(respond(n)))
    ensures !Fails(respond(n)) ==>
              DrainResult(respond, n + 1) == Ok(if respond(n).Deleted? then count + 1 else count)
  {
  }

  /**
   * A pass succeeds exactly when no answer propagates an error, and then
   * reports the number of answers that were deletions: IOExceptions are
   * skipped, not counted.
   */
  lemma {:induction false} DrainCountsDeletions(respond: nat -> DeleteOutcome, n: nat)
    ensures DrainResult(respond, n).Ok? <==> forall i :: 0 <= i < n ==> !Fails(respond(i))
    ensures DrainResult(respond, n).Ok? ==> DrainResult(respond, n).value == Deletions(respond, n)
  {
    if n > 0 {
      DrainCountsDeletions(respond, n - 1);
    }
  }

  /** The count never exceeds the number of requests, and reaches it exactly when every request succeeds. */
  lemma {:induction false} DeletionsBound(respond: nat -> DeleteOutcome, n: nat)
    ensures Deletions(respond, n) <= n
    ensures Deletions(respond, n) == n <==> forall i :: 0 <= i < n ==> respond(i).Deleted?
  {
    if n > 0 {
      DeletionsBound(respond, n - 1);
    }
  }

  // ---------------------------------------------------------------------------
  // The child operator

  /** A child operator over a fixed list of tuples, read through a cursor. */
  class ChildIterator {
    const tuples: seq<Tuple>
    var pos: nat

    ghost predicate Valid()
      reads this
    {
      pos <= |tuples|
    }

    constructor (tuples: seq<Tuple>)
      ensures Valid() && this.tuples == tuples && pos == 0
    {
      this.tuples := tuples;
      pos := 0;
    }

    /** The tuples not read yet. */
    ghost function Remaining(): seq<Tuple>
      reads this
      requires Valid()
    {
      tuples[pos..]
    }

    method HasNext() returns (b: bool)
      requires Valid()
      ensures b <==> pos < |tuples|
    {
      b := pos < |tuples|;
    }

    method Next() returns (t: Tuple)
      requires Valid() && pos < |tuples|
      modifies this
      ensures Valid() && t == old(tuples[pos]) && pos == old(pos) + 1
    {
      t := tuples[pos];
      pos := pos + 1;
    }

    method Rewind()
      modifies this
      ensures Valid() && pos == 0
    {
      pos := 0;
    }
  }

  // ---------------------------------------------------------------------------
  // The operator

  class Delete {
    const tid: TransactionId
    var child: ChildIterator
    const tupleDesc: TupleDesc
    /** Whether the pass has run since construction or the last rewind. */
    var isDeleted: bool
    /** Every tuple handed to the buffer pool for deletion, in order. */
    ghost var Requested: seq<Tuple>

    ghost predicate Valid()
      reads this, child
    {
      child.Valid() && tupleDesc == [IntType]
    }

    /** The result schema is one INT column; the pass has not run yet. */
    constructor (t: TransactionId, child: ChildIterator)
      requires child.Valid()
      ensures Valid() && tid == t && this.child == child
      ensures tupleDesc == [IntType] && !isDeleted && Requested == []
    {
      tid := t;
      this.child := child;
      tupleDesc := [IntType];
      isDeleted := false;
      Requested := [];
    }

    /** rewind: the child starts over and the next fetch runs the pass again. */
    method Rewind()
      requires Valid()
      modifies this, child
      ensures Valid() && child == old(child)
      ensures child.pos == 0 && !isDeleted && Requested == old(Requested)
    {
      child.Rewind();
      isDeleted := false;
    }

    /**
     * fetchNext: the first call drains the child, asking for the deletion of
     * every tuple read, and reports how many deletions succeeded; the flag is
     * raised before the pass, so a pass cut short by an error still counts as
     * run. Every later call reports the end of the stream.
     */
    method FetchNext(respond: nat -> DeleteOutcome) returns (r: Result<Option<Tuple>, DeleteError>)
      requires Valid()
      modifies this, child
      ensures Valid() && child == old(child) && isDeleted
      ensures old(isDeleted) ==> r == Ok(None) && child.pos == old(child.pos) && Requested == old(Requested)
      ensures !old(isDeleted) ==>
                var pass := DrainResult(respond, |old(child.Remaining())|);
                && (r.Ok? <==> pass.Ok?)
                && (r.Ok? ==> r.value == Some(CountTuple(pass.value)) && child.pos == |child.tuples|)
                && (r.Err? ==> r.error == pass.error)
                && old(child.pos) <= child.pos
                && Requested == old(Requested) + child.tuples[old(child.pos)..child.pos]
    {
      if isDeleted {
        return Ok(None);
      }
      isDeleted := true;
      var pass := Drain(respond);
      match pass {
        case Ok(count) => r := Ok(Some(CountTuple(count)));
        case Err(e) => r := Err(e);
      }
    }

    /** The loop of fetchNext: read every child tuple and request its deletion. */
    method Drain(respond: nat -> DeleteOutcome) returns (pass: Result<nat, DeleteError>)
      requires Valid()
      modifies this, child
      ensures Valid() && child == old(child) && isDeleted == old(isDeleted)
      ensures pass == DrainResult(respond, |old(child.Remaining())|)
      ensures pass.Ok? ==> child.pos == |child.tuples|
      ensures old(child.pos) <= child.pos
      ensures Requested == old(Requested) + child.tuples[old(child.pos)..child.pos]
    {
      var c := child;
      ghost var start, before := c.pos, Requested;
      ghost var total := |c.tuples| - start;
      assert total == |old(child.Remaining())|;
      var count := 0;
      var drained: nat := 0;
      var more := c.HasNext();
      while more
        invariant child == c && isDeleted == old(isDeleted) && c.Valid()
        invariant start <= c.pos <= |c.tuples|
        invariant drained == c.pos - start
        invariant more <==> c.pos < |c.tuples|
        invariant DrainResult(respond, drained) == Ok(count)
        invariant Requested == before + c.tuples[start..c.pos]
        decreases |c.tuples| - c.pos
      {
        var tuple := c.Next();
        Requested := Requested + [tuple];
        assert c.tuples[start..c.pos] == c.tuples[start..c.pos - 1] + [tuple];
        var outcome := respond(drained);
        DrainStep(respond, drained, count);
        if Fails(outcome) {
          FailureSticks(respond, drained + 1, total);
          return Err(ErrorOf(outcome));
        }
        if outcome.Deleted? {
          count := count + 1;
        }
        drained := drained + 1;
        more := c.HasNext();
      }
      pass := Ok(count);
    }

    method GetChildren() returns (children: seq<ChildIterator>)
      ensures children == [child]
    {
      children := [child];
    }

    /**
     * setChildren: the first child becomes the operator's child. An empty
     * array is Java's ArrayIndexOutOfBoundsException, and nothing changes.
     */
    method SetChildren(children: seq<ChildIterator>) returns (r: Result<(), IndexError>)
      requires Valid() && (|children| > 0 ==> children[0].Valid())
      modifies this
      ensures r.Err? <==> |children| == 0
      ensures Valid() && child == if |children| > 0 then children[0] else old(child)
      ensures isDeleted == old(isDeleted) && Requested == old(Requested)
    {
      if |children| == 0 {
        return Err(ArrayIndexOutOfBounds);
      }
      child := children[0];
      r := Ok(());
    }
  }

  /** A pass that goes through reports at most as many deletions as the child had tuples. */
  lemma PassCountBound(respond: nat -> DeleteOutcome, n: nat)
    requires DrainResult(respond, n).Ok?
    ensures DrainResult(respond, n).value <= n
  {
    DrainCountsDeletions(respond, n);
    DeletionsBound(respond, n);
  }
}
