/**
 * The standalone heap-file cursor: a page counter that starts at -1 and a
 * tuple iterator over the page fetched last. hasNext fetches at most one page
 * per call, so a page without tuples ends the scan even when later pages hold
 * tuples; the model keeps that behaviour.
 */
module FileScan {
  import opened Types
  import opened HeapStorage

  /** NoSuchElementException from next. */
  datatype ScanError = NoSuchElement

  /** The cursor's fields: pageNo (the next page to fetch) and currTupleIter (what is left of the page in hand). */
  datatype Cursor = Cursor(pageNo: int, iter: Option<seq<Tuple>>)

  /** The state of a cursor before open and after close. */
  const Closed := Cursor(-1, None)

  /** The tuples left in the page iterator, if there is one. */
  function Held(c: Cursor): seq<Tuple> {
    if c.iter.Some? then c.iter.value else []
  }

  /** open: the page counter moves on by one and the page iterator is dropped. */
  function OpenStep(c: Cursor): Cursor {
    Cursor(c.pageNo + 1, None)
  }

  /** hasNextPage: the page counter names a page of the file. */
  predicate NextPageExists(c: Cursor, ps: seq<Slots>) {
    0 <= c.pageNo < |ps|
  }

  /**
   * hasNext: true while the page in hand has tuples; otherwise fetch the page
   * the counter names, if any, and answer whether that page has tuples.
   */
  function HasNextStep(c: Cursor, ps: seq<Slots>): (bool, Cursor)
  {
    if Held(c) != [] then (true, c)
    else if NextPageExists(c, ps) then
      var it := Live(ps[c.pageNo]);
      (it != [], Cursor(c.pageNo + 1, Some(it)))
    else (false, c)
  }

  /** next: the head of the page iterator once hasNext holds, NoSuchElement otherwise. */
  function NextStep(c: Cursor, ps: seq<Slots>): (Result<Tuple, ScanError>, Cursor)
  {
    var (more, c') := HasNextStep(c, ps);
    if more then (Ok(Held(c')[0]), Cursor(c'.pageNo, Some(Held(c')[1..])))
    else (Err(NoSuchElement), c')
  }

  // ---------------------------------------------------------------------------
  // Properties of single steps

  /** Before open and after close there is nothing to return, and asking changes nothing. */
  lemma ClosedHasNothing(ps: seq<Slots>)
    ensures HasNextStep(Closed, ps) == (false, Closed)
    ensures NextStep(Closed, ps) == (Err(NoSuchElement), Closed)
  {
  }

  /** Opening a fresh or closed cursor puts it on page 0 with no page in hand; rewinding does the same from any state. */
  lemma OpenStartsAtPageZero(c: Cursor)
    ensures OpenStep(Closed) == Cursor(0, None)
    ensures OpenStep(Closed) == OpenStep(Cursor(-1, c.iter))
  {
  }

  /**
   * hasNext answers true without fetching while the page in hand has tuples;
   * a fetch reads the page the counter names, which lies inside the file, and
   * advances the counter by exactly one.
   */
  lemma HasNextFetchesInOrder(c: Cursor, ps: seq<Slots>)
    ensures Held(c) != [] ==> HasNextStep(c, ps) == (true, c)
    ensures HasNextStep(c, ps).1 != c ==>
              && Held(c) == [] && 0 <= c.pageNo < |ps|
              && HasNextStep(c, ps).1 == Cursor(c.pageNo + 1, Some(Live(ps[c.pageNo])))
              && HasNextStep(c, ps).0 == (Live(ps[c.pageNo]) != [])
    ensures HasNextStep(c, ps).1 == c ==> Held(c) != [] || !NextPageExists(c, ps) || Live(ps[c.pageNo]) == []
  {
  }

  /** next succeeds exactly when hasNext would say true, and then hands out the first tuple hasNext found. */
  lemma NextAgreesWithHasNext(c: Cursor, ps: seq<Slots>)
    ensures NextStep(c, ps).0.Ok? <==> HasNextStep(c, ps).0
    ensures NextStep(c, ps).0.Ok? ==> NextStep(c, ps).0.value == Held(HasNextStep(c, ps).1)[0]
    ensures NextStep(c, ps).1.pageNo == HasNextStep(c, ps).1.pageNo
  {
  }

  // ---------------------------------------------------------------------------
  // Whole scans

  /** The first page at or after p that has no tuples, or the end of the file. */
  function FirstBlank(ps: seq<Slots>, p: nat): (q: nat)
    requires p <= |ps|
    ensures p <= q <= |ps|
    ensures q < |ps| ==> Live(ps[q]) == []
    ensures forall k :: p <= k < q ==> Live(ps[k]) != []
    decreases |ps| - p
  {
    if p == |ps| || Live(ps[p]) == [] then p else FirstBlank(ps, p + 1)
  }

  /** The tuples a cursor hands out by calling next until it reports NoSuchElement. */
  function Scan(c: Cursor, ps: seq<Slots>): seq<Tuple>
    requires 0 <= c.pageNo <= |ps|
    decreases |ps| - c.pageNo, |Held(c)|
  {
    var (r, c') := NextStep(c, ps);
    if r.Err? then []
    else [r.value] + Scan(c', ps)
  }

  lemma AllLiveSlice(ps: seq<Slots>, p: nat, q: nat)
    requires p < q <= |ps|
    ensures AllLive(ps[p..q]) == Live(ps[p]) + AllLive(ps[p + 1..q])
  {
    assert ps[p..q][1..] == ps[p + 1..q];
  }

  /**
   * A scan hands out the tuples in hand and then the tuples of the following
   * pages in page order, up to but not including the first page without
   * tuples: an empty page ends the scan.
   */
  lemma {:induction false} ScanStopsAtFirstBlank(c: Cursor, ps: seq<Slots>)
    requires 0 <= c.pageNo <= |ps|
    ensures Scan(c, ps) == Held(c) + AllLive(ps[c.pageNo..FirstBlank(ps, c.pageNo)])
    decreases |ps| - c.pageNo, |Held(c)|
  {
    var p := c.pageNo;
    var held := Held(c);
    var q := FirstBlank(ps, p);
    ScanStep(c, ps);
    if held != [] {
      ScanStopsAtFirstBlank(Cursor(p, Some(held[1..])), ps);
      HeadAndRest(held, AllLive(ps[p..q]));
    } else if p == |ps| || Live(ps[p]) == [] {
      assert ps[p..q] == [];
    } else {
      var it := Live(ps[p]);
      ScanStopsAtFirstBlank(Cursor(p + 1, Some(it[1..])), ps);
      AllLiveSlice(ps, p, q);
      HeadAndRest(it, AllLive(ps[p + 1..q]));
    }
  }

  /** One call of next inside a scan: from the page in hand, from the next page, or the end. */
  lemma ScanStep(c: Cursor, ps: seq<Slots>)
    requires 0 <= c.pageNo <= |ps|
    ensures Held(c) != [] ==>
              Scan(c, ps) == [Held(c)[0]] + Scan(Cursor(c.pageNo, Some(Held(c)[1..])), ps)
    ensures Held(c) == [] && (c.pageNo == |ps| || Live(ps[c.pageNo]) == []) ==> Scan(c, ps) == []
    ensures Held(c) == [] && c.pageNo < |ps| && Live(ps[c.pageNo]) != [] ==>
              var it := Live(ps[c.pageNo]);
              Scan(c, ps) == [it[0]] + Scan(Cursor(c.pageNo + 1, Some(it[1..])), ps)
  {
  }

  lemma HeadAndRest<T>(s: seq<T>, t: seq<T>)
    requires s != []
    ensures [s[0]] + (s[1..] + t) == s + t
  {
    assert s == [s[0]] + s[1..];
  }

  /** Opened on a file whose every page holds a tuple, the cursor hands out every tuple of the file, page by page. */
  lemma FullScanWithoutBlankPages(ps: seq<Slots>)
    requires forall k :: 0 <= k < |ps| ==> Live(ps[k]) != []
    ensures Scan(OpenStep(Closed), ps) == AllLive(ps)
  {
    ScanStopsAtFirstBlank(Cursor(0, None), ps);
    assert ps[0..|ps|] == ps;
  }

  /** An empty first page hides the tuples of the second: the opened cursor reports nothing at all. */
  lemma BlankPageHidesLaterTuples(t: Tuple)
    ensures var ps := [[None], [Some(t)]];
            && AllLive(ps) == [t]
            && HasNextStep(OpenStep(Closed), ps).0 == false
            && Scan(OpenStep(Closed), ps) == []
  {
    var ps: seq<Slots> := [[None], [Some(t)]];
    assert Live([None]) == [];
    assert Live([Some(t)]) == [t];
    assert ps[1..] == [[Some(t)]];
    assert AllLive([[Some(t)]]) == [t] + AllLive([]);
    ScanStopsAtFirstBlank(Cursor(0, None), ps);
    assert ps[0..0] == [];
  }

  // ---------------------------------------------------------------------------
  // The cursor object

  class HeapFileIterator {
    const heapFile: HeapFile
    const tid: nat
    var pageNo: int
    var currTupleIter: Option<seq<Tuple>>

    ghost predicate Valid()
      reads this, heapFile
    {
      heapFile.Valid()
    }

    function State(): Cursor
      reads this
    {
      Cursor(pageNo, currTupleIter)
    }

    constructor (heapFile: HeapFile, tid: nat)
      requires heapFile.Valid()
      ensures Valid() && this.heapFile == heapFile && this.tid == tid
      ensures State() == Closed
    {
      this.heapFile := heapFile;
      this.tid := tid;
      pageNo := -1;
      currTupleIter := None;
    }

    method HasNextPage() returns (b: bool)
      requires Valid()
      ensures b == NextPageExists(State(), heapFile.pages)
    {
      b := pageNo >= 0 && pageNo < heapFile.NumPages();
    }

    /** NextTupleIter: the tuples of the page the counter names; the counter moves past it. */
    method NextTupleIter() returns (it: seq<Tuple>)
      requires Valid() && 0 <= pageNo < |heapFile.pages|
      modifies this
      ensures it == Live(heapFile.pages[old(pageNo)])
      ensures pageNo == old(pageNo) + 1 && currTupleIter == old(currTupleIter)
    {
      var pid := PageId(heapFile.id, pageNo);
      pageNo := pageNo + 1;
      var page := heapFile.ReadPage(pid).value;
      it := Live(page.slots);
    }

    method Open()
      modifies this
      ensures State() == OpenStep(old(State()))
    {
      pageNo := pageNo + 1;
      currTupleIter := None;
    }

    method HasNext() returns (b: bool)
      requires Valid()
      modifies this
      ensures (b, State()) == HasNextStep(old(State()), heapFile.pages)
    {
      if currTupleIter.Some? && currTupleIter.value != [] {
        return true;
      }
      var more := HasNextPage();
      if more {
        var it := NextTupleIter();
        currTupleIter := Some(it);
        return it != [];
      }
      return false;
    }

    method Next() returns (r: Result<Tuple, ScanError>)
      requires Valid()
      modifies this
      ensures (r, State()) == NextStep(old(State()), heapFile.pages)
    {
      var more := HasNext();
      if more {
        var it := currTupleIter.value;
        currTupleIter := Some(it[1..]);
        return Ok(it[0]);
      }
      return Err(NoSuchElement);
    }

    method Close()
      modifies this
      ensures State() == Closed
    {
      pageNo := -1;
      currTupleIter := None;
    }

    /** rewind: close, then open — back to page 0 whatever the state. */
    method Rewind()
      modifies this
      ensures State() == OpenStep(Closed) && State() == Cursor(0, None)
    {
      Close();
      Open();
    }
  }
}
