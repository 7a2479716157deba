/**
 * Heap files: a table stored as a sequence of fixed-size pages, each page a
 * fixed number of tuple slots. The buffer pool in front of the file is not
 * part of this model: a page fetched "through the cache" is read straight from
 * the page sequence, and a change made to a fetched page is made to the
 * sequence.
 */
module HeapStorage {
  import opened Types
  import opened Folds

  /** The slots of one page: a tuple or nothing, in slot order. */
  type Slots = seq<Option<Tuple>>

  /** A page as handed out by readPage: its identifier and its slots. */
  datatype Page = Page(pid: PageId, slots: Slots)

  /** The exceptions of the storage layer. */
  datatype StorageError =
    | NoMoreData          // readPage past the end of the file (IllegalArgumentException)
    | PageFull            // HeapPage.insertTuple on a page without an empty slot
    | TupleDescMismatch   // the tuple's schema is not the file's
    | NotInFile           // the tuple's record id names another table
    | NoRecordId          // the tuple was never stored (a null record id)
    | SlotEmpty           // HeapPage.deleteTuple on a slot that holds no tuple

  // ---------------------------------------------------------------------------
  // Pages and slots

  /** The bytes before page pageNo: pages sit back to back from offset 0. */
  function Offset(pageNo: nat, pageSize: nat): nat {
    pageNo * pageSize
  }

  /** A file of n whole pages holds page k exactly when page k starts before its end. */
  lemma OffsetWithinFile(k: nat, n: nat, pageSize: nat)
    requires pageSize > 0
    ensures Offset(k, pageSize) < n * pageSize <==> k < n
  {
    if k < n {
      assert n * pageSize == k * pageSize + (n - k) * pageSize;
    } else {
      assert k * pageSize == n * pageSize + (k - n) * pageSize;
    }
  }

  lemma WholePages(n: nat, pageSize: nat)
    requires pageSize > 0
    ensures (n * pageSize) / pageSize == n
  {
    var q := (n * pageSize) / pageSize;
    FloorDivision(n * pageSize, pageSize);
    CancelLe(q, n, pageSize);
    assert n * pageSize < (q + 1) * pageSize;
    CancelLt(n, q + 1, pageSize);
  }

  /** The data of HeapPage.createEmptyPageData: every slot empty. */
  function EmptySlots(n: nat): (s: Slots)
    ensures |s| == n && forall i :: 0 <= i < n ==> s[i].None?
  {
    seq(n, _ => None)
  }

  /** HeapPage.getNumEmptySlots. */
  function NumEmptySlots(s: Slots): nat {
    if s == [] then 0 else NumEmptySlots(s[..|s| - 1]) + (if s[|s| - 1].None? then 1 else 0)
  }

  predicate HasFree(s: Slots) {
    exists i :: 0 <= i < |s| && s[i].None?
  }

  /** A page reports empty slots exactly when one of its slots is empty. */
  lemma {:induction false} EmptySlotsCount(s: Slots)
    ensures NumEmptySlots(s) <= |s|
    ensures NumEmptySlots(s) > 0 <==> HasFree(s)
  {
    if s != [] {
      var init := s[..|s| - 1];
      EmptySlotsCount(init);
      if HasFree(init) {
        var i :| 0 <= i < |init| && init[i].None?;
        assert s[i].None?;
      }
      if HasFree(s) && !s[|s| - 1].None? {
        var i :| 0 <= i < |s| && s[i].None?;
        assert init[i].None?;
      }
    }
  }

  /** The slot HeapPage.insertTuple fills: the lowest empty one. */
  function FirstEmpty(s: Slots): (i: nat)
    requires HasFree(s)
    ensures i < |s| && s[i].None?
    ensures forall j :: 0 <= j < i ==> s[j].Some?
  {
    if s[0].None? then 0
    else
      assert HasFree(s[1..]) by {
        var i :| 0 <= i < |s| && s[i].None?;
        assert s[1..][i - 1].None?;
      }
      1 + FirstEmpty(s[1..])
  }

  /** The tuples of a page in slot order, as HeapPage.iterator yields them. */
  function Live(s: Slots): seq<Tuple> {
    if s == [] then []
    else Live(s[..|s| - 1]) + (if s[|s| - 1].Some? then [s[|s| - 1].value] else [])
  }

  /** The tuples of a sequence of pages, page by page. */
  function AllLive(ps: seq<Slots>): seq<Tuple> {
    if ps == [] then [] else Live(ps[0]) + AllLive(ps[1..])
  }

  /** The number of tuples stored on a page. */
  function Occupied(s: Slots): nat {
    EmptySlotsCount(s);
    |s| - NumEmptySlots(s)
  }

  /**
   * HeapPage.insertTuple as the heap file uses it: the tuple goes to the lowest
   * empty slot and is stamped with that slot's record id.
   */
  function PlaceOnPage(s: Slots, pid: PageId, td: TupleDesc, t: Tuple): (r: Result<Slots, StorageError>)
    ensures r.Ok? <==> t.desc == td && HasFree(s)
    ensures r.Ok? ==> |r.value| == |s|
  {
    if t.desc != td then Err(TupleDescMismatch)
    else if !HasFree(s) then Err(PageFull)
    else
      var i := FirstEmpty(s);
      Ok(s[i := Some(t.(rid := Some(RecordId(pid, i))))])
  }

  /** Filling one empty slot takes one empty slot away. */
  lemma {:induction false} FillOneSlot(s: Slots, i: nat, x: Tuple)
    requires i < |s| && s[i].None?
    ensures NumEmptySlots(s[i := Some(x)]) == NumEmptySlots(s) - 1
  {
    var s' := s[i := Some(x)];
    var n := |s|;
    if i == n - 1 {
      assert s'[..n - 1] == s[..n - 1];
    } else {
      FillOneSlot(s[..n - 1], i, x);
      assert s'[..n - 1] == s[..n - 1][i := Some(x)];
    }
  }

  /** Emptying one full slot gives one empty slot back. */
  lemma {:induction false} ClearOneSlot(s: Slots, i: nat)
    requires i < |s| && s[i].Some?
    ensures NumEmptySlots(s[i := None]) == NumEmptySlots(s) + 1
  {
    var s' := s[i := None];
    var n := |s|;
    if i == n - 1 {
      assert s'[..n - 1] == s[..n - 1];
    } else {
      ClearOneSlot(s[..n - 1], i);
      assert s'[..n - 1] == s[..n - 1][i := None];
    }
  }

  /** A placed tuple sits in the first empty slot, carries that slot's record id, and the page holds one more tuple. */
  lemma PlacedTuple(s: Slots, pid: PageId, td: TupleDesc, t: Tuple)
    requires PlaceOnPage(s, pid, td, t).Ok?
    ensures var s' := PlaceOnPage(s, pid, td, t).value;
            var i := FirstEmpty(s);
            && s'[i] == Some(t.(rid := Some(RecordId(pid, i))))
            && (forall j :: 0 <= j < |s| && j != i ==> s'[j] == s[j])
            && Occupied(s') == Occupied(s) + 1
  {
    EmptySlotsCount(s);
    FillOneSlot(s, FirstEmpty(s), t.(rid := Some(RecordId(pid, FirstEmpty(s)))));
  }

  /** The lowest-numbered page with an empty slot, if any. */
  function FirstFree(ps: seq<Slots>): (r: Option<nat>)
    ensures r.Some? ==> r.value < |ps| && HasFree(ps[r.value])
                        && forall j :: 0 <= j < r.value ==> !HasFree(ps[j])
    ensures r.None? ==> forall j :: 0 <= j < |ps| ==> !HasFree(ps[j])
  {
    if ps == [] then None
    else if HasFree(ps[0]) then Some(0)
    else
      match FirstFree(ps[1..])
      case None =>
        assert forall j :: 1 <= j < |ps| ==> ps[j] == ps[1..][j - 1];
        None
      case Some(n) =>
        assert forall j :: 1 <= j < |ps| ==> ps[j] == ps[1..][j - 1];
        Some(n + 1)
  }

  /** The page sequence after writePage puts s at page n; writing past the end leaves empty pages in the gap. */
  function Written(ps: seq<Slots>, n: nat, s: Slots, slotsPerPage: nat): seq<Slots> {
    if n < |ps| then ps[n := s]
    else ps + seq(n - |ps|, _ => EmptySlots(slotsPerPage)) + [s]
  }

  /** A written page reads back as written; every other existing page is as it was. */
  lemma WrittenReadsBack(ps: seq<Slots>, n: nat, s: Slots, slotsPerPage: nat)
    ensures var ps' := Written(ps, n, s, slotsPerPage);
            && |ps'| == (if n < |ps| then |ps| else n + 1)
            && ps'[n] == s
            && (forall k :: 0 <= k < |ps| && k != n ==> ps'[k] == ps[k])
            && (forall k :: |ps| <= k < n ==> ps'[k] == EmptySlots(slotsPerPage))
  {
  }

  /**
   * What insertTuple does to a file's pages and what it returns: first fit
   * over the existing pages; when all are full, one empty page is appended
   * and the tuple goes there.
   */
  function InsertOutcome(ps: seq<Slots>, id: int, td: TupleDesc, slotsPerPage: nat, t: Tuple)
    : (Result<seq<Page>, StorageError>, seq<Slots>)
  {
    match FirstFree(ps)
    case Some(n) =>
      var pid := PageId(id, n);
      (match PlaceOnPage(ps[n], pid, td, t)
       case Ok(s) => (Ok([Page(pid, s)]), ps[n := s])
       case Err(e) => (Err(e), ps))
    case None =>
      var pid := PageId(id, |ps|);
      var blank := EmptySlots(slotsPerPage);
      (match PlaceOnPage(blank, pid, td, t)
       case Ok(s) => (Ok([Page(pid, s)]), ps + [s])
       case Err(e) => (Err(e), ps + [blank]))
  }

  /**
   * What deleteTuple does: the schema and the table are checked before any
   * page is touched; then the page named by the record id loses that slot's
   * tuple.
   */
  function DeleteOutcome(ps: seq<Slots>, id: int, td: TupleDesc, t: Tuple)
    : (Result<seq<Page>, StorageError>, seq<Slots>)
  {
    if td != t.desc then (Err(TupleDescMismatch), ps)
    else if t.rid.None? then (Err(NoRecordId), ps)
    else if t.rid.value.pid.tableId != id then (Err(NotInFile), ps)
    else
      var pid := t.rid.value.pid;
      var slot := t.rid.value.slot;
      if pid.pageNo >= |ps| then (Err(NoMoreData), ps)
      else if slot >= |ps[pid.pageNo]| || ps[pid.pageNo][slot].None? then (Err(SlotEmpty), ps)
      else
        var s := ps[pid.pageNo][slot := None];
        (Ok([Page(pid, s)]), ps[pid.pageNo := s])
  }

  // ---------------------------------------------------------------------------
  // Properties of insert and delete

  /**
   * insertTuple changes one page at most: the lowest page with room, or a new
   * page appended after all full ones, and returns exactly that page.
   */
  lemma InsertFirstFit(ps: seq<Slots>, id: int, td: TupleDesc, slotsPerPage: nat, t: Tuple)
    requires forall k :: 0 <= k < |ps| ==> |ps[k]| == slotsPerPage
    ensures var (r, ps') := InsertOutcome(ps, id, td, slotsPerPage, t);
            && |ps'| == |ps| + (if FirstFree(ps).None? then 1 else 0)
            && (forall k :: 0 <= k < |ps'| ==> |ps'[k]| == slotsPerPage)
            && (r.Ok? ==> |r.value| == 1
                          && var n := r.value[0].pid.pageNo;
                          && r.value[0].pid == PageId(id, n)
                          && n < |ps'| && ps'[n] == r.value[0].slots
                          && (forall k :: 0 <= k < |ps| && k != n ==> ps'[k] == ps[k])
                          && (forall k :: 0 <= k < n ==> !HasFree(ps[k]))
                          && Occupied(ps'[n]) == (if n < |ps| then Occupied(ps[n]) else 0) + 1)
            && (r.Err? ==> forall k :: 0 <= k < |ps| ==> ps'[k] == ps[k])
  {
    match FirstFree(ps)
    case Some(n) =>
      if PlaceOnPage(ps[n], PageId(id, n), td, t).Ok? {
        PlacedTuple(ps[n], PageId(id, n), td, t);
      }
    case None =>
      var blank := EmptySlots(slotsPerPage);
      if PlaceOnPage(blank, PageId(id, |ps|), td, t).Ok? {
        PlacedTuple(blank, PageId(id, |ps|), td, t);
        NoTuplesOnEmptyPage(slotsPerPage);
      }
  }

  lemma {:induction false} NoTuplesOnEmptyPage(n: nat)
    ensures NumEmptySlots(EmptySlots(n)) == n
  {
    if n > 0 {
      assert EmptySlots(n)[..n - 1] == EmptySlots(n - 1);
      NoTuplesOnEmptyPage(n - 1);
    }
  }

  /** Appending to a full file adds a page with empty slots whenever a page has slots at all. */
  lemma AppendedPageHasRoom(ps: seq<Slots>, id: int, td: TupleDesc, slotsPerPage: nat, t: Tuple)
    requires FirstFree(ps).None? && slotsPerPage > 0
    ensures NumEmptySlots(EmptySlots(slotsPerPage)) > 0
    ensures t.desc == td ==> InsertOutcome(ps, id, td, slotsPerPage, t).0.Ok?
  {
    NoTuplesOnEmptyPage(slotsPerPage);
    assert EmptySlots(slotsPerPage)[0].None?;
  }

  /**
   * deleteTuple fails on a schema mismatch, a missing record id or a record id
   * of another table without touching any page; when it succeeds exactly the
   * page named by the record id changes, by one slot, and it is returned.
   */
  lemma DeleteTouchesOnePage(ps: seq<Slots>, id: int, td: TupleDesc, t: Tuple)
    ensures var (r, ps') := DeleteOutcome(ps, id, td, t);
            && (td != t.desc ==> r == Err(TupleDescMismatch))
            && (td == t.desc && t.rid.Some? && t.rid.value.pid.tableId != id ==> r == Err(NotInFile))
            && (r.Err? ==> ps' == ps)
            && (r.Ok? ==> && t.rid.Some?
                          && var rid := t.rid.value;
                          && r.value == [Page(rid.pid, ps'[rid.pid.pageNo])]
                          && |ps'| == |ps| && rid.pid.pageNo < |ps|
                          && (forall k :: 0 <= k < |ps| && k != rid.pid.pageNo ==> ps'[k] == ps[k])
                          && ps'[rid.pid.pageNo] == ps[rid.pid.pageNo][rid.slot := None]
                          && Occupied(ps'[rid.pid.pageNo]) + 1 == Occupied(ps[rid.pid.pageNo]))
  {
    var (r, ps') := DeleteOutcome(ps, id, td, t);
    if r.Ok? {
      var rid := t.rid.value;
      ClearOneSlot(ps[rid.pid.pageNo], rid.slot);
    }
  }

  // ---------------------------------------------------------------------------
  // The file

  class HeapFile {
    /** getId: a table identifier, distinct for distinct files. */
    const id: int
    const tupleDesc: TupleDesc
    /** BufferPool.getPageSize(). */
    const pageSize: nat
    /** The slot count of a page of this schema (fixed by the page format). */
    const slotsPerPage: nat
    var pages: seq<Slots>

    ghost predicate Valid()
      reads this
    {
      pageSize > 0 && forall k :: 0 <= k < |pages| ==> |pages[k]| == slotsPerPage
    }

    constructor (id: int, td: TupleDesc, pageSize: nat, slotsPerPage: nat, pages: seq<Slots>)
      requires pageSize > 0 && forall k :: 0 <= k < |pages| ==> |pages[k]| == slotsPerPage
      ensures Valid() && this.id == id && tupleDesc == td && this.pageSize == pageSize
      ensures this.slotsPerPage == slotsPerPage && this.pages == pages
    {
      this.id := id;
      tupleDesc := td;
      this.pageSize := pageSize;
      this.slotsPerPage := slotsPerPage;
      this.pages := pages;
    }

    /** The length of the backing file in bytes: whole pages, back to back. */
    function FileLength(): nat
      reads this
    {
      |pages| * pageSize
    }

    /** numPages: the file length divided by the page size, rounded down. */
    function NumPages(): (n: nat)
      reads this
      requires Valid()
      ensures n == |pages|
    {
      WholePages(|pages|, pageSize);
      FileLength() / pageSize
    }

    /** readPage: the page at offset pageNo * pageSize, or an error past the end of the file. */
    function ReadPage(pid: PageId): (r: Result<Page, StorageError>)
      reads this
      requires Valid()
      ensures r.Ok? <==> pid.pageNo < |pages|
      ensures r.Ok? ==> r.value == Page(pid, pages[pid.pageNo])
    {
      OffsetWithinFile(pid.pageNo, |pages|, pageSize);
      if Offset(pid.pageNo, pageSize) >= FileLength() then Err(NoMoreData)
      else Ok(Page(pid, pages[pid.pageNo]))
    }

    /** writePage: the page's data lands at offset pageNo * pageSize, extending the file when needed. */
    method WritePage(page: Page)
      requires Valid() && |page.slots| == slotsPerPage
      modifies this
      ensures Valid()
      ensures pages == Written(old(pages), page.pid.pageNo, page.slots, slotsPerPage)
    {
      var n := page.pid.pageNo;
      if n < |pages| {
        pages := pages[n := page.slots];
      } else {
        pages := pages + seq(n - |pages|, _ => EmptySlots(slotsPerPage)) + [page.slots];
      }
    }

    /** insertTuple: first fit over the existing pages, else a new page at the end. */
    method InsertTuple(t: Tuple) returns (r: Result<seq<Page>, StorageError>)
      requires Valid()
      modifies this
      ensures Valid()
      ensures (r, pages) == InsertOutcome(old(pages), id, tupleDesc, slotsPerPage, t)
    {
      var pageNo := 0;
      while pageNo < NumPages()
        invariant pageNo <= |pages| && pages == old(pages)
        invariant forall k :: 0 <= k < pageNo ==> !HasFree(pages[k])
      {
        var pid := PageId(id, pageNo);
        var page := ReadPage(pid).value;
        EmptySlotsCount(page.slots);
        if NumEmptySlots(page.slots) > 0 {
          FirstFreeAt(pages, pageNo);
          var placed := PlaceOnPage(page.slots, pid, tupleDesc, t);
          if placed.Err? {
            return Err(placed.error);
          }
          pages := pages[pageNo := placed.value];
          return Ok([Page(pid, placed.value)]);
        }
        pageNo := pageNo + 1;
      }
      NoFreePage(pages);
      var newPid := PageId(id, NumPages());
      WritePage(Page(newPid, EmptySlots(slotsPerPage)));
      assert pages == old(pages) + [EmptySlots(slotsPerPage)];
      var appendPage := ReadPage(newPid).value;
      var placed := PlaceOnPage(appendPage.slots, newPid, tupleDesc, t);
      if placed.Err? {
        return Err(placed.error);
      }
      pages := pages[newPid.pageNo := placed.value];
      assert pages == old(pages) + [placed.value];
      r := Ok([Page(newPid, placed.value)]);
    }

    /** deleteTuple: check the schema and the table, then clear the tuple's slot on its page. */
    method DeleteTuple(t: Tuple) returns (r: Result<seq<Page>, StorageError>)
      requires Valid()
      modifies this
      ensures Valid()
      ensures (r, pages) == DeleteOutcome(old(pages), id, tupleDesc, t)
    {
      if tupleDesc != t.desc {
        return Err(TupleDescMismatch);
      }
      if t.rid.None? {
        return Err(NoRecordId);
      }
      if id != t.rid.value.pid.tableId {
        return Err(NotInFile);
      }
      var pid := t.rid.value.pid;
      var read := ReadPage(pid);
      if read.Err? {
        return Err(read.error);
      }
      var slot := t.rid.value.slot;
      if slot >= |read.value.slots| || read.value.slots[slot].None? {
        return Err(SlotEmpty);
      }
      var s := read.value.slots[slot := None];
      pages := pages[pid.pageNo := s];
      r := Ok([Page(pid, s)]);
    }
  }

  lemma FirstFreeAt(ps: seq<Slots>, n: nat)
    requires n < |ps| && HasFree(ps[n]) && forall k :: 0 <= k < n ==> !HasFree(ps[k])
    ensures FirstFree(ps) == Some(n)
  {
    match FirstFree(ps)
    case None =>
    case Some(m) =>
  }

  lemma NoFreePage(ps: seq<Slots>)
    requires forall k :: 0 <= k < |ps| ==> !HasFree(ps[k])
    ensures FirstFree(ps) == None
  {
  }

  // ---------------------------------------------------------------------------
  // The file's own iterator (HeapFile.HeapFileIterator)

  /** The tuples of every page, in page order and slot order within a page. */
  lemma AllLiveSplit(ps: seq<Slots>, k: nat)
    requires k < |ps|
    ensures AllLive(ps[k..]) == Live(ps[k]) + AllLive(ps[k + 1..])
  {
    assert ps[k..][1..] == ps[k + 1..];
  }

  /**
   * What a scan positioned on page `page`, with `iter` left of that page's
   * tuples, has still to return.
   */
  function Pending(ps: seq<Slots>, page: Option<nat>, iter: Option<seq<Tuple>>): seq<Tuple>
    requires page.Some? ==> page.value < |ps|
  {
    match page
    case None => []
    case Some(p) =>
      match iter
      case None => AllLive(ps[p + 1..])
      case Some(it) => it + AllLive(ps[p + 1..])
  }

  /** Moving on to the next page loses nothing; a page without tuples is passed over. */
  lemma NextPageStep(ps: seq<Slots>, p: nat)
    requires p + 1 < |ps|
    ensures Live(ps[p + 1]) == [] ==> Pending(ps, Some(p), None) == Pending(ps, Some(p + 1), None)
    ensures Live(ps[p + 1]) != [] ==> Pending(ps, Some(p), None) == Pending(ps, Some(p + 1), Some(Live(ps[p + 1])))
  {
    AllLiveSplit(ps, p + 1);
    if Live(ps[p + 1]) == [] {
      assert Live(ps[p + 1]) + AllLive(ps[p + 2..]) == AllLive(ps[p + 2..]);
    }
  }

  /** An exhausted page iterator counts as no iterator. */
  lemma DropExhausted(ps: seq<Slots>, p: nat)
    requires p < |ps|
    ensures Pending(ps, Some(p), Some([])) == Pending(ps, Some(p), None)
  {
    assert [] + AllLive(ps[p + 1..]) == AllLive(ps[p + 1..]);
  }

  /** Taking the head of the page iterator takes the head of what is pending. */
  lemma TakeHead(ps: seq<Slots>, p: nat, it: seq<Tuple>)
    requires p < |ps| && it != []
    ensures Pending(ps, Some(p), Some(it)) != []
    ensures Pending(ps, Some(p), Some(it))[0] == it[0]
    ensures Pending(ps, Some(p), Some(it[1..])) == Pending(ps, Some(p), Some(it))[1..]
  {
    assert (it + AllLive(ps[p + 1..]))[1..] == it[1..] + AllLive(ps[p + 1..]);
  }

  /** Past the last page there is nothing left. */
  lemma LastPageStep(ps: seq<Slots>, p: nat)
    requires p + 1 == |ps|
    ensures Pending(ps, Some(p), None) == []
  {
    assert ps[p + 1..] == [];
  }

  class HeapFileIterator {
    const tid: nat
    const heapFile: HeapFile
    /** The number of the page in hand (currPage), if any. */
    var currPage: Option<nat>
    /** What is left of the page's tuple iterator (currTupleIter), if any. */
    var currTupleIter: Option<seq<Tuple>>

    ghost predicate Valid()
      reads this, heapFile
    {
      && heapFile.Valid()
      && (currPage.Some? ==> currPage.value < |heapFile.pages|)
      && (currPage.None? ==> currTupleIter.None?)
    }

    /** The tuples the iterator has still to return, from the current page on. */
    ghost function Remaining(): seq<Tuple>
      reads this, heapFile
      requires Valid()
    {
      Pending(heapFile.pages, currPage, currTupleIter)
    }

    constructor (tid: nat, hf: HeapFile)
      requires hf.Valid()
      ensures Valid() && this.tid == tid && heapFile == hf
      ensures currPage.None? && Remaining() == []
    {
      this.tid := tid;
      heapFile := hf;
      currPage := None;
      currTupleIter := None;
    }

    /** open: fetch page 0; a file without pages cannot be opened. */
    method Open() returns (r: Result<(), StorageError>)
      requires Valid()
      modifies this
      ensures Valid()
      ensures r.Ok? <==> |heapFile.pages| > 0
      ensures r.Ok? ==> currPage == Some(0) && Remaining() == AllLive(heapFile.pages)
      ensures r.Err? ==> currPage == old(currPage) && currTupleIter == old(currTupleIter)
    {
      var firstPageId := PageId(heapFile.id, 0);
      var read := heapFile.ReadPage(firstPageId);
      if read.Err? {
        return Err(read.error);
      }
      currPage := Some(0);
      currTupleIter := Some(Live(read.value.slots));
      AllLiveSplit(heapFile.pages, 0);
      assert heapFile.pages[0..] == heapFile.pages;
      r := Ok(());
    }

    /**
     * readNext: the next tuple of the scan, moving past exhausted and empty
     * pages; nothing once the last page is used up.
     */
    method ReadNext() returns (r: Option<Tuple>)
      requires Valid()
      modifies this
      ensures Valid()
      ensures old(Remaining()) == [] ==> r.None? && Remaining() == []
      ensures old(Remaining()) != [] ==> r == Some(old(Remaining())[0]) && Remaining() == old(Remaining())[1..]
      ensures r.None? ==> currPage.None?
    {
      ghost var ps := heapFile.pages;
      ghost var todo := Remaining();
      if currTupleIter.Some? && currTupleIter.value == [] {
        DropExhausted(ps, currPage.value);
        currTupleIter := None;
      }
      while currTupleIter.None? && currPage.Some?
        invariant Valid() && heapFile.pages == ps
        invariant Pending(ps, currPage, currTupleIter) == todo
        invariant currTupleIter.Some? ==> currTupleIter.value != []
        decreases if currPage.Some? then |ps| - currPage.value else 0
      {
        var currPid := currPage.value;
        if currPid < heapFile.NumPages() - 1 {
          NextPageStep(ps, currPid);
          var page := heapFile.ReadPage(PageId(heapFile.id, currPid + 1)).value;
          assert page.slots == ps[currPid + 1];
          currPage := Some(currPid + 1);
          var it := Live(page.slots);
          currTupleIter := if it == [] then None else Some(it);
        } else {
          LastPageStep(ps, currPid);
          currPage := None;
        }
      }
      if currTupleIter.None? {
        return None;
      }
      var it := currTupleIter.value;
      TakeHead(ps, currPage.value, it);
      r := Some(it[0]);
      currTupleIter := Some(it[1..]);
    }

    /** close: drop the page and its iterator. */
    method Close()
      modifies this
      ensures currPage.None? && currTupleIter.None?
    {
      currPage := None;
      currTupleIter := None;
    }

    /** rewind: close, then open again from page 0. */
    method Rewind() returns (r: Result<(), StorageError>)
      requires Valid()
      modifies this
      ensures Valid()
      ensures r.Ok? <==> |heapFile.pages| > 0
      ensures r.Ok? ==> currPage == Some(0) && Remaining() == AllLive(heapFile.pages)
      ensures r.Err? ==> currPage.None? && Remaining() == []
    {
      Close();
      r := Open();
    }
  }
}
