/** The buffer pool's bookkeeping (src/storage/bufmgr.rs): a vector of frames
    fixed at construction, a page table mapping resident page ids to frames
    (the `HashMap` of src/storage/page_table.rs) and a FIFO free list of unused
    frame ids (the `LinkedList` of src/storage/free_list.rs).

    Locks are absent: `fetch_page` is one atomic sequential step. The disk
    read it performs is an oracle: its outcome is a parameter. */
module BufMgr {
  import opened Shared
  import opened Page

  /** One slot of the pool: its index and the page record it holds. */
  datatype BufferPoolFrameInternal = BufferPoolFrameInternal(frameId: FrameId, page: PageInternal)

  /** `BufferPoolFrameInternal::new`: a frame that holds no page, unpinned,
      clean and zeroed. */
  function NewFrame(frameId: FrameId): (f: BufferPoolFrameInternal)
    ensures f.frameId == frameId
    ensures f.page.GetId() == INVALID_PAGE_ID
    ensures f.page.GetPinCount() == 0 && !f.page.IsDirty()
    ensures forall k :: 0 <= k < PAGE_SIZE ==> f.page.GetData()[k] == 0
  {
    BufferPoolFrameInternal(frameId, PageInternal.Default())
  }

  /** What `DiskMgr::read_page` yields for the requested page: a buffer, or
      the I/O error it failed with. */
  datatype DiskRead = Read(buf: PageData) | ReadFailed(error: IoError)

  /** The part of the pool that `fetch_page` changes. */
  datatype Bookkeeping = Bookkeeping(pageTable: map<PageId, FrameId>, freeList: seq<FrameId>)

  /** What `fetch_page` returns, and the bookkeeping it leaves behind. */
  datatype FetchOutcome = FetchOutcome(result: Result<FrameId, IoError>, after: Bookkeeping)

  /** One call of `fetch_page(pageId)`, with the outcome of its disk read. */
  datatype Request = Request(pageId: PageId, read: DiskRead)

  // ---------------------------------------------------------------------
  // The bookkeeping invariant
  // ---------------------------------------------------------------------

  /** Frame `f` holds some resident page. */
  ghost predicate Mapped(b: Bookkeeping, f: FrameId)
  {
    exists p :: p in b.pageTable && b.pageTable[p] == f
  }

  /** No frame id occurs twice on the free list. */
  ghost predicate FreeListDistinct(b: Bookkeeping)
  {
    forall i, j :: 0 <= i < j < |b.freeList| ==> b.freeList[i] != b.freeList[j]
  }

  /** No frame is mapped by two page ids. */
  ghost predicate TableInjective(b: Bookkeeping)
  {
    forall p, q :: p in b.pageTable && q in b.pageTable && p != q ==> b.pageTable[p] != b.pageTable[q]
  }

  /** A frame on the free list is not mapped by any page. */
  ghost predicate FreeAndMappedDisjoint(b: Bookkeeping)
  {
    forall p, i :: p in b.pageTable && 0 <= i < |b.freeList| ==> b.pageTable[p] != b.freeList[i]
  }

  /** Free and mapped frames are frames of a pool of `n`. */
  ghost predicate InPool(n: nat, b: Bookkeeping)
  {
    && (forall i :: 0 <= i < |b.freeList| ==> 0 <= b.freeList[i] < n)
    && (forall p :: p in b.pageTable ==> 0 <= b.pageTable[p] < n)
  }

  /** Every frame of a pool of `n` is free or mapped. */
  ghost predicate CoversPool(n: nat, b: Bookkeeping)
  {
    forall f :: 0 <= f < n ==> f in b.freeList || Mapped(b, f)
  }

  /** The free list and the page table together account for `n` frames. */
  ghost predicate Accounted(n: nat, b: Bookkeeping)
  {
    |b.freeList| + |b.pageTable| == n
  }

  /** The free list and the page table partition the frames `[0, n)`. */
  ghost predicate Consistent(n: nat, b: Bookkeeping)
  {
    && FreeListDistinct(b)
    && TableInjective(b)
    && FreeAndMappedDisjoint(b)
    && InPool(n, b)
    && CoversPool(n, b)
    && Accounted(n, b)
  }

  // ---------------------------------------------------------------------
  // Construction
  // ---------------------------------------------------------------------

  /** The frame ids `0, 1, ..., n - 1`, in the order `new` pushes them. */
  function Ascending(n: nat): (s: seq<FrameId>)
    ensures |s| == n
    ensures forall i :: 0 <= i < n ==> s[i] == i
    ensures forall f :: f in s <==> 0 <= f < n
  {
    if n == 0 then [] else Ascending(n - 1) + [n - 1]
  }

  /** The bookkeeping of a pool of `n` frames just built by `new`: every frame
      free, in ascending order, and no page resident. */
  function Initial(n: nat): (b: Bookkeeping)
    ensures Consistent(n, b)
    ensures b.pageTable == map[]
    ensures |b.freeList| == n && forall i :: 0 <= i < n ==> b.freeList[i] == i
  {
    Bookkeeping(map[], Ascending(n))
  }

  // ---------------------------------------------------------------------
  // fetch_page
  // ---------------------------------------------------------------------

  /** The bookkeeping of `fetch_page(pageId)` when the disk read yields `read`:
      a hit returns the mapped frame; a miss whose read fails returns the
      error; a miss with a free frame maps the page to the front of the free
      list; a miss with no free frame returns frame 0 (eviction is not
      implemented). */
  function Fetch(b: Bookkeeping, pageId: PageId, read: DiskRead): (o: FetchOutcome)
    ensures o.result.Err? ==> o.after == b
    ensures o.result.Ok? && pageId in o.after.pageTable ==> o.after.pageTable[pageId] == o.result.value
    ensures forall p :: p in b.pageTable ==> p in o.after.pageTable && o.after.pageTable[p] == b.pageTable[p]
    ensures o.after.pageTable.Keys <= b.pageTable.Keys + {pageId}
    ensures |o.after.freeList| + |o.after.pageTable| == |b.freeList| + |b.pageTable|
  {
    if pageId in b.pageTable then
      FetchOutcome(Ok(b.pageTable[pageId]), b)
    else if read.ReadFailed? then
      FetchOutcome(Err(read.error), b)
    else if |b.freeList| > 0 then
      var frameId := b.freeList[0];
      FetchOutcome(Ok(frameId), Bookkeeping(b.pageTable[pageId := frameId], b.freeList[1..]))
    else
      FetchOutcome(Ok(0), b)
  }

  /** `fetch_page` keeps the free list and the page table a partition of the pool. */
  lemma FetchPreservesConsistent(n: nat, b: Bookkeeping, pageId: PageId, read: DiskRead)
    requires Consistent(n, b)
    ensures Consistent(n, Fetch(b, pageId, read).after)
  {
    if pageId !in b.pageTable && read.Read? && |b.freeList| > 0 {
      var frameId := b.freeList[0];
      var b' := Fetch(b, pageId, read).after;
      assert b'.pageTable[pageId] == frameId;
      forall f | 0 <= f < n ensures f in b'.freeList || Mapped(b', f) {
        if f == frameId {
          assert Mapped(b', f);
        } else if f in b.freeList {
          assert f in b'.freeList;
        } else {
          var p :| p in b.pageTable && b.pageTable[p] == f;
          assert b'.pageTable[p] == f;
        }
      }
    }
  }

  /** A page that `fetch_page` has mapped stays mapped: fetching it again is a
      hit on the same frame, whatever the disk would yield, and changes nothing. */
  lemma FetchAgainHits(b: Bookkeeping, pageId: PageId, first: DiskRead, again: DiskRead)
    requires Fetch(b, pageId, first).result.Ok?
    requires pageId in Fetch(b, pageId, first).after.pageTable
    ensures var o := Fetch(b, pageId, first);
            Fetch(o.after, pageId, again) == FetchOutcome(o.result, o.after)
  {
  }

  /** When the page is resident or a frame is free, a fetch whose result is
      not an error hands out a frame of the pool that now holds the page and
      is no longer free. */
  lemma FetchedFrameHoldsPage(n: nat, b: Bookkeeping, pageId: PageId, read: DiskRead)
    requires Consistent(n, b)
    requires pageId in b.pageTable || b.freeList != []
    requires Fetch(b, pageId, read).result.Ok?
    ensures var o := Fetch(b, pageId, read);
      && 0 <= o.result.value < n
      && pageId in o.after.pageTable && o.after.pageTable[pageId] == o.result.value
      && o.result.value !in o.after.freeList
  {
  }

  /** With no free frame, a miss whose read succeeds returns frame 0 and maps
      nothing: frame 0 then holds some other page, or does not exist at all
      when the pool is empty. */
  lemma ExhaustedMissReturnsFrameZero(n: nat, b: Bookkeeping, pageId: PageId, buf: PageData)
    requires Consistent(n, b)
    requires b.freeList == [] && pageId !in b.pageTable
    ensures Fetch(b, pageId, Read(buf)) == FetchOutcome(Ok(0), b)
    ensures n == 0 || exists q :: q in b.pageTable && q != pageId && b.pageTable[q] == 0
  {
    if n > 0 {
      assert Mapped(b, 0);
      var q :| q in b.pageTable && b.pageTable[q] == 0;
      assert q != pageId;
    }
  }

  // ---------------------------------------------------------------------
  // Sequences of fetches
  // ---------------------------------------------------------------------

  /** The bookkeeping after serving `reqs` in order: no mapping is ever
      removed or changed, and the free list and the page table always account
      for the same number of frames. */
  function Run(b: Bookkeeping, reqs: seq<Request>): (r: Bookkeeping)
    ensures forall p :: p in b.pageTable ==> p in r.pageTable && r.pageTable[p] == b.pageTable[p]
    ensures |r.freeList| + |r.pageTable| == |b.freeList| + |b.pageTable|
    decreases |reqs|
  {
    if reqs == [] then b else Run(Fetch(b, reqs[0].pageId, reqs[0].read).after, reqs[1..])
  }

  lemma {:induction false} RunPreservesConsistent(n: nat, b: Bookkeeping, reqs: seq<Request>)
    requires Consistent(n, b)
    ensures Consistent(n, Run(b, reqs))
    decreases |reqs|
  {
    if reqs != [] {
      FetchPreservesConsistent(n, b, reqs[0].pageId, reqs[0].read);
      RunPreservesConsistent(n, Fetch(b, reqs[0].pageId, reqs[0].read).after, reqs[1..]);
    }
  }

  /** Starting from `new(n, ..)`, after any sequence of `fetch_page` calls,
      free and mapped frames are disjoint, no frame is mapped twice, the free
      list and the page table together account for all `n` frames, and every
      mapped frame lies in `[0, n)`. */
  lemma ReachableInvariants(n: nat, reqs: seq<Request>)
    ensures var b := Run(Initial(n), reqs);
      && (forall p, i :: p in b.pageTable && 0 <= i < |b.freeList| ==> b.pageTable[p] != b.freeList[i])
      && (forall p, q :: p in b.pageTable && q in b.pageTable && p != q ==> b.pageTable[p] != b.pageTable[q])
      && |b.freeList| + |b.pageTable| == n
      && (forall p :: p in b.pageTable ==> 0 <= b.pageTable[p] < n)
  {
    RunPreservesConsistent(n, Initial(n), reqs);
  }

  // ---------------------------------------------------------------------
  // The pool object
  // ---------------------------------------------------------------------

  /** `BufferPoolInternal`: the frames, page table and free list of one pool.
      The disk manager it owns is not part of this model. */
  class BufferPoolInternal {
    const poolSize: nat
    const replacerK: nat
    /** No operation writes to the frames after construction. */
    const frames: seq<BufferPoolFrameInternal>
    var pageTable: map<PageId, FrameId>
    var freeList: seq<FrameId>

    ghost function State(): Bookkeeping
      reads this
    {
      Bookkeeping(pageTable, freeList)
    }

    ghost predicate Valid()
      reads this
    {
      && |frames| == poolSize
      && (forall i :: 0 <= i < |frames| ==> frames[i].frameId == i)
      && Consistent(poolSize, State())
    }

    /** `BufferPoolInternal::new(pool_size, replacer_k, ..)`. */
    constructor (poolSize: nat, replacerK: nat)
      ensures Valid()
      ensures this.poolSize == poolSize && this.replacerK == replacerK
      ensures |frames| == poolSize && forall i :: 0 <= i < poolSize ==> frames[i] == NewFrame(i)
      ensures |freeList| == poolSize && forall i :: 0 <= i < poolSize ==> freeList[i] == i
      ensures pageTable == map[]
    {
      var freeListInternal: seq<FrameId> := [];
      var framesInternal: seq<BufferPoolFrameInternal> := [];
      for i := 0 to poolSize
        invariant freeListInternal == Ascending(i)
        invariant |framesInternal| == i
        invariant forall k :: 0 <= k < i ==> framesInternal[k] == NewFrame(k)
      {
        freeListInternal := freeListInternal + [i];
        framesInternal := framesInternal + [NewFrame(i)];
      }
      this.poolSize := poolSize;
      this.replacerK := replacerK;
      frames := framesInternal;
      pageTable := map[];
      freeList := freeListInternal;
      new;
      assert State() == Initial(poolSize);
    }

    /** `fetch_page(pageId)`, where `read` is what the disk read of the page
        yields if it is performed. */
    method FetchPage(pageId: PageId, read: DiskRead) returns (r: Result<FrameId, IoError>)
      requires Valid()
      modifies this
      ensures Valid()
      ensures FetchOutcome(r, State()) == Fetch(old(State()), pageId, read)
      // hit: the mapped frame, nothing changes
      ensures pageId in old(pageTable) ==>
        r == Ok(old(pageTable)[pageId]) && pageTable == old(pageTable) && freeList == old(freeList)
      // miss, the read fails: the error, nothing changes
      ensures pageId !in old(pageTable) && read.ReadFailed? ==>
        r == Err(read.error) && pageTable == old(pageTable) && freeList == old(freeList)
      // miss, a free frame: the old front of the free list, now mapped to the page
      ensures pageId !in old(pageTable) && read.Read? && old(freeList) != [] ==>
        && r == Ok(old(freeList)[0])
        && freeList == old(freeList)[1..]
        && pageTable == old(pageTable)[pageId := old(freeList)[0]]
      // miss, no free frame: frame 0, nothing changes
      ensures pageId !in old(pageTable) && read.Read? && old(freeList) == [] ==>
        r == Ok(0) && pageTable == old(pageTable) && freeList == old(freeList)
    {
      FetchPreservesConsistent(poolSize, State(), pageId, read);
      if pageId in pageTable {
        return Ok(pageTable[pageId]);
      }
      if read.ReadFailed? {
        return Err(read.error);
      }
      if |freeList| > 0 {
        var frameId := freeList[0];
        freeList := freeList[1..];
        pageTable := pageTable[pageId := frameId];
        return Ok(frameId);
      }
      return Ok(0);
    }
  }

  /** The construction scenario of the source's `create` test: a pool of ten
      frames has ten frames, all free, and an empty page table. */
  method CreateScenario() returns (frameCount: nat, freeCount: nat, residentCount: nat)
    ensures frameCount == 10 && freeCount == 10 && residentCount == 0
  {
    var pool := new BufferPoolInternal(10, 1);
    frameCount, freeCount, residentCount := |pool.frames|, |pool.freeList|, |pool.pageTable|;
  }
}
