# Buffer pool bookkeeping and page frame record

A Dafny model of the core of a page-oriented storage engine written in Rust:
the buffer pool's construction and the bookkeeping of its `fetch_page`
operation, and the page frame record that every frame of the pool holds.

- `shared.dfy` (module `Shared`): the page and frame identifiers, the
  constants `PAGE_SIZE = 4096`, `INVALID_PAGE_ID = INVALID_FRAME_ID = -1`
  and `HEADER_ID = 0`, a byte type, the page-sized buffer type `PageData`,
  `IoError` and `Result`.
- `page.dfy` (module `Page`): `PageInternal`, a record of a 4096-byte buffer,
  the id of the page it holds, a pin count and a dirty flag, with its
  derived default, `new` and its four read-only getters.
- `bufmgr.dfy` (module `BufMgr`): the frame record `BufferPoolFrameInternal`,
  and the class `BufferPoolInternal` with its fixed vector of frames, its
  page table (a map from page id to frame id) and its FIFO free list of
  frame ids. The constructor builds both with a loop, as the source does.
  `FetchPage` updates the page table and free list in place. It is proved
  against the pure specification `Fetch`, which works on a `Bookkeeping`
  value (page table plus free list).

`fetch_page` has four outcomes:
- A hit returns the mapped frame.
- A miss first reads the page from disk. If the read fails, the method
  returns the error before anything has changed.
- If the read succeeds and a frame is free, the method pops the front of
  the free list and maps the page to that frame.
- If the read succeeds and no frame is free, eviction is not implemented,
  so the method returns frame 0 and changes nothing.

The disk read is an oracle. Its outcome, `DiskRead`, is a parameter that
holds either a buffer or an I/O error.

The invariant `Consistent(n, b)` says that the free list and the page table
split the frames `[0, n)` between them. In detail:
- no frame appears twice on the free list;
- no frame is mapped by two page ids;
- no free frame is mapped;
- every free or mapped frame lies in `[0, n)`;
- every frame in `[0, n)` is either free or mapped;
- the free-list length plus the page-table size equals `n`.

`new` establishes this invariant and `fetch_page` preserves it. It therefore
holds after any sequence of fetches that starts from a new pool. The model
treats each fetch as one atomic step that leaves no lock behind. The code
as written does not release the page-table lock after a successful fetch or
a failed read (see "## Left out"). So in the code, once one fetch has
ended that way, every later fetch blocks forever. Sequences of fetches, and a hit after an
earlier miss, describe the pool with the lock released at every return.

The model follows the code where it omits pinning, eviction and an
out-of-memory error. In the code, `fetch_page` does not touch pin counts, the
replacer, dirty flags or frame contents. When no frame is free, the code
returns `Ok(0)` instead of evicting or failing with an out-of-memory error.
`ExhaustedMissReturnsFrameZero` shows what that placeholder means. Frame 0
is handed out while it holds a different page, or, in an empty pool, a
frame that does not exist.

## Model

| member | source | states |
|---|---|---|
| `Page.ZeroData` | src/storage/page.rs:20 | every byte of the default buffer is 0 |
| `Page.PageInternal.Default` | src/storage/page.rs:17-27 | the default record has a buffer of `PAGE_SIZE` = 4096 bytes, all 0; its id is -1, which is `INVALID_PAGE_ID`; its pin count is 0; it is not dirty |
| `Page.PageInternal.New` | src/storage/page.rs:33-35 | `new()` equals the default record |
| `Page.PageInternal.GetData` | src/storage/page.rs:37-40 | returns the record's buffer |
| `Page.PageInternal.GetId` | src/storage/page.rs:42-45 | returns the record's page id |
| `Page.PageInternal.GetPinCount` | src/storage/page.rs:47-49 | returns the record's pin count |
| `Page.PageInternal.IsDirty` | src/storage/page.rs:51-53 | returns the record's dirty flag |
| `Page.GettersDetermineRecord` | src/storage/page.rs:18-53 | two records are equal exactly when all four getters agree, so the getters observe the whole record |
| `BufMgr.NewFrame` | src/storage/bufmgr.rs:26-31 | a new frame carries the given frame id and a default page: id `INVALID_PAGE_ID`, unpinned, clean, zeroed |
| `BufMgr.Ascending` | src/storage/bufmgr.rs:50-51 | the ids pushed by the construction loop are `0 .. n-1` in ascending order, exactly the ids in `[0, n)` |
| `BufMgr.Initial` | src/storage/bufmgr.rs:47-63 | a new pool has an empty page table and the free list `[0, 1, ..., n-1]`, and it satisfies the partition invariant |
| `BufMgr.Fetch` | src/storage/bufmgr.rs:66-91 | an error changes nothing; a returned frame that the page table maps for the page is the frame the table maps; existing mappings are never removed or changed; at most the requested page is added; the free-list length plus the table size is unchanged |
| `BufMgr.FetchPreservesConsistent` | src/storage/bufmgr.rs:78-84 | a fetch keeps the free list and the page table a partition of the pool |
| `BufMgr.FetchAgainHits` | src/storage/bufmgr.rs:69-72 | once a fetch has mapped a page, fetching it again hits the same frame whatever the disk would yield, and changes nothing |
| `BufMgr.FetchedFrameHoldsPage` | src/storage/bufmgr.rs:69-84 | when the page is resident or a frame is free, a successful fetch returns a frame in `[0, n)`; that frame is now mapped to the page and is not on the free list |
| `BufMgr.ExhaustedMissReturnsFrameZero` | src/storage/bufmgr.rs:85-90 | on a miss with an empty free list and a successful read, the fetch returns `Ok(0)` and changes nothing; frame 0 then belongs to another page, or the pool is empty |
| `BufMgr.Run` | src/storage/bufmgr.rs:66-91 | serving fetches one after another never removes or changes a mapping, and keeps the free-list length plus the table size constant |
| `BufMgr.RunPreservesConsistent` | src/storage/bufmgr.rs:66-91 | any sequence of fetches preserves the partition invariant |
| `BufMgr.ReachableInvariants` | src/storage/bufmgr.rs:47-91 | after `new(n, ..)` and any sequence of fetches: free and mapped frames are disjoint; no frame is mapped twice; free-list length plus table size is `n`; every mapped frame is in `[0, n)` |
| `BufMgr.BufferPoolInternal.constructor` | src/storage/bufmgr.rs:47-63 | `frames` has length `pool_size` and frame `i` is `NewFrame(i)`; the free list is `[0, ..., pool_size-1]`; the page table is empty; the invariant holds |
| `BufMgr.BufferPoolInternal.FetchPage` | src/storage/bufmgr.rs:66-91 | a hit returns the mapped frame and changes nothing; a failed read returns the error and changes nothing; a miss with a free frame returns the old front of the free list, removes it, adds `page_id -> frame` and keeps the other entries; a miss with no free frame returns `Ok(0)` and changes nothing; the result equals `Fetch`, and the invariant is preserved |
| `BufMgr.CreateScenario` | src/storage/bufmgr.rs:124-137 | a pool built with `pool_size = 10` has 10 frames, 10 free frames and no resident page |

## Left out

- Locking is not modelled. This covers the lock wrappers in
  src/concurrency/mod.rs, the page latch functions in src/storage/page.rs
  (lines 58-105) and the lock calls inside `fetch_page`. `fetch_page` is one
  atomic step. The model does not capture a defect in the code. On a miss,
  `fetch_page` upgrades the page-table lock to exclusive
  (src/storage/bufmgr.rs:73, src/concurrency/mod.rs:38-41). It then returns
  from the read-error exit (`?` at src/storage/bufmgr.rs:76) and from the
  success exit (src/storage/bufmgr.rs:84) without releasing the lock. Every
  later `fetch_page` on that pool then blocks forever acquiring the lock
  (src/storage/bufmgr.rs:67, src/concurrency/mod.rs:28-31). So in the code,
  once one fetch has ended in a read error or taken a free frame, no later
  fetch returns, and no hit after it is ever reached. `FetchAgainHits`, `RunPreservesConsistent` and
  `ReachableInvariants` describe the pool with the lock released at every
  return, not the code as written.
- Disk I/O is not modelled: the disk manager, the file helpers in
  src/storage/fsutil/mod.rs and the file setup in the tests. The outcome of
  `read_page` is the `read` parameter. The pool's `diskmgr` field is not
  represented.
- src/storage/bufmgr.rs:77 calls `Page::new(page_id, &page_buf)`. `Page`
  is `Arc<parking_lot::Mutex<PageInternal>>`. `Arc::new` takes one argument,
  and `PageInternal::new()` takes none. So the call matches no definition in
  src/ and does not type-check with those definitions. The model treats the
  line as doing nothing: its result is discarded anyway. The model does not
  load data into a frame, pin it, or mark it dirty. No code in src/ writes
  to a frame after construction, so `frames` is a constant field.
- The codec in src/storage/ioutil/mod.rs is not modelled. `encode` and
  `decode` wrap the bincode library, whose wire format is defined outside
  this repository. `to_buffer` and `from_buffer` are imported by
  src/storage/fsutil/mod.rs:6 but not defined in src/storage/ioutil/mod.rs.
- The replacers in src/storage/replacer/ are not modelled. They are empty
  stubs that return constants. `replacer_k` is stored and never used.
- src/storage/objptr.rs and src/storage/index_page.rs are not modelled.
  They are a plain record with display formatting and an empty struct.
- Integer widths are not modelled. Page and frame ids (`isize`) are
  unbounded `int`s, and the pin count (`usize`) is a `nat`. No modelled
  operation does arithmetic on them. The cast `i as isize` in the
  construction loop is the identity for every vector length that can be
  allocated.
- `PAGE_HEADER_SIZE = 8` is declared and kept as a constant, but no
  operation uses it.
