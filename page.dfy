/** The page frame record (src/storage/page.rs): a page-sized buffer plus the
    id of the resident page, its pin count and its dirty flag. The latch
    functions of that file are not part of this model. */
module Page {
  import opened Shared

  /** A buffer of PAGE_SIZE bytes, all of them zero. */
  function ZeroData(): (d: PageData)
    ensures forall k :: 0 <= k < |d| ==> d[k] == 0
  {
    seq(PAGE_SIZE, _ => 0)
  }

  datatype PageInternal = PageInternal(data: PageData, id: PageId, pinCount: nat, dirty: bool)
  {
    /** Size of the page header; declared by the source, not used by any operation. */
    static const PAGE_HEADER_SIZE: nat := 8

    /** The derived default: a zeroed buffer that holds no page, unpinned and clean. */
    static function Default(): (p: PageInternal)
      ensures |p.data| == PAGE_SIZE == 4096
      ensures forall k :: 0 <= k < PAGE_SIZE ==> p.data[k] == 0
      ensures p.id == INVALID_PAGE_ID == -1
      ensures p.pinCount == 0
      ensures !p.dirty
    {
      PageInternal(ZeroData(), -1, 0, false)
    }

    /** `PageInternal::new` is the default record. */
    static function New(): (p: PageInternal)
      ensures p == Default()
    {
      Default()
    }

    /** A copy of the page buffer. */
    function GetData(): (d: PageData)
      ensures d == data
    {
      data
    }

    /** The id of the page held by the record. */
    function GetId(): (i: PageId)
      ensures i == id
    {
      id
    }

    /** The number of borrowers of the page. */
    function GetPinCount(): (n: nat)
      ensures n == pinCount
    {
      pinCount
    }

    /** Whether the buffer differs from the page on disk. */
    function IsDirty(): (b: bool)
      ensures b == dirty
    {
      dirty
    }
  }

  /** The four getters observe the whole record: two records agree on every
      getter exactly when they are the same record. */
  lemma GettersDetermineRecord(p: PageInternal, q: PageInternal)
    ensures p == q <==>
      (p.GetData() == q.GetData() && p.GetId() == q.GetId()
       && p.GetPinCount() == q.GetPinCount() && p.IsDirty() == q.IsDirty())
  {
  }
}
