/**
 * Configuration constants, the page-table entry record and the address
 * arithmetic of the segmented, demand-paged memory manager.
 */
module Layout {

  /** Bytes per page, and per physical frame (PAGE_SIZE). */
  const PageSize: nat := 512

  /** Number of physical frames (NUM_PAGES). */
  const FrameCount: nat := 256

  /** Bytes of physical memory (MEMORY_SIZE). */
  const MemorySize: nat := PageSize * FrameCount

  /** Capacity of the segment table (SEGMENT_COUNT). */
  const SegmentCount: nat := 1

  datatype Option<T> = None | Some(value: T)

  /**
   * One page-table entry. `valid == 0` means the page has no frame yet and
   * `pageNumber` is then meaningless; otherwise `pageNumber` is the frame.
   */
  datatype PageTableEntry = PageTableEntry(pageNumber: nat, valid: nat)

  /** Number of pages of a segment of `size` bytes: `size` divided by the page size, rounded up. */
  function PagesFor(size: nat): nat
  {
    (size + PageSize - 1) / PageSize
  }

  /** `PagesFor` is the ceiling of `size / PageSize`: the pages cover the segment, and no page is spare. */
  lemma PagesForIsCeiling(size: nat)
    ensures PagesFor(size) * PageSize >= size
    ensures PagesFor(size) == 0 || (PagesFor(size) - 1) * PageSize < size
    ensures PagesFor(size) == 0 <==> size == 0
  {
  }

  /** Every in-bounds offset of a segment falls in one of its pages. */
  lemma PageIndexInTable(size: nat, offset: nat)
    requires offset < size
    ensures offset / PageSize < PagesFor(size)
  {
  }

  /** Page index of a segment offset (`offset / PAGE_SIZE`). */
  function PageIndex(offset: nat): nat
  {
    offset / PageSize
  }

  /** Byte position within its page of a segment offset (`offset % PAGE_SIZE`). */
  function PageOffset(offset: nat): (p: nat)
    ensures p < PageSize
  {
    offset % PageSize
  }

  /**
   * Index into physical memory of byte `offset` of a page held in `frame`:
   * `frame * PAGE_SIZE + offset % PAGE_SIZE`. It stays inside physical
   * memory, and the frame and the in-page offset can be read back from it.
   */
  function PhysicalIndex(frame: nat, offset: nat): (a: nat)
    requires frame < FrameCount
    ensures a < MemorySize
    ensures a / PageSize == frame && a % PageSize == PageOffset(offset)
  {
    frame * PageSize + PageOffset(offset)
  }

  /** An offset is determined by its page index and its in-page offset. */
  lemma SplitDeterminesOffset(o1: nat, o2: nat)
    requires PageIndex(o1) == PageIndex(o2) && PageOffset(o1) == PageOffset(o2)
    ensures o1 == o2
  {
  }
}
