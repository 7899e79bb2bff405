/**
 * The memory manager itself: a segment table of nullable segment
 * pointers, a byte array standing for physical memory and a frame bitmap,
 * each operation updating them in place. Every method is proved to do to
 * the abstract state, `Mapping()` and `Memory()`, exactly what the
 * function of the same operation in MemoryModel or MemoryAccess does,
 * and to keep the invariant `Inv` on which the lemmas there rest.
 */
module Manager {
  import opened Layout
  import opened MemoryModel
  import opened MemoryAccess

  /** A segment: its size in bytes and its page table, one entry per page. */
  class Segment {
    const size: nat
    const pageTable: array<PageTableEntry>

    /** A segment of `size` bytes whose page table is allocated zeroed, as `calloc` does. */
    constructor (size: nat)
      ensures this.size == size && fresh(pageTable) && pageTable.Length == PagesFor(size)
      ensures forall k :: 0 <= k < pageTable.Length ==> pageTable[k] == PageTableEntry(0, 0)
    {
      this.size := size;
      pageTable := new PageTableEntry[PagesFor(size)](_ => PageTableEntry(0, 0));
    }
  }

  class MemoryManager {
    const segments: array<Segment?>
    const physicalMemory: array<bv8>
    const pageFrames: array<nat>

    /** The segment in each slot, as a value. */
    ghost var Segs: seq<Option<SegmentView>>

    /** The arrays the segment table is made of: the slots and every live page table. */
    ghost var Repr: set<object>

    /** Every array the manager owns: a caller's buffer is none of them. */
    ghost function Footprint(): set<object>
      reads this
    {
      Repr + {pageFrames, physicalMemory}
    }

    /** The page table of the segment in slot s, if any: what translating an address of that segment may update. */
    ghost function TableOf(s: int): set<object>
      reads segments
      requires 0 <= s < segments.Length
    {
      if segments[s] != null then {segments[s].pageTable} else {}
    }

    /** Slot i holds a segment exactly when `Segs[i]` does, with the same size and page table. */
    ghost predicate SlotMatches(i: nat)
      reads this, Repr
      requires segments in Repr && |Segs| == segments.Length && i < segments.Length
    {
      && (segments[i] == null <==> Segs[i].None?)
      && (segments[i] != null ==>
            && segments[i].pageTable in Repr
            && Segs[i].value == SegmentView(segments[i].size, segments[i].pageTable[..]))
    }

    /**
     * The manager's arrays have their configured sizes and are distinct,
     * every slot agrees with `Segs`, no two slots share a page table, and
     * the translation state satisfies the invariant `Inv`.
     */
    ghost predicate Valid()
      reads this, Repr, pageFrames
    {
      && segments in Repr && pageFrames !in Repr && physicalMemory !in Repr
      && segments.Length == SegmentCount && physicalMemory.Length == MemorySize && pageFrames.Length == FrameCount
      && |Segs| == SegmentCount
      && (forall i :: 0 <= i < SegmentCount ==> SlotMatches(i))
      && (forall i, j :: 0 <= i < SegmentCount && 0 <= j < SegmentCount && segments[i] != null && segments[j] != null ==>
            (segments[i].pageTable == segments[j].pageTable ==> i == j))
      && Inv(Mapping())
    }

    /** The frame bitmap and the segment table, as a value. */
    ghost function Mapping(): Paging
      reads this, pageFrames
    {
      Paging(pageFrames[..], Segs)
    }

    /** Physical memory, as a value. */
    ghost function Memory(): seq<bv8>
      reads physicalMemory
    {
      physicalMemory[..]
    }

    /**
     * `init_memory_manager`: every frame free, every slot empty. Physical
     * memory is allocated but its contents are not specified.
     */
    constructor ()
      ensures Valid() && fresh(segments) && fresh(physicalMemory) && fresh(pageFrames) && fresh(Repr)
      ensures Mapping() == Paging(seq(FrameCount, _ => 0), seq(SegmentCount, _ => None))
    {
      physicalMemory := new bv8[MemorySize];
      pageFrames := new nat[FrameCount](_ => 0);
      segments := new Segment?[SegmentCount];
      new;
      for i := 0 to SegmentCount
        modifies segments
        invariant forall j :: 0 <= j < i ==> segments[j] == null
      {
        segments[i] := null;
      }
      Segs := seq(SegmentCount, _ => None);
      Repr := {segments};
      assert pageFrames[..] == seq(FrameCount, _ => 0);
      assert forall i :: 0 <= i < SegmentCount ==> SlotMatches(i);
    }

    /**
     * `allocate_page`: marks the lowest free frame used and returns it, or
     * returns -1 and changes nothing when every frame is in use.
     */
    method AllocatePage() returns (r: int)
      requires Valid()
      modifies pageFrames
      ensures Valid()
      ensures r == FirstFree(old(pageFrames[..]))
      ensures r == -1 ==> pageFrames[..] == old(pageFrames[..])
      ensures r != -1 ==> pageFrames[..] == old(pageFrames[..])[r := 1]
    {
      for i := 0 to FrameCount
        invariant forall j :: 0 <= j < i ==> pageFrames[j] != 0
        invariant pageFrames[..] == old(pageFrames[..])
      {
        if pageFrames[i] == 0 {
          pageFrames[i] := 1;
          r := i;
          assert FirstFreeFrom(old(pageFrames[..]), 0) == i;
          AllocatePreservesInv(old(Mapping()), i);
          return;
        }
      }
      r := -1;
    }

    /**
     * `allocate_segment`: puts a segment of `size` bytes, with a page table
     * of one invalid entry per page, in the lowest empty slot and returns
     * that slot, or returns -1 and changes nothing when no slot is empty.
     */
    method AllocateSegment(size: nat) returns (r: int)
      requires Valid()
      modifies this, segments
      ensures Valid() && fresh(Repr - old(Repr))
      ensures r == FirstEmptySlot(old(Segs))
      ensures r == -1 ==> Segs == old(Segs)
      ensures r != -1 ==> Segs == old(Segs)[r := Some(SegmentView(size, seq(PagesFor(size), _ => PageTableEntry(0, 0))))]
    {
      for i := 0 to SegmentCount
        invariant Valid() && Segs == old(Segs) && Repr == old(Repr)
        invariant forall j :: 0 <= j < i ==> old(Segs)[j].Some?
      {
        assert SlotMatches(i);
        if segments[i] == null {
          var numPages := PagesFor(size);
          var segment := new Segment(size);
          for j := 0 to numPages
            modifies segment.pageTable
            invariant forall k :: 0 <= k < numPages ==> segment.pageTable[k] == PageTableEntry(0, 0)
          {
            segment.pageTable[j] := segment.pageTable[j].(valid := 0);
          }
          ghost var sv := SegmentView(size, segment.pageTable[..]);
          assert sv.table == seq(PagesFor(size), _ => PageTableEntry(0, 0));
          AddSegmentPreservesInv(Mapping(), i, sv);
          segments[i] := segment;
          Segs := Segs[i := Some(sv)];
          Repr := Repr + {segment.pageTable};
          assert FirstEmptySlotFrom(old(Segs), 0) == i;
          assert forall l :: 0 <= l < SegmentCount ==> SlotMatches(l);
          return i;
        }
      }
      r := -1;
    }

    /**
     * `free_segment`: releases every frame a valid entry of the segment in
     * that slot maps and empties the slot; an out-of-range index or an
     * empty slot changes nothing. Physical memory is not cleared.
     */
    method FreeSegment(segmentIndex: int)
      requires Valid()
      modifies this`Segs, segments, pageFrames
      ensures Valid()
      ensures Mapping() == ReleaseSegment(old(Mapping()), segmentIndex)
    {
      if 0 <= segmentIndex < SegmentCount {
        assert SlotMatches(segmentIndex);
      }
      if 0 <= segmentIndex < SegmentCount && segments[segmentIndex] != null {
        var segment := segments[segmentIndex];
        var numPages := PagesFor(segment.size);
        assert SlotMatches(segmentIndex);
        ghost var table := segment.pageTable[..];
        assert SegmentWellFormed(Segs[segmentIndex].value);
        for i := 0 to numPages
          modifies pageFrames
          invariant ReleaseFrames(pageFrames[..], table, i) == ReleaseFrames(old(pageFrames[..]), table, 0)
        {
          if segment.pageTable[i].valid != 0 {
            pageFrames[segment.pageTable[i].pageNumber] := 0;
          }
        }
        segments[segmentIndex] := null;
        Segs := Segs[segmentIndex := None];
        assert forall l :: 0 <= l < SegmentCount ==> SlotMatches(l);
      }
    }

    /**
     * `resolve_address`: the physical index of byte `offset` of the segment
     * in slot `segmentIndex`, mapping the lowest free frame to its page on a
     * page fault; `None` when the segment is absent, the offset is out of
     * bounds, or the page faults while every frame is in use.
     */
    method ResolveAddress(segmentIndex: int, offset: nat) returns (r: Option<nat>)
      requires Valid() && 0 <= segmentIndex < SegmentCount
      modifies this`Segs, pageFrames, TableOf(segmentIndex)
      ensures Valid()
      ensures (r, Mapping()) == Translate(old(Mapping()), segmentIndex, offset)
    {
      var segment := segments[segmentIndex];
      assert SlotMatches(segmentIndex);
      if segment == null || offset >= segment.size {
        return None;
      }
      var pageIndex := offset / PageSize;
      var pageOffset := offset % PageSize;
      PageIndexInTable(segment.size, offset);
      var entry := segment.pageTable[pageIndex];
      if entry.valid == 0 {
        ghost var before := Mapping();
        var frameNumber := AllocatePage();
        if frameNumber == -1 {
          return None;
        }
        segment.pageTable[pageIndex] := entry.(pageNumber := frameNumber, valid := 1);
        Segs := Segs[segmentIndex := Some(SegmentView(segment.size, segment.pageTable[..]))];
        assert Mapping() == MapFrame(before, segmentIndex, pageIndex, frameNumber);
        MapPreservesInv(before, segmentIndex, pageIndex, frameNumber);
        assert forall l :: 0 <= l < SegmentCount ==> SlotMatches(l);
      }
      r := Some(segment.pageTable[pageIndex].pageNumber * PageSize + pageOffset);
    }

    /**
     * `write_memory`: refuses an absent segment; otherwise stores `data`
     * byte by byte at the translation of `offset + i`, stopping at the
     * first byte that does not translate.
     */
    method WriteMemory(segmentIndex: int, data: seq<bv8>, offset: nat) returns (status: Status)
      requires Valid() && 0 <= segmentIndex < SegmentCount
      modifies this`Segs, pageFrames, physicalMemory, TableOf(segmentIndex)
      ensures Valid()
      ensures (status, Mapping(), Memory()) == Write(old(Mapping()), old(Memory()), segmentIndex, data, offset)
    {
      assert SlotMatches(segmentIndex);
      if segments[segmentIndex] == null {
        return SegmentNotFound;
      }
      ghost var target := Write(old(Mapping()), old(Memory()), segmentIndex, data, offset);
      for i := 0 to |data|
        invariant Valid()
        invariant WriteFrom(Mapping(), Memory(), segmentIndex, data, offset, i) == target
      {
        var stored := WriteByte(segmentIndex, data, offset, i);
        if !stored {
          return Inaccessible(i);
        }
      }
      status := Done;
    }

    /**
     * One pass of the `write_memory` loop: translates byte `offset + i` of
     * the segment and, when it translates, stores `data[i]` there.
     */
    method WriteByte(segmentIndex: int, data: seq<bv8>, offset: nat, i: nat) returns (stored: bool)
      requires Valid() && 0 <= segmentIndex < SegmentCount && i < |data|
      modifies this`Segs, pageFrames, physicalMemory, TableOf(segmentIndex)
      ensures Valid()
      ensures var before := WriteFrom(old(Mapping()), old(Memory()), segmentIndex, data, offset, i);
              if stored then before == WriteFrom(Mapping(), Memory(), segmentIndex, data, offset, i + 1)
              else before == (Inaccessible(i), Mapping(), Memory())
    {
      assert SlotMatches(segmentIndex);
      var addr := ResolveAddress(segmentIndex, offset + i);
      WriteFromStep(old(Mapping()), Memory(), segmentIndex, data, offset, i, addr, Mapping());
      if addr.None? {
        return false;
      }
      StoreByte(addr.value, data[i]);
      stored := true;
    }

    /** Stores one byte of physical memory; the segment table and the frame bitmap are untouched. */
    method StoreByte(a: nat, b: bv8)
      requires Valid() && a < MemorySize
      modifies physicalMemory
      ensures Valid() && Memory() == old(Memory())[a := b]
    {
      physicalMemory[a] := b;
    }

    /**
     * `free_page`: refuses an absent segment or out-of-bounds offset, and a
     * page that is not valid; otherwise releases the page's frame, marks its
     * entry invalid and zeroes the frame's bytes.
     */
    method FreePage(segmentIndex: int, offset: nat) returns (status: Status)
      requires Valid() && 0 <= segmentIndex < SegmentCount
      modifies this`Segs, pageFrames, physicalMemory, TableOf(segmentIndex)
      ensures Valid()
      ensures (status, Mapping(), Memory()) == ReleasePage(old(Mapping()), old(Memory()), segmentIndex, offset)
    {
      var segment := segments[segmentIndex];
      assert SlotMatches(segmentIndex);
      if segment == null || offset >= segment.size {
        assert ReleasePage(Mapping(), Memory(), segmentIndex, offset).0 == SegmentNotFound;
        return SegmentNotFound;
      }
      var pageIndex := offset / PageSize;
      PageIndexInTable(segment.size, offset);
      var entry := segment.pageTable[pageIndex];
      if entry.valid == 0 {
        assert ReleasePage(Mapping(), Memory(), segmentIndex, offset).0 == PageInvalid;
        return PageInvalid;
      }
      ghost var before := Mapping();
      ghost var sv := Segs[segmentIndex].value;
      assert SegmentWellFormed(sv) && sv.table[pageIndex] == entry;
      pageFrames[entry.pageNumber] := 0;
      segment.pageTable[pageIndex] := entry.(valid := 0);
      var base := entry.pageNumber * PageSize;
      forall a | base <= a < base + PageSize {
        physicalMemory[a] := 0;
      }
      Segs := Segs[segmentIndex := Some(SegmentView(segment.size, segment.pageTable[..]))];
      assert segment.pageTable[..] == sv.table[pageIndex := entry.(valid := 0)];
      UnmapPreservesInv(before, segmentIndex, pageIndex, Mapping());
      ghost var zeroed := ZeroFrame(old(Memory()), entry.pageNumber);
      assert forall a :: 0 <= a < MemorySize ==> Memory()[a] == zeroed[a];
      assert Memory() == zeroed;
      assert forall l :: 0 <= l < SegmentCount ==> SlotMatches(l);
      status := Done;
      assert ReleasePage(old(Mapping()), old(Memory()), segmentIndex, offset).0 == Done;
      assert ReleasePage(old(Mapping()), old(Memory()), segmentIndex, offset).1 == Mapping();
      assert ReleasePage(old(Mapping()), old(Memory()), segmentIndex, offset).2 == Memory();
    }

    /**
     * `read_memory`, with its checks in a safe order: refuses an absent
     * segment, then a first page that lies in the page table and is not
     * valid; otherwise copies `size` bytes into `buffer`, translating (and
     * so possibly mapping) each, and stops at the first byte that does not
     * translate. Bytes of `buffer` past those copied are untouched.
     */
    method ReadMemory(segmentIndex: int, buffer: array<bv8>, size: nat, offset: nat) returns (status: Status)
      requires Valid() && 0 <= segmentIndex < SegmentCount
      requires size <= buffer.Length && buffer !in Footprint()
      modifies this`Segs, pageFrames, TableOf(segmentIndex), buffer
      ensures Valid()
      ensures var res := Read(old(Mapping()), old(Memory()), segmentIndex, size, offset);
              && status == res.0 && Mapping() == res.2
              && buffer[..|res.1|] == res.1
              && forall j :: |res.1| <= j < buffer.Length ==> buffer[j] == old(buffer[j])
    {
      var segment := segments[segmentIndex];
      assert SlotMatches(segmentIndex);
      if segment == null {
        return SegmentNotFound;
      }
      var pageIndex := offset / PageSize;
      if pageIndex < segment.pageTable.Length && segment.pageTable[pageIndex].valid == 0 {
        return PageInvalid;
      }
      ghost var target := ReadFrom(Mapping(), Memory(), segmentIndex, size, offset, 0, []);
      assert buffer[..0] == [];
      for i := 0 to size
        invariant Valid()
        invariant ReadFrom(Mapping(), Memory(), segmentIndex, size, offset, i, buffer[..i]) == target
        invariant forall j :: i <= j < buffer.Length ==> buffer[j] == old(buffer[j])
      {
        var ok := ReadByte(segmentIndex, buffer, size, offset, i);
        if !ok {
          return Inaccessible(i);
        }
      }
      status := Done;
    }

    /**
     * One pass of the `read_memory` loop: translates byte `offset + i` of
     * the segment and, when it translates, copies the byte there into
     * `buffer[i]`.
     */
    method ReadByte(segmentIndex: int, buffer: array<bv8>, size: nat, offset: nat, i: nat) returns (copied: bool)
      requires Valid() && 0 <= segmentIndex < SegmentCount && i < size <= buffer.Length
      requires buffer !in Footprint()
      modifies this`Segs, pageFrames, TableOf(segmentIndex), buffer
      ensures Valid() && Memory() == old(Memory())
      ensures forall j :: 0 <= j < buffer.Length && (j != i || !copied) ==> buffer[j] == old(buffer[j])
      ensures var before := ReadFrom(old(Mapping()), old(Memory()), segmentIndex, size, offset, i, old(buffer[..i]));
              if copied then before == ReadFrom(Mapping(), Memory(), segmentIndex, size, offset, i + 1, buffer[..i + 1])
              else before == (Inaccessible(i), buffer[..i], Mapping())
    {
      assert SlotMatches(segmentIndex);
      var addr := ResolveAddress(segmentIndex, offset + i);
      ReadFromStep(old(Mapping()), Memory(), segmentIndex, size, offset, i, old(buffer[..i]), addr, Mapping());
      if addr.None? {
        assert buffer[..i] == old(buffer[..i]);
        return false;
      }
      buffer[i] := physicalMemory[addr.value];
      assert buffer[..i + 1] == old(buffer[..i]) + [buffer[i]];
      copied := true;
    }
  }
}
