/**
 * The translation state of the memory manager as a value: the frame
 * bitmap and the segment table with its page tables. Physical memory is
 * kept apart (module MemoryAccess), since translation never reads or
 * writes it. Each operation is a function from a state to a result and a
 * new state; the class in module Manager is proved to compute exactly
 * these functions. The lemmas here state what translation promises:
 * frame uniqueness is preserved, a mapped page is never remapped, and a
 * translated index stays inside physical memory.
 */
module MemoryModel {
  import opened Layout

  /** A live segment: its size in bytes and the contents of its page table. */
  datatype SegmentView = SegmentView(size: nat, table: seq<PageTableEntry>)

  /**
   * Frame bitmap (`frames[f] == 0` when frame f is free, page_frames) and
   * one optional segment per slot of the segment table (segments).
   */
  datatype Paging = Paging(frames: seq<nat>, segments: seq<Option<SegmentView>>)

  // ---------------------------------------------------------------------
  // Frame allocator (allocate_page)

  /** First-fit search: the lowest index at or after `i` of a free frame, or -1. */
  function FirstFreeFrom(frames: seq<nat>, i: nat): (r: int)
    requires i <= |frames|
    ensures r == -1 <==> forall j :: i <= j < |frames| ==> frames[j] != 0
    ensures r != -1 ==> i <= r < |frames| && frames[r] == 0
    ensures r != -1 ==> forall j :: i <= j < r ==> frames[j] != 0
    decreases |frames| - i
  {
    if i == |frames| then -1
    else if frames[i] == 0 then i
    else FirstFreeFrom(frames, i + 1)
  }

  /** The frame `allocate_page` hands out: the lowest free one, or -1 when all are in use. */
  function FirstFree(frames: seq<nat>): int
  {
    FirstFreeFrom(frames, 0)
  }

  /** Marking a free frame used, with no entry mapping it yet, keeps the invariant. */
  lemma AllocatePreservesInv(p: Paging, f: nat)
    requires Inv(p) && f < FrameCount && p.frames[f] == 0
    ensures Inv(p.(frames := p.frames[f := 1]))
  {
  }

  // ---------------------------------------------------------------------
  // Segment table (allocate_segment)

  /** First-fit search for an empty slot of the segment table at or after `i`, or -1. */
  function FirstEmptySlotFrom(segments: seq<Option<SegmentView>>, i: nat): (r: int)
    requires i <= |segments|
    ensures r == -1 <==> forall j :: i <= j < |segments| ==> segments[j].Some?
    ensures r != -1 ==> i <= r < |segments| && segments[r].None?
    ensures r != -1 ==> forall j :: i <= j < r ==> segments[j].Some?
    decreases |segments| - i
  {
    if i == |segments| then -1
    else if segments[i].None? then i
    else FirstEmptySlotFrom(segments, i + 1)
  }

  /** The slot `allocate_segment` fills: the lowest empty one, or -1 when the table is full. */
  function FirstEmptySlot(segments: seq<Option<SegmentView>>): int
  {
    FirstEmptySlotFrom(segments, 0)
  }

  // ---------------------------------------------------------------------
  // Invariants

  /** The page table has one entry per page and every valid entry names an existing frame. */
  ghost predicate SegmentWellFormed(sv: SegmentView)
  {
    && |sv.table| == PagesFor(sv.size)
    && forall k :: 0 <= k < |sv.table| && sv.table[k].valid != 0 ==> sv.table[k].pageNumber < FrameCount
  }

  /**
   * One bitmap entry per frame, and every live segment well formed. The
   * number of segment slots is left open: the manager has SegmentCount of
   * them, and everything proved here holds for any number.
   */
  ghost predicate WellFormed(p: Paging)
  {
    && |p.frames| == FrameCount
    && forall i :: 0 <= i < |p.segments| && p.segments[i].Some? ==> SegmentWellFormed(p.segments[i].value)
  }

  /** Entry k of the segment in slot i is valid, that is, maps a frame. */
  ghost predicate ValidEntry(segments: seq<Option<SegmentView>>, i: int, k: int)
  {
    && 0 <= i < |segments|
    && segments[i].Some?
    && 0 <= k < |segments[i].value.table|
    && segments[i].value.table[k].valid != 0
  }

  /** The frame mapped by entry k of the segment in slot i. */
  ghost function FrameAt(segments: seq<Option<SegmentView>>, i: int, k: int): nat
    requires ValidEntry(segments, i, k)
  {
    segments[i].value.table[k].pageNumber
  }

  /**
   * The manager's invariant: every frame referenced by a valid entry is
   * marked used, and no two valid entries, in the same segment or in two
   * different ones, share a frame.
   */
  ghost predicate Inv(p: Paging)
  {
    && WellFormed(p)
    && (forall i, k :: ValidEntry(p.segments, i, k) ==> p.frames[FrameAt(p.segments, i, k)] == 1)
    && (forall i, k, j, l ::
          ValidEntry(p.segments, i, k) && ValidEntry(p.segments, j, l) && FrameAt(p.segments, i, k) == FrameAt(p.segments, j, l)
          ==> i == j && k == l)
  }

  // ---------------------------------------------------------------------
  // Address lookup without allocation

  /** `offset` lies inside a live segment in slot s. */
  predicate InBounds(p: Paging, s: nat, offset: nat)
  {
    s < |p.segments| && p.segments[s].Some? && offset < p.segments[s].value.size
  }

  /** The physical index byte `offset` of segment s currently maps to, if its page is valid. */
  ghost function Lookup(p: Paging, s: nat, offset: nat): (a: Option<nat>)
    requires WellFormed(p)
    ensures a.Some? ==> InBounds(p, s, offset) && a.value < MemorySize
    ensures a.Some? ==> a.value % PageSize == PageOffset(offset)
  {
    if !InBounds(p, s, offset) then None
    else
      var sv := p.segments[s].value;
      PageIndexInTable(sv.size, offset);
      var e := sv.table[PageIndex(offset)];
      if e.valid == 0 then None else Some(PhysicalIndex(e.pageNumber, offset))
  }

  /** Within one segment, no two offsets translate to the same physical byte. */
  lemma LookupInjective(p: Paging, s: nat, o1: nat, o2: nat)
    requires Inv(p)
    requires Lookup(p, s, o1).Some? && Lookup(p, s, o1) == Lookup(p, s, o2)
    ensures o1 == o2
  {
    var sv := p.segments[s].value;
    PageIndexInTable(sv.size, o1);
    PageIndexInTable(sv.size, o2);
    var k1, k2 := PageIndex(o1), PageIndex(o2);
    assert ValidEntry(p.segments, s, k1) && ValidEntry(p.segments, s, k2);
    var a := Lookup(p, s, o1).value;
    assert FrameAt(p.segments, s, k1) == a / PageSize == FrameAt(p.segments, s, k2);
    SplitDeterminesOffset(o1, o2);
  }

  /** Two slots hold segments of the same shape (present together, same size, same table length). */
  ghost predicate SameShape(a: Option<SegmentView>, b: Option<SegmentView>)
  {
    a.Some? == b.Some? && (a.Some? ==> a.value.size == b.value.size && |a.value.table| == |b.value.table|)
  }

  /** `p'` keeps every segment of `p` and every valid entry of it unchanged; it may map more pages. */
  ghost predicate Extends(p: Paging, p': Paging)
  {
    && |p'.segments| == |p.segments|
    && (forall i :: 0 <= i < |p.segments| ==> SameShape(p.segments[i], p'.segments[i]))
    && (forall i, k :: ValidEntry(p.segments, i, k) ==>
          ValidEntry(p'.segments, i, k) && p'.segments[i].value.table[k] == p.segments[i].value.table[k])
  }

  lemma ExtendsTransitive(p1: Paging, p2: Paging, p3: Paging)
    requires Extends(p1, p2) && Extends(p2, p3)
    ensures Extends(p1, p3)
  {
  }

  /** A byte that is mapped keeps its physical index in every extension. */
  lemma LookupStable(p: Paging, p': Paging, s: nat, offset: nat)
    requires WellFormed(p) && WellFormed(p') && Extends(p, p')
    requires Lookup(p, s, offset).Some?
    ensures Lookup(p', s, offset) == Lookup(p, s, offset)
  {
  }

  // ---------------------------------------------------------------------
  // Address translation (resolve_address)

  /** The state after entry k of segment s is pointed at frame f and marked valid, and f marked used. */
  function MapFrame(p: Paging, s: nat, k: nat, f: nat): Paging
    requires s < |p.segments| && p.segments[s].Some? && k < |p.segments[s].value.table|
    requires f < |p.frames|
  {
    var sv := p.segments[s].value;
    Paging(p.frames[f := 1], p.segments[s := Some(sv.(table := sv.table[k := PageTableEntry(f, 1)]))])
  }

  /**
   * Translation of byte `offset` of segment s, allocating the lowest free
   * frame on a page fault. Fails when the segment is absent, the offset is
   * out of bounds, or the page faults while every frame is in use.
   */
  function Translate(p: Paging, s: nat, offset: nat): (res: (Option<nat>, Paging))
    requires WellFormed(p) && s < |p.segments|
    ensures WellFormed(res.1) && |res.1.segments| == |p.segments|
    ensures res.0.Some? ==> res.0.value < MemorySize
  {
    if !InBounds(p, s, offset) then (None, p)
    else
      var sv := p.segments[s].value;
      PageIndexInTable(sv.size, offset);
      var k := PageIndex(offset);
      if sv.table[k].valid != 0 then (Some(PhysicalIndex(sv.table[k].pageNumber, offset)), p)
      else
        var f := FirstFree(p.frames);
        if f == -1 then (None, p)
        else
          MapPreservesInv(p, s, k, f);
          (Some(PhysicalIndex(f, offset)), MapFrame(p, s, k, f))
  }

  /**
   * When translation fails and what it returns otherwise: it fails exactly
   * when the segment is absent, the offset is out of bounds, or the page
   * faults while every frame is in use, and then changes nothing. A valid
   * page is neither remapped nor given a frame; a fault takes the lowest
   * free frame, marks only that frame used, and maps the page to it.
   */
  lemma TranslateSpec(p: Paging, s: nat, offset: nat)
    requires WellFormed(p) && s < |p.segments|
    ensures var res := Translate(p, s, offset);
            && (res.0.None? <==> !InBounds(p, s, offset) || (Lookup(p, s, offset).None? && FirstFree(p.frames) == -1))
            && (res.0.None? ==> res.1 == p)
            && (res.0.Some? ==> Lookup(res.1, s, offset) == res.0)
            && (Lookup(p, s, offset).Some? ==> res == (Lookup(p, s, offset), p))
            && (res.0.Some? && Lookup(p, s, offset).None? ==>
                  && FirstFree(p.frames) == res.0.value / PageSize
                  && res.1.frames == p.frames[res.0.value / PageSize := 1])
  {
  }

  /**
   * Translation changes at most the entry of the page it translates: every
   * other page of the segment keeps its mapping or its lack of one, and
   * every other segment is untouched.
   */
  lemma TranslateKeepsOthers(p: Paging, s: nat, offset: nat)
    requires WellFormed(p) && s < |p.segments|
    ensures forall o :: PageIndex(o) != PageIndex(offset) ==> Lookup(Translate(p, s, offset).1, s, o) == Lookup(p, s, o)
    ensures forall j :: 0 <= j < |p.segments| && j != s ==> Translate(p, s, offset).1.segments[j] == p.segments[j]
  {
  }

  /** Translation keeps the invariant and every existing mapping. */
  lemma TranslateKeepsInv(p: Paging, s: nat, offset: nat)
    requires WellFormed(p) && s < |p.segments|
    ensures Extends(p, Translate(p, s, offset).1)
    ensures Inv(p) ==> Inv(Translate(p, s, offset).1)
  {
    if InBounds(p, s, offset) {
      var sv := p.segments[s].value;
      PageIndexInTable(sv.size, offset);
      var k := PageIndex(offset);
      var f := FirstFree(p.frames);
      if sv.table[k].valid == 0 && f != -1 {
        MapPreservesInv(p, s, k, f);
      }
    }
  }

  /** Mapping a free frame into an invalid entry keeps the invariant and every other mapping. */
  lemma MapPreservesInv(p: Paging, s: nat, k: nat, f: nat)
    requires WellFormed(p) && s < |p.segments| && p.segments[s].Some?
    requires k < |p.segments[s].value.table| && p.segments[s].value.table[k].valid == 0
    requires f < FrameCount && p.frames[f] == 0
    ensures WellFormed(MapFrame(p, s, k, f)) && Extends(p, MapFrame(p, s, k, f))
    ensures Inv(p) ==> Inv(MapFrame(p, s, k, f))
  {
    var p' := MapFrame(p, s, k, f);
    forall i, l | ValidEntry(p'.segments, i, l)
      ensures (i == s && l == k) || (ValidEntry(p.segments, i, l) && FrameAt(p'.segments, i, l) == FrameAt(p.segments, i, l))
    {
    }
  }

  // ---------------------------------------------------------------------
  // Segment creation and teardown (allocate_segment, free_segment)

  /** Putting a fresh segment whose entries are all invalid into an empty slot keeps the invariant. */
  lemma AddSegmentPreservesInv(p: Paging, r: nat, sv: SegmentView)
    requires Inv(p) && r < |p.segments| && p.segments[r].None?
    requires |sv.table| == PagesFor(sv.size) && forall k :: 0 <= k < |sv.table| ==> sv.table[k].valid == 0
    ensures Inv(p.(segments := p.segments[r := Some(sv)]))
  {
    var p' := p.(segments := p.segments[r := Some(sv)]);
    forall i, l | ValidEntry(p'.segments, i, l)
      ensures i != r && ValidEntry(p.segments, i, l) && FrameAt(p'.segments, i, l) == FrameAt(p.segments, i, l)
    {
    }
  }

  /** Some entry at or after index i of `table` is valid and maps frame f. */
  ghost predicate MappedFrom(table: seq<PageTableEntry>, i: nat, f: nat)
  {
    exists k :: i <= k < |table| && table[k].valid != 0 && table[k].pageNumber == f
  }

  /**
   * The frame bitmap after the teardown loop has visited entries i.. of
   * `table`: exactly the frames those valid entries map are cleared.
   */
  function ReleaseFrames(frames: seq<nat>, table: seq<PageTableEntry>, i: nat): (r: seq<nat>)
    requires i <= |table|
    requires forall k :: 0 <= k < |table| && table[k].valid != 0 ==> table[k].pageNumber < |frames|
    ensures |r| == |frames|
    ensures forall f :: 0 <= f < |frames| ==> r[f] == if MappedFrom(table, i, f) then 0 else frames[f]
    decreases |table| - i
  {
    if i == |table| then frames
    else
      var frames' := if table[i].valid != 0 then frames[table[i].pageNumber := 0] else frames;
      var r := ReleaseFrames(frames', table, i + 1);
      assert forall f :: MappedFrom(table, i, f) <==>
        (table[i].valid != 0 && table[i].pageNumber == f) || MappedFrom(table, i + 1, f);
      r
  }

  /**
   * Tearing down the segment in slot s: every frame one of its valid
   * entries maps is released and the slot is emptied. An out-of-range or
   * empty slot leaves the state unchanged.
   */
  function ReleaseSegment(p: Paging, s: int): (r: Paging)
    requires WellFormed(p)
    ensures WellFormed(r) && |r.segments| == |p.segments|
    ensures !(0 <= s < |p.segments| && p.segments[s].Some?) ==> r == p
    ensures 0 <= s < |p.segments| && p.segments[s].Some? ==>
              && r.segments == p.segments[s := None]
              && forall f :: 0 <= f < FrameCount ==>
                   r.frames[f] == if MappedFrom(p.segments[s].value.table, 0, f) then 0 else p.frames[f]
    ensures Inv(p) ==> Inv(r)
  {
    if 0 <= s < |p.segments| && p.segments[s].Some? then
      var r := Paging(ReleaseFrames(p.frames, p.segments[s].value.table, 0), p.segments[s := None]);
      ReleaseSegmentPreservesInv(p, s, r);
      r
    else p
  }

  /** Emptying a slot and releasing exactly the frames its valid entries map keeps the invariant. */
  lemma ReleaseSegmentPreservesInv(p: Paging, s: nat, r: Paging)
    requires WellFormed(p) && s < |p.segments| && p.segments[s].Some?
    requires r.segments == p.segments[s := None] && |r.frames| == FrameCount
    requires forall f :: 0 <= f < FrameCount ==>
               r.frames[f] == if MappedFrom(p.segments[s].value.table, 0, f) then 0 else p.frames[f]
    ensures WellFormed(r)
    ensures Inv(p) ==> Inv(r)
  {
    var table := p.segments[s].value.table;
    forall i, l | ValidEntry(r.segments, i, l)
      ensures i != s && ValidEntry(p.segments, i, l) && FrameAt(r.segments, i, l) == FrameAt(p.segments, i, l)
    {
    }
    if Inv(p) {
      forall i, l | ValidEntry(r.segments, i, l)
        ensures r.frames[FrameAt(r.segments, i, l)] == 1
      {
        var f := FrameAt(r.segments, i, l);
        forall k | 0 <= k < |table| && table[k].valid != 0
          ensures table[k].pageNumber != f
        {
          assert ValidEntry(p.segments, s, k);
        }
      }
    }
  }
}
