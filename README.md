# Segmented, demand-paged memory manager

A Dafny model of the memory manager in `main.c`. The manager keeps
physical memory as one byte store of `MEMORY_SIZE` bytes, split into
`NUM_PAGES` frames of `PAGE_SIZE` bytes each. A bitmap `page_frames`
records which frames are in use. The segment table has `SEGMENT_COUNT`
slots. Each live segment has a size and a page table with one entry per
page. An entry is either invalid or maps its page to a frame.

Pages get frames lazily. When an address is translated and its page has no
frame, the lowest free frame is taken (first fit). Segments are created
and torn down whole. A single page can be released, which also zeroes its
frame. Data is written and read byte by byte, and each byte is translated
on its own.

The project has four modules:

- `Layout` (layout.dfy) holds:
  - the configuration constants;
  - the page-table entry record;
  - the address arithmetic: pages per segment, page index, offset within
    the page, and the physical index.
- `MemoryModel` (memory_model.dfy) holds the translation state as a value.
  That state is the frame bitmap plus the segment table with its page
  tables. The module also defines:
  - the manager's invariant;
  - the first-fit searches;
  - address translation and segment teardown as functions;
  - the lemmas about them.

  The invariant says that every frame a valid entry maps is marked used,
  and that no two valid entries share a frame.
- `MemoryAccess` (memory_access.dfy) models three operations as functions
  of the translation state and physical memory: the write loop, the read
  loop and page reclamation. It also proves the write-then-read round
  trip.
- `Manager` (manager.dfy) holds the classes `Segment` and `MemoryManager`.
  Their arrays and methods mirror the C structures and functions. Each
  method is proved to have exactly the effect of the matching function
  above, and to keep the invariant.

Other representation choices:

- `resolve_address` returns an index into the byte store, or `None` where
  the C code returns NULL.
- Each error message becomes a `Status` value:
  - `SegmentNotFound`;
  - `PageInvalid`;
  - `Inaccessible(i)`, where `i` is the byte at which the loop stopped.

`read_memory`, as written, reads the page table of the segment before it
checks the segment for NULL. It also indexes that table without checking
the offset against the segment's size. The model reorders these checks:

1. An absent segment is refused first.
2. The first page is checked for validity only when its index lies inside
   the page table.
3. Otherwise the copy loop runs. When `size > 0`, it stops at byte 0
   because that byte is out of bounds. When `size == 0`, the loop does
   not run and the read completes with no bytes.

The model checks the first page exactly when the C code's table read is
defined. On the other inputs the C code has undefined behaviour: it reads
through a null segment, or reads past the end of the page table. On those
inputs the model refuses an absent segment, and otherwise runs the copy
loop.

## Model

| member | source | states |
|---|---|---|
| Layout.PagesForIsCeiling | main.c:50 | the number of pages `(size + PAGE_SIZE - 1) / PAGE_SIZE` is the ceiling of size / PAGE_SIZE: the pages cover the segment, none is spare, and it is 0 exactly for an empty segment |
| Layout.PageIndexInTable | main.c:83-90 | an offset that passes the bounds check has a page index inside the page table |
| Layout.PhysicalIndex | main.c:87-105 | `frame * PAGE_SIZE + offset % PAGE_SIZE` is below MEMORY_SIZE, and the frame and the in-page offset can be read back from it |
| MemoryModel.FirstFreeFrom | main.c:26-34 | first fit: -1 exactly when every frame from i on is in use; otherwise a free frame with every frame before it in use |
| MemoryModel.AllocatePreservesInv | main.c:28-29 | marking a free frame used keeps the invariant |
| MemoryModel.FirstEmptySlotFrom | main.c:47-62 | first fit over the segment table: -1 exactly when every slot is taken; otherwise an empty slot with every slot before it taken |
| MemoryModel.LookupInjective | main.c:87-105 | under the invariant, two offsets of one segment that are mapped never share a physical byte |
| MemoryModel.LookupStable | main.c:90-100 | a byte that is mapped keeps its physical index in every later state that only maps more pages |
| MemoryModel.Translate | main.c:81-106 | translation keeps the state well formed, and a returned physical index is below MEMORY_SIZE |
| MemoryModel.TranslateSpec | main.c:81-106 | translation fails exactly when the segment is absent, the offset is out of bounds, or the page faults with no free frame, and then nothing changes; a valid entry is returned as is, with no frame allocated; a fault takes the lowest free frame, marks only that frame used and maps the page to it |
| MemoryModel.TranslateKeepsOthers | main.c:90-100 | translation changes at most the entry of the page it translates: every other page of the segment keeps its mapping or its lack of one, and every other segment is untouched |
| MemoryModel.TranslateKeepsInv | main.c:90-100 | translation leaves every existing mapping in place, and keeps frame uniqueness |
| MemoryModel.MapPreservesInv | main.c:92-99 | pointing an invalid entry at a free frame and marking the frame used keeps the invariant and every other mapping |
| MemoryModel.AddSegmentPreservesInv | main.c:50-58 | putting a segment whose page table has one invalid entry per page into an empty slot keeps the invariant |
| MemoryModel.ReleaseFrames | main.c:70-74 | the teardown loop clears exactly the frames that the valid entries it visits map, and keeps every other frame's mark |
| MemoryModel.ReleaseSegment | main.c:65-79 | free_segment empties the slot and frees exactly the frames its valid entries map; an out-of-range index or empty slot changes nothing; the invariant is kept |
| MemoryModel.ReleaseSegmentPreservesInv | main.c:70-77 | emptying a slot and releasing exactly its frames keeps the invariant |
| MemoryAccess.WriteFrom | main.c:118-131 | the write loop either completes or stops at some byte k at or after i, and byte k then has no mapping |
| MemoryAccess.Write | main.c:108-131 | write_memory reports a missing segment exactly when the slot is empty, and then changes nothing; otherwise it completes or stops at a byte of the data |
| MemoryAccess.WriteFromKeepsInv | main.c:118-131 | the write loop keeps frame uniqueness and every existing mapping |
| MemoryAccess.WriteFromEffect | main.c:118-131 | every byte the write loop got to is mapped at its end and holds the matching data byte, even if the loop stopped early; every physical byte none of them maps to is unchanged |
| MemoryAccess.ReadFrom | main.c:177-191 | the read loop completes or stops at some byte k at or after i, and byte k then has no mapping; it yields the bytes copied before, plus one byte for each byte it got to |
| MemoryAccess.Read | main.c:160-191 | read_memory, with its checks reordered, refuses an absent segment and an invalid first page that lies in the table, and then copies and maps nothing; a completed read yields `size` bytes; a read that stops early stops at a byte with no mapping |
| MemoryAccess.ReadFromKeepsInv | main.c:177-191 | the read loop leaves every existing mapping in place, and keeps frame uniqueness |
| MemoryAccess.ReadFromEffect | main.c:177-191 | every byte the read loop got to is mapped at its end, and the bytes it appends are the physical bytes those offsets map to, in order |
| MemoryAccess.ReadEffect | main.c:160-191 | read_memory keeps the invariant and every existing mapping; when it reaches the copy loop, byte j of what it returns is the physical byte that offset + j maps to at the end, for every byte it got to |
| MemoryAccess.ReadFromStored | main.c:177-191 | over a range whose bytes are all mapped and hold `data`, the read loop maps nothing new and yields `data` |
| MemoryAccess.StoredReadsBack | main.c:160-191 | a non-empty range whose bytes are all mapped and hold `data` reads back as `data` |
| MemoryAccess.WriteThenRead | main.c:108-191 | after a completed write of non-empty data, reading the same range yields that data and maps nothing new |
| MemoryAccess.ZeroFrame | main.c:155 | the bytes of frame f are zero and every other byte is unchanged |
| MemoryAccess.ReleasePage | main.c:137-158 | free_page reports a missing segment or out-of-bounds offset, or an invalid page, exactly in those cases, and then changes nothing; otherwise it frees that frame, leaves the byte unmapped, zeroes exactly the frame's bytes, and keeps the segment's size and table length, the other pages, the other segments and the invariant |
| MemoryAccess.UnmapPreservesInv | main.c:152-154 | freeing the frame of a valid entry and marking the entry invalid keeps the invariant |
| MemoryAccess.FreedPageRefusesRead | main.c:137-173 | after a page is freed, a read that starts in that page is refused as an invalid page |
| Manager.Segment.constructor | main.c:51-53 | a new segment has the given size and a freshly allocated, zeroed page table of one entry per page |
| Manager.MemoryManager.constructor | main.c:36-45 | the new manager is valid, every frame is free and every slot is empty |
| Manager.MemoryManager.AllocatePage | main.c:26-34 | returns the lowest free frame and marks only that frame used, or returns -1 and changes nothing when every frame is in use |
| Manager.MemoryManager.AllocateSegment | main.c:47-63 | fills the lowest empty slot with a segment of that size whose entries are all invalid, and returns the slot; returns -1 and changes nothing when no slot is empty |
| Manager.MemoryManager.FreeSegment | main.c:65-79 | has the effect of ReleaseSegment on the frame bitmap and the segment table |
| Manager.MemoryManager.ResolveAddress | main.c:81-106 | returns the translation and leaves the state Translate describes |
| Manager.MemoryManager.WriteMemory | main.c:108-135 | returns the status and leaves the translation state and physical memory that Write describes |
| Manager.MemoryManager.WriteByte | main.c:119-130 | one pass of the write loop: when it stores, WriteFrom from byte i of the old state equals WriteFrom from byte i + 1 of the new state; otherwise the loop stops at byte i |
| Manager.MemoryManager.StoreByte | main.c:126 | physical memory changes in exactly one byte, and the manager stays valid |
| Manager.MemoryManager.FreePage | main.c:137-158 | returns the status and leaves the translation state and physical memory that ReleasePage describes |
| Manager.MemoryManager.ReadMemory | main.c:160-195 | returns Read's status and leaves its translation state; the buffer starts with the bytes Read yields, and its later bytes are untouched |
| Manager.MemoryManager.ReadByte | main.c:178-190 | one pass of the read loop: when it copies, ReadFrom from byte i equals ReadFrom from byte i + 1 with the byte appended; otherwise the loop stops at byte i |

## Left out

- Console output is not modelled: the `printf` calls, their ANSI colour codes, the translation table printed by `resolve_address`, and the first and last addresses printed by the write and read loops. Error messages become `Status` values.
- `malloc`, `calloc` and `free` lifetimes are not modelled. Construction allocates arrays, and tearing down a segment sets its slot to null. A failed allocation is not modelled.
- Physical memory starts with unspecified contents, as `malloc` leaves it. `free_segment` does not clear the frames it releases, and neither does the model.
- `main` and its demo data, including the `float` values, are not modelled. Data is a sequence of bytes.
- Pointers, `memcpy` and `memset` become index arithmetic on the byte array.
- `size_t` wrap-around of `offset + i` is not modelled. Offsets are unbounded naturals.
- Layout.PagesFor does not model the `size_t` wrap-around of `size + PAGE_SIZE - 1` in `allocate_segment` and `free_segment` (main.c:50 and main.c:68). In C, a size within 511 of `SIZE_MAX` wraps and gets a page table too short for the segment, and `resolve_address` then indexes past its end. The model computes the page count on unbounded naturals, so every page table covers its segment.
- Manager.MemoryManager.ResolveAddress, WriteMemory, FreePage and ReadMemory require `0 <= segmentIndex < SEGMENT_COUNT`. The C code indexes the segment table with the index unchecked in these functions. Only `free_segment` checks it.
- Manager.MemoryManager.ReadMemory models the undefined behaviour of `read_memory` only through the reordered checks described above. The null dereference and the out-of-bounds table read are not modelled.
- Manager.MemoryManager.ReadMemory requires that the caller's buffer is not one of the manager's own arrays. The C code does not check this.
- Manager.MemoryManager.WriteMemory takes its data as a byte sequence of the given length, not as a pointer plus a size. It reads a snapshot of the data. In C, the data may overlap physical memory, for example through a pointer that `resolve_address` returned. A byte stored early in the loop can then change a data byte that the loop reads later. The model does not capture that.
