/**
 * Byte-wise write and read of a segment, and page reclamation, as functions
 * of the translation state and physical memory, with the properties they
 * promise: a write stores each byte at its translated address and touches
 * nothing else, a write is read back unchanged, and a freed page is zeroed
 * and refuses reads.
 */
module MemoryAccess {
  import opened Layout
  import opened MemoryModel

  /** Outcome of an access, standing for the messages the manager prints. */
  datatype Status = Done | SegmentNotFound | PageInvalid | Inaccessible(at: nat)

  /** Number of bytes an access of `total` bytes handled before it stopped. */
  function BytesDone(status: Status, total: nat): nat
  {
    if status.Inaccessible? then status.at else total
  }

  // ---------------------------------------------------------------------
  // write_memory

  /**
   * The write loop from byte i on: translate `offset + i`, stop with
   * `Inaccessible(i)` when that fails, otherwise store `data[i]` there and
   * go on with the next byte. Yields the status, the translation state and
   * physical memory.
   */
  function WriteFrom(p: Paging, mem: seq<bv8>, s: nat, data: seq<bv8>, offset: nat, i: nat): (res: (Status, Paging, seq<bv8>))
    requires WellFormed(p) && |mem| == MemorySize && s < |p.segments| && i <= |data|
    ensures WellFormed(res.1) && |res.1.segments| == |p.segments| && |res.2| == MemorySize
    ensures res.0 == Done || (res.0.Inaccessible? && i <= res.0.at < |data|)
    ensures res.0.Inaccessible? ==> Lookup(res.1, s, offset + res.0.at).None?
    decreases |data| - i
  {
    if i == |data| then (Done, p, mem)
    else
      var t := Translate(p, s, offset + i);
      TranslateSpec(p, s, offset + i);
      if t.0.None? then (Inaccessible(i), t.1, mem)
      else WriteFrom(t.1, mem[t.0.value := data[i]], s, data, offset, i + 1)
  }

  /** One step of the write loop, given the translation of byte i. */
  lemma WriteFromStep(p: Paging, mem: seq<bv8>, s: nat, data: seq<bv8>, offset: nat, i: nat, r: Option<nat>, p2: Paging)
    requires WellFormed(p) && |mem| == MemorySize && s < |p.segments| && i < |data|
    requires (r, p2) == Translate(p, s, offset + i)
    ensures r.None? ==> WriteFrom(p, mem, s, data, offset, i) == (Inaccessible(i), p2, mem)
    ensures r.Some? ==> WriteFrom(p, mem, s, data, offset, i) == WriteFrom(p2, mem[r.value := data[i]], s, data, offset, i + 1)
  {
  }

  /** `write_memory`: refuses an absent segment, otherwise runs the write loop from byte 0. */
  function Write(p: Paging, mem: seq<bv8>, s: nat, data: seq<bv8>, offset: nat): (res: (Status, Paging, seq<bv8>))
    requires WellFormed(p) && |mem| == MemorySize && s < |p.segments|
    ensures WellFormed(res.1) && |res.1.segments| == |p.segments| && |res.2| == MemorySize
    ensures res.0 == SegmentNotFound <==> p.segments[s].None?
    ensures res.0 == SegmentNotFound ==> res.1 == p && res.2 == mem
    ensures res.0 == Done || res.0 == SegmentNotFound || (res.0.Inaccessible? && res.0.at < |data|)
  {
    if p.segments[s].None? then (SegmentNotFound, p, mem)
    else WriteFrom(p, mem, s, data, offset, 0)
  }

  /** Some offset in [lo, hi) of segment s is mapped to physical index a. */
  ghost predicate MappedTo(p: Paging, s: nat, lo: nat, hi: nat, a: nat)
    requires WellFormed(p)
  {
    exists o :: lo <= o < hi && Lookup(p, s, o) == Some(a)
  }

  /**
   * One step of the write loop, unfolded: either byte i translates to some
   * physical index a, and the loop goes on from the resulting state with
   * `data[i]` stored at a, or it does not translate and the loop stops
   * there with nothing changed.
   */
  lemma WriteStep(p: Paging, mem: seq<bv8>, s: nat, data: seq<bv8>, offset: nat, i: nat) returns (ok: bool, a: nat, p2: Paging)
    requires WellFormed(p) && |mem| == MemorySize && s < |p.segments| && i < |data|
    ensures ok ==> && WellFormed(p2) && |p2.segments| == |p.segments| && a < MemorySize
                   && WriteFrom(p, mem, s, data, offset, i) == WriteFrom(p2, mem[a := data[i]], s, data, offset, i + 1)
    ensures ok ==> Lookup(p2, s, offset + i) == Some(a) && p2 == Translate(p, s, offset + i).1
    ensures !ok ==> && Lookup(p, s, offset + i).None?
                    && WriteFrom(p, mem, s, data, offset, i) == (Inaccessible(i), p, mem)
  {
    var t := Translate(p, s, offset + i);
    TranslateSpec(p, s, offset + i);
    ok := t.0.Some?;
    if ok {
      a, p2 := t.0.value, t.1;
    } else {
      a, p2 := 0, p;
    }
  }

  /** The write loop keeps the invariant and every existing mapping. */
  lemma {:induction false} WriteFromKeepsInv(p: Paging, mem: seq<bv8>, s: nat, data: seq<bv8>, offset: nat, i: nat)
    requires Inv(p) && |mem| == MemorySize && s < |p.segments| && i <= |data|
    ensures Inv(WriteFrom(p, mem, s, data, offset, i).1) && Extends(p, WriteFrom(p, mem, s, data, offset, i).1)
    decreases |data| - i
  {
    if i < |data| {
      var ok, a, p2 := WriteStep(p, mem, s, data, offset, i);
      if ok {
        TranslateKeepsInv(p, s, offset + i);
        WriteFromKeepsInv(p2, mem[a := data[i]], s, data, offset, i + 1);
        ExtendsTransitive(p, p2, WriteFrom(p2, mem[a := data[i]], s, data, offset, i + 1).1);
      }
    }
  }

  /** Every offset in [lo, hi) of segment s is mapped and its physical byte holds `data[o - base]`. */
  ghost predicate Stored(p: Paging, mem: seq<bv8>, s: nat, data: seq<bv8>, base: nat, lo: nat, hi: nat)
    requires WellFormed(p) && |mem| == MemorySize
  {
    forall o :: lo <= o < hi ==>
      && Lookup(p, s, o).Some? && base <= o < base + |data|
      && mem[Lookup(p, s, o).value] == data[o - base]
  }

  /** Every physical byte that no offset in [lo, hi) of segment s maps to under `p` is the same in both memories. */
  ghost predicate OthersKept(p: Paging, mem: seq<bv8>, mem': seq<bv8>, s: nat, lo: nat, hi: nat)
    requires WellFormed(p) && |mem| == MemorySize && |mem'| == MemorySize
  {
    forall a :: 0 <= a < MemorySize && !MappedTo(p, s, lo, hi, a) ==> mem'[a] == mem[a]
  }

  /**
   * One step of the write loop seen from its end state q: byte i, stored at
   * physical index a before the rest of the loop ran, is still there, since
   * no later offset maps to a; and a physical byte none of the offsets the
   * loop got to maps to is as before the step.
   */
  lemma EffectStep(p2: Paging, q: Paging, mem: seq<bv8>, memQ: seq<bv8>, s: nat, data: seq<bv8>, offset: nat, i: nat, done: nat, a: nat)
    requires WellFormed(p2) && Inv(q) && Extends(p2, q) && |mem| == MemorySize && |memQ| == MemorySize
    requires i < done <= |data| && a < MemorySize
    requires Lookup(p2, s, offset + i) == Some(a)
    requires Stored(q, memQ, s, data, offset, offset + (i + 1), offset + done)
    requires OthersKept(q, mem[a := data[i]], memQ, s, offset + (i + 1), offset + done)
    ensures Stored(q, memQ, s, data, offset, offset + i, offset + done)
    ensures OthersKept(q, mem, memQ, s, offset + i, offset + done)
  {
    var lo, hi := offset + i, offset + done;
    LookupStable(p2, q, s, lo);
    forall o | lo + 1 <= o < hi
      ensures Lookup(q, s, o) != Some(a)
    {
      if Lookup(q, s, o) == Some(a) {
        LookupInjective(q, s, o, lo);
      }
    }
    assert !MappedTo(q, s, lo + 1, hi, a);
    forall a' | 0 <= a' < MemorySize && !MappedTo(q, s, lo, hi, a')
      ensures memQ[a'] == mem[a']
    {
      assert !MappedTo(q, s, lo + 1, hi, a');
      assert a' != a;
    }
  }

  /**
   * What the write loop from byte i does to memory: every byte it got to
   * is mapped in the final state and its physical byte holds that byte of
   * `data`, and every physical byte none of them maps to is unchanged.
   */
  lemma {:induction false} WriteFromEffect(p: Paging, mem: seq<bv8>, s: nat, data: seq<bv8>, offset: nat, i: nat)
    requires Inv(p) && |mem| == MemorySize && s < |p.segments| && i <= |data|
    ensures var res := WriteFrom(p, mem, s, data, offset, i);
            && Stored(res.1, res.2, s, data, offset, offset + i, offset + BytesDone(res.0, |data|))
            && OthersKept(res.1, mem, res.2, s, offset + i, offset + BytesDone(res.0, |data|))
    decreases |data| - i
  {
    if i < |data| {
      var ok, a, p2 := WriteStep(p, mem, s, data, offset, i);
      if ok {
        TranslateKeepsInv(p, s, offset + i);
        var mem2 := mem[a := data[i]];
        var res := WriteFrom(p2, mem2, s, data, offset, i + 1);
        WriteFromEffect(p2, mem2, s, data, offset, i + 1);
        WriteFromKeepsInv(p2, mem2, s, data, offset, i + 1);
        EffectStep(p2, res.1, mem, res.2, s, data, offset, i, BytesDone(res.0, |data|), a);
      }
    }
  }

  // ---------------------------------------------------------------------
  // read_memory

  /**
   * The read loop from byte i on, `got` holding the bytes copied so far:
   * translate `offset + i` (which, like a write, maps a fresh frame when
   * the page is not valid), stop with `Inaccessible(i)` when that fails,
   * otherwise append the byte there. Yields the status, every byte copied
   * and the new translation state.
   */
  function ReadFrom(p: Paging, mem: seq<bv8>, s: nat, size: nat, offset: nat, i: nat, got: seq<bv8>): (res: (Status, seq<bv8>, Paging))
    requires WellFormed(p) && |mem| == MemorySize && s < |p.segments| && i <= size
    ensures WellFormed(res.2) && |res.2.segments| == |p.segments|
    ensures res.0 == Done || (res.0.Inaccessible? && i <= res.0.at < size)
    ensures |res.1| == |got| + BytesDone(res.0, size) - i
    ensures res.1[..|got|] == got
    ensures res.0.Inaccessible? ==> Lookup(res.2, s, offset + res.0.at).None?
    decreases size - i
  {
    if i == size then (Done, got, p)
    else
      var t := Translate(p, s, offset + i);
      TranslateSpec(p, s, offset + i);
      if t.0.None? then (Inaccessible(i), got, t.1)
      else
        var res := ReadFrom(t.1, mem, s, size, offset, i + 1, got + [mem[t.0.value]]);
        assert res.1[..|got|] == (res.1[..|got| + 1])[..|got|];
        res
  }

  /**
   * `read_memory` with its checks in a safe order: refuses an absent
   * segment, then refuses when the first page of the range is invalid
   * (checked only when that page is inside the page table), and otherwise
   * runs the read loop from byte 0.
   */
  function Read(p: Paging, mem: seq<bv8>, s: nat, size: nat, offset: nat): (res: (Status, seq<bv8>, Paging))
    requires WellFormed(p) && |mem| == MemorySize && s < |p.segments|
    ensures WellFormed(res.2) && |res.2.segments| == |p.segments| && |res.1| <= size
    ensures res.0 == SegmentNotFound <==> p.segments[s].None?
    ensures res.0 == PageInvalid <==>
              p.segments[s].Some? && PageIndex(offset) < |p.segments[s].value.table|
              && p.segments[s].value.table[PageIndex(offset)].valid == 0
    ensures res.0 == SegmentNotFound || res.0 == PageInvalid ==> res.1 == [] && res.2 == p
    ensures res.0 == Done ==> |res.1| == size
    ensures res.0.Inaccessible? ==> Lookup(res.2, s, offset + res.0.at).None?
  {
    if p.segments[s].None? then (SegmentNotFound, [], p)
    else
      var table := p.segments[s].value.table;
      if PageIndex(offset) < |table| && table[PageIndex(offset)].valid == 0 then (PageInvalid, [], p)
      else ReadFrom(p, mem, s, size, offset, 0, [])
  }

  /** One step of the read loop, given the translation of byte i. */
  lemma ReadFromStep(p: Paging, mem: seq<bv8>, s: nat, size: nat, offset: nat, i: nat, got: seq<bv8>, r: Option<nat>, p2: Paging)
    requires WellFormed(p) && |mem| == MemorySize && s < |p.segments| && i < size
    requires (r, p2) == Translate(p, s, offset + i)
    ensures r.None? ==> ReadFrom(p, mem, s, size, offset, i, got) == (Inaccessible(i), got, p2)
    ensures r.Some? ==> ReadFrom(p, mem, s, size, offset, i, got) == ReadFrom(p2, mem, s, size, offset, i + 1, got + [mem[r.value]])
  {
  }

  /** The read loop keeps the invariant and every existing mapping. */
  lemma {:induction false} ReadFromKeepsInv(p: Paging, mem: seq<bv8>, s: nat, size: nat, offset: nat, i: nat, got: seq<bv8>)
    requires WellFormed(p) && |mem| == MemorySize && s < |p.segments| && i <= size
    ensures Extends(p, ReadFrom(p, mem, s, size, offset, i, got).2)
    ensures Inv(p) ==> Inv(ReadFrom(p, mem, s, size, offset, i, got).2)
    decreases size - i
  {
    if i < size {
      var t := Translate(p, s, offset + i);
      TranslateKeepsInv(p, s, offset + i);
      ReadFromStep(p, mem, s, size, offset, i, got, t.0, t.1);
      if t.0.Some? {
        var got' := got + [mem[t.0.value]];
        ReadFromKeepsInv(t.1, mem, s, size, offset, i + 1, got');
        ExtendsTransitive(p, t.1, ReadFrom(t.1, mem, s, size, offset, i + 1, got').2);
      }
    }
  }

  /** A byte that is mapped before the read loop runs keeps its physical index. */
  lemma ReadFromKeepsLookup(p: Paging, mem: seq<bv8>, s: nat, size: nat, offset: nat, i: nat, got: seq<bv8>, o: nat)
    requires WellFormed(p) && |mem| == MemorySize && s < |p.segments| && i <= size
    requires Lookup(p, s, o).Some?
    ensures Lookup(ReadFrom(p, mem, s, size, offset, i, got).2, s, o) == Lookup(p, s, o)
  {
    ReadFromKeepsInv(p, mem, s, size, offset, i, got);
    LookupStable(p, ReadFrom(p, mem, s, size, offset, i, got).2, s, o);
  }

  /**
   * One step of the read loop, unfolded: either byte i translates to some
   * physical index a, and the loop goes on from the resulting state with
   * the byte at a appended, or it does not translate and the loop stops
   * there.
   */
  lemma ReadStep(p: Paging, mem: seq<bv8>, s: nat, size: nat, offset: nat, i: nat, got: seq<bv8>) returns (ok: bool, a: nat, p2: Paging)
    requires WellFormed(p) && |mem| == MemorySize && s < |p.segments| && i < size
    ensures ok ==> && WellFormed(p2) && |p2.segments| == |p.segments| && a < MemorySize
                   && Lookup(p2, s, offset + i) == Some(a)
                   && ReadFrom(p, mem, s, size, offset, i, got) == ReadFrom(p2, mem, s, size, offset, i + 1, got + [mem[a]])
    ensures !ok ==> ReadFrom(p, mem, s, size, offset, i, got).0 == Inaccessible(i)
  {
    var t := Translate(p, s, offset + i);
    TranslateSpec(p, s, offset + i);
    ReadFromStep(p, mem, s, size, offset, i, got, t.0, t.1);
    ok := t.0.Some?;
    if ok {
      a, p2 := t.0.value, t.1;
    } else {
      a, p2 := 0, p;
    }
  }

  /**
   * One step of the read loop seen from its end state q: byte i, mapped
   * to physical index a and copied at position g - 1 of `out`, followed by
   * the bytes copied for the offsets after it, gives the bytes copied from
   * byte i on.
   */
  lemma CopyStep(q: Paging, mem: seq<bv8>, s: nat, out: seq<bv8>, g: nat, offset: nat, i: nat, done: nat, a: nat)
    requires WellFormed(q) && |mem| == MemorySize && i < done && 0 < g
    requires Lookup(q, s, offset + i) == Some(a)
    requires |out| == g + done - (i + 1) && out[g - 1] == mem[a]
    requires Stored(q, mem, s, out[g..], offset + (i + 1), offset + (i + 1), offset + done)
    ensures Stored(q, mem, s, out[g - 1..], offset + i, offset + i, offset + done)
  {
    var tail := out[g - 1..];
    forall o | offset + i <= o < offset + done
      ensures Lookup(q, s, o).Some? && offset + i <= o < offset + i + |tail|
      ensures mem[Lookup(q, s, o).value] == tail[o - (offset + i)]
    {
      if o > offset + i {
        assert out[g..][o - (offset + (i + 1))] == tail[o - (offset + i)];
      }
    }
  }

  /**
   * What the read loop from byte i yields: every byte it got to is mapped
   * in the final state, and the bytes appended after `got` are the
   * physical bytes those offsets map to, in order.
   */
  lemma {:induction false} ReadFromEffect(p: Paging, mem: seq<bv8>, s: nat, size: nat, offset: nat, i: nat, got: seq<bv8>)
    requires WellFormed(p) && |mem| == MemorySize && s < |p.segments| && i <= size
    ensures var res := ReadFrom(p, mem, s, size, offset, i, got);
            Stored(res.2, mem, s, res.1[|got|..], offset + i, offset + i, offset + BytesDone(res.0, size))
    decreases size - i
  {
    if i < size {
      var ok, a, p2 := ReadStep(p, mem, s, size, offset, i, got);
      if ok {
        var got' := got + [mem[a]];
        ReadFromEffect(p2, mem, s, size, offset, i + 1, got');
        EffectFirst(p2, mem, s, size, offset, i, got, a);
      }
    }
  }

  /**
   * The inductive step of `ReadFromEffect`: byte i, mapped to a, was
   * appended to `got` before the loop from byte i + 1 ran, so the bytes
   * after `got` describe the offsets from byte i on.
   */
  lemma EffectFirst(p2: Paging, mem: seq<bv8>, s: nat, size: nat, offset: nat, i: nat, got: seq<bv8>, a: nat)
    requires WellFormed(p2) && |mem| == MemorySize && s < |p2.segments| && i < size && a < MemorySize
    requires Lookup(p2, s, offset + i) == Some(a)
    requires var res := ReadFrom(p2, mem, s, size, offset, i + 1, got + [mem[a]]);
             Stored(res.2, mem, s, res.1[|got + [mem[a]]|..], offset + (i + 1), offset + (i + 1), offset + BytesDone(res.0, size))
    ensures var res := ReadFrom(p2, mem, s, size, offset, i + 1, got + [mem[a]]);
            Stored(res.2, mem, s, res.1[|got|..], offset + i, offset + i, offset + BytesDone(res.0, size))
  {
    ReadFromKeepsLookup(p2, mem, s, size, offset, i + 1, got + [mem[a]], offset + i);
    CopyFirst(ReadFrom(p2, mem, s, size, offset, i + 1, got + [mem[a]]), mem, s, size, offset, i, got, a);
  }

  /** The step of `ReadFromEffect`: the result of the loop from byte i + 1, with the byte at a copied first. */
  lemma CopyFirst(res: (Status, seq<bv8>, Paging), mem: seq<bv8>, s: nat, size: nat, offset: nat, i: nat, got: seq<bv8>, a: nat)
    requires WellFormed(res.2) && |mem| == MemorySize && i < size && a < MemorySize
    requires res.0 == Done || (res.0.Inaccessible? && i + 1 <= res.0.at < size)
    requires |res.1| == |got| + 1 + BytesDone(res.0, size) - (i + 1) && res.1[..|got| + 1] == got + [mem[a]]
    requires Lookup(res.2, s, offset + i) == Some(a)
    requires Stored(res.2, mem, s, res.1[|got| + 1..], offset + (i + 1), offset + (i + 1), offset + BytesDone(res.0, size))
    ensures Stored(res.2, mem, s, res.1[|got|..], offset + i, offset + i, offset + BytesDone(res.0, size))
  {
    assert res.1[|got|] == res.1[..|got| + 1][|got|] == mem[a];
    CopyStep(res.2, mem, s, res.1, |got| + 1, offset, i, BytesDone(res.0, size), a);
  }

  /**
   * What `read_memory` yields: it keeps the invariant and every earlier
   * mapping, and when it reaches the copy loop, the bytes it returns are
   * the physical bytes the offsets it got to map to in the final state.
   */
  lemma ReadEffect(p: Paging, mem: seq<bv8>, s: nat, size: nat, offset: nat)
    requires Inv(p) && |mem| == MemorySize && s < |p.segments|
    ensures var res := Read(p, mem, s, size, offset);
            && Inv(res.2) && Extends(p, res.2)
            && (res.0 == Done || res.0.Inaccessible? ==>
                  Stored(res.2, mem, s, res.1, offset, offset, offset + BytesDone(res.0, size)))
  {
    var table := if p.segments[s].Some? then p.segments[s].value.table else [];
    if p.segments[s].Some? && !(PageIndex(offset) < |table| && table[PageIndex(offset)].valid == 0) {
      assert Read(p, mem, s, size, offset) == ReadFrom(p, mem, s, size, offset, 0, []);
      ReadFromKeepsInv(p, mem, s, size, offset, 0, []);
      CopyLoopEffect(p, mem, s, size, offset);
    } else {
      assert Read(p, mem, s, size, offset) == (if p.segments[s].None? then SegmentNotFound else PageInvalid, [], p);
    }
  }

  /** `ReadFromEffect` for the whole copy loop of `read_memory`, from byte 0 with nothing copied. */
  lemma CopyLoopEffect(p: Paging, mem: seq<bv8>, s: nat, size: nat, offset: nat)
    requires WellFormed(p) && |mem| == MemorySize && s < |p.segments|
    ensures var r := ReadFrom(p, mem, s, size, offset, 0, []);
            Stored(r.2, mem, s, r.1, offset, offset, offset + BytesDone(r.0, size))
  {
    var none: seq<bv8> := [];
    var r := ReadFrom(p, mem, s, size, offset, 0, none);
    ReadFromEffect(p, mem, s, size, offset, 0, none);
    assert r.1[|none|..] == r.1;
  }

  /**
   * When every byte of the range from byte i on is mapped and holds the
   * matching byte of `data`, the read loop maps nothing new and, having
   * copied the first i bytes of `data`, ends with all of `data`.
   */
  lemma {:induction false} ReadFromStored(p: Paging, mem: seq<bv8>, s: nat, data: seq<bv8>, offset: nat, i: nat)
    requires WellFormed(p) && |mem| == MemorySize && s < |p.segments| && i <= |data|
    requires Stored(p, mem, s, data, offset, offset + i, offset + |data|)
    ensures ReadFrom(p, mem, s, |data|, offset, i, data[..i]) == (Done, data, p)
    decreases |data| - i
  {
    if i < |data| {
      var a := Lookup(p, s, offset + i);
      assert a.Some? && mem[a.value] == data[i];
      TranslateSpec(p, s, offset + i);
      ReadFromStep(p, mem, s, |data|, offset, i, data[..i], a, p);
      ReadFromStored(p, mem, s, data, offset, i + 1);
      assert data[..i + 1] == data[..i] + [data[i]];
    } else {
      assert data[..i] == data;
    }
  }

  /**
   * A range whose bytes are all mapped and hold `data` reads back as
   * `data`, mapping nothing new. `data` is non-empty because `read_memory`
   * checks the first page of the range even for a read of 0 bytes, and
   * refuses when that page is invalid.
   */
  lemma StoredReadsBack(p: Paging, mem: seq<bv8>, s: nat, data: seq<bv8>, offset: nat)
    requires WellFormed(p) && |mem| == MemorySize && s < |p.segments| && |data| > 0
    requires Stored(p, mem, s, data, offset, offset, offset + |data|)
    ensures Read(p, mem, s, |data|, offset) == (Done, data, p)
  {
    assert Lookup(p, s, offset).Some?;
    PageIndexInTable(p.segments[s].value.size, offset);
    ReadFromStored(p, mem, s, data, offset, 0);
    assert data[..0] == [];
  }

  /**
   * Round trip: after a write of non-empty `data` that completes, reading
   * the same range returns `data`, and the read maps nothing new. An empty
   * write is excluded because `read_memory` refuses a 0-byte read whose
   * first page is invalid.
   */
  lemma WriteThenRead(p: Paging, mem: seq<bv8>, s: nat, data: seq<bv8>, offset: nat)
    requires Inv(p) && |mem| == MemorySize && s < |p.segments| && |data| > 0
    requires Write(p, mem, s, data, offset).0 == Done
    ensures var w := Write(p, mem, s, data, offset);
            Read(w.1, w.2, s, |data|, offset) == (Done, data, w.1)
  {
    WriteFromEffect(p, mem, s, data, offset, 0);
    var w := Write(p, mem, s, data, offset);
    StoredReadsBack(w.1, w.2, s, data, offset);
  }

  // ---------------------------------------------------------------------
  // free_page

  /** Physical memory with the bytes of frame f set to zero (the `memset` of `free_page`). */
  function ZeroFrame(mem: seq<bv8>, f: nat): (m: seq<bv8>)
    requires |mem| == MemorySize && f < FrameCount
    ensures |m| == |mem|
    ensures forall a :: 0 <= a < |m| ==> m[a] == if f * PageSize <= a < (f + 1) * PageSize then 0 else mem[a]
  {
    mem[..f * PageSize] + seq(PageSize, _ => 0 as bv8) + mem[(f + 1) * PageSize..]
  }

  /**
   * `free_page`: refuses an absent segment or an out-of-bounds offset, and
   * refuses a page that is not valid; otherwise releases the page's frame,
   * marks the entry invalid and zeroes the frame's bytes.
   */
  function ReleasePage(p: Paging, mem: seq<bv8>, s: nat, offset: nat): (res: (Status, Paging, seq<bv8>))
    requires WellFormed(p) && |mem| == MemorySize && s < |p.segments|
    ensures WellFormed(res.1) && |res.1.segments| == |p.segments| && |res.2| == MemorySize
    ensures res.0 == SegmentNotFound <==> !InBounds(p, s, offset)
    ensures res.0 == PageInvalid <==> InBounds(p, s, offset) && Lookup(p, s, offset).None?
    ensures res.0 != Done ==> res.1 == p && res.2 == mem
    ensures res.0 == Done ==>
              var f := Lookup(p, s, offset).value / PageSize;
              && res.1.frames == p.frames[f := 0]
              && Lookup(res.1, s, offset).None?
              && (forall a :: 0 <= a < MemorySize ==>
                    res.2[a] == if f * PageSize <= a < (f + 1) * PageSize then 0 else mem[a])
    // the segment keeps its size and table length; every other page of it,
    // and every other segment, is untouched
    ensures SameShape(p.segments[s], res.1.segments[s])
    ensures forall o :: PageIndex(o) != PageIndex(offset) ==> Lookup(res.1, s, o) == Lookup(p, s, o)
    ensures forall j :: 0 <= j < |p.segments| && j != s ==> res.1.segments[j] == p.segments[j]
    ensures Inv(p) ==> Inv(res.1)
  {
    if !InBounds(p, s, offset) then (SegmentNotFound, p, mem)
    else
      var sv := p.segments[s].value;
      PageIndexInTable(sv.size, offset);
      var k := PageIndex(offset);
      var e := sv.table[k];
      if e.valid == 0 then (PageInvalid, p, mem)
      else
        var f := e.pageNumber;
        var p' := Paging(p.frames[f := 0], p.segments[s := Some(sv.(table := sv.table[k := e.(valid := 0)]))]);
        UnmapPreservesInv(p, s, k, p');
        (Done, p', ZeroFrame(mem, f))
  }

  /** Clearing a valid entry and releasing its frame keeps the invariant. */
  lemma UnmapPreservesInv(p: Paging, s: nat, k: nat, p': Paging)
    requires WellFormed(p) && s < |p.segments| && p.segments[s].Some?
    requires k < |p.segments[s].value.table| && p.segments[s].value.table[k].valid != 0
    requires var sv := p.segments[s].value;
             var e := sv.table[k];
             && p'.frames == p.frames[e.pageNumber := 0]
             && p'.segments == p.segments[s := Some(sv.(table := sv.table[k := e.(valid := 0)]))]
    ensures WellFormed(p') && (Inv(p) ==> Inv(p'))
  {
    forall i, l | ValidEntry(p'.segments, i, l)
      ensures ValidEntry(p.segments, i, l) && !(i == s && l == k) && FrameAt(p'.segments, i, l) == FrameAt(p.segments, i, l)
    {
    }
    if Inv(p) {
      forall i, l | ValidEntry(p'.segments, i, l)
        ensures p'.frames[FrameAt(p'.segments, i, l)] == 1
      {
        assert ValidEntry(p.segments, s, k);
      }
    }
  }

  /** After a page is freed, a read starting in that page is refused as an invalid page. */
  lemma FreedPageRefusesRead(p: Paging, mem: seq<bv8>, s: nat, offset: nat, size: nat, readOffset: nat)
    requires WellFormed(p) && |mem| == MemorySize && s < |p.segments|
    requires ReleasePage(p, mem, s, offset).0 == Done
    requires PageIndex(readOffset) == PageIndex(offset)
    ensures var r := ReleasePage(p, mem, s, offset);
            Read(r.1, r.2, s, size, readOffset).0 == PageInvalid
  {
  }
}
