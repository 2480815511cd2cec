/** The boot memory sequence of kernel.c: two walks over the Multiboot2 tag stream (section
    3.6.8 of the Multiboot2 specification), the first for the highest address, the second to
    hand the available ranges to the frame allocator, and the reservation of the first 2 MB. */
module Boot {
  import opened Wrappers
  import opened Words
  import opened Pmm

  /** Memory from the Multiboot information pointer on: `limit` readable bytes and the
      unsigned loads from them. */
  datatype Memory = Memory(limit: nat, load32: nat -> Uint32, load64: nat -> Uint64)

  datatype MmapEntry = MmapEntry(addr: Uint64, len: Uint64, kind: Uint32) {
    /** First address after the entry, with 64-bit wrap-around. */
    function End(): Uint64 {
      if addr + len < U64 then addr + len else addr + len - U64
    }
  }

  // ---------------------------------------------------------------- what the bytes say

  function EntryAt(info: Memory, p: nat): MmapEntry
    requires p + 24 <= info.limit
  {
    MmapEntry(info.load64(p), info.load64(p + 8), info.load32(p + 16))
  }

  /** Tag size rounded up to 8 in 32-bit arithmetic: (size + 7) & ~7u. */
  function Advance(size: Uint32): nat {
    AndNot(if size + 7 < U32 then size + 7 else size + 7 - U32, 7)
  }

  /** Every entry the walk reads lies inside the buffer and the walk makes progress. */
  ghost predicate EntriesOk(info: Memory, p: nat, tagEnd: nat, entrySize: nat)
    decreases tagEnd - p
  {
    p < tagEnd ==> p + 24 <= info.limit && entrySize > 0 && EntriesOk(info, p + entrySize, tagEnd, entrySize)
  }

  ghost function EntriesIn(info: Memory, p: nat, tagEnd: nat, entrySize: nat): seq<MmapEntry>
    requires EntriesOk(info, p, tagEnd, entrySize)
    decreases tagEnd - p
  {
    if p >= tagEnd then [] else [EntryAt(info, p)] + EntriesIn(info, p + entrySize, tagEnd, entrySize)
  }

  /** Every tag the walk reads lies inside the buffer and has a size that makes progress. */
  ghost predicate TagsOk(info: Memory, p: nat, end: nat)
    decreases end - p
  {
    p < end ==>
      && p + 8 <= info.limit
      && (info.load32(p) != 0 ==>
            && Advance(info.load32(p + 4)) > 0
            && (info.load32(p) == 6 ==>
                  p + 16 <= info.limit && EntriesOk(info, p + 16, p + info.load32(p + 4), info.load32(p + 8)))
            && TagsOk(info, p + Advance(info.load32(p + 4)), end))
  }

  /** The entries of the tag at p. */
  ghost function TagEntries(info: Memory, p: nat, end: nat): seq<MmapEntry>
    requires TagsOk(info, p, end) && p < end && info.load32(p) != 0
  {
    if info.load32(p) == 6 then EntriesIn(info, p + 16, p + info.load32(p + 4), info.load32(p + 8)) else []
  }

  /** All memory map entries from position p on, in stream order. */
  ghost function Entries(info: Memory, p: nat, end: nat): seq<MmapEntry>
    requires TagsOk(info, p, end)
    decreases end - p
  {
    if p >= end || info.load32(p) == 0 then []
    else TagEntries(info, p, end) + Entries(info, p + Advance(info.load32(p + 4)), end)
  }

  ghost predicate HasMap(info: Memory, p: nat, end: nat)
    requires TagsOk(info, p, end)
    decreases end - p
  {
    p < end && info.load32(p) != 0 && (info.load32(p) == 6 || HasMap(info, p + Advance(info.load32(p + 4)), end))
  }

  ghost predicate InfoOk(info: Memory) {
    4 <= info.limit && TagsOk(info, 8, info.load32(0))
  }

  ghost function MemoryMap(info: Memory): seq<MmapEntry>
    requires InfoOk(info)
  {
    Entries(info, 8, info.load32(0))
  }

  // ---------------------------------------------------------------- the highest address

  /** Largest of `top` and the ends of the entries. */
  ghost function TopOver(top: Uint64, entries: seq<MmapEntry>): Uint64
    decreases |entries|
  {
    if entries == [] then top
    else TopOver(if entries[0].End() > top then entries[0].End() else top, entries[1..])
  }

  lemma {:induction false} TopOverAppend(top: Uint64, a: seq<MmapEntry>, b: seq<MmapEntry>)
    ensures TopOver(top, a + b) == TopOver(TopOver(top, a), b)
    decreases |a|
  {
    if a == [] {
      assert a + b == b;
    } else {
      assert (a + b)[1..] == a[1..] + b;
      TopOverAppend(if a[0].End() > top then a[0].End() else top, a[1..], b);
    }
  }

  /** TopOver is the maximum. */
  lemma {:induction false} TopOverIsMax(top: Uint64, entries: seq<MmapEntry>)
    ensures top <= TopOver(top, entries)
    ensures forall e :: e in entries ==> e.End() <= TopOver(top, entries)
    ensures TopOver(top, entries) == top || exists e :: e in entries && e.End() == TopOver(top, entries)
    decreases |entries|
  {
    if entries == [] {
    } else {
      var e0 := entries[0];
      var top' := if e0.End() > top then e0.End() else top;
      TopOverIsMax(top', entries[1..]);
      assert forall e :: e in entries ==> e == e0 || e in entries[1..];
    }
  }

  /** The running maximum of the inner loop of get_multiboot_memory_top. */
  ghost function TopInTag(info: Memory, p: nat, tagEnd: nat, entrySize: nat, top: Uint64): Uint64
    requires EntriesOk(info, p, tagEnd, entrySize)
    decreases tagEnd - p
  {
    if p >= tagEnd then top
    else
      var end := EntryAt(info, p).End();
      TopInTag(info, p + entrySize, tagEnd, entrySize, if end > top then end else top)
  }

  lemma {:induction false} TopInTagIsTopOver(info: Memory, p: nat, tagEnd: nat, entrySize: nat, top: Uint64)
    requires EntriesOk(info, p, tagEnd, entrySize)
    ensures TopInTag(info, p, tagEnd, entrySize, top) == TopOver(top, EntriesIn(info, p, tagEnd, entrySize))
    decreases tagEnd - p
  {
    if p >= tagEnd {
    } else {
      var end := EntryAt(info, p).End();
      TopInTagIsTopOver(info, p + entrySize, tagEnd, entrySize, if end > top then end else top);
    }
  }

  /** Inner loop of get_multiboot_memory_top. */
  method TopOfEntries(info: Memory, start: nat, tagEnd: nat, entrySize: nat, top: Uint64) returns (top': Uint64)
    requires EntriesOk(info, start, tagEnd, entrySize)
    ensures top' == TopInTag(info, start, tagEnd, entrySize, top)
  {
    var p := start;
    top' := top;
    while p < tagEnd
      invariant EntriesOk(info, p, tagEnd, entrySize)
      invariant TopInTag(info, p, tagEnd, entrySize, top') == TopInTag(info, start, tagEnd, entrySize, top)
    {
      var entry := EntryAt(info, p);
      if entry.End() > top' {
        top' := entry.End();
      }
      p := p + entrySize;
    }
  }

  /** The running maximum of the outer loop. */
  ghost function TopInTags(info: Memory, p: nat, end: nat, top: Uint64): Uint64
    requires TagsOk(info, p, end)
    decreases end - p
  {
    if p >= end || info.load32(p) == 0 then top
    else
      var top' := if info.load32(p) == 6
                  then TopInTag(info, p + 16, p + info.load32(p + 4), info.load32(p + 8), top) else top;
      TopInTags(info, p + Advance(info.load32(p + 4)), end, top')
  }

  lemma {:induction false} TopInTagsIsTopOver(info: Memory, p: nat, end: nat, top: Uint64)
    requires TagsOk(info, p, end)
    ensures TopInTags(info, p, end, top) == TopOver(top, Entries(info, p, end))
    decreases end - p
  {
    if p >= end || info.load32(p) == 0 {
    } else {
      var next := p + Advance(info.load32(p + 4));
      if info.load32(p) == 6 {
        TopInTagIsTopOver(info, p + 16, p + info.load32(p + 4), info.load32(p + 8), top);
      }
      TopOverAppend(top, TagEntries(info, p, end), Entries(info, next, end));
      TopInTagsIsTopOver(info, next, end, TopOver(top, TagEntries(info, p, end)));
    }
  }

  /** The tag at p, in get_multiboot_memory_top. */
  method TopOfTag(info: Memory, p: nat, end: nat, top: Uint64) returns (next: nat, top': Uint64)
    requires TagsOk(info, p, end) && p < end && info.load32(p) != 0
    ensures p < next && TagsOk(info, next, end)
    ensures TopInTags(info, next, end, top') == TopInTags(info, p, end, top)
  {
    var size := info.load32(p + 4);
    top' := top;
    if info.load32(p) == 6 {
      top' := TopOfEntries(info, p + 16, p + size, info.load32(p + 8), top);
    }
    next := p + Advance(size);
  }

  /** Outer loop of get_multiboot_memory_top. */
  method TopOfTags(info: Memory, end: nat) returns (top: Uint64)
    requires TagsOk(info, 8, end)
    ensures top == TopInTags(info, 8, end, 0)
  {
    top := 0;
    var p := 8;
    ghost var goal := TopInTags(info, p, end, 0);
    while p < end
      invariant TagsOk(info, p, end)
      invariant TopInTags(info, p, end, top) == goal
    {
      if info.load32(p) == 0 {
        break;
      }
      p, top := TopOfTag(info, p, end, top);
    }
  }

  /** get_multiboot_memory_top. */
  method GetMultibootMemoryTop(info: Option<Memory>) returns (top: Uint64)
    requires info.Some? ==> InfoOk(info.value)
    ensures top == if info.None? then 0 else TopOver(0, MemoryMap(info.value))
  {
    if info.None? {
      return 0;
    }
    top := TopOfTags(info.value, info.value.load32(0));
    TopInTagsIsTopOver(info.value, 8, info.value.load32(0), 0);
  }

  // ---------------------------------------------------------------- the available ranges

  /** The free set after adding the available (type 1) entries in order. */
  ghost function MarkOver(free: set<nat>, entries: seq<MmapEntry>, total: nat): set<nat>
    decreases |entries|
  {
    if entries == [] then free
    else
      var e := entries[0];
      MarkOver(if e.kind == 1 then free + Touched(e.addr, e.len, total) else free, entries[1..], total)
  }

  lemma {:induction false} MarkOverAppend(free: set<nat>, a: seq<MmapEntry>, b: seq<MmapEntry>, total: nat)
    ensures MarkOver(free, a + b, total) == MarkOver(MarkOver(free, a, total), b, total)
    decreases |a|
  {
    if a == [] {
      assert a + b == b;
    } else {
      var e := a[0];
      assert (a + b)[1..] == a[1..] + b;
      MarkOverAppend(if e.kind == 1 then free + Touched(e.addr, e.len, total) else free, a[1..], b, total);
    }
  }

  /** Some available entry makes the range loop visit frame f. */
  ghost predicate Marks(entries: seq<MmapEntry>, total: nat, f: nat) {
    exists e :: e in entries && e.kind == 1 && f in Touched(e.addr, e.len, total)
  }

  /** Order and overlaps of the entries do not matter: only which entries there are. */
  lemma {:induction false} MarkOverIsUnion(free: set<nat>, entries: seq<MmapEntry>, total: nat, f: nat)
    ensures f in MarkOver(free, entries, total) <==> f in free || Marks(entries, total, f)
    decreases |entries|
  {
    if entries == [] {
    } else {
      var e := entries[0];
      MarkOverIsUnion(if e.kind == 1 then free + Touched(e.addr, e.len, total) else free, entries[1..], total, f);
      assert forall x :: x in entries <==> x == e || x in entries[1..];
    }
  }

  /** The free set as the inner loop of mark_multiboot_memory builds it. */
  ghost function MarkInTag(free: set<nat>, info: Memory, p: nat, tagEnd: nat, entrySize: nat, total: nat): set<nat>
    requires EntriesOk(info, p, tagEnd, entrySize)
    decreases tagEnd - p
  {
    if p >= tagEnd then free
    else
      var e := EntryAt(info, p);
      MarkInTag(if e.kind == 1 then free + Touched(e.addr, e.len, total) else free,
                info, p + entrySize, tagEnd, entrySize, total)
  }

  lemma {:induction false} MarkInTagIsMarkOver(free: set<nat>, info: Memory, p: nat, tagEnd: nat, entrySize: nat, total: nat)
    requires EntriesOk(info, p, tagEnd, entrySize)
    ensures MarkInTag(free, info, p, tagEnd, entrySize, total) ==
            MarkOver(free, EntriesIn(info, p, tagEnd, entrySize), total)
    decreases tagEnd - p
  {
    if p >= tagEnd {
    } else {
      var e := EntryAt(info, p);
      MarkInTagIsMarkOver(if e.kind == 1 then free + Touched(e.addr, e.len, total) else free,
                          info, p + entrySize, tagEnd, entrySize, total);
    }
  }

  /** Inner loop of mark_multiboot_memory. */
  method MarkEntries(pmm: FrameAllocator, info: Memory, start: nat, tagEnd: nat, entrySize: nat)
    requires pmm.Valid() && EntriesOk(info, start, tagEnd, entrySize)
    modifies pmm`freeFrames, pmm`free, pmm.bitmap
    ensures pmm.Valid()
    ensures pmm.free == MarkInTag(old(pmm.free), info, start, tagEnd, entrySize, pmm.totalFrames)
  {
    var p := start;
    ghost var goal := MarkInTag(pmm.free, info, p, tagEnd, entrySize, pmm.totalFrames);
    while p < tagEnd
      invariant pmm.Valid() && EntriesOk(info, p, tagEnd, entrySize)
      invariant MarkInTag(pmm.free, info, p, tagEnd, entrySize, pmm.totalFrames) == goal
    {
      var entry := EntryAt(info, p);
      if entry.kind == 1 {
        pmm.AddAvailableRange(entry.addr, entry.len);
      }
      p := p + entrySize;
    }
  }

  /** The free set as the outer loop builds it. */
  ghost function MarkInTags(free: set<nat>, info: Memory, p: nat, end: nat, total: nat): set<nat>
    requires TagsOk(info, p, end)
    decreases end - p
  {
    if p >= end || info.load32(p) == 0 then free
    else
      var free' := if info.load32(p) == 6
                   then MarkInTag(free, info, p + 16, p + info.load32(p + 4), info.load32(p + 8), total) else free;
      MarkInTags(free', info, p + Advance(info.load32(p + 4)), end, total)
  }

  lemma {:induction false} MarkInTagsIsMarkOver(free: set<nat>, info: Memory, p: nat, end: nat, total: nat)
    requires TagsOk(info, p, end)
    ensures MarkInTags(free, info, p, end, total) == MarkOver(free, Entries(info, p, end), total)
    decreases end - p
  {
    if p >= end || info.load32(p) == 0 {
    } else {
      var next := p + Advance(info.load32(p + 4));
      if info.load32(p) == 6 {
        MarkInTagIsMarkOver(free, info, p + 16, p + info.load32(p + 4), info.load32(p + 8), total);
      }
      MarkOverAppend(free, TagEntries(info, p, end), Entries(info, next, end), total);
      MarkInTagsIsMarkOver(MarkOver(free, TagEntries(info, p, end), total), info, next, end, total);
    }
  }

  /** The tag at p, in mark_multiboot_memory. */
  method MarkTag(pmm: FrameAllocator, info: Memory, p: nat, end: nat) returns (next: nat, isMap: bool)
    requires pmm.Valid() && TagsOk(info, p, end) && p < end && info.load32(p) != 0
    modifies pmm`freeFrames, pmm`free, pmm.bitmap
    ensures pmm.Valid() && p < next && TagsOk(info, next, end)
    ensures isMap || HasMap(info, next, end) <==> HasMap(info, p, end)
    ensures MarkInTags(pmm.free, info, next, end, pmm.totalFrames) ==
            MarkInTags(old(pmm.free), info, p, end, pmm.totalFrames)
  {
    var size := info.load32(p + 4);
    isMap := info.load32(p) == 6;
    if isMap {
      MarkEntries(pmm, info, p + 16, p + size, info.load32(p + 8));
    }
    next := p + Advance(size);
  }

  /** Outer loop of mark_multiboot_memory. */
  method MarkTags(pmm: FrameAllocator, info: Memory, end: nat) returns (foundMmap: bool)
    requires pmm.Valid() && TagsOk(info, 8, end)
    modifies pmm`freeFrames, pmm`free, pmm.bitmap
    ensures pmm.Valid()
    ensures foundMmap <==> HasMap(info, 8, end)
    ensures pmm.free == MarkInTags(old(pmm.free), info, 8, end, pmm.totalFrames)
  {
    foundMmap := false;
    var p := 8;
    ghost var found, marked := HasMap(info, p, end), MarkInTags(pmm.free, info, p, end, pmm.totalFrames);
    while p < end
      invariant pmm.Valid() && TagsOk(info, p, end)
      invariant found <==> foundMmap || HasMap(info, p, end)
      invariant MarkInTags(pmm.free, info, p, end, pmm.totalFrames) == marked
    {
      if info.load32(p) == 0 {
        break;
      }
      var isMap: bool;
      p, isMap := MarkTag(pmm, info, p, end);
      foundMmap := foundMmap || isMap;
    }
  }

  /** mark_multiboot_memory. */
  method MarkMultibootMemory(pmm: FrameAllocator, info: Option<Memory>) returns (foundMmap: bool)
    requires pmm.Valid()
    requires info.Some? ==> InfoOk(info.value)
    modifies pmm`freeFrames, pmm`free, pmm.bitmap
    ensures pmm.Valid()
    ensures foundMmap <==> info.Some? && HasMap(info.value, 8, info.value.load32(0))
    ensures pmm.free == if info.None? then old(pmm.free)
                        else MarkOver(old(pmm.free), MemoryMap(info.value), pmm.totalFrames)
  {
    if info.None? {
      return false;
    }
    foundMmap := MarkTags(pmm, info.value, info.value.load32(0));
    MarkInTagsIsMarkOver(old(pmm.free), info.value, 8, info.value.load32(0), pmm.totalFrames);
  }

  // ---------------------------------------------------------------- boot

  /** Some byte of frame f belongs to an available entry. */
  ghost predicate Available(entries: seq<MmapEntry>, f: nat) {
    exists e, b: nat :: e in entries && e.kind == 1 && e.addr <= b < e.addr + e.len && InFrame(b, f)
  }

  /** No available entry wraps around 64 bits, and neither does rounding up the highest end. */
  ghost predicate NoWrap(entries: seq<MmapEntry>) {
    && (forall e :: e in entries && e.kind == 1 ==> e.addr + e.len + FRAME_SIZE - 1 < U64)
    && TopOver(0, entries) + FRAME_SIZE - 1 < U64
  }

  /** What the range loops visit is what the entries cover, up to the frame limit. */
  lemma MarksIsAvailable(entries: seq<MmapEntry>, total: nat, f: nat)
    requires NoWrap(entries)
    ensures Marks(entries, total, f) <==> f < total && Available(entries, f)
  {
    if Marks(entries, total, f) {
      var e :| e in entries && e.kind == 1 && f in Touched(e.addr, e.len, total);
      TouchedIntersects(e.addr, e.len, total, f);
    }
    if f < total && Available(entries, f) {
      var e, b: nat :| e in entries && e.kind == 1 && e.addr <= b < e.addr + e.len && InFrame(b, f);
      TouchedIntersects(e.addr, e.len, total, f);
    }
  }

  /** The frame count taken from the highest address cuts off no available frame. */
  lemma AvailableBelowTop(entries: seq<MmapEntry>, f: nat)
    requires NoWrap(entries) && Available(entries, f)
    ensures f < EndFrame(0, TopOver(0, entries)) && TopOver(0, entries) > 0
  {
    var e, b: nat :| e in entries && e.kind == 1 && e.addr <= b < e.addr + e.len && InFrame(b, f);
    TopOverIsMax(0, entries);
    BelowEndFrame(b, f, TopOver(0, entries));
  }

  lemma BelowEndFrame(b: nat, f: nat, top: Uint64)
    requires InFrame(b, f) && b < top && top + FRAME_SIZE - 1 < U64
    ensures f < EndFrame(0, top)
  {
  }

  const DEFAULT_MEMORY: Uint64 := 0x1_8000_0000

  /** A found memory map: the free set after the walk and the reservation. */
  lemma MappedFrames(entries: seq<MmapEntry>, maxMemory: Uint64, capacity: nat, total: nat, f: nat)
    requires NoWrap(entries)
    requires TopOver(0, entries) != 0 ==> maxMemory == TopOver(0, entries)
    requires total == Min(EndFrame(0, maxMemory), capacity)
    ensures f in MarkOver({}, entries, total) - Touched(0, 0x200000, total) <==>
            0x200 <= f < capacity && Available(entries, f)
  {
    MarkOverIsUnion({}, entries, total, f);
    MarksIsAvailable(entries, total, f);
    if Available(entries, f) {
      AvailableBelowTop(entries, f);
    }
  }

  /** No memory map: the free set after the default range and the reservation. */
  lemma DefaultFrames(capacity: nat, total: nat, f: nat)
    requires total == Min(EndFrame(0, DEFAULT_MEMORY), capacity)
    ensures f in Touched(0x100000, DEFAULT_MEMORY - 0x100000, total) - Touched(0, 0x200000, total) <==>
            0x200 <= f < capacity && f < 0x18_0000
  {
  }

  /** The frames handed to the allocator at boot, below the reserved 2 MB or not. */
  ghost predicate BootFrame(info: Option<Memory>, f: nat)
    requires info.Some? ==> InfoOk(info.value)
  {
    if info.Some? && HasMap(info.value, 8, info.value.load32(0)) then Available(MemoryMap(info.value), f)
    else 0x100 <= f < 0x18_0000
  }

  lemma {:induction false} NoMapNoEntries(info: Memory, p: nat, end: nat)
    requires TagsOk(info, p, end) && !HasMap(info, p, end)
    ensures Entries(info, p, end) == []
    decreases end - p
  {
    if p >= end || info.load32(p) == 0 {
    } else {
      NoMapNoEntries(info, p + Advance(info.load32(p + 4)), end);
    }
  }

  /** The frame total that boot sets up: from the highest entry end, or the default without one. */
  ghost function BootTotal(info: Option<Memory>, capacity: nat): nat
    requires info.Some? ==> InfoOk(info.value)
  {
    var top := if info.None? then 0 else TopOver(0, MemoryMap(info.value));
    Min(EndFrame(0, if top == 0 then DEFAULT_MEMORY else top), capacity)
  }

  /** Boot makes frame f free: the walk, or the default range, visits it. */
  ghost predicate BootVisits(info: Option<Memory>, total: nat, f: nat)
    requires info.Some? ==> InfoOk(info.value)
  {
    if info.Some? && HasMap(info.value, 8, info.value.load32(0)) then Marks(MemoryMap(info.value), total, f)
    else f in Touched(0x100000, DEFAULT_MEMORY - 0x100000, total)
  }

  /** The memory part of kernel_main: afterwards the free frames are exactly the frames above the
      first 2 MB that the walk visits. When no entry wraps around 64 bits, these are the boot
      frames that the bitmap covers. */
  method InitializeMemory(pmm: FrameAllocator, info: Option<Memory>) returns (available: int)
    requires info.Some? ==> InfoOk(info.value)
    modifies pmm, pmm.bitmap
    ensures pmm.Valid() && pmm.totalFrames == BootTotal(info, 64 * pmm.bitmap.Length)
    ensures forall f :: f in pmm.free <==> BootVisits(info, pmm.totalFrames, f) && f !in Touched(0, 0x200000, pmm.totalFrames)
    ensures (info.Some? ==> NoWrap(MemoryMap(info.value))) ==>
              forall f :: f in pmm.free <==> 0x200 <= f < 64 * pmm.bitmap.Length && BootFrame(info, f)
    ensures available == FRAME_SIZE * |pmm.free|
  {
    var maxMemory := GetMultibootMemoryTop(info);
    if maxMemory == 0 {
      maxMemory := DEFAULT_MEMORY;
    }
    pmm.Initialize(maxMemory);
    var found := MarkMultibootMemory(pmm, info);
    if !found {
      if info.Some? {
        NoMapNoEntries(info.value, 8, info.value.load32(0));
      }
      pmm.AddAvailableRange(0x100000, maxMemory - 0x100000);
    }
    pmm.ReserveRange(0, 0x200000);
    available := pmm.GetAvailable();
    forall f: nat ensures f in pmm.free <==> BootVisits(info, pmm.totalFrames, f) && f !in Touched(0, 0x200000, pmm.totalFrames) {
      if found {
        MarkOverIsUnion({}, MemoryMap(info.value), pmm.totalFrames, f);
      }
    }
    if info.Some? ==> NoWrap(MemoryMap(info.value)) {
      forall f: nat { BootFrames(info, 64 * pmm.bitmap.Length, f); }
    }
  }

  /** The first frame that is handed out after boot: the lowest one above the first 2 MB. */
  method FirstFrame(pmm: FrameAllocator, info: Option<Memory>, ghost low: nat) returns (paddr: nat)
    requires info.Some? ==> InfoOk(info.value) && NoWrap(MemoryMap(info.value))
    requires 0x200 <= low < 64 * pmm.bitmap.Length && BootFrame(info, low)
    requires forall f: nat :: 0x200 <= f && BootFrame(info, f) ==> low <= f
    modifies pmm, pmm.bitmap
    ensures paddr == low * FRAME_SIZE
  {
    var available := InitializeMemory(pmm, info);
    ghost var event;
    assert low in pmm.free;
    paddr, event := pmm.AllocateFrame();
  }

  /** Without wrap-around the walk visits exactly the boot frames that the bitmap covers. */
  lemma BootFrames(info: Option<Memory>, capacity: nat, f: nat)
    requires info.Some? ==> InfoOk(info.value) && NoWrap(MemoryMap(info.value))
    ensures var total := BootTotal(info, capacity);
            BootVisits(info, total, f) && f !in Touched(0, 0x200000, total) <==> 0x200 <= f < capacity && BootFrame(info, f)
  {
    var total := BootTotal(info, capacity);
    if info.Some? && HasMap(info.value, 8, info.value.load32(0)) {
      var entries := MemoryMap(info.value);
      var top := TopOver(0, entries);
      MarkOverIsUnion({}, entries, total, f);
      MappedFrames(entries, if top == 0 then DEFAULT_MEMORY else top, capacity, total, f);
    } else {
      if info.Some? {
        NoMapNoEntries(info.value, 8, info.value.load32(0));
      }
      DefaultFrames(capacity, total, f);
    }
  }

  /** An entry of any kind that ends in the last page below 2^64: the frame total is 0. */
  lemma LastPageLosesAll(entries: seq<MmapEntry>, e: MmapEntry)
    requires e in entries && e.End() + FRAME_SIZE - 1 >= U64
    ensures !NoWrap(entries) && EndFrame(0, TopOver(0, entries)) == 0
  {
    TopOverIsMax(0, entries);
  }

  /** An available entry that reaches up to 2^64: all its frames are available, and none is freed. */
  lemma WrappedEntryLost(e: MmapEntry, total: nat)
    requires e.kind == 1 && e.addr + e.len == U64
    ensures forall f: nat :: e.addr / FRAME_SIZE <= f < U64 / FRAME_SIZE ==> Available([e], f)
    ensures MarkOver({}, [e], total) == {}
  {
    forall f: nat | e.addr / FRAME_SIZE <= f < U64 / FRAME_SIZE ensures Available([e], f) {
      var b := if f == e.addr / FRAME_SIZE then e.addr else f * FRAME_SIZE;
      assert e in [e] && e.addr <= b < e.addr + e.len && InFrame(b, f);
    }
    assert Touched(e.addr, e.len, total) == {};
    assert [e][1..] == [];
  }

  /** Boot does not depend on the order of the entries or on repeated ones. */
  lemma OrderIrrelevant(a: seq<MmapEntry>, b: seq<MmapEntry>, total: nat)
    requires forall e :: e in a <==> e in b
    ensures TopOver(0, a) == TopOver(0, b)
    ensures MarkOver({}, a, total) == MarkOver({}, b, total)
  {
    TopOverIsMax(0, a);
    TopOverIsMax(0, b);
    forall f: nat ensures f in MarkOver({}, a, total) <==> f in MarkOver({}, b, total) {
      MarkOverIsUnion({}, a, total, f);
      MarkOverIsUnion({}, b, total, f);
    }
  }
}
