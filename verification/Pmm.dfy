/** The physical frame allocator of pmm.c: a bitmap of 64-bit words (a set bit is a free
    frame) with a cached count of free frames, refining a set of free frame numbers. */
module Pmm {
  import opened Words

  const FRAME_SIZE: nat := 4096

  /** End frame of a byte range, with the 64-bit wrap-around of the C expression. */
  function EndFrame(address: Uint64, length: Uint64): nat {
    ((address + length + FRAME_SIZE - 1) % U64) / FRAME_SIZE
  }

  predicate InRange(f: nat, lo: nat, hi: nat) {
    lo <= f < hi
  }

  ghost function FrameRange(lo: nat, hi: nat): set<nat> {
    set f: nat | f < hi && InRange(f, lo, hi)
  }

  /** The frames below `total` that the range loops of pmm.c visit. */
  ghost function Touched(address: Uint64, length: Uint64, total: nat): set<nat> {
    var end := EndFrame(address, length);
    if length == 0 then {} else FrameRange(address / FRAME_SIZE, if end < total then end else total)
  }

  /** Byte address b lies in frame f. */
  predicate InFrame(b: nat, f: nat) {
    b / FRAME_SIZE == f
  }

  /** Some byte of the range lies in frame f. */
  ghost predicate Shares(address: nat, length: nat, f: nat) {
    exists b: nat :: address <= b < address + length && InFrame(b, f)
  }

  /** Without 64-bit wrap-around, the visited frames are exactly those that share a byte
      with the range. */
  lemma TouchedIntersects(address: Uint64, length: Uint64, total: nat, f: nat)
    requires address + length + FRAME_SIZE - 1 < U64
    ensures f in Touched(address, length, total) <==> f < total && Shares(address, length, f)
  {
    if f in Touched(address, length, total) {
      var b: nat := if address <= f * FRAME_SIZE then f * FRAME_SIZE else address;
      assert address <= b < address + length && InFrame(b, f);
    }
  }

  /** A range whose rounded end wraps around is all but lost: at most its first frame is visited. */
  lemma TouchedWrapped(address: Uint64, length: Uint64, total: nat, f: nat)
    requires address + length + FRAME_SIZE - 1 >= U64 && f in Touched(address, length, total)
    ensures f == address / FRAME_SIZE
  {
    var wrapped := address + length + FRAME_SIZE - 1 - U64;
    assert EndFrame(address, length) == wrapped / FRAME_SIZE <= (address + FRAME_SIZE) / FRAME_SIZE;
  }

  /** The loops visit exactly the frames below the total that share a byte with the range. */
  ghost predicate VisitsExactly(address: Uint64, length: Uint64, total: nat) {
    forall f: nat :: f in Touched(address, length, total) <==> f < total && Shares(address, length, f)
  }

  /** They do if and only if the range is empty, its rounded end does not wrap around, it begins
      behind the last frame, or it begins in the last frame and that one is visited. */
  lemma VisitsExactlyWhen(address: Uint64, length: Uint64, total: nat)
    ensures VisitsExactly(address, length, total) <==>
            || length == 0
            || address + length + FRAME_SIZE - 1 < U64
            || total <= address / FRAME_SIZE
            || (total == address / FRAME_SIZE + 1 && EndFrame(address, length) == total)
  {
    if length == 0 {
    } else if address + length + FRAME_SIZE - 1 < U64 {
      forall f: nat { TouchedIntersects(address, length, total, f); }
    } else {
      WrappedVisits(address, length, total);
    }
  }

  /** A wrapped range shares a byte with every frame from its first one on. */
  lemma WrappedVisits(address: Uint64, length: Uint64, total: nat)
    requires length > 0 && address + length + FRAME_SIZE - 1 >= U64
    ensures VisitsExactly(address, length, total) <==>
            total <= address / FRAME_SIZE || (total == address / FRAME_SIZE + 1 && EndFrame(address, length) == total)
  {
    var first, end := address / FRAME_SIZE, EndFrame(address, length);
    var x := address + length + FRAME_SIZE - 1;
    assert if x < 2 * U64 then end == (x - U64) / FRAME_SIZE <= first + 1 else end == 0;
    assert InFrame(address, first) && Shares(address, length, first);
    if end == first + 1 {
      assert InFrame((first + 1) * FRAME_SIZE, first + 1) && Shares(address, length, first + 1);
    }
    if total > first {
      assert first in Touched(address, length, total) <==> end == first + 1;
      assert first + 1 !in Touched(address, length, total);
    }
    if total <= first || (total == first + 1 && end == total) {
      forall f: nat ensures f in Touched(address, length, total) <==> f < total && Shares(address, length, f) {}
    }
  }

  /** Rounding up the end of memory gives no frame exactly for no memory and for an end in the last
      page below 2^64. */
  lemma NoFrames(top: Uint64)
    ensures EndFrame(0, top) == 0 <==> top == 0 || top + FRAME_SIZE - 1 >= U64
  {
  }

  class FrameAllocator {
    const bitmap: array<Uint64>
    var totalFrames: nat
    var freeFrames: int
    /** The frames whose bit is set. */
    ghost var free: set<nat>

    constructor (capacity: nat)
      ensures fresh(bitmap) && bitmap.Length == capacity
      ensures totalFrames == 0 && free == {} && Valid()
    {
      bitmap := new Uint64[capacity];
      totalFrames, freeFrames, free := 0, 0, {};
    }

    /** Number of bitmap words in use. */
    function WordCount(): nat
      reads this
    {
      (totalFrames + 63) / 64
    }

    /** `free` is what the bitmap says. */
    ghost predicate Represents()
      reads this, bitmap
    {
      && WordCount() <= bitmap.Length
      && (forall f :: f in free ==> f < 64 * WordCount())
      && (forall i: nat, k: nat :: i < WordCount() && k < 64 ==> (64 * i + k in free <==> Bit(bitmap[i], k)))
    }

    /** The cached counter is the population count and no bit at or above totalFrames is set. */
    ghost predicate Valid()
      reads this, bitmap
    {
      && Represents()
      && freeFrames == |free|
      && forall f :: f in free ==> f < totalFrames
    }

    /** pmm_initialize: everything reserved; too much memory is cut to what the bitmap covers. */
    method Initialize(totalMemory: Uint64)
      modifies this, bitmap
      ensures Valid() && free == {}
      ensures var wanted := EndFrame(0, totalMemory);
              totalFrames == if wanted <= 64 * bitmap.Length then wanted else 64 * bitmap.Length
    {
      totalFrames := ((totalMemory + FRAME_SIZE - 1) % U64) / FRAME_SIZE;
      freeFrames := 0;
      var bitmapSize := (totalFrames + 63) / 64;
      if bitmapSize > bitmap.Length {
        bitmapSize := bitmap.Length;
        totalFrames := bitmapSize * 64;
      }
      for i := 0 to bitmapSize
        modifies bitmap
        invariant forall k :: 0 <= k < i ==> bitmap[k] == 0
      {
        bitmap[i] := 0;
      }
      free := {};
      forall i: nat, k: nat | i < WordCount() && k < 64 ensures !Bit(bitmap[i], k) {
        ZeroBit(k);
      }
    }

    /** The two statements that put one frame into the bitmap. They do not look at the old bit. */
    method PutFrame(bitmapIdx: nat, bitIdx: nat)
      requires Represents() && bitmapIdx < WordCount() && bitIdx < 64
      modifies this`freeFrames, this`free, bitmap
      ensures Represents() && free == old(free) + {64 * bitmapIdx + bitIdx}
      ensures freeFrames == old(freeFrames) + 1
    {
      bitmap[bitmapIdx] := SetBit(bitmap[bitmapIdx], bitIdx);
      freeFrames := freeFrames + 1;
      free := free + {64 * bitmapIdx + bitIdx};
    }

    /** The two statements that take one free frame out of the bitmap. */
    method TakeFrame(bitmapIdx: nat, bitIdx: nat)
      requires Valid() && bitmapIdx < WordCount() && bitIdx < 64 && Bit(bitmap[bitmapIdx], bitIdx)
      modifies this`freeFrames, this`free, bitmap
      ensures Valid() && free == old(free) - {64 * bitmapIdx + bitIdx}
      ensures 64 * bitmapIdx + bitIdx in old(free)
    {
      bitmap[bitmapIdx] := ClearBit(bitmap[bitmapIdx], bitIdx);
      freeFrames := freeFrames - 1;
      free := free - {64 * bitmapIdx + bitIdx};
    }

    /** Loop body of pmm_add_available_range: set one bit unless it is set. */
    method AddFrame(bitmapIdx: nat, bitIdx: nat)
      requires Valid() && bitIdx < 64 && 64 * bitmapIdx + bitIdx < totalFrames
      modifies this`freeFrames, this`free, bitmap
      ensures Valid() && free == old(free) + {64 * bitmapIdx + bitIdx}
    {
      var isSet := TestBit(bitmap[bitmapIdx], bitIdx);
      if !isSet {
        PutFrame(bitmapIdx, bitIdx);
      }
    }

    /** Loop body of pmm_reserve_range: clear one bit if it is set. */
    method ReserveFrame(bitmapIdx: nat, bitIdx: nat)
      requires Valid() && bitIdx < 64 && 64 * bitmapIdx + bitIdx < totalFrames
      modifies this`freeFrames, this`free, bitmap
      ensures Valid() && free == old(free) - {64 * bitmapIdx + bitIdx}
    {
      var isSet := TestBit(bitmap[bitmapIdx], bitIdx);
      if isSet {
        TakeFrame(bitmapIdx, bitIdx);
      }
    }

    /** pmm_add_available_range: its loop over frames startFrame..endFrame. */
    method AddFrames(startFrame: nat, endFrame: nat)
      requires Valid()
      modifies this`freeFrames, this`free, bitmap
      ensures Valid()
      ensures free == old(free) + FrameRange(startFrame, if endFrame < totalFrames then endFrame else totalFrames)
    {
      var frame := startFrame;
      var bitmapEnd := (totalFrames + 63) / 64;
      while frame < endFrame && frame < totalFrames
        invariant Valid()
        invariant startFrame <= frame && (frame == startFrame || (frame <= endFrame && frame <= totalFrames))
        invariant forall f :: f in free <==> f in old(free) || InRange(f, startFrame, frame)
        decreases totalFrames - frame
      {
        var bitmapIdx, bitIdx := frame / 64, frame % 64;
        if bitmapIdx >= bitmapEnd {
          break;
        }
        AddFrame(bitmapIdx, bitIdx);
        frame := frame + 1;
      }
    }

    /** pmm_add_available_range. */
    method AddAvailableRange(address: Uint64, length: Uint64)
      requires Valid()
      modifies this`freeFrames, this`free, bitmap
      ensures Valid()
      ensures free == old(free) + Touched(address, length, totalFrames)
    {
      if length == 0 {
        return;
      }
      AddFrames(address / FRAME_SIZE, ((address + length + FRAME_SIZE - 1) % U64) / FRAME_SIZE);
    }

    /** pmm_reserve_range: its loop over frames startFrame..endFrame. */
    method ReserveFrames(startFrame: nat, endFrame: nat)
      requires Valid()
      modifies this`freeFrames, this`free, bitmap
      ensures Valid()
      ensures free == old(free) - FrameRange(startFrame, if endFrame < totalFrames then endFrame else totalFrames)
    {
      var frame := startFrame;
      var bitmapEnd := (totalFrames + 63) / 64;
      while frame < endFrame && frame < totalFrames
        invariant Valid()
        invariant startFrame <= frame && (frame == startFrame || (frame <= endFrame && frame <= totalFrames))
        invariant forall f :: f in free <==> f in old(free) && !InRange(f, startFrame, frame)
        decreases totalFrames - frame
      {
        var bitmapIdx, bitIdx := frame / 64, frame % 64;
        if bitmapIdx >= bitmapEnd {
          break;
        }
        ReserveFrame(bitmapIdx, bitIdx);
        frame := frame + 1;
      }
    }

    /** pmm_reserve_range. */
    method ReserveRange(address: Uint64, length: Uint64)
      requires Valid()
      modifies this`freeFrames, this`free, bitmap
      ensures Valid()
      ensures free == old(free) - Touched(address, length, totalFrames)
    {
      if length == 0 {
        return;
      }
      ReserveFrames(address / FRAME_SIZE, ((address + length + FRAME_SIZE - 1) % U64) / FRAME_SIZE);
    }

    /** The inner loop of pmm_allocate_frame: the lowest set bit of a word, 64 if none is set. */
    method LowestBit(word: Uint64) returns (bitIdx: nat)
      ensures bitIdx <= 64 && (bitIdx < 64 ==> Bit(word, bitIdx))
      ensures forall k: nat :: k < bitIdx ==> !Bit(word, k)
    {
      bitIdx := 0;
      while bitIdx < 64
        invariant bitIdx <= 64 && forall k: nat :: k < bitIdx ==> !Bit(word, k)
      {
        var isSet := TestBit(word, bitIdx);
        if isSet {
          return;
        }
        bitIdx := bitIdx + 1;
      }
    }

    /** No frame of a word without set bits below `bits` is free. */
    lemma NothingBelow(bitmapIdx: nat, bits: nat)
      requires Represents() && bitmapIdx < WordCount() && bits <= 64
      requires forall f :: f in free ==> 64 * bitmapIdx <= f
      requires forall k: nat :: k < bits ==> !Bit(bitmap[bitmapIdx], k)
      ensures forall f :: f in free ==> 64 * bitmapIdx + bits <= f
    {
      forall f | f in free ensures 64 * bitmapIdx + bits <= f {
        var k: nat := f - 64 * bitmapIdx;
        assert k < 64 ==> (64 * bitmapIdx + k in free <==> Bit(bitmap[bitmapIdx], k));
      }
    }

    /** pmm_allocate_frame: the lowest free frame, or address 0 when there is none. The
        event names what happened, since address 0 alone does not tell the two apart. */
    method AllocateFrame() returns (paddr: nat, ghost event: Event)
      requires Valid()
      modifies this`freeFrames, this`free, bitmap
      ensures Valid()
      ensures Step(totalFrames, old(free), event, free)
      ensures event == Exhausted || event == Handed(paddr / FRAME_SIZE)
      ensures event == Exhausted ==> paddr == 0
      ensures paddr % FRAME_SIZE == 0
    {
      for bitmapIdx := 0 to (totalFrames + 63) / 64
        invariant unchanged(this) && unchanged(bitmap)
        invariant forall f :: f in free ==> 64 * bitmapIdx <= f
      {
        if bitmap[bitmapIdx] != 0 {
          var bitIdx := LowestBit(bitmap[bitmapIdx]);
          NothingBelow(bitmapIdx, bitIdx);
          if bitIdx < 64 {
            TakeFrame(bitmapIdx, bitIdx);
            var frameNum := bitmapIdx * 64 + bitIdx;
            return frameNum * FRAME_SIZE, Handed(frameNum);
          }
        } else {
          forall k: nat ensures !Bit(bitmap[bitmapIdx], k) { ZeroBit(k); }
          NothingBelow(bitmapIdx, 64);
        }
      }
      return 0, Exhausted;
    }

    /** pmm_free_frame has only the bitmap bound as a check. It keeps the allocator consistent
        exactly when the frame lies behind the words in use, where nothing happens, or exists and
        is not free already. */
    method FreeFrame(paddr: Uint64)
      requires Valid()
      modifies this`freeFrames, this`free, bitmap
      ensures Represents()
      ensures var f := paddr / FRAME_SIZE;
              if f / 64 >= WordCount() then
                Valid() && free == old(free)
              else
                && free == old(free) + {f} && freeFrames == old(freeFrames) + 1
                && (Valid() <==> f < totalFrames && f !in old(free))
                && (Valid() ==> Step(totalFrames, old(free), Returned(f), free))
    {
      var frameNum := paddr / FRAME_SIZE;
      var bitmapIdx, bitIdx := frameNum / 64, frameNum % 64;
      if bitmapIdx >= (totalFrames + 63) / 64 {
        return;
      }
      PutFrame(bitmapIdx, bitIdx);
    }

    /** pmm_get_available. */
    function GetAvailable(): (bytes: int)
      requires Valid()
      reads this, bitmap
      ensures bytes == FRAME_SIZE * |free|
    {
      freeFrames * FRAME_SIZE
    }
  }

  /** Freeing a free frame: the frame is counted twice. */
  method DoubleFree() returns (pmm: FrameAllocator)
    ensures fresh(pmm) && !pmm.Valid() && pmm.free == {0} && pmm.freeFrames == 2
  {
    pmm := new FrameAllocator(1);
    pmm.Initialize(FRAME_SIZE);
    pmm.FreeFrame(0);
    assert pmm.free == {0};
    pmm.FreeFrame(0);
  }

  /** Freeing a frame behind the last one that shares its bitmap word: it can be handed out. */
  method FreeBehindTotal() returns (pmm: FrameAllocator)
    ensures fresh(pmm) && !pmm.Valid() && pmm.totalFrames == 1 && pmm.free == {1}
  {
    pmm := new FrameAllocator(1);
    pmm.Initialize(FRAME_SIZE);
    pmm.FreeFrame(FRAME_SIZE);
    assert 1 in pmm.free;
  }

  // ---------------------------------------------------------------- runs

  datatype Event = Handed(frame: nat) | Returned(frame: nat) | Exhausted

  ghost predicate Step(total: nat, free: set<nat>, e: Event, free': set<nat>) {
    match e
    case Handed(f) => f in free && (forall g :: g in free ==> f <= g) && free' == free - {f}
    case Returned(f) => f < total && f !in free && free' == free + {f}
    case Exhausted => free == {} && free' == free
  }

  /** free[i] is the set of free frames before event i. */
  ghost predicate Run(total: nat, free: seq<set<nat>>, events: seq<Event>) {
    && |free| == |events| + 1
    && forall i :: 0 <= i < |events| ==> Step(total, free[i], events[i], free[i + 1])
  }

  /** A frame that was handed out stays out of the pool until it is returned. */
  lemma {:induction false} StaysOut(total: nat, free: seq<set<nat>>, events: seq<Event>, i: nat, j: nat, f: nat)
    requires Run(total, free, events) && i < j <= |events|
    requires events[i] == Handed(f)
    requires forall k :: i < k < j ==> events[k] != Returned(f)
    ensures f !in free[j]
  {
    if j == i + 1 {
      assert Step(total, free[i], events[i], free[i + 1]);
    } else {
      StaysOut(total, free, events, i, j - 1, f);
      assert Step(total, free[j - 1], events[j - 1], free[j]);
    }
  }

  /** No frame is handed out twice without a return in between. */
  lemma NoDoubleHandout(total: nat, free: seq<set<nat>>, events: seq<Event>, i: nat, j: nat, f: nat)
    requires Run(total, free, events) && i < j < |events|
    requires events[i] == Handed(f) && events[j] == Handed(f)
    ensures exists k :: i < k < j && events[k] == Returned(f)
  {
    assert Step(total, free[j], events[j], free[j + 1]);
    if forall k :: i < k < j ==> events[k] != Returned(f) {
      StaysOut(total, free, events, i, j, f);
    }
  }

  ghost function Outstanding(events: seq<Event>): int {
    if events == [] then 0
    else Outstanding(events[..|events| - 1]) +
         match events[|events| - 1]
         case Handed(_) => 1
         case Returned(_) => -1
         case Exhausted => 0
  }

  /** Frames are conserved: free plus outstanding is constant over every run. */
  lemma {:induction false} FramesConserved(total: nat, free: seq<set<nat>>, events: seq<Event>)
    requires Run(total, free, events)
    ensures |free[|events|]| + Outstanding(events) == |free[0]|
  {
    if events == [] {
    } else {
      var n := |events| - 1;
      assert Step(total, free[n], events[n], free[n + 1]);
      FramesConserved(total, free[..n + 1], events[..n]);
    }
  }
}
