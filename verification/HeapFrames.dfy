/** The frame allocator and the kernel heap side by side. Boot reserves the first 2 MB, and the buddy
    blocks of the heap begin right behind, in frames that the allocator hands out. */
module HeapFrames {
  import opened Wrappers
  import opened Words
  import opened Heap
  import Pmm
  import Boot

  /** The memory of a frame. */
  function FrameRegion(f: nat): Region {
    Region(f * Pmm.FRAME_SIZE, Pmm.FRAME_SIZE)
  }

  /** k requests of 1 MB. */
  ghost function Fill(k: nat): seq<Op> {
    if k == 0 then [] else Fill(k - 1) + [Alloc(MB)]
  }

  /** The first k blocks are used whole, the others are free. */
  ghost predicate Filled(h: HeapState, blockCount: nat, k: nat) {
    && Shape(h) && |h.blocks| == blockCount
    && forall i :: 0 <= i < blockCount ==> h.blocks[i] == Block(BlockAddress(i), MB, i < k)
  }

  /** The next request of 1 MB gets the next block. */
  lemma FillStep(h: HeapState, blockCount: nat, k: nat)
    requires Filled(h, blockCount, k) && k < blockCount
    ensures Allocate(h, MB).1 == BlockAddress(k) && Filled(Allocate(h, MB).0, blockCount, k + 1)
  {
    var i := FirstFit(h.blocks, 0, MB);
    assert !h.blocks[k].used;
    assert i == k;
  }

  lemma {:induction false} FillRun(blockCount: nat, k: nat)
    requires 0 < blockCount && k <= blockCount
    ensures Filled(RunOps(Initial(blockCount), Fill(k)), blockCount, k)
    ensures k > 0 ==> Held(Initial(blockCount), Fill(k), Region(BlockAddress(k - 1), MB))
  {
    if k == 0 {
    } else {
      FillRun(blockCount, k - 1);
      FillStep(RunOps(Initial(blockCount), Fill(k - 1)), blockCount, k - 1);
      assert Fill(k)[..|Fill(k)| - 1] == Fill(k - 1);
    }
  }

  /** No run of the heap hands out memory of the frame. */
  ghost predicate Apart(blockCount: nat, f: nat)
    requires blockCount > 0
  {
    forall ops: seq<Op>, r: Region :: Held(Initial(blockCount), ops, r) ==> Disjoint(r, FrameRegion(f))
  }

  /** A frame above the reserved 2 MB is apart from the heap if and only if it lies behind the last
      buddy block. */
  lemma FramesApart(blockCount: nat, f: nat)
    requires blockCount > 0 && f >= 0x200
    ensures Apart(blockCount, f) <==> f >= 0x200 + 0x100 * blockCount
  {
    if f >= 0x200 + 0x100 * blockCount {
      forall ops: seq<Op>, r: Region | Held(Initial(blockCount), ops, r) ensures Disjoint(r, FrameRegion(f)) {
        HeapSafety(blockCount, ops, r, r);
      }
    } else {
      var b := (f - 0x200) / 0x100;
      FillRun(blockCount, b + 1);
      assert !Disjoint(Region(BlockAddress(b), MB), FrameRegion(f));
    }
  }

  /** The first frame after boot, when frame 0x200 is available: it is the start of buddy block 0,
      and the heap hands out the same memory. */
  method FirstFrame(pmm: Pmm.FrameAllocator, info: Option<Boot.Memory>, blockCount: nat) returns (paddr: nat)
    requires info.Some? ==> Boot.InfoOk(info.value) && Boot.NoWrap(Boot.MemoryMap(info.value))
    requires 0x200 < 64 * pmm.bitmap.Length && Boot.BootFrame(info, 0x200) && blockCount > 0
    modifies pmm, pmm.bitmap
    ensures paddr == BUDDY_BASE && !Apart(blockCount, paddr / Pmm.FRAME_SIZE)
  {
    paddr := Boot.FirstFrame(pmm, info, 0x200);
    FramesApart(blockCount, 0x200);
  }
}
