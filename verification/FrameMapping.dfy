/** The frame allocator and the page tables side by side: which frames the tables of vmm.c map. */
module FrameMapping {
  import opened Wrappers
  import opened Words
  import Pmm
  import Boot
  import Vmm

  /** The first frame behind the 6 GB that the tables map. */
  const MAPPED_FRAMES: nat := 0x18_0000

  /** With the tables of vmm_initialize installed, an address in frame f is translated to itself if
      and only if the frame lies below 6 GB. */
  lemma FrameIdentity(entry: (nat, nat) -> nat, pml4: seq<nat>, pdpt: seq<nat>, cr3: nat, table: nat, f: nat, b: Uint64)
    requires Vmm.Installed(entry, pml4, pdpt, cr3, table) && Pmm.InFrame(b, f)
    ensures Vmm.Walk(entry, cr3, b) == Vmm.Physical(b) <==> f < MAPPED_FRAMES
  {
    Vmm.IdentityMap(entry, pml4, pdpt, cr3, table, b);
  }

  /** A memory map with one available page right behind 6 GB. */
  const HIGH_PAGE: Boot.MmapEntry := Boot.MmapEntry(0x1_8000_0000, 0x1000, 1)

  lemma HighPageFrames(f: nat)
    ensures Boot.NoWrap([HIGH_PAGE]) && (Boot.Available([HIGH_PAGE], f) <==> f == MAPPED_FRAMES)
  {
    assert [HIGH_PAGE][1..] == [];
    assert Boot.TopOver(0, [HIGH_PAGE]) == HIGH_PAGE.End();
    assert HIGH_PAGE in [HIGH_PAGE] && Pmm.InFrame(HIGH_PAGE.addr, MAPPED_FRAMES);
  }

  lemma HighBoot(info: Boot.Memory, f: nat)
    requires Boot.InfoOk(info) && Boot.MemoryMap(info) == [HIGH_PAGE]
    ensures Boot.NoWrap(Boot.MemoryMap(info)) && (Boot.BootFrame(Some(info), f) <==> f == MAPPED_FRAMES)
  {
    HighPageFrames(f);
    if !Boot.HasMap(info, 8, info.load32(0)) {
      Boot.NoMapNoEntries(info, 8, info.load32(0));
    }
  }

  /** The first frame after boot with that map. */
  method FirstHighFrame(pmm: Pmm.FrameAllocator, info: Boot.Memory) returns (paddr: nat)
    requires Boot.InfoOk(info) && Boot.MemoryMap(info) == [HIGH_PAGE] && MAPPED_FRAMES < 64 * pmm.bitmap.Length
    modifies pmm, pmm.bitmap
    ensures paddr == HIGH_PAGE.addr
  {
    forall f: nat { HighBoot(info, f); }
    paddr := Boot.FirstFrame(pmm, Some(info), MAPPED_FRAMES);
  }

  /** It is one that faults. */
  lemma HighPageFaults(entry: (nat, nat) -> nat, pml4: seq<nat>, pdpt: seq<nat>, cr3: nat, table: nat)
    requires Vmm.Installed(entry, pml4, pdpt, cr3, table)
    ensures Vmm.Walk(entry, cr3, HIGH_PAGE.addr) == Vmm.Fault
  {
    Vmm.IdentityMap(entry, pml4, pdpt, cr3, table, HIGH_PAGE.addr);
  }
}
