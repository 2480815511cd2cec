/** The kernel heap of heap.c: five slab caches of fixed slots, a table of 1 MB buddy blocks,
    first-fit allocation and a coalescing pass. A buddy block is shrunk to the request when it is
    allocated and never grows back, and a merged right neighbour stays behind with size 0. */
module Heap {

  const CACHES: nat := 5
  const SLOTS: nat := 32
  const MB: nat := 0x100000
  const SLAB_BASE: nat := 0x100000
  const BUDDY_BASE: nat := 0x200000

  datatype SlabObject = SlabObject(address: nat, size: nat, used: bool)
  datatype Block = Block(address: nat, size: nat, used: bool)

  /** objects[32 * c + i] is slot i of cache c. */
  datatype HeapState = HeapState(objects: seq<SlabObject>, freeCount: seq<int>, blocks: seq<Block>)

  function SlabAddress(k: nat): nat {
    SLAB_BASE + k / SLOTS * 0x10000 + k % SLOTS * 512
  }

  function BlockAddress(i: nat): nat {
    BUDDY_BASE + i * MB
  }

  /** Slots stand 512 bytes apart, caches 64 KB apart from 1 MB on, and blocks 1 MB apart from 2 MB on. */
  lemma Places(c: nat, i: nat)
    requires i < 32
    ensures SlabAddress(32 * c + i) == 0x10_0000 + 0x1_0000 * c + 0x200 * i && BlockAddress(i) == 0x20_0000 + 0x10_0000 * i
  {
    assert (32 * c + i) / 32 == c && (32 * c + i) % 32 == i;
  }

  // ---------------------------------------------------------------- operations

  /** Slab cache for a request, or CACHES when it is too large for any. */
  function CacheFor(size: nat): nat {
    if size <= 16 then 0 else if size <= 32 then 1 else if size <= 64 then 2
    else if size <= 128 then 3 else if size <= 256 then 4 else CACHES
  }

  /** The caches are for 16, 32, 64, 128 and 256 bytes: a request goes to the smallest that holds it,
      and to none exactly when it is larger than 256 bytes. */
  lemma CacheIsSmallest(size: nat)
    ensures var sizes, c := [16, 32, 64, 128, 256], CacheFor(size);
            if size > 256 then c == CACHES
            else c < CACHES && size <= sizes[c] && forall b :: 0 <= b < c ==> sizes[b] < size
  {
  }

  function FirstUnused(objects: seq<SlabObject>, k: nat, end: nat): (r: nat)
    requires k <= end <= |objects|
    ensures k <= r <= end
    ensures r < end ==> !objects[r].used
    ensures forall j :: k <= j < r ==> objects[j].used
    decreases end - k
  {
    if k == end || !objects[k].used then k else FirstUnused(objects, k + 1, end)
  }

  function FirstFit(blocks: seq<Block>, i: nat, size: nat): (r: nat)
    requires i <= |blocks|
    ensures i <= r <= |blocks|
    ensures r < |blocks| ==> !blocks[r].used && blocks[r].size >= size
    ensures forall j :: i <= j < r ==> blocks[j].used || blocks[j].size < size
    decreases |blocks| - i
  {
    if i == |blocks| || (!blocks[i].used && blocks[i].size >= size) then i
    else FirstFit(blocks, i + 1, size)
  }

  predicate Shape(h: HeapState) {
    |h.objects| == CACHES * SLOTS && |h.freeCount| == CACHES && |h.blocks| > 0
  }

  /** First unused slot for the request, or the number of slots when the request cannot be
      served by a slab. */
  function SlotFor(h: HeapState, size: nat): (k: nat)
    requires Shape(h)
    ensures k <= |h.objects|
  {
    var c := CacheFor(size);
    if c == CACHES then |h.objects|
    else
      var k := FirstUnused(h.objects, c * SLOTS, c * SLOTS + SLOTS);
      if k == c * SLOTS + SLOTS then |h.objects| else k
  }

  function Allocate(h: HeapState, size: nat): (HeapState, nat)
    requires Shape(h)
  {
    if size == 0 then (h, 0)
    else
      var k := SlotFor(h, size);
      if k < |h.objects| then
        var o, c := h.objects[k], CacheFor(size);
        (h.(objects := h.objects[k := SlabObject(o.address, size, true)],
            freeCount := h.freeCount[c := h.freeCount[c] - 1]), o.address)
      else
        var i := FirstFit(h.blocks, 0, size);
        if i < |h.blocks| then
          (h.(blocks := h.blocks[i := Block(h.blocks[i].address, size, true)]), h.blocks[i].address)
        else (h, 0)
  }

  function FindObject(objects: seq<SlabObject>, k: nat, addr: nat): (r: nat)
    requires k <= |objects|
    ensures k <= r <= |objects|
    ensures r < |objects| ==> objects[r].address == addr && objects[r].used
    ensures forall j :: k <= j < r ==> objects[j].address != addr || !objects[j].used
    decreases |objects| - k
  {
    if k == |objects| || (objects[k].address == addr && objects[k].used) then k
    else FindObject(objects, k + 1, addr)
  }

  function FindBlock(blocks: seq<Block>, i: nat, addr: nat): (r: nat)
    requires i <= |blocks|
    ensures i <= r <= |blocks|
    ensures r < |blocks| ==> blocks[r].address == addr && blocks[r].used
    ensures forall j :: i <= j < r ==> blocks[j].address != addr || !blocks[j].used
    decreases |blocks| - i
  {
    if i == |blocks| || (blocks[i].address == addr && blocks[i].used) then i
    else FindBlock(blocks, i + 1, addr)
  }

  function Release(h: HeapState, addr: nat): HeapState
    requires Shape(h)
  {
    if addr == 0 then h
    else
      var k := FindObject(h.objects, 0, addr);
      if k < |h.objects| then
        var c := k / SLOTS;
        h.(objects := h.objects[k := SlabObject(addr, 0, false)],
           freeCount := h.freeCount[c := h.freeCount[c] + 1])
      else
        var i := FindBlock(h.blocks, 0, addr);
        if i < |h.blocks| then h.(blocks := h.blocks[i := h.blocks[i].(used := false)]) else h
  }

  predicate Mergeable(blocks: seq<Block>, i: nat)
    requires i + 1 < |blocks|
  {
    && !blocks[i].used && !blocks[i + 1].used
    && blocks[i].size == blocks[i + 1].size
    && blocks[i].address + blocks[i].size == blocks[i + 1].address
  }

  function Merge(blocks: seq<Block>, i: nat): (r: seq<Block>)
    requires i + 1 < |blocks|
    ensures |r| == |blocks|
  {
    if Mergeable(blocks, i)
    then blocks[i := blocks[i].(size := blocks[i].size * 2)][i + 1 := blocks[i + 1].(size := 0)]
    else blocks
  }

  function CoalesceFrom(blocks: seq<Block>, i: nat): (r: seq<Block>)
    ensures |r| == |blocks|
    decreases |blocks| - i
  {
    if i + 1 >= |blocks| then blocks else CoalesceFrom(Merge(blocks, i), i + 1)
  }

  function CoalesceAll(h: HeapState): HeapState {
    h.(blocks := CoalesceFrom(h.blocks, 0))
  }

  // ---------------------------------------------------------------- invariant

  ghost function Unused(objects: seq<SlabObject>): nat {
    if objects == [] then 0
    else Unused(objects[..|objects| - 1]) + if objects[|objects| - 1].used then 0 else 1
  }

  /** A used slot holds at most 256 bytes; a free one records size 0. */
  ghost predicate SlotOk(objects: seq<SlabObject>, k: nat)
    requires k < |objects|
  {
    var o := objects[k];
    o.address == SlabAddress(k) && if o.used then 0 < o.size <= 256 else o.size == 0
  }

  /** No block exceeds 2 MB, and one over 1 MB has a dead right neighbour. */
  ghost predicate BlockOk(blocks: seq<Block>, i: nat)
    requires i < |blocks|
  {
    && blocks[i].address == BlockAddress(i)
    && (blocks[i].used ==> blocks[i].size > 0)
    && blocks[i].size <= 2 * MB
    && (blocks[i].size > MB ==> i + 1 < |blocks| && Dead(blocks, i + 1))
  }

  ghost predicate Dead(blocks: seq<Block>, i: nat)
    requires i < |blocks|
  {
    blocks[i].size == 0 && !blocks[i].used
  }

  ghost predicate BlocksOk(blocks: seq<Block>) {
    forall i :: 0 <= i < |blocks| ==> BlockOk(blocks, i)
  }

  ghost predicate SlabsOk(objects: seq<SlabObject>, freeCount: seq<int>) {
    && |objects| == CACHES * SLOTS && |freeCount| == CACHES
    && (forall k :: 0 <= k < |objects| ==> SlotOk(objects, k))
    && (forall c :: 0 <= c < CACHES ==> freeCount[c] == Unused(objects[c * SLOTS..c * SLOTS + SLOTS]))
  }

  ghost predicate Inv(h: HeapState) {
    Shape(h) && SlabsOk(h.objects, h.freeCount) && BlocksOk(h.blocks)
  }

  // ---------------------------------------------------------------- live regions

  datatype Region = Region(address: nat, size: nat)

  ghost predicate LiveSlot(h: HeapState, k: nat, r: Region) {
    k < |h.objects| && h.objects[k].used && r == Region(h.objects[k].address, h.objects[k].size)
  }

  ghost predicate LiveBlock(h: HeapState, i: nat, r: Region) {
    i < |h.blocks| && h.blocks[i].used && r == Region(h.blocks[i].address, h.blocks[i].size)
  }

  /** r was handed out and not freed. */
  ghost predicate Live(h: HeapState, r: Region) {
    (exists k: nat :: LiveSlot(h, k, r)) || (exists i: nat :: LiveBlock(h, i, r))
  }

  ghost predicate Disjoint(r: Region, s: Region) {
    r.address + r.size <= s.address || s.address + s.size <= r.address
  }

  lemma SlabAddressGap(k: nat, l: nat)
    requires k < l < CACHES * SLOTS
    ensures SlabAddress(k) + 512 <= SlabAddress(l)
    ensures SLAB_BASE <= SlabAddress(k) && SlabAddress(l) + 512 <= BUDDY_BASE
  {
  }

  /** Live regions lie between the slab base and the end of the last block. */
  lemma LiveInside(h: HeapState, r: Region)
    requires Inv(h) && Live(h, r)
    ensures SLAB_BASE <= r.address && r.address + r.size <= BlockAddress(|h.blocks|)
  {
    if k: nat :| LiveSlot(h, k, r) {
      assert SlotOk(h.objects, k);
      SlabBelowBuddy(k);
    } else {
      var i: nat :| LiveBlock(h, i, r);
      assert BlockOk(h.blocks, i);
    }
  }

  /** Live regions never overlap. */
  lemma LiveDisjoint(h: HeapState, r: Region, s: Region)
    requires Inv(h) && Live(h, r) && Live(h, s) && r != s
    ensures Disjoint(r, s)
  {
    if k: nat :| LiveSlot(h, k, r) {
      assert SlotOk(h.objects, k);
      if l: nat :| LiveSlot(h, l, s) {
        assert SlotOk(h.objects, l);
        if k < l { SlabAddressGap(k, l); } else { SlabAddressGap(l, k); }
      } else {
        var j: nat :| LiveBlock(h, j, s);
        assert BlockOk(h.blocks, j);
        SlabBelowBuddy(k);
      }
    } else {
      var i: nat :| LiveBlock(h, i, r);
      assert BlockOk(h.blocks, i);
      if l: nat :| LiveSlot(h, l, s) {
        assert SlotOk(h.objects, l);
        SlabBelowBuddy(l);
      } else {
        var j: nat :| LiveBlock(h, j, s);
        assert BlockOk(h.blocks, j);
        assert i + 1 < |h.blocks| ==> BlockOk(h.blocks, i + 1);
      }
    }
  }

  lemma SlabBelowBuddy(k: nat)
    requires k < CACHES * SLOTS
    ensures SLAB_BASE <= SlabAddress(k) && SlabAddress(k) + 512 <= BUDDY_BASE
  {
  }

  // ---------------------------------------------------------------- what each operation keeps

  lemma {:induction false} UnusedUpdate(objects: seq<SlabObject>, k: nat, o: SlabObject)
    requires k < |objects|
    ensures Unused(objects[k := o]) ==
            Unused(objects) - (if objects[k].used then 0 else 1) + (if o.used then 0 else 1)
  {
    var n := |objects| - 1;
    if k == n {
      assert objects[k := o][..n] == objects[..n];
    } else {
      assert objects[k := o][..n] == objects[..n][k := o];
      UnusedUpdate(objects[..n], k, o);
    }
  }

  /** Changing slot k changes the count of its own cache only. */
  lemma SlabsUpdate(objects: seq<SlabObject>, freeCount: seq<int>, c: nat, i: nat, o: SlabObject)
    requires SlabsOk(objects, freeCount) && c < CACHES && i < SLOTS
    requires SlotOk(objects[c * SLOTS + i := o], c * SLOTS + i) && o.used != objects[c * SLOTS + i].used
    ensures SlabsOk(objects[c * SLOTS + i := o], freeCount[c := freeCount[c] + if o.used then -1 else 1])
  {
    var k := c * SLOTS + i;
    var objects' := objects[k := o];
    forall d | 0 <= d < CACHES
      ensures Unused(objects'[d * SLOTS..d * SLOTS + SLOTS]) ==
              Unused(objects[d * SLOTS..d * SLOTS + SLOTS]) + if d == c then (if o.used then -1 else 1) else 0
    {
      var cache := objects[d * SLOTS..d * SLOTS + SLOTS];
      if d == c {
        assert objects'[d * SLOTS..d * SLOTS + SLOTS] == cache[i := o];
        UnusedUpdate(cache, i, o);
      } else {
        assert objects'[d * SLOTS..d * SLOTS + SLOTS] == cache;
      }
    }
    forall l | 0 <= l < |objects'| ensures SlotOk(objects', l) {
      assert SlotOk(objects, l);
    }
  }

  /** A new slot state adds or removes exactly one live region. */
  lemma SlotLive(h: HeapState, k: nat, o: SlabObject, freeCount: seq<int>, r: Region)
    requires k < |h.objects| && o.address == h.objects[k].address && o.used != h.objects[k].used
    requires forall j :: 0 <= j < |h.objects| && j != k ==> h.objects[j].address != o.address
    requires forall i :: 0 <= i < |h.blocks| ==> h.blocks[i].address != o.address
    ensures var h' := h.(objects := h.objects[k := o], freeCount := freeCount);
            Live(h', r) <==> if o.used then Live(h, r) || r == Region(o.address, o.size)
                             else Live(h, r) && r.address != o.address
  {
    var h' := h.(objects := h.objects[k := o], freeCount := freeCount);
    forall l: nat | l != k ensures LiveSlot(h', l, r) <==> LiveSlot(h, l, r) {}
    assert LiveSlot(h', k, r) <==> o.used && r == Region(o.address, o.size);
    forall i: nat ensures LiveBlock(h', i, r) <==> LiveBlock(h, i, r) {}
    if Live(h, r) && r.address != o.address { assert !LiveSlot(h, k, r); }
  }

  lemma BlockLive(h: HeapState, i: nat, b: Block, r: Region)
    requires i < |h.blocks| && b.address == h.blocks[i].address && b.used != h.blocks[i].used
    requires forall j :: 0 <= j < |h.blocks| && j != i ==> h.blocks[j].address != b.address
    requires forall k :: 0 <= k < |h.objects| ==> h.objects[k].address != b.address
    ensures var h' := h.(blocks := h.blocks[i := b]);
            Live(h', r) <==> if b.used then Live(h, r) || r == Region(b.address, b.size)
                             else Live(h, r) && r.address != b.address
  {
    var h' := h.(blocks := h.blocks[i := b]);
    forall j: nat | j != i ensures LiveBlock(h', j, r) <==> LiveBlock(h, j, r) {}
    assert LiveBlock(h', i, r) <==> b.used && r == Region(b.address, b.size);
    forall k: nat ensures LiveSlot(h', k, r) <==> LiveSlot(h, k, r) {}
    if Live(h, r) && r.address != b.address { assert !LiveBlock(h, i, r); }
  }

  /** Slots and blocks have pairwise different addresses. */
  lemma AddressesDistinct(h: HeapState)
    requires Inv(h)
    ensures forall j, k :: 0 <= j < k < |h.objects| ==> h.objects[j].address != h.objects[k].address
    ensures forall i, j :: 0 <= i < j < |h.blocks| ==> h.blocks[i].address != h.blocks[j].address
    ensures forall k, i :: 0 <= k < |h.objects| && 0 <= i < |h.blocks| ==> h.objects[k].address != h.blocks[i].address
  {
    forall j, k | 0 <= j < k < |h.objects| ensures h.objects[j].address != h.objects[k].address {
      assert SlotOk(h.objects, j) && SlotOk(h.objects, k);
      SlabAddressGap(j, k);
    }
    forall i, j | 0 <= i < j < |h.blocks| ensures h.blocks[i].address != h.blocks[j].address {
      assert BlockOk(h.blocks, i) && BlockOk(h.blocks, j);
    }
    forall k, i | 0 <= k < |h.objects| && 0 <= i < |h.blocks| ensures h.objects[k].address != h.blocks[i].address {
      assert SlotOk(h.objects, k) && BlockOk(h.blocks, i);
      SlabBelowBuddy(k);
    }
  }

  /** Resizing block i within its old size and changing its use keeps the block table sound. */
  lemma BlocksUpdate(blocks: seq<Block>, i: nat, b: Block)
    requires BlocksOk(blocks) && i < |blocks|
    requires b.address == blocks[i].address && b.size <= blocks[i].size
    requires b.used ==> b.size > 0
    requires Dead(blocks, i) ==> !b.used
    ensures BlocksOk(blocks[i := b])
  {
    var blocks' := blocks[i := b];
    forall j | 0 <= j < |blocks'| ensures BlockOk(blocks', j) {
      assert BlockOk(blocks, j) && BlockOk(blocks, i);
    }
  }

  /** Neither the slab cache of the request nor any buddy block can hold it. */
  ghost predicate NoRoom(h: HeapState, size: nat)
    requires Shape(h)
  {
    var c := CacheFor(size);
    && (c < CACHES ==> forall k :: c * SLOTS <= k < c * SLOTS + SLOTS ==> h.objects[k].used)
    && (forall i :: 0 <= i < |h.blocks| ==> h.blocks[i].used || h.blocks[i].size < size)
  }

  /** kmalloc: a returned region is new, nothing else changes, and it fails exactly when there
      is no room for the request. */
  lemma KmallocStep(h: HeapState, size: nat)
    requires Inv(h)
    ensures var (h', a) := Allocate(h, size);
            && Inv(h')
            && (a == 0 ==> h' == h)
            && (a != 0 ==> size > 0 && forall r :: Live(h, r) ==> r.address != a)
            && (forall r :: Live(h', r) <==> Live(h, r) || (a != 0 && r == Region(a, size)))
            && (a == 0 <==> size == 0 || NoRoom(h, size))
  {
    if size > 0 {
      if SlotFor(h, size) < |h.objects| {
        KmallocSlot(h, size);
      } else if FirstFit(h.blocks, 0, size) < |h.blocks| {
        KmallocBlock(h, size);
      }
    }
  }

  lemma KmallocSlot(h: HeapState, size: nat)
    requires Inv(h) && size > 0 && SlotFor(h, size) < |h.objects|
    ensures var (h', a) := Allocate(h, size);
            && Inv(h') && a != 0 && (forall r :: Live(h, r) ==> r.address != a)
            && (forall r :: Live(h', r) <==> Live(h, r) || r == Region(a, size))
  {
    AddressesDistinct(h);
    var (h', a) := Allocate(h, size);
    var k, c := SlotFor(h, size), CacheFor(size);
    var o := SlabObject(a, size, true);
    assert SlotOk(h.objects, k);
    SlabsUpdate(h.objects, h.freeCount, c, k - c * SLOTS, o);
    forall r { SlotLive(h, k, o, h'.freeCount, r); }
    forall r | Live(h, r) ensures r.address != a { NoRegionAt(h, k, |h.blocks|, r); }
  }

  lemma KmallocBlock(h: HeapState, size: nat)
    requires Inv(h) && size > 0 && SlotFor(h, size) == |h.objects| && FirstFit(h.blocks, 0, size) < |h.blocks|
    ensures var (h', a) := Allocate(h, size);
            && Inv(h') && a != 0 && (forall r :: Live(h, r) ==> r.address != a)
            && (forall r :: Live(h', r) <==> Live(h, r) || r == Region(a, size))
  {
    AddressesDistinct(h);
    var (h', a) := Allocate(h, size);
    var i := FirstFit(h.blocks, 0, size);
    var b := Block(a, size, true);
    assert BlockOk(h.blocks, i);
    BlocksUpdate(h.blocks, i, b);
    forall r { BlockLive(h, i, b, r); }
    forall r | Live(h, r) ensures r.address != a { NoRegionAt(h, |h.objects|, i, r); }
  }

  /** No live region starts at an unused slot or block. */
  lemma NoRegionAt(h: HeapState, k: nat, i: nat, r: Region)
    requires Inv(h) && Live(h, r)
    ensures k < |h.objects| && !h.objects[k].used ==> r.address != h.objects[k].address
    ensures i < |h.blocks| && !h.blocks[i].used ==> r.address != h.blocks[i].address
  {
    AddressesDistinct(h);
    if l: nat :| LiveSlot(h, l, r) {
    } else {
      var j: nat :| LiveBlock(h, j, r);
    }
  }

  /** kfree: exactly the region at this address goes away; an unknown address changes nothing. */
  lemma KfreeStep(h: HeapState, a: nat)
    requires Inv(h)
    ensures var h' := Release(h, a);
            && Inv(h')
            && (forall r :: Live(h', r) <==> Live(h, r) && r.address != a)
            && ((forall r :: Live(h, r) ==> r.address != a) ==> h' == h)
  {
    var k, i := FindObject(h.objects, 0, a), FindBlock(h.blocks, 0, a);
    if a != 0 && k < |h.objects| {
      KfreeSlot(h, a);
    } else if a != 0 && i < |h.blocks| {
      KfreeBlock(h, a);
    } else {
      forall r | Live(h, r) ensures r.address != a { NotFound(h, a, r); }
    }
  }

  lemma KfreeSlot(h: HeapState, a: nat)
    requires Inv(h) && a != 0 && FindObject(h.objects, 0, a) < |h.objects|
    ensures var h' := Release(h, a);
            && Inv(h') && (forall r :: Live(h', r) <==> Live(h, r) && r.address != a)
            && (exists r :: Live(h, r) && r.address == a)
  {
    AddressesDistinct(h);
    var k := FindObject(h.objects, 0, a);
    var o := SlabObject(a, 0, false);
    assert SlotOk(h.objects, k) && LiveSlot(h, k, Region(a, h.objects[k].size));
    SlabsUpdate(h.objects, h.freeCount, k / SLOTS, k % SLOTS, o);
    forall r { SlotLive(h, k, o, Release(h, a).freeCount, r); }
  }

  lemma KfreeBlock(h: HeapState, a: nat)
    requires Inv(h) && a != 0 && FindObject(h.objects, 0, a) == |h.objects| && FindBlock(h.blocks, 0, a) < |h.blocks|
    ensures var h' := Release(h, a);
            && Inv(h') && (forall r :: Live(h', r) <==> Live(h, r) && r.address != a)
            && (exists r :: Live(h, r) && r.address == a)
  {
    AddressesDistinct(h);
    var i := FindBlock(h.blocks, 0, a);
    var b := h.blocks[i].(used := false);
    assert BlockOk(h.blocks, i) && LiveBlock(h, i, Region(a, h.blocks[i].size));
    BlocksUpdate(h.blocks, i, b);
    forall r { BlockLive(h, i, b, r); }
  }

  lemma NotFound(h: HeapState, a: nat, r: Region)
    requires Inv(h) && Live(h, r)
    requires a != 0 ==> FindObject(h.objects, 0, a) == |h.objects| && FindBlock(h.blocks, 0, a) == |h.blocks|
    ensures r.address != a
  {
    if l: nat :| LiveSlot(h, l, r) {
      assert SlotOk(h.objects, l);
    } else {
      var j: nat :| LiveBlock(h, j, r);
      assert BlockOk(h.blocks, j);
    }
  }

  // ---------------------------------------------------------------- coalescing

  /** Sum of the sizes of all blocks, or of the free ones only. */
  ghost function Bytes(blocks: seq<Block>, freeOnly: bool): nat {
    if blocks == [] then 0
    else
      var b := blocks[|blocks| - 1];
      Bytes(blocks[..|blocks| - 1], freeOnly) + if freeOnly && b.used then 0 else b.size
  }

  lemma {:induction false} BytesUpdate(blocks: seq<Block>, i: nat, b: Block, freeOnly: bool)
    requires i < |blocks|
    ensures Bytes(blocks[i := b], freeOnly) ==
            Bytes(blocks, freeOnly) - (if freeOnly && blocks[i].used then 0 else blocks[i].size)
                                    + (if freeOnly && b.used then 0 else b.size)
  {
    var n := |blocks| - 1;
    if i == n {
      assert blocks[i := b][..n] == blocks[..n];
    } else {
      assert blocks[i := b][..n] == blocks[..n][i := b];
      BytesUpdate(blocks[..n], i, b, freeOnly);
    }
  }

  /** a and b differ in free blocks only. */
  ghost predicate SameUsed(a: seq<Block>, b: seq<Block>) {
    && |a| == |b|
    && forall i :: 0 <= i < |a| ==> a[i].used == b[i].used && (a[i].used ==> a[i] == b[i])
  }

  /** No pair below i can be merged. */
  ghost predicate Settled(blocks: seq<Block>, i: nat) {
    forall j :: 0 <= j < i && j + 1 < |blocks| ==> !Mergeable(blocks, j)
  }

  lemma MergeStep(blocks: seq<Block>, i: nat, freeOnly: bool)
    requires BlocksOk(blocks) && i + 1 < |blocks| && Settled(blocks, i)
    ensures var merged := Merge(blocks, i);
            && BlocksOk(merged) && Settled(merged, i + 1) && SameUsed(blocks, merged)
            && Bytes(merged, freeOnly) == Bytes(blocks, freeOnly)
  {
    var merged := Merge(blocks, i);
    assert BlockOk(blocks, i) && BlockOk(blocks, i + 1);
    if Mergeable(blocks, i) {
      var left, right := blocks[i].(size := blocks[i].size * 2), blocks[i + 1].(size := 0);
      BytesUpdate(blocks, i, left, freeOnly);
      BytesUpdate(blocks[i := left], i + 1, right, freeOnly);
    }
    forall j | 0 <= j < |merged| ensures BlockOk(merged, j) {
      assert BlockOk(blocks, j);
    }
    forall j | 0 <= j < i + 1 && j + 1 < |merged| ensures !Mergeable(merged, j) {
      assert BlockOk(merged, j) && BlockOk(merged, j + 1);
      assert j < i ==> !Mergeable(blocks, j);
    }
  }

  /** The pass keeps the invariant and every used block, conserves the bytes in free blocks and
      in all blocks, and leaves nothing to merge. */
  lemma {:induction false} CoalesceFromKeeps(blocks: seq<Block>, i: nat, freeOnly: bool)
    requires BlocksOk(blocks) && i <= |blocks| && Settled(blocks, i)
    ensures var r := CoalesceFrom(blocks, i);
            && BlocksOk(r) && Settled(r, |r|) && SameUsed(blocks, r)
            && Bytes(r, freeOnly) == Bytes(blocks, freeOnly)
    decreases |blocks| - i
  {
    if i + 1 >= |blocks| {
    } else {
      MergeStep(blocks, i, freeOnly);
      CoalesceFromKeeps(Merge(blocks, i), i + 1, freeOnly);
    }
  }

  lemma {:induction false} SettledIsFixed(blocks: seq<Block>, i: nat)
    requires Settled(blocks, |blocks|)
    ensures CoalesceFrom(blocks, i) == blocks
    decreases |blocks| - i
  {
    if i + 1 >= |blocks| {
    } else {
      assert !Mergeable(blocks, i);
      SettledIsFixed(blocks, i + 1);
    }
  }

  /** Byte b lies in a free block. */
  ghost predicate FreeByte(blocks: seq<Block>, b: nat) {
    exists i :: 0 <= i < |blocks| && Covers(blocks[i], b)
  }

  ghost predicate Covers(block: Block, b: nat) {
    !block.used && block.address <= b < block.address + block.size
  }

  /** A merge joins two regions that touch: the free memory stays the same, byte for byte. */
  lemma MergeKeepsMemory(blocks: seq<Block>, i: nat, b: nat)
    requires i + 1 < |blocks|
    ensures FreeByte(Merge(blocks, i), b) <==> FreeByte(blocks, b)
  {
    var merged := Merge(blocks, i);
    if Mergeable(blocks, i) {
      assert Covers(merged[i], b) <==> Covers(blocks[i], b) || Covers(blocks[i + 1], b);
      assert !Covers(merged[i + 1], b);
      forall j | 0 <= j < |blocks| && j != i && j != i + 1 ensures merged[j] == blocks[j] {}
      if j :| 0 <= j < |merged| && Covers(merged[j], b) {
        assert j == i || Covers(blocks[j], b);
      }
      if j :| 0 <= j < |blocks| && Covers(blocks[j], b) {
        assert Covers(merged[if j == i + 1 then i else j], b);
      }
    }
  }

  lemma {:induction false} CoalesceKeepsMemory(blocks: seq<Block>, i: nat, b: nat)
    ensures FreeByte(CoalesceFrom(blocks, i), b) <==> FreeByte(blocks, b)
    decreases |blocks| - i
  {
    if i + 1 >= |blocks| {
    } else {
      MergeKeepsMemory(blocks, i, b);
      CoalesceKeepsMemory(Merge(blocks, i), i + 1, b);
    }
  }

  /** A fresh block table of which the pass has seen the pairs before block i. */
  ghost predicate Paired(blocks: seq<Block>, i: nat) {
    forall j :: 0 <= j < |blocks| ==>
      blocks[j] == Block(BlockAddress(j), if j < i && j % 2 == 1 then 0 else if j < i && j + 1 < |blocks| then 2 * MB else MB, false)
  }

  lemma PairStep(blocks: seq<Block>, i: nat)
    requires Paired(blocks, i) && i % 2 == 0 && i + 1 < |blocks|
    ensures Paired(Merge(blocks, i), i + 2)
    ensures i + 2 < |blocks| ==> Merge(Merge(blocks, i), i + 1) == Merge(blocks, i)
  {
  }

  lemma {:induction false} CoalescePairs(blocks: seq<Block>, i: nat)
    requires Paired(blocks, i) && i % 2 == 0
    ensures Paired(CoalesceFrom(blocks, i), |blocks|)
    decreases |blocks| - i
  {
    if i + 1 >= |blocks| {
    } else {
      PairStep(blocks, i);
      if i + 2 < |blocks| {
        CoalescePairs(Merge(blocks, i), i + 2);
      }
    }
  }

  /** Coalescing the heap after boot makes blocks of 2 MB out of each pair. */
  lemma CoalesceFresh(blockCount: nat, j: nat)
    requires j < blockCount
    ensures var blocks := CoalesceAll(Initial(blockCount)).blocks;
            |blocks| == blockCount && blocks[j].size == if j % 2 == 1 then 0 else if j + 1 < blockCount then 0x20_0000 else 0x10_0000
  {
    CoalescePairs(Initial(blockCount).blocks, 0);
  }

  /** heap_coalesce: sound, conserving, invisible to live allocations and idempotent. */
  lemma CoalesceStep(h: HeapState)
    requires Inv(h)
    ensures var h' := CoalesceAll(h);
            && Inv(h')
            && (forall r :: Live(h', r) <==> Live(h, r))
            && Bytes(h'.blocks, true) == Bytes(h.blocks, true)
            && Bytes(h'.blocks, false) == Bytes(h.blocks, false)
            && CoalesceAll(h') == h'
  {
    var h' := CoalesceAll(h);
    CoalesceFromKeeps(h.blocks, 0, true);
    CoalesceFromKeeps(h.blocks, 0, false);
    SettledIsFixed(h'.blocks, 0);
    forall r ensures Live(h', r) <==> Live(h, r) {
      forall k: nat ensures LiveSlot(h', k, r) <==> LiveSlot(h, k, r) {}
      forall i: nat ensures LiveBlock(h', i, r) <==> LiveBlock(h, i, r) {}
    }
  }

  // ---------------------------------------------------------------- runs

  datatype Op = Alloc(size: nat) | Free(address: nat) | Pass

  function Apply(h: HeapState, op: Op): (h': HeapState)
    requires Shape(h)
    ensures Shape(h')
  {
    match op
    case Alloc(size) => Allocate(h, size).0
    case Free(address) => Release(h, address)
    case Pass => CoalesceAll(h)
  }

  function RunOps(h: HeapState, ops: seq<Op>): (h': HeapState)
    requires Shape(h)
    ensures Shape(h')
    decreases |ops|
  {
    if ops == [] then h else Apply(RunOps(h, ops[..|ops| - 1]), ops[|ops| - 1])
  }

  /** Bytes a buddy allocation cuts off its block for good. */
  ghost function Cut(h: HeapState, op: Op): int
    requires Shape(h)
  {
    match op
    case Alloc(size) =>
      var i := FirstFit(h.blocks, 0, size);
      if size > 0 && SlotFor(h, size) == |h.objects| && i < |h.blocks| then h.blocks[i].size - size else 0
    case _ => 0
  }

  ghost function CutBy(h: HeapState, ops: seq<Op>): int
    requires Shape(h)
    decreases |ops|
  {
    if ops == [] then 0
    else var n := |ops| - 1; CutBy(h, ops[..n]) + Cut(RunOps(h, ops[..n]), ops[n])
  }

  /** The block sizes change at buddy allocations only, by the old size minus the request. */
  lemma ApplyBytes(h: HeapState, op: Op)
    requires Inv(h)
    ensures Bytes(Apply(h, op).blocks, false) == Bytes(h.blocks, false) - Cut(h, op)
    ensures Cut(h, op) >= 0
  {
    match op
    case Alloc(size) =>
      var i := FirstFit(h.blocks, 0, size);
      if i < |h.blocks| {
        BytesUpdate(h.blocks, i, Block(h.blocks[i].address, size, true), false);
      }
    case Free(address) =>
      var i := FindBlock(h.blocks, 0, address);
      if i < |h.blocks| {
        BytesUpdate(h.blocks, i, h.blocks[i].(used := false), false);
      }
    case Pass =>
      CoalesceStep(h);
  }

  lemma ApplyInv(h: HeapState, op: Op)
    requires Inv(h)
    ensures Inv(Apply(h, op))
  {
    match op
    case Alloc(size) => KmallocStep(h, size);
    case Free(address) => KfreeStep(h, address);
    case Pass => CoalesceStep(h);
  }

  /** Every run of kmalloc, kfree and heap_coalesce keeps the invariant (so live regions stay
      disjoint and inside the heap, see LiveDisjoint) and accounts for every byte: what the block
      table lost is exactly what buddy allocations cut off. */
  lemma {:induction false} RunSafe(h: HeapState, ops: seq<Op>)
    requires Inv(h)
    ensures Inv(RunOps(h, ops))
    ensures Bytes(RunOps(h, ops).blocks, false) + CutBy(h, ops) == Bytes(h.blocks, false)
    ensures Bytes(RunOps(h, ops).blocks, false) <= Bytes(h.blocks, false)
    decreases |ops|
  {
    if ops == [] {
    } else {
      var n := |ops| - 1;
      RunSafe(h, ops[..n]);
      ApplyInv(RunOps(h, ops[..n]), ops[n]);
      ApplyBytes(RunOps(h, ops[..n]), ops[n]);
    }
  }

  /** The regions a client holds after a run, told only the addresses kmalloc returned and the
      addresses passed to kfree. */
  ghost predicate Held(h: HeapState, ops: seq<Op>, r: Region)
    requires Shape(h)
    decreases |ops|
  {
    if ops == [] then false
    else
      var before := ops[..|ops| - 1];
      match ops[|ops| - 1]
      case Alloc(size) =>
        var a := Allocate(RunOps(h, before), size).1;
        Held(h, before, r) || (a != 0 && r == Region(a, size))
      case Free(address) => Held(h, before, r) && r.address != address
      case Pass => Held(h, before, r)
  }

  lemma {:induction false} HeldIsLive(h: HeapState, ops: seq<Op>, r: Region)
    requires Inv(h) && !Live(h, r)
    ensures Held(h, ops, r) <==> Live(RunOps(h, ops), r)
    decreases |ops|
  {
    if ops == [] {
    } else {
      var n := |ops| - 1;
      HeldIsLive(h, ops[..n], r);
      RunSafe(h, ops[..n]);
      var h1 := RunOps(h, ops[..n]);
      match ops[n]
      case Alloc(size) => KmallocStep(h1, size);
      case Free(address) => KfreeStep(h1, address);
      case Pass => CoalesceStep(h1);
    }
  }

  /** heap_initialize. */
  function Initial(blockCount: nat): HeapState {
    HeapState(seq(CACHES * SLOTS, k => SlabObject(if k >= 0 then SlabAddress(k) else 0, 0, false)),
              seq(CACHES, _ => SLOTS),
              seq(blockCount, i => Block(if i >= 0 then BlockAddress(i) else 0, MB, false)))
  }

  lemma {:induction false} AllUnused(objects: seq<SlabObject>)
    requires forall k :: 0 <= k < |objects| ==> !objects[k].used
    ensures Unused(objects) == |objects|
  {
    if objects == [] {
    } else {
      AllUnused(objects[..|objects| - 1]);
    }
  }

  lemma InitialOk(blockCount: nat)
    requires blockCount > 0
    ensures Inv(Initial(blockCount)) && forall r :: !Live(Initial(blockCount), r)
  {
    var h := Initial(blockCount);
    forall c | 0 <= c < CACHES ensures h.freeCount[c] == Unused(h.objects[c * SLOTS..c * SLOTS + SLOTS]) {
      AllUnused(h.objects[c * SLOTS..c * SLOTS + SLOTS]);
    }
    assert forall k :: 0 <= k < |h.objects| ==> SlotOk(h.objects, k);
    assert forall i :: 0 <= i < |h.blocks| ==> BlockOk(h.blocks, i);
  }

  /** What a client holds after a run from boot is live in a heap that satisfies the invariant. */
  lemma HeldAfterBoot(blockCount: nat, ops: seq<Op>, r: Region)
    requires blockCount > 0 && Held(Initial(blockCount), ops, r)
    ensures var h := RunOps(Initial(blockCount), ops); Inv(h) && Live(h, r) && |h.blocks| == blockCount
  {
    InitialOk(blockCount);
    HeldIsLive(Initial(blockCount), ops, r);
    RunSafe(Initial(blockCount), ops);
    BlockCountConstant(Initial(blockCount), ops);
  }

  /** Heap safety: whatever a kernel does with kmalloc, kfree and heap_coalesce after boot, the
      regions it holds lie inside the heap and different ones never overlap. */
  lemma HeapSafety(blockCount: nat, ops: seq<Op>, r: Region, s: Region)
    requires blockCount > 0
    requires Held(Initial(blockCount), ops, r) && Held(Initial(blockCount), ops, s)
    ensures r != s ==> Disjoint(r, s)
    ensures SLAB_BASE <= r.address && r.address + r.size <= BlockAddress(blockCount)
  {
    HeldAfterBoot(blockCount, ops, r);
    HeldAfterBoot(blockCount, ops, s);
    LiveInside(RunOps(Initial(blockCount), ops), r);
    if r != s {
      LiveDisjoint(RunOps(Initial(blockCount), ops), r, s);
    }
  }

  /** After every run from boot kmalloc returns no address that is held, and a region that overlaps
      none that is held. */
  lemma NeverHandedTwice(blockCount: nat, ops: seq<Op>, size: nat, r: Region)
    requires blockCount > 0 && Held(Initial(blockCount), ops, r)
    ensures var a := Allocate(RunOps(Initial(blockCount), ops), size).1;
            a != 0 ==> r.address != a && Disjoint(r, Region(a, size))
  {
    HeldAfterBoot(blockCount, ops, r);
    var h := RunOps(Initial(blockCount), ops);
    KmallocStep(h, size);
    var (h', a) := Allocate(h, size);
    if a != 0 {
      LiveDisjoint(h', r, Region(a, size));
    }
  }

  lemma {:induction false} BlockCountConstant(h: HeapState, ops: seq<Op>)
    requires Shape(h)
    ensures |RunOps(h, ops).blocks| == |h.blocks|
    decreases |ops|
  {
    if ops == [] {
    } else {
      BlockCountConstant(h, ops[..|ops| - 1]);
    }
  }

  // ---------------------------------------------------------------- the arrays of heap.c

  class KernelHeap {
    const objects: array<SlabObject>
    const freeCount: array<int>
    const blocks: array<Block>

    ghost predicate Valid()
      reads this
    {
      objects.Length == CACHES * SLOTS && freeCount.Length == CACHES && blocks.Length > 0
    }

    ghost function State(): HeapState
      reads objects, freeCount, blocks
    {
      HeapState(objects[..], freeCount[..], blocks[..])
    }

    /** heap_initialize: init_slab_caches and init_buddy_blocks. */
    constructor (blockCount: nat)
      requires blockCount > 0
      ensures Valid() && State() == Initial(blockCount)
      ensures fresh(objects) && fresh(freeCount) && fresh(blocks)
    {
      objects := new SlabObject[CACHES * SLOTS](_ => SlabObject(0, 0, false));
      freeCount := new int[CACHES];
      blocks := new Block[blockCount](_ => Block(0, 0, false));
      new;
      for c := 0 to CACHES
        invariant forall d :: 0 <= d < c ==> freeCount[d] == SLOTS
        invariant forall k :: 0 <= k < c * SLOTS ==> objects[k] == SlabObject(SlabAddress(k), 0, false)
      {
        freeCount[c] := SLOTS;
        for i := 0 to SLOTS
          invariant forall d :: 0 <= d <= c ==> freeCount[d] == SLOTS
          invariant forall k :: 0 <= k < c * SLOTS + i ==> objects[k] == SlabObject(SlabAddress(k), 0, false)
        {
          objects[c * SLOTS + i] := SlabObject(SLAB_BASE + c * 0x10000 + i * 512, 0, false);
        }
      }
      for i := 0 to blockCount
        invariant forall d :: 0 <= d < CACHES ==> freeCount[d] == SLOTS
        invariant forall k :: 0 <= k < CACHES * SLOTS ==> objects[k] == SlabObject(SlabAddress(k), 0, false)
        invariant forall j :: 0 <= j < i ==> blocks[j] == Block(BlockAddress(j), MB, false)
      {
        blocks[i] := Block(BUDDY_BASE + i * MB, MB, false);
      }
    }

    method Kmalloc(size: nat) returns (address: nat)
      requires Valid()
      modifies objects, freeCount, blocks
      ensures (State(), address) == Allocate(old(State()), size)
    {
      if size == 0 {
        return 0;
      }
      var c := CacheFor(size);
      if c < CACHES {
        for i := 0 to SLOTS
          invariant State() == old(State())
          invariant FirstUnused(objects[..], c * SLOTS, c * SLOTS + SLOTS) ==
                    FirstUnused(objects[..], c * SLOTS + i, c * SLOTS + SLOTS)
        {
          var k := c * SLOTS + i;
          if !objects[k].used {
            objects[k] := SlabObject(objects[k].address, size, true);
            freeCount[c] := freeCount[c] - 1;
            return objects[k].address;
          }
        }
      }
      for i := 0 to blocks.Length
        invariant State() == old(State())
        invariant FirstFit(blocks[..], 0, size) == FirstFit(blocks[..], i, size)
      {
        if !blocks[i].used && blocks[i].size >= size {
          blocks[i] := Block(blocks[i].address, size, true);
          return blocks[i].address;
        }
      }
      return 0;
    }

    /** The slab half of kfree. */
    method FreeSlot(address: nat) returns (found: bool)
      requires Valid() && address != 0
      modifies objects, freeCount
      ensures found <==> FindObject(old(objects[..]), 0, address) < |old(objects[..])|
      ensures State() == if found then Release(old(State()), address) else old(State())
    {
      ghost var before := objects[..];
      ghost var target := FindObject(before, 0, address);
      for c := 0 to CACHES
        invariant unchanged(objects) && unchanged(freeCount)
        invariant target == FindObject(before, c * SLOTS, address)
      {
        for i := 0 to SLOTS
          invariant unchanged(objects) && unchanged(freeCount)
          invariant target == FindObject(before, c * SLOTS + i, address)
        {
          var k := c * SLOTS + i;
          if objects[k].address == address && objects[k].used {
            assert target == k && k / SLOTS == c;
            objects[k] := SlabObject(objects[k].address, 0, false);
            freeCount[c] := freeCount[c] + 1;
            return true;
          }
        }
      }
      return false;
    }

    method Kfree(address: nat)
      requires Valid()
      modifies objects, freeCount, blocks
      ensures State() == Release(old(State()), address)
    {
      if address == 0 {
        return;
      }
      var found := FreeSlot(address);
      if found {
        return;
      }
      for i := 0 to blocks.Length
        invariant State() == old(State())
        invariant FindBlock(blocks[..], 0, address) == FindBlock(blocks[..], i, address)
      {
        if blocks[i].address == address && blocks[i].used {
          blocks[i] := Block(blocks[i].address, blocks[i].size, false);
          return;
        }
      }
    }

    method HeapCoalesce()
      requires Valid()
      modifies blocks
      ensures State() == CoalesceAll(old(State()))
    {
      var i := 0;
      while i < blocks.Length - 1
        invariant 0 <= i <= blocks.Length - 1
        invariant CoalesceFrom(blocks[..], i) == CoalesceFrom(old(blocks[..]), 0)
      {
        ghost var before := blocks[..];
        if && !blocks[i].used && !blocks[i + 1].used
           && blocks[i].size == blocks[i + 1].size
           && blocks[i].address + blocks[i].size == blocks[i + 1].address
        {
          blocks[i] := blocks[i].(size := blocks[i].size * 2);
          blocks[i + 1] := blocks[i + 1].(size := 0);
        }
        assert blocks[..] == Merge(before, i);
        i := i + 1;
      }
    }
  }
}
