/** The virtual memory manager of vmm.c: the table of recorded mappings, and the page tables that
    vmm_initialize builds with the translation they define (section 4.5 of volume 3A of the Intel
    64 and IA-32 Architectures Software Developer's Manual). */
module Vmm {
  import opened Words

  // ---------------------------------------------------------------- recorded mappings

  datatype Mapping = Mapping(vaddr: nat, paddr: nat, flags: nat)

  /** Physical addresses recorded for v, oldest first. */
  ghost function Queue(m: seq<Mapping>, v: nat): seq<nat> {
    if m == [] then []
    else (if m[0].vaddr == v then [m[0].paddr] else []) + Queue(m[1..], v)
  }

  /** Position of the oldest mapping of v, or the length of the table. */
  ghost function First(m: seq<Mapping>, v: nat): (i: nat)
    ensures i <= |m| && (i < |m| ==> m[i].vaddr == v)
    ensures forall j :: 0 <= j < i ==> m[j].vaddr != v
  {
    if m == [] || m[0].vaddr == v then 0 else 1 + First(m[1..], v)
  }

  ghost function Unmapped(m: seq<Mapping>, v: nat): seq<Mapping> {
    var i := First(m, v);
    if i == |m| then m else m[..i] + m[i + 1..]
  }

  lemma QueueCons(x: Mapping, m: seq<Mapping>, v: nat)
    ensures Queue([x] + m, v) == (if x.vaddr == v then [x.paddr] else []) + Queue(m, v)
  {
    assert ([x] + m)[1..] == m;
  }

  lemma {:induction false} QueueAppend(m: seq<Mapping>, x: Mapping, v: nat)
    ensures Queue(m + [x], v) == Queue(m, v) + if x.vaddr == v then [x.paddr] else []
  {
    if m == [] {
      assert [x][1..] == [];
    } else {
      var first, rest := m[0], m[1..];
      QueueAppend(rest, x, v);
      QueueCons(first, rest + [x], v);
      assert m + [x] == [first] + (rest + [x]);
    }
  }

  lemma UnmappedCons(m: seq<Mapping>, v: nat)
    requires m != [] && m[0].vaddr != v
    ensures Unmapped(m, v) == [m[0]] + Unmapped(m[1..], v)
  {
    var rest := m[1..];
    var i := First(rest, v);
    assert First(m, v) == i + 1;
    if i < |rest| {
      var head, tail := rest[..i], rest[i + 1..];
      assert m[..i + 1] == [m[0]] + head && m[i + 2..] == tail;
      assert ([m[0]] + head) + tail == [m[0]] + (head + tail);
    } else {
      assert m == [m[0]] + rest;
    }
  }

  /** Unmapping drops the oldest mapping of the address and touches no other queue. */
  lemma {:induction false} UnmapIsDequeue(m: seq<Mapping>, v: nat, w: nat)
    ensures Queue(Unmapped(m, v), w) ==
            if w == v && Queue(m, v) != [] then Queue(m, v)[1..] else Queue(m, w)
  {
    if m == [] {
    } else {
      if m[0].vaddr == v {
        assert Unmapped(m, v) == m[1..];
      } else {
        UnmapIsDequeue(m[1..], v, w);
        UnmappedCons(m, v);
        QueueCons(m[0], Unmapped(m[1..], v), w);
      }
    }
  }

  lemma {:induction false} FirstIsOldest(m: seq<Mapping>, v: nat)
    ensures First(m, v) == |m| <==> Queue(m, v) == []
    ensures First(m, v) < |m| ==> m[First(m, v)].paddr == Queue(m, v)[0]
  {
    if m == [] || m[0].vaddr == v {
    } else {
      FirstIsOldest(m[1..], v);
    }
  }

  datatype Op = Map(mapping: Mapping) | Unmap(vaddr: nat)

  ghost function Apply(m: seq<Mapping>, op: Op, max: nat): seq<Mapping> {
    match op
    case Map(x) => if |m| < max then m + [x] else m
    case Unmap(v) => Unmapped(m, v)
  }

  ghost function Run(ops: seq<Op>, max: nat): seq<Mapping>
    decreases |ops|
  {
    if ops == [] then [] else Apply(Run(ops[..|ops| - 1], max), ops[|ops| - 1], max)
  }

  /** The operations without the mappings that a full table turned away. */
  ghost function Accepted(ops: seq<Op>, max: nat): seq<Op>
    decreases |ops|
  {
    if ops == [] then []
    else
      var before := ops[..|ops| - 1];
      if ops[|ops| - 1].Map? && |Run(before, max)| >= max then Accepted(before, max)
      else Accepted(before, max) + [ops[|ops| - 1]]
  }

  /** The queue of one address, from the operations on that address alone. */
  ghost function Fifo(ops: seq<Op>, v: nat): seq<nat>
    decreases |ops|
  {
    if ops == [] then [] else FifoStep(Fifo(ops[..|ops| - 1], v), ops[|ops| - 1], v)
  }

  ghost function FifoStep(q: seq<nat>, op: Op, v: nat): seq<nat> {
    match op
    case Map(x) => if x.vaddr == v then q + [x.paddr] else q
    case Unmap(u) => if u == v && q != [] then q[1..] else q
  }

  lemma FifoAppend(ops: seq<Op>, op: Op, v: nat)
    ensures Fifo(ops + [op], v) == FifoStep(Fifo(ops, v), op, v)
  {
    assert (ops + [op])[..|ops|] == ops;
  }

  /** In every run each address has its own FIFO queue, fed by the accepted operations. */
  lemma {:induction false} RunIsFifo(ops: seq<Op>, max: nat, v: nat)
    ensures Queue(Run(ops, max), v) == Fifo(Accepted(ops, max), v)
    decreases |ops|
  {
    if ops == [] {
    } else {
      var n := |ops| - 1;
      var m, accepted := Run(ops[..n], max), Accepted(ops[..n], max);
      RunIsFifo(ops[..n], max, v);
      FifoAppend(accepted, ops[n], v);
      match ops[n]
      case Map(x) => QueueAppend(m, x, v);
      case Unmap(u) => UnmapIsDequeue(m, u, v);
    }
  }

  /** A table with more room than there are mappings to record turns none away. */
  lemma {:induction false} RoomForAll(ops: seq<Op>, max: nat)
    requires |ops| <= max
    ensures |Run(ops, max)| <= |ops| && Accepted(ops, max) == ops
    decreases |ops|
  {
    if ops == [] {
    } else {
      var n := |ops| - 1;
      var before := ops[..n];
      RoomForAll(before, max);
      assert ops == before + [ops[n]];
    }
  }

  class MappingTable {
    const mappings: array<Mapping>
    var count: nat

    constructor (max: nat)
      ensures fresh(mappings) && mappings.Length == max && Valid() && Contents() == []
    {
      mappings := new Mapping[max](_ => Mapping(0, 0, 0));
      count := 0;
    }

    ghost predicate Valid()
      reads this
    {
      count <= mappings.Length
    }

    ghost function Contents(): seq<Mapping>
      requires Valid()
      reads this, mappings
    {
      mappings[..count]
    }

    /** vmm_map_page. */
    method MapPage(vaddr: nat, paddr: nat, flags: nat)
      requires Valid()
      modifies this, mappings
      ensures Valid() && Contents() == Apply(old(Contents()), Map(Mapping(vaddr, paddr, flags)), mappings.Length)
    {
      if count >= mappings.Length {
        return;
      }
      mappings[count] := Mapping(vaddr, paddr, flags);
      count := count + 1;
    }

    /** vmm_unmap_page: find the mapping and shift the rest down. */
    method UnmapPage(vaddr: nat)
      requires Valid()
      modifies this, mappings
      ensures Valid() && Contents() == Apply(old(Contents()), Unmap(vaddr), mappings.Length)
    {
      var i := Find(vaddr);
      if i < count {
        ShiftDown(i);
        ghost var m := old(Contents());
        count := count - 1;
        assert Contents() == m[..i] + m[i + 1..];
      }
    }

    /** The inner loop of vmm_unmap_page. */
    method ShiftDown(i: nat)
      requires Valid() && i < count
      modifies mappings
      ensures forall k :: 0 <= k < count - 1 ==> mappings[k] == old(Contents())[if k < i then k else k + 1]
    {
      ghost var m := Contents();
      for j := i to count - 1
        modifies mappings
        invariant forall k :: 0 <= k < j ==> mappings[k] == m[if k < i then k else k + 1]
        invariant forall k :: j <= k < count ==> mappings[k] == m[k]
      {
        mappings[j] := mappings[j + 1];
      }
    }

    /** The search loop of vmm_unmap_page and vmm_translate. */
    method Find(vaddr: nat) returns (i: nat)
      requires Valid()
      ensures i == First(Contents(), vaddr)
    {
      i := 0;
      while i < count && mappings[i].vaddr != vaddr
        invariant i <= count && forall j :: 0 <= j < i ==> mappings[j].vaddr != vaddr
      {
        i := i + 1;
      }
    }

    /** vmm_translate: the oldest mapping of the address, or 0. */
    method Translate(vaddr: nat) returns (paddr: nat)
      requires Valid()
      ensures paddr == if Queue(Contents(), vaddr) == [] then 0 else Queue(Contents(), vaddr)[0]
    {
      var i := Find(vaddr);
      FirstIsOldest(Contents(), vaddr);
      paddr := if i < count then mappings[i].paddr else 0;
    }
  }

  // ---------------------------------------------------------------- page tables

  const GB: nat := 0x4000_0000
  const DEFAULT_FLAGS: nat := 0x23
  const PTE_HUGE: nat := 0x80
  const HIGH_HALF: nat := 0xFFFF_8000_0000_0000

  function Pml4Index(v: nat): nat {
    v / 0x80_0000_0000 % 512
  }

  function PdptIndex(v: nat): nat {
    v / GB % 512
  }

  function PdIndex(v: nat): nat {
    v / 0x20_0000 % 512
  }

  function PtIndex(v: nat): nat {
    v / 0x1000 % 512
  }

  /** Bit 0 of an entry. */
  predicate Present(e: nat) {
    e % 2 == 1
  }

  /** Bit 7 of an entry. */
  predicate Huge(e: nat) {
    e / 0x80 % 2 == 1
  }

  /** Bits 51 down to the alignment of the page or table an entry points to. */
  function Base(e: nat, size: nat): nat
    requires size > 0
  {
    e % 0x10_0000_0000_0000 / size * size
  }

  /** Bits 63 to 47 of an address are equal. */
  predicate Canonical(v: nat) {
    v / 0x8000_0000_0000 == 0 || v / 0x8000_0000_0000 == 0x1_FFFF
  }

  datatype Translation = Fault | Physical(address: nat)

  /** The four-level walk of the processor; entry(t, i) is entry i of the table at address t. */
  function Walk(entry: (nat, nat) -> nat, cr3: nat, v: nat): Translation {
    if !Canonical(v) then Fault
    else
      var e := entry(cr3, Pml4Index(v));
      if !Present(e) then Fault
      else
        var f := entry(Base(e, 0x1000), PdptIndex(v));
        if !Present(f) then Fault
        else if Huge(f) then Physical(Base(f, GB) + v % GB)
        else
          var g := entry(Base(f, 0x1000), PdIndex(v));
          if !Present(g) then Fault
          else if Huge(g) then Physical(Base(g, 0x20_0000) + v % 0x20_0000)
          else
            var h := entry(Base(g, 0x1000), PtIndex(v));
            if !Present(h) then Fault else Physical(Base(h, 0x1000) + v % 0x1000)
  }

  /** What the C code stores: `table | DEFAULT_FLAGS` and `page | DEFAULT_FLAGS | PTE_HUGE`. */
  function TableEntry(table: nat): nat {
    Or(table, DEFAULT_FLAGS)
  }

  function PageEntry(i: nat): nat {
    Or(Or(i * GB, DEFAULT_FLAGS), PTE_HUGE)
  }

  ghost predicate IsPml4(pml4: seq<nat>, table: nat) {
    |pml4| == 512 && forall i :: 0 <= i < 512 ==> pml4[i] == if i == 0 || i == 256 then TableEntry(table) else 0
  }

  ghost predicate IsPdpt(pdpt: seq<nat>, pages: nat) {
    |pdpt| == 512 && forall i :: 0 <= i < 512 ==> pdpt[i] == if i < pages then PageEntry(i) else 0
  }

  /** vmm_initialize. */
  method InitializeTables(pml4: array<nat>, pdpt: array<nat>, pdptAddress: nat)
    requires pml4.Length == 512 && pdpt.Length == 512 && pml4 != pdpt
    modifies pml4, pdpt
    ensures IsPml4(pml4[..], pdptAddress) && IsPdpt(pdpt[..], 6)
  {
    for i := 0 to 512
      invariant forall k :: 0 <= k < i ==> pml4[k] == 0 && pdpt[k] == 0
    {
      pml4[i] := 0;
      pdpt[i] := 0;
    }
    var pml4Entry := TableEntry(pdptAddress);
    pml4[0] := pml4Entry;
    pml4[256] := pml4Entry;
    assert IsPml4(pml4[..], pdptAddress);
    for i := 0 to 6
      modifies pdpt
      invariant IsPdpt(pdpt[..], i)
    {
      pdpt[i] := PageEntry(i);
    }
  }

  /** q << k. */
  function Shl(q: nat, k: nat): nat {
    if k == 0 then q else 2 * Shl(q, k - 1)
  }

  lemma {:induction false} ShlIs(q: nat, k: nat)
    ensures Shl(q, k) == Pow2(k) * q
  {
    if k == 0 {
    } else {
      ShlIs(q, k - 1);
      assert 2 * Pow2(k - 1) * q == 2 * (Pow2(k - 1) * q);
    }
  }

  lemma Powers()
    ensures Pow2(8) == 0x100 && Pow2(12) == 0x1000 && Pow2(30) == GB
  {
    Pow2Plus8(0); Pow2Plus8(4); Pow2Plus8(6); Pow2Plus8(14); Pow2Plus8(22);
    assert Pow2(4) == 16;
    assert Pow2(6) == 64 by { assert Pow2(2) == 4; }
  }

  lemma {:induction false} OrZero(a: nat)
    ensures Or(a, 0) == a
  {
    if a == 0 {
    } else {
      OrZero(a / 2);
    }
  }

  /** An OR into the low bits stays in the low bits. */
  lemma {:induction false} OrLow(q: nat, k: nat, a: nat, b: nat)
    requires a < Pow2(k) && b < Pow2(k)
    ensures Or(Shl(q, k) + a, b) == Shl(q, k) + Or(a, b)
  {
    if k == 0 {
      OrZero(Shl(q, k));
    } else {
      assert (Shl(q, k) + a) / 2 == Shl(q, k - 1) + a / 2;
      OrLow(q, k - 1, a / 2, b / 2);
      if Shl(q, k) + a > 0 && a == 0 {
        assert Or(0, b / 2) == b / 2;
      }
    }
  }

  lemma FlagsWithHuge()
    ensures Or(DEFAULT_FLAGS, PTE_HUGE) == 0xA3
  {
    assert Or(2, 8) == 10 by { assert Or(1, 4) == 5 by { assert Or(0, 2) == 2; } }
    assert Or(8, 32) == 40 by { assert Or(4, 16) == 20; }
    assert Or(17, 64) == 81;
  }

  lemma TableEntryIs(table: nat)
    requires table % 0x1000 == 0
    ensures TableEntry(table) == table + 0x23
  {
    var q := table / 0x1000;
    ShlIs(q, 12);
    Powers();
    OrLow(q, 12, 0, DEFAULT_FLAGS);
  }

  lemma TableEntryFields(table: nat)
    requires table % 0x1000 == 0 && table < 0x10_0000_0000_0000
    ensures Present(TableEntry(table)) && Base(TableEntry(table), 0x1000) == table
  {
    TableEntryIs(table);
    assert (table + DEFAULT_FLAGS) / 0x1000 == table / 0x1000;
  }

  /** An OR into the offset bits of a 1 GB page address. */
  lemma OrAligned(i: nat, a: nat, b: nat)
    requires a < GB && b < GB
    ensures Or(i * GB + a, b) == i * GB + Or(a, b)
  {
    ShlIs(i, 30);
    Powers();
    OrLow(i, 30, a, b);
  }

  lemma PageEntryIs(i: nat)
    ensures PageEntry(i) == i * GB + 0xA3
  {
    OrAligned(i, 0, DEFAULT_FLAGS);
    OrAligned(i, DEFAULT_FLAGS, PTE_HUGE);
    FlagsWithHuge();
  }

  lemma Odd(m: nat)
    ensures (2 * m + 1) % 2 == 1
  {
  }

  lemma LowByte(k: nat)
    ensures Present(0x100 * k + 0xA3) && Huge(0x100 * k + 0xA3)
  {
    var e := 0x100 * k + 0xA3;
    var q := e / 0x80;
    assert 0x80 * q <= e < 0x80 * q + 0x80;
    assert q == 2 * k + 1;
    Odd(k);
    assert e == 2 * (0x80 * k + 0x51) + 1;
    Odd(0x80 * k + 0x51);
  }

  lemma PageFlags(i: nat)
    ensures Present(i * GB + 0xA3) && Huge(i * GB + 0xA3)
  {
    LowByte(i * 0x40_0000);
  }

  lemma PageBase(i: nat)
    requires i < 6
    ensures Base(i * GB + 0xA3, GB) == i * GB
  {
    var f := i * GB + 0xA3;
    assert f < 7 * GB && f / GB == i;
  }

  lemma PageEntryFields(i: nat)
    requires i < 6
    ensures Present(PageEntry(i)) && Huge(PageEntry(i)) && Base(PageEntry(i), GB) == i * GB
  {
    PageEntryIs(i);
    PageFlags(i);
    PageBase(i);
  }

  /** The fields of a canonical address, from its offset in a 512 GB region. */
  lemma AddressFields(v: Uint64)
    requires Canonical(v)
    ensures Pml4Index(v) == 0 <==> v < 512 * GB
    ensures Pml4Index(v) == 256 <==> HIGH_HALF <= v < HIGH_HALF + 512 * GB
  {
    var t := v / 0x80_0000_0000;
    assert v / 0x8000_0000_0000 == t / 256;
  }

  lemma PageFields(offset: nat, high: bool)
    requires offset < 512 * GB
    ensures var v := offset + if high then HIGH_HALF else 0;
            Canonical(v) && PdptIndex(v) == offset / GB && v % GB == offset % GB
  {
    if high {
      assert (offset + HIGH_HALF) / GB == offset / GB + 0x3_FFFE_0000;
    }
  }

  ghost predicate Installed(entry: (nat, nat) -> nat, pml4: seq<nat>, pdpt: seq<nat>, cr3: nat, table: nat) {
    && IsPml4(pml4, table) && IsPdpt(pdpt, 6)
    && table % 0x1000 == 0 && table < 0x10_0000_0000_0000
    && (forall i :: 0 <= i < 512 ==> entry(cr3, i) == pml4[i])
    && (forall i :: 0 <= i < 512 ==> entry(table, i) == pdpt[i])
  }

  /** A walk that reaches the table of page entries. */
  lemma WalkPages(entry: (nat, nat) -> nat, pml4: seq<nat>, pdpt: seq<nat>, cr3: nat, table: nat, v: nat)
    requires Installed(entry, pml4, pdpt, cr3, table)
    requires Canonical(v) && (Pml4Index(v) == 0 || Pml4Index(v) == 256)
    ensures Walk(entry, cr3, v) == if PdptIndex(v) < 6 then Physical(PdptIndex(v) * GB + v % GB) else Fault
  {
    assert entry(cr3, Pml4Index(v)) == TableEntry(table);
    TableEntryFields(table);
    var i := PdptIndex(v);
    assert entry(table, i) == pdpt[i];
    if i < 6 {
      PageEntryFields(i);
    }
  }

  /** With the tables installed, the first 6 GB translate to themselves, their alias in the high
      half to the same memory, and every other 64-bit address faults. */
  lemma IdentityMap(entry: (nat, nat) -> nat, pml4: seq<nat>, pdpt: seq<nat>, cr3: nat, table: nat, v: Uint64)
    requires Installed(entry, pml4, pdpt, cr3, table)
    ensures Walk(entry, cr3, v) ==
            if v < 6 * GB then Physical(v)
            else if HIGH_HALF <= v < HIGH_HALF + 6 * GB then Physical(v - HIGH_HALF)
            else Fault
  {
    if v < 512 * GB {
      PageFields(v, false);
      AddressFields(v);
      WalkPages(entry, pml4, pdpt, cr3, table, v);
    } else if HIGH_HALF <= v < HIGH_HALF + 512 * GB {
      PageFields(v - HIGH_HALF, true);
      AddressFields(v);
      WalkPages(entry, pml4, pdpt, cr3, table, v);
    } else if Canonical(v) {
      AddressFields(v);
      assert entry(cr3, Pml4Index(v)) == pml4[Pml4Index(v)] == 0;
    }
  }
}
