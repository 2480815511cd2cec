/** Directory scans of fat32.c: lookup by name, enumeration of the root directory, and opening a
    file (Microsoft FAT32 File System Specification, "FAT Directory Structure"). */
module Fat32Directory {
  import opened Wrappers
  import opened Sequences
  import opened Words
  import opened Fat32Names
  import opened Fat32Volume
  import opened Fat32Files

  const ENTRY_SIZE: nat := 32
  const ENTRIES: nat := 128

  type Entry = e: seq<Byte> | |e| == 32 witness seq(32, _ => 0)

  /** fat32_make_cluster. */
  function FirstCluster(e: Entry): Uint32 {
    LeBound(e[26..28] + e[20..22]);
    Le(e[26..28] + e[20..22])
  }

  function FileSize(e: Entry): Uint32 {
    Le32(e, 28)
  }

  /** What a scan makes of an entry: the end marker; a deleted entry, a long-name part or a volume
      label; or a file. */
  datatype Slot = Last | Hidden | File(entry: Entry)

  function Classify(e: Entry): Slot {
    if e[0] == 0 then Last
    else if e[0] == 0xE5 || e[11] == 0x0F || And(e[11], 0x08) != 0 then Hidden
    else File(e)
  }

  // ---------------------------------------------------------------- lists of slots

  /** The visible entries from slot i on: the files before the end marker. */
  ghost function Visible(slots: seq<Slot>, i: nat): seq<Entry>
    decreases |slots| - i
  {
    if i >= |slots| || slots[i].Last? then []
    else if slots[i].Hidden? then Visible(slots, i + 1)
    else [slots[i].entry] + Visible(slots, i + 1)
  }

  /** The first visible entry from slot i on that passes the test. */
  ghost function Search(slots: seq<Slot>, i: nat, test: Entry -> bool): Option<Entry>
    decreases |slots| - i
  {
    if i >= |slots| || slots[i].Last? then None
    else if slots[i].File? && test(slots[i].entry) then Some(slots[i].entry)
    else Search(slots, i + 1, test)
  }

  /** `found` is the first entry of the list that passes the test, or none does. */
  ghost predicate IsFirst(list: seq<Entry>, test: Entry -> bool, found: Option<Entry>) {
    if found.None? then forall j :: 0 <= j < |list| ==> !test(list[j])
    else exists j :: 0 <= j < |list| && list[j] == found.value && test(list[j])
                     && forall l :: 0 <= l < j ==> !test(list[l])
  }

  lemma IsFirstCons(e: Entry, list: seq<Entry>, test: Entry -> bool, found: Option<Entry>)
    requires IsFirst(list, test, found)
    ensures IsFirst([e] + list, test, if test(e) then Some(e) else found)
  {
    var all := [e] + list;
    assert all[0] == e && forall j :: 0 < j < |all| ==> all[j] == list[j - 1];
    if test(e) {
      assert all[0] == e && test(all[0]);
    } else if found.Some? {
      var j :| 0 <= j < |list| && list[j] == found.value && test(list[j])
               && forall l :: 0 <= l < j ==> !test(list[l]);
      assert all[j + 1] == list[j];
    }
  }

  /** The lookup finds the first match in the list that the enumeration shows. */
  lemma {:induction false} SearchIsFirstVisible(slots: seq<Slot>, i: nat, test: Entry -> bool)
    ensures IsFirst(Visible(slots, i), test, Search(slots, i, test))
    decreases |slots| - i
  {
    if i >= |slots| || slots[i].Last? {
    } else {
      SearchIsFirstVisible(slots, i + 1, test);
      if slots[i].File? {
        IsFirstCons(slots[i].entry, Visible(slots, i + 1), test, Search(slots, i + 1, test));
      }
    }
  }

  /** No end marker among the slots from..to. */
  ghost predicate NoLast(slots: seq<Slot>, from: nat, to: nat)
    requires to <= |slots|
  {
    forall i :: from <= i < to ==> !slots[i].Last?
  }

  /** A scan for entries that pass the test stops at this slot. */
  ghost predicate Stops(slot: Slot, test: Entry -> bool) {
    slot.Last? || (slot.File? && test(slot.entry))
  }

  /** It stops at none of the slots from..to. */
  ghost predicate NoStop(slots: seq<Slot>, from: nat, to: nat, test: Entry -> bool)
    requires to <= |slots|
  {
    forall i :: from <= i < to ==> !Stops(slots[i], test)
  }

  /** The test of a scan for all entries. */
  ghost function Never(): Entry -> bool {
    (e: Entry) => false
  }

  /** Such a scan stops at end markers only. */
  lemma NeverStops(slots: seq<Slot>, from: nat, to: nat)
    requires to <= |slots|
    ensures NoStop(slots, from, to, Never()) <==> NoLast(slots, from, to)
  {
    forall i | from <= i < to ensures Stops(slots[i], Never()) <==> slots[i].Last? {}
  }

  // ---------------------------------------------------------------- the flat directory

  /** Entry i of a directory given as one byte string. */
  function EntryAt(dir: seq<Byte>, i: nat): Entry
    requires ENTRY_SIZE * i + ENTRY_SIZE <= |dir|
  {
    dir[ENTRY_SIZE * i..ENTRY_SIZE * i + ENTRY_SIZE]
  }

  /** A directory on a volume. `rest` is what lies in the cluster buffer behind a cluster of fewer
      than 8 sectors: reading never touches it, and the scans run over the whole buffer. */
  datatype Directory = Directory(v: Volume, root: nat, rest: seq<Byte>) {
    ghost predicate Fits() {
      v.sectorsPerCluster <= 8 && v.ClusterSize() + |rest| == CLUSTER_BUFFER
    }

    /** The buffer after cluster k of the chain is read. */
    ghost function Page(k: nat): (page: seq<Byte>)
      requires Fits() && ReadableAt(v, root, k)
      ensures |page| == CLUSTER_BUFFER
    {
      v.Cluster(v.Nth(root, k)).value + rest
    }
  }

  /** The slots of a full buffer. */
  ghost function SlotsOf(cluster: seq<Byte>): (r: seq<Slot>)
    requires |cluster| == CLUSTER_BUFFER
    ensures |r| == ENTRIES
    ensures forall j :: 0 <= j < ENTRIES ==> r[j] == Classify(EntryAt(cluster, j))
  {
    seq(ENTRIES, j requires 0 <= j < ENTRIES => Classify(EntryAt(cluster, j)))
  }

  /** The slots of the first n clusters of the chain, one after the other. */
  ghost function Slots(d: Directory, n: nat): (r: seq<Slot>)
    requires d.Fits() && ReadableChain(d.v, d.root, n)
    ensures |r| == ENTRIES * n
  {
    if n == 0 then [] else Slots(d, n - 1) + SlotsOf(d.Page(n - 1))
  }

  /** The buffer with cluster k holds the slots from 128 * k on. */
  lemma {:induction false} LoadedCluster(d: Directory, n: nat, k: nat, buffer: seq<Byte>)
    requires d.Fits() && ReadableChain(d.v, d.root, n) && k < n
    requires buffer == d.Page(k)
    ensures Holds(buffer, Slots(d, n), ENTRIES * k)
  {
    var head, last := Slots(d, n - 1), SlotsOf(d.Page(n - 1));
    if k < n - 1 {
      LoadedCluster(d, n - 1, k, buffer);
    }
    HoldsAppend(buffer, head, last, ENTRIES * k);
  }

  lemma HoldsAppend(buffer: seq<Byte>, head: seq<Slot>, last: seq<Slot>, base: nat)
    requires |buffer| == CLUSTER_BUFFER
    requires Holds(buffer, head, base) || (base == |head| && last == SlotsOf(buffer))
    ensures Holds(buffer, head + last, base)
  {
    if !Holds(buffer, head, base) {
      forall j: nat | j < ENTRIES ensures (head + last)[base + j] == Classify(EntryAt(buffer, j)) {
        assert (head + last)[base + j] == last[j];
      }
    }
  }

  /** The cluster buffer holds the slots of the directory from number `base` on. */
  ghost predicate Holds(buffer: seq<Byte>, slots: seq<Slot>, base: nat) {
    && |buffer| == CLUSTER_BUFFER && base + ENTRIES <= |slots|
    && forall j: nat :: j < ENTRIES ==> slots[base + j] == Classify(EntryAt(buffer, j))
  }

  /** A scan ends within n clusters: they can be read, and behind them the chain ends or fails, or
      the scan stops in them. Only FAT entries inside the table are looked up. */
  ghost predicate ScanEnds(d: Directory, n: nat, test: Entry -> bool) {
    && d.Fits() && ReadableChain(d.v, d.root, n)
    && ((d.v.ChainInTable(d.root, n) && !ReadableAt(d.v, d.root, n))
        || (n > 0 && d.v.ChainInTable(d.root, n - 1) && !NoStop(Slots(d, n), 0, ENTRIES * n, test)))
  }

  /** How far a scan gets that has not stopped in the first k clusters. */
  lemma ScanStopsAt(d: Directory, n: nat, test: Entry -> bool, k: nat)
    requires ScanEnds(d, n, test) && k <= n && NoStop(Slots(d, n), 0, ENTRIES * k, test)
    ensures k == n ==> !ReadableAt(d.v, d.root, n)
    ensures k < n ==> ReadableAt(d.v, d.root, k)
    ensures 0 < k ==> IsEoc(d.v.Nth(d.root, k - 1)) || d.v.InTable(d.v.Nth(d.root, k - 1))
  {
  }

  // ---------------------------------------------------------------- which scans end

  /** No cluster comes twice while the chain can be read. */
  ghost predicate Acyclic(d: Directory) {
    forall i: nat, j: nat :: i < j && ReadableChain(d.v, d.root, j + 1) ==> d.v.Nth(d.root, i) != d.v.Nth(d.root, j)
  }

  /** The clusters of the chain have entries in the table. */
  ghost predicate DataInTable(d: Directory) {
    forall k: nat :: ReadableChain(d.v, d.root, k + 1) ==> d.v.InTable(d.v.Nth(d.root, k))
  }

  /** Different numbers below n are at most n many. */
  lemma {:induction false} Pigeonhole(s: seq<nat>, n: nat)
    requires forall i :: 0 <= i < |s| ==> s[i] < n
    requires Distinct(s)
    ensures |s| <= n
  {
    assert s != [] ==> s[0] < n;
    if n == 0 {
    } else {
      if i :| 0 <= i < |s| && s[i] == n - 1 {
        var rest := s[..i] + s[i + 1..];
        assert forall j :: 0 <= j < |rest| ==> rest[j] == s[if j < i then j else j + 1];
        Pigeonhole(rest, n - 1);
      } else {
        Pigeonhole(s, n - 1);
      }
    }
  }

  lemma ChainFits(d: Directory, k: nat)
    requires Acyclic(d) && DataInTable(d) && d.v.fat.Some? && ReadableChain(d.v, d.root, k)
    ensures k <= |d.v.fat.value|
  {
    var clusters := seq(k, i requires 0 <= i < k => d.v.Nth(d.root, i));
    forall j: nat | j < k ensures clusters[j] < |d.v.fat.value| {
      assert ReadableChain(d.v, d.root, j + 1);
      assert d.v.InTable(d.v.Nth(d.root, j));
    }
    forall i: nat, j: nat | i < j < k ensures clusters[i] != clusters[j] {
      assert ReadableChain(d.v, d.root, j + 1);
      assert d.v.Nth(d.root, i) != d.v.Nth(d.root, j);
    }
    Pigeonhole(clusters, |d.v.fat.value|);
  }

  lemma {:induction false} EndBehind(d: Directory, test: Entry -> bool, k: nat) returns (n: nat)
    requires d.Fits() && Acyclic(d) && DataInTable(d) && d.v.fat.Some?
    requires ReadableChain(d.v, d.root, k)
    ensures ScanEnds(d, n, test)
    decreases |d.v.fat.value| + 1 - k
  {
    ChainFits(d, k);
    if !ReadableAt(d.v, d.root, k) {
      n := k;
      PrefixInTable(d, k);
    } else {
      n := EndBehind(d, test, k + 1);
    }
  }

  lemma PrefixInTable(d: Directory, n: nat)
    requires DataInTable(d) && ReadableChain(d.v, d.root, n)
    ensures d.v.ChainInTable(d.root, n)
  {
    forall j: nat | j < n ensures d.v.InTable(d.v.Nth(d.root, j)) {
      assert ReadableChain(d.v, d.root, j + 1);
    }
  }

  /** Every scan of an acyclic chain inside the table ends, also without a table. */
  lemma AcyclicScanEnds(d: Directory, test: Entry -> bool)
    requires d.Fits() && Acyclic(d) && DataInTable(d)
    ensures exists n: nat :: ScanEnds(d, n, test)
  {
    if d.v.fat.Some? {
      var n := EndBehind(d, test, 0);
    } else if d.v.Readable(d.root) {
      assert d.v.Nth(d.root, 1) == 0;
      assert ScanEnds(d, 1, test);
    } else {
      assert d.v.Nth(d.root, 0) == d.root;
      assert ScanEnds(d, 0, test);
    }
  }

  /** Behind a repeated cluster the chain repeats. */
  lemma {:induction false} ChainRepeats(d: Directory, i: nat, j: nat, k: nat)
    requires d.v.Nth(d.root, i) == d.v.Nth(d.root, j)
    ensures d.v.Nth(d.root, i + k) == d.v.Nth(d.root, j + k)
    decreases k
  {
    if k == 0 {
    } else {
      ChainRepeats(d, i, j, k - 1);
    }
  }

  /** A chain that comes back to a cluster before it ends can be read for ever. */
  lemma {:induction false} CycleIsReadable(d: Directory, i: nat, j: nat, n: nat)
    requires i < j && ReadableChain(d.v, d.root, j + 1) && d.v.Nth(d.root, i) == d.v.Nth(d.root, j)
    ensures ReadableChain(d.v, d.root, n)
    decreases n
  {
    if n <= j + 1 {
    } else {
      CycleIsReadable(d, i, j, n - 1);
      var k := n - 1 - j;
      ChainRepeats(d, i, j, k);
      assert ReadableAt(d.v, d.root, i + k) && j + k == n - 1;
    }
  }

  /** Some readable part of the chain holds a slot at which the scan stops. */
  ghost predicate MeetsStop(d: Directory, test: Entry -> bool)
    requires d.Fits()
  {
    exists n: nat :: ReadableChain(d.v, d.root, n) && !NoStop(Slots(d, n), 0, ENTRIES * n, test)
  }

  lemma StopEnds(d: Directory, test: Entry -> bool)
    requires d.Fits() && DataInTable(d) && MeetsStop(d, test)
    ensures exists n: nat :: ScanEnds(d, n, test)
  {
    var n: nat :| ReadableChain(d.v, d.root, n) && !NoStop(Slots(d, n), 0, ENTRIES * n, test);
    PrefixInTable(d, n - 1);
    assert ScanEnds(d, n, test);
  }

  /** A scan ends if and only if the chain is acyclic or the scan meets a slot at which it stops: the
      end marker, or for a lookup an entry with the name. */
  lemma ScanEndsWhen(d: Directory, test: Entry -> bool)
    requires d.Fits() && DataInTable(d)
    ensures (exists n: nat :: ScanEnds(d, n, test)) <==> Acyclic(d) || MeetsStop(d, test)
  {
    if Acyclic(d) {
      AcyclicScanEnds(d, test);
    } else if MeetsStop(d, test) {
      StopEnds(d, test);
    } else {
      var i: nat, j: nat :| i < j && ReadableChain(d.v, d.root, j + 1) && d.v.Nth(d.root, i) == d.v.Nth(d.root, j);
      forall n: nat ensures !ScanEnds(d, n, test) {
        CycleIsReadable(d, i, j, n + 1);
        assert ReadableAt(d.v, d.root, n);
      }
    }
  }

  /** A directory of one cluster that is its own successor, without an end marker. */
  ghost function Loop(): Directory {
    var sector: Sector := seq(SECTOR_SIZE, _ => 0x41);
    Directory(Volume(8, 0, Some([0, 0, 2]), (lba: nat) => Some(sector)), 2, [])
  }

  lemma {:induction false} LoopChain(k: nat)
    ensures Loop().v.Nth(2, k) == 2
  {
    if k == 0 {
    } else {
      LoopChain(k - 1);
    }
  }

  lemma {:induction false} LoopSectors(lba: nat, count: nat)
    ensures Loop().v.Sectors(lba, count) == Some(seq(SECTOR_SIZE * count, _ => 0x41))
  {
    if count == 0 {
    } else {
      LoopSectors(lba, count - 1);
      var head: seq<Byte>, sector: seq<Byte> := seq(SECTOR_SIZE * (count - 1), _ => 0x41), seq(SECTOR_SIZE, _ => 0x41);
      assert head + sector == seq(SECTOR_SIZE * count, _ => 0x41);
    }
  }

  ghost predicate AllSlots(slots: seq<Slot>, slot: Slot) {
    forall i :: 0 <= i < |slots| ==> slots[i] == slot
  }

  lemma LoopPage(k: nat)
    requires Loop().Fits() && ReadableAt(Loop().v, 2, k)
    ensures AllSlots(SlotsOf(Loop().Page(k)), File(seq(32, _ => 0x41)))
  {
    LoopChain(k);
    LoopSectors(Loop().v.ClusterLba(2), 8);
    var e: Entry, page := seq(32, _ => 0x41), Loop().Page(k);
    LetterIsFile(e);
    forall j | 0 <= j < ENTRIES ensures SlotsOf(page)[j] == File(e) {
      assert EntryAt(page, j) == e;
    }
  }

  ghost predicate UniformPage(d: Directory, k: nat, slot: Slot) {
    d.Fits() && ReadableAt(d.v, d.root, k) && AllSlots(SlotsOf(d.Page(k)), slot)
  }

  lemma {:induction false} UniformSlots(d: Directory, n: nat, slot: Slot)
    requires d.Fits() && ReadableChain(d.v, d.root, n) && forall k: nat :: k < n ==> UniformPage(d, k, slot)
    ensures AllSlots(Slots(d, n), slot)
  {
    if n == 0 {
    } else {
      UniformSlots(d, n - 1, slot);
      assert UniformPage(d, n - 1, slot);
    }
  }

  /** Its enumeration and every lookup without a match go on for ever; a lookup that matches ends in
      the first cluster. */
  lemma LoopScans(test: Entry -> bool)
    ensures Loop().Fits() && DataInTable(Loop()) && !Acyclic(Loop())
    ensures (exists n: nat :: ScanEnds(Loop(), n, test)) <==> test(seq(32, _ => 0x41))
  {
    var d, e: Entry := Loop(), seq(32, _ => 0x41);
    LoopSectors(d.v.ClusterLba(2), 8);
    forall k: nat ensures ReadableAt(d.v, d.root, k) && d.v.InTable(d.v.Nth(d.root, k)) { LoopChain(k); }
    forall n: nat ensures ReadableChain(d.v, d.root, n) {}
    LoopChain(0);
    LoopChain(1);
    assert d.v.Nth(d.root, 0) == d.v.Nth(d.root, 1) && ReadableChain(d.v, d.root, 1 + 1);
    forall k: nat ensures UniformPage(d, k, File(e)) { LoopPage(k); }
    forall n: nat ensures NoStop(Slots(d, n), 0, ENTRIES * n, test) <==> n == 0 || !test(e) {
      UniformSlots(d, n, File(e));
      assert n > 0 ==> Stops(Slots(d, n)[0], test) == test(e);
    }
    ScanEndsWhen(d, test);
    assert test(e) ==> ReadableChain(d.v, d.root, 1) && !NoStop(Slots(d, 1), 0, ENTRIES * 1, test);
  }

  /** So the enumeration of the loop does not end, and the lookup of the name of its entry does. */
  lemma LoopNames()
    ensures var name := Extracted(seq(11, _ => 0x41));
            && (exists n: nat :: ScanEnds(Loop(), n, HasName(name)))
            && !exists n: nat :: ScanEnds(Loop(), n, Never())
  {
    var e: Entry := seq(32, _ => 0x41);
    var bytes: seq<Byte> := seq(11, _ => 0x41);
    assert e[..11] == bytes;
    FieldLengthIs(bytes[..8], 8);
    FieldLengthIs(bytes[8..], 3);
    ExtractedMatches(e);
    assert HasName(Extracted(bytes))(e);
    LoopScans(HasName(Extracted(bytes)));
    LoopScans(Never());
  }

  /** The cluster buffer with the rest behind a cluster untouched. */
  ghost predicate Prepared(d: Directory, buffer: array<Byte>)
    reads buffer
  {
    d.Fits() && buffer.Length == CLUSTER_BUFFER && buffer[d.v.ClusterSize()..] == d.rest
  }

  /** The cluster buffer as the scans find it on the stack. */
  method NewBuffer(d: Directory) returns (buffer: array<Byte>)
    requires d.Fits()
    ensures fresh(buffer) && Prepared(d, buffer)
  {
    var size := d.v.ClusterSize();
    buffer := new Byte[CLUSTER_BUFFER](i => if size <= i < size + |d.rest| then d.rest[i - size] else 0);
    assert buffer[size..] == d.rest;
  }

  /** The scan loops are about to read cluster k, having stopped in none before. */
  ghost predicate Scanning(d: Directory, n: nat, test: Entry -> bool, k: nat, current: nat) {
    ScanEnds(d, n, test) && k <= n && current == d.v.Nth(d.root, k) && NoStop(Slots(d, n), 0, ENTRIES * k, test)
  }

  /** The first half of a round of the scan loops: read cluster k, which fails only behind the
      last readable cluster. */
  method LoadRound(d: Directory, current: nat, buffer: array<Byte>, ghost n: nat, ghost test: Entry -> bool, ghost k: nat)
    returns (ok: bool)
    requires Scanning(d, n, test, k, current) && d.v.IsData(current) && Prepared(d, buffer)
    modifies buffer
    ensures ok <==> k < n
    ensures ok ==> Holds(buffer[..], Slots(d, n), ENTRIES * k)
    ensures Prepared(d, buffer)
  {
    ok := d.v.ReadSectors(d.v.ClusterLba(current), d.v.sectorsPerCluster, buffer);
    ScanStopsAt(d, n, test, k);
    if ok {
      assert buffer[..] == d.Page(k);
      LoadedCluster(d, n, k, buffer[..]);
    }
  }

  /** The end of a round: on to the next cluster of the chain. */
  method NextRound(d: Directory, current: nat, ghost n: nat, ghost test: Entry -> bool, ghost k: nat) returns (next: nat)
    requires Scanning(d, n, test, k, current) && k < n && d.v.IsData(current)
    requires NoStop(Slots(d, n), ENTRIES * k, ENTRIES * (k + 1), test)
    ensures Scanning(d, n, test, k + 1, next)
  {
    ScanStopsAt(d, n, test, k + 1);
    next := d.v.FollowClusterChain(current);
  }

  /** A scan that leaves the loop has passed all slots. */
  lemma ScanDone(d: Directory, n: nat, test: Entry -> bool, k: nat, current: nat)
    requires Scanning(d, n, test, k, current) && !d.v.IsData(current)
    ensures k == n
  {
    ScanStopsAt(d, n, test, k);
  }

  // ---------------------------------------------------------------- lookup

  /** The test for a name, as a value. */
  ghost function HasName(name: seq<Byte>): Entry -> bool {
    (e: Entry) => Matches(e, name)
  }

  datatype Scan = Continue | Stop | Found(entry: Entry)

  /** The inner loop of fat32_find_in_directory over one cluster. */
  method FindInCluster(buffer: seq<Byte>, name: seq<Byte>, ghost slots: seq<Slot>, ghost base: nat, ghost test: Entry -> bool)
    returns (s: Scan)
    requires CString(name) && test == HasName(name) && Holds(buffer, slots, base)
    ensures Search(slots, base, test) ==
            match s case Continue => Search(slots, base + ENTRIES, test) case Stop => None case Found(e) => Some(e)
    ensures s.Continue? ==> NoStop(slots, base, base + ENTRIES, test)
  {
    for j := 0 to ENTRIES
      invariant Search(slots, base, test) == Search(slots, base + j, test)
      invariant NoStop(slots, base, base + j, test)
    {
      match Classify(EntryAt(buffer, j)) {
        case Last =>
          return Stop;
        case Hidden =>
        case File(e) =>
          var same := CompareEntryName(e, name);
          if same {
            return Found(e);
          }
      }
    }
    return Continue;
  }

  /** One round of the outer loop of fat32_find_in_directory. */
  method FindRound(d: Directory, current: nat, name: seq<Byte>, buffer: array<Byte>,
                   ghost n: nat, ghost test: Entry -> bool, ghost k: nat)
    returns (s: Scan, next: nat)
    requires CString(name) && test == HasName(name)
    requires Scanning(d, n, test, k, current) && d.v.IsData(current) && Prepared(d, buffer)
    modifies buffer
    ensures Prepared(d, buffer)
    ensures Search(Slots(d, n), ENTRIES * k, test) ==
            match s case Continue => Search(Slots(d, n), ENTRIES * (k + 1), test) case Stop => None case Found(e) => Some(e)
    ensures s.Continue? ==> Scanning(d, n, test, k + 1, next)
  {
    next := 0;
    var ok := LoadRound(d, current, buffer, n, test, k);
    if !ok {
      return Stop, next;
    }
    s := FindInCluster(buffer[..], name, Slots(d, n), ENTRIES * k, test);
    if s.Continue? {
      next := NextRound(d, current, n, test, k);
    }
  }

  /** fat32_find_in_directory: the first visible match, or nothing. */
  method FindInDirectory(d: Directory, name: seq<Byte>, ghost n: nat) returns (found: Option<Entry>)
    requires ScanEnds(d, n, HasName(name)) && CString(name)
    ensures found == Search(Slots(d, n), 0, HasName(name))
  {
    var buffer := NewBuffer(d);
    var current := d.root;
    ghost var k, test := 0, HasName(name);
    while current >= 2 && !IsEoc(current)
      invariant Prepared(d, buffer) && Scanning(d, n, test, k, current)
      invariant Search(Slots(d, n), ENTRIES * k, test) == Search(Slots(d, n), 0, test)
      decreases n - k
    {
      var s, next := FindRound(d, current, name, buffer, n, test, k);
      match s {
        case Found(e) => return Some(e);
        case Stop => return None;
        case Continue =>
      }
      current, k := next, k + 1;
    }
    ScanDone(d, n, test, k, current);
    return None;
  }

  // ---------------------------------------------------------------- enumeration

  /** One call of the callback. */
  datatype Listed = Listed(name: seq<Byte>, size: Uint32)

  ghost function Describe(e: Entry): Listed {
    Listed(Extracted(e[..11]), FileSize(e))
  }

  /** Describe, as a value. */
  ghost function Describer(): Entry -> Listed {
    (e: Entry) => Describe(e)
  }

  ghost function DescribeAll(list: seq<Entry>, f: Entry -> Listed): seq<Listed> {
    if list == [] then [] else [f(list[0])] + DescribeAll(list[1..], f)
  }

  lemma ExtractedIsCString(e: seq<Byte>)
    requires |e| == 11
    ensures CString(Extracted(e))
  {
    forall i: nat | i < |Extracted(e)| ensures Extracted(e)[i] != 0 {
      ExtractedAt(e, i);
      assert i < FieldLength(e[..8]) ==> e[i] == e[..8][i];
      assert i > FieldLength(e[..8]) ==> e[7 + i - FieldLength(e[..8])] == e[8..][i - FieldLength(e[..8]) - 1];
    }
  }

  /** The string a zero-terminated buffer holds. */
  method CStringIn(buffer: array<Byte>, ghost text: seq<Byte>) returns (r: seq<Byte>)
    requires |text| < buffer.Length && buffer[..|text|] == text && buffer[|text|] == 0 && CString(text)
    ensures r == text
  {
    forall i | 0 <= i < |text| ensures buffer[i] != 0 {
      assert buffer[i] == text[i] && text[i] in text;
    }
    var length := 0;
    while buffer[length] != 0
      invariant 0 <= length <= |text|
      decreases |text| - length
    {
      length := length + 1;
    }
    r := buffer[..length];
  }

  /** What the callback is told about an entry. */
  method ListEntry(e: Entry, filename: array<Byte>) returns (listed: Listed)
    requires filename.Length == 13
    modifies filename
    ensures listed == Describe(e)
  {
    ExtractEntryName(filename, e);
    ExtractedIsCString(e[..11]);
    var name := CStringIn(filename, Extracted(e[..11]));
    listed := Listed(name, FileSize(e));
  }

  /** The calls of a whole enumeration and what it returns. */
  datatype Listing = Listing(calls: seq<Listed>, ok: bool)

  /** The listing of a scan that has made `calls` and is at slot i, when it returns `ok` in the end. */
  ghost function ListFrom(slots: seq<Slot>, i: nat, f: Entry -> Listed, calls: seq<Listed>, ok: bool): Listing
    decreases |slots| - i
  {
    if i >= |slots| || slots[i].Last? then Listing(calls, ok)
    else if slots[i].Hidden? then ListFrom(slots, i + 1, f, calls, ok)
    else ListFrom(slots, i + 1, f, calls + [f(slots[i].entry)], ok)
  }

  lemma {:induction false} ListFromIsVisible(slots: seq<Slot>, i: nat, f: Entry -> Listed, calls: seq<Listed>, ok: bool)
    ensures ListFrom(slots, i, f, calls, ok) == Listing(calls + DescribeAll(Visible(slots, i), f), ok)
    decreases |slots| - i
  {
    if i >= |slots| || slots[i].Last? {
    } else if slots[i].Hidden? {
      ListFromIsVisible(slots, i + 1, f, calls, ok);
    } else {
      var e, rest := slots[i].entry, Visible(slots, i + 1);
      ListFromIsVisible(slots, i + 1, f, calls + [f(e)], ok);
      assert ([e] + rest)[1..] == rest;
    }
  }

  /** The scan meets the end marker or the end of the chain, and no cluster that cannot be read. */
  ghost predicate ReachesEnd(d: Directory, n: nat)
    requires d.Fits() && ReadableChain(d.v, d.root, n)
  {
    d.v.IsData(d.v.Nth(d.root, n)) ==> !NoLast(Slots(d, n), 0, ENTRIES * n)
  }

  /** How a round of the enumeration ends. */
  datatype Round = More(calls: seq<Listed>, next: nat) | Done(listing: Listing)

  /** The listing in the end, when this is how the round before cluster k ended. */
  ghost function Outcome(slots: seq<Slot>, k: nat, f: Entry -> Listed, ok: bool, r: Round): Listing {
    match r
    case More(calls, _) => ListFrom(slots, ENTRIES * k, f, calls, ok)
    case Done(listing) => listing
  }

  /** The inner loop of fat32_enumerate_root over one cluster. */
  method ListCluster(buffer: seq<Byte>, calls: seq<Listed>, ghost slots: seq<Slot>, ghost base: nat, ghost f: Entry -> Listed, ghost ok: bool)
    returns (calls': seq<Listed>, more: bool)
    requires Holds(buffer, slots, base) && f == Describer()
    ensures more <==> NoLast(slots, base, base + ENTRIES)
    ensures ListFrom(slots, base, f, calls, ok) ==
            if more then ListFrom(slots, base + ENTRIES, f, calls', ok) else Listing(calls', ok)
  {
    calls' := calls;
    var filename := new Byte[13];
    for j := 0 to ENTRIES
      invariant NoLast(slots, base, base + j)
      invariant ListFrom(slots, base, f, calls, ok) == ListFrom(slots, base + j, f, calls', ok)
    {
      match Classify(EntryAt(buffer, j)) {
        case Last =>
          assert slots[base + j].Last?;
          return calls', false;
        case Hidden =>
        case File(e) =>
          var listed := ListEntry(e, filename);
          calls' := calls' + [listed];
      }
    }
    return calls', true;
  }

  /** One round of the outer loop of fat32_enumerate_root. */
  method ListRound(d: Directory, current: nat, buffer: array<Byte>, calls: seq<Listed>,
                   ghost n: nat, ghost k: nat, ghost f: Entry -> Listed, ghost ok: bool)
    returns (r: Round)
    requires Scanning(d, n, Never(), k, current) && d.v.IsData(current) && Prepared(d, buffer)
    requires f == Describer() && ok == ReachesEnd(d, n)
    modifies buffer
    ensures Prepared(d, buffer)
    ensures Outcome(Slots(d, n), k + 1, f, ok, r) == ListFrom(Slots(d, n), ENTRIES * k, f, calls, ok)
    ensures r.More? ==> Scanning(d, n, Never(), k + 1, r.next)
  {
    var loaded := LoadRound(d, current, buffer, n, Never(), k);
    NeverStops(Slots(d, n), 0, ENTRIES * k);
    if !loaded {
      return Done(Listing(calls, false));
    }
    var calls', more := ListCluster(buffer[..], calls, Slots(d, n), ENTRIES * k, f, ok);
    if !more {
      return Done(Listing(calls', true));
    }
    NeverStops(Slots(d, n), ENTRIES * k, ENTRIES * (k + 1));
    var next := NextRound(d, current, n, Never(), k);
    r := More(calls', next);
  }

  /** The outer loop of fat32_enumerate_root. */
  method ListAll(d: Directory, ghost n: nat) returns (listing: Listing)
    requires ScanEnds(d, n, Never())
    ensures listing == ListFrom(Slots(d, n), 0, Describer(), [], ReachesEnd(d, n))
  {
    ghost var k, f, ok := 0, Describer(), ReachesEnd(d, n);
    var buffer := NewBuffer(d);
    var r := More([], d.root);
    while r.More? && r.next >= 2 && !IsEoc(r.next)
      invariant Prepared(d, buffer) && (r.More? ==> Scanning(d, n, Never(), k, r.next))
      invariant Outcome(Slots(d, n), k, f, ok, r) == ListFrom(Slots(d, n), 0, f, [], ok)
      decreases r.More?, n - k
    {
      r := ListRound(d, r.next, buffer, r.calls, n, k, f, ok);
      k := k + 1;
    }
    if r.Done? {
      return r.listing;
    }
    ListDone(d, n, k, r.next, f, r.calls);
    return Listing(r.calls, true);
  }

  lemma ListDone(d: Directory, n: nat, k: nat, current: nat, f: Entry -> Listed, calls: seq<Listed>)
    requires Scanning(d, n, Never(), k, current) && !d.v.IsData(current)
    ensures ListFrom(Slots(d, n), ENTRIES * k, f, calls, ReachesEnd(d, n)) == Listing(calls, true)
  {
    ScanDone(d, n, Never(), k, current);
  }

  /** fat32_enumerate_root: reports the visible entries in order, and fails only for a root
      cluster below 2 or at a data cluster that cannot be read. */
  method EnumerateRoot(d: Directory, ghost n: nat) returns (calls: seq<Listed>, ok: bool)
    requires ScanEnds(d, n, Never())
    ensures calls == DescribeAll(Visible(Slots(d, n), 0), Describer())
    ensures ok <==> d.root >= 2 && ReachesEnd(d, n)
  {
    ListFromIsVisible(Slots(d, n), 0, Describer(), [], ReachesEnd(d, n));
    if d.root < 2 {
      ScanStopsAt(d, n, Never(), 0);
      return [], false;
    }
    var listing := ListAll(d, n);
    return listing.calls, listing.ok;
  }

  // ---------------------------------------------------------------- lookup against enumeration

  /** The lookup finds a name that the enumeration reports, as an entry with the same eleven name
      bytes, exactly when these are canonical and ASCII. */
  lemma ListedNameIsFound(slots: seq<Slot>, i: nat)
    requires i < |Visible(slots, 0)|
    ensures var e := Visible(slots, 0)[i];
            var found := Search(slots, 0, HasName(Describe(e).name));
            found.Some? && found.value[..11] == e[..11] <==> Canonical(e[..11]) && Ascii(e[..11])
  {
    var e := Visible(slots, 0)[i];
    var name := Describe(e).name;
    var found := Search(slots, 0, HasName(name));
    ExtractedMatches(e);
    SearchIsFirstVisible(slots, 0, HasName(name));
    assert HasName(name)(e) <==> Matches(e, name);
    assert found.Some? ==> HasName(name)(found.value) && Matches(found.value, name);
    assert found.None? ==> !HasName(name)(e);
  }

  lemma {:induction false} VisibleOfPrefix(slots: seq<Slot>, more: seq<Slot>, i: nat)
    requires i <= |slots| && !NoLast(slots, i, |slots|)
    ensures Visible(slots + more, i) == Visible(slots, i)
    decreases |slots| - i
  {
    if slots[i].Last? {
    } else {
      VisibleOfPrefix(slots, more, i + 1);
    }
  }

  /** More clusters add slots behind. */
  lemma {:induction false} SlotsExtend(d: Directory, n: nat, m: nat) returns (more: seq<Slot>)
    requires d.Fits() && ReadableChain(d.v, d.root, m) && n <= m
    ensures Slots(d, m) == Slots(d, n) + more
    decreases m - n
  {
    if n == m {
      more := [];
    } else {
      var head := SlotsExtend(d, n, m - 1);
      var last := SlotsOf(d.Page(m - 1));
      more := head + last;
      AppendAssociates(Slots(d, n), head, last);
    }
  }

  lemma AppendAssociates(a: seq<Slot>, b: seq<Slot>, c: seq<Slot>)
    ensures (a + b) + c == a + (b + c)
  {
  }

  lemma {:induction false} SearchOfPrefix(slots: seq<Slot>, more: seq<Slot>, i: nat, test: Entry -> bool)
    requires i <= |slots| && !NoStop(slots, i, |slots|, test)
    ensures Search(slots + more, i, test) == Search(slots, i, test)
    decreases |slots| - i
  {
    if Stops(slots[i], test) {
    } else {
      SearchOfPrefix(slots, more, i + 1, test);
    }
  }

  /** A longer extent shows a scan nothing more. */
  lemma ShorterScan(d: Directory, n: nat, m: nat, test: Entry -> bool)
    requires ScanEnds(d, n, test) && ReadableChain(d.v, d.root, m) && n < m
    ensures Search(Slots(d, n), 0, test) == Search(Slots(d, m), 0, test)
    ensures test == Never() ==> Visible(Slots(d, n), 0) == Visible(Slots(d, m), 0)
  {
    assert ReadableAt(d.v, d.root, n);
    var more := SlotsExtend(d, n, m);
    SearchOfPrefix(Slots(d, n), more, 0, test);
    if test == Never() {
      NeverStops(Slots(d, n), 0, ENTRIES * n);
      VisibleOfPrefix(Slots(d, n), more, 0);
    }
  }

  /** What a scan sees does not depend on the extent chosen for it: the match of a lookup, and the
      whole list of an enumeration. */
  lemma ScanUnique(d: Directory, n: nat, m: nat, test: Entry -> bool)
    requires ScanEnds(d, n, test) && ScanEnds(d, m, test)
    ensures Search(Slots(d, n), 0, test) == Search(Slots(d, m), 0, test)
    ensures test == Never() ==> Visible(Slots(d, n), 0) == Visible(Slots(d, m), 0)
  {
    if n < m {
      ShorterScan(d, n, m, test);
    } else if m < n {
      ShorterScan(d, m, n, test);
    }
  }

  // ---------------------------------------------------------------- clusters of fewer than 8 sectors

  /** How many entries lie on the disk in one cluster. */
  function OwnEntries(v: Volume): nat {
    16 * v.sectorsPerCluster
  }

  /** The slots that the first cluster itself holds. */
  ghost function OwnSlots(d: Directory): (r: seq<Slot>)
    requires d.Fits() && d.v.Readable(d.root)
    ensures |r| == OwnEntries(d.v)
  {
    SlotsOf(d.v.Cluster(d.root).value + d.rest)[..OwnEntries(d.v)]
  }

  /** They do not depend on the rest of the buffer. */
  lemma OwnSlotsAre(d: Directory, rest: seq<Byte>)
    requires d.Fits() && d.v.Readable(d.root) && |rest| == |d.rest|
    ensures OwnSlots(d) == OwnSlots(d.(rest := rest))
  {
    var cluster := d.v.Cluster(d.root).value;
    forall j | 0 <= j < OwnEntries(d.v) ensures EntryAt(cluster + d.rest, j) == EntryAt(cluster + rest, j) {
      assert EntryAt(cluster + d.rest, j) == EntryAt(cluster, j) == EntryAt(cluster + rest, j);
    }
  }

  lemma FirstSlots(d: Directory, n: nat)
    requires d.Fits() && ReadableChain(d.v, d.root, n) && n > 0
    ensures d.v.Readable(d.root) && Slots(d, n)[..ENTRIES] == SlotsOf(d.v.Cluster(d.root).value + d.rest)
  {
    assert d.v.Nth(d.root, 0) == d.root && ReadableAt(d.v, d.root, 0);
    assert Slots(d, 0) == [] && Slots(d, 1) == SlotsOf(d.Page(0));
    var more := SlotsExtend(d, 1, n);
  }

  lemma {:induction false} VisibleAppend(a: seq<Slot>, b: seq<Slot>, i: nat)
    requires i <= |a| && NoLast(a, i, |a|)
    ensures Visible(a + b, i) == Visible(a, i) + Visible(a + b, |a|)
    decreases |a| - i
  {
    if i == |a| {
    } else {
      VisibleAppend(a, b, i + 1);
    }
  }

  /** The visible list, split behind the entries of the first cluster. */
  lemma VisibleSplit(d: Directory, n: nat)
    requires d.Fits() && ReadableChain(d.v, d.root, n) && n > 0
    ensures d.v.Readable(d.root) && OwnSlots(d) <= Slots(d, n)
    ensures var own, slots := OwnSlots(d), Slots(d, n);
            Visible(slots, 0) == if NoLast(own, 0, |own|) then Visible(own, 0) + Visible(slots, |own|) else Visible(own, 0)
  {
    FirstSlots(d, n);
    var own, slots := OwnSlots(d), Slots(d, n);
    assert own == slots[..ENTRIES][..|own|] == slots[..|own|];
    assert slots == own + slots[|own|..];
    if NoLast(own, 0, |own|) {
      VisibleAppend(own, slots[|own|..], 0);
    } else {
      VisibleOfPrefix(own, slots[|own|..], 0);
    }
  }

  /** The slot behind the entries of the first cluster comes from the rest of the buffer. */
  lemma FirstOfRest(d: Directory, n: nat)
    requires d.Fits() && ReadableChain(d.v, d.root, n) && n > 0 && |d.rest| >= ENTRY_SIZE
    ensures OwnEntries(d.v) < |Slots(d, n)| && Slots(d, n)[OwnEntries(d.v)] == Classify(d.rest[..ENTRY_SIZE])
  {
    FirstSlots(d, n);
    var cluster, k := d.v.Cluster(d.root).value, OwnEntries(d.v);
    EntryBehind(cluster, d.rest, k);
    assert Slots(d, n)[k] == Slots(d, n)[..ENTRIES][k];
  }

  lemma EntryBehind(cluster: seq<Byte>, rest: seq<Byte>, k: nat)
    requires |cluster| == ENTRY_SIZE * k && |rest| >= ENTRY_SIZE
    ensures EntryAt(cluster + rest, k) == rest[..ENTRY_SIZE]
  {
  }

  /** What a scan sees depends on the disk alone. */
  ghost predicate SeesDiskOnly(d: Directory, n: nat)
    requires d.Fits() && ReadableChain(d.v, d.root, n)
  {
    forall rest: seq<Byte> :: |rest| == |d.rest| ==> Visible(Slots(d.(rest := rest), n), 0) == Visible(Slots(d, n), 0)
  }

  /** The scans of a directory see only what is on the disk if and only if clusters have 8 sectors or
      the end marker lies in the first cluster. Otherwise they read what the stack held before. */
  lemma DiskOnly(d: Directory, n: nat)
    requires d.Fits() && ReadableChain(d.v, d.root, n) && n > 0
    ensures d.v.Readable(d.root)
    ensures SeesDiskOnly(d, n) <==> d.v.sectorsPerCluster == 8 || !NoLast(OwnSlots(d), 0, OwnEntries(d.v))
  {
    VisibleSplit(d, n);
    if d.v.sectorsPerCluster == 8 {
      forall rest: seq<Byte> | |rest| == |d.rest| ensures d.(rest := rest) == d {}
    } else if !NoLast(OwnSlots(d), 0, OwnEntries(d.v)) {
      forall rest: seq<Byte> | |rest| == |d.rest|
        ensures Visible(Slots(d.(rest := rest), n), 0) == Visible(Slots(d, n), 0)
      {
        OwnSlotsAre(d, rest);
        VisibleSplit(d.(rest := rest), n);
      }
    } else {
      StaleEntries(d, n);
    }
  }

  /** Zeros in the rest end the scan behind the first cluster; other bytes make it see entries that
      are not on the disk. */
  lemma StaleEntries(d: Directory, n: nat)
    requires d.Fits() && ReadableChain(d.v, d.root, n) && n > 0 && d.v.sectorsPerCluster < 8
    requires d.v.Readable(d.root) && NoLast(OwnSlots(d), 0, OwnEntries(d.v))
    ensures !SeesDiskOnly(d, n)
  {
    var zeros: seq<Byte>, letters: seq<Byte> := seq(|d.rest|, _ => 0), seq(|d.rest|, _ => 0x41);
    var k, d0, d1 := OwnEntries(d.v), d.(rest := zeros), d.(rest := letters);
    OwnSlotsAre(d, zeros);
    OwnSlotsAre(d, letters);
    VisibleSplit(d0, n);
    VisibleSplit(d1, n);
    FirstOfRest(d0, n);
    FirstOfRest(d1, n);
    LetterIsFile(letters[..ENTRY_SIZE]);
    assert |Visible(Slots(d0, n), 0)| < |Visible(Slots(d1, n), 0)|;
  }

  lemma LetterIsFile(e: Entry)
    requires forall i :: 0 <= i < ENTRY_SIZE ==> e[i] == 0x41
    ensures Classify(e).File?
  {
    assert And(0x41, 8) == 0 by {
      assert And(4, 0) == 0 && And(8, 1) == 0 && And(16, 2) == 0 && And(32, 4) == 0;
    }
  }

  // ---------------------------------------------------------------- open and close

  /** The handle of an entry at the start of its file. */
  function NewHandle(e: Entry): Handle {
    Handle(FirstCluster(e), FileSize(e), 0, true)
  }

  /** A successful open of an entry: the first closed handle is filled, and no other is touched. */
  ghost predicate OpenStep(t: seq<Handle>, fd: nat, e: Entry, t': seq<Handle>) {
    fd < |t| && !t[fd].open && (forall i :: 0 <= i < fd ==> t[i].open) && t' == t[fd := NewHandle(e)]
  }

  /** fat32_open with n the extent of the root directory scan. The first closed handle is used;
      the call succeeds exactly when there is one and some visible entry has the name. */
  method Open(t: FileTable, d: Directory, filename: Option<seq<Byte>>, ghost n: nat) returns (fd: int)
    requires d.v == t.v && (filename.Some? ==> CString(filename.value))
    requires filename.Some? && (exists i :: 0 <= i < t.files.Length && !t.files[i].open) ==> ScanEnds(d, n, HasName(filename.value))
    modifies t.files
    ensures fd == -1 ==> t.files[..] == old(t.files[..])
    ensures fd == -1 <==>
              || filename.None?
              || (forall i :: 0 <= i < t.files.Length ==> old(t.files[i].open))
              || Search(Slots(d, n), 0, HasName(filename.value)).None?
    ensures fd != -1 ==>
              && 0 <= fd && ScanEnds(d, n, HasName(filename.value))
              && var e := Search(Slots(d, n), 0, HasName(filename.value)).value;
                 OpenStep(old(t.files[..]), fd, e, t.files[..])
  {
    if filename.None? {
      return -1;
    }
    for i := 0 to t.files.Length
      invariant t.files[..] == old(t.files[..])
      invariant forall j :: 0 <= j < i ==> t.files[j].open
    {
      if !t.files[i].open {
        var found := FindInDirectory(d, filename.value, n);
        if found.None? {
          return -1;
        }
        t.files[i] := NewHandle(found.value);
        return i;
      }
    }
    return -1;
  }

  /** fat32_close. */
  method Close(t: FileTable, fd: int)
    modifies t.files
    ensures t.files[..] == if 0 <= fd < t.files.Length
                           then old(t.files[..])[fd := old(t.files[fd]).(open := false)] else old(t.files[..])
  {
    if fd >= 0 && fd < t.files.Length {
      t.files[fd] := t.files[fd].(open := false);
    }
  }
}
