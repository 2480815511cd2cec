/** Directory entries as they are written (Microsoft FAT32 File System Specification, "FAT Directory
    Structure"), as the partner of the scans: the visible entries of a written directory are its files. */
module Fat32Records {
  import opened Wrappers
  import opened Words
  import opened Sequences
  import opened Fat32Names
  import opened Fat32Volume
  import opened Fat32Files
  import opened Fat32Image
  import opened Fat32Directory

  /** A file with its fields, a deleted entry, a part of a long name, and a volume label. */
  datatype Record =
    | FileRecord(name: seq<Byte>, attributes: Byte, created: seq<Byte>, cluster: Uint32, written: seq<Byte>, size: Uint32)
    | DeletedRecord(body: seq<Byte>)
    | LongNameRecord(head: seq<Byte>, body: seq<Byte>)
    | LabelRecord(head: seq<Byte>, attributes: Byte, body: seq<Byte>)

  /** The fields have their widths. A file begins neither with the end marker nor with the mark of a
      deleted entry and has bit 3 of its attributes clear; a label has it set. */
  ghost predicate RecordOk(r: Record) {
    match r
    case FileRecord(name, attributes, created, _, written, _) =>
      |name| == 11 && name[0] != 0 && name[0] != 0xE5 && attributes % 16 < 8 && |created| == 8 && |written| == 4
    case DeletedRecord(body) => |body| == 31
    case LongNameRecord(head, body) => |head| == 11 && head[0] != 0 && |body| == 20
    case LabelRecord(head, attributes, body) => |head| == 11 && head[0] != 0 && attributes % 16 >= 8 && |body| == 20
  }

  /** Two bytes, least significant first. */
  function Low16(n: nat): seq<Byte> {
    [n % 0x100, n / 0x100 % 0x100]
  }

  ghost function RecordBytes(r: Record): (e: Entry)
    requires RecordOk(r)
  {
    match r
    case FileRecord(name, attributes, created, cluster, written, size) =>
      FileHead(name, attributes, created) + (Low16(cluster / 0x1_0000) + written + Low16(cluster) + (Low16(size) + Low16(size / 0x1_0000)))
    case DeletedRecord(body) => [0xE5] + body
    case LongNameRecord(head, body) => head + [0x0F] + body
    case LabelRecord(head, attributes, body) => head + [attributes] + body
  }

  function FileHead(name: seq<Byte>, attributes: Byte, created: seq<Byte>): (s: seq<Byte>)
    requires |name| == 11 && |created| == 8
    ensures |s| == 20
  {
    name + [attributes] + created
  }

  /** Files are visible; deleted entries, long names and labels are not. */
  lemma ClassifyRecord(r: Record)
    requires RecordOk(r)
    ensures Classify(RecordBytes(r)) == if r.FileRecord? then File(RecordBytes(r)) else Hidden
  {
    var e := RecordBytes(r);
    BitThree(e[11]);
    assert Pow2(3) == 8;
    AndMask(e[11], 3);
    match r
    case FileRecord(name, attributes, created, _, _, _) =>
      assert e[0] == FileHead(name, attributes, created)[0] == name[0];
      assert e[11] == FileHead(name, attributes, created)[11] == attributes;
    case DeletedRecord(body) =>
    case LongNameRecord(head, body) =>
      assert e[0] == head[0] && e[11] == 0x0F;
    case LabelRecord(head, attributes, body) =>
      assert e[0] == head[0] && e[11] == attributes;
  }

  lemma LeOfLow16(n: nat)
    ensures Le(Low16(n)) == n % 0x1_0000
  {
    var s := Low16(n);
    assert s[1..] == [n / 0x100 % 0x100] && s[1..][1..] == [];
    assert Le(s[1..]) == n / 0x100 % 0x100;
  }

  lemma {:induction false} LeAppend(a: seq<Byte>, b: seq<Byte>)
    ensures Le(a + b) == Le(a) + Pow2(8 * |a|) * Le(b)
  {
    if a == [] {
      assert a + b == b;
    } else {
      LeAppend(a[1..], b);
      assert (a + b)[1..] == a[1..] + b;
      Pow2Plus8(8 * (|a| - 1));
      assert 0x100 * (Pow2(8 * (|a| - 1)) * Le(b)) == 0x100 * Pow2(8 * (|a| - 1)) * Le(b);
    }
  }

  lemma LeOfWords(low: nat, high: nat)
    ensures Le(Low16(low) + Low16(high)) == low % 0x1_0000 + 0x1_0000 * (high % 0x1_0000)
  {
    LeAppend(Low16(low), Low16(high));
    LeOfLow16(low);
    LeOfLow16(high);
    Pow2Plus8(0);
    Pow2Plus8(8);
  }

  /** The fields of a file entry read back. */
  lemma FieldsReadBack(r: Record)
    requires RecordOk(r) && r.FileRecord?
    ensures var e := RecordBytes(r);
            e[..11] == r.name && FirstCluster(e) == r.cluster && FileSize(e) == r.size
  {
    var e, head := RecordBytes(r), FileHead(r.name, r.attributes, r.created);
    var high, low, size := Low16(r.cluster / 0x1_0000), Low16(r.cluster), Low16(r.size) + Low16(r.size / 0x1_0000);
    assert e == head + (high + r.written + low + size);
    assert e[..11] == head[..11] == r.name;
    TailFields(head, high, r.written, low, size);
    LeOfHalves(r.cluster);
    LeOfHalves(r.size);
  }

  lemma LeOfHalves(n: Uint32)
    ensures Le(Low16(n) + Low16(n / 0x1_0000)) == n
  {
    LeOfWords(n, n / 0x1_0000);
    assert n / 0x1_0000 < 0x1_0000;
  }

  lemma TailFields(head: seq<Byte>, high: seq<Byte>, written: seq<Byte>, low: seq<Byte>, size: seq<Byte>)
    requires |head| == 20 && |high| == 2 && |written| == 4 && |low| == 2 && |size| == 4
    ensures var e := head + (high + written + low + size); e[20..22] == high && e[26..28] == low && e[28..32] == size
  {
  }

  // ---------------------------------------------------------------- directories

  ghost predicate RecordsOk(records: seq<Record>) {
    forall i :: 0 <= i < |records| ==> RecordOk(records[i])
  }

  /** The entries of all records, one after the other. */
  ghost function RecordsBytes(records: seq<Record>): (s: seq<Byte>)
    requires RecordsOk(records)
    ensures |s| == ENTRY_SIZE * |records|
  {
    if records == [] then [] else RecordBytes(records[0]) + RecordsBytes(records[1..])
  }

  /** The entries of the files, in order. */
  ghost function Files(records: seq<Record>, i: nat): seq<Entry>
    requires RecordsOk(records)
    decreases |records| - i
  {
    if i >= |records| then []
    else (if records[i].FileRecord? then [RecordBytes(records[i])] else []) + Files(records, i + 1)
  }

  lemma {:induction false} EntryOfRecord(records: seq<Record>, rest: seq<Byte>, i: nat)
    requires RecordsOk(records) && i < |records|
    ensures EntryAt(RecordsBytes(records) + rest, i) == RecordBytes(records[i])
  {
    var first, more := RecordBytes(records[0]), RecordsBytes(records[1..]);
    if i == 0 {
      assert RecordsBytes(records) + rest == first + (more + rest);
    } else {
      EntryOfRecord(records[1..], rest, i - 1);
      assert RecordsBytes(records) + rest == first + (more + rest);
      EntryShift(first, more + rest, i - 1);
    }
  }

  lemma EntryShift(first: seq<Byte>, rest: seq<Byte>, i: nat)
    requires |first| == ENTRY_SIZE && ENTRY_SIZE * i + ENTRY_SIZE <= |rest|
    ensures EntryAt(first + rest, i + 1) == EntryAt(rest, i)
  {
  }

  /** The pages of the first n clusters of a directory. */
  ghost function Pages(d: Directory, n: nat): (s: seq<Byte>)
    requires d.Fits() && ReadableChain(d.v, d.root, n)
    ensures |s| == CLUSTER_BUFFER * n
  {
    if n == 0 then [] else Pages(d, n - 1) + d.Page(n - 1)
  }

  /** An entry of two strings of whole entries. */
  lemma EntryOfAppend(head: seq<Byte>, last: seq<Byte>, k: nat, i: nat)
    requires |head| == ENTRY_SIZE * k && ENTRY_SIZE * i + ENTRY_SIZE <= |head| + |last|
    ensures EntryAt(head + last, i) == if i < k then EntryAt(head, i) else EntryAt(last, i - k)
  {
  }

  lemma {:induction false} SlotsArePages(d: Directory, n: nat, i: nat)
    requires d.Fits() && ReadableChain(d.v, d.root, n) && i < ENTRIES * n
    ensures Slots(d, n)[i] == Classify(EntryAt(Pages(d, n), i))
  {
    if n == 0 {
    } else {
      var head, last, k := Pages(d, n - 1), d.Page(n - 1), ENTRIES * (n - 1);
      EntryOfAppend(head, last, k, i);
      SlotsOfMore(d, n, i);
      if i < k {
        SlotsArePages(d, n - 1, i);
      }
    }
  }

  /** A slot of n clusters lies in the first n - 1 or in the last one. */
  lemma SlotsOfMore(d: Directory, n: nat, i: nat)
    requires d.Fits() && ReadableChain(d.v, d.root, n) && n > 0 && i < ENTRIES * n
    ensures var k := ENTRIES * (n - 1);
            Slots(d, n)[i] == if i < k then Slots(d, n - 1)[i] else Classify(EntryAt(d.Page(n - 1), i - k))
  {
    var k, last := ENTRIES * (n - 1), SlotsOf(d.Page(n - 1));
    assert i >= k ==> Slots(d, n)[i] == last[i - k];
  }

  /** Slots that hold the records, and behind them nothing or the end marker. */
  ghost predicate HoldRecords(slots: seq<Slot>, records: seq<Record>)
    requires RecordsOk(records)
  {
    && |records| <= |slots| && (|records| < |slots| ==> slots[|records|].Last?)
    && forall i :: 0 <= i < |records| ==> slots[i] == Classify(RecordBytes(records[i]))
  }

  lemma {:induction false} VisibleFiles(slots: seq<Slot>, records: seq<Record>, i: nat)
    requires RecordsOk(records) && HoldRecords(slots, records) && i <= |records|
    ensures Visible(slots, i) == Files(records, i)
    decreases |records| - i
  {
    if i == |records| {
    } else {
      VisibleFiles(slots, records, i + 1);
      ClassifyRecord(records[i]);
    }
  }

  /** A directory whose pages are these records and then nothing, or an entry that begins with zero:
      the scans see exactly its files, in order. */
  lemma DirectoryReadBack(d: Directory, n: nat, records: seq<Record>, rest: seq<Byte>)
    requires d.Fits() && ReadableChain(d.v, d.root, n) && RecordsOk(records)
    requires Pages(d, n) == RecordsBytes(records) + rest && (rest != [] ==> rest[0] == 0)
    ensures Visible(Slots(d, n), 0) == Files(records, 0)
  {
    var slots := Slots(d, n);
    assert |slots| * ENTRY_SIZE == |Pages(d, n)| == |records| * ENTRY_SIZE + |rest|;
    forall i | 0 <= i < |records| ensures slots[i] == Classify(RecordBytes(records[i])) {
      SlotsArePages(d, n, i);
      EntryOfRecord(records, rest, i);
    }
    if |records| < |slots| {
      SlotsArePages(d, n, |records|);
      EntryBehind(RecordsBytes(records), rest, |records|);
    }
    VisibleFiles(slots, records, 0);
  }

  // ---------------------------------------------------------------- from the disk

  lemma {:induction false} PagesReadBack(d: Directory, clusters: seq<seq<Sector>>, links: seq<nat>, high: seq<nat>, list: seq<nat>, n: nat)
    requires Fat32Image.Holds(d.v, clusters, links, high) && Linked(links, list, |clusters|) && n <= |list|
    requires d.Fits() && d.v.sectorsPerCluster == 8 && d.root == list[0] + 2
    ensures ReadableChain(d.v, d.root, n) && Pages(d, n) == JoinList(clusters, list, n)
    decreases n
  {
    ReadablePrefix(d.v, clusters, links, high, list, n);
    if n == 0 {
    } else {
      PagesReadBack(d, clusters, links, high, list, n - 1);
      ReadableReadBack(d.v, clusters, links, high, list, n - 1);
      assert d.Page(n - 1) == Join(clusters[list[n - 1]]) + d.rest == Join(clusters[list[n - 1]]);
    }
  }

  /** A directory written as records into linked clusters of 8 sectors: every scan of it ends, and it
      sees exactly the files, in order. */
  lemma RootReadBack(d: Directory, clusters: seq<seq<Sector>>, links: seq<nat>, high: seq<nat>, list: seq<nat>,
                     records: seq<Record>, rest: seq<Byte>, test: Entry -> bool)
    requires Fat32Image.Holds(d.v, clusters, links, high) && Linked(links, list, |clusters|)
    requires d.Fits() && d.v.sectorsPerCluster == 8 && d.root == list[0] + 2 && RecordsOk(records)
    requires JoinList(clusters, list, |list|) == RecordsBytes(records) + rest && (rest != [] ==> rest[0] == 0)
    ensures ScanEnds(d, |list|, test) && Visible(Slots(d, |list|), 0) == Files(records, 0)
  {
    var n := |list|;
    PagesReadBack(d, clusters, links, high, list, n);
    ReadablePrefix(d.v, clusters, links, high, list, n);
    NthReadBack(d.v, clusters, links, high, list, n);
    DirectoryReadBack(d, n, records, rest);
  }

  /** A file record whose first cluster begins a written chain: opening it gives a handle on exactly
      the bytes of that chain, cut at the size in the record. */
  lemma RecordedFile(v: Volume, clusters: seq<seq<Sector>>, links: seq<nat>, high: seq<nat>, list: seq<nat>, r: Record)
    requires Fat32Image.Holds(v, clusters, links, high) && Linked(links, list, |clusters|)
    requires RecordOk(r) && r.FileRecord? && r.cluster == list[0] + 2 && r.size <= Span(|list|, v.ClusterSize())
    ensures var h := NewHandle(RecordBytes(r));
            && SoundFile(v, h, |list|) && r.size <= |JoinList(clusters, list, |list|)|
            && Contents(v, h, |list|) == JoinList(clusters, list, |list|)[..r.size]
  {
    FieldsReadBack(r);
    FileReadBack(v, clusters, links, high, list, NewHandle(RecordBytes(r)));
  }

  /** What the enumeration reports of a file: the name from its eleven bytes, and its size. */
  lemma DescribeRecord(r: Record)
    requires RecordOk(r) && r.FileRecord?
    ensures Describe(RecordBytes(r)) == Listed(Extracted(r.name), r.size)
    ensures NewHandle(RecordBytes(r)) == Handle(r.cluster, r.size, 0, true)
  {
    FieldsReadBack(r);
  }
}
