/** Open files of fat32.c. A handle keeps a byte position; every read walks the cluster chain
    from its start again and copies slice by slice. */
module Fat32Files {
  import opened Words
  import opened Fat32Volume

  datatype Handle = Handle(firstCluster: Uint32, fileSize: Uint32, position: Uint32, open: bool)

  /** Conversion of an unsigned 32-bit value to the `int` the function returns: the same value modulo
      2^32 in the range of an int. */
  function Int32(n: Uint32): (r: int)
    ensures (r == n || r + U32 == n) && -0x8000_0000 <= r < 0x8000_0000
  {
    if n < 0x8000_0000 then n else n - U32
  }

  // ---------------------------------------------------------------- position to cluster

  /** p / size, by repeated subtraction. */
  function Quot(p: nat, size: nat): nat
    requires size > 0
  {
    if p < size then 0 else 1 + Quot(p - size, size)
  }

  /** p % size. */
  function Rem(p: nat, size: nat): (r: nat)
    requires size > 0
    ensures r < size
  {
    if p < size then p else Rem(p - size, size)
  }

  /** Quot and Rem are the operators / and % of the C code. */
  lemma {:induction false} QuotRemAreDivMod(p: nat, size: nat)
    requires size > 0
    ensures Quot(p, size) == p / size && Rem(p, size) == p % size
  {
    if p < size {
      DivUnique(p, 0, p, size);
    } else {
      QuotRemAreDivMod(p - size, size);
      DivStep(p, size);
    }
  }

  lemma DivStep(p: nat, size: nat)
    requires 0 < size <= p
    ensures p / size == (p - size) / size + 1 && p % size == (p - size) % size
  {
    var q, r := (p - size) / size, (p - size) % size;
    assert (p - size) == q * size + r;
    assert p == (q + 1) * size + r;
    DivUnique(p, q + 1, r, size);
  }

  lemma DivUnique(p: nat, q: nat, r: nat, size: nat)
    requires size > 0 && r < size && p == q * size + r
    ensures p / size == q && p % size == r
  {
    var d := p / size - q;
    assert d * size == r - p % size;
    assert d == 0;
  }

  lemma {:induction false} SameCluster(p: nat, i: nat, size: nat)
    requires size > 0 && Rem(p, size) + i < size
    ensures Quot(p + i, size) == Quot(p, size) && Rem(p + i, size) == Rem(p, size) + i
  {
    if p < size {
    } else {
      SameCluster(p - size, i, size);
    }
  }

  lemma {:induction false} NextCluster(p: nat, i: nat, size: nat)
    requires size > 0 && Rem(p, size) + i == size
    ensures Quot(p + i, size) == Quot(p, size) + 1 && Rem(p + i, size) == 0
  {
    if p < size {
    } else {
      NextCluster(p - size, i, size);
    }
  }

  lemma {:induction false} QuotMonotone(p: nat, i: nat, size: nat)
    requires size > 0
    ensures Quot(p, size) <= Quot(p + i, size)
  {
    if p < size {
    } else {
      QuotMonotone(p - size, i, size);
    }
  }

  // ---------------------------------------------------------------- bytes of a file

  /** The cluster that holds position p. */
  ghost function ClusterAt(v: Volume, first: nat, p: nat): nat
    requires v.sectorsPerCluster > 0
  {
    v.Nth(first, Quot(p, v.ClusterSize()))
  }

  /** Position p lies in a readable data cluster of the chain, and b is its byte. */
  ghost predicate ByteAt(v: Volume, first: nat, p: nat, b: Byte)
    requires v.sectorsPerCluster > 0
  {
    v.Readable(ClusterAt(v, first, p)) && v.Cluster(ClusterAt(v, first, p)).value[Rem(p, v.ClusterSize())] == b
  }

  ghost predicate BytesAt(v: Volume, first: nat, p: nat, data: seq<Byte>)
    requires v.sectorsPerCluster > 0
  {
    forall i :: 0 <= i < |data| ==> ByteAt(v, first, p + i, data[i])
  }

  lemma BytesAppend(v: Volume, first: nat, p: nat, a: seq<Byte>, q: nat, b: seq<Byte>)
    requires v.sectorsPerCluster > 0 && q == p + |a| && BytesAt(v, first, p, a) && BytesAt(v, first, q, b)
    ensures BytesAt(v, first, p, a + b)
  {
    var ab := a + b;
    forall i | 0 <= i < |ab| ensures ByteAt(v, first, p + i, ab[i]) {
      if i >= |a| {
        assert ab[i] == b[i - |a|];
        assert p + i == q + (i - |a|);
      }
    }
  }

  /** A slice of one cluster. */
  lemma SliceBytes(v: Volume, first: nat, p: nat, n: nat)
    requires v.sectorsPerCluster > 0 && v.Readable(ClusterAt(v, first, p))
    requires Rem(p, v.ClusterSize()) + n <= v.ClusterSize()
    ensures var k := Rem(p, v.ClusterSize());
            BytesAt(v, first, p, v.Cluster(ClusterAt(v, first, p)).value[k..k + n])
  {
    var k, cluster := Rem(p, v.ClusterSize()), v.Cluster(ClusterAt(v, first, p)).value;
    var slice := cluster[k..k + n];
    forall i | 0 <= i < |slice| ensures ByteAt(v, first, p + i, slice[i]) {
      SameCluster(p, i, v.ClusterSize());
    }
  }

  // ---------------------------------------------------------------- fat32_read

  /** What a read of `want` bytes does: `data` is the longest prefix of the wanted bytes that
      lies in readable data clusters. The call reports its length, or -1 when it stopped at a
      data cluster that could not be read. */
  ghost predicate ReadOutcome(v: Volume, h: Handle, want: nat, data: seq<Byte>, r: int)
    requires v.sectorsPerCluster > 0
  {
    && |data| <= want && want < U32
    && BytesAt(v, h.firstCluster, h.position, data)
    && (|data| < want ==> !v.Readable(ClusterAt(v, h.firstCluster, h.position + |data|)))
    && r == if |data| < want && v.IsData(ClusterAt(v, h.firstCluster, h.position + |data|))
            then -1 else Int32(|data|)
  }

  function Wanted(h: Handle, size: nat): nat {
    if h.position >= h.fileSize then 0 else Min(size, h.fileSize - h.position)
  }

  class FileTable {
    const v: Volume
    const files: array<Handle>

    constructor (v: Volume, maxFiles: nat)
      ensures this.v == v && fresh(files) && files.Length == maxFiles
      ensures forall i :: 0 <= i < maxFiles ==> !files[i].open
    {
      this.v := v;
      files := new Handle[maxFiles](_ => Handle(0, 0, 0, false));
    }

    predicate IsOpen(fd: int)
      reads this, files
    {
      0 <= fd < files.Length && files[fd].open
    }

    /** The FAT lookups a read makes stay inside the table. */
    ghost predicate CanRead(h: Handle, want: nat)
      reads this
    {
      && 1 <= v.sectorsPerCluster <= 8
      && v.ChainInTable(h.firstCluster, Quot(h.position + want, v.ClusterSize()))
    }

    /** fat32_read. The position moves behind the bytes read, also when the call reports -1. */
    method Read(fd: int, buffer: array?<Byte>, size: nat) returns (r: int, ghost data: seq<Byte>)
      requires IsOpen(fd) && buffer != null ==>
                 CanRead(files[fd], Wanted(files[fd], size)) && Wanted(files[fd], size) <= buffer.Length
      modifies files, buffer
      ensures !old(IsOpen(fd)) || buffer == null ==>
                r == -1 && files[..] == old(files[..]) && (buffer != null ==> buffer[..] == old(buffer[..]))
      ensures old(IsOpen(fd)) && buffer != null ==>
                && ReadStep(v, old(files[..]), ReadEvent(fd, size, data, r), files[..])
                && |data| <= buffer.Length && buffer[..|data|] == data
                && (forall j :: |data| <= j < buffer.Length ==> buffer[j] == old(buffer[j]))
    {
      data := [];
      if buffer == null || fd < 0 || fd >= files.Length || !files[fd].open {
        return -1, [];
      }
      var h := files[fd];
      if h.position >= h.fileSize {
        return 0, [];
      }
      var remaining := h.fileSize - h.position;
      var count := if size > remaining then remaining else size;
      QuotMonotone(h.position, count, v.ClusterSize());
      var cluster := SkipTo(h.firstCluster, Quot(h.position, v.sectorsPerCluster * SECTOR_SIZE));
      r, data := CopyLoop(fd, buffer, cluster, count);
    }

    /** The skip loop of fat32_read. */
    method SkipTo(first: nat, skip: nat) returns (cluster: nat)
      requires v.ChainInTable(first, skip)
      ensures cluster == v.Nth(first, skip)
    {
      cluster := first;
      var i := 0;
      while i < skip && !IsEoc(cluster)
        invariant i <= skip && cluster == v.Nth(first, i)
      {
        assert v.InTable(v.Nth(first, i));
        cluster := v.FollowClusterChain(cluster);
        i := i + 1;
      }
      EocStays(v, first, i, skip);
    }

    /** The copy loop of fat32_read. It ends on every FAT, a cyclic one included, because the
        count of bytes still wanted falls in each round. */
    method CopyLoop(fd: int, buffer: array<Byte>, start: nat, want: nat) returns (r: int, ghost data: seq<Byte>)
      requires IsOpen(fd) && CanRead(files[fd], want)
      requires want <= buffer.Length && files[fd].position + want < U32
      requires start == ClusterAt(v, files[fd].firstCluster, files[fd].position)
      modifies files, buffer
      ensures ReadOutcome(v, old(files[fd]), want, data, r)
      ensures files[..] == old(files[..])[fd := old(files[fd]).(position := old(files[fd]).position + |data|)]
      ensures |data| <= buffer.Length && buffer[..|data|] == data
      ensures forall j :: |data| <= j < buffer.Length ==> buffer[j] == old(buffer[j])
    {
      ghost var h, before := files[fd], buffer[..];
      ghost var first := h.firstCluster;
      var clusterBuffer := new Byte[CLUSTER_BUFFER];
      var clusterSize := v.sectorsPerCluster * SECTOR_SIZE;
      var cluster, offset, count, bufferOffset := start, files[fd].position, want, 0;
      data := [];
      while count > 0 && cluster >= 2 && !IsEoc(cluster)
        invariant 0 <= count && |data| == bufferOffset && bufferOffset + count == want && offset == h.position + bufferOffset
        invariant cluster == ClusterAt(v, first, offset)
        invariant files[..] == old(files[..])[fd := h.(position := offset)]
        invariant BytesAt(v, first, h.position, data)
        invariant buffer[..bufferOffset] == data
        invariant forall j :: bufferOffset <= j < buffer.Length ==> buffer[j] == before[j]
        decreases count
      {
        var ok, readBytes, slice := ReadSlice(cluster, offset, count, buffer, bufferOffset, clusterBuffer, first);
        if !ok {
          return -1, data;
        }
        BytesAppend(v, first, h.position, data, offset, slice);
        StepTo(first, offset, readBytes, h.position + want);
        data := data + slice;
        bufferOffset, count, offset := bufferOffset + readBytes, count - readBytes, offset + readBytes;
        files[fd] := files[fd].(position := files[fd].position + readBytes);
        if Rem(offset, clusterSize) == 0 {
          cluster := v.FollowClusterChain(cluster);
        }
      }
      r := Int32(bufferOffset);
    }

    /** The first half of the loop body: read the cluster and copy the part that is wanted. */
    method ReadSlice(cluster: nat, offset: nat, count: nat, buffer: array<Byte>, bufferOffset: nat,
                     clusterBuffer: array<Byte>, ghost first: nat)
      returns (ok: bool, readBytes: nat, ghost slice: seq<Byte>)
      requires 1 <= v.sectorsPerCluster <= 8 && clusterBuffer.Length == CLUSTER_BUFFER && buffer != clusterBuffer
      requires v.IsData(cluster) && cluster == ClusterAt(v, first, offset)
      requires 0 < count && bufferOffset + count <= buffer.Length
      modifies buffer, clusterBuffer
      ensures ok <==> v.Readable(cluster)
      ensures !ok ==> buffer[..] == old(buffer[..])
      ensures ok ==> 0 < readBytes <= count && Rem(offset, v.ClusterSize()) + readBytes <= v.ClusterSize()
      ensures ok ==> |slice| == readBytes && BytesAt(v, first, offset, slice)
      ensures ok ==> buffer[..bufferOffset + readBytes] == old(buffer[..bufferOffset]) + slice
      ensures ok ==> forall j :: bufferOffset + readBytes <= j < buffer.Length ==> buffer[j] == old(buffer[j])
    {
      readBytes, slice := 0, [];
      ok := v.ReadSectors(v.ClusterLba(cluster), v.sectorsPerCluster, clusterBuffer);
      if !ok {
        return;
      }
      var clusterSize := v.sectorsPerCluster * SECTOR_SIZE;
      var clusterOffset := Rem(offset, clusterSize);
      readBytes := clusterSize - clusterOffset;
      if readBytes > count {
        readBytes := count;
      }
      ghost var all := v.Cluster(cluster).value;
      slice := all[clusterOffset..clusterOffset + readBytes];
      SliceBytes(v, first, offset, readBytes);
      SliceOfPrefix(clusterBuffer[..], all, clusterOffset, readBytes);
      CopyBytes(buffer, bufferOffset, clusterBuffer, clusterOffset, readBytes);
    }

    /** Moving to the end of the cluster moves to the next cluster of the chain, by a FAT entry
        that may be looked up; a shorter move stays in the cluster. */
    lemma StepTo(first: nat, offset: nat, n: nat, end: nat)
      requires 1 <= v.sectorsPerCluster && 0 < n && offset + n <= end
      requires Rem(offset, v.ClusterSize()) + n <= v.ClusterSize()
      requires v.ChainInTable(first, Quot(end, v.ClusterSize()))
      requires !IsEoc(ClusterAt(v, first, offset))
      ensures Rem(offset + n, v.ClusterSize()) == 0 ==> v.InTable(ClusterAt(v, first, offset))
      ensures ClusterAt(v, first, offset + n) ==
              if Rem(offset + n, v.ClusterSize()) == 0 then v.Follow(ClusterAt(v, first, offset))
              else ClusterAt(v, first, offset)
    {
      QuotMonotone(offset + n, end - offset - n, v.ClusterSize());
      if Rem(offset, v.ClusterSize()) + n == v.ClusterSize() {
        NextCluster(offset, n, v.ClusterSize());
      } else {
        SameCluster(offset, n, v.ClusterSize());
      }
    }

    /** The innermost loop of fat32_read. */
    method CopyBytes(buffer: array<Byte>, at: nat, from: array<Byte>, start: nat, n: nat)
      requires buffer != from && at + n <= buffer.Length && start + n <= from.Length
      modifies buffer
      ensures buffer[..at + n] == old(buffer[..at]) + from[start..start + n]
      ensures forall j :: at + n <= j < buffer.Length ==> buffer[j] == old(buffer[j])
    {
      for i := 0 to n
        invariant forall j :: 0 <= j < buffer.Length ==>
                    buffer[j] == if at <= j < at + i then from[start + j - at] else old(buffer[j])
      {
        buffer[at + i] := from[start + i];
      }
    }
  }

  lemma SliceOfPrefix(s: seq<Byte>, prefix: seq<Byte>, k: nat, n: nat)
    requires prefix <= s && k + n <= |prefix|
    ensures s[k..k + n] == prefix[k..k + n]
  {
  }

  lemma {:induction false} EocStays(v: Volume, first: nat, i: nat, k: nat)
    requires i <= k && (i == k || IsEoc(v.Nth(first, i)))
    ensures v.Nth(first, k) == v.Nth(first, i)
    decreases k - i
  {
    if i >= k {
    } else {
      EocStays(v, first, i + 1, k);
    }
  }

  // ---------------------------------------------------------------- whole files

  /** n * size, by repeated addition. */
  function Span(n: nat, size: nat): nat {
    if n == 0 then 0 else Span(n - 1, size) + size
  }

  lemma {:induction false} QuotSpan(n: nat, i: nat, size: nat)
    requires i < size
    ensures Quot(Span(n, size) + i, size) == n && Rem(Span(n, size) + i, size) == i
  {
    if n == 0 {
    } else {
      QuotSpan(n - 1, i, size);
    }
  }

  /** Cluster k of the chain is a data cluster that can be read. */
  ghost predicate ReadableAt(v: Volume, first: nat, k: nat) {
    v.Readable(v.Nth(first, k))
  }

  ghost predicate ReadableChain(v: Volume, first: nat, n: nat) {
    forall k: nat :: k < n ==> ReadableAt(v, first, k)
  }

  /** The first n clusters of the chain, one after the other. */
  ghost function Chain(v: Volume, first: nat, n: nat): (r: seq<Byte>)
    requires ReadableChain(v, first, n)
    ensures |r| == Span(n, v.ClusterSize())
  {
    if n == 0 then [] else assert ReadableAt(v, first, n - 1); Chain(v, first, n - 1) + v.Cluster(v.Nth(first, n - 1)).value
  }

  /** Reading through positions and reading through the concatenated clusters agree. */
  lemma {:induction false} ChainBytes(v: Volume, first: nat, n: nat)
    requires v.sectorsPerCluster > 0 && ReadableChain(v, first, n)
    ensures BytesAt(v, first, 0, Chain(v, first, n))
  {
    if n == 0 {
    } else {
      ChainBytes(v, first, n - 1);
      assert ReadableAt(v, first, n - 1);
      var head, last := Chain(v, first, n - 1), v.Cluster(v.Nth(first, n - 1)).value;
      ClusterBytes(v, first, n - 1);
      BytesAppend(v, first, 0, head, Span(n - 1, v.ClusterSize()), last);
    }
  }

  /** The bytes of cluster k of the chain. */
  lemma ClusterBytes(v: Volume, first: nat, k: nat)
    requires v.sectorsPerCluster > 0 && v.Readable(v.Nth(first, k))
    ensures BytesAt(v, first, Span(k, v.ClusterSize()), v.Cluster(v.Nth(first, k)).value)
  {
    var data := v.Cluster(v.Nth(first, k)).value;
    forall i | 0 <= i < |data| ensures ByteAt(v, first, Span(k, v.ClusterSize()) + i, data[i]) {
      QuotSpan(k, i, v.ClusterSize());
    }
  }

  /** n clusters of the chain are readable and cover the file. */
  ghost predicate SoundFile(v: Volume, h: Handle, n: nat) {
    v.sectorsPerCluster > 0 && ReadableChain(v, h.firstCluster, n) && h.fileSize <= Span(n, v.ClusterSize())
  }

  /** The abstract file: the clusters concatenated along the chain, cut at the file size. */
  ghost function Contents(v: Volume, h: Handle, n: nat): (r: seq<Byte>)
    requires SoundFile(v, h, n)
    ensures |r| == h.fileSize
  {
    Chain(v, h.firstCluster, n)[..h.fileSize]
  }

  /** On a sound file a read delivers exactly the next slice of the abstract file. */
  lemma ReadIsSlice(v: Volume, h: Handle, n: nat, size: nat, data: seq<Byte>, r: int)
    requires SoundFile(v, h, n) && ReadOutcome(v, h, Wanted(h, size), data, r)
    ensures |data| == Wanted(h, size) && r == Int32(|data|) && (|data| < 0x8000_0000 ==> r == |data|)
    ensures h.position <= h.fileSize ==> data == Contents(v, h, n)[h.position..h.position + |data|]
  {
    var chain := Chain(v, h.firstCluster, n);
    ChainBytes(v, h.firstCluster, n);
    var end := h.position + |data|;
    if end < h.fileSize {
      assert ByteAt(v, h.firstCluster, 0 + end, chain[end]);
    }
    if h.position <= h.fileSize {
      var slice := Contents(v, h, n)[h.position..h.position + |data|];
      forall i | 0 <= i < |data| ensures data[i] == slice[i] {
        var p := h.position + i;
        assert ByteAt(v, h.firstCluster, p, data[i]);
        assert ByteAt(v, h.firstCluster, 0 + p, chain[p]);
      }
    }
  }

  // ---------------------------------------------------------------- runs of reads

  datatype ReadEvent = ReadEvent(fd: nat, size: nat, data: seq<Byte>, result: int)

  /** One successful call of Read on the handle table. */
  ghost predicate ReadStep(v: Volume, t: seq<Handle>, e: ReadEvent, t': seq<Handle>)
    requires v.sectorsPerCluster > 0
  {
    && e.fd < |t| && t[e.fd].open
    && ReadOutcome(v, t[e.fd], Wanted(t[e.fd], e.size), e.data, e.result)
    && t[e.fd].position + |e.data| < U32
    && t' == t[e.fd := t[e.fd].(position := t[e.fd].position + |e.data|)]
  }

  ghost predicate ReadRun(v: Volume, tables: seq<seq<Handle>>, events: seq<ReadEvent>)
    requires v.sectorsPerCluster > 0
  {
    && |tables| == |events| + 1
    && forall i :: 0 <= i < |events| ==> ReadStep(v, tables[i], events[i], tables[i + 1])
  }

  /** What handle fd received, in order. */
  ghost function Delivered(events: seq<ReadEvent>, fd: nat): seq<Byte> {
    if events == [] then []
    else
      var last := events[|events| - 1];
      Delivered(events[..|events| - 1], fd) + if last.fd == fd then last.data else []
  }

  ghost function Requested(events: seq<ReadEvent>, fd: nat): nat {
    if events == [] then 0
    else
      var last := events[|events| - 1];
      Requested(events[..|events| - 1], fd) + if last.fd == fd then last.size else 0
  }

  /** However reads of any sizes on any handles are interleaved, the bytes a freshly opened handle
      of a sound file has received after k of them are, concatenated, the prefix of the file it
      asked for. */
  lemma {:induction false} ReadsConcatenate(v: Volume, tables: seq<seq<Handle>>, events: seq<ReadEvent>, fd: nat, n: nat, k: nat)
    requires v.sectorsPerCluster > 0 && ReadRun(v, tables, events) && k <= |events|
    requires fd < |tables[0]| && tables[0][fd].position == 0 && SoundFile(v, tables[0][fd], n)
    ensures var h := tables[0][fd];
            var got := Min(Requested(events[..k], fd), h.fileSize);
            && Delivered(events[..k], fd) == Contents(v, h, n)[..got]
            && |tables[k]| == |tables[0]| && tables[k][fd] == h.(position := got)
  {
    if k == 0 {
    } else {
      var m := k - 1;
      var h, e := tables[0][fd], events[m];
      var got := Min(Requested(events[..m], fd), h.fileSize);
      ReadsConcatenate(v, tables, events, fd, n, m);
      assert ReadStep(v, tables[m], e, tables[m + 1]);
      assert events[..k][..m] == events[..m];
      if e.fd == fd {
        OneMoreRead(v, h, n, got, e);
      }
    }
  }

  lemma OneMoreRead(v: Volume, h: Handle, n: nat, got: nat, e: ReadEvent)
    requires SoundFile(v, h, n) && got <= h.fileSize
    requires var now := h.(position := got); ReadOutcome(v, now, Wanted(now, e.size), e.data, e.result)
    ensures got + |e.data| == Min(got + e.size, h.fileSize)
    ensures Contents(v, h, n)[..got] + e.data == Contents(v, h, n)[..got + |e.data|]
  {
    var now := h.(position := got);
    ReadIsSlice(v, now, n, e.size, e.data, e.result);
    assert Contents(v, now, n) == Contents(v, h, n);
  }
}
