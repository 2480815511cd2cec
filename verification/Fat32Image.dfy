/** A FAT32 volume as it is written (Microsoft FAT32 File System Specification, "FAT Data Structure"),
    as the partner of the readers: clusters stand one after the other from the data offset on, and the
    table links them. What is read back is what was written. */
module Fat32Image {
  import opened Wrappers
  import opened Words
  import opened Fat32Volume
  import opened Fat32Files

  /** The sectors of all clusters, in the order they are written. */
  ghost function AllSectors(clusters: seq<seq<Sector>>): seq<Sector> {
    if clusters == [] then [] else clusters[0] + AllSectors(clusters[1..])
  }

  ghost function Join(sectors: seq<Sector>): (r: seq<Byte>)
    ensures |r| == SECTOR_SIZE * |sectors|
  {
    if sectors == [] then [] else Join(sectors[..|sectors| - 1]) + sectors[|sectors| - 1]
  }

  /** The disk holds these clusters from the data offset on. */
  ghost predicate Written(v: Volume, clusters: seq<seq<Sector>>) {
    && (forall k :: 0 <= k < |clusters| ==> |clusters[k]| == v.sectorsPerCluster)
    && v.dataOffset + |AllSectors(clusters)| <= U32
    && (forall j :: 0 <= j < |AllSectors(clusters)| ==> v.disk(v.dataOffset + j) == Some(AllSectors(clusters)[j]))
  }

  /** Where the clusters lie: number 2 at the data offset, each behind the one before. */
  lemma ClusterLbaSteps(v: Volume, c: nat)
    requires c >= 2
    ensures v.ClusterLba(2) == v.dataOffset
    ensures v.ClusterLba(c + 1) == (v.ClusterLba(c) + v.sectorsPerCluster) % U32
  {
    var x := v.dataOffset + (c - 2) * v.sectorsPerCluster;
    assert v.dataOffset + (c + 1 - 2) * v.sectorsPerCluster == x + v.sectorsPerCluster;
    ModStep(x, v.sectorsPerCluster);
  }

  lemma ModStep(x: nat, y: nat)
    ensures (x % 0x1_0000_0000 + y) % 0x1_0000_0000 == (x + y) % 0x1_0000_0000
  {
  }

  lemma {:induction false} SpanIsProduct(k: nat, size: nat)
    ensures Span(k, size) == k * size
  {
    if k == 0 {
    } else {
      SpanIsProduct(k - 1, size);
      assert k * size == (k - 1) * size + size;
    }
  }

  /** Sector i of cluster k among all sectors. */
  lemma {:induction false} SectorOf(clusters: seq<seq<Sector>>, size: nat, k: nat, i: nat)
    requires k < |clusters| && i < size && forall j :: 0 <= j < |clusters| ==> |clusters[j]| == size
    ensures Span(k, size) + i < |AllSectors(clusters)| && AllSectors(clusters)[Span(k, size) + i] == clusters[k][i]
  {
    if k == 0 {
    } else {
      SectorOf(clusters[1..], size, k - 1, i);
    }
  }

  lemma {:induction false} SectorsReadBack(v: Volume, clusters: seq<seq<Sector>>, k: nat, count: nat)
    requires Written(v, clusters) && k < |clusters| && count <= v.sectorsPerCluster
    ensures v.Sectors(v.dataOffset + Span(k, v.sectorsPerCluster), count) == Some(Join(clusters[k][..count]))
    decreases count
  {
    if count == 0 {
    } else {
      SectorsReadBack(v, clusters, k, count - 1);
      SectorOf(clusters, v.sectorsPerCluster, k, count - 1);
      assert clusters[k][..count][..count - 1] == clusters[k][..count - 1];
    }
  }

  lemma LbaOf(v: Volume, k: nat)
    requires v.dataOffset + Span(k, v.sectorsPerCluster) < U32
    ensures v.ClusterLba(k + 2) == v.dataOffset + Span(k, v.sectorsPerCluster)
  {
    SpanIsProduct(k, v.sectorsPerCluster);
  }

  /** Cluster k + 2 is the k-th one written. */
  lemma ClusterReadBack(v: Volume, clusters: seq<seq<Sector>>, k: nat)
    requires Written(v, clusters) && k < |clusters| && v.sectorsPerCluster > 0
    ensures v.Cluster(k + 2) == Some(Join(clusters[k]))
  {
    SectorOf(clusters, v.sectorsPerCluster, k, 0);
    LbaOf(v, k);
    SectorsReadBack(v, clusters, k, v.sectorsPerCluster);
    assert clusters[k][..v.sectorsPerCluster] == clusters[k];
  }

  // ---------------------------------------------------------------- the table

  /** The table holds these links of 28 bits; the four bits above them may be anything. */
  ghost predicate TableWritten(v: Volume, links: seq<nat>, high: seq<nat>) {
    && v.fat.Some? && |v.fat.value| == |links| == |high|
    && forall c :: 0 <= c < |links| ==> links[c] < 0x1000_0000 && v.fat.value[c] == 0x1000_0000 * high[c] + links[c]
  }

  /** The successor of a cluster is its link, and 0 from 0x0FFFFFF8 on. */
  lemma LinkReadBack(v: Volume, links: seq<nat>, high: seq<nat>, c: nat)
    requires TableWritten(v, links, high) && c < |links|
    ensures v.Follow(c) == if links[c] >= 0x0FFF_FFF8 then 0 else links[c]
  {
  }

  /** A list of clusters, by their place in the image, each linked to the next, and the last one to
      the end of the chain. */
  ghost predicate Linked(links: seq<nat>, list: seq<nat>, count: nat) {
    && list != [] && (forall i :: 0 <= i < |list| ==> list[i] < count && list[i] + 2 < |links| && list[i] + 2 < 0x0FFF_FFF8)
    && (forall i :: 0 <= i < |list| - 1 ==> LinksTo(links, list, i))
    && links[list[|list| - 1] + 2] >= 0x0FFF_FFF8
  }

  ghost predicate LinksTo(links: seq<nat>, list: seq<nat>, i: int) {
    0 <= i < |list| - 1 && list[i] + 2 < |links| && links[list[i] + 2] == list[i + 1] + 2
  }

  /** The image: clusters and links. */
  ghost predicate Holds(v: Volume, clusters: seq<seq<Sector>>, links: seq<nat>, high: seq<nat>) {
    Written(v, clusters) && TableWritten(v, links, high) && v.sectorsPerCluster > 0
  }

  lemma {:induction false} NthReadBack(v: Volume, clusters: seq<seq<Sector>>, links: seq<nat>, high: seq<nat>, list: seq<nat>, i: nat)
    requires Holds(v, clusters, links, high) && Linked(links, list, |clusters|) && i <= |list|
    ensures v.Nth(list[0] + 2, i) == if i < |list| then list[i] + 2 else 0
  {
    if i == 0 {
    } else {
      NthReadBack(v, clusters, links, high, list, i - 1);
      LinkReadBack(v, links, high, list[i - 1] + 2);
      assert i < |list| ==> LinksTo(links, list, i - 1);
    }
  }

  lemma ReadableReadBack(v: Volume, clusters: seq<seq<Sector>>, links: seq<nat>, high: seq<nat>, list: seq<nat>, i: nat)
    requires Holds(v, clusters, links, high) && Linked(links, list, |clusters|) && i < |list|
    ensures ReadableAt(v, list[0] + 2, i) && v.Cluster(v.Nth(list[0] + 2, i)) == Some(Join(clusters[list[i]]))
    ensures v.InTable(v.Nth(list[0] + 2, i))
  {
    NthReadBack(v, clusters, links, high, list, i);
    ClusterReadBack(v, clusters, list[i]);
  }

  /** The bytes of the first n clusters of a list. */
  ghost function JoinList(clusters: seq<seq<Sector>>, list: seq<nat>, n: nat): seq<Byte>
    requires n <= |list| && forall i :: 0 <= i < |list| ==> list[i] < |clusters|
  {
    if n == 0 then [] else JoinList(clusters, list, n - 1) + Join(clusters[list[n - 1]])
  }

  lemma ReadablePrefix(v: Volume, clusters: seq<seq<Sector>>, links: seq<nat>, high: seq<nat>, list: seq<nat>, n: nat)
    requires Holds(v, clusters, links, high) && Linked(links, list, |clusters|) && n <= |list|
    ensures ReadableChain(v, list[0] + 2, n) && v.ChainInTable(list[0] + 2, n)
  {
    var first := list[0] + 2;
    forall i: nat | i < n ensures ReadableAt(v, first, i) && v.InTable(v.Nth(first, i)) {
      ReadableReadBack(v, clusters, links, high, list, i);
    }
  }

  lemma {:induction false} ChainReadBack(v: Volume, clusters: seq<seq<Sector>>, links: seq<nat>, high: seq<nat>, list: seq<nat>, n: nat)
    requires Holds(v, clusters, links, high) && Linked(links, list, |clusters|) && n <= |list|
    ensures ReadableChain(v, list[0] + 2, n) && Chain(v, list[0] + 2, n) == JoinList(clusters, list, n)
    decreases n
  {
    ReadablePrefix(v, clusters, links, high, list, n);
    if n == 0 {
    } else {
      var first := list[0] + 2;
      ChainReadBack(v, clusters, links, high, list, n - 1);
      ReadableReadBack(v, clusters, links, high, list, n - 1);
      assert Chain(v, first, n) == Chain(v, first, n - 1) + v.Cluster(v.Nth(first, n - 1)).value;
    }
  }

  /** The file behind a handle is the clusters written along its chain, cut at the file size. */
  lemma FileReadBack(v: Volume, clusters: seq<seq<Sector>>, links: seq<nat>, high: seq<nat>, list: seq<nat>, h: Handle)
    requires Holds(v, clusters, links, high) && Linked(links, list, |clusters|)
    requires h.firstCluster == list[0] + 2 && h.fileSize <= Span(|list|, v.ClusterSize())
    ensures SoundFile(v, h, |list|) && h.fileSize <= |JoinList(clusters, list, |list|)|
    ensures Contents(v, h, |list|) == JoinList(clusters, list, |list|)[..h.fileSize]
  {
    ChainReadBack(v, clusters, links, high, list, |list|);
  }
}
