/** Clusters and chains of a FAT32 volume as fat32.c reads them (Microsoft FAT32 File System
    Specification, "FAT Data Structure"). */
module Fat32Volume {
  import opened Wrappers
  import opened Words

  const SECTOR_SIZE: nat := 512
  const CLUSTER_BUFFER: nat := 4096
  const EOC: nat := 0x0FFF_FFF8

  type Sector = s: seq<Byte> | |s| == SECTOR_SIZE witness seq(SECTOR_SIZE, _ => 0)

  /** The mounted file system. `fat` is the loaded table of 32-bit entries (None when loading it
      failed) and `disk` the sector behind each LBA, None where the drive reports an error. */
  datatype Volume = Volume(sectorsPerCluster: nat, dataOffset: Uint32, fat: Option<seq<Uint32>>,
                           disk: nat -> Option<Sector>)
  {
    function ClusterSize(): nat {
      sectorsPerCluster * SECTOR_SIZE
    }

    /** fat32_cluster_lba, in 32-bit arithmetic. */
    function ClusterLba(cluster: nat): nat
      requires cluster >= 2
    {
      (dataOffset + (cluster - 2) * sectorsPerCluster) % U32
    }

    /** The FAT entry of this cluster exists. */
    ghost predicate InTable(cluster: nat) {
      fat.Some? ==> cluster < |fat.value|
    }

    /** fat32_get_fat_entry, with the top four bits masked off. Entries outside the table are
        never looked up, see InTable. */
    function FatEntry(cluster: nat): nat {
      if fat.None? || cluster >= |fat.value| then EOC else fat.value[cluster] % 0x1000_0000
    }

    /** fat32_follow_cluster_chain. */
    function Follow(cluster: nat): nat {
      var next := FatEntry(cluster);
      if IsEoc(next) then 0 else next
    }

    /** fat32_follow_cluster_chain as the loops call it: the entry looked up lies in the table. */
    method FollowClusterChain(cluster: nat) returns (next: nat)
      requires InTable(cluster)
      ensures next == Follow(cluster)
    {
      next := if fat.None? then EOC else fat.value[cluster] % 0x1000_0000;
      if IsEoc(next) {
        next := 0;
      }
    }

    /** `count` sectors from lba on, if all can be read. */
    function Sectors(lba: nat, count: nat): (r: Option<seq<Byte>>)
      ensures r.Some? ==> |r.value| == SECTOR_SIZE * count
    {
      if count == 0 then Some([])
      else
        match (Sectors(lba, count - 1), disk((lba + count - 1) % U32))
        case (Some(head), Some(sector)) => Some(head + sector)
        case _ => None
    }

    function Cluster(cluster: nat): Option<seq<Byte>>
      requires cluster >= 2
    {
      Sectors(ClusterLba(cluster), sectorsPerCluster)
    }

    /** The cluster number is one the chain walks stop at neither as end nor as free. */
    predicate IsData(cluster: nat) {
      cluster >= 2 && !IsEoc(cluster)
    }

    predicate Readable(cluster: nat) {
      IsData(cluster) && Cluster(cluster).Some?
    }

    /** Cluster k of the chain starting at `first`. */
    function Nth(first: nat, k: nat): nat {
      if k == 0 then first
      else
        var c := Nth(first, k - 1);
        if IsEoc(c) then c else Follow(c)
    }

    /** The walk to cluster index n looks up only entries of the table. */
    ghost predicate ChainInTable(first: nat, n: nat) {
      forall k: nat :: k < n ==> IsEoc(Nth(first, k)) || InTable(Nth(first, k))
    }

    /** fat32_read_sectors: fill the buffer sector by sector, giving up at the first error. */
    method ReadSectors(lba: nat, count: nat, buffer: array<Byte>) returns (ok: bool)
      requires SECTOR_SIZE * count <= buffer.Length
      modifies buffer
      ensures ok <==> Sectors(lba, count).Some?
      ensures ok ==> buffer[..SECTOR_SIZE * count] == Sectors(lba, count).value
      ensures buffer[SECTOR_SIZE * count..] == old(buffer[SECTOR_SIZE * count..])
    {
      for i := 0 to count
        invariant Sectors(lba, i).Some?
        invariant buffer[SECTOR_SIZE * count..] == old(buffer[SECTOR_SIZE * count..])
        invariant buffer[..SECTOR_SIZE * i] == Sectors(lba, i).value
      {
        var sector := disk((lba + i) % U32);
        if sector.None? {
          UnreadablePrefix(lba, i + 1, count);
          return false;
        }
        ghost var done := buffer[..SECTOR_SIZE * i];
        for j := 0 to SECTOR_SIZE
          invariant buffer[..SECTOR_SIZE * i] == done
          invariant buffer[SECTOR_SIZE * count..] == old(buffer[SECTOR_SIZE * count..])
          invariant forall l :: 0 <= l < j ==> buffer[SECTOR_SIZE * i + l] == sector.value[l]
        {
          buffer[SECTOR_SIZE * i + j] := sector.value[j];
        }
        assert buffer[..SECTOR_SIZE * (i + 1)] == done + sector.value;
      }
      return true;
    }

    lemma {:induction false} UnreadablePrefix(lba: nat, m: nat, count: nat)
      requires m <= count && Sectors(lba, m).None?
      ensures Sectors(lba, count).None?
      decreases count - m
    {
      if m >= count {
      } else {
        UnreadablePrefix(lba, m + 1, count);
      }
    }
  }

  predicate IsEoc(cluster: nat) {
    cluster >= EOC
  }
}
