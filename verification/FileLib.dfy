/** Open files (fat_filelib.c): sector buffering, direct transfers, cluster lookup and growth on demand. */
module FileLib {
  import opened FatWords
  import opened FatChains
  import opened FatTable
  import opened FileLayout
  import opened FileSpec

  class FlFile {
    const fs: FatFs
    const readable: bool            // FILE_READ
    const writable: bool            // FILE_WRITE
    const append: bool              // FILE_APPEND
    const fileDataSector: array<byte>

    var startCluster: uint32
    var bytenum: uint32
    var filelength: uint32
    var filelengthChanged: bool
    var lookupIdx: uint32           // last_fat_lookup.ClusterIdx
    var lookupCluster: uint32       // last_fat_lookup.CurrentCluster
    var fileDataAddress: uint32
    var fileDataDirty: bool

    /** The clusters of the file, in order, and their sectors as they are on the disk. */
    ghost var clusters: seq<nat>
    ghost var data: seq<Sector>
    /** Cluster numbers below this one lie on the disk. */
    ghost const limit: nat
    /** Any other chain of the volume, and its sectors. Being arbitrary they stand for every one. */
    ghost const other: seq<nat>
    ghost const otherData: seq<Sector>

    /** A newly opened file (the end of _open_file): nothing buffered, nothing looked up yet. */
    constructor (fs: FatFs, readable: bool, writable: bool, append: bool, startCluster: uint32, filelength: uint32,
                 ghost clusters: seq<nat>, ghost data: seq<Sector>, ghost limit: nat,
                 ghost other: seq<nat>, ghost otherData: seq<Sector>)
      ensures this.fs == fs && FileMode() == Mode(readable, writable, append)
      ensures this.startCluster == startCluster && this.filelength == filelength
      ensures this.clusters == clusters && this.data == data && this.limit == limit
      ensures this.other == other && this.otherData == otherData
      ensures JustOpened() && fresh(fileDataSector)
    {
      this.fs, this.readable, this.writable, this.append := fs, readable, writable, append;
      this.startCluster, this.filelength, this.bytenum := startCluster, filelength, 0;
      filelengthChanged := false;
      lookupIdx, lookupCluster := 0xFFFF_FFFF, 0xFFFF_FFFF;
      fileDataSector := new byte[512](_ => 0);
      fileDataAddress, fileDataDirty := 0xFFFF_FFFF, false;
      this.clusters, this.data, this.limit, this.other, this.otherData := clusters, data, limit, other, otherData;
    }

    /** Nothing is buffered or looked up, and the cursor is at the start. */
    predicate JustOpened()
      reads `bytenum, `lookupIdx, `fileDataAddress, `fileDataDirty
    {
      && bytenum == 0 && lookupIdx == 0xFFFF_FFFF
      && fileDataSector.Length == 512 && fileDataAddress == NO_SECTOR && !fileDataDirty
    }

    ghost function Vol(): Volume
    {
      Volume(fs.fatType, fs.rootCluster, fs.DataStart(), fs.sectorsPerCluster, limit)
    }

    /** The volume is mounted on reliable media, and the file's chain and sectors are on it. */
    ghost predicate OnVolume()
      reads `clusters, `data, `startCluster, fs, fs.disk, fs.pool
    {
      && fs.Valid() && fs.disk.reliable && 0 < fs.sectorsPerCluster
      && FilesOn(Vol(), fs.Table(), fs.disk.sectors, clusters, data, other, otherData)
      && clusters != [] && clusters[0] == startCluster
    }

    /** The lookup shortcut holds nothing, or the true cluster of its index. */
    ghost predicate LookupOk()
      reads `clusters, `lookupIdx, `lookupCluster
    {
      lookupIdx == 0xFFFF_FFFF || (lookupIdx < |clusters| && lookupCluster == clusters[lookupIdx])
    }

    ghost predicate Stored()
      reads `clusters, `data, `startCluster, `lookupIdx, `lookupCluster, fs, fs.disk, fs.pool
    {
      OnVolume() && LookupOk()
    }

    lemma StoredIs()
      requires Stored()
      ensures fs.Valid() && fs.disk.reliable && 0 < fs.sectorsPerCluster && OnVolume() && LookupOk()
      ensures FilesOn(Vol(), fs.Table(), fs.disk.sectors, clusters, data, other, otherData)
      ensures clusters != [] && clusters[0] == startCluster
    {
    }

    /** Clusters the file has or could be given on the disk. Growing the file does not change it. */
    ghost function Capacity(): nat
      reads `clusters, fs`image
    {
      |clusters| + Blanks(fs.fatType, fs.Table(), fs.rootCluster, limit)
    }

    // -------------------------------------------------------------------------------------
    // Cluster lookup
    // -------------------------------------------------------------------------------------

    lemma ClusterRange()
      requires OnVolume()
      ensures |clusters| > 0 && |data| == SectorsIn(|clusters|, fs.sectorsPerCluster)
      ensures forall i :: 0 <= i < |clusters| ==> 2 <= clusters[i] < LAST_CLUSTER
    {
    }

    /** Where a walk along the chain starts for cluster `idx`: at the recorded cluster if that is the
        one before, else at the first one. The sentinel index plus one wraps to 0, which is excluded. */
    method WalkStart(idx: uint32) returns (i: uint32, cluster: uint32)
      requires Stored() && idx < 0xFFFF_FFFF && idx != lookupIdx
      ensures i <= idx && i < |clusters| && cluster == clusters[i]
    {
      hide FilesOn, fs.Valid;
      if idx != 0 && idx == (lookupIdx + 1) % 0x1_0000_0000 {
        return lookupIdx, lookupCluster;
      }
      return 0, startCluster;
    }

    /** A looked-up cluster is recorded in last_fat_lookup. */
    method RecordLookup(idx: uint32, cluster: uint32)
      requires Stored() && idx < |clusters| && cluster == clusters[idx]
      modifies `lookupIdx, `lookupCluster
      ensures Stored()
    {
      hide OnVolume;
      lookupCluster, lookupIdx := cluster, idx;
    }

    /** FAT operations that change no link leave the files as they are. */
    lemma AfterLookup(was: seq<Sector>)
      requires fs.Valid() && fs.SameOutsideFat(was, fs.disk.sectors)
      requires FilesOn(Vol(), fs.Table(), was, clusters, data, other, otherData)
      ensures FilesOn(Vol(), fs.Table(), fs.disk.sectors, clusters, data, other, otherData)
    {
      hide FilesOn;
      fs.SameData(was, fs.disk.sectors);
      FilesKept(Vol(), fs.Table(), was, fs.disk.sectors, clusters, data, other, otherData);
    }

    lemma NextInChain(i: nat)
      requires OnVolume() && i < |clusters|
      ensures 2 <= clusters[i] < fs.EntryCount() && clusters[i] < |fs.Table()|
      ensures Link(fs.fatType, fs.Table()[clusters[i]]) == if i + 1 < |clusters| then clusters[i + 1] else LAST_CLUSTER
    {
      fs.TableSize();
    }

    /** One link of the file's chain. */
    method Follow(i: uint32, cluster: uint32) returns (next: uint32)
      requires Stored() && i < |clusters| && cluster == clusters[i]
      modifies fs`head, fs`chain, fs`holder, fs`pending, fs.disk, fs.pool
      ensures Stored()
      ensures next == if i + 1 < |clusters| then clusters[i + 1] else LAST_CLUSTER
      ensures fs.SameOutsideFat(old(fs.disk.sectors), fs.disk.sectors)
    {
      hide FilesOn, fs.Valid, fs.SameOutsideFat, Link;
      NextInChain(i);
      next := fs.FindNextCluster(cluster);
      AfterLookup(old(fs.disk.sectors));
    }

    /** The loop of _read_sectors along the chain. */
    method Walk(start: uint32, first: uint32, idx: uint32) returns (cluster: uint32)
      requires Stored() && start <= idx <= |clusters| && start < |clusters| && first == clusters[start]
      modifies fs`head, fs`chain, fs`holder, fs`pending, fs.disk, fs.pool
      ensures Stored()
      ensures cluster == if idx < |clusters| then clusters[idx] else LAST_CLUSTER
      ensures fs.SameOutsideFat(old(fs.disk.sectors), fs.disk.sectors)
    {
      hide OnVolume, fs.SameOutsideFat;
      fs.SameOutsideRefl(fs.disk.sectors);
      cluster := first;
      var i := start;
      while i < idx
        invariant Stored() && start <= i <= idx
        invariant cluster == if i < |clusters| then clusters[i] else LAST_CLUSTER
        invariant fs.SameOutsideFat(old(fs.disk.sectors), fs.disk.sectors)
      {
        ghost var s1 := fs.disk.sectors;
        cluster := Follow(i, cluster);
        fs.SameOutsideTrans(old(fs.disk.sectors), s1, fs.disk.sectors);
        i := i + 1;
      }
    }

    /** The cluster lookup of _read_sectors, with the shortcut: cluster number `idx` of the chain, or the
        end-of-chain value if the chain is just too short. */
    method LookupForRead(idx: uint32) returns (cluster: uint32)
      requires Stored() && idx <= |clusters| && idx < 0xFFFF_FFFF
      modifies `lookupIdx, `lookupCluster, fs`head, fs`chain, fs`holder, fs`pending, fs.disk, fs.pool
      ensures Stored()
      ensures cluster == if idx < |clusters| then clusters[idx] else LAST_CLUSTER
      ensures fs.SameOutsideFat(old(fs.disk.sectors), fs.disk.sectors)
    {
      hide OnVolume, fs.SameOutsideFat;
      ClusterRange();
      fs.SameOutsideRefl(fs.disk.sectors);
      if idx == lookupIdx {
        return lookupCluster;
      }
      var i;
      i, cluster := WalkStart(idx);
      cluster := Walk(i, cluster, idx);
      if cluster != LAST_CLUSTER {
        RecordLookup(idx, cluster);
      }
    }

    /** The cluster walk of _write_sectors: as for reading, but stopping at a dead end, whose last good
        cluster is remembered. */
    method LookupForWrite(idx: uint32) returns (cluster: uint32, last: uint32)
      requires Stored() && idx <= |clusters| && idx < 0xFFFF_FFFF
      modifies fs`head, fs`chain, fs`holder, fs`pending, fs.disk, fs.pool
      ensures Stored()
      ensures cluster == if idx < |clusters| then clusters[idx] else LAST_CLUSTER
      ensures cluster == LAST_CLUSTER ==> last == clusters[|clusters| - 1]
      ensures fs.SameOutsideFat(old(fs.disk.sectors), fs.disk.sectors)
    {
      hide OnVolume, fs.SameOutsideFat;
      ClusterRange();
      fs.SameOutsideRefl(fs.disk.sectors);
      last := LAST_CLUSTER;
      if idx == lookupIdx {
        return lookupCluster, last;
      }
      var i;
      i, cluster := WalkStart(idx);
      while i < idx && cluster != LAST_CLUSTER
        invariant Stored() && i <= idx
        invariant cluster == if i < |clusters| then clusters[i] else LAST_CLUSTER
        invariant i > 0 && cluster == LAST_CLUSTER ==> last == clusters[i - 1]
        invariant fs.SameOutsideFat(old(fs.disk.sectors), fs.disk.sectors)
      {
        ghost var s1 := fs.disk.sectors;
        last := cluster;
        cluster := Follow(i, cluster);
        fs.SameOutsideTrans(old(fs.disk.sectors), s1, fs.disk.sectors);
        i := i + 1;
      }
    }

    // -------------------------------------------------------------------------------------
    // Sectors
    // -------------------------------------------------------------------------------------

    /** The transfer at the end of _read_sectors. */
    method TransferIn(offset: nat, cluster: uint32, buffer: array<byte>, at: nat, n: nat)
      requires Stored() && 0 < n && offset + n <= |data|
      requires ClusterOffset(offset, fs.sectorsPerCluster) + n <= fs.sectorsPerCluster
      requires ClusterIndex(offset, fs.sectorsPerCluster) < |clusters|
      requires cluster == clusters[ClusterIndex(offset, fs.sectorsPerCluster)]
      requires at + 512 * n <= buffer.Length
      modifies buffer
      ensures forall s :: offset <= s < offset + n ==> Chunk(buffer[..], at + 512 * (s - offset)) == data[s]
      ensures buffer[..at] == old(buffer[..at]) && buffer[at + 512 * n..] == old(buffer[at + 512 * n..])
    {
      hide fs.Valid, Mirrors, IsChain, ClusterIndex, ClusterOffset, SectorsIn, ClusterLba;
      var spc := fs.sectorsPerCluster;
      RunOnDisk(fs.disk.sectors, fs.DataStart(), spc, clusters, data, offset, n);
      var lba := ClusterLba(fs.DataStart(), spc, cluster) + ClusterOffset(offset, spc);
      var ok := fs.SectorRead(lba, buffer, at, n);
      forall s | offset <= s < offset + n
        ensures Chunk(buffer[..], at + 512 * (s - offset)) == data[s]
      {
        var l := lba + (s - offset);
        assert Chunk(buffer[..], at + 512 * (l - lba)) == fs.disk.sectors[l];
      }
    }

    /** _read_sectors: as many sectors as the cluster of sector `offset` still holds, straight from the
        disk into the buffer; none at the end of the chain. */
    method ReadSectors(offset: nat, buffer: array<byte>, at: nat, count: nat) returns (n: nat)
      requires Stored() && offset <= |data| && offset < 0xFFFF_FFFF
      requires 0 < count && at + 512 * count <= buffer.Length
      modifies `lookupIdx, `lookupCluster, fs`head, fs`chain, fs`holder, fs`pending, fs.disk, fs.pool, buffer
      ensures Stored()
      ensures n == if offset < |data| then InCluster(offset, fs.sectorsPerCluster, count) else 0
      ensures offset + n <= |data|
      ensures forall s :: offset <= s < offset + n ==> Chunk(buffer[..], at + 512 * (s - offset)) == data[s]
      ensures buffer[..at] == old(buffer[..at]) && buffer[at + 512 * n..] == old(buffer[at + 512 * n..])
    {
      hide *;
      StoredIs();
      var spc := fs.sectorsPerCluster;
      ClusterRange();
      IndexBelow(offset, spc);
      SectorHasCluster(offset, spc, count, |clusters|);
      InClusterIs(offset, spc, count);
      var clusterIdx := ClusterIndex(offset, spc);
      var sector := ClusterOffset(offset, spc);
      n := if sector + count > spc then spc - sector else count;
      var cluster := LookupForRead(clusterIdx);
      if cluster == LAST_CLUSTER {
        return 0;
      }
      TransferIn(offset, cluster, buffer, at, n);
    }

    /** Growth on demand in _write_sectors: `count` clusters are hung after the last one. */
    method GrowFile(last: uint32, count: nat) returns (ok: bool, cluster: uint32)
      requires Stored() && last == clusters[|clusters| - 1]
      requires 0 < count <= Blanks(fs.fatType, fs.Table(), fs.rootCluster, limit)
      modifies `clusters, `data, fs, fs.disk, fs.pool
      ensures Stored() && ok
      ensures |clusters| == |old(clusters)| + count && old(clusters) <= clusters
      ensures cluster == clusters[|old(clusters)|]
      ensures old(data) <= data
      ensures Capacity() == old(Capacity())
    {
      hide *;
      StoredIs();
      CapacityIs();
      NextInChain(|clusters| - 1);
      ok, cluster := fs.AddFreeSpace(last, count);
      Adopt(old(fs.Table()), old(fs.disk.sectors), count);
    }

    /** The ghost clusters and sectors follow the FAT. */
    ghost method Adopt(was: Fat, wasDisk: seq<Sector>, count: nat)
      requires fs.Valid() && fs.disk.reliable && 0 < fs.sectorsPerCluster && LookupOk()
      requires fs.SameOutsideFat(wasDisk, fs.disk.sectors)
      requires FilesOn(Vol(), was, wasDisk, clusters, data, other, otherData) && clusters != []
        && clusters[0] == startCluster
      requires 0 < count <= Blanks(fs.fatType, was, fs.rootCluster, limit)
      requires clusters[|clusters| - 1] < |was| <= LAST_CLUSTER
      requires fs.Table() == Grow(fs.fatType, was, fs.rootCluster, clusters[|clusters| - 1], count).fat
      modifies `clusters, `data
      ensures Stored()
      ensures |clusters| == |old(clusters)| + count && old(clusters) <= clusters
      ensures Grow(fs.fatType, was, fs.rootCluster, old(clusters)[|old(clusters)| - 1], count).complete
      ensures clusters[|old(clusters)|] == FirstOf(
        Grow(fs.fatType, was, fs.rootCluster, old(clusters)[|old(clusters)| - 1], count).added,
        old(clusters)[|old(clusters)| - 1])
      ensures old(data) <= data
      ensures Capacity() == |old(clusters)| + Blanks(fs.fatType, was, fs.rootCluster, limit)
    {
      hide FilesOn, Grow, Blanks, fs.Valid, fs.SameOutsideFat, FirstOf;
      clusters, data := AfterGrowth(was, wasDisk, count);
    }

    lemma AfterGrowth(was: Fat, wasDisk: seq<Sector>, count: nat) returns (longer: seq<nat>, grown: seq<Sector>)
      requires fs.Valid() && fs.SameOutsideFat(wasDisk, fs.disk.sectors)
      requires FilesOn(Vol(), was, wasDisk, clusters, data, other, otherData) && clusters != []
      requires 0 < count <= Blanks(fs.fatType, was, fs.rootCluster, limit)
      requires clusters[|clusters| - 1] < |was| <= LAST_CLUSTER
      requires fs.Table() == Grow(fs.fatType, was, fs.rootCluster, clusters[|clusters| - 1], count).fat
      ensures Grow(fs.fatType, was, fs.rootCluster, clusters[|clusters| - 1], count).complete
      ensures FilesOn(Vol(), fs.Table(), fs.disk.sectors, longer, grown, other, otherData)
      ensures |longer| == |clusters| + count && clusters <= longer && longer[0] == clusters[0]
      ensures longer[|clusters|]
           == FirstOf(Grow(fs.fatType, was, fs.rootCluster, clusters[|clusters| - 1], count).added,
               clusters[|clusters| - 1])
      ensures Blanks(fs.fatType, fs.Table(), fs.rootCluster, limit)
        == Blanks(fs.fatType, was, fs.rootCluster, limit) - count
      ensures data <= grown
    {
      hide FilesOn, Grow, Blanks;
      longer := clusters + Grow(fs.fatType, was, fs.rootCluster, clusters[|clusters| - 1], count).added;
      grown := FilesGrow(Vol(), was, wasDisk, clusters, data, other, otherData, count);
      fs.SameData(wasDisk, fs.disk.sectors);
      FilesKept(Vol(), fs.Table(), wasDisk, fs.disk.sectors, longer, grown, other, otherData);
    }

    /** The transfer at the end of _write_sectors: exactly these sectors of the file change. */
    method TransferOut(offset: nat, cluster: uint32, buf: seq<byte>, n: nat) returns (ok: bool)
      requires Stored() && 0 < n && offset + n <= |data| && 512 * n <= |buf|
      requires ClusterOffset(offset, fs.sectorsPerCluster) + n <= fs.sectorsPerCluster
      requires ClusterIndex(offset, fs.sectorsPerCluster) < |clusters|
      requires cluster == clusters[ClusterIndex(offset, fs.sectorsPerCluster)]
      modifies `data, fs.disk
      ensures Stored() && ok
      ensures |data| == |old(data)|
      ensures forall s :: offset <= s < offset + n ==> data[s] == Chunk(buf, 512 * (s - offset))
      ensures forall s :: 0 <= s < |data| && !(offset <= s < offset + n) ==> data[s] == old(data)[s]
    {
      hide fs.Valid, FilesOn, ClusterIndex, ClusterOffset, ClusterLba, SectorLba, Chunk;
      PlaceOfRun(offset, n);
      LbaOfSector(offset, cluster);
      var lba := ClusterLba(fs.DataStart(), fs.sectorsPerCluster, cluster)
             + ClusterOffset(offset, fs.sectorsPerCluster);
      ok := fs.SectorWrite(lba, buf, n);
      AfterTransfer(old(fs.disk.sectors), offset, n, buf);
      data := Replaced(data, offset, buf, n);
    }

    lemma LbaOfSector(offset: nat, cluster: uint32)
      requires OnVolume() && ClusterIndex(offset, fs.sectorsPerCluster) < |clusters|
      requires cluster == clusters[ClusterIndex(offset, fs.sectorsPerCluster)]
      ensures ClusterLba(fs.DataStart(), fs.sectorsPerCluster, cluster) + ClusterOffset(offset, fs.sectorsPerCluster)
           == SectorLba(fs.DataStart(), fs.sectorsPerCluster, clusters, offset)
    {
    }

    lemma PlaceOfRun(offset: nat, n: nat)
      requires Stored() && 0 < n && offset + n <= |data|
      requires ClusterOffset(offset, fs.sectorsPerCluster) + n <= fs.sectorsPerCluster
      requires ClusterIndex(offset, fs.sectorsPerCluster) < |clusters|
      ensures var lba := SectorLba(fs.DataStart(), fs.sectorsPerCluster, clusters, offset);
        fs.fatBegin + fs.fatSectors <= lba && lba + n <= |fs.disk.sectors|
    {
      RunOnDisk(fs.disk.sectors, fs.DataStart(), fs.sectorsPerCluster, clusters, data, offset, n);
    }

    lemma AfterTransfer(was: seq<Sector>, offset: nat, n: nat, buf: seq<byte>)
      requires 0 < fs.sectorsPerCluster && 0 < n && offset + n <= |data| && 512 * n <= |buf|
      requires ClusterOffset(offset, fs.sectorsPerCluster) + n <= fs.sectorsPerCluster
      requires ClusterIndex(offset, fs.sectorsPerCluster) < |clusters|
      requires FilesOn(Vol(), fs.Table(), was, clusters, data, other, otherData)
      requires var lba := SectorLba(fs.DataStart(), fs.sectorsPerCluster, clusters, offset);
        && |fs.disk.sectors| == |was| && 0 <= lba && lba + n <= |was|
        && (forall l :: 0 <= l < |was| && !(lba <= l < lba + n) ==> fs.disk.sectors[l] == was[l])
        && (forall l :: lba <= l < lba + n ==> fs.disk.sectors[l] == Chunk(buf, 512 * (l - lba)))
      ensures FilesOn(Vol(), fs.Table(), fs.disk.sectors, clusters, Replaced(data, offset, buf, n),
                      other, otherData)
    {
      hide FilesOn, ClusterIndex, ClusterOffset, SectorLba;
      FilesWritten(Vol(), fs.Table(), was, fs.disk.sectors, clusters, data,
                   Replaced(data, offset, buf, n), other, otherData, offset, n);
    }

    /** Cluster number `idx` of the file, a new one if the chain ends there, recorded for the next lookup. */
    method ClusterAt(idx: uint32, needed: nat) returns (cluster: uint32)
      requires Stored() && idx <= |clusters| && idx < 0xFFFF_FFFF && 0 < needed
      requires idx == |clusters| ==> |clusters| + needed <= Capacity()
      modifies `clusters, `data, `lookupIdx, `lookupCluster, fs, fs.disk, fs.pool
      ensures Stored()
      ensures idx < |clusters| && cluster == clusters[idx]
      ensures old(data) <= data
      ensures idx < |old(clusters)| ==> data == old(data)
      ensures Capacity() == old(Capacity())
    {
      hide OnVolume, LookupOk, Capacity;
      ClusterRange();
      CapacityIs();
      var last;
      cluster, last := LookupForWrite(idx);
      if cluster == LAST_CLUSTER {
        var ok;
        ok, cluster := GrowFile(last, needed);
      }
      if idx != lookupIdx {
        RecordLookup(idx, cluster);
      }
    }

    lemma CapacityIs()
      ensures Capacity() == |clusters| + Blanks(fs.fatType, fs.Table(), fs.rootCluster, limit)
    {
    }

    /** The cluster for sector `offset`; growth is for all of `total` sectors at once. */
    method ClusterForWrite(offset: nat, total: nat) returns (cluster: uint32)
      requires Stored() && offset <= |data| && offset < 0xFFFF_FFFF && 0 < total
      requires offset == |data| ==> |clusters| + ClustersNeeded(total, fs.sectorsPerCluster) <= Capacity()
      modifies `clusters, `data, `lookupIdx, `lookupCluster, fs, fs.disk, fs.pool
      ensures Stored()
      ensures old(data) <= data && offset < |data|
      ensures offset < |old(data)| ==> data == old(data)
      ensures ClusterIndex(offset, fs.sectorsPerCluster) < |clusters|
      ensures cluster == clusters[ClusterIndex(offset, fs.sectorsPerCluster)]
      ensures Capacity() == old(Capacity())
    {
      var spc := fs.sectorsPerCluster;
      ClusterRange();
      IndexBelow(offset, spc);
      SectorHasCluster(offset, spc, total, |clusters|);
      NeededIsEnough(total, spc);
      hide Stored, Capacity, ClusterIndex, SectorsIn, ClustersNeeded, ClusterOffset, InCluster;
      cluster := ClusterAt(ClusterIndex(offset, spc), ClustersNeeded(total, spc));
      SectorBelowEnd(offset);
    }

    lemma SectorBelowEnd(offset: nat)
      requires Stored() && ClusterIndex(offset, fs.sectorsPerCluster) < |clusters|
      ensures offset < |data|
    {
      var spc := fs.sectorsPerCluster;
      SplitSector(offset, spc);
      SectorsMonotone(ClusterIndex(offset, spc), |clusters|, spc);
    }

    /** _write_sectors: as many sectors as the cluster of sector `offset` still holds, straight from the
        buffer to the disk; at the end of the chain the file is grown first. */
    method WriteSectors(offset: nat, buf: seq<byte>, count: nat) returns (n: nat)
      requires Stored() && offset <= |data| && offset < 0xFFFF_FFFF
      requires 0 < count && 512 * count <= |buf|
      requires offset == |data| ==> |clusters| + ClustersNeeded(count, fs.sectorsPerCluster) <= Capacity()
      modifies `clusters, `data, `lookupIdx, `lookupCluster, fs, fs.disk, fs.pool
      ensures Stored()
      ensures n == InCluster(offset, fs.sectorsPerCluster, count)
      ensures |old(data)| <= |data| && offset + n <= |data|
      ensures offset < |old(data)| ==> |data| == |old(data)|
      ensures forall s :: offset <= s < offset + n ==> data[s] == Chunk(buf, 512 * (s - offset))
      ensures forall s :: 0 <= s < |old(data)| && !(offset <= s < offset + n) ==> data[s] == old(data)[s]
      ensures Capacity() == old(Capacity())
    {
      hide *;
      StoredIs();
      var spc := fs.sectorsPerCluster;
      var sector := ClusterOffset(offset, spc);
      n := if sector + count > spc then spc - sector else count;
      CountIs(offset, count);
      var cluster := ClusterForWrite(offset, count);
      RunFits(offset, count);
      var _ := TransferOut(offset, cluster, buf, n);
    }

    lemma CountIs(offset: nat, count: nat)
      requires Stored() && 0 < count
      ensures var spc, sector := fs.sectorsPerCluster, ClusterOffset(offset, fs.sectorsPerCluster);
        && InCluster(offset, spc, count) == (if sector + count > spc then spc - sector else count)
        && 0 < InCluster(offset, spc, count) <= count && sector + InCluster(offset, spc, count) <= spc
    {
    }

    lemma RunFits(offset: nat, count: nat)
      requires Stored() && offset < |data|
      ensures offset + InCluster(offset, fs.sectorsPerCluster, count) <= |data|
    {
      SectorHasCluster(offset, fs.sectorsPerCluster, count, |clusters|);
    }

    // -------------------------------------------------------------------------------------
    // The sector buffer
    // -------------------------------------------------------------------------------------

    /** The first `length` bytes of the file as the program sees them, buffer included. */
    ghost function View(length: nat): seq<byte>
      requires fileDataSector.Length == 512
      reads `data, `fileDataAddress, fileDataSector
    {
      Bytes(data, fileDataAddress, fileDataSector[..], length)
    }

    /** The buffer holds nothing, or one sector of a file of `length` bytes: a clean one equals the disk,
        a dirty one may be the sector that comes next after the last on the disk. */
    ghost predicate BufferOk(length: nat)
      reads `data, `fileDataAddress, `fileDataDirty, fileDataSector
    {
      && fileDataSector.Length == 512 && length < 0x1_0000_0000
      && Covered(|data|, fileDataAddress, fileDataDirty, length)
      && (fileDataDirty ==> fileDataAddress != NO_SECTOR && 512 * fileDataAddress < length)
      && (fileDataAddress != NO_SECTOR ==> fileDataAddress <= |data|)
      && (fileDataAddress != NO_SECTOR && !fileDataDirty ==>
            fileDataAddress < |data| && data[fileDataAddress] == fileDataSector[..])
    }

    /** There are clusters enough for a file of `length` bytes. */
    ghost predicate Room(length: nat)
      reads `clusters, fs`image
    {
      Fits(length, Capacity(), fs.sectorsPerCluster)
    }

    lemma RoomForSectors(length: nat, offset: nat, count: nat)
      requires Stored() && Room(length) && 0 < count && offset == |data| && 512 * (offset + count - 1) < length
      ensures |clusters| + ClustersNeeded(count, fs.sectorsPerCluster) <= Capacity()
    {
      ClusterRange();
      RoomToGrow(length, |clusters|, Capacity(), fs.sectorsPerCluster, count);
    }

    /** fl_fflush, for a file that is `length` bytes long (which fl_fwrite records only when it is done):
        a dirty buffer is written back, growing the file if need be, and no byte changes. */
    method FFlush(ghost length: nat)
      requires Stored() && BufferOk(length) && Room(length)
      modifies `fileDataDirty, `clusters, `data, `lookupIdx, `lookupCluster, fs, fs.disk, fs.pool
      ensures Stored() && BufferOk(length)
      ensures !fileDataDirty && |old(data)| <= |data|
      ensures View(length) == old(View(length))
      ensures Capacity() == old(Capacity())
    {
      if fileDataDirty {
        WriteBack(length);
      }
    }

    method WriteBack(ghost length: nat)
      requires Stored() && BufferOk(length) && Room(length) && fileDataDirty
      modifies `fileDataDirty, `clusters, `data, `lookupIdx, `lookupCluster, fs, fs.disk, fs.pool
      ensures Stored() && BufferOk(length)
      ensures !fileDataDirty && |old(data)| <= |data|
      ensures View(length) == old(View(length))
      ensures Capacity() == old(Capacity())
    {
      hide Stored, Capacity, Bytes, Chunk;
      FlushRoom(length);
      var n := WriteSectors(fileDataAddress, fileDataSector[..], 1);
      FlushDone();
      FlushKeepsBytes(old(data), data, fileDataAddress, fileDataSector[..], length);
      if n != 0 {
        fileDataDirty := false;
      }
    }

    lemma FlushRoom(length: nat)
      requires Stored() && BufferOk(length) && Room(length) && fileDataDirty
      ensures fileDataAddress == |data| ==> |clusters| + ClustersNeeded(1, fs.sectorsPerCluster) <= Capacity()
      ensures InCluster(fileDataAddress, fs.sectorsPerCluster, 1) == 1
    {
      if fileDataAddress == |data| {
        RoomForSectors(length, |data|, 1);
      }
    }

    lemma FlushDone()
      requires fileDataSector.Length == 512
      ensures Chunk(fileDataSector[..], 0) == fileDataSector[..]
    {
    }

    // -------------------------------------------------------------------------------------
    // fl_fread
    // -------------------------------------------------------------------------------------

    /** An open file between two calls. The cursor is past the start of the buffered sector. */
    ghost predicate Open()
      reads `clusters, `data, `startCluster, `lookupIdx, `lookupCluster, `bytenum, `filelength,
            `fileDataAddress, `fileDataDirty, fileDataSector, fs, fs.disk, fs.pool
    {
      && Stored() && BufferOk(filelength) && Room(filelength)
      && bytenum <= filelength
      && (fileDataAddress != NO_SECTOR ==> 512 * fileDataAddress < bytenum)
    }

    /** The sector of the file that fl_fread needs next is brought into the buffer. */
    method LoadForRead(sector: nat) returns (ok: bool)
      requires Stored() && BufferOk(filelength) && Room(filelength) && 512 * sector < filelength
      modifies `fileDataAddress, `fileDataDirty, `clusters, `data, `lookupIdx, `lookupCluster,
               fileDataSector, fs, fs.disk, fs.pool
      ensures Stored() && BufferOk(filelength)
      ensures ok && fileDataAddress == sector
      ensures View(filelength) == old(View(filelength))
      ensures Capacity() == old(Capacity())
    {
      hide Stored, Capacity, Bytes;
      if fileDataAddress != sector {
        if fileDataDirty {
          FFlush(filelength);
        }
        ok := Refill(sector, filelength);
        if !ok {
          return false;
        }
      }
      return true;
    }

    /** A clean buffer is filled from a sector of the file that is on the disk. */
    method Refill(sector: nat, ghost length: nat) returns (ok: bool)
      requires Stored() && BufferOk(length) && !fileDataDirty && sector <= |data| && sector < 0xFFFF_FFFF
      modifies `fileDataAddress, `fileDataDirty, `lookupIdx, `lookupCluster,
               fileDataSector, fs`head, fs`chain, fs`holder, fs`pending, fs.disk, fs.pool
      ensures Stored() && BufferOk(length)
      ensures ok <==> sector < |data|
      ensures ok ==> fileDataAddress == sector && !fileDataDirty
      ensures !ok ==> fileDataAddress == old(fileDataAddress) && !fileDataDirty
      ensures View(length) == old(View(length))
    {
      hide Stored, Bytes;
      OneInCluster(sector);
      var n := ReadSectors(sector, fileDataSector, 0, 1);
      if n == 0 {
        assert fileDataSector[0..] == fileDataSector[..];
        return false;
      }
      assert Chunk(fileDataSector[..], 0) == fileDataSector[..] == data[sector];
      CleanBuffer(data, fileDataAddress, old(fileDataSector[..]), sector, fileDataSector[..], length);
      fileDataAddress, fileDataDirty := sector, false;
      return true;
    }

    lemma OneInCluster(offset: nat)
      requires Stored()
      ensures InCluster(offset, fs.sectorsPerCluster, 1) == 1
    {
    }

    /** The direct transfer of fl_fread: whole sectors, past the buffer. */
    method ReadWhole(sector: nat, buffer: array<byte>, at: nat, want: nat) returns (n: nat)
      requires Stored() && BufferOk(filelength) && buffer != fileDataSector
      requires 0 < want && 512 * (sector + want) <= filelength && at + 512 * want <= buffer.Length
      requires fileDataAddress == NO_SECTOR || fileDataAddress < sector
      modifies `lookupIdx, `lookupCluster, fs`head, fs`chain, fs`holder, fs`pending, fs.disk, fs.pool, buffer
      ensures Stored() && BufferOk(filelength) && 0 < n <= want
      ensures View(filelength) == old(View(filelength))
      ensures buffer[at..at + 512 * n] == View(filelength)[512 * sector..512 * (sector + n)]
      ensures buffer[..at] == old(buffer[..at]) && buffer[at + 512 * n..] == old(buffer[at + 512 * n..])
    {
      hide Stored, Bytes;
      WholeSectorsExist(sector, want);
      n := ReadSectors(sector, buffer, at, want);
      DirectRead(data, fileDataAddress, fileDataSector[..], filelength, sector, n, buffer[..], at);
      assert buffer[..][at..at + 512 * n] == buffer[at..at + 512 * n];
    }

    lemma WholeSectorsExist(sector: nat, want: nat)
      requires Stored() && BufferOk(filelength)
      requires 0 < want && 512 * (sector + want) <= filelength
      requires fileDataAddress == NO_SECTOR || fileDataAddress < sector
      ensures sector < |data| && sector + want < 0xFFFF_FFFF
      ensures 0 < InCluster(sector, fs.sectorsPerCluster, want) <= want
    {
    }

    /** The buffered transfer of fl_fread: up to the end of the sector. */
    method ReadPart(sector: nat, offset: nat, buffer: array<byte>, at: nat, want: nat) returns (ok: bool, n: nat)
      requires Stored() && BufferOk(filelength) && Room(filelength) && buffer != fileDataSector
      requires offset < 512 && 0 < want && 512 * sector + offset + want <= filelength && at + want <= buffer.Length
      modifies `fileDataAddress, `fileDataDirty, `clusters, `data, `lookupIdx, `lookupCluster,
               fileDataSector, fs, fs.disk, fs.pool, buffer
      ensures Stored() && BufferOk(filelength) && ok
      ensures n == (if want < 512 - offset then want else 512 - offset)
      ensures fileDataAddress == sector
      ensures View(filelength) == old(View(filelength))
      ensures Capacity() == old(Capacity())
      ensures buffer[at..at + n] == View(filelength)[512 * sector + offset..512 * sector + offset + n]
      ensures buffer[..at] == old(buffer[..at]) && buffer[at + n..] == old(buffer[at + n..])
    {
      hide Stored, Bytes, Capacity, Fits;
      ok := LoadForRead(sector);
      n := 512 - offset;
      if n > want {
        n := want;
      }
      BufferedRead(data, fileDataSector[..], filelength, sector, offset, n);
      forall k | 0 <= k < n {
        buffer[at + k] := fileDataSector[offset + k];
      }
      assert buffer[at..at + n] == fileDataSector[..][offset..offset + n];
    }

    function FileMode(): Mode
    {
      Mode(readable, writable, append)
    }

    /** fl_fread: exactly the bytes at the cursor, up to the end of the file, whatever is buffered and
        however the transfer is split; the file itself is left as it is. It gives -1 exactly for a file
        that is not readable, and for a request at or behind the end. */
    method FRead(buffer: array<byte>, size: nat, length: nat) returns (r: int)
      requires Open() && buffer != fileDataSector
      requires size * length <= buffer.Length && bytenum + size * length < 0x1_0000_0000
      modifies `bytenum, `fileDataAddress, `fileDataDirty, `clusters, `data, `lookupIdx, `lookupCluster,
               fileDataSector, fs, fs.disk, fs.pool, buffer
      ensures Open()
      ensures r == -1 <==> !readable || (size * length > 0 && old(bytenum) >= filelength)
      ensures r != -1 ==>
        r == if size * length <= filelength - old(bytenum) then size * length else filelength - old(bytenum)
      ensures bytenum == old(bytenum) + (if r > 0 then r else 0)
      ensures View(filelength) == old(View(filelength))
      ensures Capacity() == old(Capacity())
      ensures r > 0 ==> buffer[..r] == View(filelength)[old(bytenum)..bytenum]
      ensures r <= 0 ==> buffer[..] == old(buffer[..])
      ensures r > 0 ==> buffer[r..] == old(buffer[r..])
    {
      hide Open, View, Bytes, Capacity;
      BufferSize();
      var count := size * length;
      r := -1;
      if readable && count == 0 {
        r := 0;
      } else if readable && bytenum < filelength {
        if bytenum + count > filelength {
          count := filelength - bytenum;
        }
        r := ReadSome(buffer, count);
      }
    }

    /** The part of it once the length is known */
    method ReadSome(buffer: array<byte>, count: nat) returns (r: int)
      requires Open() && buffer != fileDataSector && 0 < count <= buffer.Length && bytenum + count <= filelength
      modifies `bytenum, `fileDataAddress, `fileDataDirty, `clusters, `data, `lookupIdx, `lookupCluster,
               fileDataSector, fs, fs.disk, fs.pool, buffer
      ensures Open() && r == count && bytenum == old(bytenum) + count
      ensures View(filelength) == old(View(filelength))
      ensures Capacity() == old(Capacity())
      ensures buffer[..count] == View(filelength)[old(bytenum)..bytenum]
      ensures buffer[count..] == old(buffer[count..])
    {
      hide Open, Bytes, Capacity;
      BufferSize();
      NothingDelivered(buffer[..], View(filelength), bytenum);
      r := ReadLoop(buffer, count, View(filelength), bytenum);
      assert buffer[..][..count] == buffer[..count];
    }

    /** The sector of the cursor, and the cursor's place in it. */
    method CursorSector() returns (sector: nat, offset: nat)
      ensures offset < 512 && 512 * sector + offset == bytenum
    {
      sector, offset := bytenum / 512, bytenum % 512;
    }

    /** The turn of the loop of fl_fread that moves whole sectors. */
    method StepReadWhole(sector: nat, buffer: array<byte>, at: nat, want: nat) returns (copyCount: nat, next: nat)
      requires Open() && buffer != fileDataSector && 512 * sector == bytenum
      requires 512 <= want && bytenum + want <= filelength && at + want <= buffer.Length
      modifies `bytenum, `fileDataAddress, `fileDataDirty, `clusters, `data, `lookupIdx, `lookupCluster,
               fileDataSector, fs, fs.disk, fs.pool, buffer
      ensures Open() && 0 < copyCount <= want && 512 * next == bytenum
      ensures bytenum == old(bytenum) + copyCount
      ensures View(filelength) == old(View(filelength))
      ensures Capacity() == old(Capacity())
      ensures buffer[at..at + copyCount] == View(filelength)[old(bytenum)..bytenum]
      ensures buffer[..at] == old(buffer[..at]) && buffer[at + copyCount..] == old(buffer[at + copyCount..])
    {
      hide Stored, Bytes, Capacity, Fits;
      var n := ReadWhole(sector, buffer, at, want / 512);
      copyCount, next := 512 * n, sector + n;
      bytenum := bytenum + copyCount;
    }

    /** The turn that goes through the sector buffer. */
    method StepReadPart(sector: nat, offset: nat, buffer: array<byte>, at: nat, want: nat)
      returns (ok: bool, copyCount: nat)
      requires Open() && buffer != fileDataSector
      requires offset < 512 && 512 * sector + offset == bytenum
      requires 0 < want && bytenum + want <= filelength && at + want <= buffer.Length
      modifies `bytenum, `fileDataAddress, `fileDataDirty, `clusters, `data, `lookupIdx, `lookupCluster,
               fileDataSector, fs, fs.disk, fs.pool, buffer
      ensures Open() && ok && copyCount == if want < 512 - offset then want else 512 - offset
      ensures bytenum == old(bytenum) + copyCount
      ensures View(filelength) == old(View(filelength))
      ensures Capacity() == old(Capacity())
      ensures buffer[at..at + copyCount] == View(filelength)[old(bytenum)..bytenum]
      ensures buffer[..at] == old(buffer[..at]) && buffer[at + copyCount..] == old(buffer[at + copyCount..])
    {
      hide Stored, Bytes, Capacity, Fits;
      ok, copyCount := ReadPart(sector, offset, buffer, at, want);
      bytenum := bytenum + copyCount;
    }

    /** One turn of the loop of fl_fread, at the cursor. */
    method ReadStep(sector: nat, offset: nat, buffer: array<byte>, at: nat, want: nat)
      returns (ok: bool, copyCount: nat, next: nat)
      requires Open() && buffer != fileDataSector
      requires offset < 512 && 512 * sector + offset == bytenum
      requires 0 < want && bytenum + want <= filelength && at + want <= buffer.Length
      modifies `bytenum, `fileDataAddress, `fileDataDirty, `clusters, `data, `lookupIdx, `lookupCluster,
               fileDataSector, fs, fs.disk, fs.pool, buffer
      ensures Open() && ok && 0 < copyCount <= want
      ensures copyCount < want ==> 512 * next == bytenum
      ensures bytenum == old(bytenum) + copyCount
      ensures View(filelength) == old(View(filelength))
      ensures Capacity() == old(Capacity())
      ensures buffer[at..at + copyCount] == View(filelength)[old(bytenum)..bytenum]
      ensures buffer[..at] == old(buffer[..at]) && buffer[at + copyCount..] == old(buffer[at + copyCount..])
    {
      hide Open, Bytes, Capacity;
      BufferSize();
      if offset == 0 && want >= 512 {
        ok := true;
        copyCount, next := StepReadWhole(sector, buffer, at, want);
      } else {
        ok, copyCount := StepReadPart(sector, offset, buffer, at, want);
        next := sector + 1;
      }
      BufferSize();
    }

    /** fl_fread at work: the file is still `bytes`, and `done` of them are delivered. */
    ghost predicate Reading(bytes: seq<byte>, buffer: seq<byte>, pos: nat, done: nat)
      reads `clusters, `data, `startCluster, `lookupIdx, `lookupCluster, `bytenum, `filelength,
            `fileDataAddress, `fileDataDirty, fileDataSector, fs, fs.disk, fs.pool
    {
      && Open() && View(filelength) == bytes && bytenum == pos + done
      && done <= |buffer| && bytenum <= |bytes| && Delivered(buffer, bytes, pos, done)
    }

    /** The same turn, seen from the start of the call. */
    method ReadTurn(sector: nat, offset: nat, buffer: array<byte>, done: nat, count: nat, ghost bytes: seq<byte>,
                    ghost pos: nat)
      returns (ok: bool, copyCount: nat, next: nat)
      requires Reading(bytes, buffer[..], pos, done) && buffer != fileDataSector
      requires offset < 512 && 512 * sector + offset == pos + done
      requires done < count <= buffer.Length && pos + count <= filelength
      modifies `bytenum, `fileDataAddress, `fileDataDirty, `clusters, `data, `lookupIdx, `lookupCluster,
               fileDataSector, fs, fs.disk, fs.pool, buffer
      ensures Reading(bytes, buffer[..], pos, done + copyCount)
      ensures ok && 0 < copyCount && done + copyCount <= count
      ensures done + copyCount < count ==> 512 * next == pos + done + copyCount
      ensures Capacity() == old(Capacity())
      ensures buffer[count..] == old(buffer[count..])
    {
      hide Open, Bytes, Capacity, Delivered;
      BufferSize();
      ok, copyCount, next := ReadStep(sector, offset, buffer, done, count - done);
      DeliveredGoesOn(old(buffer[..]), buffer[..], View(filelength), pos, done, copyCount);
    }

    /** The loop of fl_fread. */
    method ReadLoop(buffer: array<byte>, count: nat, ghost bytes: seq<byte>, ghost pos: nat) returns (bytesRead: nat)
      requires Reading(bytes, buffer[..], pos, 0) && buffer != fileDataSector
      requires 0 < count <= buffer.Length && pos + count <= filelength
      modifies `bytenum, `fileDataAddress, `fileDataDirty, `clusters, `data, `lookupIdx, `lookupCluster,
               fileDataSector, fs, fs.disk, fs.pool, buffer
      ensures Reading(bytes, buffer[..], pos, count) && bytesRead == count
      ensures Capacity() == old(Capacity())
      ensures buffer[count..] == old(buffer[count..])
    {
      hide Reading, Capacity;
      CursorIs(bytes, buffer[..], pos, 0);
      var sector, offset := CursorSector();
      bytesRead := 0;
      while bytesRead < count
        invariant bytesRead <= count && Reading(bytes, buffer[..], pos, bytesRead)
        invariant bytesRead < count ==> offset < 512 && 512 * sector + offset == pos + bytesRead
        invariant Capacity() == old(Capacity())
        invariant buffer[count..] == old(buffer[count..])
      {
        var ok, copyCount, next := ReadTurn(sector, offset, buffer, bytesRead, count, bytes, pos);
        if !ok {
          break;
        }
        bytesRead := bytesRead + copyCount;
        sector, offset := next, 0;
      }
    }

    lemma CursorIs(bytes: seq<byte>, buffer: seq<byte>, pos: nat, done: nat)
      requires Reading(bytes, buffer, pos, done)
      ensures bytenum == pos + done
    {
    }

    lemma BufferSize()
      requires Open()
      ensures fileDataSector.Length == 512 && filelength < 0x1_0000_0000 && bytenum <= filelength
    {
    }

    // -------------------------------------------------------------------------------------
    // fl_fwrite
    // -------------------------------------------------------------------------------------

    lemma RoomIsEnough(length: nat, length': nat)
      requires Room(length') && length <= length'
      ensures Room(length)
    {
    }

    /** The direct transfer of fl_fwrite: the buffer is flushed and dropped, and whole sectors go
        straight to the disk, growing the file if need be. */
    method WriteWhole(sector: nat, src: seq<byte>, ghost length: nat) returns (n: nat)
      requires Stored() && BufferOk(length) && Room(Max(length, 512 * sector + |src|))
      requires 512 * sector <= length && 512 * sector + |src| < 0x1_0000_0000 && 512 <= |src|
      modifies `fileDataAddress, `fileDataDirty, `clusters, `data, `lookupIdx, `lookupCluster, fs, fs.disk, fs.pool
      ensures Stored() && BufferOk(Max(length, 512 * (sector + n)))
      ensures 0 < n && 512 * n <= |src| && fileDataAddress == NO_SECTOR
      ensures View(Max(length, 512 * (sector + n))) == Overwrite(old(View(length)), 512 * sector, src[..512 * n])
      ensures Capacity() == old(Capacity())
    {
      hide Stored, Bytes, Capacity, Fits, Overwrite, Chunk;
      RoomIsEnough(length, Max(length, 512 * sector + |src|));
      DropBuffer(length);
      var want := |src| / 512;
      WholeRoom(sector, want, Max(length, 512 * sector + |src|));
      n := PutWhole(sector, src, want, length);
    }

    /** fl_fwrite before a direct transfer: whatever is buffered is flushed and dropped. */
    method DropBuffer(ghost length: nat)
      requires Stored() && BufferOk(length) && Room(length)
      modifies `fileDataAddress, `fileDataDirty, `clusters, `data, `lookupIdx, `lookupCluster, fs, fs.disk, fs.pool
      ensures Stored() && BufferOk(length)
      ensures fileDataAddress == NO_SECTOR && !fileDataDirty
      ensures View(length) == old(View(length))
      ensures Capacity() == old(Capacity())
    {
      hide Stored, Bytes, Capacity, Fits;
      if fileDataAddress != NO_SECTOR {
        if fileDataDirty {
          FFlush(length);
        }
        CleanBuffer(data, fileDataAddress, fileDataSector[..], NO_SECTOR, fileDataSector[..], length);
        fileDataAddress, fileDataDirty := NO_SECTOR, false;
      }
    }

    lemma WholeRoom(sector: nat, want: nat, length: nat)
      requires Stored() && Room(length) && 0 < want && 512 * (sector + want) <= length
      ensures sector == |data| ==> |clusters| + ClustersNeeded(want, fs.sectorsPerCluster) <= Capacity()
      ensures 0 < InCluster(sector, fs.sectorsPerCluster, want) <= want
    {
      if sector == |data| {
        RoomForSectors(length, sector, want);
      }
    }

    method PutWhole(sector: nat, src: seq<byte>, want: nat, ghost length: nat) returns (n: nat)
      requires Stored() && BufferOk(length) && fileDataAddress == NO_SECTOR && !fileDataDirty
      requires 512 * sector <= length && 512 * sector + |src| < 0x1_0000_0000 && 0 < want && 512 * want <= |src|
      requires sector == |data| ==> |clusters| + ClustersNeeded(want, fs.sectorsPerCluster) <= Capacity()
      requires 0 < InCluster(sector, fs.sectorsPerCluster, want) <= want
      modifies `clusters, `data, `lookupIdx, `lookupCluster, fs, fs.disk, fs.pool
      ensures Stored() && BufferOk(Max(length, 512 * (sector + n)))
      ensures 0 < n <= want
      ensures View(Max(length, 512 * (sector + n))) == Overwrite(old(View(length)), 512 * sector, src[..512 * n])
      ensures Capacity() == old(Capacity())
    {
      hide Stored, Bytes, Capacity, Overwrite, Chunk, InCluster;
      n := WriteSectors(sector, src, want);
      DirectWrite(old(data), data, fileDataSector[..], length, sector, src, n);
    }

    /** The buffered transfer of fl_fwrite: into the sector buffer, up to the end of the sector. The
        sector is read first if it exists, and starts as zeros if it does not. */
    method WritePart(sector: nat, offset: nat, src: seq<byte>, ghost length: nat) returns (n: nat)
      requires Stored() && BufferOk(length) && Room(Max(length, 512 * sector + offset + |src|))
      requires offset < 512 && 0 < |src| && !(offset == 0 && |src| >= 512)
      requires 512 * sector + offset <= length && 512 * sector + offset + |src| < 0x1_0000_0000
      modifies `fileDataAddress, `fileDataDirty, `clusters, `data, `lookupIdx, `lookupCluster,
               fileDataSector, fs, fs.disk, fs.pool
      ensures n == (if |src| < 512 - offset then |src| else 512 - offset)
      ensures Stored() && BufferOk(Max(length, 512 * sector + offset + n))
      ensures fileDataAddress == sector
      ensures View(Max(length, 512 * sector + offset + n))
           == Overwrite(old(View(length)), 512 * sector + offset, src[..n])
      ensures Capacity() == old(Capacity())
      ensures !old(fileDataDirty) ==> data == old(data)
    {
      hide Stored, Bytes, Capacity, Fits, Room, Overwrite;
      n := 512 - offset;
      if n > |src| {
        n := |src|;
      }
      Prepare(sector, n, length, Max(length, 512 * sector + offset + |src|));
      ghost var was := fileDataSector[..];
      forall k | 0 <= k < n {
        fileDataSector[offset + k] := src[k];
      }
      assert fileDataSector[..] == was[..offset] + src[..n] + was[offset + n..];
      BufferedWrite(data, was, fileDataSector[..], length, sector, offset, src[..n]);
      fileDataDirty := true;
    }

    /** The buffer is made to hold `sector`. */
    method Prepare(sector: nat, copyCount: nat, ghost length: nat, ghost extent: nat)
      requires Stored() && BufferOk(length) && Room(extent) && length <= extent
      requires 512 * sector <= length && copyCount != 512
      modifies `fileDataAddress, `fileDataDirty, `clusters, `data, `lookupIdx, `lookupCluster,
               fileDataSector, fs, fs.disk, fs.pool
      ensures Stored() && fileDataSector.Length == 512
      ensures fileDataAddress == sector <= |data|
      ensures length <= 512 * |data| || (sector == |data| && length <= 512 * (sector + 1))
      ensures View(length) == old(View(length))
      ensures Capacity() == old(Capacity())
      ensures !old(fileDataDirty) ==> data == old(data)
    {
      hide Stored, Bytes, Capacity, Fits;
      RoomIsEnough(length, extent);
      if fileDataAddress != sector {
        LoadForWrite(sector, copyCount, length);
      }
    }

    /** The part of fl_fwrite that changes over to another sector. */
    method LoadForWrite(sector: nat, copyCount: nat, ghost length: nat)
      requires Stored() && BufferOk(length) && Room(length)
      requires 512 * sector <= length && fileDataAddress != sector && copyCount != 512
      modifies `fileDataAddress, `fileDataDirty, `clusters, `data, `lookupIdx, `lookupCluster,
               fileDataSector, fs, fs.disk, fs.pool
      ensures Stored() && fileDataSector.Length == 512
      ensures fileDataAddress == sector <= |data| && !fileDataDirty && length <= 512 * |data|
      ensures View(length) == old(View(length))
      ensures Capacity() == old(Capacity())
      ensures !old(fileDataDirty) ==> data == old(data)
    {
      hide Stored, Bytes, Capacity, Fits;
      if fileDataDirty {
        FFlush(length);
      }
      if copyCount != 512 {
        var ok := Refill(sector, length);
        if !ok {
          ghost var was := fileDataSector[..];
          forall k | 0 <= k < 512 {
            fileDataSector[k] := 0;
          }
          FreshSector(data, fileDataAddress, was, fileDataSector[..], length);
        }
      }
      fileDataAddress, fileDataDirty := sector, false;
    }

    /** A write that goes into one sector buffer with nothing to be flushed before. */
    predicate OnePart(offset: nat, count: int, dirty: bool)
    {
      !dirty && count < 512 && offset + count <= 512
    }

    /** How long the file has become while fl_fwrite is at work; filelength is set at the end only. */
    ghost function Extent(): nat
      reads `bytenum, `filelength
    {
      Max(filelength, bytenum)
    }

    /** The file while fl_fwrite is at work, with `left` bytes still to be written. */
    ghost predicate Writing(left: nat)
      reads `clusters, `data, `startCluster, `lookupIdx, `lookupCluster, `bytenum, `filelength,
            `fileDataAddress, `fileDataDirty, fileDataSector, fs, fs.disk, fs.pool
    {
      && Stored() && BufferOk(Extent()) && Room(Max(filelength, bytenum + left))
      && bytenum + left < 0x1_0000_0000
      && (fileDataAddress != NO_SECTOR ==> 512 * fileDataAddress < bytenum)
    }

    /** The turn of the loop of fl_fwrite that moves whole sectors. */
    method StepWhole(sector: nat, src: seq<byte>) returns (n: nat)
      requires Writing(|src|) && 512 <= |src| && 512 * sector == bytenum && fileDataSector.Length == 512
      modifies `bytenum, `fileDataAddress, `fileDataDirty, `clusters, `data, `lookupIdx, `lookupCluster, fs, fs.disk,
               fs.pool
      ensures 0 < n && 512 * n <= |src| && Writing(|src| - 512 * n)
      ensures bytenum == old(bytenum) + 512 * n
      ensures View(Extent()) == Overwrite(old(View(Extent())), old(bytenum), src[..512 * n])
      ensures Capacity() == old(Capacity())
    {
      hide Stored, Bytes, Capacity, Fits, Overwrite;
      n := WriteWhole(sector, src, Extent());
      bytenum := bytenum + 512 * n;
    }

    /** The turn that goes through the sector buffer. */
    method StepPart(sector: nat, offset: nat, src: seq<byte>) returns (n: nat)
      requires Writing(|src|) && 0 < |src| && !(offset == 0 && |src| >= 512) && fileDataSector.Length == 512
      requires offset < 512 && 512 * sector + offset == bytenum
      modifies `bytenum, `fileDataAddress, `fileDataDirty, `clusters, `data, `lookupIdx, `lookupCluster,
               fileDataSector, fs, fs.disk, fs.pool
      ensures n == (if |src| < 512 - offset then |src| else 512 - offset)
      ensures Writing(|src| - n)
      ensures bytenum == old(bytenum) + n
      ensures View(Extent()) == Overwrite(old(View(Extent())), old(bytenum), src[..n])
      ensures Capacity() == old(Capacity())
      ensures !old(fileDataDirty) ==> data == old(data)
    {
      hide Stored, Bytes, Capacity, Fits, Overwrite;
      n := WritePart(sector, offset, src, Extent());
      bytenum := bytenum + n;
    }

    /** One turn of the loop of fl_fwrite, at the cursor. */
    method WriteStep(sector: nat, offset: nat, src: seq<byte>) returns (copyCount: nat, next: nat)
      requires Writing(|src|) && 0 < |src| && fileDataSector.Length == 512
      requires offset < 512 && 512 * sector + offset == bytenum
      modifies `bytenum, `fileDataAddress, `fileDataDirty, `clusters, `data, `lookupIdx, `lookupCluster,
               fileDataSector, fs, fs.disk, fs.pool
      ensures 0 < copyCount <= |src| && Writing(|src| - copyCount)
      ensures bytenum == old(bytenum) + copyCount
      ensures copyCount < |src| ==> 512 * next == bytenum
      ensures View(Extent()) == Overwrite(old(View(Extent())), old(bytenum), src[..copyCount])
      ensures Capacity() == old(Capacity())
      ensures OnePart(offset, |src|, old(fileDataDirty)) ==> copyCount == |src| && data == old(data)
    {
      hide Writing, Bytes, Capacity, Overwrite;
      if offset == 0 && |src| >= 512 {
        var n := StepWhole(sector, src);
        copyCount, next := 512 * n, sector + n;
      } else {
        copyCount := StepPart(sector, offset, src);
        next := sector + 1;
      }
    }

    /** The same turn, seen from the start of the call: `done` bytes are written, then some more. */
    method WriteTurn(sector: nat, offset: nat, src: seq<byte>, done: nat, ghost bytes: seq<byte>, ghost pos: nat)
      returns (copyCount: nat, next: nat)
      requires done < |src| && Writing(|src| - done) && fileDataSector.Length == 512
      requires offset < 512 && 512 * sector + offset == bytenum == pos + done
      requires pos <= |bytes| && Progress(View(Extent()), bytes, pos, src, done)
      modifies `bytenum, `fileDataAddress, `fileDataDirty, `clusters, `data, `lookupIdx, `lookupCluster,
               fileDataSector, fs, fs.disk, fs.pool
      ensures 0 < copyCount && done + copyCount <= |src|
      ensures Writing(|src| - (done + copyCount)) && fileDataSector.Length == 512
      ensures bytenum == pos + done + copyCount
      ensures done + copyCount < |src| ==> 512 * next == bytenum
      ensures Progress(View(Extent()), bytes, pos, src, done + copyCount)
      ensures Capacity() == old(Capacity())
      ensures OnePart(offset, |src| - done, old(fileDataDirty)) ==> done + copyCount == |src| && data == old(data)
    {
      hide Writing, Bytes, Capacity, Overwrite, Progress;
      copyCount, next := WriteStep(sector, offset, src[done..]);
      ProgressGoesOn(old(View(Extent())), View(Extent()), bytes, pos, src, done, copyCount);
    }

    /** The loop of fl_fwrite. */
    method WriteLoop(src: seq<byte>)
      requires Writing(|src|) && fileDataSector.Length == 512
      modifies `bytenum, `fileDataAddress, `fileDataDirty, `clusters, `data, `lookupIdx, `lookupCluster,
               fileDataSector, fs, fs.disk, fs.pool
      ensures Writing(0) && fileDataSector.Length == 512
      ensures bytenum == old(bytenum) + |src|
      ensures View(Extent()) == Overwrite(old(View(Extent())), old(bytenum), src)
      ensures Capacity() == old(Capacity())
      ensures OnePart(old(bytenum) % 512, |src|, old(fileDataDirty)) ==> data == old(data)
    {
      hide Writing, Bytes, Capacity, Overwrite, Progress;
      ProgressStarts(View(Extent()), bytenum, src);
      var sector, offset := CursorSector();
      var bytesWritten: nat := 0;
      while bytesWritten < |src|
        invariant bytesWritten <= |src| && Writing(|src| - bytesWritten) && fileDataSector.Length == 512
        invariant bytenum == old(bytenum) + bytesWritten
        invariant bytesWritten < |src| ==> offset < 512 && 512 * sector + offset == bytenum
        invariant Progress(View(Extent()), old(View(Extent())), old(bytenum), src, bytesWritten)
        invariant Capacity() == old(Capacity())
        invariant OnePart(old(bytenum) % 512, |src|, old(fileDataDirty)) ==>
          data == old(data) && (bytesWritten == |src| ||
                                (bytesWritten == 0 && offset == old(bytenum) % 512 && !fileDataDirty))
      {
        var copyCount, next := WriteTurn(sector, offset, src, bytesWritten, old(View(Extent())), old(bytenum));
        bytesWritten := bytesWritten + copyCount;
        sector, offset := next, 0;
      }
      ProgressEnds(View(Extent()), old(View(Extent())), old(bytenum), src);
    }

    /** Where fl_fwrite writes: at the cursor, or at the end of the file in append mode. */
    ghost function WritePosition(): nat
      reads `bytenum, `filelength
    {
      if append then filelength else bytenum
    }

    /** fl_fwrite: on the bytes of the file it is Overwrite at the write position, however the transfer
        is split, buffered and allocated. It returns the size of the request in any case. */
    method FWrite(src: seq<byte>, size: nat, count: nat) returns (r: int)
      requires Open() && size * count == |src|
      requires WritePosition() + |src| < 0x1_0000_0000
      requires Room(Max(filelength, WritePosition() + |src|))
      modifies `bytenum, `filelength, `filelengthChanged, `fileDataAddress, `fileDataDirty, `clusters, `data,
               `lookupIdx, `lookupCluster, fileDataSector, fs, fs.disk, fs.pool
      ensures Open()
      ensures r == if writable then |src| else -1
      ensures writable ==> bytenum == (if append then old(filelength) else old(bytenum)) + |src|
      ensures writable ==> filelength == Max(old(filelength), bytenum)
      ensures writable ==> View(filelength) == Overwrite(old(View(filelength)), old(WritePosition()), src)
      ensures !writable ==>
        bytenum == old(bytenum) && filelength == old(filelength) && View(filelength) == old(View(filelength))
      ensures Capacity() == old(Capacity())
      ensures OnePart(old(WritePosition()) % 512, |src|, old(fileDataDirty)) ==> data == old(data)
    {
      hide Open, Writing, Bytes, Capacity, Overwrite;
      if !writable {
        return -1;
      }
      Begin(|src|);
      WriteLoop(src);
      Finish();
      return size * count;
    }

    /** fl_fwrite sets out: in append mode the cursor goes to the end of the file. */
    method Begin(left: nat)
      requires Open() && WritePosition() + left < 0x1_0000_0000
      requires Room(Max(filelength, WritePosition() + left))
      modifies `bytenum
      ensures Writing(left) && fileDataSector.Length == 512 && Extent() == filelength
      ensures bytenum == old(WritePosition())
    {
      hide Stored, Fits;
      if append {
        bytenum := filelength;
      }
    }

    /** The new length is recorded when fl_fwrite is done. */
    method Finish()
      requires Writing(0) && fileDataSector.Length == 512
      modifies `filelength, `filelengthChanged
      ensures Open() && filelength == old(Extent())
    {
      hide Stored, Fits;
      if bytenum > filelength {
        filelength := bytenum;
        filelengthChanged := true;
      }
    }

    // -------------------------------------------------------------------------------------
    // fl_fseek
    // -------------------------------------------------------------------------------------

    /** The bytes of the file without the sector buffer. */
    ghost function DiskView(): seq<byte>
      requires fileDataSector.Length == 512
      reads `data, `filelength, fileDataSector
    {
      Bytes(data, NO_SECTOR, fileDataSector[..], filelength)
    }

    /** fl_fseek: unless the seek is refused outright, the buffer is dropped, written back or not. The
        file keeps its bytes exactly if the buffer was clean, as after a flush, or every byte of it
        that belongs to the file is the one on the disk. */
    method FSeek(offset: int, origin: int) returns (r: int)
      requires Open()
      requires -0x8000_0000 <= offset < 0x8000_0000
      requires origin == SEEK_CUR ==> bytenum + offset < 0x1_0000_0000
      modifies `bytenum, `fileDataAddress, `fileDataDirty
      ensures r == if origin == 0 || origin == 1 || (origin == 2 && offset == 0) then 0 else -1
      ensures SeekRefused(offset, origin) ==>
        Open() && bytenum == old(bytenum) && View(filelength) == old(View(filelength))
      ensures SoughtTo(filelength, old(bytenum), bytenum, offset, origin)
      ensures fileDataSector.Length == 512
      ensures !SeekRefused(offset, origin) ==> View(filelength) == DiskView() == old(DiskView())
      ensures !SeekRefused(offset, origin) ==> (Open() <==> filelength <= 512 * |data|)
      ensures !SeekRefused(offset, origin) ==>
        (View(filelength) == old(View(filelength)) <==>
           !old(fileDataDirty) || Saved(data, old(fileDataAddress), old(fileDataSector[..]), filelength))
      ensures !old(fileDataDirty) ==> Open()
    {
      hide Stored, Bytes, Capacity, Room, Saved;
      if origin == SEEK_END && offset != 0 {
        return -1;
      }
      Forget();
      r := MoveCursor(offset, origin);
    }

    /** The buffer is given up, written back or not. */
    method Forget()
      requires Stored() && BufferOk(filelength)
      modifies `fileDataAddress, `fileDataDirty
      ensures fileDataAddress == NO_SECTOR && !fileDataDirty && fileDataSector.Length == 512
      ensures View(filelength) == DiskView() == old(DiskView())
      ensures BufferOk(filelength) <==> filelength <= 512 * |data|
      ensures !old(fileDataDirty) ==> BufferOk(filelength)
      ensures View(filelength) == old(View(filelength)) <==>
        !old(fileDataDirty) || Saved(data, old(fileDataAddress), old(fileDataSector[..]), filelength)
    {
      hide Stored, Bytes, Saved;
      if !fileDataDirty {
        CleanBuffer(data, fileDataAddress, fileDataSector[..], NO_SECTOR, fileDataSector[..], filelength);
      } else {
        DroppedBuffer(data, fileDataAddress, fileDataSector[..], filelength);
      }
      fileDataAddress, fileDataDirty := NO_SECTOR, false;
    }

    /** Unwritten data is lost: a byte written into a clean file, a seek back without a flush, and the
        byte read is the old one. */
    method WriteSeekLoses(x: byte) returns (got: byte)
      requires Open() && readable && writable && !append && !fileDataDirty && bytenum == 0 < filelength
      modifies `bytenum, `filelength, `filelengthChanged, `fileDataAddress, `fileDataDirty, `clusters, `data,
               `lookupIdx, `lookupCluster, fileDataSector, fs, fs.disk, fs.pool
      ensures Open() && filelength == old(filelength)
      ensures got == old(View(filelength))[0] && View(filelength) == old(View(filelength))
    {
      hide Stored, Bytes, Capacity, Fits, Saved, Overwrite;
      CleanView();
      var _ := FWrite([x], 1, 1);
      CleanBuffer(data, NO_SECTOR, old(fileDataSector[..]), NO_SECTOR, fileDataSector[..], filelength);
      var _ := FSeek(0, SEEK_SET);
      var buffer := new byte[1];
      var _ := FRead(buffer, 1, 1);
      assert buffer[..1][0] == View(filelength)[0..1][0];
      got := buffer[0];
    }

    lemma CleanView()
      requires Open() && !fileDataDirty
      ensures fileDataSector.Length == 512 && filelength <= 512 * |data|
      ensures View(filelength) == DiskView()
    {
      CleanBuffer(data, fileDataAddress, fileDataSector[..], NO_SECTOR, fileDataSector[..], filelength);
    }

    method MoveCursor(offset: int, origin: int) returns (r: int)
      requires bytenum <= filelength && !SeekRefused(offset, origin)
      requires -0x8000_0000 <= offset < 0x8000_0000
      requires origin == SEEK_CUR ==> bytenum + offset < 0x1_0000_0000
      modifies `bytenum
      ensures SoughtTo(filelength, old(bytenum), bytenum, offset, origin) && bytenum <= filelength
      ensures r == if origin == 0 || origin == 1 || (origin == 2 && offset == 0) then 0 else -1
    {
      if origin == SEEK_SET {
        bytenum := offset % 0x1_0000_0000;
        if bytenum > filelength {
          bytenum := filelength;
        }
        r := 0;
      } else if origin == SEEK_CUR {
        if offset >= 0 {
          bytenum := bytenum + offset;
          if bytenum > filelength {
            bytenum := filelength;
          }
        } else {
          var back := -offset;
          if back > bytenum {
            bytenum := 0;
          } else {
            bytenum := bytenum - back;
          }
        }
        r := 0;
      } else if origin == SEEK_END {
        bytenum := filelength;
        r := 0;
      } else {
        r := -1;
      }
    }

    // -------------------------------------------------------------------------------------
    // Whole runs
    // -------------------------------------------------------------------------------------

    /** The plain byte sequence with a cursor that an open file stands for. */
    ghost function State(): (p: Plain)
      requires Open()
      reads `clusters, `data, `startCluster, `lookupIdx, `lookupCluster, `bytenum, `filelength,
            `fileDataAddress, `fileDataDirty, fileDataSector, fs, fs.disk, fs.pool
      ensures p.cursor <= |p.bytes|
    {
      Plain(View(filelength), bytenum)
    }

    /** A file that has just been opened stands for the bytes on the disk, with the cursor at 0. */
    lemma OpenedFile()
      requires JustOpened() && OnVolume() && filelength <= 512 * |data|
      ensures Open() && State() == Plain(Contents(data, filelength), 0)
    {
      hide FilesOn;
      ClusterRange();
      CapacityIs();
      RoomForAll(filelength, |clusters|, Capacity(), fs.sectorsPerCluster);
      ContentsAre(data, fileDataSector[..], filelength);
    }

    /** So does a file that has just been flushed. */
    lemma FlushedFile()
      requires Open() && !fileDataDirty
      ensures filelength <= 512 * |data| && State().bytes == Contents(data, filelength)
    {
      hide Stored, Bytes;
      CleanView();
      ContentsAre(data, fileDataSector[..], filelength);
    }

    method PerformWrite(src: seq<byte>) returns (reply: Reply)
      requires Open() && InRange(FileMode(), State(), Write(src))
      requires Fits(|Next(FileMode(), State(), Write(src)).bytes|, Capacity(), fs.sectorsPerCluster)
      modifies `bytenum, `filelength, `filelengthChanged, `fileDataAddress, `fileDataDirty, `clusters, `data,
               `lookupIdx, `lookupCluster, fileDataSector, fs, fs.disk, fs.pool
      ensures Open()
      ensures State() == Next(FileMode(), old(State()), Write(src))
      ensures reply == Answer(FileMode(), old(State()), Write(src))
      ensures Capacity() == old(Capacity())
    {
      hide Stored, BufferOk, Bytes, Fits, Capacity, Overwrite;
      if !writable {
        return Reply(-1, []);
      }
      var r := FWrite(src, 1, |src|);
      return Reply(r, []);
    }

    method PerformRead(count: nat) returns (reply: Reply)
      requires Open() && InRange(FileMode(), State(), Read(count))
      modifies `bytenum, `filelength, `filelengthChanged, `fileDataAddress, `fileDataDirty, `clusters, `data,
               `lookupIdx, `lookupCluster, fileDataSector, fs, fs.disk, fs.pool
      ensures Open()
      ensures State() == Next(FileMode(), old(State()), Read(count))
      ensures reply == Answer(FileMode(), old(State()), Read(count))
      ensures Capacity() == old(Capacity())
    {
      hide Stored, BufferOk, Bytes, Fits, Capacity;
      var buffer := new byte[count];
      var r := FRead(buffer, 1, count);
      return Reply(r, if r > 0 then buffer[..r] else []);
    }

    /** A flush, and a seek after it. */
    method PerformSeek(op: Op) returns (reply: Reply)
      requires Open() && (op.Flush? || op.Seek?) && InRange(FileMode(), State(), op)
      modifies `bytenum, `filelength, `filelengthChanged, `fileDataAddress, `fileDataDirty, `clusters, `data,
               `lookupIdx, `lookupCluster, fileDataSector, fs, fs.disk, fs.pool
      ensures Open()
      ensures State() == Next(FileMode(), old(State()), op)
      ensures reply == Answer(FileMode(), old(State()), op)
      ensures Capacity() == old(Capacity())
    {
      hide Stored, BufferOk, Bytes, Fits, Capacity;
      FlushOpen();
      var r := 0;
      if op.Seek? {
        r := FSeek(op.offset, op.origin);
      }
      return Reply(r, []);
    }

    /** fl_fflush between two calls. */
    method FlushOpen()
      requires Open()
      modifies `fileDataDirty, `clusters, `data, `lookupIdx, `lookupCluster, fs, fs.disk, fs.pool
      ensures Open() && !fileDataDirty
      ensures View(filelength) == old(View(filelength))
      ensures Capacity() == old(Capacity())
    {
      hide Stored, Bytes, Fits, Capacity;
      FFlush(filelength);
    }

    /** One call, with a flush in front of every seek: results and file are those of the plain byte
        sequence. */
    method Perform(op: Op) returns (reply: Reply)
      requires Open() && InRange(FileMode(), State(), op)
      requires Fits(|Next(FileMode(), State(), op).bytes|, Capacity(), fs.sectorsPerCluster)
      modifies `bytenum, `filelength, `filelengthChanged, `fileDataAddress, `fileDataDirty, `clusters, `data,
               `lookupIdx, `lookupCluster, fileDataSector, fs, fs.disk, fs.pool
      ensures Open()
      ensures State() == Next(FileMode(), old(State()), op)
      ensures reply == Answer(FileMode(), old(State()), op)
      ensures Capacity() == old(Capacity())
    {
      hide Open, Next, Answer, InRange, Fits, Capacity;
      match op
      case Write(src) =>
        reply := PerformWrite(src);
      case Read(count) =>
        reply := PerformRead(count);
      case Flush =>
        reply := PerformSeek(op);
      case Seek(_, _) =>
        reply := PerformSeek(op);
    }

    /** File refinement: over every sequence of calls that stays in range, and for which there are
        clusters enough, an open file answers as the plain byte sequence does and ends as it does. */
    method Run(ops: seq<Op>) returns (replies: seq<Reply>)
      requires Open() && AllInRange(FileMode(), State(), ops)
      requires Fits(|RunState(FileMode(), State(), ops).bytes|, Capacity(), fs.sectorsPerCluster)
      modifies `bytenum, `filelength, `filelengthChanged, `fileDataAddress, `fileDataDirty, `clusters, `data,
               `lookupIdx, `lookupCluster, fileDataSector, fs, fs.disk, fs.pool
      ensures Open()
      ensures State() == RunState(FileMode(), old(State()), ops)
      ensures replies == RunReplies(FileMode(), old(State()), ops)
      ensures Capacity() == old(Capacity())
    {
      hide Open, Next, Answer, InRange, Fits, Capacity, AllInRange;
      replies := [];
      var k: nat := 0;
      assert ops[..0] == [];
      while k < |ops|
        invariant Open() && k <= |ops|
        invariant State() == RunState(FileMode(), old(State()), ops[..k])
        invariant replies == RunReplies(FileMode(), old(State()), ops[..k])
        invariant Capacity() == old(Capacity())
      {
        NextCall(FileMode(), old(State()), ops, k, Capacity(), fs.sectorsPerCluster);
        var reply := Perform(ops[k]);
        replies := replies + [reply];
        k := k + 1;
      }
      assert ops[..k] == ops;
    }
  }
}
