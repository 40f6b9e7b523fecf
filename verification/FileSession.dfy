/** A whole session with one file: mount, open, any calls, close. */
module FileSession {
  import opened Sequences
  import opened FatWords
  import opened FatChains
  import opened FatTable
  import opened FileLayout
  import opened FileSpec
  import opened FileLib

  /** What mounting reads from the boot sector, and the first cluster number that is not on the disk. */
  datatype Mount = Mount(fatType: FatType, fatBegin: nat, fatSectors: nat, rootCluster: uint32, infoLba: nat,
                         dataBegin: nat, rootEntries: nat, spc: nat, limit: nat)
  {
    function DataStart(): nat {
      if fatType.Fat16? then dataBegin + rootEntries * 32 / SECTOR_SIZE else dataBegin
    }

    function Vol(): Volume {
      Volume(fatType, rootCluster, DataStart(), spc, limit)
    }

    ghost predicate Fitting(size: nat) {
      && size < INVALID_ADDRESS
      && 0 < fatSectors && EntriesIn(fatType, fatSectors) <= LAST_CLUSTER
      && infoLba < fatBegin
      && fatBegin + fatSectors <= dataBegin <= size
      && 0 < spc < 256
    }

    /** The FAT as it is on the disk. */
    ghost function FatOn(sectors: seq<Sector>): Fat
      requires Fitting(|sectors|)
    {
      Entries(fatType, sectors[fatBegin..fatBegin + fatSectors])
    }

    /** A disk with a file in `clusters` and any other chain. */
    ghost predicate Holds(sectors: seq<Sector>, clusters: seq<nat>, data: seq<Sector>,
                          other: seq<nat>, otherData: seq<Sector>)
    {
      && Fitting(|sectors|) && clusters != []
      && FilesOn(Vol(), FatOn(sectors), sectors, clusters, data, other, otherData)
    }

    /** How many clusters a file in `clusters` can have. */
    ghost function Capacity(sectors: seq<Sector>, clusters: seq<nat>): nat
      requires Fitting(|sectors|)
    {
      |clusters| + Blanks(fatType, FatOn(sectors), rootCluster, limit)
    }
  }

  /** Where a byte of a file is: in sector k of the i-th cluster c of its chain, which is sector
      (c - 2) * spc + k of the data area. On FAT16 the root directory comes in front, 32 bytes an entry. */
  lemma BytePlace(m: Mount, sectors: seq<Sector>, clusters: seq<nat>, data: seq<Sector>,
                  other: seq<nat>, otherData: seq<Sector>, i: nat, k: nat, b: nat)
    requires m.Holds(sectors, clusters, data, other, otherData) && i < |clusters| && k < m.spc && b < 512
    ensures var root := if m.fatType.Fat16? then m.rootEntries * 32 / 512 else 0;
      var p, lba := 512 * (i * m.spc + k) + b, m.dataBegin + root + (clusters[i] - 2) * m.spc + k;
      && p < 512 * |data| && 0 <= lba < |sectors|
      && Contents(data, 512 * |data|)[p] == sectors[lba][b]
  {
    hide Mount.Holds, Mirrors;
    HoldsMirror(m, sectors, clusters, data, other, otherData);
    MirrorPlace(sectors, m.DataStart(), m.spc, clusters, data, i, k);
    ByteOfSector(i * m.spc + k, b);
  }

  lemma HoldsMirror(m: Mount, sectors: seq<Sector>, clusters: seq<nat>, data: seq<Sector>,
                    other: seq<nat>, otherData: seq<Sector>)
    requires m.Holds(sectors, clusters, data, other, otherData)
    ensures Mirrors(sectors, m.DataStart(), m.spc, clusters, data)
  {
  }

  lemma ByteOfSector(s: nat, b: nat)
    requires b < 512
    ensures (512 * s + b) / 512 == s && (512 * s + b) % 512 == b
  {
  }

  /** The FAT32 as the formatter leaves it: the two reserved entries, the root directory in cluster 2,
      and blank entries to the end of the last FAT sector, most volumes' last clusters being below that. */
  ghost predicate Formatted(f: Fat) {
    && 3 <= |f| && f[0] == 0x0FFF_FFF8 && f[1] == 0xFFFF_FFFF && f[2] == 0x0FFF_FFFF
    && forall c :: 3 <= c < |f| ==> f[c] == 0
  }

  /** Such a volume holds the root directory, which can be given every other cluster on the disk. */
  lemma FormattedVolume(m: Mount, sectors: seq<Sector>) returns (data: seq<Sector>)
    requires m.fatType.Fat32? && m.rootCluster == 2 && m.Fitting(|sectors|) && Formatted(m.FatOn(sectors))
    requires 3 <= m.limit <= LinkLimit(Fat32) && m.limit <= |m.FatOn(sectors)|
    requires ClusterLba(m.DataStart(), m.spc, m.limit) <= |sectors|
    ensures m.Holds(sectors, [2], data, [], []) && m.Capacity(sectors, [2]) == m.limit - 2
  {
    var f := m.FatOn(sectors);
    hide Entries, Mirrors, ClusterLba, SectorsIn, IsChain, NoneReserved;
    EmptyMirror(sectors, m.DataStart(), m.spc);
    data := MirrorGrows(sectors, m.DataStart(), m.spc, [], [], [2], m.limit);
    assert [] + [2] == [2];
    AllBlank(m.fatType, f, 3, m.limit);
    RootChain(f, m.limit);
  }

  lemma RootChain(f: Fat, limit: nat)
    requires Formatted(f)
    ensures IsChain(Fat32, f, [2]) && NoneReserved(Fat32, f, 2, limit)
  {
    hide Blanks;
  }

  lemma EmptyMirror(sectors: seq<Sector>, start: nat, spc: nat)
    requires 0 < spc
    ensures Mirrors(sectors, start, spc, [], [])
  {
  }

  lemma {:induction false} AllBlank(t: FatType, f: Fat, from: nat, to: nat)
    requires from <= to <= |f|
    requires forall c :: from <= c < to ==> IsBlank(t, f[c])
    ensures Blanks(t, f, from, to) + from == to
    decreases |f| - from
  {
    if from < to {
      AllBlank(t, f, from + 1, to);
    }
  }

  method NewBuffers(count: nat) returns (buffers: seq<FatBuffer>)
    ensures |buffers| == count
    ensures forall i :: 0 <= i < count ==> fresh(buffers[i])
    ensures Distinct(buffers)
  {
    buffers := [];
    for k := 0 to count
      invariant |buffers| == k
      invariant forall i :: 0 <= i < k ==> fresh(buffers[i])
      invariant Distinct(buffers)
    {
      var b := new FatBuffer();
      buffers := buffers + [b];
    }
  }

  /** Mounting a volume: any number of FAT buffers, none of which holds anything yet. */
  method MountVolume(m: Mount, disk: Disk, count: nat) returns (fs: FatFs)
    requires m.Fitting(|disk.sectors|) && count > 0
    modifies disk
    ensures fresh(fs) && fresh(fs.pool) && fs.Valid()
    ensures MountedAs(fs, m, disk) && disk.sectors == old(disk.sectors)
    ensures fs.Table() == m.FatOn(disk.sectors)
  {
    hide FatFs.Valid, FatFs.BufferOk, FatFs.DiskOk, Entries;
    var buffers := NewBuffers(count);
    fs := new FatFs(disk, m.fatType, m.fatBegin, m.fatSectors, m.rootCluster, m.infoLba, m.dataBegin, m.rootEntries,
                    m.spc, buffers);
    fs.FatInit();
  }

  ghost predicate MountedAs(fs: FatFs, m: Mount, disk: Disk)
  {
    && fs.disk == disk && fs.fatType == m.fatType && fs.fatBegin == m.fatBegin && fs.fatSectors == m.fatSectors
    && fs.rootCluster == m.rootCluster && fs.infoLba == m.infoLba && fs.dataBegin == m.dataBegin
    && fs.rootEntries == m.rootEntries && fs.sectorsPerCluster == m.spc
  }

  lemma Mounted(fs: FatFs, m: Mount)
    requires MountedAs(fs, m, fs.disk) && fs.Valid()
    ensures m.Fitting(|fs.disk.sectors|)
    ensures fs.image == fs.disk.sectors[fs.fatBegin..fs.fatBegin + fs.fatSectors] ==>
      m.FatOn(fs.disk.sectors) == fs.Table()
  {
  }

  /** Opening a file that is on the disk. */
  method OpenFile(fs: FatFs, ghost m: Mount, mode: Mode, start: uint32, length: uint32, ghost clusters: seq<nat>,
                  ghost data: seq<Sector>, ghost other: seq<nat>, ghost otherData: seq<Sector>) returns (f: FlFile)
    requires MountedAs(fs, m, fs.disk) && fs.Valid() && fs.disk.reliable
    requires m.Holds(fs.disk.sectors, clusters, data, other, otherData) && fs.Table() == m.FatOn(fs.disk.sectors)
    requires clusters[0] == start && length <= 512 * |data|
    ensures fresh(f) && fresh(f.fileDataSector) && f.fs == fs && f.FileMode() == mode && f.limit == m.limit
    ensures f.startCluster == start && f.other == other && f.otherData == otherData
    ensures f.Open() && f.State() == Plain(Contents(data, length), 0)
    ensures f.Capacity() == m.Capacity(fs.disk.sectors, clusters)
  {
    hide FilesOn, fs.Valid, Bytes, FatFs.Table;
    f := new FlFile(fs, mode.readable, mode.writable, mode.append, start, length, clusters, data, m.limit,
                    other, otherData);
    f.OpenedFile();
  }

  /** Closing it: flush and purge, after which everything is on the disk. */
  method CloseFile(f: FlFile, ghost m: Mount) returns (length: uint32)
    requires f.Open() && MountedAs(f.fs, m, f.fs.disk) && f.limit == m.limit
    modifies f, f.fs, f.fs.disk, f.fs.pool
    ensures f.Open() && length == f.filelength == |old(f.State()).bytes|
    ensures m.Holds(f.fs.disk.sectors, f.clusters, f.data, f.other, f.otherData)
    ensures f.clusters[0] == f.startCluster == old(f.startCluster)
    ensures length <= 512 * |f.data| && Contents(f.data, length) == old(f.State()).bytes
  {
    hide FilesOn, f.fs.Valid, Bytes, FlFile.Capacity, Fits, FatFs.SameOutsideFat;
    f.FlushOpen();
    f.FlushedFile();
    ghost var before := f.fs.disk.sectors;
    var _ := f.fs.Purge();
    f.AfterLookup(before);
    Mounted(f.fs, m);
    length := f.filelength;
  }

  /**
   * From disk to disk: mount a volume with any number of FAT buffers, open a file, make any calls that
   * stay in range and for which there are clusters enough on the disk, close. Every answer is that of
   * the plain byte sequence, and in the end the disk itself holds that sequence as the file, with the
   * other files as they were.
   */
  method Session(m: Mount, disk: Disk, count: nat, mode: Mode, start: uint32, length: uint32, ops: seq<Op>,
                 ghost clusters: seq<nat>, ghost data: seq<Sector>, ghost other: seq<nat>, ghost otherData: seq<Sector>)
    returns (replies: seq<Reply>, newLength: uint32, ghost clusters': seq<nat>, ghost data': seq<Sector>)
    requires disk.reliable && count > 0 && m.Holds(disk.sectors, clusters, data, other, otherData)
    requires clusters[0] == start && length <= 512 * |data|
    requires AllInRange(mode, Plain(Contents(data, length), 0), ops)
    requires Fits(|RunState(mode, Plain(Contents(data, length), 0), ops).bytes|,
                  m.Capacity(disk.sectors, clusters), m.spc)
    modifies disk
    ensures replies == RunReplies(mode, Plain(Contents(data, length), 0), ops)
    ensures m.Holds(disk.sectors, clusters', data', other, otherData) && clusters'[0] == start
    ensures newLength <= 512 * |data'|
    ensures Contents(data', newLength) == RunState(mode, Plain(Contents(data, length), 0), ops).bytes
  {
    hide FilesOn, FatFs.Valid, Bytes, FlFile.Open, FlFile.Capacity, Fits, AllInRange, FatFs.Table, Mount.FatOn;
    var fs := MountVolume(m, disk, count);
    var f := OpenFile(fs, m, mode, start, length, clusters, data, other, otherData);
    replies := f.Run(ops);
    newLength := CloseFile(f, m);
    clusters', data' := f.clusters, f.data;
  }
}
