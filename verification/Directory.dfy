/** New directory entries (fat_write.c): finding free slots, growing the directory, writing the slots. */
module Directory {
  import opened FatWords
  import opened FatChains
  import opened FatRelease
  import opened FatTable
  import opened FileLayout
  import opened LongNames
  import opened DirEntries

  class DirChain {
    const fs: FatFs
    const dirCluster: uint32
    const sector: array<byte>       // currentsector.sector

    var address: uint32             // currentsector.address

    /** The clusters of the directory, in order, and their sectors as they are on the disk. */
    ghost var clusters: seq<nat>
    ghost var data: seq<Sector>
    /** Cluster numbers below this one lie on the disk. */
    ghost const limit: nat
    /** Any other chain of the volume, and its sectors. Being arbitrary they stand for every one. */
    ghost const other: seq<nat>
    ghost const otherData: seq<Sector>

    constructor (fs: FatFs, dirCluster: uint32, ghost clusters: seq<nat>, ghost data: seq<Sector>, ghost limit: nat,
                 ghost other: seq<nat>, ghost otherData: seq<Sector>)
      ensures this.fs == fs && this.dirCluster == dirCluster && this.clusters == clusters && this.data == data
      ensures this.limit == limit && this.other == other && this.otherData == otherData
      ensures fresh(sector) && sector.Length == 512 && address == INVALID_ADDRESS
    {
      this.fs, this.dirCluster := fs, dirCluster;
      sector, address := new byte[512](_ => 0), INVALID_ADDRESS;
      this.clusters, this.data, this.limit, this.other, this.otherData := clusters, data, limit, other, otherData;
    }

    ghost function Vol(): Volume {
      Volume(fs.fatType, fs.rootCluster, fs.DataStart(), fs.sectorsPerCluster, limit)
    }

    /** The volume is mounted on reliable media, and the directory's chain and sectors are on it. */
    ghost predicate OnVolume()
      reads `clusters, `data, fs, fs.disk, fs.pool
    {
      && fs.Valid() && fs.disk.reliable && 0 < fs.sectorsPerCluster && sector.Length == 512
      && FilesOn(Vol(), fs.Table(), fs.disk.sectors, clusters, data, other, otherData)
      && clusters != [] && clusters[0] == dirCluster
    }

    /** A data sector named as the current one is the one in memory. */
    ghost predicate CurrentOk()
      reads `address, sector, fs.disk
    {
      fs.DataStart() <= address < |fs.disk.sectors| ==> sector[..] == fs.disk.sectors[address]
    }

    ghost predicate Stored()
      reads `clusters, `data, `address, sector, fs, fs.disk, fs.pool
    {
      OnVolume() && CurrentOk()
    }

    /** The current sector is named as sector x of the directory. */
    ghost predicate At(x: nat)
      reads `clusters, `address
    {
      && 0 < fs.sectorsPerCluster && ClusterIndex(x, fs.sectorsPerCluster) < |clusters|
      && address == SectorLba(fs.DataStart(), fs.sectorsPerCluster, clusters, x)
    }

    lemma StoredBack()
      requires OnVolume() && CurrentOk()
      ensures Stored()
    {
    }

    lemma StoredIs()
      requires Stored()
      ensures fs.Valid() && fs.disk.reliable && 0 < fs.sectorsPerCluster && sector.Length == 512
      ensures FilesOn(Vol(), fs.Table(), fs.disk.sectors, clusters, data, other, otherData)
      ensures clusters != [] && clusters[0] == dirCluster && OnVolume() && CurrentOk()
    {
    }

    // ----- reading the directory -----

    lemma NextInChain(i: nat)
      requires OnVolume() && i < |clusters|
      ensures 2 <= clusters[i] < fs.EntryCount() && clusters[i] < |fs.Table()| && clusters[i] < LAST_CLUSTER
      ensures Link(fs.fatType, fs.Table()[clusters[i]]) == if i + 1 < |clusters| then clusters[i + 1] else LAST_CLUSTER
    {
      fs.TableSize();
    }

    /** FAT operations that change no link leave directory and current sector as they are. */
    lemma AfterLookup(was: seq<Sector>)
      requires fs.Valid() && fs.disk.reliable && fs.SameOutsideFat(was, fs.disk.sectors)
      requires FilesOn(Vol(), fs.Table(), was, clusters, data, other, otherData)
      requires fs.DataStart() <= address < |was| ==> sector[..] == was[address]
      ensures FilesOn(Vol(), fs.Table(), fs.disk.sectors, clusters, data, other, otherData) && CurrentOk()
    {
      hide FilesOn;
      fs.SameData(was, fs.disk.sectors);
      FilesKept(Vol(), fs.Table(), was, fs.disk.sectors, clusters, data, other, otherData);
    }

    method Follow(i: nat, cluster: uint32) returns (next: uint32)
      requires Stored() && i < |clusters| && cluster == clusters[i]
      modifies fs`head, fs`chain, fs`holder, fs`pending, fs.disk, fs.pool
      ensures Stored()
      ensures next == if i + 1 < |clusters| then clusters[i + 1] else LAST_CLUSTER
    {
      hide FilesOn, fs.Valid, fs.SameOutsideFat, Link;
      NextInChain(i);
      next := fs.FindNextCluster(cluster);
      AfterLookup(old(fs.disk.sectors));
    }

    method Walk(idx: nat) returns (cluster: uint32)
      requires Stored() && idx <= |clusters|
      modifies fs`head, fs`chain, fs`holder, fs`pending, fs.disk, fs.pool
      ensures Stored()
      ensures cluster == if idx < |clusters| then clusters[idx] else LAST_CLUSTER
    {
      hide OnVolume, CurrentOk;
      FirstCluster();
      cluster := dirCluster;
      for i := 0 to idx
        invariant Stored()
        invariant cluster == if i < |clusters| then clusters[i] else LAST_CLUSTER
      {
        cluster := Follow(i, cluster);
      }
    }

    lemma FirstCluster()
      requires Stored()
      ensures clusters != [] && clusters[0] == dirCluster
    {
    }

    lemma Shape(x: nat)
      requires Stored() && x <= |data|
      ensures 0 < fs.sectorsPerCluster && sector.Length == 512
      ensures ClusterIndex(x, fs.sectorsPerCluster) <= |clusters|
      ensures x < |data| <==> ClusterIndex(x, fs.sectorsPerCluster) < |clusters|
      ensures forall i :: 0 <= i < |clusters| ==> clusters[i] < LAST_CLUSTER
    {
      SectorHasCluster(x, fs.sectorsPerCluster, 0, |clusters|);
    }

    /** Loads disk sector lba unless it is the current one. */
    method Load(lba: uint32)
      requires Stored() && fs.DataStart() <= lba < |fs.disk.sectors|
      modifies `address, sector
      ensures Stored() && address == lba && sector[..] == fs.disk.sectors[lba]
    {
      hide FilesOn, fs.Valid, FatFs.DataStart;
      if lba != address {
        address := lba;
        var ok := fs.SectorRead(lba, sector, 0, 1);
        assert Chunk(sector[..], 512 * (lba as int - lba as int)) == fs.disk.sectors[lba];
        assert Chunk(sector[..], 0) == sector[..];
      }
    }

    lemma PlaceOfSector(x: nat)
      requires OnVolume() && x < |data|
      ensures ClusterIndex(x, fs.sectorsPerCluster) < |clusters|
      ensures var lba := SectorLba(fs.DataStart(), fs.sectorsPerCluster, clusters, x);
        && fs.DataStart() <= lba < |fs.disk.sectors| < INVALID_ADDRESS && fs.fatBegin + fs.fatSectors <= lba
        && fs.disk.sectors[lba] == data[x]
        && lba == ClusterLba(fs.DataStart(), fs.sectorsPerCluster, clusters[ClusterIndex(x, fs.sectorsPerCluster)])
                + ClusterOffset(x, fs.sectorsPerCluster)
    {
      assert OnDisk(fs.disk.sectors, fs.DataStart(), fs.sectorsPerCluster, clusters, x, data[x]);
    }

    lemma AtIs(x: nat)
      requires OnVolume() && x < |data| && ClusterIndex(x, fs.sectorsPerCluster) < |clusters|
      requires address == SectorLba(fs.DataStart(), fs.sectorsPerCluster, clusters, x)
      ensures At(x)
    {
    }

    /** fatfs_sector_reader, into the current sector: sector x of the directory, or its end. */
    method SectorReader(x: nat) returns (ok: bool)
      requires Stored() && x <= |data|
      modifies `address, sector, fs`head, fs`chain, fs`holder, fs`pending, fs.disk, fs.pool
      ensures Stored() && (ok <==> x < |data|)
      ensures ok ==> sector[..] == data[x] && At(x)
    {
      hide *;
      StoredIs();
      Shape(x);
      var clusterToRead := ClusterIndex(x, fs.sectorsPerCluster);
      var sectorToRead := ClusterOffset(x, fs.sectorsPerCluster);
      var cluster := Walk(clusterToRead);
      StoredIs();
      if cluster == LAST_CLUSTER {
        return false;
      }
      if x < |data| {
        PlaceOfSector(x);
      }
      var lba := ClusterLba(fs.DataStart(), fs.sectorsPerCluster, cluster) + sectorToRead;
      Load(lba);
      AtIs(x);
      return true;
    }

    // ----- growing the directory -----

    /** The FAT after one cluster has been hung after the last one, seen as a growth by one. */
    lemma OneMore(f: Fat, found: bool, c: nat)
      requires |f| <= LAST_CLUSTER && clusters != [] && clusters[|clusters| - 1] < |f|
      requires !IsBlank(fs.fatType, f[clusters[|clusters| - 1]]) && Usable(fs.fatType, f, fs.rootCluster, limit, 1)
      requires found <==> LowestBlank(fs.fatType, f, fs.rootCluster) < |f|
      requires found ==> c == LowestBlank(fs.fatType, f, fs.rootCluster)
      ensures found <==> Spare(f)
      ensures found ==>
        Grow(fs.fatType, f, fs.rootCluster, clusters[|clusters| - 1], 1)
        == Growth(Hung(fs.fatType, f, clusters[|clusters| - 1], c), [c], true)
    {
      GrowAmount(fs.fatType, f, fs.rootCluster, clusters[|clusters| - 1], 1, limit);
    }

    lemma TailInUse(f: Fat, disk: seq<Sector>)
      requires FilesOn(Vol(), f, disk, clusters, data, other, otherData) && Orderly(f)
      ensures |f| <= LAST_CLUSTER && clusters != [] && 2 <= clusters[|clusters| - 1] < |f|
      ensures !IsBlank(fs.fatType, f[clusters[|clusters| - 1]]) && Usable(fs.fatType, f, fs.rootCluster, limit, 1)
      ensures IsTrail(fs.fatType, f, clusters[0], clusters) && EndsWell(fs.fatType, f, clusters)
    {
      ChainHasNoBlank(fs.fatType, f, clusters, |clusters| - 1);
      ChainIsTrail(fs.fatType, f, clusters);
    }

    lemma Longer(f: Fat, wasDisk: seq<Sector>, c: nat) returns (grown: seq<Sector>)
      requires fs.Valid() && fs.SameOutsideFat(wasDisk, fs.disk.sectors)
      requires FilesOn(Vol(), f, wasDisk, clusters, data, other, otherData) && clusters != []
      requires Spare(f) && GrewFrom(f, c)
      ensures FilesOn(Vol(), fs.Table(), fs.disk.sectors, clusters + [c], grown, other, otherData)
      ensures data <= grown
    {
      hide FilesOn, Grow, Blanks;
      grown := FilesGrow(Vol(), f, wasDisk, clusters, data, other, otherData, 1);
      fs.SameData(wasDisk, fs.disk.sectors);
      FilesKept(Vol(), fs.Table(), wasDisk, fs.disk.sectors, clusters + [c], grown, other, otherData);
    }

    /** A cluster on the disk is free. */
    ghost predicate Spare(f: Fat) {
      Blanks(fs.fatType, f, fs.rootCluster, limit) > 0
    }

    /** The next cluster handed out is on the disk, or there is none. */
    ghost predicate Orderly(f: Fat) {
      Enough(fs.fatType, f, fs.rootCluster, limit, 1)
    }

    /** The FAT is f with cluster c hung after the last one of the directory. */
    ghost predicate GrewFrom(f: Fat, c: nat)
      reads `clusters, fs`image
    {
      && clusters != [] && clusters[|clusters| - 1] < |f| <= LAST_CLUSTER
      && Grow(fs.fatType, f, fs.rootCluster, clusters[|clusters| - 1], 1) == Growth(fs.Table(), [c], true)
    }

    /** The two FAT operations: the lowest blank cluster is hung after the last one of the directory. */
    method HangCluster() returns (ok: bool, newCluster: uint32)
      requires Stored() && Orderly(fs.Table())
      modifies fs`head, fs`chain, fs`holder, fs`pending, fs`image, fs.disk, fs.pool
      ensures fs.Valid() && fs.SameOutsideFat(old(fs.disk.sectors), fs.disk.sectors)
      ensures ok <==> Spare(old(fs.Table()))
      ensures !ok ==> fs.Table() == old(fs.Table())
      ensures ok ==> GrewFrom(old(fs.Table()), newCluster)
    {
      hide *;
      StoredIs();
      NextInChain(0);
      fs.TableSize();
      TailInUse(fs.Table(), fs.disk.sectors);
      ok, newCluster := fs.FindBlankCluster(fs.rootCluster);
      OneMore(old(fs.Table()), ok, newCluster);
      if ok {
        label found:
        ok := fs.AddClusterToChain(dirCluster, newCluster, clusters);
        fs.SameOutsideTrans(old(fs.disk.sectors), old@found(fs.disk.sectors), fs.disk.sectors);
        GrewIs(old(fs.Table()), newCluster);
      }
    }

    lemma GrewIs(f: Fat, c: nat)
      requires clusters != [] && clusters[|clusters| - 1] < |f| <= LAST_CLUSTER && c < |f|
      requires Grow(fs.fatType, f, fs.rootCluster, clusters[|clusters| - 1], 1)
            == Growth(Hung(fs.fatType, f, clusters[|clusters| - 1], c), [c], true)
      requires fs.Table() == Hung(fs.fatType, f, clusters[|clusters| - 1], c)
      ensures GrewFrom(f, c)
    {
    }

    /** The ghost clusters and sectors follow the FAT. */
    ghost method Adopt(was: Fat, wasDisk: seq<Sector>, c: nat)
      requires fs.Valid() && fs.disk.reliable && 0 < fs.sectorsPerCluster && sector.Length == 512
      requires fs.SameOutsideFat(wasDisk, fs.disk.sectors)
      requires FilesOn(Vol(), was, wasDisk, clusters, data, other, otherData) && clusters != []
        && clusters[0] == dirCluster
      requires fs.DataStart() <= address < |wasDisk| ==> sector[..] == wasDisk[address]
      requires Spare(was) && GrewFrom(was, c)
      modifies `clusters, `data
      ensures Stored()
      ensures clusters == old(clusters) + [c] && old(data) <= data
    {
      hide FilesOn, Grow, Blanks, fs.Valid, fs.SameOutsideFat;
      ghost var grown := Longer(was, wasDisk, c);
      fs.SameData(wasDisk, fs.disk.sectors);
      clusters, data := clusters + [c], grown;
    }

    /** The FAT half of growing: one more cluster, holding whatever is on the disk. */
    method ExtendChain() returns (ok: bool, newCluster: uint32)
      requires Stored() && Orderly(fs.Table())
      modifies `clusters, `data, fs`head, fs`chain, fs`holder, fs`pending, fs`image, fs.disk, fs.pool
      ensures Stored()
      ensures ok <==> Spare(old(fs.Table()))
      ensures !ok ==> clusters == old(clusters) && data == old(data) && fs.Table() == old(fs.Table())
      ensures ok ==> clusters == old(clusters) + [newCluster as nat] && old(data) <= data
    {
      hide FilesOn, GrewFrom, Spare, fs.Valid, FatFs.SameOutsideFat;
      FirstCluster();
      ok, newCluster := HangCluster();
      if ok {
        Adopt(old(fs.Table()), old(fs.disk.sectors), newCluster);
      } else {
        AfterLookup(old(fs.disk.sectors));
      }
    }

    // ----- writing the directory -----

    lemma AfterWrite(was: seq<Sector>, x: nat, contents: Sector)
      requires 0 < fs.sectorsPerCluster && x < |data| && ClusterIndex(x, fs.sectorsPerCluster) < |clusters|
      requires FilesOn(Vol(), fs.Table(), was, clusters, data, other, otherData)
      requires var lba := SectorLba(fs.DataStart(), fs.sectorsPerCluster, clusters, x);
        && |fs.disk.sectors| == |was| && 0 <= lba < |was| && fs.disk.sectors[lba] == contents
        && (forall l :: 0 <= l < |was| && l != lba ==> fs.disk.sectors[l] == was[l])
      ensures FilesOn(Vol(), fs.Table(), fs.disk.sectors, clusters, data[x := contents], other, otherData)
    {
      hide FilesOn, ClusterIndex, SectorLba;
      FilesWritten(Vol(), fs.Table(), was, fs.disk.sectors, clusters, data, data[x := contents],
                   other, otherData, x, 1);
    }

    lemma PlaceOfCurrent(x: nat)
      requires OnVolume() && x < |data| && At(x)
      ensures fs.fatBegin + fs.fatSectors <= address < |fs.disk.sectors| && sector.Length == 512
      ensures 0 < fs.sectorsPerCluster && ClusterIndex(x, fs.sectorsPerCluster) < |clusters|
      ensures address == SectorLba(fs.DataStart(), fs.sectorsPerCluster, clusters, x)
    {
      PlaceOfSector(x);
    }

    /** write_media of the current sector, which is sector x of the directory. */
    method WriteCurrent(ghost x: nat)
      requires OnVolume() && x < |data| && At(x)
      modifies `data, fs.disk
      ensures Stored() && data == old(data)[x := sector[..]]
      ensures clusters == old(clusters) && At(x)
    {
      hide FilesOn, fs.Valid, ClusterIndex, ClusterOffset, ClusterLba, SectorLba, FatFs.DataStart, At;
      PlaceOfCurrent(x);
      var ok := fs.SectorWrite(address, sector[..], 1);
      assert Chunk(sector[..], 512 * (address as int - address as int)) == sector[..];
      AfterWrite(old(fs.disk.sectors), x, sector[..]);
      data := data[x := sector[..]];
    }

    /** memset of the current sector, whatever it was */
    method Erase()
      requires OnVolume()
      modifies sector
      ensures OnVolume() && sector[..] == ZeroSector()
    {
      hide FilesOn, fs.Valid;
      forall i | 0 <= i < sector.Length {
        sector[i] := 0;
      }
    }

    ghost function Base(): nat
      requires clusters != []
      reads `clusters
    {
      SectorsIn(|clusters| - 1, fs.sectorsPerCluster)
    }

    lemma BaseIs()
      requires OnVolume()
      ensures clusters != [] && 0 < fs.sectorsPerCluster && Base() + fs.sectorsPerCluster == |data|
      ensures 2 <= clusters[|clusters| - 1]
    {
      LastCluster(|clusters|, fs.sectorsPerCluster);
    }

    lemma NewSector(i: nat)
      requires OnVolume() && i < fs.sectorsPerCluster
      ensures clusters != [] && Base() + fs.sectorsPerCluster == |data| && 2 <= clusters[|clusters| - 1]
      ensures 0 <= ClusterLba(fs.DataStart(), fs.sectorsPerCluster, clusters[|clusters| - 1]) + i < INVALID_ADDRESS
      ensures address == ClusterLba(fs.DataStart(), fs.sectorsPerCluster, clusters[|clusters| - 1]) + i ==>
        At(Base() + i)
    {
      hide FilesOn, fs.Valid, ClusterLba, SectorsIn, ClusterIndex, ClusterOffset, SectorLba, FatFs.DataStart;
      BaseIs();
      PlaceOfSector(Base() + i);
      JoinSector(|clusters| - 1, i, fs.sectorsPerCluster);
    }

    /** Erases the new last cluster of the directory. */
    method ZeroCluster(newCluster: uint32)
      requires Stored() && clusters[|clusters| - 1] == newCluster
      modifies `data, `address, sector, fs.disk
      ensures Stored() && clusters == old(clusters)
      ensures Base() <= |old(data)| && data == old(data)[..Base()] + Zeroed(fs.sectorsPerCluster)
      ensures forall s, b :: Base() <= s < |data| && 0 <= b < 512 ==> data[s][b] == 0
    {
      hide *;
      StoredIs();
      NewSector(0);
      Erase();
      ZeroesStart(data, Base());
      for i := 0 to fs.sectorsPerCluster
        invariant OnVolume() && clusters == old(clusters)
        invariant sector[..] == ZeroSector() && (i > 0 ==> CurrentOk())
        invariant Base() + fs.sectorsPerCluster == |old(data)|
        invariant data == ZeroedFrom(old(data), Base(), i)
      {
        NewSector(i);
        address := ClusterLba(fs.DataStart(), fs.sectorsPerCluster, newCluster) + i;
        NewSector(i);
        ZeroStep(old(data), Base(), i);
        WriteCurrent(Base() + i);
        StoredIs();
      }
      StoredBack();
      ZeroesEnd(old(data), Base(), fs.sectorsPerCluster);
      ZeroedBytes(data[..Base()], fs.sectorsPerCluster);
    }

    // ----- searching free slots -----

    /** The search for free slots within the current sector. */
    method ScanSector(x: nat, entryCount: nat, possible0: nat, pSector0: nat, pOffset0: nat)
      returns (found: bool, possible: nat, pSector: nat, pOffset: nat)
      requires entryCount > 0 && x < |data| && sector.Length == 512 && sector[..] == data[x]
      requires Searched(data, 16 * x, possible0, entryCount)
      requires possible0 > 0 ==> pOffset0 < 16 && 16 * pSector0 + pOffset0 + possible0 == 16 * x
      ensures found ==> pOffset < 16 && FoundRun(data, 16 * pSector + pOffset, entryCount, 16 * x + 16)
      ensures !found ==> Searched(data, 16 * x + 16, possible, entryCount)
      ensures !found && possible > 0 ==> pOffset < 16 && 16 * pSector + pOffset + possible == 16 * x + 16
    {
      hide FreeRun, Searched, RunStarts, LfnText, HasRun;
      found, possible, pSector, pOffset := false, possible0, pSector0, pOffset0;
      var item: nat := 0;
      while item < PER_SECTOR && !found
        invariant item <= 16
        invariant !found ==> Searched(data, 16 * x + item, possible, entryCount)
        invariant !found && possible > 0 ==> pOffset < 16 && 16 * pSector + pOffset + possible == 16 * x + item
        invariant found ==> pOffset < 16 && FoundRun(data, 16 * pSector + pOffset, entryCount, 16 * x + 16)
        decreases 16 - item, !found
      {
        var entry := SlotIn(sector[..], item);
        ScanEntry(x, item, possible, entryCount);
        if LfnText(entry) || entry[0] == DELETED || entry[0] == BLANK {
          if possible == 0 {
            pSector, pOffset := x, item;
          }
          possible := possible + 1;
          found := !LfnText(entry) && possible >= entryCount;
        } else {
          possible := 0;
        }
        if !found {
          item := item + 1;
        }
      }
    }

    lemma ScanEntry(x: nat, item: nat, possible: nat, n: nat)
      requires x < |data| && item < 16 && Searched(data, 16 * x + item, possible, n)
      ensures var e := SlotIn(data[x], item);
        && possible <= 16 * x + item
        && (Live(e) ==> Searched(data, 16 * x + item + 1, 0, n))
        && (!Live(e) && (LfnText(e) || possible + 1 < n) ==> Searched(data, 16 * x + item + 1, possible + 1, n))
        && (n <= possible + 1 && !Live(e) && !LfnText(e) ==> FoundRun(data, 16 * x + item - possible, n, 16 * x + 16))
    {
      hide FreeRun, LfnText;
      assert EntryOf(data, 16 * x + item) == SlotIn(data[x], item);
      SearchStep(data, 16 * x + item, possible, n);
      if n <= possible + 1 && !Live(SlotIn(data[x], item)) && !LfnText(SlotIn(data[x], item)) {
        RunIsFree(data, 16 * x + item, possible, n);
      }
    }

    /** A new cluster for the directory, erased */
    method GrowDirectory() returns (ok: bool)
      requires Stored() && Orderly(fs.Table())
      modifies `clusters, `data, `address, sector, fs`head, fs`chain, fs`holder, fs`pending, fs`image, fs.disk, fs.pool
      ensures Stored()
      ensures ok <==> Spare(old(fs.Table()))
      ensures data == if ok then old(data) + Zeroed(fs.sectorsPerCluster) else old(data)
    {
      hide *;
      StoredIs();
      DataSize();
      var newCluster;
      ok, newCluster := ExtendChain();
      if ok {
        LastOf(old(clusters), newCluster);
        BaseAfter(old(clusters));
        ZeroCluster(newCluster);
        BaseAfter(old(clusters));
        PrefixIs(old(data), data);
      }
    }

    lemma DataSize()
      requires OnVolume()
      ensures |data| == SectorsIn(|clusters|, fs.sectorsPerCluster)
    {
    }

    lemma BaseAfter(was: seq<nat>)
      requires clusters != [] && |clusters| == |was| + 1
      ensures Base() == SectorsIn(|was|, fs.sectorsPerCluster)
    {
    }

    /** start begins a run of n entries that belong to no live entry: in the directory as it was if it
        has one, or else at its end with one erased cluster behind it. */
    ghost predicate Room(was: seq<Sector>, start: int, n: nat)
      reads `data
    {
      && 0 <= start <= 16 * |was| && RunStarts(was, start) && FreeRun(data, start, n) && RunStarts(data, start)
      && if HasRun(was, n) then
           data == was && start + n <= 16 * |was|
         else
           data == was + Zeroed(fs.sectorsPerCluster) && start == 16 * |was| - Possible(was, 16 * |was|)
    }

    /** The part of the search that looks through the sectors the directory has. */
    method SearchSectors(entryCount: nat) returns (ok: bool, x: nat, possible: nat, pSector: nat, pOffset: nat)
      requires Stored() && entryCount > 0
      modifies `address, sector, fs`head, fs`chain, fs`holder, fs`pending, fs.disk, fs.pool
      ensures Stored()
      ensures ok ==> pOffset < 16 && HasRun(data, entryCount) && Room(data, 16 * pSector + pOffset, entryCount)
      ensures !ok ==> x == |data| && Searched(data, 16 * |data|, possible, entryCount)
      ensures !ok && possible > 0 ==> pOffset < 16 && 16 * pSector + pOffset + possible == 16 * |data|
    {
      hide *;
      SearchStarts(data, entryCount);
      ok, x, possible, pSector, pOffset := false, 0, 0, 0, 0;
      var more := true;
      while more && !ok
        invariant Stored() && x <= |data|
        invariant !ok ==> Searched(data, 16 * x, possible, entryCount)
        invariant !ok && possible > 0 ==> pOffset < 16 && 16 * pSector + pOffset + possible == 16 * x
        invariant ok ==> pOffset < 16 && HasRun(data, entryCount) && Room(data, 16 * pSector + pOffset, entryCount)
        invariant !more ==> x == |data| && !ok
        decreases |data| - x, more, !ok
      {
        more := SectorReader(x);
        if more {
          SectorLength();
          ok, possible, pSector, pOffset := ScanSector(x, entryCount, possible, pSector, pOffset);
          if ok {
            RunFound(16 * pSector + pOffset, entryCount, 16 * x + 16);
          } else {
            x := x + 1;
          }
        }
      }
    }

    /**
     * fatfs_find_free_dir_offset.  start_recorded is set exactly while the number of possible spaces
     * is not 0.  It fails exactly if nothing is asked for, or there is no run and no free cluster.
     */
    method FindFreeDirOffset(entryCount: nat) returns (ok: bool, pSector: nat, pOffset: nat)
      requires Stored() && (HasRun(data, entryCount) || Orderly(fs.Table()))
      modifies `clusters, `data, `address, sector, fs`head, fs`chain, fs`holder, fs`pending, fs`image, fs.disk, fs.pool
      ensures Stored()
      ensures ok <==> entryCount > 0 && (HasRun(old(data), entryCount) || Spare(old(fs.Table())))
      ensures !ok ==> data == old(data)
      ensures ok ==> pOffset < 16 && Room(old(data), 16 * pSector + pOffset, entryCount)
    {
      hide *;
      ok, pSector, pOffset := false, 0, 0;
      if entryCount > 0 {
        var x, possible;
        ok, x, possible, pSector, pOffset := SearchSectors(entryCount);
        if !ok {
          SearchEnds(data, possible, entryCount);
          RunGrown(data, possible, fs.sectorsPerCluster, entryCount);
          if possible == 0 {
            pSector, pOffset := x, 0;
          }
          ok := GrowDirectory();
          RoomGrown(old(data), ok, possible, entryCount);
        }
      }
    }

    lemma SectorLength()
      requires Stored()
      ensures sector.Length == 512
    {
    }

    lemma RunFound(start: int, n: nat, end: nat)
      requires FoundRun(data, start, n, end)
      ensures Room(data, start, n) && HasRun(data, n)
    {
    }

    lemma RoomGrown(was: seq<Sector>, ok: bool, possible: nat, n: nat)
      requires possible <= 16 * |was| && (ok ==> data == was + Zeroed(fs.sectorsPerCluster))
      requires !HasRun(was, n) && possible == Possible(was, 16 * |was|) && RunStarts(was, 16 * |was| - possible)
      requires RunStarts(was + Zeroed(fs.sectorsPerCluster), 16 * |was| - possible)
      requires FreeRun(was + Zeroed(fs.sectorsPerCluster), 16 * |was| - possible, n)
      ensures ok ==> Room(was, 16 * |was| - possible, n)
    {
    }

    // ----- writing a new entry -----

    /** The slots of the current sector that belong to the new entry; foundEnd and entryCount as in
        fatfs_add_file_entry. */
    method FillSector(x: nat, j: Job, foundEnd0: bool, entryCount0: nat)
      returns (foundEnd: bool, entryCount: nat, done: bool)
      requires sector.Length == 512 && j.dirOffset < 16 && j.dirSector <= x
      requires Filling(j.Start(), EntriesRequired(j.filename), 16 * x, foundEnd0, entryCount0)
      modifies sector
      ensures sector[..] == PlacedSector(old(sector[..]), x, j.Start(), j.Slots())
      ensures done <==> j.Start() + |j.Slots()| <= 16 * x + 16
      ensures !done ==> Filling(j.Start(), EntriesRequired(j.filename), 16 * x + 16, foundEnd, entryCount)
    {
      hide LfnSlot;
      ghost var es, start := j.Slots(), j.Start();
      foundEnd, entryCount, done := foundEnd0, entryCount0, false;
      var item := 0;
      while item < PER_SECTOR && !done
        invariant item <= 16
        invariant !done ==> Filling(start, EntriesRequired(j.filename), 16 * x + item, foundEnd, entryCount)
        invariant done <==> start + |es| <= 16 * x + item
        invariant forall b :: 0 <= b < 512 ==>
          sector[b] == if b < 32 * item then PlacedSector(old(sector[..]), x, start, es)[b] else old(sector[b])
      {
        if !foundEnd && j.dirSector == x && j.dirOffset == item {
          foundEnd := true;
        }
        if foundEnd {
          if entryCount == 0 {
            CopySlot(item, j.short);
            done := true;
          } else {
            entryCount := entryCount - 1;
            FilenameToLfn(j.filename, sector, 32 * item, entryCount, j.checksum);
          }
        }
        item := item + 1;
      }
    }

    method CopySlot(item: nat, e: Slot)
      requires item < 16 && sector.Length == 512
      modifies sector
      ensures sector[..] == old(sector[..32 * item]) + e + old(sector[32 * item + 32..])
    {
      forall b | 0 <= b < 32 {
        sector[32 * item + b] := e[b];
      }
      assert sector[..] == old(sector[..32 * item]) + e + old(sector[32 * item + 32..]);
    }

    /** The sectors before x have been written, those from x on not yet. */
    ghost predicate Halfway(was: seq<Sector>, start: nat, es: seq<Slot>, x: nat)
      reads `data
    {
      && |data| == |was|
      && forall s :: 0 <= s < |data| ==> data[s] == if s < x then PlacedSector(was[s], s, start, es) else was[s]
    }

    /** The sectors before the first one of the run need no change, nor do those behind its last one. */
    lemma HalfwayEnds(was: seq<Sector>, start: nat, es: seq<Slot>, x: nat)
      ensures data == was && 16 * x <= start ==> Halfway(was, start, es, x)
      ensures Halfway(was, start, es, x) && (start + |es| <= 16 * x || x >= |was|) ==> data == Placed(was, start, es)
    {
      forall s | 0 <= s < |was|
        ensures s < x && 16 * x <= start ==> PlacedSector(was[s], s, start, es) == was[s]
        ensures s >= x && start + |es| <= 16 * x ==> PlacedSector(was[s], s, start, es) == was[s]
      {
      }
    }

    lemma HalfwayStep(was: seq<Sector>, before: seq<Sector>, start: nat, es: seq<Slot>, x: nat)
      requires x < |before| && |before| == |was|
      requires forall s :: 0 <= s < |before| ==>
        before[s] == if s < x then PlacedSector(was[s], s, start, es) else was[s]
      requires data == before[x := PlacedSector(before[x], x, start, es)]
      ensures Halfway(was, start, es, x + 1)
    {
    }

    /** Where the loop of fatfs_add_file_entry stands before sector x */
    ghost predicate Turn(j: Job, was: seq<Sector>, x: nat, foundEnd: bool, entryCount: nat, ok: bool)
      reads `data
    {
      && j.dirSector <= x <= |was| && j.dirOffset < 16
      && Halfway(was, j.Start(), j.Slots(), x)
      && if ok then
           j.Start() + |j.Slots()| <= 16 * x
         else
           && Filling(j.Start(), EntriesRequired(j.filename), 16 * x, foundEnd, entryCount)
           && (x > j.dirSector ==> j.Start() + |j.Slots()| > 16 * x)
    }

    lemma TurnStarts(j: Job)
      requires j.dirOffset < 16 && j.Start() <= 16 * |data|
      ensures Turn(j, data, j.dirSector, false, EntriesRequired(j.filename), false)
    {
      HalfwayEnds(data, j.Start(), j.Slots(), j.dirSector);
    }

    lemma TurnEnds(j: Job, was: seq<Sector>, x: nat, foundEnd: bool, entryCount: nat, ok: bool)
      requires Turn(j, was, x, foundEnd, entryCount, ok) && (ok || x == |was|)
      ensures data == Placed(was, j.Start(), j.Slots())
      ensures ok <==> j.Start() + |j.Slots()| <= 16 * |was|
    {
      HalfwayEnds(was, j.Start(), j.Slots(), x);
    }

    /** One turn of that loop: a sector is read, filled and written back. */
    method FillNext(j: Job, x: nat, foundEnd0: bool, entryCount0: nat, ghost was: seq<Sector>)
      returns (more: bool, foundEnd: bool, entryCount: nat, ok: bool)
      requires Stored() && Turn(j, was, x, foundEnd0, entryCount0, false)
      modifies `data, `address, sector, fs`head, fs`chain, fs`holder, fs`pending, fs.disk, fs.pool
      ensures Stored() && (more <==> x < |was|) && (ok ==> more)
      ensures Turn(j, was, if more then x + 1 else x, foundEnd, entryCount, ok)
    {
      hide OnVolume, At, PlacedSector, LfnSlot, EntriesRequired;
      ok, foundEnd, entryCount := false, foundEnd0, entryCount0;
      more := SectorReader(x);
      if more {
        SectorLength();
        foundEnd, entryCount, ok := FillSector(x, j, foundEnd, entryCount);
        PutSector(x, was, j.Start(), j.Slots());
      }
    }

    /** The loop of fatfs_add_file_entry over the sectors of the directory */
    method FillSectors(j: Job) returns (ok: bool)
      requires Stored() && j.dirOffset < 16 && j.Start() <= 16 * |data|
      modifies `data, `address, sector, fs`head, fs`chain, fs`holder, fs`pending, fs.disk, fs.pool
      ensures Stored()
      ensures data == Placed(old(data), j.Start(), j.Slots())
      ensures ok <==> j.Start() + |j.Slots()| <= 16 * |old(data)|
    {
      hide *;
      TurnStarts(j);
      var x, foundEnd, entryCount: nat := j.dirSector, false, EntriesRequired(j.filename);
      ok := false;
      var more := true;
      while more && !ok
        invariant Stored() && Turn(j, old(data), x, foundEnd, entryCount, ok)
        invariant x <= |old(data)| && (!more ==> x == |old(data)| && !ok)
        decreases |old(data)| - x, more, !ok
      {
        more, foundEnd, entryCount, ok := FillNext(j, x, foundEnd, entryCount, old(data));
        if more {
          x := x + 1;
        }
      }
      TurnEnds(j, old(data), x, foundEnd, entryCount, ok);
    }

    /** Writing back the sector that has just been filled */
    method PutSector(ghost x: nat, ghost was: seq<Sector>, ghost start: nat, ghost es: seq<Slot>)
      requires OnVolume() && |data| == |was| && x < |data| && At(x) && Halfway(was, start, es, x)
      requires sector[..] == PlacedSector(data[x], x, start, es)
      modifies `data, fs.disk
      ensures Stored() && Halfway(was, start, es, x + 1)
    {
      hide OnVolume, CurrentOk, PlacedSector, At;
      WriteCurrent(x);
      HalfwayStep(was, old(data), start, es, x);
    }

    /** How the directory came about from was: with the slots es written into a free run of it if it has
        one, else into a free run that goes on into a new cluster, else unchanged. */
    ghost predicate Written(was: seq<Sector>, spare: bool, start: nat, es: seq<Slot>, ok: bool)
      reads `data
    {
      if HasRun(was, |es|) then
        ok && WrittenInto(was, start, es, ok)
      else if spare then
        && WrittenInto(was + Zeroed(fs.sectorsPerCluster), start, es, ok)
        && start == 16 * |was| - Possible(was, 16 * |was|)
      else
        !ok && data == was
    }

    ghost predicate WrittenInto(was: seq<Sector>, start: nat, es: seq<Slot>, ok: bool)
      reads `data
    {
      && RunStarts(was, start) && FreeRun(was, start, |es|)
      && data == Placed(was, start, es)
      && (ok <==> start + |es| <= 16 * |was|)
    }

    /** It succeeds exactly if there was room. */
    lemma SuccessIs(was: seq<Sector>, spare: bool, start: nat, es: seq<Slot>, ok: bool)
      requires Written(was, spare, start, es, ok)
      ensures ok <==> HasRoom(was, spare, fs.sectorsPerCluster, |es|)
    {
      hide Placed, RunStarts, FreeRun, HasRun;
    }

    lemma WrittenIs(was: seq<Sector>, spare: bool, before: seq<Sector>, j: Job, ok: bool)
      requires RunStarts(before, j.Start()) && FreeRun(before, j.Start(), |j.Slots()|)
      requires if HasRun(was, |j.Slots()|) then
                 before == was && j.Start() + |j.Slots()| <= 16 * |was|
               else
                 && spare && before == was + Zeroed(fs.sectorsPerCluster)
                 && j.Start() == 16 * |was| - Possible(was, 16 * |was|)
      requires data == Placed(before, j.Start(), j.Slots())
      requires ok <==> j.Start() + |j.Slots()| <= 16 * |before|
      ensures Written(was, spare, j.Start(), j.Slots(), ok)
    {
    }

    lemma RoomFor(was: seq<Sector>, j: Job)
      requires Room(was, j.Start(), EntriesRequired(j.filename) + 1)
      ensures |j.Slots()| == EntriesRequired(j.filename) + 1 && j.Start() <= 16 * |data|
      ensures RunStarts(data, j.Start()) && FreeRun(data, j.Start(), |j.Slots()|)
      ensures if HasRun(was, |j.Slots()|) then
                data == was && j.Start() + |j.Slots()| <= 16 * |was|
              else
                && data == was + Zeroed(fs.sectorsPerCluster)
                && j.Start() == 16 * |was| - Possible(was, 16 * |was|)
    {
      hide RunStarts, FreeRun, HasRun, Possible, EntriesRequired, NewSlots;
    }

    /**
     * fatfs_add_file_entry.  It succeeds exactly if there is a name, and the directory has a run for
     * the slots or can be given one more cluster that is large enough together with the free entries
     * before it.  On success the slots of the new entry are in place, all in a free run; when the new
     * cluster is too small, a part of them is.
     */
    method AddFileEntry(filename: seq<byte>, shortfilename: seq<byte>, startCluster: uint32, size: uint32, dir: bool)
      returns (ok: bool, ghost start: nat)
      requires Stored() && |shortfilename| == 11
      requires filename == [] || HasRun(data, EntriesRequired(filename) + 1) || Orderly(fs.Table())
      modifies `clusters, `data, `address, sector, fs`head, fs`chain, fs`holder, fs`pending, fs`image, fs.disk, fs.pool
      ensures Stored()
      ensures filename == [] ==> !ok && data == old(data)
      ensures filename != [] ==> Written(old(data), Spare(old(fs.Table())), start,
                                         NewEntry(filename, shortfilename, startCluster, size, dir), ok)
      ensures ok <==> filename != [] && HasRoom(old(data), Spare(old(fs.Table())), fs.sectorsPerCluster,
                                                EntriesRequired(filename) + 1)
    {
      hide *;
      NameNeedsSlots(filename);
      NewEntrySize(filename, shortfilename, startCluster, size, dir);
      var checksum := ChecksumOf(shortfilename);
      ok, start := false, 0;
      var entryCount := EntriesRequired(filename);
      if entryCount != 0 {
        ghost var es, spare := NewEntry(filename, shortfilename, startCluster, size, dir), Spare(fs.Table());
        var found, dirSector, dirOffset := FindFreeDirOffset(entryCount + 1);
        if found {
          var j := Job(dirSector, dirOffset, filename, checksum, ShortEntry(shortfilename, startCluster, size, dir));
          JobIs(j, shortfilename, startCluster, size, dir);
          start := j.Start();
          RoomFor(old(data), j);
          label searched:
          ok := FillSectors(j);
          WrittenIs(old(data), spare, old@searched(data), j, ok);
        } else {
          UnwrittenIs(old(data), spare, start, es);
        }
        SuccessIs(old(data), spare, start, es, ok);
      }
    }

    lemma UnwrittenIs(was: seq<Sector>, spare: bool, start: nat, es: seq<Slot>)
      requires !HasRun(was, |es|) && !spare && data == was
      ensures Written(was, spare, start, es, false)
    {
    }

    /** Whatever happens, each live entry and each of its long-name slots stays as it was. */
    lemma EntriesStay(was: seq<Sector>, spare: bool, start: nat, es: seq<Slot>, ok: bool, j: nat)
      requires Written(was, spare, start, es, ok) && j < 16 * |was| && Taken(was, j)
      ensures |was| <= |data| && EntryOf(data, j) == EntryOf(was, j) && Taken(data, j)
    {
      hide HasRun, Taken, EntryOf, FreeRun, RunStarts, Placed, Possible;
      if WrittenInto(was, start, es, ok) {
        TakenStays(was, start, es, j);
      } else if WrittenInto(was + Zeroed(fs.sectorsPerCluster), start, es, ok) {
        TakenInGrown(was, fs.sectorsPerCluster, j);
        TakenStays(was + Zeroed(fs.sectorsPerCluster), start, es, j);
      }
    }

    /** In numbers: an entry with neither 0x00 nor 0xE5 in front, and not all four low attribute bits set,
        stays as it was. */
    lemma LiveEntryStays(was: seq<Sector>, spare: bool, start: nat, es: seq<Slot>, ok: bool, j: nat)
      requires Written(was, spare, start, es, ok) && j < 16 * |was|
      requires EntryOf(was, j)[0] != 0x00 && EntryOf(was, j)[0] != 0xE5 && EntryOf(was, j)[11] % 16 != 15
      ensures |was| <= |data| && EntryOf(data, j) == EntryOf(was, j)
    {
      assert TakenBy(was, j, j);
      hide Written;
      EntriesStay(was, spare, start, es, ok, j);
    }

    /** After success the short entry is there, and a reader finds the long name with it. What the reader
        takes from the entry are the start cluster, the size, the name and the kind it was made with, and
        every slot before it carries the checksum of the short name. */
    lemma EntryIsListed(was: seq<Sector>, spare: bool, start: nat, filename: seq<byte>, shortfilename: seq<byte>,
                        startCluster: uint32, size: uint32, dir: bool, c: Cache)
      requires |shortfilename| == 11 && 0 < |filename| <= 260 && NoZero(filename)
      requires Written(was, spare, start, NewEntry(filename, shortfilename, startCluster, size, dir), true)
      requires |c.rows| == MAX_ENTRIES && c.count == 0
      ensures var k := EntriesRequired(filename);
        && start + k < 16 * |data|
        && HoldsEntry(EntryOf(data, start + k), shortfilename, startCluster, size, dir)
        && (forall i :: start <= i < start + k ==>
              LfnText(EntryOf(data, i)) && EntryOf(data, i)[13] == ShortSum(shortfilename, 11))
        && (shortfilename[0] != BLANK && shortfilename[0] != DELETED ==>
              !LfnText(EntryOf(data, start + k)) && !LfnInvalid(EntryOf(data, start + k)))
        && CacheAt(c, data, start + k).count == k
        && NameIn(CacheAt(c, data, start + k)) == Cleaned(filename)
    {
      hide HasRun, Possible, LfnText, LfnInvalid, EntryOf, CacheAt, NameIn, Cleaned, Placed, RunStarts, FreeRun;
      hide ShortEntry, EntriesRequired, NewSlots, ShortSum, HoldsEntry;
      var es := NewEntry(filename, shortfilename, startCluster, size, dir);
      NewEntrySize(filename, shortfilename, startCluster, size, dir);
      ShortIsNormal(shortfilename, startCluster, size, dir);
      ShortLayout(shortfilename, startCluster, size, dir);
      if WrittenInto(was, start, es, true) {
        NewNameIsRead(c, was, start, filename, ShortSum(shortfilename, 11),
                      ShortEntry(shortfilename, startCluster, size, dir));
        NewSlotsCarry(was, start, filename, ShortSum(shortfilename, 11),
                      ShortEntry(shortfilename, startCluster, size, dir));
      } else {
        NewNameIsRead(c, was + Zeroed(fs.sectorsPerCluster), start, filename, ShortSum(shortfilename, 11),
                      ShortEntry(shortfilename, startCluster, size, dir));
        NewSlotsCarry(was + Zeroed(fs.sectorsPerCluster), start, filename, ShortSum(shortfilename, 11),
                      ShortEntry(shortfilename, startCluster, size, dir));
      }
    }

    // ----- looking a name up -----

    /** A name that was not there before is found after it has been added, and at its new entry. */
    lemma AddedIsFound(was: seq<Sector>, spare: bool, start: nat, filename: seq<byte>, shortfilename: seq<byte>,
                       startCluster: uint32, size: uint32, dir: bool, c: Cache, wanted: seq<byte>, same: NameTest)
      requires |shortfilename| == 11 && shortfilename[0] != BLANK && shortfilename[0] != DELETED
      requires 0 < |filename| <= 260 && NoZero(filename) && same(Cleaned(filename), wanted)
      requires Written(was, spare, start, NewEntry(filename, shortfilename, startCluster, size, dir), true)
      requires |c.rows| == MAX_ENTRIES && c.count == 0 && Absent(was, wanted, same)
      ensures var j := start + EntriesRequired(filename);
        && j < 16 * |data|
        && MatchesAt(c, data, j, wanted, same) && NoneBefore(c, data, j, wanted, same)
        && HoldsEntry(EntryOf(data, j), shortfilename, startCluster, size, dir)
    {
      hide *;
      var k := EntriesRequired(filename);
      NameNeedsSlots(filename);
      EntryIsListed(was, spare, start, filename, shortfilename, startCluster, size, dir, c);
      BeforeRun(was, spare, start, NewEntry(filename, shortfilename, startCluster, size, dir));
      NoneInSlots(c, was, data, start, start + k, wanted, same);
      MatchIs(c, data, start + k, wanted, same);
    }

    /** The entries before the run are those of the directory as it was. */
    lemma BeforeRun(was: seq<Sector>, spare: bool, start: nat, es: seq<Slot>)
      requires Written(was, spare, start, es, true)
      ensures start <= 16 * |was| && |was| <= |data|
      ensures forall i :: 0 <= i < start ==> EntryOf(data, i) == EntryOf(was, i)
    {
      var grown := was + Zeroed(fs.sectorsPerCluster);
      hide HasRun, FreeRun, EntryOf, Placed, Possible, Live;
      forall i | 0 <= i < start
        ensures EntryOf(data, i) == EntryOf(was, i)
      {
        if WrittenInto(was, start, es, true) {
          PlacedEntry(was, start, es, i);
        } else {
          PlacedEntry(grown, start, es, i);
          GrownEntries(was, fs.sectorsPerCluster, i);
        }
      }
    }

    /** The search of fatfs_get_file_entry within the current sector. */
    method LookInSector(x: nat, cache: LfnCache, wanted: seq<byte>, same: NameTest, ghost c: Cache)
      returns (found: bool, entry: Slot, ghost j: nat)
      requires x < |data| && sector.Length == 512 && sector[..] == data[x]
      requires |c.rows| == MAX_ENTRIES && c.count <= MAX_ENTRIES && NoneBefore(c, data, 16 * x, wanted, same)
      requires cache.Shaped() && cache.Value() == CacheAt(c, data, 16 * x)
      modifies cache, cache.table
      ensures cache.Shaped()
      ensures found ==> j < 16 * |data| && entry == EntryOf(data, j)
      ensures found ==> MatchesAt(c, data, j, wanted, same) && NoneBefore(c, data, j, wanted, same)
      ensures !found ==> cache.Value() == CacheAt(c, data, 16 * x + 16)
      ensures !found ==> NoneBefore(c, data, 16 * x + 16, wanted, same)
    {
      hide NoneBefore, NameIn, Absorbed, Terminated, LfnText, LfnInvalid, ShortText, CacheAt, EntryOf;
      found, j := false, 0;
      entry := SlotIn(sector[..], 0);
      var item: nat := 0;
      while item < PER_SECTOR && !found
        invariant item <= 16 && cache.Shaped()
        invariant !found ==> cache.Value() == CacheAt(c, data, 16 * x + item)
        invariant !found ==> NoneBefore(c, data, 16 * x + item, wanted, same)
        invariant found ==> j < 16 * |data| && entry == EntryOf(data, j)
        invariant found ==> MatchesAt(c, data, j, wanted, same) && NoneBefore(c, data, j, wanted, same)
        decreases 16 - item, !found
      {
        entry := SlotIn(sector[..], item);
        EntryHere(c, data, x, item);
        found := LookAt(cache, entry, wanted, same);
        if found {
          j := 16 * x + item;
        } else {
          NoneBeforeNext(c, data, 16 * x + item, wanted, same);
          item := item + 1;
        }
      }
    }

    /** What it does with one entry. */
    method LookAt(cache: LfnCache, entry: Slot, wanted: seq<byte>, same: NameTest) returns (found: bool)
      requires cache.Shaped()
      modifies cache, cache.table
      ensures cache.Shaped()
      ensures found <==> Matches(old(cache.Value()), entry, wanted, same)
      ensures !found ==> cache.Value() == AfterEntry(old(cache.Value()), entry)
    {
      hide NameIn, Absorbed, Terminated, ShortText;
      found := false;
      if LfnText(entry) {
        cache.Entry(entry);
      } else if LfnInvalid(entry) {
        cache.Init(false);
      } else if cache.noOfStrings > 0 {
        var longFilename := cache.Get();
        found := same(longFilename, wanted);
        if !found {
          cache.Init(false);
        }
      } else {
        found := same(ShortText(entry), wanted);
        if !found {
          cache.Init(false);
        }
      }
    }

    /**
     * fatfs_get_file_entry: the first entry whose name, long if it has one, matches the one wanted; none
     * exactly if there is no such entry.  c is the cache it starts with, empty but for its last byte.
     */
    method GetFileEntry(wanted: seq<byte>, same: NameTest)
      returns (found: bool, entry: Slot, ghost j: nat, ghost c: Cache)
      requires Stored()
      modifies `address, sector, fs`head, fs`chain, fs`holder, fs`pending, fs.disk, fs.pool
      ensures Stored()
      ensures |c.rows| == MAX_ENTRIES && c.count == 0
      ensures found ==> j < 16 * |data| && entry == EntryOf(data, j)
      ensures found ==> MatchesAt(c, data, j, wanted, same) && NoneBefore(c, data, j, wanted, same)
      ensures !found ==> NoneBefore(c, data, 16 * |data|, wanted, same)
    {
      hide *;
      var cache := new LfnCache();
      cache.Init(true);
      c, j := cache.Value(), 0;
      EmptyCache(cache, c, data, wanted, same);
      var blank: Slot := seq(32, _ => 0);
      found, entry := false, blank;
      var x: nat := 0;
      var more := true;
      while more && !found
        invariant Stored() && x <= |data| && cache.Shaped() && fresh(cache) && fresh(cache.table)
        invariant !found ==> cache.Value() == CacheAt(c, data, 16 * x) && NoneBefore(c, data, 16 * x, wanted, same)
        invariant found ==> j < 16 * |data| && entry == EntryOf(data, j)
        invariant found ==> MatchesAt(c, data, j, wanted, same) && NoneBefore(c, data, j, wanted, same)
        invariant !more ==> x == |data|
        decreases |data| - x, more, !found
      {
        more := SectorReader(x);
        if more {
          SectorLength();
          found, entry, j := LookInSector(x, cache, wanted, same, c);
          x := x + 1;
        }
      }
    }
  }

  /** One more cluster is enough for every name, unless clusters are single sectors and the name has
      more than 195 characters. */
  lemma OneClusterIsEnough(data: seq<Sector>, spc: nat, filename: seq<byte>)
    requires 0 < |filename| <= 260 && 0 < spc && (spc >= 2 || |filename| <= 195)
    ensures HasRoom(data, true, spc, EntriesRequired(filename) + 1)
  {
  }

  /** In a full directory of single-sector clusters a longer name fails, with a free cluster at hand. */
  lemma LongNameFails(data: seq<Sector>, spare: bool, filename: seq<byte>)
    requires forall j :: 0 <= j < 16 * |data| ==> Live(EntryOf(data, j))
    requires |filename| > 195
    ensures !HasRoom(data, spare, 1, EntriesRequired(filename) + 1)
  {
  }

  /** For instance this directory and this name */
  lemma LongNameFailsOnce()
    ensures !HasRoom([seq(512, _ => 0x41)], true, 1, EntriesRequired(seq(196, _ => 0x41)) + 1)
  {
    var data, filename := [seq(512, _ => 0x41)], seq(196, _ => 0x41);
    forall j | 0 <= j < 16 * |data|
      ensures Live(EntryOf(data, j))
    {
      assert EntryOf(data, j)[0] == 0x41 && EntryOf(data, j)[11] == 0x41;
    }
    LongNameFails(data, true, filename);
  }

  /** A free run of n entries that ends before entry end */
  ghost predicate FoundRun(data: seq<Sector>, start: int, n: nat, end: nat) {
    && 0 <= start && start + n <= end <= 16 * |data|
    && RunStarts(data, start) && FreeRun(data, start, n) && HasRun(data, n)
  }

  /** Before entry idx: whether the run has begun, and how many of its k long-name slots remain. */
  predicate Filling(start: nat, k: nat, idx: nat, foundEnd: bool, entryCount: nat) {
    && (foundEnd <==> start < idx)
    && entryCount == (if foundEnd then start + k - idx else k)
  }

  /** What is to be written, and where */
  datatype Job = Job(dirSector: nat, dirOffset: nat, filename: seq<byte>, checksum: byte, short: Slot) {
    function Start(): nat {
      16 * dirSector + dirOffset
    }

    function Slots(): (es: seq<Slot>)
      ensures |es| == EntriesRequired(filename) + 1
    {
      NewSlots(filename, checksum, short)
    }
  }

  lemma NameNeedsSlots(filename: seq<byte>)
    ensures EntriesRequired(filename) == 0 <==> filename == []
  {
  }

  /** The checksum of the first n characters of a short name */
  function ShortSum(name: seq<byte>, n: nat): byte
    requires n <= |name|
  {
    if n == 0 then
      0
    else
      var c := ShortSum(name, n - 1);
      ((if c % 2 == 1 then 0x80 else 0) + c / 2 + name[n - 1]) % 0x100
  }

  /** One step rotates the sum to the right and adds a character: r is the rotated sum. */
  lemma ChecksumStep(name: seq<byte>, n: nat) returns (r: nat)
    requires n < |name|
    ensures r < 0x100 && 2 * r == ShortSum(name, n) + 0xFF * (ShortSum(name, n) % 2)
    ensures ShortSum(name, n + 1) == (r + name[n]) % 0x100
  {
    var c := ShortSum(name, n);
    r := c / 2 + (if c % 2 == 1 then 0x80 else 0);
  }

  /** Names that differ in one character have different checksums. */
  lemma {:induction false} ChecksumTells(name: seq<byte>, name': seq<byte>, i: nat, n: nat)
    requires |name| == |name'| && i < |name| && name[i] != name'[i] && n <= |name|
    requires forall j :: 0 <= j < |name| && j != i ==> name'[j] == name[j]
    ensures ShortSum(name, n) == ShortSum(name', n) <==> n <= i
  {
    hide ShortSum;
    NoSum(name);
    NoSum(name');
    if n > 0 {
      ChecksumTells(name, name', i, n - 1);
      var r := ChecksumStep(name, n - 1);
      var r' := ChecksumStep(name', n - 1);
      StepTells(ShortSum(name, n - 1), r, name[n - 1], ShortSum(name', n - 1), r', name'[n - 1]);
    }
  }

  lemma StepTells(c: nat, r: nat, b: byte, c': nat, r': nat, b': byte)
    requires c < 0x100 && r < 0x100 && 2 * r == c + 0xFF * (c % 2)
    requires c' < 0x100 && r' < 0x100 && 2 * r' == c' + 0xFF * (c' % 2)
    ensures b == b' ==> ((r + b) % 0x100 == (r' + b') % 0x100 <==> c == c')
    ensures c == c' && b != b' ==> (r + b) % 0x100 != (r' + b') % 0x100
  {
  }

  /** README.TXT */
  lemma ChecksumOfReadme()
    ensures ShortSum([0x52, 0x45, 0x41, 0x44, 0x4D, 0x45, 0x20, 0x20, 0x54, 0x58, 0x54], 11) == 0x73
  {
    hide ShortSum;
    var name: seq<byte> := [0x52, 0x45, 0x41, 0x44, 0x4D, 0x45, 0x20, 0x20, 0x54, 0x58, 0x54];
    NoSum(name);
    NextSum(name, 0, 0x00, 0x52, 0x52);
    NextSum(name, 1, 0x52, 0x45, 0x6E);
    NextSum(name, 2, 0x6E, 0x41, 0x78);
    NextSum(name, 3, 0x78, 0x44, 0x80);
    NextSum(name, 4, 0x80, 0x4D, 0x8D);
    NextSum(name, 5, 0x8D, 0x45, 0x0B);
    NextSum(name, 6, 0x0B, 0x20, 0xA5);
    NextSum(name, 7, 0xA5, 0x20, 0xF2);
    NextSum(name, 8, 0xF2, 0x54, 0xCD);
    NextSum(name, 9, 0xCD, 0x58, 0x3E);
    NextSum(name, 10, 0x3E, 0x54, 0x73);
  }

  lemma NoSum(name: seq<byte>)
    ensures ShortSum(name, 0) == 0
  {
  }

  lemma NextSum(name: seq<byte>, n: nat, c: byte, b: byte, c': byte)
    requires n < |name| && ShortSum(name, n) == c && name[n] == b
    requires c' == ((if c % 2 == 1 then 0x80 else 0) + c / 2 + b) % 0x100
    ensures ShortSum(name, n + 1) == c'
  {
  }

  method ChecksumOf(name: seq<byte>) returns (checksum: byte)
    requires |name| == 11
    ensures checksum == ShortSum(name, 11)
  {
    checksum := 0;
    for i := 0 to 11
      invariant checksum == ShortSum(name, i)
    {
      checksum := ((if checksum % 2 == 1 then 0x80 else 0) + checksum / 2 + name[i]) % 0x100;
    }
  }

  /** The short entry of fatfs_sfn_create_entry */
  function ShortEntry(name: seq<byte>, startCluster: uint32, size: uint32, dir: bool): Slot
    requires |name| == 11
  {
    name + [if dir then 0x10 else 0x20, 0, 0, 0, 0, 0x20, 0, 0x20, 0]
    + [startCluster / 0x1_0000 % 0x100, startCluster / 0x100_0000 % 0x100, 0, 0, 0x20, 0]
    + [startCluster % 0x100, startCluster / 0x100 % 0x100]
    + [size % 0x100, size / 0x100 % 0x100, size / 0x1_0000 % 0x100, size / 0x100_0000 % 0x100]
  }

  /** What _open_file takes from an entry: FstClusHI and FstClusLO */
  function ClusterOf(e: Slot): (c: uint32) {
    Word16(e, 20) * 0x1_0000 + Word16(e, 26)
  }

  /** FileSize */
  function SizeOf(e: Slot): (n: uint32) {
    Word32(e, 28)
  }

  /** The entry says what it was made for. */
  predicate HoldsEntry(e: Slot, name: seq<byte>, startCluster: uint32, size: uint32, dir: bool) {
    && e[..11] == name && e[11] == (if dir then 0x10 else 0x20)
    && ClusterOf(e) == startCluster && SizeOf(e) == size
  }

  lemma ShortLayout(name: seq<byte>, startCluster: uint32, size: uint32, dir: bool)
    requires |name| == 11
    ensures HoldsEntry(ShortEntry(name, startCluster, size, dir), name, startCluster, size, dir)
    ensures var e := ShortEntry(name, startCluster, size, dir);
      && e[12] == e[13] == e[14] == e[15] == e[17] == e[19] == e[22] == e[23] == e[25] == 0
      && e[16] == e[18] == e[24] == 0x20
  {
    WordBytes(startCluster);
    WordBytes(size);
  }

  lemma ShortIsNormal(name: seq<byte>, startCluster: uint32, size: uint32, dir: bool)
    requires |name| == 11
    ensures var e := ShortEntry(name, startCluster, size, dir);
      name[0] != BLANK && name[0] != DELETED ==> !LfnText(e) && !LfnInvalid(e)
  {
  }

  function NewEntry(filename: seq<byte>, shortfilename: seq<byte>, startCluster: uint32, size: uint32, dir: bool)
    : seq<Slot>
    requires |shortfilename| == 11
  {
    NewSlots(filename, ShortSum(shortfilename, 11), ShortEntry(shortfilename, startCluster, size, dir))
  }

  lemma NewEntrySize(filename: seq<byte>, shortfilename: seq<byte>, startCluster: uint32, size: uint32, dir: bool)
    requires |shortfilename| == 11
    ensures |NewEntry(filename, shortfilename, startCluster, size, dir)| == EntriesRequired(filename) + 1
  {
  }

  lemma JobIs(j: Job, shortfilename: seq<byte>, startCluster: uint32, size: uint32, dir: bool)
    requires |shortfilename| == 11 && j.checksum == ShortSum(shortfilename, 11)
    requires j.short == ShortEntry(shortfilename, startCluster, size, dir)
    ensures j.Slots() == NewEntry(j.filename, shortfilename, startCluster, size, dir)
    ensures |j.Slots()| == EntriesRequired(j.filename) + 1
    ensures j.Start() == 16 * j.dirSector + j.dirOffset
  {
  }

  lemma EntryHere(c: Cache, data: seq<Sector>, x: nat, item: nat)
    requires x < |data| && item < 16 && |c.rows| == MAX_ENTRIES && c.count <= MAX_ENTRIES
    ensures EntryOf(data, 16 * x + item) == SlotIn(data[x], item)
    ensures CacheAt(c, data, 16 * x + item + 1)
         == AfterEntry(CacheAt(c, data, 16 * x + item), EntryOf(data, 16 * x + item))
  {
  }

  lemma MatchIs(c: Cache, data: seq<Sector>, j: nat, wanted: seq<byte>, same: NameTest)
    requires j < 16 * |data| && |c.rows| == MAX_ENTRIES && c.count <= MAX_ENTRIES
    requires CacheAt(c, data, j).count > 0 && !LfnText(EntryOf(data, j)) && !LfnInvalid(EntryOf(data, j))
    ensures MatchesAt(c, data, j, wanted, same) <==> same(NameIn(CacheAt(c, data, j)), wanted)
  {
  }

  lemma EmptyCache(cache: LfnCache, c: Cache, data: seq<Sector>, wanted: seq<byte>, same: NameTest)
    requires cache.Shaped() && c == cache.Value() && cache.noOfStrings == 0
    ensures |c.rows| == MAX_ENTRIES && c.count == 0
    ensures CacheAt(c, data, 0) == c && NoneBefore(c, data, 0, wanted, same)
  {
  }

  lemma TakenInGrown(data: seq<Sector>, n: nat, j: nat)
    requires j < 16 * |data| && Taken(data, j)
    ensures Taken(data + Zeroed(n), j) && EntryOf(data + Zeroed(n), j) == EntryOf(data, j)
  {
    var p :| j <= p < 16 * |data| && TakenBy(data, j, p);
    forall h | j <= h <= p
      ensures EntryOf(data + Zeroed(n), h) == EntryOf(data, h)
    {
      GrownEntries(data, n, h);
    }
    assert TakenBy(data + Zeroed(n), j, p);
  }

  lemma LastOf(s: seq<nat>, c: nat)
    ensures (s + [c])[|s + [c]| - 1] == c && |s + [c]| == |s| + 1 && s + [c] != []
  {
  }

  lemma PrefixIs(s: seq<Sector>, t: seq<Sector>)
    requires s <= t
    ensures t[..|s|] == s
  {
  }

  lemma RunGrown(data: seq<Sector>, possible: nat, n: nat, count: nat)
    requires Scanned(data, 16 * |data|, possible)
    ensures possible <= 16 * |data| && RunStarts(data, 16 * |data| - possible)
    ensures RunStarts(data + Zeroed(n), 16 * |data| - possible)
    ensures FreeRun(data + Zeroed(n), 16 * |data| - possible, count)
  {
    GrownRunIsFree(data, possible, n, count);
  }

  lemma LastCluster(n: nat, spc: nat)
    requires n > 0
    ensures SectorsIn(n - 1, spc) + spc == SectorsIn(n, spc)
  {
    assert (n - 1) * spc + spc == n * spc;
  }

  /** data with n sectors from base on erased */
  ghost function ZeroedFrom(data: seq<Sector>, base: nat, n: nat): seq<Sector>
    requires base + n <= |data|
  {
    data[..base] + Zeroed(n) + data[base + n..]
  }

  lemma ZeroesStart(data: seq<Sector>, base: nat)
    requires base <= |data|
    ensures ZeroedFrom(data, base, 0) == data
  {
  }

  lemma ZeroStep(data: seq<Sector>, base: nat, i: nat)
    requires base + i < |data|
    ensures |ZeroedFrom(data, base, i)| == |data|
    ensures ZeroedFrom(data, base, i)[base + i := ZeroSector()] == ZeroedFrom(data, base, i + 1)
  {
  }

  lemma ZeroedBytes(data: seq<Sector>, n: nat)
    ensures var all := data + Zeroed(n); forall s, b :: |data| <= s < |all| && 0 <= b < 512 ==> all[s][b] == 0
  {
  }

  lemma ZeroesEnd(data: seq<Sector>, base: nat, n: nat)
    requires base + n == |data|
    ensures ZeroedFrom(data, base, n) == data[..base] + Zeroed(n)
  {
  }
}


