/** The write-back sector buffers in front of the on-disk FAT, and the FAT operations on top of
    them (fat_table.c, default configuration: one sector per buffer, any number of buffers). */
module FatTable {
  import opened Sequences
  import opened FatWords
  import opened FatChains
  import opened FatRelease

  /** The media driver: an array of sectors whose transfers may fail unless it is reliable. */
  class Disk {
    const reliable: bool
    var sectors: seq<Sector>

    constructor (sectors: seq<Sector>, reliable: bool)
      ensures this.sectors == sectors && this.reliable == reliable
    {
      this.sectors, this.reliable := sectors, reliable;
    }

    /** read_media: after a failure the bytes delivered are unspecified. */
    method Read(lba: nat, count: nat) returns (ok: bool, data: seq<byte>)
      ensures |data| == 512 * count
      ensures ok ==> lba + count <= |sectors|
      ensures ok ==> forall l :: lba <= l < lba + count ==> Chunk(data, 512 * (l - lba)) == sectors[l]
      ensures reliable && lba + count <= |sectors| ==> ok
    {
      ok := *;
      if lba + count > |sectors| || (!reliable && !ok) {
        data := *;
        if |data| != 512 * count {
          data := seq(512 * count, _ => 0);
        }
        return false, data;
      }
      data := [];
      for i := 0 to count
        invariant |data| == 512 * i
        invariant forall l :: lba <= l < lba + i ==> Chunk(data, 512 * (l - lba)) == sectors[l]
      {
        ghost var was := data;
        data := data + sectors[lba + i];
        forall l | lba <= l < lba + i + 1
          ensures Chunk(data, 512 * (l - lba)) == sectors[l]
        {
          if l < lba + i {
            assert Chunk(data, 512 * (l - lba)) == Chunk(was, 512 * (l - lba));
          }
        }
      }
      return true, data;
    }

    /** read_media for one sector. */
    method ReadOne(lba: nat) returns (ok: bool, data: Sector)
      ensures ok ==> lba < |sectors| && data == sectors[lba]
      ensures reliable && lba < |sectors| ==> ok
    {
      ok, data := Read(lba, 1);
      assert ok ==> sectors[lba] == data;
    }

    /** write_media for one sector. */
    method WriteOne(lba: nat, data: Sector) returns (ok: bool)
      modifies this
      ensures |sectors| == |old(sectors)|
      ensures forall l :: 0 <= l < |sectors| && l != lba ==> sectors[l] == old(sectors)[l]
      ensures ok ==> lba < |sectors| && sectors[lba] == data
      ensures reliable && lba < |sectors| ==> ok
    {
      ok := Write(lba, data, 1);
      assert ok ==> sectors[lba] == data;
    }

    /** write_media: on failure the addressed sectors may hold anything. */
    method Write(lba: nat, data: seq<byte>, count: nat) returns (ok: bool)
      requires 512 * count <= |data|
      modifies this
      ensures |sectors| == |old(sectors)|
      ensures forall l :: 0 <= l < |sectors| && !(lba <= l < lba + count) ==> sectors[l] == old(sectors)[l]
      ensures ok ==> lba + count <= |sectors|
      ensures ok ==> forall l :: lba <= l < lba + count ==> sectors[l] == Chunk(data, 512 * (l - lba))
      ensures reliable && lba + count <= |sectors| ==> ok
    {
      ok := *;
      if lba + count > |sectors| || (!reliable && !ok) {
        return false;
      }
      for i := 0 to count
        invariant |sectors| == |old(sectors)|
        invariant forall l :: 0 <= l < |sectors| && !(lba <= l < lba + i) ==> sectors[l] == old(sectors)[l]
        invariant forall l :: lba <= l < lba + i ==> sectors[l] == Chunk(data, 512 * (l - lba))
      {
        sectors := sectors[lba + i := Chunk(data, 512 * i)];
      }
      return true;
    }
  }

  class FatBuffer {
    var sector: Sector
    var address: uint32
    var dirty: bool
    var next: FatBuffer?

    constructor ()
    {
      sector := seq(SECTOR_SIZE, _ => 0);
      address, dirty, next := INVALID_ADDRESS, false, null;
    }
  }

  class FatFs {
    const disk: Disk
    const fatType: FatType
    const fatBegin: nat             // fat_begin_lba
    const fatSectors: nat           // fat_sectors
    const rootCluster: uint32       // rootdir_first_cluster: 0 on FAT16
    const infoLba: nat              // lba_begin + fs_info_sector
    const dataBegin: nat            // cluster_begin_lba
    const rootEntries: nat          // root_entry_count
    const sectorsPerCluster: nat
    const fatBuffers: seq<FatBuffer>

    ghost const pool: set<FatBuffer>

    var nextFreeCluster: uint32
    var head: FatBuffer?

    /** The buffers in chain order, head first. */
    ghost var chain: seq<FatBuffer>
    /** Which buffer holds a sector, if any does. */
    ghost var holder: map<int, FatBuffer>
    /** The sectors whose buffer is dirty. */
    ghost var pending: set<int>
    /** The FAT sectors as the library sees them: the buffered contents where a sector is buffered. */
    ghost var image: seq<Sector>

    predicate InFat(lba: int)
    {
      fatBegin <= lba < fatBegin + fatSectors
    }

    /** Number of entries in the FAT. */
    function EntryCount(): nat
    {
      EntriesIn(fatType, fatSectors)
    }

    /** First sector of the data area, as fatfs_lba_of_cluster uses it. */
    function DataStart(): nat
    {
      if fatType.Fat16? then dataBegin + rootEntries * 32 / SECTOR_SIZE else dataBegin
    }

    ghost predicate Geometry(size: nat)
    {
      && size < INVALID_ADDRESS
      && 0 < fatSectors && EntryCount() <= LAST_CLUSTER
      && infoLba < fatBegin
      && fatBegin + fatSectors <= dataBegin <= size
      && 0 < sectorsPerCluster < 256
    }

    /** The C array of buffers: at least one, all different. */
    ghost predicate Separate()
    {
      && |fatBuffers| > 0
      && Distinct(fatBuffers)
      && pool == (set b | b in fatBuffers)
    }

    /** The linked chain visits every buffer exactly once: it has no repeats and as many places as
        there are buffers. */
    ghost predicate Linked()
      reads `chain, `head, pool`next
    {
      && |chain| == |pool| > 0
      && (forall i :: 0 <= i < |chain| ==> chain[i] in pool)
      && Distinct(chain)
      && head == chain[0]
      && (forall i, j :: 0 <= i && j == i + 1 && j < |chain| ==> chain[i].next == chain[j])
      && chain[|chain| - 1].next == null
    }

    /** What one buffer may hold: nothing, or one sector that no other buffer holds. A buffered FAT
        sector has the logical contents; only FAT sectors are ever dirty. */
    ghost predicate BufferOk(holders: map<int, FatBuffer>, fat: seq<Sector>, late: set<int>,
                             b: FatBuffer, address: int, dirty: bool, sector: Sector)
    {
      && (address == INVALID_ADDRESS ||
            ((InFat(address) || address == infoLba) && address in holders && holders[address] == b))
      && (InFat(address) ==> 0 <= address - fatBegin < |fat| && fat[address - fatBegin] == sector)
      && (dirty ==> InFat(address))
      && (dirty <==> address in late)
    }

    /** A FAT sector on the disk is current unless a dirty buffer holds it. */
    ghost predicate DiskOk(fat: seq<Sector>, late: set<int>, a: int, sector: Sector)
    {
      0 <= a - fatBegin < |fat| && (sector == fat[a - fatBegin] || a in late)
    }

    /** What the buffers hold, against the disk and the logical FAT. */
    ghost predicate Coherent()
      requires Geometry(|disk.sectors|)
      reads `holder, `image, `pending, disk, pool`address, pool`dirty, pool`sector
    {
      && |image| == fatSectors
      && (forall b :: b in pool ==> BufferOk(holder, image, pending, b, b.address, b.dirty, b.sector))
      && (forall a :: a in holder ==> holder[a] in pool && holder[a].address == a && a != INVALID_ADDRESS)
      && pending <= holder.Keys
      && (forall a :: InFat(a) ==> DiskOk(image, pending, a, disk.sectors[a]))
    }

    ghost predicate Valid()
      reads `head, `chain, `holder, `pending, `image, disk, pool
    {
      Geometry(|disk.sectors|) && Linked() && Coherent()
    }

    lemma CoherentParts()
      requires Valid()
      ensures Geometry(|disk.sectors|) && Linked()
      ensures |image| == fatSectors && pending <= holder.Keys
      ensures forall b :: b in pool ==> BufferOk(holder, image, pending, b, b.address, b.dirty, b.sector)
      ensures forall a :: a in holder ==> holder[a] in pool && holder[a].address == a && a != INVALID_ADDRESS
      ensures forall a :: InFat(a) ==> DiskOk(image, pending, a, disk.sectors[a])
    {
    }

    lemma CoherentAgain()
      requires Geometry(|disk.sectors|) && Linked()
      requires |image| == fatSectors && pending <= holder.Keys
      requires forall b :: b in pool ==> BufferOk(holder, image, pending, b, b.address, b.dirty, b.sector)
      requires forall a :: a in holder ==> holder[a] in pool && holder[a].address == a && a != INVALID_ADDRESS
      requires forall a :: InFat(a) ==> DiskOk(image, pending, a, disk.sectors[a])
      ensures Valid()
    {
    }

    /** No two buffers hold the same sector. */
    lemma OneBufferPerSector(b: FatBuffer, b': FatBuffer)
      requires Valid() && b in pool && b' in pool && b != b' && b.address == b'.address
      ensures b.address == INVALID_ADDRESS
    {
      assert BufferOk(holder, image, pending, b, b.address, b.dirty, b.sector);
      assert BufferOk(holder, image, pending, b', b'.address, b'.dirty, b'.sector);
    }

    /** The plain FAT array this object stands for. */
    ghost function Table(): (f: Fat)
      reads `image
    {
      Entries(fatType, image)
    }

    ghost predicate Buffered(lba: nat)
      reads this
    {
      lba in holder
    }

    /** Everything on the disk but the FAT and the FSINFO sector. */
    ghost predicate SameOutsideFat(before: seq<Sector>, after: seq<Sector>)
    {
      && |after| == |before|
      && forall lba :: 0 <= lba < |before| && !InFat(lba) && lba != infoLba ==> after[lba] == before[lba]
    }

    lemma SameOutsideRefl(s: seq<Sector>)
      ensures SameOutsideFat(s, s)
    {
    }

    lemma SameOutsideTrans(a: seq<Sector>, b: seq<Sector>, c: seq<Sector>)
      requires SameOutsideFat(a, b) && SameOutsideFat(b, c)
      ensures SameOutsideFat(a, c)
    {
    }

    lemma SameData(a: seq<Sector>, b: seq<Sector>)
      requires Valid() && SameOutsideFat(a, b)
      ensures |b| == |a| && forall l :: DataStart() <= l < |a| ==> b[l] == a[l]
    {
    }

    constructor (disk: Disk, fatType: FatType, fatBegin: nat, fatSectors: nat, rootCluster: uint32, infoLba: nat,
                 dataBegin: nat, rootEntries: nat, sectorsPerCluster: nat, fatBuffers: seq<FatBuffer>)
      ensures this.disk == disk && this.fatType == fatType && this.fatBegin == fatBegin && this.fatSectors == fatSectors
      ensures this.rootCluster == rootCluster && this.infoLba == infoLba && this.dataBegin == dataBegin
      ensures this.rootEntries == rootEntries && this.sectorsPerCluster == sectorsPerCluster
      ensures this.fatBuffers == fatBuffers && pool == set b | b in fatBuffers
    {
      this.disk, this.fatType, this.fatBegin, this.fatSectors := disk, fatType, fatBegin, fatSectors;
      this.rootCluster, this.infoLba, this.dataBegin, this.rootEntries := rootCluster, infoLba, dataBegin, rootEntries;
      this.sectorsPerCluster, this.fatBuffers := sectorsPerCluster, fatBuffers;
      nextFreeCluster, head := 0, null;
      chain, holder, pending, image, pool := [], map[], {}, [], set b | b in fatBuffers;
    }

    /** fatfs_fat_init: every buffer is made invalid and pushed on the chain; the logical FAT is then
        the one on the disk. */
    method FatInit()
      requires Separate() && Geometry(|disk.sectors|)
      modifies this, disk, pool
      ensures Valid()
      ensures disk.sectors == old(disk.sectors)
      ensures image == disk.sectors[fatBegin..fatBegin + fatSectors]
    {
      PushBuffers();
      holder, pending, image := map[], {}, disk.sectors[fatBegin..fatBegin + fatSectors];
      DistinctSize(fatBuffers);
    }

    /** The loop of fatfs_fat_init: the buffers are pushed one by one, so the last comes first. */
    method PushBuffers()
      requires Separate()
      modifies `head, `chain, pool
      ensures |chain| == |fatBuffers| && head == chain[0] && chain[|chain| - 1] == fatBuffers[0]
      ensures forall k :: 0 <= k < |chain| ==> chain[k] == fatBuffers[|fatBuffers| - 1 - k]
      ensures forall k :: 0 <= k < |fatBuffers| ==> fatBuffers[k].address == INVALID_ADDRESS && !fatBuffers[k].dirty
      ensures fatBuffers[0].next == null
      ensures forall k, l :: 0 <= k && l == k + 1 && l < |fatBuffers| ==> fatBuffers[l].next == fatBuffers[k]
    {
      head := null;
      chain := [];
      var i := 0;
      while i < |fatBuffers|
        invariant 0 <= i <= |fatBuffers|
        invariant |chain| == i
        invariant forall k :: 0 <= k < i ==> chain[k] == fatBuffers[i - 1 - k]
        invariant forall k :: 0 <= k < i ==> fatBuffers[k].address == INVALID_ADDRESS && !fatBuffers[k].dirty
        invariant head == if i == 0 then null else fatBuffers[i - 1]
        invariant i > 0 ==> fatBuffers[0].next == null
        invariant forall k, l :: 0 <= k && l == k + 1 && l < i ==> fatBuffers[l].next == fatBuffers[k]
      {
        var b := fatBuffers[i];
        b.address, b.dirty := INVALID_ADDRESS, false;
        b.sector := seq(SECTOR_SIZE, _ => 0);
        b.next := head;
        head := b;
        chain := [b] + chain;
        i := i + 1;
      }
    }

    /** fatfs_fat_writeback */
    method Writeback(pcur: FatBuffer) returns (ok: bool)
      requires Valid() && pcur in pool
      modifies `pending, disk, pcur`dirty
      ensures Valid()
      ensures ok ==> !pcur.dirty
      ensures disk.reliable || !old(pcur.dirty) ==> ok
      ensures !old(pcur.dirty) ==> disk.sectors == old(disk.sectors)
      ensures SameOutsideFat(old(disk.sectors), disk.sectors)
    {
      hide Valid, Coherent, Linked, BufferOk, DiskOk;
      CoherentParts();
      ok := true;
      if pcur.dirty {
        DirtyAddress(pcur);
        ghost var late, before := pending, disk.sectors;
        ok := disk.WriteOne(pcur.address, pcur.sector);
        if ok {
          pcur.dirty := false;
          pending := pending - {pcur.address as int};
          forall b | b in pool
            ensures BufferOk(holder, image, pending, b, b.address, b.dirty, b.sector)
          {
            CleanedBuffer(late, pcur, pcur.address, b, b.address, b.dirty, b.sector);
          }
        }
        forall l | InFat(l)
          ensures DiskOk(image, pending, l, disk.sectors[l])
        {
          CleanedDisk(late, pcur.address, ok, l, before[l], disk.sectors[l]);
        }
        CoherentAgain();
      }
    }

    lemma DirtyAddress(b: FatBuffer)
      requires Valid() && b in pool && b.dirty
      ensures InFat(b.address) && 0 <= b.address - fatBegin < |image| && image[b.address - fatBegin] == b.sector
      ensures b.address < INVALID_ADDRESS && b.address as int in pending
      ensures b.address as int in holder && holder[b.address as int] == b
    {
      assert BufferOk(holder, image, pending, b, b.address, b.dirty, b.sector);
    }

    lemma CleanedBuffer(late: set<int>, pbuf: FatBuffer, a: int, b: FatBuffer, address: int, dirty: bool,
                        sector: Sector)
      requires a < INVALID_ADDRESS && a in holder && holder[a] == pbuf && (b == pbuf ==> address == a && !dirty)
      requires BufferOk(holder, image, late, b, address, dirty || b == pbuf, sector)
      ensures BufferOk(holder, image, late - {a}, b, address, dirty, sector)
    {
    }

    lemma CleanedDisk(late: set<int>, a: int, ok: bool, l: int, before: Sector, after: Sector)
      requires 0 <= a - fatBegin < |image| && a in late && DiskOk(image, late, l, before)
      requires if l == a then ok ==> after == image[a - fatBegin] else after == before
      ensures DiskOk(image, if ok then late - {a} else late, l, after)
    {
    }

    /** The search of fatfs_fat_read_sector: walk the chain for the buffer that holds `sector`; if
        none does, the last buffer has been unhooked when the walk ends. */
    method FindOrUnhook(sector: nat) returns (pcur: FatBuffer?, last: FatBuffer?)
      requires Linked() && sector < INVALID_ADDRESS
      modifies `head, pool`next
      ensures pcur != null ==> Linked() && pcur in pool && pcur.address == sector
      ensures pcur == null ==> forall b :: b in pool ==> b.address != sector
      ensures pcur == null ==> last == chain[|chain| - 1]
      ensures pcur == null ==> head == if |chain| == 1 then null else chain[0]
      ensures pcur == null ==> forall i, j :: 0 <= i && j == i + 1 && j < |chain| - 1 ==> chain[i].next == chain[j]
      ensures pcur == null && |chain| > 1 ==> chain[|chain| - 2].next == null
    {
      last := null;
      pcur := head;
      ghost var i := 0;
      while pcur != null
        invariant 0 <= i <= |chain|
        invariant forall k :: 0 <= k < i ==> chain[k].address != sector
        invariant last == if i == 0 then null else chain[i - 1]
        invariant i < |chain| ==> pcur == chain[i] && Linked()
        invariant i == |chain| ==> pcur == null
        invariant i == |chain| ==> head == if |chain| == 1 then null else chain[0]
        invariant i == |chain| ==> forall k, l :: 0 <= k && l == k + 1 && l < |chain| - 1 ==> chain[k].next == chain[l]
        invariant i == |chain| && |chain| > 1 ==> chain[|chain| - 2].next == null
        decreases |chain| - i
      {
        if pcur.address <= sector < (pcur.address + 1) % 0x1_0000_0000 {
          break;
        }
        assert i + 1 < |chain| ==> chain[i].next == chain[i + 1];
        if pcur.next == null {
          if last != null {
            last.next := null;
          } else {
            head := null;
          }
        }
        last := pcur;
        pcur := pcur.next;
        i := i + 1;
      }
      if pcur == null {
        forall b | b in pool
          ensures b.address != sector
        {
          Covers(chain, pool, b);
        }
      }
    }

    /** The unhooked buffer becomes the new head of the chain. */
    method HookFirst(last: FatBuffer)
      requires |chain| == |pool| > 0 && last == chain[|chain| - 1]
      requires forall i :: 0 <= i < |chain| ==> chain[i] in pool
      requires Distinct(chain)
      requires head == if |chain| == 1 then null else chain[0]
      requires forall i, j :: 0 <= i && j == i + 1 && j < |chain| - 1 ==> chain[i].next == chain[j]
      requires |chain| > 1 ==> chain[|chain| - 2].next == null
      modifies `head, `chain, last`next
      ensures Linked()
      ensures chain == [last] + old(chain)[..|chain| - 1]
    {
      last.next := head;
      head := last;
      chain := [last] + chain[..|chain| - 1];
    }

    /** A clean buffer stops holding a sector; `data` is what is left in it. */
    method Invalidate(pcur: FatBuffer, data: Sector)
      requires Valid() && pcur in pool && !pcur.dirty
      modifies `holder, pcur`address, pcur`sector
      ensures Valid()
      ensures pcur.address == INVALID_ADDRESS
      ensures holder == old(holder) - {old(pcur.address) as int}
    {
      hide Valid, Coherent, Linked, BufferOk, DiskOk;
      CoherentParts();
      CleanAddress(pcur);
      ghost var was, a: int := holder, pcur.address;
      holder := holder - {a};
      pcur.address, pcur.sector := INVALID_ADDRESS, data;
      forall b | b in pool
        ensures BufferOk(holder, image, pending, b, b.address, b.dirty, b.sector)
      {
        EmptiedBuffer(was, pcur, a, b, b.address, b.dirty, b.sector);
      }
      CoherentAgain();
    }

    lemma CleanAddress(b: FatBuffer)
      requires Valid() && b in pool && !b.dirty
      ensures b.address as int !in pending && INVALID_ADDRESS !in pending && !InFat(INVALID_ADDRESS)
      ensures b.address as int in holder ==> holder[b.address as int] == b
    {
      assert BufferOk(holder, image, pending, b, b.address, b.dirty, b.sector);
    }

    lemma EmptiedBuffer(was: map<int, FatBuffer>, pbuf: FatBuffer, a: int,
                        b: FatBuffer, address: int, dirty: bool, sector: Sector)
      requires INVALID_ADDRESS !in pending && !InFat(INVALID_ADDRESS) && (a in was ==> was[a] == pbuf)
      requires if b == pbuf then address == INVALID_ADDRESS && !dirty
               else BufferOk(was, image, pending, b, address, dirty, sector)
      ensures BufferOk(was - {a}, image, pending, b, address, dirty, sector)
    {
    }

    /** A clean buffer is given a sector that no buffer holds. */
    method Fill(pcur: FatBuffer, sector: nat, data: Sector)
      requires Valid() && pcur in pool && !pcur.dirty && pcur.address == INVALID_ADDRESS
      requires InFat(sector) || sector == infoLba
      requires !Buffered(sector) && data == disk.sectors[sector]
      modifies `holder, pcur`address, pcur`sector
      ensures Valid()
      ensures pcur.address == sector && Buffered(sector)
    {
      hide Linked;
      holder := holder[sector as int := pcur];
      pcur.address, pcur.sector := sector, data;
    }

    /** fatfs_fat_read_sector: find the sector among the buffers, or evict the last one for it. Whatever
        happens, and whatever is evicted, the logical FAT stays the same. */
    method ReadSector(sector: nat) returns (pcur: FatBuffer?)
      requires Valid() && (InFat(sector) || sector == infoLba)
      modifies `head, `chain, `holder, `pending, disk, pool
      ensures Valid()
      ensures pcur != null ==> pcur in pool && pcur.address == sector && Buffered(sector)
      ensures disk.reliable || old(Buffered(sector)) ==> pcur != null
      ensures SameOutsideFat(old(disk.sectors), disk.sectors)
    {
      var last;
      pcur, last := FindOrUnhook(sector);
      if pcur == null {
        HookFirst(last);
        assert !Buffered(sector);
        pcur := Reuse(last, sector);
      }
    }

    /** The oldest buffer gets new contents, once the old ones are safe on the disk. */
    method Reuse(buffer: FatBuffer, sector: nat) returns (pcur: FatBuffer?)
      requires Valid() && buffer in pool && !Buffered(sector) && (InFat(sector) || sector == infoLba)
      modifies `holder, `pending, disk, pool
      ensures Valid()
      ensures pcur != null ==> pcur in pool && pcur.address == sector && Buffered(sector)
      ensures disk.reliable ==> pcur != null
      ensures SameOutsideFat(old(disk.sectors), disk.sectors)
    {
      hide Linked, Coherent;
      pcur := buffer;
      var ok := Writeback(buffer);
      if ok {
        var data;
        ok, data := disk.ReadOne(sector);
        Invalidate(buffer, data);
        if ok {
          Fill(buffer, sector, data);
        }
      }
      if !ok {
        pcur := null;
      }
    }

    // -------------------------------------------------------------------------------------
    // General FAT table operations
    // -------------------------------------------------------------------------------------

    /** The FAT sector of a cluster's entry. */
    function SectorOf(cluster: nat): nat
    {
      fatBegin + SectorIndex(fatType, cluster)
    }

    lemma OffsetInFat(cluster: nat)
      ensures cluster < EntryCount() <==> SectorIndex(fatType, cluster) < fatSectors
    {
    }

    lemma TableSize()
      requires Valid()
      ensures |Table()| == EntryCount() <= LAST_CLUSTER
    {
    }

    lemma SectorInFat(cluster: nat)
      ensures cluster < EntryCount() <==> InFat(SectorOf(cluster))
    {
    }

    /** A buffer that holds a FAT sector shows the entries of the logical FAT. */
    lemma BufferedEntry(b: FatBuffer, cluster: nat)
      requires Valid() && b in pool && cluster < EntryCount() && b.address == SectorOf(cluster)
      ensures cluster < |Table()| && Table()[cluster] == SectorEntry(fatType, b.sector, SectorPlace(fatType, cluster))
    {
      hide Linked;
      SectorInFat(cluster);
      EntryAt(fatType, image, cluster);
      assert BufferOk(holder, image, pending, b, b.address, b.dirty, b.sector);
    }

    /** The lookup that the FAT operations share: bring the entry's sector into a buffer and read the
        word there. The entry is that of the plain FAT array. */
    method ReadEntry(cluster: uint32) returns (ok: bool, entry: uint32)
      requires Valid() && cluster < EntryCount()
      modifies `head, `chain, `holder, `pending, disk, pool
      ensures Valid() && |Table()| == EntryCount()
      ensures ok ==> entry == Table()[cluster] && Buffered(SectorOf(cluster))
      ensures ok && fatType.Fat16? ==> entry <= 0xFFFF
      ensures disk.reliable ==> ok
      ensures SameOutsideFat(old(disk.sectors), disk.sectors)
    {
      assert |image| == fatSectors;
      hide Linked, Coherent;
      SectorInFat(cluster);
      var sectorOffset := SectorIndex(fatType, cluster);
      var pbuf := ReadSector(fatBegin + sectorOffset);
      if pbuf == null {
        return false, 0;
      }
      BufferedEntry(pbuf, cluster);
      return true, EntryWord(fatType, pbuf.sector, cluster);
    }

    /** fatfs_find_next_cluster: reads one link of the plain FAT array. Only a failed read gives
        anything else, and then it gives the end-of-chain value. */
    method FindNextCluster(cluster: uint32) returns (next: uint32)
      requires Valid()
      requires (if cluster == 0 then 2 else cluster) < EntryCount()
      modifies `head, `chain, `holder, `pending, disk, pool
      ensures Valid() && |Table()| == EntryCount()
      ensures var c := if cluster == 0 then 2 else cluster;
        && (next == Link(fatType, Table()[c]) || (!disk.reliable && next == LAST_CLUSTER))
        && (disk.reliable && fatType.Fat16? ==> next == if Table()[c] < 0xFFF8 then Table()[c] else 0xFFFF_FFFF)
        && (disk.reliable && fatType.Fat32? ==>
              var e := Table()[c] % 0x1000_0000;
              next == if e < 0x0FFF_FFF8 then e else 0xFFFF_FFFF)
        && (next != LAST_CLUSTER ==> Buffered(SectorOf(c)))
      ensures SameOutsideFat(old(disk.sectors), disk.sectors)
    {
      hide Linked, Coherent, Entries;
      var current: uint32 := if cluster == 0 then 2 else cluster;
      var ok;
      ok, next := ReadEntry(current);
      if !ok {
        return LAST_CLUSTER;
      }
      if fatType.Fat16? {
        if next >= 0xFFF8 && next <= 0xFFFF {
          return LAST_CLUSTER;
        }
      } else {
        next := next % 0x1000_0000;
        if next >= 0x0FFF_FFF8 && next <= 0x0FFF_FFFF {
          return LAST_CLUSTER;
        }
      }
    }

    /** New contents for a buffered FAT sector, to be written back later. */
    method StoreDirty(pbuf: FatBuffer, data: Sector)
      requires Valid() && pbuf in pool && InFat(pbuf.address)
      modifies `image, `pending, pbuf`sector, pbuf`dirty
      ensures Valid()
      ensures |old(image)| == fatSectors && image == old(image)[pbuf.address - fatBegin := data]
    {
      hide Valid, Coherent, Linked, BufferOk, DiskOk;
      var a: int := pbuf.address;
      CoherentParts();
      FatAddress(pbuf);
      ghost var fat, late := image, pending;
      image := image[a - fatBegin := data];
      pending := pending + {a};
      pbuf.sector, pbuf.dirty := data, true;
      forall b | b in pool
        ensures BufferOk(holder, image, pending, b, b.address, b.dirty, b.sector)
      {
        StoredBuffer(fat, late, pbuf, a, data, b, b.address, b.dirty, b.sector);
      }
      forall l | InFat(l)
        ensures DiskOk(image, pending, l, disk.sectors[l])
      {
        StoredDisk(fat, late, a, data, l, disk.sectors[l]);
      }
      CoherentAgain();
    }

    lemma FatAddress(b: FatBuffer)
      requires Valid() && b in pool && InFat(b.address)
      ensures 0 <= b.address - fatBegin < |image| && b.address < INVALID_ADDRESS
      ensures b.address as int in holder && holder[b.address as int] == b
      ensures |image| == fatSectors && InFat(b.address as int)
    {
      assert BufferOk(holder, image, pending, b, b.address, b.dirty, b.sector);
    }

    lemma StoredBuffer(fat: seq<Sector>, late: set<int>, pbuf: FatBuffer, a: int, data: Sector,
                       b: FatBuffer, address: int, dirty: bool, sector: Sector)
      requires InFat(a) && 0 <= a - fatBegin < |fat| && a < INVALID_ADDRESS && a in holder && holder[a] == pbuf
      requires if b == pbuf then address == a && dirty && sector == data
               else BufferOk(holder, fat, late, b, address, dirty, sector)
      ensures BufferOk(holder, fat[a - fatBegin := data], late + {a}, b, address, dirty, sector)
    {
    }

    lemma StoredDisk(fat: seq<Sector>, late: set<int>, a: int, data: Sector, l: int, sector: Sector)
      requires 0 <= a - fatBegin < |fat| && DiskOk(fat, late, l, sector)
      ensures DiskOk(fat[a - fatBegin := data], late + {a}, l, sector)
    {
    }

    lemma ImageSize()
      requires Valid()
      ensures |image| == fatSectors
    {
    }

    /** fatfs_fat_set_cluster: a point update of the plain FAT array, or no change at all. */
    method SetCluster(cluster: uint32, next: uint32) returns (ok: bool)
      requires Valid() && cluster < EntryCount()
      modifies `head, `chain, `holder, `pending, `image, disk, pool
      ensures Valid() && |Table()| == EntryCount() == |old(Table())|
      ensures ok ==> Table() == old(Table())[cluster := Stored(fatType, next)]
      ensures ok ==> Table()[cluster] == if fatType.Fat16? then next % 0x1_0000 else next
      ensures !ok ==> Table() == old(Table())
      ensures disk.reliable || old(Buffered(SectorOf(cluster))) ==> ok
      ensures SameOutsideFat(old(disk.sectors), disk.sectors)
    {
      hide Valid, Linked, Coherent, BufferOk, DiskOk, Entries, EntryWritten, Stored, WithEntryWord;
      ImageSize();
      TableSize();
      StoredNumber(fatType, next);
      SectorInFat(cluster);
      var sectorOffset := SectorIndex(fatType, cluster);
      var pbuf := ReadSector(fatBegin + sectorOffset);
      if pbuf == null {
        return false;
      }
      BufferedSector(pbuf);
      var data := WithEntryWord(fatType, pbuf.sector, cluster, next);
      EntriesUpdate(fatType, image, sectorOffset, data, cluster, next);
      StoreDirty(pbuf, data);
      return true;
    }

    lemma BufferedSector(b: FatBuffer)
      requires Valid() && b in pool && InFat(b.address)
      ensures 0 <= b.address - fatBegin < |image| && b.sector == image[b.address - fatBegin]
    {
      assert BufferOk(holder, image, pending, b, b.address, b.dirty, b.sector);
    }

    /** fatfs_fat_purge: on success the FAT on the disk is the logical FAT. */
    method Purge() returns (ok: bool)
      requires Valid()
      modifies `pending, disk, pool`dirty
      ensures Valid()
      ensures disk.reliable ==> ok
      ensures ok ==> disk.sectors[fatBegin..fatBegin + fatSectors] == image
      ensures SameOutsideFat(old(disk.sectors), disk.sectors)
    {
      hide Coherent;
      var pcur := head;
      ghost var i := 0;
      while pcur != null
        invariant Valid()
        invariant 0 <= i <= |chain|
        invariant pcur == if i < |chain| then chain[i] else null
        invariant forall k :: 0 <= k < i ==> !chain[k].dirty
        invariant SameOutsideFat(old(disk.sectors), disk.sectors)
        decreases |chain| - i
      {
        assert i + 1 < |chain| ==> chain[i].next == chain[i + 1];
        ok := Writeback(pcur);
        if !ok {
          return;
        }
        pcur := pcur.next;
        i := i + 1;
      }
      forall b | b in pool
        ensures !b.dirty
      {
        Covers(chain, pool, b);
      }
      NothingPending();
      return true;
    }

    lemma NothingPending()
      requires Valid() && forall b :: b in pool ==> !b.dirty
      ensures disk.sectors[fatBegin..fatBegin + fatSectors] == image
    {
      hide Linked;
      forall i | 0 <= i < fatSectors
        ensures disk.sectors[fatBegin + i] == image[i]
      {
        var a := fatBegin + i;
        assert DiskOk(image, pending, a, disk.sectors[a]);
        assert a in holder ==> BufferOk(holder, image, pending, holder[a], a, holder[a].dirty, holder[a].sector);
      }
    }

    /** fatfs_find_blank_cluster: the lowest blank entry from `start` on. */
    method FindBlankCluster(start: uint32) returns (found: bool, free: uint32)
      requires Valid()
      modifies `head, `chain, `holder, `pending, disk, pool
      ensures Valid() && |Table()| == EntryCount()
      ensures found ==> free == LowestBlank(fatType, Table(), start) < EntryCount()
      ensures disk.reliable && !found ==> LowestBlank(fatType, Table(), start) >= EntryCount()
      ensures SameOutsideFat(old(disk.sectors), disk.sectors)
    {
      hide Valid, SameOutsideFat, Entries, EntryCount, SectorIndex, LowestBlank;
      TableSize();
      SameOutsideRefl(disk.sectors);
      ghost var f := Table();
      var current: uint32 := start;
      while true
        invariant Valid() && start <= current && Table() == f
        invariant LowestBlank(fatType, f, start) == LowestBlank(fatType, f, current)
        invariant SameOutsideFat(old(disk.sectors), disk.sectors)
        decreases EntryCount() - current
      {
        OffsetInFat(current);
        LowestBlankStep(fatType, f, current);
        if SectorIndex(fatType, current) >= fatSectors {
          return false, 0;
        }
        ghost var before := disk.sectors;
        var ok, entry := ReadEntry(current);
        SameOutsideTrans(old(disk.sectors), before, disk.sectors);
        if !ok {
          return false, 0;
        }
        if fatType.Fat32? {
          entry := entry % 0x1000_0000;
        }
        if entry == 0 {
          return true, current;
        }
        current := current + 1;
      }
    }

    /** The FSINFO sector is outside the FAT: writing it disturbs nothing the buffers hold. */
    method WriteInfo(data: Sector)
      requires Valid()
      modifies disk
      ensures Valid()
      ensures disk.reliable ==> infoLba < |disk.sectors| && disk.sectors[infoLba] == data
      ensures SameOutsideFat(old(disk.sectors), disk.sectors)
    {
      hide Linked;
      var _ := disk.WriteOne(infoLba, data);
    }

    lemma InfoIsClean(b: FatBuffer)
      requires Valid() && b in pool && b.address == infoLba
      ensures !b.dirty
    {
      assert BufferOk(holder, image, pending, b, b.address, b.dirty, b.sector);
    }

    /** fatfs_set_fs_info_next_free_cluster: a FAT32 hint outside the FAT, written through one of the
        FAT buffers, which is given up afterwards. */
    method SetInfoNextFreeCluster(value: uint32)
      requires Valid()
      modifies `nextFreeCluster, `head, `chain, `holder, `pending, disk, pool
      ensures Valid()
      ensures fatType.Fat16? ==> nextFreeCluster == old(nextFreeCluster) && disk.sectors == old(disk.sectors)
      ensures fatType.Fat32? && disk.reliable ==>
        nextFreeCluster == value && infoLba < |disk.sectors| && Word32(disk.sectors[infoLba], 492) == value
      ensures SameOutsideFat(old(disk.sectors), disk.sectors)
    {
      hide Valid, Coherent, Linked, Word32;
      if fatType.Fat32? {
        ghost var s0 := disk.sectors;
        var pbuf := ReadSector(infoLba);
        if pbuf == null {
          return;
        }
        InfoIsClean(pbuf);
        var data := Put32(pbuf.sector, 492, value);
        PutThenGet(pbuf.sector, 492, value);
        nextFreeCluster := value;
        ghost var s1 := disk.sectors;
        WriteInfo(data);
        SameOutsideTrans(s0, s1, disk.sectors);
        Invalidate(pbuf, data);
      }
    }

    /** fatfs_free_cluster_chain: terminates whatever the links are, cyclic ones and failing media
        included; on reliable media it is Release on the plain FAT array. */
    method FreeClusterChain(start: uint32)
      requires Valid() && LinksInRange(fatType, Table())
      requires start == LAST_CLUSTER || start < EntryCount()
      modifies `head, `chain, `holder, `pending, `image, disk, pool
      ensures Valid() && |Table()| == EntryCount() == |old(Table())| <= LAST_CLUSTER
      ensures disk.reliable ==> Table() == Release(fatType, old(Table()), start)
      ensures SameOutsideFat(old(disk.sectors), disk.sectors)
    {
      hide Valid, SameOutsideFat, Entries, EntryCount, LinksInRange, Release, InUse, Link, Blanks, Stored;
      TableSize();
      SameOutsideRefl(disk.sectors);
      ghost var f0 := Table();
      var next: uint32 := start;
      while next != LAST_CLUSTER && next != 0
        invariant Valid() && |Table()| == EntryCount() && LinksInRange(fatType, Table())
        invariant next == LAST_CLUSTER || next < EntryCount()
        invariant disk.reliable ==> Release(fatType, Table(), next) == Release(fatType, f0, start)
        invariant SameOutsideFat(old(disk.sectors), disk.sectors)
        decreases InUse(fatType, Table()), if next == LAST_CLUSTER || next == 0 then 0 else 1
      {
        var last := next;
        ghost var f, before := Table(), disk.sectors;
        ReleaseStep(fatType, f, last);
        next := FindNextCluster(last);
        SameOutsideTrans(old(disk.sectors), before, disk.sectors);
        before := disk.sectors;
        var _ := SetCluster(last, 0);
        SameOutsideTrans(old(disk.sectors), before, disk.sectors);
      }
      ReleaseEnds(fatType, Table(), next);
    }

    /** fatfs_fat_add_cluster_to_chain: `newEntry` becomes the last cluster of the chain at `start`. A
        chain that runs into a free entry is left alone; one whose end cannot be read may be cut, but
        no other chain changes. */
    method AddClusterToChain(start: uint32, newEntry: uint32, ghost cs: seq<nat>) returns (ok: bool)
      requires Valid() && newEntry < EntryCount()
      requires start != LAST_CLUSTER ==> IsTrail(fatType, Table(), start, cs)
      modifies `head, `chain, `holder, `pending, `image, disk, pool
      ensures Valid() && |Table()| == EntryCount() == |old(Table())| <= LAST_CLUSTER
      ensures disk.reliable ==> (ok <==> start != LAST_CLUSTER && EndsWell(fatType, old(Table()), cs))
      ensures !ok ==> Table() == old(Table())
      ensures disk.reliable && ok ==> Table() == Hung(fatType, old(Table()), cs[|cs| - 1], newEntry)
      ensures forall c :: 0 <= c < |Table()| && c !in cs && c != newEntry ==> Table()[c] == old(Table())[c]
      ensures SameOutsideFat(old(disk.sectors), disk.sectors)
    {
      hide Valid, SameOutsideFat, Entries, EntryCount;
      TableSize();
      SameOutsideRefl(disk.sectors);
      if start == LAST_CLUSTER {
        return false;
      }
      ghost var f := Table();
      var last: uint32 := LAST_CLUSTER;
      var next: uint32 := start;
      ghost var i := 0;
      while next != LAST_CLUSTER
        invariant Valid() && Table() == f
        invariant 0 <= i <= |cs|
        invariant i < |cs| ==> next == cs[i] || (i > 0 && !disk.reliable && next == LAST_CLUSTER)
        invariant i == |cs| ==> next == LAST_CLUSTER && (disk.reliable ==> EndsWell(fatType, f, cs))
        invariant i > 0 ==> last == cs[i - 1]
        invariant SameOutsideFat(old(disk.sectors), disk.sectors)
        decreases |cs| - i
      {
        last := next;
        ghost var before := disk.sectors;
        next := FindNextCluster(next);
        SameOutsideTrans(old(disk.sectors), before, disk.sectors);
        i := i + 1;
        assert i < |cs| ==> Link(fatType, f[cs[i - 1]]) == cs[i];
        if next == 0 {
          return false;
        }
      }
      HangEntry(last, newEntry, old(disk.sectors));
      return true;
    }

    /** The two stores that make `newEntry` the cluster behind `last`. */
    method HangEntry(last: uint32, newEntry: uint32, ghost before: seq<Sector>)
      requires Valid() && newEntry < EntryCount() && last < EntryCount() && SameOutsideFat(before, disk.sectors)
      modifies `head, `chain, `holder, `pending, `image, disk, pool
      ensures Valid() && |Table()| == EntryCount() == |old(Table())| <= LAST_CLUSTER
      ensures disk.reliable ==> Table() == Hung(fatType, old(Table()), last, newEntry)
      ensures forall c :: 0 <= c < |Table()| && c != last && c != newEntry ==> Table()[c] == old(Table())[c]
      ensures SameOutsideFat(before, disk.sectors)
    {
      hide Valid, SameOutsideFat, Entries, EntryCount, Stored;
      TableSize();
      ghost var s1 := disk.sectors;
      var _ := SetCluster(last, newEntry);
      SameOutsideTrans(before, s1, disk.sectors);
      s1 := disk.sectors;
      var _ := SetCluster(newEntry, LAST_CLUSTER);
      SameOutsideTrans(before, s1, disk.sectors);
    }

    /** The inner loop of fatfs_count_free_clusters. */
    method CountZeroWords(s: Sector) returns (count: nat)
      ensures count == ZeroWords(fatType, s, PerSector(fatType))
    {
      count := 0;
      var j := 0;
      while j < SECTOR_SIZE
        invariant 0 <= j <= SECTOR_SIZE && j % EntryBytes(fatType) == 0
        invariant count == ZeroWords(fatType, s, j / EntryBytes(fatType))
      {
        if fatType.Fat16? {
          if Word16(s, j) == 0 {
            count := count + 1;
          }
          j := j + 2;
        } else {
          if Word32(s, j) == 0 {
            count := count + 1;
          }
          j := j + 4;
        }
      }
    }

    /** One turn of its outer loop: the zero words of one FAT sector. */
    method CountSector(i: nat) returns (ok: bool, n: nat)
      requires Valid() && i < fatSectors
      modifies `head, `chain, `holder, `pending, disk, pool
      ensures Valid()
      ensures i < |image| && (ok ==> n == ZeroWords(fatType, image[i], PerSector(fatType)))
      ensures disk.reliable ==> ok
      ensures SameOutsideFat(old(disk.sectors), disk.sectors)
    {
      assert i < |image|;
      hide *;
      InFatIndex(i);
      var pbuf := ReadSector(fatBegin + i);
      if pbuf == null {
        return false, 0;
      }
      BufferedSector(pbuf);
      n := CountZeroWords(pbuf.sector);
      return true, n;
    }

    /** What fatfs_count_free_clusters has counted when `i` sectors are done. */
    ghost function Counted(i: nat): nat
      reads `image
    {
      if i <= |image| then ZerosBefore(fatType, image, i) else 0
    }

    lemma CountedSector(i: nat)
      requires Valid()
      ensures i < fatSectors ==>
        i < |image| && Counted(i + 1) == Counted(i) + ZeroWords(fatType, image[i], PerSector(fatType))
      ensures Counted(0) == 0 && Counted(fatSectors) == Zeros(Table())
    {
      ZerosFrom(fatType, image);
      if i < fatSectors {
        ZerosNext(fatType, image, i);
      }
    }

    /** fatfs_count_free_clusters: the number of zero words of the plain FAT array. */
    method CountFreeClusters() returns (count: nat)
      requires Valid()
      modifies `head, `chain, `holder, `pending, disk, pool
      ensures Valid()
      ensures disk.reliable ==> count == Zeros(Table())
      ensures SameOutsideFat(old(disk.sectors), disk.sectors)
    {
      hide *;
      SameOutsideRefl(disk.sectors);
      CountedSector(0);
      count := 0;
      var i: nat := 0;
      while i < fatSectors
        invariant Valid() && i <= fatSectors
        invariant count == Counted(i)
        invariant SameOutsideFat(old(disk.sectors), disk.sectors)
      {
        ghost var before := disk.sectors;
        var ok, n := CountSector(i);
        SameOutsideTrans(old(disk.sectors), before, disk.sectors);
        if !ok {
          return;
        }
        CountedSector(i);
        count := count + n;
        i := i + 1;
      }
      CountedSector(i);
    }

    lemma InFatIndex(i: nat)
      ensures InFat(fatBegin + i) <==> i < fatSectors
    {
    }

    /** One turn of fatfs_add_free_space: the lowest blank cluster is hung after `tail`. */
    method AppendBlank(tail: uint32) returns (found: bool, next: uint32)
      requires Valid() && disk.reliable && tail < EntryCount()
      modifies `head, `chain, `holder, `pending, `image, disk, pool
      ensures Valid() && |Table()| == EntryCount() == |old(Table())|
      ensures found <==> LowestBlank(fatType, old(Table()), rootCluster) < EntryCount()
      ensures found ==> next == LowestBlank(fatType, old(Table()), rootCluster)
      ensures !found ==> Table() == old(Table())
      ensures found ==> Table() == Hung(fatType, old(Table()), tail, next)
      ensures SameOutsideFat(old(disk.sectors), disk.sectors)
    {
      hide Valid, SameOutsideFat, Entries, EntryCount, LowestBlank, Stored;
      ghost var s0 := disk.sectors;
      found, next := FindBlankCluster(rootCluster);
      if found {
        HangEntry(tail, next, s0);
      }
    }

    /** fatfs_add_free_space (fat_write.c): Grow on the plain FAT array. The reference argument comes
        back as the first new cluster, or as it was if there was none. */
    method AddFreeSpace(startCluster: uint32, clusters: nat) returns (ok: bool, first: uint32)
      requires Valid() && disk.reliable && startCluster < EntryCount()
      modifies `nextFreeCluster, `head, `chain, `holder, `pending, `image, disk, pool
      ensures Valid() && |Table()| == EntryCount() == |old(Table())| <= LAST_CLUSTER
      ensures var g := Grow(fatType, old(Table()), rootCluster, startCluster, clusters);
        && Table() == g.fat && ok == g.complete
        && first == FirstOf(g.added, startCluster)
      ensures fatType.Fat16? ==> nextFreeCluster == old(nextFreeCluster)
      ensures fatType.Fat32? ==> nextFreeCluster == LAST_CLUSTER
      ensures SameOutsideFat(old(disk.sectors), disk.sectors)
    {
      hide *;
      TableSize();
      ghost var f0 := Table();
      GrowStarts(fatType, rootCluster, f0, startCluster, clusters);
      SameOutsideRefl(disk.sectors);
      var start: uint32 := startCluster;
      first := startCluster;
      if nextFreeCluster != LAST_CLUSTER {
        SetInfoNextFreeCluster(LAST_CLUSTER);
      }
      var i: nat := 0;
      ok := true;
      while i < clusters && ok
        invariant Valid() && |Table()| == EntryCount() && start < EntryCount() && i <= clusters
        invariant Midway(fatType, rootCluster, f0, startCluster, clusters, i, Table(), start)
        invariant nextFreeCluster == if fatType.Fat16? then old(nextFreeCluster) else LAST_CLUSTER
        invariant i == 0 ==> first == startCluster
        invariant i > 0 ==> first == FirstOf(Grow(fatType, f0, rootCluster, startCluster, clusters).added, startCluster)
        invariant ok || (LowestBlank(fatType, Table(), rootCluster) >= EntryCount() && i < clusters)
        invariant SameOutsideFat(old(disk.sectors), disk.sectors)
        decreases clusters - i, ok
      {
        ghost var f, before := Table(), disk.sectors;
        var next;
        ok, next := AppendBlank(start);
        SameOutsideTrans(old(disk.sectors), before, disk.sectors);
        if ok {
          GrowStep(fatType, rootCluster, f0, startCluster, clusters, i, f, start, next);
          start := next;
          if i == 0 {
            first := next;
          }
          i := i + 1;
        }
      }
      GrowStops(fatType, rootCluster, f0, startCluster, clusters, i, Table(), start);
    }

    // -------------------------------------------------------------------------------------
    // Access to the data area (fat_access.c)
    // -------------------------------------------------------------------------------------

    /** fatfs_sector_read, into part of the caller's buffer. */
    method SectorRead(lba: nat, buffer: array<byte>, at: nat, count: nat) returns (ok: bool)
      requires at + 512 * count <= buffer.Length
      modifies buffer
      ensures ok ==> lba + count <= |disk.sectors|
      ensures ok ==> forall l :: lba <= l < lba + count ==> Chunk(buffer[..], at + 512 * (l - lba)) == disk.sectors[l]
      ensures disk.reliable && lba + count <= |disk.sectors| ==> ok
      ensures buffer[..at] == old(buffer[..at])
      ensures buffer[at + 512 * count..] == old(buffer[at + 512 * count..])
    {
      var data;
      ok, data := disk.Read(lba, count);
      forall k | 0 <= k < 512 * count {
        buffer[at + k] := data[k];
      }
      if ok {
        forall l | lba <= l < lba + count
          ensures Chunk(buffer[..], at + 512 * (l - lba)) == disk.sectors[l]
        {
          assert Chunk(buffer[..], at + 512 * (l - lba)) == Chunk(data, 512 * (l - lba));
        }
      }
    }

    /** fatfs_sector_write, outside the FAT. */
    method SectorWrite(lba: nat, data: seq<byte>, count: nat) returns (ok: bool)
      requires Valid() && 512 * count <= |data| && fatBegin + fatSectors <= lba
      modifies disk
      ensures Valid()
      ensures |disk.sectors| == |old(disk.sectors)|
      ensures forall l :: 0 <= l < |disk.sectors| && !(lba <= l < lba + count) ==>
        disk.sectors[l] == old(disk.sectors)[l]
      ensures ok ==> lba + count <= |disk.sectors|
      ensures ok ==> forall l :: lba <= l < lba + count ==> disk.sectors[l] == Chunk(data, 512 * (l - lba))
      ensures disk.reliable && lba + count <= |disk.sectors| ==> ok
    {
      hide Linked;
      ok := disk.Write(lba, data, count);
    }

    // -------------------------------------------------------------------------------------
    // What the invariant says about the buffers
    // -------------------------------------------------------------------------------------

    /** A clean buffer shows what is on the disk. */
    lemma CleanBufferIsCurrent(b: FatBuffer)
      requires Valid() && b in pool && InFat(b.address) && !b.dirty
      ensures b.sector == disk.sectors[b.address]
    {
      assert BufferOk(holder, image, pending, b, b.address, b.dirty, b.sector)
        && DiskOk(image, pending, b.address, disk.sectors[b.address]);
    }
  }
}
