/** Bytes, sectors and the little-endian words of a FAT volume
    ("FAT: General Overview of On-Disk Format", section "FAT Data Structure"). */
module FatWords {

  type byte = b: int | 0 <= b < 0x100
  type uint32 = w: int | 0 <= w < 0x1_0000_0000

  const SECTOR_SIZE: nat := 512

  /** FAT32_LAST_CLUSTER and FAT32_INVALID_CLUSTER share this value. */
  const LAST_CLUSTER: uint32 := 0xFFFF_FFFF
  const INVALID_ADDRESS: uint32 := 0xFFFF_FFFF

  type Sector = s: seq<byte> | |s| == SECTOR_SIZE witness seq(SECTOR_SIZE, _ => 0)

  /** The sector that starts at byte `at` of a buffer. */
  function Chunk(data: seq<byte>, at: nat): Sector
    requires at + 512 <= |data|
  {
    data[at..at + 512]
  }

  datatype FatType = Fat16 | Fat32

  /** GET_16BIT_WORD */
  function Word16(s: seq<byte>, pos: nat): (w: nat)
    requires pos + 2 <= |s|
  {
    s[pos + 1] as int * 0x100 + s[pos] as int
  }

  /** GET_32BIT_WORD */
  function Word32(s: seq<byte>, pos: nat): (w: nat)
    requires pos + 4 <= |s|
  {
    s[pos + 3] as int * 0x100_0000 + s[pos + 2] as int * 0x1_0000 + s[pos + 1] as int * 0x100 + s[pos] as int
  }

  /** Bytes per FAT entry. */
  function EntryBytes(t: FatType): nat
  {
    if t.Fat16? then 2 else 4
  }

  /** Entries in one sector of the FAT. */
  function PerSector(t: FatType): nat
  {
    if t.Fat16? then 256 else 128
  }

  /** Which FAT sector holds the entry of a cluster, and where in it. */
  function SectorIndex(t: FatType, cluster: nat): nat
  {
    if t.Fat16? then cluster / 256 else cluster / 128
  }

  function SectorPlace(t: FatType, cluster: nat): (k: nat)
    ensures k < PerSector(t)
  {
    if t.Fat16? then cluster % 256 else cluster % 128
  }

  /** Number of entries in `sectors` FAT sectors. */
  function EntriesIn(t: FatType, sectors: nat): nat
  {
    if t.Fat16? then sectors * 256 else sectors * 128
  }

  /** Entry number `k` of one FAT sector. */
  function SectorEntry(t: FatType, s: Sector, k: nat): (w: uint32)
    requires k < PerSector(t)
  {
    if t.Fat16? then Word16(s, 2 * k) else Word32(s, 4 * k)
  }

  /** The value an entry holds after `v` was stored in it: FAT16 keeps the low 16 bits. */
  function Stored(t: FatType, v: uint32): uint32
  {
    if t.Fat16? then v % 0x1_0000 else v
  }

  lemma StoredNumber(t: FatType, v: uint32)
    ensures Stored(t, v) == if t.Fat16? then v % 0x1_0000 else v
  {
  }

  /** The FAT as one plain array of entries, from the sectors that hold it. */
  function Entries(t: FatType, image: seq<Sector>): (f: seq<uint32>)
    ensures |f| == EntriesIn(t, |image|)
  {
    seq(EntriesIn(t, |image|), c requires 0 <= c < EntriesIn(t, |image|) =>
      SectorEntry(t, image[SectorIndex(t, c)], SectorPlace(t, c)))
  }

  lemma EntryAt(t: FatType, image: seq<Sector>, c: nat)
    requires c < EntriesIn(t, |image|)
    ensures SectorIndex(t, c) < |image|
    ensures Entries(t, image)[c] == SectorEntry(t, image[SectorIndex(t, c)], SectorPlace(t, c))
  {
  }

  /** Byte number k of a run of sectors. */
  function ByteOf(image: seq<Sector>, k: nat): byte
    requires k < 512 * |image|
  {
    image[k / 512][k % 512]
  }

  /** In the bytes of the FAT, entry c is the little-endian word of 2 or 4 bytes at 2c or 4c. */
  lemma EntryInBytes(t: FatType, image: seq<Sector>, c: nat)
    requires if t.Fat16? then 2 * c + 2 <= 512 * |image| else 4 * c + 4 <= 512 * |image|
    ensures c < |Entries(t, image)|
    ensures t.Fat16? ==> Entries(t, image)[c] == ByteOf(image, 2 * c) + 0x100 * ByteOf(image, 2 * c + 1)
    ensures t.Fat32? ==>
      Entries(t, image)[c] == ByteOf(image, 4 * c) + 0x100 * ByteOf(image, 4 * c + 1)
                            + 0x1_0000 * ByteOf(image, 4 * c + 2) + 0x100_0000 * ByteOf(image, 4 * c + 3)
  {
    EntryAt(t, image, c);
    hide Entries;
    if t.Fat16? {
      BytePlace16(c, 0);
      BytePlace16(c, 1);
    } else {
      BytePlace32(c, 0);
      BytePlace32(c, 1);
      BytePlace32(c, 2);
      BytePlace32(c, 3);
    }
  }

  lemma BytePlace16(c: nat, i: nat)
    requires i < 2
    ensures (2 * c + i) / 512 == c / 256 && (2 * c + i) % 512 == 2 * (c % 256) + i
  {
  }

  lemma BytePlace32(c: nat, i: nat)
    requires i < 4
    ensures (4 * c + i) / 512 == c / 128 && (4 * c + i) % 512 == 4 * (c % 128) + i
  {
  }

  /** Storing the bytes of a word and reading them back gives the word. */
  lemma WordBytes(v: uint32)
    ensures v % 0x100 + (v / 0x100) % 0x100 * 0x100
          + (v / 0x1_0000) % 0x100 * 0x1_0000 + (v / 0x100_0000) % 0x100 * 0x100_0000 == v
    ensures v % 0x100 + (v / 0x100) % 0x100 * 0x100 == v % 0x1_0000
  {
  }

  /** One FAT sector differs from another in exactly entry `k`, which now holds `v`. */
  ghost predicate EntryWritten(t: FatType, s: Sector, s': Sector, k: nat, v: uint32)
    requires k < PerSector(t)
  {
    && SectorEntry(t, s', k) == Stored(t, v)
    && forall j :: 0 <= j < PerSector(t) && j != k ==> SectorEntry(t, s', j) == SectorEntry(t, s, j)
  }

  /** Writing one entry of one sector is a point update of the plain FAT array. */
  lemma EntriesUpdate(t: FatType, image: seq<Sector>, i: nat, s': Sector, c: nat, v: uint32)
    requires i < |image| && c < EntriesIn(t, |image|)
    requires SectorIndex(t, c) == i
    requires EntryWritten(t, image[i], s', SectorPlace(t, c), v)
    ensures Entries(t, image[i := s']) == Entries(t, image)[c := Stored(t, v)]
  {
    var f, f' := Entries(t, image), Entries(t, image[i := s']);
    forall d | 0 <= d < |f|
      ensures f'[d] == f[c := Stored(t, v)][d]
    {
      EntryAt(t, image, d);
      EntryAt(t, image[i := s'], d);
      if SectorIndex(t, d) == i && d != c {
        assert SectorPlace(t, d) != SectorPlace(t, c);
      }
    }
  }

  /** SET_16BIT_WORD */
  function Put16(s: Sector, pos: nat, v: uint32): Sector
    requires pos + 2 <= SECTOR_SIZE
  {
    s[pos := v % 0x100][pos + 1 := (v / 0x100) % 0x100]
  }

  /** SET_32BIT_WORD */
  function Put32(s: Sector, pos: nat, v: uint32): Sector
    requires pos + 4 <= SECTOR_SIZE
  {
    s[pos := v % 0x100][pos + 1 := (v / 0x100) % 0x100]
      [pos + 2 := (v / 0x1_0000) % 0x100][pos + 3 := (v / 0x100_0000) % 0x100]
  }

  lemma PutThenGet(s: Sector, pos: nat, v: uint32)
    requires pos + 4 <= SECTOR_SIZE
    ensures Word32(Put32(s, pos, v), pos) == v
  {
    WordBytes(v);
  }

  /** Storing one entry changes that entry of the sector and no other. */
  lemma PutEntry(t: FatType, s: Sector, k: nat, v: uint32)
    requires k < PerSector(t)
    ensures t.Fat16? ==> EntryWritten(t, s, Put16(s, 2 * k, v), k, v)
    ensures t.Fat32? ==> EntryWritten(t, s, Put32(s, 4 * k, v), k, v)
  {
    WordBytes(v);
  }

  /** The word the FAT operations read for `cluster` out of the FAT sector that holds its entry. */
  function EntryWord(t: FatType, s: Sector, cluster: nat): (w: uint32)
    ensures w == SectorEntry(t, s, SectorPlace(t, cluster))
    ensures t.Fat16? ==> w <= 0xFFFF
  {
    var sectorOffset := SectorIndex(t, cluster);
    if t.Fat16? then
      var position := (cluster - sectorOffset * 256) * 2;
      Word16(s, position)
    else
      var position := (cluster - sectorOffset * 128) * 4;
      Word32(s, position)
  }

  /** The FAT sector after fatfs_fat_set_cluster stored `v` for `cluster` in it. */
  function WithEntryWord(t: FatType, s: Sector, cluster: nat, v: uint32): (s': Sector)
    ensures EntryWritten(t, s, s', SectorPlace(t, cluster), v)
  {
    var sectorOffset := SectorIndex(t, cluster);
    PutEntry(t, s, SectorPlace(t, cluster), v);
    if t.Fat16? then
      var position := (cluster - sectorOffset * 256) * 2;
      Put16(s, position, v)
    else
      var position := (cluster - sectorOffset * 128) * 4;
      Put32(s, position, v)
  }
}
