/**
 * Long file names (fat_misc.c): a name is cut into slots of 13 characters, written to the directory
 * from last to first, and collected again in a cache ("FAT: General Overview of On-Disk Format",
 * section "FAT Long Directory Entries").
 */
module LongNames {
  import opened FatWords

  const MAX_ENTRIES: nat := 20            // MAX_LONGFILENAME_ENTRIES
  const ENTRY_CHARS: nat := 13            // MAX_LFN_ENTRY_LENGTH

  /** Where the 13 characters of a slot are */
  const NAME_INDEXES: seq<nat> := [1, 3, 5, 7, 9, 0x0E, 0x10, 0x12, 0x14, 0x16, 0x18, 0x1C, 0x1E]

  type Slot = s: seq<byte> | |s| == 32 witness seq(32, i => 0)
  type Row = s: seq<byte> | |s| == 13 witness seq(13, i => 0)

  function EntriesRequired(filename: seq<byte>): nat {
    if |filename| != 0 then (|filename| + ENTRY_CHARS - 1) / ENTRY_CHARS else 0
  }

  /** x | 0x40 */
  function WithLastFlag(x: nat): nat {
    if x / 64 % 2 == 1 then x else x + 64
  }

  /** Character p of the slots of a name: the name, a zero, and filling */
  function CharAt(filename: seq<byte>, p: nat): byte {
    if p < |filename| then filename[p] else if p == |filename| then 0 else 0xFF
  }

  /** Character i of slot e, if byte b of a slot holds one: the place in NAME_INDEXES, or 13 */
  function CharOf(b: nat): (i: nat)
    ensures i <= 13 && (i < 13 ==> NAME_INDEXES[i] == b)
  {
    if b % 2 == 1 && 1 <= b <= 9 then b / 2
    else if b % 2 == 0 && 0x0E <= b <= 0x18 then b / 2 - 2
    else if b == 0x1C then 11
    else if b == 0x1E then 12
    else 13
  }

  /** The slot that fatfs_filename_to_lfn builds, byte by byte */
  function LfnByte(filename: seq<byte>, entry: nat, sfnChk: byte, b: nat): byte {
    if b == 0 then
      (if EntriesRequired(filename) == entry + 1 then WithLastFlag(entry + 1) else entry + 1) % 0x100
    else if b == 11 then 0x0F
    else if b == 13 then sfnChk
    else if CharOf(b) < 13 then CharAt(filename, entry * ENTRY_CHARS + CharOf(b))
    else if b > 0 && CharOf(b - 1) < 13 && entry * ENTRY_CHARS + CharOf(b - 1) > |filename| then 0xFF
    else 0
  }

  function LfnSlot(filename: seq<byte>, entry: nat, sfnChk: byte): Slot {
    seq(32, b requires 0 <= b < 32 => LfnByte(filename, entry, sfnChk, b))
  }

  /** The layout of a slot in numbers: its number, with 0x40 on top in the last slot of the name and no
      other, attribute 0x0F, type and cluster 0, the checksum at 13, and the characters in the low bytes of
      two-byte units from 1, 14 and 28 on: the name, a zero, and units of 0xFFFF. */
  lemma SlotLayout(filename: seq<byte>, entry: nat, sfnChk: byte)
    requires entry < 20
    ensures var s := LfnSlot(filename, entry, sfnChk);
      && s[0] == entry + 1 + (if (|filename| + 12) / 13 == entry + 1 then 0x40 else 0)
      && s[11] == 0x0F && s[12] == 0 && s[13] == sfnChk && s[26] == 0 && s[27] == 0
    ensures forall i :: 0 <= i < 13 ==> HoldsChar(LfnSlot(filename, entry, sfnChk), filename, entry, i)
  {
    forall i | 0 <= i < 13
      ensures HoldsChar(LfnSlot(filename, entry, sfnChk), filename, entry, i)
    {
      SlotChar(filename, entry, sfnChk, i);
    }
  }

  /** Unit i of slot number entry holds its character of the name, the zero behind the name, or 0xFFFF. */
  predicate HoldsChar(s: Slot, filename: seq<byte>, entry: nat, i: nat)
    requires i < 13
  {
    var b, p := UnitAt(i), 13 * entry + i;
    && s[b] == (if p < |filename| then filename[p] else if p == |filename| then 0 else 0xFF)
    && s[b + 1] == (if p > |filename| then 0xFF else 0)
  }

  /** Five units from byte 1 on, six from 14 on, two from 28 on */
  function UnitAt(i: nat): (b: nat)
    requires i < 13
    ensures b < 31
  {
    if i < 5 then 2 * i + 1 else if i < 11 then 2 * i + 4 else 2 * i + 6
  }

  lemma UnitByte(i: nat)
    requires i < 13
    ensures var b := UnitAt(i);
      && CharOf(b) == i && CharOf(b + 1) == 13
      && b > 0 && b != 11 && b != 13 && b + 1 != 11 && b + 1 != 13
  {
  }

  lemma SlotChar(filename: seq<byte>, entry: nat, sfnChk: byte, i: nat)
    requires i < 13
    ensures HoldsChar(LfnSlot(filename, entry, sfnChk), filename, entry, i)
  {
    hide EntriesRequired, WithLastFlag, CharOf, UnitAt;
    UnitByte(i);
  }

  /** The slot after the first i characters have been copied */
  ghost function Partial(filename: seq<byte>, entry: nat, sfnChk: byte, i: nat, b: nat): byte {
    if b != 0 && CharOf(b) < 13 && CharOf(b) >= i then 0
    else if b != 0 && b != 11 && b != 13 && CharOf(b) >= 13 && CharOf(b - 1) >= i then 0
    else LfnByte(filename, entry, sfnChk, b)
  }

  lemma PartialStep(filename: seq<byte>, entry: nat, sfnChk: byte, i: nat, b: nat)
    requires i < 13
    ensures Partial(filename, entry, sfnChk, i + 1, b)
         == if b == NAME_INDEXES[i] then CharAt(filename, entry * ENTRY_CHARS + i)
            else if b == NAME_INDEXES[i] + 1 && entry * ENTRY_CHARS + i > |filename| then 0xFF
            else Partial(filename, entry, sfnChk, i, b)
  {
    hide CharAt;
    CharOfIndex(i);
    assert NAME_INDEXES[i] != 11 && NAME_INDEXES[i] != 13;
  }

  lemma CharOfIndex(i: nat)
    requires i < 13
    ensures CharOf(NAME_INDEXES[i]) == i && NAME_INDEXES[i] > 0
    ensures CharOf(NAME_INDEXES[i] + 1) == 13
  {
  }

  lemma PartialEnds(filename: seq<byte>, entry: nat, sfnChk: byte, b: nat)
    requires b < 32
    ensures Partial(filename, entry, sfnChk, 13, b) == LfnByte(filename, entry, sfnChk, b)
    ensures Partial(filename, entry, sfnChk, 0, b)
         == if b == 0 || b == 11 || b == 13 then LfnByte(filename, entry, sfnChk, b) else 0
  {
  }

  /** memset and the fixed bytes */
  method StartSlot(filename: seq<byte>, buffer: array<byte>, at: nat, entry: nat, sfnChk: byte)
    requires at + 32 <= buffer.Length
    modifies buffer
    ensures forall b :: 0 <= b < at || at + 32 <= b < buffer.Length ==> buffer[b] == old(buffer[b])
    ensures forall b :: at <= b < at + 32 ==> buffer[b] == Partial(filename, entry, sfnChk, 0, b - at)
  {
    hide Partial;
    var entriesRequired := EntriesRequired(filename);
    forall i | 0 <= i < 32 {
      buffer[at + i] := 0;
    }
    buffer[at] := (if entriesRequired == entry + 1 then WithLastFlag(entry + 1) else entry + 1) % 0x100;
    buffer[at + 11] := 0x0F;
    buffer[at + 13] := sfnChk;
    forall b | at <= b < at + 32
      ensures buffer[b] == Partial(filename, entry, sfnChk, 0, b - at)
    {
      PartialEnds(filename, entry, sfnChk, b - at);
    }
  }

  method CopyChar(filename: seq<byte>, buffer: array<byte>, at: nat, entry: nat, i: nat)
    requires at + 32 <= buffer.Length && i < 13
    modifies buffer
    ensures forall b :: 0 <= b < buffer.Length ==>
      buffer[b] == (if b == at + NAME_INDEXES[i] then CharAt(filename, entry * ENTRY_CHARS + i)
                    else if b == at + NAME_INDEXES[i] + 1 && entry * ENTRY_CHARS + i > |filename| then 0xFF
                    else old(buffer[b]))
  {
    var start := entry * ENTRY_CHARS;
    if start + i < |filename| {
      buffer[at + NAME_INDEXES[i]] := filename[start + i];
    } else if start + i == |filename| {
      buffer[at + NAME_INDEXES[i]] := 0;
    } else {
      buffer[at + NAME_INDEXES[i]] := 0xFF;
      buffer[at + NAME_INDEXES[i] + 1] := 0xFF;
    }
  }

  /** Builds slot number entry of a name in the 32 bytes from at on. */
  method FilenameToLfn(filename: seq<byte>, buffer: array<byte>, at: nat, entry: nat, sfnChk: byte)
    requires at + 32 <= buffer.Length
    modifies buffer
    ensures buffer[..] == old(buffer[..at]) + LfnSlot(filename, entry, sfnChk) + old(buffer[at + 32..])
  {
    hide Partial, LfnByte, CharAt, CharOf;
    StartSlot(filename, buffer, at, entry, sfnChk);
    for i := 0 to ENTRY_CHARS
      invariant forall b :: 0 <= b < at || at + 32 <= b < buffer.Length ==> buffer[b] == old(buffer[b])
      invariant forall b :: at <= b < at + 32 ==> buffer[b] == Partial(filename, entry, sfnChk, i, b - at)
    {
      CopyChar(filename, buffer, at, entry, i);
      forall b | at <= b < at + 32
        ensures buffer[b] == Partial(filename, entry, sfnChk, i + 1, b - at)
      {
        PartialStep(filename, entry, sfnChk, i, b - at);
      }
    }
    forall b | at <= b < at + 32
      ensures buffer[b] == LfnByte(filename, entry, sfnChk, b - at)
    {
      PartialEnds(filename, entry, sfnChk, b - at);
    }
    assert buffer[..] == old(buffer[..at]) + LfnSlot(filename, entry, sfnChk) + old(buffer[at + 32..]);
  }

  // ----- the cache -----

  /** String, Null and no_of_strings */
  datatype Cache = Cache(rows: seq<Row>, terminator: byte, count: nat)

  function Clean(c: byte): byte {
    if c == 0xFF then 0x20 else c
  }

  function RowOf(slot: Slot): Row {
    seq(13, i requires 0 <= i < 13 => Clean(slot[NAME_INDEXES[i]]))
  }

  /** fatfs_lfn_cache_entry */
  function Absorbed(c: Cache, slot: Slot): Cache
    requires |c.rows| == MAX_ENTRIES
  {
    var index := slot[0] % 0x20;
    if index > MAX_ENTRIES || index == 0 then
      c
    else
      Cache(c.rows[index - 1 := RowOf(slot)], c.terminator, if c.count == 0 then index else c.count)
  }

  /** fatfs_lfn_cache_get sets a zero behind the name ... */
  function Terminated(c: Cache): Cache
    requires |c.rows| == MAX_ENTRIES && c.count <= MAX_ENTRIES
  {
    if c.count == MAX_ENTRIES then c.(terminator := 0) else c.(rows := c.rows[c.count := c.rows[c.count][0 := 0]])
  }

  /** Byte q of the table, row after row */
  function TableByte(c: Cache, q: nat): byte
    requires |c.rows| == MAX_ENTRIES && q < 260
  {
    c.rows[q / 13][q % 13]
  }

  /** ... and hands out the memory from String[0][0] on, of which a caller reads up to the first zero. */
  function CharsFrom(c: Cache, p: nat): seq<byte>
    requires |c.rows| == MAX_ENTRIES && p <= 260
    decreases 260 - p
  {
    if p == 260 then (if c.terminator == 0 then [] else [c.terminator])
    else if TableByte(c, p) == 0 then []
    else [TableByte(c, p)] + CharsFrom(c, p + 1)
  }

  function NameIn(c: Cache): seq<byte>
    requires |c.rows| == MAX_ENTRIES && c.count <= MAX_ENTRIES
  {
    CharsFrom(Terminated(c), 0)
  }

  /** The slots of a name from number n - 1 down to 0, in the order they are in the directory */
  function Slots(filename: seq<byte>, n: nat, sfnChk: byte): (s: seq<Slot>)
    ensures |s| == n
  {
    seq(n, i requires 0 <= i < n => LfnSlot(filename, n - 1 - i, sfnChk))
  }

  lemma SlotsHead(filename: seq<byte>, n: nat, sfnChk: byte)
    requires n > 0
    ensures Slots(filename, n, sfnChk)[0] == LfnSlot(filename, n - 1, sfnChk)
    ensures Slots(filename, n, sfnChk)[1..] == Slots(filename, n - 1, sfnChk)
  {
  }

  function AbsorbedAll(c: Cache, slots: seq<Slot>): (r: Cache)
    requires |c.rows| == MAX_ENTRIES
    ensures |r.rows| == MAX_ENTRIES && (c.count <= MAX_ENTRIES ==> r.count <= MAX_ENTRIES)
    decreases |slots|
  {
    if slots == [] then c else AbsorbedAll(Absorbed(c, slots[0]), slots[1..])
  }

  lemma RequiredFits(filename: seq<byte>)
    requires 0 < |filename| <= 260
    ensures 1 <= EntriesRequired(filename) <= MAX_ENTRIES
    ensures ENTRY_CHARS * (EntriesRequired(filename) - 1) < |filename| <= ENTRY_CHARS * EntriesRequired(filename)
  {
  }

  /** The sequence number of a slot survives the flag of the last one. */
  lemma SlotIndex(filename: seq<byte>, entry: nat, sfnChk: byte)
    requires entry < MAX_ENTRIES
    ensures LfnSlot(filename, entry, sfnChk)[0] % 0x20 == entry + 1
  {
  }

  lemma RowOfSlot(filename: seq<byte>, entry: nat, sfnChk: byte, i: nat)
    requires i < 13
    ensures RowOf(LfnSlot(filename, entry, sfnChk))[i] == Clean(CharAt(filename, ENTRY_CHARS * entry + i))
  {
  }

  /** Rows lo..hi hold the characters of the name. */
  ghost predicate Holds(c: Cache, filename: seq<byte>, lo: nat, hi: nat)
    requires |c.rows| == MAX_ENTRIES
  {
    hi <= MAX_ENTRIES
    && forall e, i {:trigger c.rows[e][i]} :: lo <= e < hi && 0 <= i < 13 ==>
        c.rows[e][i] == Clean(CharAt(filename, ENTRY_CHARS * e + i))
  }

  lemma AbsorbOne(c: Cache, filename: seq<byte>, n: nat, hi: nat, sfnChk: byte)
    requires |c.rows| == MAX_ENTRIES && 0 < n <= hi && Holds(c, filename, n, hi)
    requires c.count == (if n == hi then 0 else hi)
    ensures var c' := Absorbed(c, LfnSlot(filename, n - 1, sfnChk));
      |c'.rows| == MAX_ENTRIES && Holds(c', filename, n - 1, hi) && c'.count == hi
  {
    hide LfnSlot, RowOf, CharAt;
    SlotIndex(filename, n - 1, sfnChk);
    var row := RowOf(LfnSlot(filename, n - 1, sfnChk));
    forall i | 0 <= i < 13
      ensures row[i] == Clean(CharAt(filename, ENTRY_CHARS * (n - 1) + i))
    {
      RowOfSlot(filename, n - 1, sfnChk, i);
    }
  }

  lemma {:induction false} SlotsFillCache(c: Cache, filename: seq<byte>, n: nat, hi: nat, sfnChk: byte)
    requires |c.rows| == MAX_ENTRIES && n <= hi && Holds(c, filename, n, hi)
    requires hi > 0 && c.count == (if n == hi then 0 else hi)
    ensures var r := AbsorbedAll(c, Slots(filename, n, sfnChk));
      Holds(r, filename, 0, hi) && (n > 0 || c.count == hi ==> r.count == hi)
    decreases n
  {
    hide Holds, Absorbed, LfnSlot, Slots;
    if n > 0 {
      AbsorbOne(c, filename, n, hi, sfnChk);
      SlotsHead(filename, n, sfnChk);
      SlotsFillCache(Absorbed(c, LfnSlot(filename, n - 1, sfnChk)), filename, n - 1, hi, sfnChk);
    }
  }

  function Cleaned(filename: seq<byte>): (r: seq<byte>)
    ensures |r| == |filename|
  {
    seq(|filename|, i requires 0 <= i < |filename| => Clean(filename[i]))
  }

  predicate NoZero(filename: seq<byte>) {
    forall i :: 0 <= i < |filename| ==> filename[i] != 0
  }

  lemma {:induction false} ReadsName(c: Cache, filename: seq<byte>, p: nat)
    requires |c.rows| == MAX_ENTRIES && p <= |filename| <= 260 && NoZero(filename)
    requires forall q :: p <= q < |filename| ==> TableByte(c, q) == Clean(filename[q])
    requires if |filename| == 260 then c.terminator == 0 else TableByte(c, |filename|) == 0
    ensures CharsFrom(c, p) == Cleaned(filename)[p..]
    decreases |filename| - p
  {
    if p < |filename| {
      ReadsName(c, filename, p + 1);
      assert Cleaned(filename)[p..] == [Clean(filename[p])] + Cleaned(filename)[p + 1..];
    }
  }

  /**
   * Whatever was in the table, feeding the slots of a name of 1 to 260 characters into an empty
   * cache gives the name back, except that 0xFF comes back as a space.
   */
  lemma NameComesBack(c: Cache, filename: seq<byte>, sfnChk: byte)
    requires |c.rows| == MAX_ENTRIES && c.count == 0
    requires 0 < |filename| <= 260 && NoZero(filename)
    ensures var r := AbsorbedAll(c, Slots(filename, EntriesRequired(filename), sfnChk));
      r.count == EntriesRequired(filename) && NameIn(r) == Cleaned(filename)
  {
    var k := EntriesRequired(filename);
    RequiredFits(filename);
    SlotsFillCache(c, filename, k, k, sfnChk);
    var r := Terminated(AbsorbedAll(c, Slots(filename, k, sfnChk)));
    EndOfName(AbsorbedAll(c, Slots(filename, k, sfnChk)), filename);
    ReadsName(r, filename, 0);
  }

  lemma EndOfName(r: Cache, filename: seq<byte>)
    requires |r.rows| == MAX_ENTRIES && 0 < |filename| <= 260
    requires r.count == EntriesRequired(filename) && Holds(r, filename, 0, r.count)
    ensures var t := Terminated(r);
      && (forall q :: 0 <= q < |filename| ==> TableByte(t, q) == Clean(filename[q]))
      && (if |filename| == 260 then t.terminator == 0 else TableByte(t, |filename|) == 0)
  {
    RequiredFits(filename);
    var t := Terminated(r);
    forall q | 0 <= q < |filename|
      ensures TableByte(t, q) == Clean(filename[q])
    {
      assert ENTRY_CHARS * (q / 13) + q % 13 == q;
    }
    if |filename| < 260 && |filename| % 13 != 0 {
      assert ENTRY_CHARS * (|filename| / 13) + |filename| % 13 == |filename|;
    }
  }

  /** The name comes back with spaces for 0xFF, so exactly precisely for the names without 0xFF. */
  lemma RoundTripExact(c: Cache, filename: seq<byte>, sfnChk: byte)
    requires |c.rows| == MAX_ENTRIES && c.count == 0
    requires 0 < |filename| <= 260 && NoZero(filename)
    ensures NameIn(AbsorbedAll(c, Slots(filename, EntriesRequired(filename), sfnChk))) == filename <==>
      0xFF !in filename
    ensures var name := NameIn(AbsorbedAll(c, Slots(filename, EntriesRequired(filename), sfnChk)));
      && |name| == |filename|
      && forall i :: 0 <= i < |name| ==> name[i] == if filename[i] == 0xFF then 0x20 else filename[i]
  {
    NameComesBack(c, filename, sfnChk);
    if 0xFF !in filename {
      assert Cleaned(filename) == filename;
    } else {
      var i :| 0 <= i < |filename| && filename[i] == 0xFF;
      assert Cleaned(filename)[i] == 0x20;
    }
  }

  // ----- the cache as the library keeps it -----

  class LfnCache {
    const table: array2<byte>               // String
    var terminator: byte                    // Null
    var noOfStrings: byte

    constructor ()
      ensures fresh(table) && Shaped() && noOfStrings == 0
    {
      table := new byte[20, 13];
      noOfStrings, terminator := 0, 0;
    }

    predicate Shaped()
      reads this
    {
      table.Length0 == 20 && table.Length1 == 13 && noOfStrings <= 20
    }

    function RowAt(e: nat): Row
      requires e < 20 && table.Length0 == 20 && table.Length1 == 13
      reads table
    {
      seq(13, i requires 0 <= i < 13 reads table => table[e, i])
    }

    function Value(): Cache
      requires Shaped()
      reads this, table
    {
      Cache(seq(20, e requires 0 <= e < 20 reads table => RowAt(e)), terminator, noOfStrings)
    }

    method Init(wipeTable: bool)
      requires Shaped()
      modifies this, table
      ensures Shaped() && noOfStrings == 0
      ensures !wipeTable ==> Value() == old(Value()).(count := 0)
      ensures wipeTable ==> terminator == old(terminator)
      ensures wipeTable ==> forall e, i | 0 <= e < 20 && 0 <= i < 13 :: Value().rows[e][i] == 0
    {
      noOfStrings := 0;
      if wipeTable {
        forall e, i | 0 <= e < 20 && 0 <= i < 13 {
          table[e, i] := 0;
        }
      }
      if !wipeTable {
        forall e | 0 <= e < 20
          ensures RowAt(e) == old(RowAt(e))
        {
        }
        assert Value().rows == old(Value().rows);
      }
    }

    method Entry(entryBuffer: Slot)
      requires Shaped()
      modifies this, table
      ensures Shaped() && Value() == Absorbed(old(Value()), entryBuffer)
    {
      var lfnIndex := entryBuffer[0] % 0x20;
      if lfnIndex > MAX_ENTRIES || lfnIndex == 0 {
        return;
      }
      if noOfStrings == 0 {
        noOfStrings := lfnIndex;
      }
      var row := lfnIndex - 1;
      forall i | 0 <= i < 13 {
        table[row, i] := entryBuffer[NAME_INDEXES[i]];
      }
      forall i | 0 <= i < 13 {
        table[row, i] := if table[row, i] == 0xFF then 0x20 else table[row, i];
      }
      assert RowAt(row) == RowOf(entryBuffer);
      forall e | 0 <= e < 20 && e != row
        ensures RowAt(e) == old(RowAt(e))
      {
      }
      assert Value().rows == Absorbed(old(Value()), entryBuffer).rows;
    }

    method Get() returns (name: seq<byte>)
      requires Shaped()
      modifies this, table
      ensures Shaped() && name == NameIn(old(Value()))
      ensures Value() == Terminated(old(Value()))
    {
      if noOfStrings == MAX_ENTRIES {
        terminator := 0;
      } else {
        table[noOfStrings, 0] := 0;
      }
      forall e | 0 <= e < 20
        ensures RowAt(e) == if e == noOfStrings then old(RowAt(e))[0 := 0] else old(RowAt(e))
      {
      }
      assert Value().rows == Terminated(old(Value())).rows;
      name := CharsFrom(Value(), 0);
    }
  }

  /** A name written slot by slot, last to first, and read back through the cache. */
  method WriteAndRead(filename: seq<byte>, sfnChk: byte, cache: LfnCache) returns (name: seq<byte>)
    requires 0 < |filename| <= 260 && NoZero(filename) && cache.Shaped() && cache.noOfStrings == 0
    modifies cache, cache.table
    ensures name == Cleaned(filename)
  {
    hide Slots, LfnSlot, Absorbed, NameIn, Cleaned, NoZero, EntriesRequired;
    var entry: nat := EntriesRequired(filename);
    ghost var slots := Slots(filename, entry, sfnChk);
    RequiredFits(filename);
    NameComesBack(cache.Value(), filename, sfnChk);
    while entry > 0
      invariant entry <= EntriesRequired(filename) && cache.Shaped()
      invariant slots == Slots(filename, entry, sfnChk)
      invariant AbsorbedAll(cache.Value(), slots)
             == AbsorbedAll(old(cache.Value()), Slots(filename, EntriesRequired(filename), sfnChk))
    {
      SlotsHead(filename, entry, sfnChk);
      entry := entry - 1;
      var buffer := new byte[32];
      FilenameToLfn(filename, buffer, 0, entry, sfnChk);
      assert buffer[..] == slots[0];
      slots := slots[1..];
      cache.Entry(buffer[..]);
    }
    name := cache.Get();
  }
}
