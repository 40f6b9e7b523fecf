/**
 * Directory entries ("FAT: General Overview of On-Disk Format", sections "FAT Directory Structure"
 * and "FAT Long Directory Entries"): which slots of a directory are taken, what the search for free
 * slots knows, and what writing a run of slots changes.
 */
module DirEntries {
  import opened FatWords
  import opened LongNames

  const BLANK: byte := 0x00               // FILE_HEADER_BLANK
  const DELETED: byte := 0xE5             // FILE_HEADER_DELETED
  const PER_SECTOR: nat := 16             // FAT_DIR_ENTRIES_PER_SECTOR

  /** fatfs_entry_lfn_text: the four low attribute bits are set. */
  predicate LfnText(e: Slot) {
    e[11] % 16 == 15
  }

  /** A short entry in use */
  predicate Live(e: Slot) {
    !LfnText(e) && e[0] != DELETED && e[0] != BLANK
  }

  function SlotIn(s: Sector, item: nat): Slot
    requires item < 16
  {
    s[32 * item..32 * item + 32]
  }

  /** Entry number j of a directory */
  function EntryOf(data: seq<Sector>, j: nat): Slot
    requires j < 16 * |data|
  {
    SlotIn(data[j / 16], j % 16)
  }

  /** Entry j is a live short entry, or one of the long-name slots right before one. */
  ghost predicate Taken(data: seq<Sector>, j: nat)
    requires j < 16 * |data|
  {
    exists p :: j <= p < 16 * |data| && TakenBy(data, j, p)
  }

  ghost predicate TakenBy(data: seq<Sector>, j: nat, p: nat)
    requires j <= p < 16 * |data|
  {
    Live(EntryOf(data, p)) && forall h :: j <= h < p ==> LfnText(EntryOf(data, h))
  }

  ghost predicate FreeRun(data: seq<Sector>, start: nat, n: nat) {
    forall j :: start <= j < start + n && j < 16 * |data| ==> !Taken(data, j)
  }

  // ----- searching -----

  /** A run starts at the beginning of the directory, or right behind a live entry. */
  ghost predicate RunStarts(data: seq<Sector>, start: nat) {
    start <= 16 * |data| && (start == 0 || Live(EntryOf(data, start - 1)))
  }

  /** Before entry idx there are possible entries that are not live, and they start a run. */
  ghost predicate Scanned(data: seq<Sector>, idx: nat, possible: nat) {
    && possible <= idx <= 16 * |data|
    && RunStarts(data, idx - possible)
    && forall j :: idx - possible <= j < idx ==> !Live(EntryOf(data, j))
  }

  /** How many entries right before entry idx are not live: how far a run that ends there reaches back. */
  function Possible(data: seq<Sector>, idx: nat): nat
    requires idx <= 16 * |data|
  {
    if idx == 0 || Live(EntryOf(data, idx - 1)) then 0 else Possible(data, idx - 1) + 1
  }

  /** A search for n entries ends at a deleted or blank entry with enough entries before it. */
  predicate EndsRun(data: seq<Sector>, idx: nat, n: nat)
    requires idx < 16 * |data|
  {
    && !Live(EntryOf(data, idx)) && !LfnText(EntryOf(data, idx))
    && n <= Possible(data, idx) + 1
  }

  /** The directory has room for n entries in a row. */
  ghost predicate HasRun(data: seq<Sector>, n: nat) {
    exists idx: nat :: idx < 16 * |data| && EndsRun(data, idx, n)
  }

  /** Entry j holds nothing that is in use, by its bytes. */
  predicate Unused(data: seq<Sector>, j: nat)
    requires j < 16 * |data|
  {
    EntryOf(data, j)[11] % 16 == 15 || EntryOf(data, j)[0] == 0x00 || EntryOf(data, j)[0] == 0xE5
  }

  lemma {:induction false} PossibleMeaning(data: seq<Sector>, idx: nat, m: nat)
    requires idx <= 16 * |data| && m <= idx
    ensures m <= Possible(data, idx) <==> forall j: nat :: idx - m <= j < idx ==> Unused(data, j)
    decreases m
  {
    hide EntryOf;
    if m > 0 {
      assert Unused(data, idx - 1) <==> !Live(EntryOf(data, idx - 1));
      PossibleMeaning(data, idx - 1, m - 1);
    }
  }

  lemma {:induction false} PossibleFits(data: seq<Sector>, idx: nat)
    requires idx <= 16 * |data|
    ensures Possible(data, idx) <= idx
  {
    if idx > 0 {
      PossibleFits(data, idx - 1);
    }
  }

  /** In numbers: n entries in a row from s on that are long-name slots, blank or deleted, the last one
      blank or deleted. */
  ghost predicate RunAt(data: seq<Sector>, s: nat, n: nat) {
    && 0 < n && s + n <= 16 * |data|
    && (forall j: nat :: s <= j < s + n ==> Unused(data, j))
    && EntryOf(data, s + n - 1)[11] % 16 != 15
  }

  lemma RunMeaning(data: seq<Sector>, n: nat)
    requires 0 < n
    ensures HasRun(data, n) <==> exists s: nat :: RunAt(data, s, n)
  {
    hide EntryOf, Possible;
    if HasRun(data, n) {
      var idx: nat :| idx < 16 * |data| && EndsRun(data, idx, n);
      PossibleFits(data, idx);
      PossibleMeaning(data, idx, n - 1);
      assert RunAt(data, idx - (n - 1), n);
    }
    if s: nat :| RunAt(data, s, n) {
      PossibleMeaning(data, s + n - 1, n - 1);
      assert Unused(data, s + n - 1);
      assert EndsRun(data, s + n - 1, n);
    }
  }

  /** There is room for n entries in the directory, or in one more cluster and what is free before it. */
  ghost predicate HasRoom(data: seq<Sector>, spare: bool, spc: nat, n: nat) {
    HasRun(data, n) || (spare && n <= Possible(data, 16 * |data|) + 16 * spc)
  }

  lemma {:induction false} ScannedIs(data: seq<Sector>, idx: nat, possible: nat)
    requires Scanned(data, idx, possible)
    ensures possible == Possible(data, idx)
    decreases idx
  {
    if possible > 0 {
      ScannedIs(data, idx - 1, possible - 1);
    }
  }

  /** The search for n entries has come to entry idx and found none. */
  ghost predicate Searched(data: seq<Sector>, idx: nat, possible: nat, n: nat) {
    && Scanned(data, idx, possible)
    && forall i: nat :: i < idx ==> !EndsRun(data, i, n)
  }

  lemma SearchStarts(data: seq<Sector>, n: nat)
    ensures Searched(data, 0, 0, n)
  {
  }

  lemma SearchEnds(data: seq<Sector>, possible: nat, n: nat)
    requires Searched(data, 16 * |data|, possible, n)
    ensures !HasRun(data, n) && possible == Possible(data, 16 * |data|)
    ensures Scanned(data, 16 * |data|, possible)
  {
    ScannedIs(data, 16 * |data|, possible);
  }

  lemma SearchStep(data: seq<Sector>, idx: nat, possible: nat, n: nat)
    requires Searched(data, idx, possible, n) && idx < 16 * |data|
    ensures Live(EntryOf(data, idx)) ==> Searched(data, idx + 1, 0, n)
    ensures !Live(EntryOf(data, idx)) && (LfnText(EntryOf(data, idx)) || possible + 1 < n) ==>
      Searched(data, idx + 1, possible + 1, n)
    ensures !Live(EntryOf(data, idx)) && !LfnText(EntryOf(data, idx)) && n <= possible + 1 ==> HasRun(data, n)
  {
    hide RunStarts, LfnText, Live;
    ScannedIs(data, idx, possible);
    ScanStep(data, idx, possible);
    LiveIsNoText(EntryOf(data, idx));
    assert n <= possible + 1 && !Live(EntryOf(data, idx)) && !LfnText(EntryOf(data, idx)) ==> EndsRun(data, idx, n);
  }

  lemma LiveIsNoText(e: Slot)
    ensures Live(e) ==> !LfnText(e)
  {
  }

  lemma ScanStep(data: seq<Sector>, idx: nat, possible: nat)
    requires Scanned(data, idx, possible) && idx < 16 * |data|
    ensures Live(EntryOf(data, idx)) ==> Scanned(data, idx + 1, 0)
    ensures !Live(EntryOf(data, idx)) ==> Scanned(data, idx + 1, possible + 1)
  {
  }

  /** A run that ends in a deleted or blank entry holds nothing of a live entry behind it. */
  lemma RunIsFree(data: seq<Sector>, idx: nat, possible: nat, n: nat)
    requires Scanned(data, idx, possible) && idx < 16 * |data|
    requires !Live(EntryOf(data, idx)) && !LfnText(EntryOf(data, idx))
    requires n <= possible + 1
    ensures FreeRun(data, idx - possible, n)
  {
    var start := idx - possible;
    forall j | start <= j < start + n
      ensures !Taken(data, j)
    {
      forall p | j <= p < 16 * |data|
        ensures !TakenBy(data, j, p)
      {
        if p > idx {
          assert !LfnText(EntryOf(data, idx));
        }
      }
    }
  }

  function ZeroSector(): Sector {
    seq(512, _ => 0)
  }

  function Zeroed(n: nat): (z: seq<Sector>)
    ensures |z| == n
  {
    seq(n, _ => ZeroSector())
  }

  lemma GrownEntries(data: seq<Sector>, n: nat, j: nat)
    requires j < 16 * (|data| + n)
    ensures j < 16 * |data| ==> EntryOf(data + Zeroed(n), j) == EntryOf(data, j)
    ensures j >= 16 * |data| ==> !Live(EntryOf(data + Zeroed(n), j))
  {
    if j >= 16 * |data| {
      assert (data + Zeroed(n))[j / 16] == ZeroSector();
    }
  }

  /** A run that reaches the end of the directory goes on through new, zeroed sectors. */
  lemma GrownRunIsFree(data: seq<Sector>, possible: nat, n: nat, count: nat)
    requires Scanned(data, 16 * |data|, possible)
    ensures FreeRun(data + Zeroed(n), 16 * |data| - possible, count)
    ensures RunStarts(data + Zeroed(n), 16 * |data| - possible)
  {
    var start, data' := 16 * |data| - possible, data + Zeroed(n);
    forall p | start <= p < 16 * |data'|
      ensures !Live(EntryOf(data', p))
    {
      GrownEntries(data, n, p);
    }
    if start > 0 {
      GrownEntries(data, n, start - 1);
    }
  }

  // ----- writing a run -----

  /** A sector with the part of the run es that falls into it */
  function PlacedSector(sector: Sector, s: nat, start: nat, es: seq<Slot>): (r: Sector) {
    seq(512, b requires 0 <= b < 512 =>
      if start <= 16 * s + b / 32 < start + |es| then es[16 * s + b / 32 - start][b % 32] else sector[b])
  }

  function Placed(data: seq<Sector>, start: nat, es: seq<Slot>): (r: seq<Sector>)
    ensures |r| == |data|
  {
    seq(|data|, s requires 0 <= s < |data| => PlacedSector(data[s], s, start, es))
  }

  /** Exactly the run is written. */
  lemma PlacedEntry(data: seq<Sector>, start: nat, es: seq<Slot>, j: nat)
    requires j < 16 * |data|
    ensures EntryOf(Placed(data, start, es), j) == if start <= j < start + |es| then es[j - start] else EntryOf(data, j)
  {
    var e := if start <= j < start + |es| then es[j - start] else EntryOf(data, j);
    var data' := Placed(data, start, es);
    forall b | 0 <= b < 32
      ensures EntryOf(data', j)[b] == e[b]
    {
      PlacedByte(data[j / 16], j / 16, start, es, j % 16, b);
    }
  }

  lemma PlacedByte(sector: Sector, s: nat, start: nat, es: seq<Slot>, item: nat, b: nat)
    requires item < 16 && b < 32
    ensures SlotIn(PlacedSector(sector, s, start, es), item)[b]
         == if start <= 16 * s + item < start + |es| then es[16 * s + item - start][b] else SlotIn(sector, item)[b]
  {
    var at := 32 * item + b;
    assert at / 32 == item && at % 32 == b;
  }

  /** What was taken stays, slot for slot, if the run is free. */
  lemma TakenStays(data: seq<Sector>, start: nat, es: seq<Slot>, j: nat)
    requires FreeRun(data, start, |es|) && j < 16 * |data| && Taken(data, j)
    ensures EntryOf(Placed(data, start, es), j) == EntryOf(data, j) && Taken(Placed(data, start, es), j)
  {
    var data' := Placed(data, start, es);
    var p :| j <= p < 16 * |data| && TakenBy(data, j, p);
    forall h | j <= h <= p
      ensures EntryOf(data', h) == EntryOf(data, h)
    {
      assert TakenBy(data, h, p);
      assert Taken(data, h);
      PlacedEntry(data, start, es, h);
    }
    assert TakenBy(data', j, p);
  }

  // ----- reading names back -----

  /** fatfs_entry_lfn_invalid: blank, deleted, a volume label, hidden or a system file */
  predicate LfnInvalid(e: Slot) {
    e[0] == BLANK || e[0] == DELETED || e[11] == 0x08 || e[11] / 2 % 4 != 0
  }

  /** What a reader of the directory makes of one entry: long-name slots are collected, a short entry
      with a name has it terminated and read, and every entry but a slot ends the collection. */
  function AfterEntry(b: Cache, e: Slot): (r: Cache)
    requires |b.rows| == MAX_ENTRIES && b.count <= MAX_ENTRIES
    ensures |r.rows| == MAX_ENTRIES && r.count <= MAX_ENTRIES
    ensures !LfnText(e) ==> r.count == 0
  {
    if LfnText(e) then Absorbed(b, e)
    else if !LfnInvalid(e) && b.count > 0 then Terminated(b).(count := 0)
    else b.(count := 0)
  }

  // ----- looking a name up -----

  /** What the reader compares names with: fatfs_compare_names is a parameter here. */
  type NameTest = (seq<byte>, seq<byte>) -> bool

  /** A C string: the bytes before the first zero. */
  function CString(s: seq<byte>): seq<byte> {
    if s == [] || s[0] == 0 then [] else [s[0]] + CString(s[1..])
  }

  /** The text of a short entry: eight characters, a dot if there is an extension, the extension. */
  function ShortText(e: Slot): seq<byte> {
    var extension := e[8] != 0x20 || e[9] != 0x20 || e[10] != 0x20;
    CString(e[..8] + [if extension && e[0] != 0x2E then 0x2E else 0x20] + e[8..11])
  }

  /** fatfs_get_file_entry takes entry e, with long-name cache b, for the one that is wanted. */
  predicate Matches(b: Cache, e: Slot, wanted: seq<byte>, same: NameTest)
    requires |b.rows| == MAX_ENTRIES && b.count <= MAX_ENTRIES
  {
    && !LfnText(e) && !LfnInvalid(e)
    && same(if b.count > 0 then NameIn(b) else ShortText(e), wanted)
  }

  /** In numbers: slots of long names, blank and deleted entries, volume labels, hidden and system files
      are never the one that is wanted. */
  lemma MatchMeaning(b: Cache, e: Slot, wanted: seq<byte>, same: NameTest)
    requires |b.rows| == MAX_ENTRIES && b.count <= MAX_ENTRIES
    ensures Matches(b, e, wanted, same) <==>
      && e[0] != 0x00 && e[0] != 0xE5 && e[11] != 0x08
      && e[11] / 2 % 2 == 0 && e[11] / 4 % 2 == 0
      && same(if b.count > 0 then NameIn(b) else ShortText(e), wanted)
  {
    hide NameIn, ShortText;
    KindMeaning(e[11]);
  }

  lemma KindMeaning(a: byte)
    ensures a % 16 == 15 || a / 2 % 4 != 0 <==> a / 2 % 2 != 0 || a / 4 % 2 != 0
  {
    var h := a / 2;
    assert a / 4 == h / 2;
    LowPair(h);
    assert a % 16 == 15 ==> h % 2 == 1;
  }

  lemma LowPair(h: nat)
    ensures h % 4 != 0 <==> h % 2 != 0 || h / 2 % 2 != 0
  {
  }

  /** The entry of README.TXT has the text "README  .TXT", one without an extension no dot. */
  lemma ShortTextOf(e: Slot, f: Slot)
    requires e[..11] == [0x52, 0x45, 0x41, 0x44, 0x4D, 0x45, 0x20, 0x20, 0x54, 0x58, 0x54]
    requires f[..11] == [0x52, 0x45, 0x41, 0x44, 0x4D, 0x45, 0x20, 0x20, 0x20, 0x20, 0x20]
    ensures ShortText(e) == [0x52, 0x45, 0x41, 0x44, 0x4D, 0x45, 0x20, 0x20, 0x2E, 0x54, 0x58, 0x54]
    ensures ShortText(f) == [0x52, 0x45, 0x41, 0x44, 0x4D, 0x45, 0x20, 0x20, 0x20, 0x20, 0x20, 0x20]
  {
    assert e[8] == e[..11][8] && e[9] == e[..11][9] && e[10] == e[..11][10] && e[0] == e[..11][0];
    assert f[8] == f[..11][8] && f[9] == f[..11][9] && f[10] == f[..11][10];
    assert e[..8] == e[..11][..8] && f[..8] == f[..11][..8] && e[8..11] == e[..11][8..] && f[8..11] == f[..11][8..];
    WholeString(e[..8] + [0x2E] + e[8..11]);
    WholeString(f[..8] + [0x20] + f[8..11]);
  }

  lemma {:induction false} WholeString(s: seq<byte>)
    requires NoZero(s)
    ensures CString(s) == s
  {
    if s != [] {
      WholeString(s[1..]);
    }
  }

  predicate MatchesAt(c: Cache, data: seq<Sector>, j: nat, wanted: seq<byte>, same: NameTest)
    requires j < 16 * |data| && |c.rows| == MAX_ENTRIES && c.count <= MAX_ENTRIES
  {
    Matches(CacheAt(c, data, j), EntryOf(data, j), wanted, same)
  }

  /** None of the entries before j is the one that is wanted. */
  ghost predicate NoneBefore(c: Cache, data: seq<Sector>, j: nat, wanted: seq<byte>, same: NameTest)
    requires j <= 16 * |data| && |c.rows| == MAX_ENTRIES && c.count <= MAX_ENTRIES
  {
    forall i: nat :: i < j ==> !MatchesAt(c, data, i, wanted, same)
  }

  /** Whatever cache a reader starts with, no entry is the one that is wanted. */
  ghost predicate Absent(data: seq<Sector>, wanted: seq<byte>, same: NameTest) {
    forall c: Cache {:trigger NoneBefore(c, data, 16 * |data|, wanted, same)} ::
      |c.rows| == MAX_ENTRIES && c.count == 0 ==> NoneBefore(c, data, 16 * |data|, wanted, same)
  }

  lemma NoneBeforeNext(c: Cache, data: seq<Sector>, j: nat, wanted: seq<byte>, same: NameTest)
    requires j < 16 * |data| && |c.rows| == MAX_ENTRIES && c.count <= MAX_ENTRIES
    requires NoneBefore(c, data, j, wanted, same) && !MatchesAt(c, data, j, wanted, same)
    ensures NoneBefore(c, data, j + 1, wanted, same)
  {
  }

  /** Nothing is found before the first entry in which two directories differ, or in slots of a long name. */
  lemma NoneInSlots(c: Cache, data: seq<Sector>, data': seq<Sector>, start: nat, j: nat,
                    wanted: seq<byte>, same: NameTest)
    requires |c.rows| == MAX_ENTRIES && c.count == 0 && Absent(data, wanted, same)
    requires start <= 16 * |data| && start <= j <= 16 * |data'|
    requires forall i :: 0 <= i < start ==> EntryOf(data', i) == EntryOf(data, i)
    requires forall i :: start <= i < j ==> LfnText(EntryOf(data', i))
    ensures NoneBefore(c, data', j, wanted, same)
  {
    hide CacheAt, EntryOf, LfnText, NameIn, LfnInvalid, ShortText;
    assert NoneBefore(c, data, 16 * |data|, wanted, same);
    forall i: nat | i < j
      ensures !MatchesAt(c, data', i, wanted, same)
    {
      if i < start {
        CacheOfSame(c, data, data', i);
        assert !MatchesAt(c, data, i, wanted, same);
      }
    }
  }

  /** A reader of two directories that agree up to entry j has the same cache there. */
  lemma {:induction false} CacheOfSame(c: Cache, data: seq<Sector>, data': seq<Sector>, j: nat)
    requires j <= 16 * |data| && j <= 16 * |data'| && |c.rows| == MAX_ENTRIES && c.count <= MAX_ENTRIES
    requires forall i :: 0 <= i < j ==> EntryOf(data', i) == EntryOf(data, i)
    ensures CacheAt(c, data', j) == CacheAt(c, data, j)
  {
    if j > 0 {
      CacheOfSame(c, data, data', j - 1);
    }
  }

  /** The cache of a reader of the directory after entry j - 1 */
  function CacheAt(c: Cache, data: seq<Sector>, j: nat): (r: Cache)
    requires j <= 16 * |data| && |c.rows| == MAX_ENTRIES && c.count <= MAX_ENTRIES
    ensures |r.rows| == MAX_ENTRIES && r.count <= MAX_ENTRIES
  {
    if j == 0 then c else AfterEntry(CacheAt(c, data, j - 1), EntryOf(data, j - 1))
  }

  lemma {:induction false} CacheOfRun(c: Cache, data: seq<Sector>, start: nat, slots: seq<Slot>, n: nat)
    requires |c.rows| == MAX_ENTRIES && c.count <= MAX_ENTRIES && n <= |slots| && start + |slots| <= 16 * |data|
    requires forall i :: 0 <= i < |slots| ==> EntryOf(data, start + i) == slots[i] && LfnText(slots[i])
    ensures CacheAt(c, data, start + n) == AbsorbedAll(CacheAt(c, data, start), slots[..n])
  {
    hide Absorbed, AbsorbedAll, LfnText, EntryOf;
    assert slots[..0] == [];
    AbsorbNone(CacheAt(c, data, start));
    if n > 0 {
      CacheOfRun(c, data, start, slots, n - 1);
      AbsorbLast(CacheAt(c, data, start), slots[..n]);
      assert slots[..n][..n - 1] == slots[..n - 1];
    }
  }

  lemma AbsorbNone(c: Cache)
    requires |c.rows| == MAX_ENTRIES
    ensures AbsorbedAll(c, []) == c
  {
  }

  lemma {:induction false} AbsorbLast(c: Cache, slots: seq<Slot>)
    requires |c.rows| == MAX_ENTRIES && slots != []
    ensures AbsorbedAll(c, slots) == Absorbed(AbsorbedAll(c, slots[..|slots| - 1]), slots[|slots| - 1])
    decreases |slots|
  {
    if |slots| > 1 {
      AbsorbLast(Absorbed(c, slots[0]), slots[1..]);
      assert slots[1..][..|slots| - 2] == slots[..|slots| - 1][1..];
    } else {
      assert slots[..0] == [] && slots[1..] == [];
    }
  }

  /** All the slots of a new entry: those of its long name, and the short entry */
  function NewSlots(filename: seq<byte>, sfnChk: byte, short: Slot): (es: seq<Slot>)
    ensures |es| == EntriesRequired(filename) + 1
  {
    Slots(filename, EntriesRequired(filename), sfnChk) + [short]
  }

  /**
   * After a new entry has been written at the start of a run, a reader who comes to its short entry
   * holds exactly its long name, whatever stood in the slots and in the cache before.
   */
  lemma NewNameIsRead(c: Cache, data: seq<Sector>, start: nat, filename: seq<byte>, sfnChk: byte, short: Slot)
    requires |c.rows| == MAX_ENTRIES && c.count == 0
    requires 0 < |filename| <= 260 && NoZero(filename)
    requires RunStarts(data, start) && start + EntriesRequired(filename) + 1 <= 16 * |data|
    ensures var data' := Placed(data, start, NewSlots(filename, sfnChk, short));
      var r := CacheAt(c, data', start + EntriesRequired(filename));
      && EntryOf(data', start + EntriesRequired(filename)) == short
      && r.count == EntriesRequired(filename) && NameIn(r) == Cleaned(filename)
  {
    hide *;
    var k := EntriesRequired(filename);
    var es, slots := NewSlots(filename, sfnChk, short), Slots(filename, k, sfnChk);
    var data' := Placed(data, start, es);
    ShortPlaced(data, start, filename, sfnChk, short);
    RequiredFits(filename);
    NewSlotsPlaced(data, start, filename, sfnChk, short);
    CountAtRun(c, data, start, es);
    CacheOfRun(c, data', start, slots, k);
    assert slots[..k] == slots;
    NameComesBack(CacheAt(c, data', start), filename, sfnChk);
  }

  lemma SlotCarries(filename: seq<byte>, entry: nat, sfnChk: byte)
    ensures LfnSlot(filename, entry, sfnChk)[13] == sfnChk
  {
  }

  lemma SlotIsText(filename: seq<byte>, entry: nat, sfnChk: byte)
    ensures LfnText(LfnSlot(filename, entry, sfnChk))
  {
  }

  lemma NewSlotsPlaced(data: seq<Sector>, start: nat, filename: seq<byte>, sfnChk: byte, short: Slot)
    requires start + EntriesRequired(filename) + 1 <= 16 * |data|
    ensures var data' := Placed(data, start, NewSlots(filename, sfnChk, short));
      var slots := Slots(filename, EntriesRequired(filename), sfnChk);
      forall i :: 0 <= i < |slots| ==> EntryOf(data', start + i) == slots[i] && LfnText(slots[i])
  {
    var k := EntriesRequired(filename);
    var es, slots := NewSlots(filename, sfnChk, short), Slots(filename, k, sfnChk);
    var data' := Placed(data, start, es);
    hide Placed, EntryOf, LfnSlot, LfnText;
    forall i | 0 <= i < k
      ensures EntryOf(data', start + i) == slots[i] && LfnText(slots[i])
    {
      PlacedEntry(data, start, es, start + i);
      SlotIsText(filename, k - 1 - i, sfnChk);
    }
  }

  /** Every slot of the new entry carries the checksum. */
  lemma NewSlotsCarry(data: seq<Sector>, start: nat, filename: seq<byte>, sfnChk: byte, short: Slot)
    requires start + EntriesRequired(filename) + 1 <= 16 * |data|
    ensures var data' := Placed(data, start, NewSlots(filename, sfnChk, short));
      forall i :: start <= i < start + EntriesRequired(filename) ==>
        LfnText(EntryOf(data', i)) && EntryOf(data', i)[13] == sfnChk
  {
    var k, data' := EntriesRequired(filename), Placed(data, start, NewSlots(filename, sfnChk, short));
    NewSlotsPlaced(data, start, filename, sfnChk, short);
    hide Placed, EntryOf, LfnText, EntriesRequired, LfnSlot;
    forall i | start <= i < start + k
      ensures LfnText(EntryOf(data', i)) && EntryOf(data', i)[13] == sfnChk
    {
      assert EntryOf(data', start + (i - start)) == Slots(filename, k, sfnChk)[i - start];
      SlotCarries(filename, k - 1 - (i - start), sfnChk);
    }
  }

  lemma ShortPlaced(data: seq<Sector>, start: nat, filename: seq<byte>, sfnChk: byte, short: Slot)
    requires start + EntriesRequired(filename) + 1 <= 16 * |data|
    ensures EntryOf(Placed(data, start, NewSlots(filename, sfnChk, short)), start + EntriesRequired(filename)) == short
  {
    hide Placed, EntryOf, EntriesRequired;
    PlacedEntry(data, start, NewSlots(filename, sfnChk, short), start + EntriesRequired(filename));
  }

  lemma CountAtRun(c: Cache, data: seq<Sector>, start: nat, es: seq<Slot>)
    requires |c.rows| == MAX_ENTRIES && c.count == 0 && RunStarts(data, start)
    ensures CacheAt(c, Placed(data, start, es), start).count == 0
  {
    if start > 0 {
      PlacedEntry(data, start, es, start - 1);
    }
  }
}
