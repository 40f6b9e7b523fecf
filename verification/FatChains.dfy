/** The FAT as one plain array of entries: links, cluster chains, allocation and release.
    Everything here is about values; module FatTable relates the code to it. */
module FatChains {
  import opened Sequences
  import opened FatWords

  type Fat = seq<uint32>

  /** What fatfs_find_next_cluster makes of a raw entry: FAT32 entries have 28 significant bits,
      and the end-of-chain range is folded into LAST_CLUSTER. */
  function Link(t: FatType, e: uint32): uint32
  {
    if t.Fat16? then
      if 0xFFF8 <= e <= 0xFFFF then LAST_CLUSTER else e
    else
      var m := e % 0x1000_0000;
      if m >= 0x0FFF_FFF8 then LAST_CLUSTER else m
  }

  /** What fatfs_find_blank_cluster takes for free. */
  predicate IsBlank(t: FatType, e: uint32)
  {
    (if t.Fat16? then e else e % 0x1000_0000) == 0
  }

  /** Every number below this one survives being stored as a link. */
  function LinkLimit(t: FatType): uint32
  {
    if t.Fat16? then 0xFFF8 else 0x0FFF_FFF8
  }

  lemma LinkOfStored(t: FatType, c: uint32)
    requires c < LinkLimit(t)
    ensures Link(t, Stored(t, c)) == c
    ensures Link(t, Stored(t, LAST_CLUSTER)) == LAST_CLUSTER
    ensures c != 0 ==> !IsBlank(t, Stored(t, c))
    ensures !IsBlank(t, Stored(t, LAST_CLUSTER))
  {
  }

  /** The marks for the end of a chain, whatever the top four bits of a FAT32 entry are. */
  predicate IsEndMark(t: FatType, e: uint32)
  {
    if t.Fat16? then 0xFFF8 <= e <= 0xFFFF else 0x0FFF_FFF8 <= e % 0x1000_0000 <= 0x0FFF_FFFF
  }

  /** Two entries that say the same: equal, or on FAT32 equal in their 28 significant bits. */
  predicate SameEntry(t: FatType, e: uint32, e': uint32)
  {
    e == e' || (t.Fat32? && e % 0x1000_0000 == e' % 0x1000_0000)
  }

  /** Each end mark ends a chain, every other entry is its own link up to its reserved bits, and nothing
      but a free entry links to 0. */
  lemma LinkMeaning(t: FatType, e: uint32, e': uint32)
    ensures IsEndMark(t, e) ==> Link(t, e) == 0xFFFF_FFFF
    ensures t.Fat16? && e < 0xFFF8 ==> Link(t, e) == e
    ensures t.Fat32? && e < 0x0FFF_FFF8 ==> Link(t, e) == e
    ensures SameEntry(t, e, e') ==> Link(t, e) == Link(t, e') && (IsBlank(t, e) <==> IsBlank(t, e'))
    ensures Link(t, e) == 0 <==> IsBlank(t, e)
    ensures IsBlank(t, 0)
  {
  }

  // ---------------------------------------------------------------------------------------
  // Blank entries
  // ---------------------------------------------------------------------------------------

  /** The lowest blank cluster not below `from`; not below |f| if there is none. */
  function LowestBlank(t: FatType, f: Fat, from: nat): (r: nat)
    ensures from <= r && (r < |f| ==> IsBlank(t, f[r]))
    decreases |f| - from
  {
    if from >= |f| || IsBlank(t, f[from]) then from
    else LowestBlank(t, f, from + 1)
  }

  lemma LowestBlankStep(t: FatType, f: Fat, from: nat)
    ensures from >= |f| || IsBlank(t, f[from]) ==> LowestBlank(t, f, from) == from
    ensures from < |f| && !IsBlank(t, f[from]) ==> LowestBlank(t, f, from) == LowestBlank(t, f, from + 1)
  {
  }

  /** Nothing below the result is blank. */
  lemma {:induction false} LowestBlankIsLowest(t: FatType, f: Fat, from: nat)
    ensures forall d :: from <= d < |f| && d < LowestBlank(t, f, from) ==> !IsBlank(t, f[d])
    decreases |f| - from
  {
    if from < |f| && !IsBlank(t, f[from]) {
      LowestBlankIsLowest(t, f, from + 1);
    }
  }

  /** How many clusters from `from` on and below `to` are blank. */
  ghost function Blanks(t: FatType, f: Fat, from: nat, to: nat): (n: nat)
    ensures from <= |f| ==> n <= |f| - from
    decreases |f| - from
  {
    if from >= |f| || from >= to then 0
    else (if IsBlank(t, f[from]) then 1 else 0) + Blanks(t, f, from + 1, to)
  }

  /** fatfs_count_free_clusters counts the entries whose raw word is 0. */
  ghost function Zeros(f: Fat): nat
  {
    if f == [] then 0 else Zeros(f[..|f| - 1]) + (if f[|f| - 1] == 0 then 1 else 0)
  }

  /** The zero words among the first `k` entries of one FAT sector. */
  ghost function ZeroWords(t: FatType, s: Sector, k: nat): nat
    requires k <= PerSector(t)
  {
    if k == 0 then 0 else ZeroWords(t, s, k - 1) + (if SectorEntry(t, s, k - 1) == 0 then 1 else 0)
  }

  /** Counting word by word in a stretch of the FAT that is one sector. */
  lemma {:induction false} ZerosInStretch(t: FatType, f: Fat, base: nat, s: Sector, k: nat)
    requires k <= PerSector(t) && base + k <= |f|
    requires forall j :: 0 <= j < k ==> SectorEntry(t, s, j) == f[base + j]
    ensures Zeros(f[..base + k]) == Zeros(f[..base]) + ZeroWords(t, s, k)
  {
    if k > 0 {
      hide Zeros, SectorEntry;
      ZerosInStretch(t, f, base, s, k - 1);
      ZerosSnoc(f, base + k - 1);
      assert SectorEntry(t, s, k - 1) == f[base + (k - 1)];
    }
  }

  lemma PlaceOf(t: FatType, size: nat, i: nat, k: nat)
    requires i < size && k < PerSector(t)
    ensures EntriesIn(t, i) + k < EntriesIn(t, size)
    ensures SectorIndex(t, EntriesIn(t, i) + k) == i && SectorPlace(t, EntriesIn(t, i) + k) == k
  {
  }

  lemma ZerosSnoc(f: Fat, n: nat)
    requires n < |f|
    ensures Zeros(f[..n + 1]) == Zeros(f[..n]) + (if f[n] == 0 then 1 else 0)
  {
    assert f[..n + 1][..n] == f[..n];
  }

  /** The zero words in the first `i` sectors of the FAT. */
  ghost function ZerosBefore(t: FatType, image: seq<Sector>, i: nat): nat
    requires i <= |image|
  {
    Zeros(Entries(t, image)[..EntriesIn(t, i)])
  }

  lemma ZerosFrom(t: FatType, image: seq<Sector>)
    ensures ZerosBefore(t, image, 0) == 0 && ZerosBefore(t, image, |image|) == Zeros(Entries(t, image))
  {
    assert Entries(t, image)[..EntriesIn(t, |image|)] == Entries(t, image);
  }

  lemma ZerosNext(t: FatType, image: seq<Sector>, i: nat)
    requires i < |image|
    ensures ZerosBefore(t, image, i + 1) == ZerosBefore(t, image, i) + ZeroWords(t, image[i], PerSector(t))
  {
    hide Zeros, ZeroWords, SectorEntry, Entries;
    forall k | 0 <= k < PerSector(t)
      ensures SectorEntry(t, image[i], k) == Entries(t, image)[EntriesIn(t, i) + k]
    {
      PlaceOf(t, |image|, i, k);
      EntryAt(t, image, EntriesIn(t, i) + k);
    }
    ZerosInStretch(t, Entries(t, image), EntriesIn(t, i), image[i], PerSector(t));
  }

  /** Free entries carry no reserved top bits (always so on FAT16). */
  ghost predicate CleanBlanks(t: FatType, f: Fat)
  {
    forall c :: 0 <= c < |f| && IsBlank(t, f[c]) ==> f[c] == 0
  }

  ghost function Weight(b: bool): nat
  {
    if b then 1 else 0
  }

  lemma {:induction false} BlanksUpdate(t: FatType, f: Fat, from: nat, to: nat, c: nat, v: uint32)
    requires c < |f|
    ensures Blanks(t, f[c := v], from, to) + Weight(from <= c < to && IsBlank(t, f[c]))
         == Blanks(t, f, from, to) + Weight(from <= c < to && IsBlank(t, v))
    decreases |f| - from
  {
    if from < |f| && from < to {
      BlanksUpdate(t, f, from + 1, to, c, v);
    }
  }

  /** No blanks are counted where there are none. */
  lemma {:induction false} NoBlanks(t: FatType, f: Fat, from: nat, to: nat)
    requires forall d :: from <= d < |f| && d < to ==> !IsBlank(t, f[d])
    ensures Blanks(t, f, from, to) == 0
    decreases |f| - from
  {
    if from < |f| && from < to {
      NoBlanks(t, f, from + 1, to);
    }
  }

  lemma {:induction false} BlanksNext(t: FatType, f: Fat, from: nat, n: nat)
    requires from <= n < |f|
    ensures Blanks(t, f, from, n + 1) == Blanks(t, f, from, n) + Weight(IsBlank(t, f[n]))
    decreases |f| - from
  {
    if from < n {
      BlanksNext(t, f, from + 1, n);
    }
  }

  /** With clean blanks the count the library reports is the number of clusters it can hand out. */
  lemma ZerosAreBlanks(t: FatType, f: Fat)
    requires CleanBlanks(t, f)
    ensures Zeros(f) == Blanks(t, f, 0, |f|)
  {
    ZerosAreBlanksBelow(t, f, |f|);
    assert f[..|f|] == f;
  }

  lemma {:induction false} ZerosAreBlanksBelow(t: FatType, f: Fat, n: nat)
    requires CleanBlanks(t, f) && n <= |f|
    ensures Zeros(f[..n]) == Blanks(t, f, 0, n)
  {
    if n > 0 {
      ZerosAreBlanksBelow(t, f, n - 1);
      ZerosSnoc(f, n - 1);
      BlanksNext(t, f, 0, n - 1);
    }
  }

  // ---------------------------------------------------------------------------------------
  // Chains
  // ---------------------------------------------------------------------------------------

  /** `cs` lists the clusters of one acyclic chain of `f`, first to last. */
  ghost predicate IsChain(t: FatType, f: Fat, cs: seq<nat>)
  {
    && |cs| > 0
    && Distinct(cs)
    && (forall i :: 0 <= i < |cs| ==> 2 <= cs[i] < |f| && cs[i] < LinkLimit(t))
    && (forall i, j :: 0 <= i && j == i + 1 && j < |cs| ==> Link(t, f[cs[i]]) == cs[j])
    && Link(t, f[cs[|cs| - 1]]) == LAST_CLUSTER
  }

  ghost predicate Disjoint(cs: seq<nat>, ds: seq<nat>)
  {
    forall c :: c in cs ==> c !in ds
  }

  lemma ChainFrame(t: FatType, f: Fat, f': Fat, cs: seq<nat>)
    requires IsChain(t, f, cs) && |f'| == |f|
    requires forall c :: c in cs ==> f'[c] == f[c]
    ensures IsChain(t, f', cs)
  {
  }

  /** A chain may end in any end mark, as other systems write them, ... */
  lemma AnyEndMark(t: FatType, f: Fat, cs: seq<nat>, v: uint32)
    requires IsChain(t, f, cs) && IsEndMark(t, v)
    ensures IsChain(t, f[cs[|cs| - 1] := v], cs)
  {
    var f', n := f[cs[|cs| - 1] := v], |cs| - 1;
    LinkMeaning(t, v, v);
    forall i, j | 0 <= i && j == i + 1 && j < |cs|
      ensures Link(t, f'[cs[i]]) == cs[j]
    {
      assert cs[i] != cs[n];
    }
  }

  /** ... and the top bits of FAT32 entries make no difference to it. */
  lemma AnyTopBits(t: FatType, f: Fat, f': Fat, cs: seq<nat>)
    requires IsChain(t, f, cs) && |f'| == |f|
    requires forall c :: c in cs ==> SameEntry(t, f[c], f'[c])
    ensures IsChain(t, f', cs)
    ensures forall c :: c in cs ==> Link(t, f'[c]) == Link(t, f[c])
  {
    forall c | c in cs
      ensures Link(t, f'[c]) == Link(t, f[c])
    {
      LinkMeaning(t, f[c], f'[c]);
    }
  }

  lemma ChainHasNoBlank(t: FatType, f: Fat, cs: seq<nat>, i: nat)
    requires IsChain(t, f, cs) && i < |cs|
    ensures !IsBlank(t, f[cs[i]])
  {
    if i + 1 < |cs| {
      assert Link(t, f[cs[i]]) == cs[i + 1];
    }
  }

  /** The FAT with cluster c hung behind cluster tail. */
  function Hung(t: FatType, f: Fat, tail: nat, c: nat): (r: Fat)
    requires |f| <= LAST_CLUSTER && tail < |f| && c < |f|
    ensures |r| == |f|
  {
    f[tail := Stored(t, c)][c := Stored(t, LAST_CLUSTER)]
  }

  lemma AppendToChain(t: FatType, f: Fat, cs: seq<nat>, c: nat)
    requires IsChain(t, f, cs) && |f| <= LAST_CLUSTER
    requires 2 <= c < |f| && c < LinkLimit(t) && c !in cs
    ensures IsChain(t, Hung(t, f, cs[|cs| - 1], c), cs + [c])
  {
    LinkOfStored(t, c);
    var tail := cs[|cs| - 1];
    var f' := Hung(t, f, tail, c);
    var cs' := cs + [c];
    forall i, j | 0 <= i && j == i + 1 && j < |cs'|
      ensures Link(t, f'[cs'[i]]) == cs'[j]
    {
      if i < |cs| - 1 {
        assert cs[i] != tail && cs[i] != c;
      }
    }
  }

  // ---------------------------------------------------------------------------------------
  // Allocation: fatfs_add_free_space
  // ---------------------------------------------------------------------------------------

  datatype Growth = Growth(fat: Fat, added: seq<nat>, complete: bool)

  /** Hang up to `count` clusters after `tail`, each time the lowest blank one. */
  function Grow(t: FatType, f: Fat, from: nat, tail: nat, count: nat): (g: Growth)
    requires |f| <= LAST_CLUSTER && tail < |f|
    ensures |g.fat| == |f| && |g.added| <= count
    ensures g.added != [] ==> g.added[0] < |f|
    decreases count
  {
    if count == 0 then Growth(f, [], true)
    else
      var c := LowestBlank(t, f, from);
      if c >= |f| then Growth(f, [], false)
      else
        var g := Grow(t, Hung(t, f, tail, c), from, c, count - 1);
        Growth(g.fat, [c] + g.added, g.complete)
  }

  /** The first of the added clusters, or `default` if there is none. */
  function FirstOf(added: seq<nat>, default: nat): nat
  {
    if added == [] then default else added[0]
  }

  /** After `done` clusters, the FAT is `f` with the chain ending in `tail`, and what remains to be
      done is the growth from there. */
  ghost predicate Midway(t: FatType, from: nat, f0: Fat, tail0: nat, count: nat, done: nat, f: Fat, tail: nat)
    requires |f0| <= LAST_CLUSTER && tail0 < |f0| && |f| == |f0| && tail < |f| && done <= count
  {
    var g, r := Grow(t, f0, from, tail0, count), Grow(t, f, from, tail, count - done);
    done <= |g.added| && g == Growth(r.fat, g.added[..done] + r.added, r.complete)
  }

  lemma GrowStarts(t: FatType, from: nat, f: Fat, tail: nat, count: nat)
    requires |f| <= LAST_CLUSTER && tail < |f|
    ensures Midway(t, from, f, tail, count, 0, f, tail)
  {
    var r := Grow(t, f, from, tail, count);
    assert r.added[..0] + r.added == r.added;
  }

  lemma GrowOnce(t: FatType, f: Fat, from: nat, tail: nat, count: nat, c: uint32)
    requires |f| <= LAST_CLUSTER && tail < |f| && 0 < count && LowestBlank(t, f, from) == c < |f|
    ensures var r := Grow(t, Hung(t, f, tail, c), from, c, count - 1);
      Grow(t, f, from, tail, count) == Growth(r.fat, [c] + r.added, r.complete)
  {
  }

  lemma SplitOne(g: Growth, r: Growth, rest: Growth, done: nat, c: nat)
    requires done <= |g.added| && g == Growth(r.fat, g.added[..done] + r.added, r.complete)
    requires r == Growth(rest.fat, [c] + rest.added, rest.complete)
    ensures done < |g.added| && g.added[done] == c
    ensures g == Growth(rest.fat, g.added[..done + 1] + rest.added, rest.complete)
  {
    assert g.added[done] == c;
    assert g.added[..done + 1] == g.added[..done] + [c];
    assert g.added == g.added[..done + 1] + rest.added;
  }

  lemma GrowStep(t: FatType, from: nat, f0: Fat, tail0: nat, count: nat, done: nat, f: Fat, tail: nat, c: uint32)
    requires |f0| <= LAST_CLUSTER && tail0 < |f0| && |f| == |f0| && tail < |f| && done < count
    requires Midway(t, from, f0, tail0, count, done, f, tail)
    requires LowestBlank(t, f, from) == c < |f|
    ensures Midway(t, from, f0, tail0, count, done + 1, Hung(t, f, tail, c), c)
    ensures done == 0 ==> FirstOf(Grow(t, f0, from, tail0, count).added, tail0) == c
  {
    hide Hung, LowestBlank, Grow;
    GrowOnce(t, f, from, tail, count - done, c);
    SplitOne(Grow(t, f0, from, tail0, count), Grow(t, f, from, tail, count - done),
             Grow(t, Hung(t, f, tail, c), from, c, count - done - 1), done, c);
  }

  lemma GrowStops(t: FatType, from: nat, f0: Fat, tail0: nat, count: nat, done: nat, f: Fat, tail: nat)
    requires |f0| <= LAST_CLUSTER && tail0 < |f0| && |f| == |f0| && tail < |f| && done <= count
    requires done == count || LowestBlank(t, f, from) >= |f|
    requires Midway(t, from, f0, tail0, count, done, f, tail)
    ensures var g := Grow(t, f0, from, tail0, count);
      g.fat == f && g.complete == (done == count) && (done == 0 ==> FirstOf(g.added, tail0) == tail0)
  {
  }

  /** Blank entries below `limit` belong to clusters, not to the two reserved entries of a FAT. */
  ghost predicate NoneReserved(t: FatType, f: Fat, from: nat, limit: nat)
  {
    forall c :: from <= c < |f| && c < limit && IsBlank(t, f[c]) ==> 2 <= c
  }

  ghost predicate NoneBeyond(t: FatType, f: Fat, from: nat, limit: nat)
  {
    forall c :: from <= c < |f| && limit <= c ==> !IsBlank(t, f[c])
  }

  /** There are `count` blank clusters below `limit`, or none beyond it. */
  ghost predicate Enough(t: FatType, f: Fat, from: nat, limit: nat, count: nat)
  {
    count <= Blanks(t, f, from, limit) || NoneBeyond(t, f, from, limit)
  }

  /** `count` more clusters can be asked for, and those below `limit` can be chained. Take for `limit`
      the first cluster number that is not on the disk: entries behind it may well be blank, as the
      end of a FAT is on most volumes. */
  ghost predicate Usable(t: FatType, f: Fat, from: nat, limit: nat, count: nat)
  {
    && limit <= |f| && limit <= LinkLimit(t)
    && NoneReserved(t, f, from, limit)
    && Enough(t, f, from, limit, count)
  }

  /** `added` lists, in increasing order, the first blank clusters of `f` from `from` on. */
  ghost predicate FirstBlanks(t: FatType, f: Fat, from: nat, added: seq<nat>)
  {
    && (forall i :: 0 <= i < |added| ==> from <= added[i] < |f| && IsBlank(t, f[added[i]]))
    && (forall i, j :: 0 <= i < j < |added| ==> added[i] < added[j])
    && (forall d, i :: 0 <= i < |added| && from <= d < added[i] && IsBlank(t, f[d]) ==> d in added)
  }

  /** The search stays below `limit` as long as there is a blank, or finds nothing at all. */
  lemma LowestStaysBelow(t: FatType, f: Fat, from: nat, limit: nat, count: nat)
    requires Usable(t, f, from, limit, count) && count > 0
    ensures var c := LowestBlank(t, f, from);
      && (c < |f| ==> 2 <= c < limit)
      && (c >= |f| ==> Blanks(t, f, from, limit) == 0)
  {
    var c := LowestBlank(t, f, from);
    LowestBlankIsLowest(t, f, from);
    if c >= limit {
      NoBlanks(t, f, from, limit);
    }
  }

  lemma OneStep(t: FatType, f: Fat, from: nat, tail: nat, c: nat, limit: nat, count: nat)
    requires |f| <= LAST_CLUSTER && tail < |f| && !IsBlank(t, f[tail])
    requires Usable(t, f, from, limit, count) && count > 0
    requires LowestBlank(t, f, from) == c < |f|
    ensures var f' := Hung(t, f, tail, c);
      && c != tail && 2 <= c < limit
      && Usable(t, f', from, limit, count - 1)
      && !IsBlank(t, f'[c])
      && (forall d :: 0 <= d < |f| ==> (IsBlank(t, f'[d]) <==> IsBlank(t, f[d]) && d != c))
      && (CleanBlanks(t, f) ==> CleanBlanks(t, f'))
      && Blanks(t, f', from, limit) == Blanks(t, f, from, limit) - 1
      && Blanks(t, f', 0, |f|) == Blanks(t, f, 0, |f|) - 1
  {
    LowestStaysBelow(t, f, from, limit, count);
    LinkOfStored(t, c);
    var f1 := f[tail := Stored(t, c)];
    BlanksUpdate(t, f, from, limit, tail, Stored(t, c));
    BlanksUpdate(t, f1, from, limit, c, Stored(t, LAST_CLUSTER));
    BlanksUpdate(t, f, 0, |f|, tail, Stored(t, c));
    BlanksUpdate(t, f1, 0, |f|, c, Stored(t, LAST_CLUSTER));
  }

  /** How much is allocated: as many as asked for or as there are; nothing but the tail's entry and
      the new clusters' entries changes. */
  lemma {:induction false} GrowAmount(t: FatType, f: Fat, from: nat, tail: nat, count: nat, limit: nat)
    requires |f| <= LAST_CLUSTER && tail < |f| && !IsBlank(t, f[tail])
    requires Usable(t, f, from, limit, count)
    ensures var g, n := Grow(t, f, from, tail, count), Blanks(t, f, from, limit);
      && |g.added| == (if count <= n then count else n)
      && (g.complete <==> count <= n)
      && (forall d :: 0 <= d < |f| && d != tail && d !in g.added ==> g.fat[d] == f[d])
      && (g.added == [] ==> g.fat == f)
    decreases count
  {
    hide Usable, LowestBlank, Blanks, Stored, IsBlank, CleanBlanks;
    if count > 0 {
      var c := LowestBlank(t, f, from);
      LowestStaysBelow(t, f, from, limit, count);
      if c < |f| {
        OneStep(t, f, from, tail, c, limit, count);
        GrowAmount(t, Hung(t, f, tail, c), from, c, count - 1, limit);
      }
    }
  }

  /** Which clusters are allocated: each one is the lowest blank at its turn, so together they are
      the first blanks of the FAT as it was, in increasing order. */
  lemma {:induction false} GrowTakesLowest(t: FatType, f: Fat, from: nat, tail: nat, count: nat, limit: nat)
    requires |f| <= LAST_CLUSTER && tail < |f| && !IsBlank(t, f[tail])
    requires Usable(t, f, from, limit, count)
    ensures FirstBlanks(t, f, from, Grow(t, f, from, tail, count).added)
    decreases count
  {
    hide Hung, Usable, LowestBlank, Blanks, Stored, IsBlank, CleanBlanks;
    if count > 0 && LowestBlank(t, f, from) < |f| {
      var c := LowestBlank(t, f, from);
      OneStep(t, f, from, tail, c, limit, count);
      var f' := Hung(t, f, tail, c);
      GrowTakesLowest(t, f', from, c, count - 1, limit);
      LowestThenFirst(t, f, f', from, c, Grow(t, f', from, c, count - 1).added);
    }
  }

  lemma LowestThenFirst(t: FatType, f: Fat, f': Fat, from: nat, c: nat, rest: seq<nat>)
    requires LowestBlank(t, f, from) == c < |f| && |f'| == |f|
    requires forall d :: 0 <= d < |f| ==> (IsBlank(t, f'[d]) <==> IsBlank(t, f[d]) && d != c)
    requires FirstBlanks(t, f', from, rest)
    ensures FirstBlanks(t, f, from, [c] + rest)
  {
    hide IsBlank, LowestBlank;
    LowestBlankIsLowest(t, f, from);
    var added := [c] + rest;
    assert added[0] == c;
    assert forall i :: 1 <= i < |added| ==> added[i] == rest[i - 1];
    forall i | 0 <= i < |rest|
      ensures from <= rest[i] < |f| && IsBlank(t, f[rest[i]]) && c < rest[i]
    {
      assert IsBlank(t, f'[rest[i]]);
    }
    forall d, i | 0 <= i < |added| && from <= d < added[i] && IsBlank(t, f[d])
      ensures d in added
    {
      if d != c {
        assert IsBlank(t, f'[d]);
        assert i > 0 && d < rest[i - 1];
        assert d in rest;
      }
    }
  }

  lemma {:induction false} GrowBlanks(t: FatType, f: Fat, from: nat, tail: nat, count: nat, limit: nat)
    requires |f| <= LAST_CLUSTER && tail < |f| && !IsBlank(t, f[tail])
    requires Usable(t, f, from, limit, count)
    ensures var g := Grow(t, f, from, tail, count);
      && NoneReserved(t, g.fat, from, limit)
      && Blanks(t, g.fat, from, limit) == Blanks(t, f, from, limit) - |g.added|
      && Blanks(t, g.fat, 0, |f|) == Blanks(t, f, 0, |f|) - |g.added|
      && (CleanBlanks(t, f) ==> CleanBlanks(t, g.fat))
    decreases count
  {
    hide Hung, LowestBlank, Blanks, Stored, IsBlank, CleanBlanks;
    if count > 0 && LowestBlank(t, f, from) < |f| {
      var c := LowestBlank(t, f, from);
      OneStep(t, f, from, tail, c, limit, count);
      GrowBlanks(t, Hung(t, f, tail, c), from, c, count - 1, limit);
    }
  }

  /** Conservation: the number of free clusters the library reports drops by exactly the number of
      clusters handed out. */
  lemma GrowConserves(t: FatType, f: Fat, from: nat, tail: nat, count: nat, limit: nat)
    requires |f| <= LAST_CLUSTER && tail < |f| && !IsBlank(t, f[tail])
    requires Usable(t, f, from, limit, count) && CleanBlanks(t, f)
    ensures var g := Grow(t, f, from, tail, count);
      && Zeros(g.fat) == Zeros(f) - |g.added|
      && Blanks(t, g.fat, from, limit) == Blanks(t, f, from, limit) - |g.added|
  {
    GrowBlanks(t, f, from, tail, count, limit);
    ZerosAreBlanks(t, f);
    ZerosAreBlanks(t, Grow(t, f, from, tail, count).fat);
  }

  /** Which numbers can be handed out. The code does not know how many clusters are on the disk: it
      hands out one at or above `limit` exactly when the blanks below are used up and there are blank
      entries beyond. */
  lemma GrowStaysBelow(t: FatType, f: Fat, from: nat, tail: nat, count: nat, limit: nat)
    requires |f| <= LAST_CLUSTER && tail < |f| && !IsBlank(t, f[tail])
    requires limit <= |f| && limit <= LinkLimit(t) && NoneReserved(t, f, from, limit)
    ensures AllIn(Grow(t, f, from, tail, count).added, 2, limit) <==> Enough(t, f, from, limit, count)
  {
    if Enough(t, f, from, limit, count) {
      GrowWithin(t, f, from, tail, count, limit);
    } else {
      var d :| from <= d < |f| && limit <= d && IsBlank(t, f[d]);
      GrowBeyond(t, f, from, tail, count, limit, d);
    }
  }

  lemma {:induction false} GrowWithin(t: FatType, f: Fat, from: nat, tail: nat, count: nat, limit: nat)
    requires |f| <= LAST_CLUSTER && tail < |f| && !IsBlank(t, f[tail])
    requires Usable(t, f, from, limit, count)
    ensures AllIn(Grow(t, f, from, tail, count).added, 2, limit)
    decreases count
  {
    hide Hung, Usable, LowestBlank, IsBlank, AllIn;
    AllInNone(2, limit);
    if count > 0 && LowestBlank(t, f, from) < |f| {
      var c := LowestBlank(t, f, from);
      OneStep(t, f, from, tail, c, limit, count);
      GrowWithin(t, Hung(t, f, tail, c), from, c, count - 1, limit);
      AllInCons(c, Grow(t, Hung(t, f, tail, c), from, c, count - 1).added, 2, limit);
    }
  }

  lemma {:induction false} GrowBeyond(t: FatType, f: Fat, from: nat, tail: nat, count: nat, limit: nat, d: nat)
    requires |f| <= LAST_CLUSTER && tail < |f| && !IsBlank(t, f[tail])
    requires limit <= |f| && limit <= LinkLimit(t) && NoneReserved(t, f, from, limit)
    requires Blanks(t, f, from, limit) < count && from <= d < |f| && limit <= d && IsBlank(t, f[d])
    ensures !AllIn(Grow(t, f, from, tail, count).added, 2, limit)
    decreases count
  {
    hide Hung, LowestBlank, Blanks, IsBlank, AllIn, NoneReserved;
    var c := LowestBlank(t, f, from);
    LowestBlankIsLowest(t, f, from);
    AllInCons(c, Grow(t, Hung(t, f, tail, c), from, c, count - 1).added, 2, limit);
    if c < limit {
      StepBeyond(t, f, from, tail, c, limit, count, d);
      GrowBeyond(t, Hung(t, f, tail, c), from, c, count - 1, limit, d);
    }
  }

  lemma AllInNone(low: nat, high: nat)
    ensures AllIn([], low, high)
  {
  }

  ghost predicate AllIn(cs: seq<nat>, low: nat, high: nat)
  {
    forall i :: 0 <= i < |cs| ==> low <= cs[i] < high
  }

  lemma AllInCons(c: nat, cs: seq<nat>, low: nat, high: nat)
    ensures AllIn([c] + cs, low, high) <==> low <= c < high && AllIn(cs, low, high)
  {
    var all := [c] + cs;
    assert all[0] == c;
    forall i | 0 <= i < |cs|
      ensures all[i + 1] == cs[i]
    {
    }
    assert forall i :: 0 < i < |all| ==> all[i] == cs[i - 1];
  }

  lemma StepBeyond(t: FatType, f: Fat, from: nat, tail: nat, c: nat, limit: nat, count: nat, d: nat)
    requires |f| <= LAST_CLUSTER && tail < |f| && !IsBlank(t, f[tail])
    requires limit <= |f| && limit <= LinkLimit(t) && NoneReserved(t, f, from, limit)
    requires LowestBlank(t, f, from) == c < limit && Blanks(t, f, from, limit) < count
    requires from <= d < |f| && limit <= d && IsBlank(t, f[d])
    ensures var f' := Hung(t, f, tail, c);
      && 2 <= c && !IsBlank(t, f'[c]) && IsBlank(t, f'[d])
      && NoneReserved(t, f', from, limit)
      && Blanks(t, f', from, limit) < count - 1
  {
    LinkOfStored(t, c);
    var f1 := f[tail := Stored(t, c)];
    BlanksUpdate(t, f, from, limit, tail, Stored(t, c));
    BlanksUpdate(t, f1, from, limit, c, Stored(t, LAST_CLUSTER));
  }

  lemma ChainSize(t: FatType, f: Fat, cs: seq<nat>)
    requires IsChain(t, f, cs)
    ensures |cs| > 0 && cs[|cs| - 1] < |f|
  {
  }

  lemma ExtendByOne(t: FatType, f: Fat, from: nat, cs: seq<nat>, c: nat, limit: nat, count: nat)
    requires |f| <= LAST_CLUSTER && IsChain(t, f, cs)
    requires Usable(t, f, from, limit, count) && count > 0
    requires LowestBlank(t, f, from) == c < |f|
    ensures var f' := Hung(t, f, cs[|cs| - 1], c);
      IsChain(t, f', cs + [c]) && Usable(t, f', from, limit, count - 1)
  {
    ChainHasNoBlank(t, f, cs, |cs| - 1);
    OneStep(t, f, from, cs[|cs| - 1], c, limit, count);
    BlankNotInChain(t, f, cs, c);
    AppendToChain(t, f, cs, c);
  }

  /** Well-formedness: the chain keeps its old clusters as a prefix and stays a chain, complete or not. */
  lemma {:induction false} GrowExtendsChain(t: FatType, f: Fat, from: nat, cs: seq<nat>, count: nat, limit: nat)
    requires |f| <= LAST_CLUSTER && IsChain(t, f, cs)
    requires Usable(t, f, from, limit, count)
    ensures var g := Grow(t, f, from, cs[|cs| - 1], count);
      IsChain(t, g.fat, cs + g.added)
    decreases count
  {
    hide Hung, Usable, LowestBlank, Stored, IsChain;
    ChainSize(t, f, cs);
    var tail := cs[|cs| - 1];
    if count == 0 || LowestBlank(t, f, from) >= |f| {
      assert cs + [] == cs;
    } else {
      var c := LowestBlank(t, f, from);
      ExtendByOne(t, f, from, cs, c, limit, count);
      var f', cs' := Hung(t, f, tail, c), cs + [c];
      assert cs'[|cs'| - 1] == c;
      GrowExtendsChain(t, f', from, cs', count - 1, limit);
      var g' := Grow(t, f', from, c, count - 1);
      assert cs' + g'.added == cs + ([c] + g'.added);
    }
  }

  /** Every chain that shares no cluster with the growing one is left as it was and still shares none. */
  lemma GrowKeepsOtherChains(t: FatType, f: Fat, from: nat, cs: seq<nat>, count: nat, ds: seq<nat>, limit: nat)
    requires |f| <= LAST_CLUSTER && IsChain(t, f, cs) && IsChain(t, f, ds) && Disjoint(ds, cs)
    requires Usable(t, f, from, limit, count)
    ensures var g := Grow(t, f, from, cs[|cs| - 1], count);
      IsChain(t, g.fat, ds) && Disjoint(ds, cs + g.added) && forall d :: d in ds ==> g.fat[d] == f[d]
  {
    var tail := cs[|cs| - 1];
    ChainHasNoBlank(t, f, cs, |cs| - 1);
    GrowAmount(t, f, from, tail, count, limit);
    GrowTakesLowest(t, f, from, tail, count, limit);
    var g := Grow(t, f, from, tail, count);
    forall d | d in ds
      ensures d !in g.added && d != tail
    {
      if d in g.added {
        BlankNotInChain(t, f, ds, d);
      }
    }
    ChainFrame(t, f, g.fat, ds);
  }

  lemma BlankNotInChain(t: FatType, f: Fat, cs: seq<nat>, c: nat)
    requires IsChain(t, f, cs) && c < |f| && IsBlank(t, f[c])
    ensures c !in cs
  {
    if c in cs {
      var i :| 0 <= i < |cs| && cs[i] == c;
      ChainHasNoBlank(t, f, cs, i);
    }
  }
}
