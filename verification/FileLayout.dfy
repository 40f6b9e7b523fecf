/** Where the sectors of a file lie on the disk, and the bytes they stand for. Values only. */
module FileLayout {
  import opened Sequences
  import opened FatWords
  import Arith
  import opened FatChains

  /** fatfs_lba_of_cluster, from the first sector of the data area. */
  function ClusterLba(start: nat, spc: nat, c: nat): int
  {
    start + (c - 2) * spc
  }

  /** Index of the cluster that holds sector `s` of a file, and the sector's place in it. */
  function ClusterIndex(s: nat, spc: nat): nat
    requires 0 < spc
  {
    s / spc
  }

  function ClusterOffset(s: nat, spc: nat): (k: nat)
    requires 0 < spc
    ensures k < spc
  {
    s % spc
  }

  /** Number of sectors in `clusters` clusters. */
  function SectorsIn(clusters: nat, spc: nat): nat
  {
    clusters * spc
  }

  /** The disk sector of sector `s` of the file stored in `clusters`. */
  function SectorLba(start: nat, spc: nat, clusters: seq<nat>, s: nat): int
    requires 0 < spc && ClusterIndex(s, spc) < |clusters|
  {
    ClusterLba(start, spc, clusters[ClusterIndex(s, spc)]) + ClusterOffset(s, spc)
  }

  lemma DivMod(i: nat, k: nat, spc: nat)
    requires k < spc
    ensures (i * spc + k) / spc == i && (i * spc + k) % spc == k
  {
    Arith.DivIs(spc, i * spc + k, i, k);
  }

  lemma SplitSector(s: nat, spc: nat)
    requires 0 < spc
    ensures s == SectorsIn(ClusterIndex(s, spc), spc) + ClusterOffset(s, spc)
  {
  }

  lemma MulGrows(i: nat, n: nat)
    requires 0 < n
    ensures i <= i * n
  {
    assert i * n == i * (n - 1) + i;
  }

  lemma IndexBelow(s: nat, spc: nat)
    requires 0 < spc
    ensures ClusterIndex(s, spc) <= s
  {
    hide ClusterIndex, ClusterOffset;
    SplitSector(s, spc);
    MulGrows(ClusterIndex(s, spc), spc);
  }

  lemma JoinSector(i: nat, k: nat, spc: nat)
    requires k < spc
    ensures ClusterIndex(SectorsIn(i, spc) + k, spc) == i && ClusterOffset(SectorsIn(i, spc) + k, spc) == k
  {
    DivMod(i, k, spc);
  }

  lemma SectorsMonotone(i: nat, j: nat, spc: nat)
    requires i < j
    ensures SectorsIn(i, spc) + spc <= SectorsIn(j, spc)
  {
    assert (i + 1) * spc <= j * spc;
  }

  /** Clusters do not overlap. */
  lemma ClustersApart(start: nat, spc: nat, c: nat, c': nat)
    requires 0 < spc && c < c'
    ensures ClusterLba(start, spc, c) + spc <= ClusterLba(start, spc, c')
  {
    assert (c + 1 - 2) * spc <= (c' - 2) * spc;
    assert (c + 1 - 2) * spc == (c - 2) * spc + spc;
  }

  /** Different sectors of a file, or of two files without a common cluster, are different disk sectors. */
  lemma SectorsApart(start: nat, spc: nat, cs: seq<nat>, s: nat, ds: seq<nat>, s': nat)
    requires 0 < spc && ClusterIndex(s, spc) < |cs| && ClusterIndex(s', spc) < |ds|
    requires cs[ClusterIndex(s, spc)] != ds[ClusterIndex(s', spc)] || ClusterOffset(s, spc) != ClusterOffset(s', spc)
    ensures SectorLba(start, spc, cs, s) != SectorLba(start, spc, ds, s')
  {
    var c, c' := cs[ClusterIndex(s, spc)], ds[ClusterIndex(s', spc)];
    if c < c' {
      ClustersApart(start, spc, c, c');
    } else if c' < c {
      ClustersApart(start, spc, c', c);
    }
  }

  lemma SectorsOfOneFile(start: nat, spc: nat, cs: seq<nat>, s: nat, s': nat)
    requires 0 < spc && ClusterIndex(s, spc) < |cs| && ClusterIndex(s', spc) < |cs| && s != s' && Distinct(cs)
    ensures SectorLba(start, spc, cs, s) != SectorLba(start, spc, cs, s')
  {
    SplitSector(s, spc);
    SplitSector(s', spc);
    SectorsApart(start, spc, cs, s, cs, s');
  }

  /** A run of sectors inside one cluster is a run of disk sectors. */
  lemma RunInCluster(start: nat, spc: nat, cs: seq<nat>, s: nat, k: nat)
    requires 0 < spc && ClusterIndex(s, spc) < |cs| && ClusterOffset(s, spc) + k < spc
    ensures ClusterIndex(s + k, spc) == ClusterIndex(s, spc)
    ensures SectorLba(start, spc, cs, s + k) == SectorLba(start, spc, cs, s) + k
  {
    SplitSector(s, spc);
    JoinSector(ClusterIndex(s, spc), ClusterOffset(s, spc) + k, spc);
  }

  lemma SectorInRange(start: nat, spc: nat, cs: seq<nat>, s: nat, limit: nat)
    requires 0 < spc && ClusterIndex(s, spc) < |cs| && 2 <= cs[ClusterIndex(s, spc)] < limit
    ensures start <= SectorLba(start, spc, cs, s) < ClusterLba(start, spc, limit)
  {
    ClustersApart(start, spc, cs[ClusterIndex(s, spc)], limit);
    assert (cs[ClusterIndex(s, spc)] - 2) * spc >= 0;
  }

  // ---------------------------------------------------------------------------------------
  // The sectors of a file
  // ---------------------------------------------------------------------------------------

  ghost predicate OnDisk(disk: seq<Sector>, start: nat, spc: nat, cs: seq<nat>, s: nat, contents: Sector)
    requires 0 < spc
  {
    && ClusterIndex(s, spc) < |cs|
    && var lba := SectorLba(start, spc, cs, s);
      start <= lba < |disk| && disk[lba] == contents
  }

  /** `data` lists the sectors of the clusters `cs` as the disk holds them. */
  ghost predicate Mirrors(disk: seq<Sector>, start: nat, spc: nat, cs: seq<nat>, data: seq<Sector>)
  {
    && 0 < spc && |data| == SectorsIn(|cs|, spc)
    && forall s :: 0 <= s < |data| ==> OnDisk(disk, start, spc, cs, s, data[s])
  }

  lemma MirrorKept(disk: seq<Sector>, disk': seq<Sector>, start: nat, spc: nat, cs: seq<nat>, data: seq<Sector>)
    requires Mirrors(disk, start, spc, cs, data)
    requires |disk'| == |disk| && forall l :: start <= l < |disk| ==> disk'[l] == disk[l]
    ensures Mirrors(disk', start, spc, cs, data)
  {
    forall s | 0 <= s < |data|
      ensures OnDisk(disk', start, spc, cs, s, data[s])
    {
      assert OnDisk(disk, start, spc, cs, s, data[s]);
    }
  }

  /** Sector k of the i-th cluster c is disk sector start + (c - 2) * spc + k. */
  lemma MirrorPlace(disk: seq<Sector>, start: nat, spc: nat, cs: seq<nat>, data: seq<Sector>, i: nat, k: nat)
    requires Mirrors(disk, start, spc, cs, data) && i < |cs| && k < spc
    ensures i * spc + k < |data|
    ensures var lba := start + (cs[i] - 2) * spc + k; 0 <= lba < |disk| && data[i * spc + k] == disk[lba]
  {
    var s := i * spc + k;
    JoinSector(i, k, spc);
    SectorsMonotone(i, |cs|, spc);
    assert OnDisk(disk, start, spc, cs, s, data[s]);
  }

  /** The sectors of `cs` as the disk holds them. */
  ghost function Fetch(disk: seq<Sector>, start: nat, spc: nat, cs: seq<nat>): (data: seq<Sector>)
    requires 0 < spc
    requires forall s :: 0 <= s < SectorsIn(|cs|, spc) ==>
      ClusterIndex(s, spc) < |cs| && start <= SectorLba(start, spc, cs, s) < |disk|
    ensures |data| == SectorsIn(|cs|, spc) && Mirrors(disk, start, spc, cs, data)
  {
    seq(SectorsIn(|cs|, spc), s requires 0 <= s < SectorsIn(|cs|, spc) => disk[SectorLba(start, spc, cs, s)])
  }

  /** A longer chain: the old sectors keep their contents, the new ones are what the disk holds. */
  lemma MirrorGrows(disk: seq<Sector>, start: nat, spc: nat, cs: seq<nat>, data: seq<Sector>, added: seq<nat>,
                    limit: nat)
    returns (data': seq<Sector>)
    requires Mirrors(disk, start, spc, cs, data)
    requires forall i :: 0 <= i < |cs| ==> 2 <= cs[i] < limit
    requires forall i :: 0 <= i < |added| ==> 2 <= added[i] < limit
    requires ClusterLba(start, spc, limit) <= |disk|
    ensures Mirrors(disk, start, spc, cs + added, data')
    ensures data <= data' && |data'| == SectorsIn(|cs| + |added|, spc)
  {
    var cs' := cs + added;
    forall s | 0 <= s < SectorsIn(|cs'|, spc)
      ensures ClusterIndex(s, spc) < |cs'| && start <= SectorLba(start, spc, cs', s) < |disk|
    {
      SectorHasCluster(s, spc, 0, |cs'|);
      SectorInRange(start, spc, cs', s, limit);
    }
    data' := Fetch(disk, start, spc, cs');
    if |added| > 0 {
      SectorsMonotone(|cs|, |cs'|, spc);
    }
    forall s | 0 <= s < |data|
      ensures data'[s] == data[s]
    {
      assert OnDisk(disk, start, spc, cs, s, data[s]) && OnDisk(disk, start, spc, cs', s, data'[s]);
    }
  }

  /** Writing a run of sectors inside one cluster changes exactly those sectors of the file. */
  lemma MirrorWritten(disk: seq<Sector>, disk': seq<Sector>, start: nat, spc: nat, cs: seq<nat>,
                      data: seq<Sector>, data': seq<Sector>, s: nat, n: nat)
    requires Mirrors(disk, start, spc, cs, data) && Distinct(cs)
    requires 0 < n && s + n <= |data| && ClusterOffset(s, spc) + n <= spc && ClusterIndex(s, spc) < |cs|
    requires |disk'| == |disk| && |data'| == |data|
    requires var lba := SectorLba(start, spc, cs, s);
      && 0 <= lba && lba + n <= |disk|
      && (forall l :: 0 <= l < |disk| && !(lba <= l < lba + n) ==> disk'[l] == disk[l])
      && (forall l :: lba <= l < lba + n ==> disk'[l] == data'[s + l - lba])
    requires forall s' :: 0 <= s' < |data| && !(s <= s' < s + n) ==> data'[s'] == data[s']
    ensures Mirrors(disk', start, spc, cs, data')
  {
    var lba := SectorLba(start, spc, cs, s);
    forall s' | 0 <= s' < |data|
      ensures OnDisk(disk', start, spc, cs, s', data'[s'])
    {
      assert OnDisk(disk, start, spc, cs, s', data[s']);
      if s <= s' < s + n {
        RunInCluster(start, spc, cs, s, s' - s);
      } else {
        AwayFromRun(start, spc, cs, s, n, cs, s');
      }
    }
  }

  /** ... and no sector of a file without a common cluster. */
  lemma MirrorUntouched(disk: seq<Sector>, disk': seq<Sector>, start: nat, spc: nat, cs: seq<nat>, s: nat, n: nat,
                        ds: seq<nat>, data: seq<Sector>)
    requires Mirrors(disk, start, spc, ds, data) && Disjoint(ds, cs)
    requires ClusterIndex(s, spc) < |cs| && ClusterOffset(s, spc) + n <= spc
    requires |disk'| == |disk|
    requires var lba := SectorLba(start, spc, cs, s);
      forall l :: 0 <= l < |disk| && !(lba <= l < lba + n) ==> disk'[l] == disk[l]
    ensures Mirrors(disk', start, spc, ds, data)
  {
    forall s' | 0 <= s' < |data|
      ensures OnDisk(disk', start, spc, ds, s', data[s'])
    {
      assert OnDisk(disk, start, spc, ds, s', data[s']);
      assert ds[ClusterIndex(s', spc)] in ds;
      AwayFromRun(start, spc, cs, s, n, ds, s');
    }
  }

  lemma AwayFromRun(start: nat, spc: nat, cs: seq<nat>, s: nat, n: nat, ds: seq<nat>, s': nat)
    requires 0 < spc && ClusterIndex(s, spc) < |cs| && ClusterOffset(s, spc) + n <= spc && ClusterIndex(s', spc) < |ds|
    requires Disjoint(ds, cs) || (ds == cs && Distinct(cs) && !(s <= s' < s + n))
    ensures var lba := SectorLba(start, spc, cs, s); !(lba <= SectorLba(start, spc, ds, s') < lba + n)
  {
    hide ClusterIndex, ClusterOffset, SectorLba;
    var lba, lba' := SectorLba(start, spc, cs, s), SectorLba(start, spc, ds, s');
    if lba <= lba' < lba + n {
      var k: nat := lba' - lba;
      RunInCluster(start, spc, cs, s, k);
      if ds == cs && s' != s + k {
        SectorsOfOneFile(start, spc, cs, s + k, s');
      } else if Disjoint(ds, cs) {
        assert ds[ClusterIndex(s', spc)] in ds && cs[ClusterIndex(s + k, spc)] in cs;
        SectorsApart(start, spc, cs, s + k, ds, s');
      }
    }
  }

  /** Inside one cluster a run of file sectors is a run of disk sectors. */
  lemma RunOnDisk(disk: seq<Sector>, start: nat, spc: nat, cs: seq<nat>, data: seq<Sector>, s: nat, n: nat)
    requires Mirrors(disk, start, spc, cs, data)
    requires 0 < n && s + n <= |data| && ClusterOffset(s, spc) + n <= spc
    ensures ClusterIndex(s, spc) < |cs|
    ensures var lba := SectorLba(start, spc, cs, s);
      start <= lba && lba + n <= |disk| && forall l :: lba <= l < lba + n ==> disk[l] == data[s + l - lba]
  {
    assert OnDisk(disk, start, spc, cs, s, data[s]);
    var lba := SectorLba(start, spc, cs, s);
    forall l | lba <= l < lba + n
      ensures l < |disk| && disk[l] == data[s + l - lba]
    {
      var k := l - lba;
      RunInCluster(start, spc, cs, s, k);
      assert OnDisk(disk, start, spc, cs, s + k, data[s + k]);
    }
    RunInCluster(start, spc, cs, s, n - 1);
    assert OnDisk(disk, start, spc, cs, s + (n - 1), data[s + (n - 1)]);
  }

  /** Sectors to be moved at once: up to the end of the cluster. */
  function InCluster(s: nat, spc: nat, count: nat): (n: nat)
    requires 0 < spc
    ensures n <= count && ClusterOffset(s, spc) + n <= spc && (count > 0 ==> n > 0)
  {
    if ClusterOffset(s, spc) + count > spc then spc - ClusterOffset(s, spc) else count
  }

  lemma InClusterIs(s: nat, spc: nat, count: nat)
    requires 0 < spc
    ensures InCluster(s, spc, count)
         == if ClusterOffset(s, spc) + count > spc then spc - ClusterOffset(s, spc) else count
  {
  }

  /** It is as much as one transfer can move: the run lies in one cluster, and only the request or the
      end of that cluster ends it. */
  lemma InClusterMaximal(s: nat, spc: nat, count: nat)
    requires 0 < spc && 0 < count
    ensures forall r :: s <= r < s + InCluster(s, spc, count) ==> ClusterIndex(r, spc) == ClusterIndex(s, spc)
    ensures var n := InCluster(s, spc, count); n < count ==> ClusterIndex(s + n, spc) == ClusterIndex(s, spc) + 1
  {
    var n := InCluster(s, spc, count);
    InClusterIs(s, spc, count);
    hide ClusterIndex, ClusterOffset, SectorsIn, InCluster;
    SplitSector(s, spc);
    forall r | s <= r < s + n
      ensures ClusterIndex(r, spc) == ClusterIndex(s, spc)
    {
      JoinSector(ClusterIndex(s, spc), ClusterOffset(s, spc) + (r - s), spc);
    }
    if n < count {
      SectorsNext(ClusterIndex(s, spc), spc);
      JoinSector(ClusterIndex(s, spc) + 1, 0, spc);
    }
  }

  lemma SectorsNext(i: nat, spc: nat)
    ensures SectorsIn(i + 1, spc) == SectorsIn(i, spc) + spc
  {
  }

  /** Clusters that _write_sectors asks for when it has to grow the file for `count` sectors. */
  function ClustersNeeded(count: nat, spc: nat): nat
    requires 0 < spc
  {
    (count + spc - 1) / spc
  }

  /** They are enough for the transfer, and no more than the sectors need. */
  lemma NeededIsEnough(count: nat, spc: nat)
    requires 0 < spc && 0 < count
    ensures ClustersNeeded(count, spc) > 0
    ensures count <= SectorsIn(ClustersNeeded(count, spc), spc) < count + spc
  {
    SplitSector(count + spc - 1, spc);
  }

  /** Fewer sectors need fewer clusters. */
  lemma SectorsMonotoneBack(i: nat, j: nat, spc: nat)
    requires SectorsIn(i, spc) < SectorsIn(j, spc) + spc
    ensures i <= j
  {
    if j < i {
      SectorsMonotone(j, i, spc);
    }
  }

  /** A file of `length` bytes fits in `capacity` clusters. */
  ghost predicate Fits(length: nat, capacity: nat, spc: nat)
  {
    length <= 512 * SectorsIn(capacity, spc)
  }

  /** If there is room for the whole file there is room for growing it by `count` sectors of it. */
  lemma RoomToGrow(length: nat, clusters: nat, capacity: nat, spc: nat, count: nat)
    requires 0 < spc && 0 < count && Fits(length, capacity, spc)
    requires 512 * (SectorsIn(clusters, spc) + count - 1) < length
    ensures clusters + ClustersNeeded(count, spc) <= capacity
  {
    NeededIsEnough(count, spc);
    var k := ClustersNeeded(count, spc);
    assert SectorsIn(clusters + k, spc) == SectorsIn(clusters, spc) + SectorsIn(k, spc);
    SectorsMonotoneBack(clusters + k, capacity, spc);
  }

  lemma RoomForAll(length: nat, clusters: nat, capacity: nat, spc: nat)
    requires length <= 512 * SectorsIn(clusters, spc) && clusters <= capacity
    ensures Fits(length, capacity, spc)
  {
    Arith.TimesMonotone(spc, clusters, capacity);
  }

  /** Which sectors have a cluster. */
  lemma SectorHasCluster(s: nat, spc: nat, count: nat, clusters: nat)
    requires 0 < spc && s <= SectorsIn(clusters, spc)
    ensures s < SectorsIn(clusters, spc) <==> ClusterIndex(s, spc) < clusters
    ensures s == SectorsIn(clusters, spc) <==> ClusterIndex(s, spc) == clusters
    ensures s == SectorsIn(clusters, spc) ==> ClusterOffset(s, spc) == 0
    ensures s < SectorsIn(clusters, spc) ==> s + InCluster(s, spc, count) <= SectorsIn(clusters, spc)
  {
    SplitSector(s, spc);
    if ClusterIndex(s, spc) < clusters {
      SectorsMonotone(ClusterIndex(s, spc), clusters, spc);
    } else if clusters < ClusterIndex(s, spc) {
      SectorsMonotone(clusters, ClusterIndex(s, spc), spc);
    }
    JoinSector(clusters, 0, spc);
  }

  // ---------------------------------------------------------------------------------------
  // Two files on a volume
  // ---------------------------------------------------------------------------------------

  /** What the mounted volume fixes: where allocation starts to look, where data sectors start, how
      many make a cluster, and the first cluster number that is not on the disk. */
  datatype Volume = Volume(fatType: FatType, root: nat, start: nat, spc: nat, limit: nat)

  /** The file in `clusters` with sectors `data`, and any other chain with its sectors, on a volume
      whose two reserved FAT entries are not blank. Entries from `limit` on may be blank or not. */
  ghost predicate FilesOn(v: Volume, f: Fat, disk: seq<Sector>, clusters: seq<nat>, data: seq<Sector>,
                          other: seq<nat>, otherData: seq<Sector>)
  {
    && |f| <= LAST_CLUSTER && 2 <= v.limit <= LinkLimit(v.fatType) && v.limit <= |f|
    && 0 < v.spc && ClusterLba(v.start, v.spc, v.limit) <= |disk|
    && NoneReserved(v.fatType, f, v.root, v.limit)
    && IsChain(v.fatType, f, clusters)
    && (forall i :: 0 <= i < |clusters| ==> clusters[i] < v.limit)
    && Mirrors(disk, v.start, v.spc, clusters, data)
    && (other != [] ==> IsChain(v.fatType, f, other))
    && Disjoint(other, clusters)
    && Mirrors(disk, v.start, v.spc, other, otherData)
  }

  lemma FilesKept(v: Volume, f: Fat, disk: seq<Sector>, disk': seq<Sector>, clusters: seq<nat>, data: seq<Sector>,
                  other: seq<nat>, otherData: seq<Sector>)
    requires FilesOn(v, f, disk, clusters, data, other, otherData)
    requires |disk'| == |disk| && forall l :: v.start <= l < |disk| ==> disk'[l] == disk[l]
    ensures FilesOn(v, f, disk', clusters, data, other, otherData)
  {
    hide Mirrors, IsChain, NoneReserved, ClusterLba;
    MirrorKept(disk, disk', v.start, v.spc, clusters, data);
    MirrorKept(disk, disk', v.start, v.spc, other, otherData);
  }

  /** Either of the two can be taken for the file. */
  lemma FilesSwapped(v: Volume, f: Fat, disk: seq<Sector>, clusters: seq<nat>, data: seq<Sector>,
                     other: seq<nat>, otherData: seq<Sector>)
    requires FilesOn(v, f, disk, clusters, data, other, otherData) && other != [] && AllIn(other, 2, v.limit)
    ensures FilesOn(v, f, disk, other, otherData, clusters, data)
  {
    hide Mirrors, IsChain, NoneReserved, ClusterLba;
    assert IsChain(v.fatType, f, other);
  }

  /** Growing the file: its chain and its sectors are extended, the other chain is left alone. */
  lemma FilesGrow(v: Volume, f: Fat, disk: seq<Sector>, clusters: seq<nat>, data: seq<Sector>,
                  other: seq<nat>, otherData: seq<Sector>, count: nat) returns (data': seq<Sector>)
    requires FilesOn(v, f, disk, clusters, data, other, otherData)
    requires count <= Blanks(v.fatType, f, v.root, v.limit)
    ensures var g := Grow(v.fatType, f, v.root, clusters[|clusters| - 1], count);
      && g.complete && |g.added| == count
      && FilesOn(v, g.fat, disk, clusters + g.added, data', other, otherData)
      && Blanks(v.fatType, g.fat, v.root, v.limit) == Blanks(v.fatType, f, v.root, v.limit) - count
      && data <= data'
  {
    var t, tail := v.fatType, clusters[|clusters| - 1];
    var g := Grow(t, f, v.root, tail, count);
    ChainHasNoBlank(t, f, clusters, |clusters| - 1);
    assert forall i :: 0 <= i < |clusters| ==> 2 <= clusters[i];
    assert tail < |f|;
    hide Grow, Blanks, LowestBlank, IsBlank, Mirrors, IsChain, ClusterLba, SectorsIn;
    GrowAmount(t, f, v.root, tail, count, v.limit);
    GrowExtendsChain(t, f, v.root, clusters, count, v.limit);
    GrowWithin(t, f, v.root, tail, count, v.limit);
    GrowBlanks(t, f, v.root, tail, count, v.limit);
    if other != [] {
      GrowKeepsOtherChains(t, f, v.root, clusters, count, other, v.limit);
    }
    data' := MirrorGrows(disk, v.start, v.spc, clusters, data, g.added, v.limit);
  }

  lemma ChainIsDistinct(t: FatType, f: Fat, cs: seq<nat>)
    requires IsChain(t, f, cs)
    ensures Distinct(cs)
  {
  }

  /** Writing a run of sectors inside one cluster of the file. */
  lemma FilesWritten(v: Volume, f: Fat, disk: seq<Sector>, disk': seq<Sector>, clusters: seq<nat>,
                     data: seq<Sector>, data': seq<Sector>, other: seq<nat>, otherData: seq<Sector>, s: nat, n: nat)
    requires FilesOn(v, f, disk, clusters, data, other, otherData)
    requires 0 < n && s + n <= |data| && ClusterOffset(s, v.spc) + n <= v.spc && ClusterIndex(s, v.spc) < |clusters|
    requires |disk'| == |disk| && |data'| == |data|
    requires var lba := SectorLba(v.start, v.spc, clusters, s);
      && 0 <= lba && lba + n <= |disk|
      && (forall l :: 0 <= l < |disk| && !(lba <= l < lba + n) ==> disk'[l] == disk[l])
      && (forall l :: lba <= l < lba + n ==> disk'[l] == data'[s + l - lba])
    requires forall s' :: 0 <= s' < |data| && !(s <= s' < s + n) ==> data'[s'] == data[s']
    ensures FilesOn(v, f, disk', clusters, data', other, otherData)
  {
    hide Mirrors, NoneReserved, IsChain, Link, SectorLba, ClusterIndex, ClusterOffset;
    ChainIsDistinct(v.fatType, f, clusters);
    MirrorWritten(disk, disk', v.start, v.spc, clusters, data, data', s, n);
    MirrorUntouched(disk, disk', v.start, v.spc, clusters, s, n, other, otherData);
  }

  // ---------------------------------------------------------------------------------------
  // The bytes of a file
  // ---------------------------------------------------------------------------------------

  function ReplacedAt(data: seq<Sector>, offset: nat, buf: seq<byte>, n: nat, s: nat): Sector
    requires offset + n <= |data| && 512 * n <= |buf| && s < |data|
  {
    if offset <= s < offset + n then Chunk(buf, 512 * (s - offset)) else data[s]
  }

  /** The sectors of a file after `n` of them were overwritten from a buffer. */
  function Replaced(data: seq<Sector>, offset: nat, buf: seq<byte>, n: nat): (r: seq<Sector>)
    requires offset + n <= |data| && 512 * n <= |buf|
    ensures |r| == |data|
    ensures forall s :: offset <= s < offset + n ==> r[s] == Chunk(buf, 512 * (s - offset))
    ensures forall s :: 0 <= s < |data| && !(offset <= s < offset + n) ==> r[s] == data[s]
  {
    seq(|data|, s requires 0 <= s < |data| => ReplacedAt(data, offset, buf, n, s))
  }

  /** Byte `p` of a file: from the sector buffer if it holds that sector, else from the disk. */
  function ByteAt(data: seq<Sector>, address: int, buffer: seq<byte>, p: nat): byte
    requires |buffer| == 512
  {
    if p / 512 == address then buffer[p % 512]
    else if p / 512 < |data| then data[p / 512][p % 512]
    else 0
  }

  function Bytes(data: seq<Sector>, address: int, buffer: seq<byte>, length: nat): (r: seq<byte>)
    requires |buffer| == 512
    ensures |r| == length
  {
    seq(length, p requires 0 <= p < length => ByteAt(data, address, buffer, p))
  }

  /** The first `length` bytes of a file's sectors. */
  function Contents(data: seq<Sector>, length: nat): (r: seq<byte>)
    requires length <= 512 * |data|
    ensures |r| == length
  {
    seq(length, p requires 0 <= p < length => data[p / 512][p % 512])
  }

  lemma ContentsAre(data: seq<Sector>, buffer: seq<byte>, length: nat)
    requires |buffer| == 512 && length < 0x1_0000_0000 && length <= 512 * |data|
    ensures Bytes(data, NO_SECTOR, buffer, length) == Contents(data, length)
  {
  }

  /** No sector has this number: the largest sector of a 32-bit file is far below it. */
  const NO_SECTOR: uint32 := 0xFFFF_FFFF

  function Max(a: nat, b: nat): nat
  {
    if a < b then b else a
  }

  /** Every byte below `length` has a sector on the disk, or lies in the buffer in front of the
      sector that would come next. */
  predicate Covered(sectors: nat, address: int, dirty: bool, length: nat)
  {
    length <= 512 * sectors || (dirty && address == sectors && length <= 512 * (address + 1))
  }

  /** What writing does to a plain byte sequence: bytes from `pos` on are replaced, and the sequence
      grows if they reach beyond its end. */
  function Overwrite(bytes: seq<byte>, pos: nat, src: seq<byte>): (r: seq<byte>)
    requires pos <= |bytes|
    ensures |r| == Max(|bytes|, pos + |src|)
  {
    bytes[..pos] + src + (if pos + |src| < |bytes| then bytes[pos + |src|..] else [])
  }

  /** Writing in two pieces is writing at once. */
  lemma OverwriteTwice(bytes: seq<byte>, pos: nat, a: seq<byte>, b: seq<byte>)
    requires pos <= |bytes|
    ensures Overwrite(Overwrite(bytes, pos, a), pos + |a|, b) == Overwrite(bytes, pos, a + b)
  {
    var l, r := Overwrite(Overwrite(bytes, pos, a), pos + |a|, b), Overwrite(bytes, pos, a + b);
    forall i | 0 <= i < |l|
      ensures l[i] == r[i]
    {
    }
  }

  /** What is visible when the first `done` bytes of `src` have been written. */
  ghost predicate Progress(now: seq<byte>, bytes: seq<byte>, pos: nat, src: seq<byte>, done: nat)
    requires pos <= |bytes| && done <= |src|
  {
    now == Overwrite(bytes, pos, src[..done])
  }

  lemma ProgressStarts(bytes: seq<byte>, pos: nat, src: seq<byte>)
    requires pos <= |bytes|
    ensures Progress(bytes, bytes, pos, src, 0)
  {
    OverwriteNothing(bytes, pos);
  }

  lemma ProgressGoesOn(was: seq<byte>, now: seq<byte>, bytes: seq<byte>, pos: nat, src: seq<byte>, done: nat, n: nat)
    requires pos <= |bytes| && done + n <= |src| && pos + done <= |was|
    requires Progress(was, bytes, pos, src, done)
    requires now == Overwrite(was, pos + done, src[done..][..n])
    ensures Progress(now, bytes, pos, src, done + n)
  {
    OverwriteTwice(bytes, pos, src[..done], src[done..][..n]);
    assert src[..done] + src[done..][..n] == src[..done + n];
  }

  lemma ProgressEnds(now: seq<byte>, bytes: seq<byte>, pos: nat, src: seq<byte>)
    requires pos <= |bytes| && Progress(now, bytes, pos, src, |src|)
    ensures now == Overwrite(bytes, pos, src)
  {
    assert src[..|src|] == src;
  }

  lemma OverwriteNothing(bytes: seq<byte>, pos: nat)
    requires pos <= |bytes|
    ensures Overwrite(bytes, pos, []) == bytes
  {
    assert bytes[..pos] + bytes[pos..] == bytes;
  }

  /** Without a buffer, or with a clean one, the bytes are those of the disk sectors. */
  lemma CleanBuffer(data: seq<Sector>, address: int, buffer: seq<byte>, address': int, buffer': seq<byte>, length: nat)
    requires |buffer| == 512 == |buffer'| && length <= 0x1_0000_0000 && length <= 512 * |data|
    requires address == NO_SECTOR || (0 <= address < |data| && data[address] == buffer)
    requires address' == NO_SECTOR || (0 <= address' < |data| && data[address'] == buffer')
    ensures Bytes(data, address, buffer, length) == Bytes(data, address', buffer', length)
  {
  }

  /** Writing the buffer back changes no byte of the file. */
  lemma FlushKeepsBytes(data: seq<Sector>, data': seq<Sector>, address: nat, buffer: seq<byte>, length: nat)
    requires |buffer| == 512 && address < |data'| && |data| <= |data'| && data'[address] == buffer
    requires forall s :: 0 <= s < |data| && s != address ==> data'[s] == data[s]
    requires Covered(|data|, address, true, length)
    ensures Bytes(data', address, buffer, length) == Bytes(data, address, buffer, length)
  {
  }

  lemma Glue(dst: seq<byte>, src: seq<byte>, i: nat, j: nat, a: nat, b: nat, c: nat)
    requires i <= j <= |dst| && a <= b <= c <= |src|
    requires dst[..i] == src[a..b] && dst[i..j] == src[b..c]
    ensures dst[..j] == src[a..c]
  {
    assert dst[..j] == dst[..i] + dst[i..j];
    assert src[a..c] == src[a..b] + src[b..c];
  }

  /** The first `done` bytes of `dst` are those of `bytes` from `pos` on. */
  ghost predicate Delivered(dst: seq<byte>, bytes: seq<byte>, pos: nat, done: nat)
    requires done <= |dst| && pos + done <= |bytes|
  {
    dst[..done] == bytes[pos..pos + done]
  }

  lemma NothingDelivered(dst: seq<byte>, bytes: seq<byte>, pos: nat)
    requires pos <= |bytes|
    ensures Delivered(dst, bytes, pos, 0)
  {
  }

  lemma DeliveredGoesOn(was: seq<byte>, dst: seq<byte>, bytes: seq<byte>, pos: nat, done: nat, n: nat)
    requires done + n <= |dst| == |was| && pos + done + n <= |bytes|
    requires Delivered(was, bytes, pos, done) && dst[..done] == was[..done]
    requires dst[done..done + n] == bytes[pos + done..pos + done + n]
    ensures Delivered(dst, bytes, pos, done + n)
  {
    Glue(dst, bytes, done, done + n, pos, pos + done, pos + done + n);
  }

  /** Whole sectors read straight from the disk, none of which is buffered. */
  lemma DirectRead(data: seq<Sector>, address: int, buffer: seq<byte>, length: nat, s: nat, n: nat, dst: seq<byte>,
                   at: nat)
    requires |buffer| == 512 && s + n <= |data| && 512 * (s + n) <= length && at + 512 * n <= |dst|
    requires !(s <= address < s + n)
    requires forall t :: s <= t < s + n ==> Chunk(dst, at + 512 * (t - s)) == data[t]
    ensures dst[at..at + 512 * n] == Bytes(data, address, buffer, length)[512 * s..512 * (s + n)]
  {
    var l, r := dst[at..at + 512 * n], Bytes(data, address, buffer, length)[512 * s..512 * (s + n)];
    forall i | 0 <= i < |l|
      ensures l[i] == r[i]
    {
      var t := s + i / 512;
      assert Chunk(dst, at + 512 * (t - s)) == data[t];
      assert dst[at + i] == Chunk(dst, at + 512 * (t - s))[i % 512];
      assert (512 * s + i) / 512 == t;
    }
  }

  /** Part of the buffered sector. */
  lemma BufferedRead(data: seq<Sector>, buffer: seq<byte>, length: nat, s: nat, at: nat, count: nat)
    requires |buffer| == 512 && at + count <= 512 && 512 * s + at + count <= length
    ensures buffer[at..at + count] == Bytes(data, s, buffer, length)[512 * s + at..512 * s + at + count]
  {
  }

  /** Whole sectors written straight to the disk. */
  lemma DirectWrite(data: seq<Sector>, data': seq<Sector>, buffer: seq<byte>, length: nat, s: nat, src: seq<byte>,
                    n: nat)
    requires |buffer| == 512 && length <= 512 * |data| && 512 * s <= length && 512 * n <= |src|
    requires Max(length, 512 * (s + n)) <= 0x1_0000_0000
    requires |data| <= |data'| && s + n <= |data'|
    requires forall t :: s <= t < s + n ==> data'[t] == Chunk(src, 512 * (t - s))
    requires forall t :: 0 <= t < |data| && !(s <= t < s + n) ==> data'[t] == data[t]
    ensures Bytes(data', NO_SECTOR, buffer, Max(length, 512 * (s + n)))
         == Overwrite(Bytes(data, NO_SECTOR, buffer, length), 512 * s, src[..512 * n])
  {
    var l := Bytes(data', NO_SECTOR, buffer, Max(length, 512 * (s + n)));
    var r := Overwrite(Bytes(data, NO_SECTOR, buffer, length), 512 * s, src[..512 * n]);
    forall p | 0 <= p < |l|
      ensures l[p] == r[p]
    {
      var t := p / 512;
      if s <= t < s + n {
        assert data'[t] == Chunk(src, 512 * (t - s));
        assert data'[t][p % 512] == src[512 * (t - s) + p % 512];
      }
    }
  }

  /** A buffer of zeros stands for the sector after the last, of which no byte belongs to the file yet. */
  lemma FreshSector(data: seq<Sector>, address: int, buffer: seq<byte>, zeros: seq<byte>, length: nat)
    requires |buffer| == 512 == |zeros| && length <= 0x1_0000_0000 && length <= 512 * |data|
    requires address == NO_SECTOR || (0 <= address < |data| && data[address] == buffer)
    ensures Bytes(data, |data|, zeros, length) == Bytes(data, address, buffer, length)
  {
  }

  /** Part of a sector written into the buffer. A sector that does not exist yet counts as zeros. */
  lemma BufferedWrite(data: seq<Sector>, buffer: seq<byte>, buffer': seq<byte>, length: nat, s: nat, at: nat,
                      src: seq<byte>)
    requires |buffer| == 512 == |buffer'| && at + |src| <= 512
    requires 512 * s + at <= length
    requires length <= 512 * |data| || (s == |data| && length <= 512 * (s + 1))
    requires buffer' == buffer[..at] + src + buffer[at + |src|..]
    ensures Bytes(data, s, buffer', Max(length, 512 * s + at + |src|))
         == Overwrite(Bytes(data, s, buffer, length), 512 * s + at, src)
  {
    var pos := 512 * s + at;
    var l := Bytes(data, s, buffer', Max(length, pos + |src|));
    var r := Overwrite(Bytes(data, s, buffer, length), pos, src);
    forall p | 0 <= p < |l|
      ensures l[p] == r[p]
    {
      if p / 512 == s {
        assert p == 512 * s + p % 512;
      }
    }
  }
}
