/** From a name to an open file: the directory entry that was made for a chain opens that chain. */
module OpenByName {
  import opened FatWords
  import opened FatChains
  import opened FatTable
  import opened FileLayout
  import opened FileSpec
  import opened FileLib
  import opened LongNames
  import opened DirEntries
  import opened Directory

  /** The chain beside the directory is a file, and lies on the disk. */
  ghost predicate FileBeside(dir: DirChain) {
    dir.other != [] && AllIn(dir.other, 2, dir.limit)
  }

  /** The end of _open_file: start cluster and length are taken from the entry. */
  method OpenEntry(dir: DirChain, entry: Slot, mode: Mode) returns (f: FlFile)
    requires dir.Stored() && FileBeside(dir)
    requires ClusterOf(entry) == dir.other[0] && SizeOf(entry) <= 512 * |dir.otherData|
    ensures fresh(f) && fresh(f.fileDataSector) && f.fs == dir.fs && f.FileMode() == mode
    ensures f.Open() && f.State() == Plain(Contents(dir.otherData, SizeOf(entry)), 0)
  {
    hide FilesOn, FatFs.Valid, Bytes, FatFs.Table, ClusterOf, SizeOf;
    FilesSwapped(dir.Vol(), dir.fs.Table(), dir.fs.disk.sectors, dir.clusters, dir.data, dir.other, dir.otherData);
    f := new FlFile(dir.fs, mode.readable, mode.writable, mode.append, ClusterOf(entry), SizeOf(entry),
                    dir.other, dir.otherData, dir.limit, dir.clusters, dir.data);
    f.OpenedFile();
  }

  /**
   * A file is entered under a new name and opened by that name: the entry is made exactly if there is
   * room, it is the one that is found, and it opens the chain and the length it was made for.
   */
  method CreateAndOpen(dir: DirChain, filename: seq<byte>, shortfilename: seq<byte>, start: uint32, size: uint32,
                       wanted: seq<byte>, same: NameTest, mode: Mode) returns (ok: bool, f: FlFile?)
    requires dir.Stored() && FileBeside(dir) && start == dir.other[0] && size <= 512 * |dir.otherData|
    requires |shortfilename| == 11 && shortfilename[0] != BLANK && shortfilename[0] != DELETED
    requires 0 < |filename| <= 260 && NoZero(filename) && same(Cleaned(filename), wanted)
    requires Absent(dir.data, wanted, same)
    requires HasRun(dir.data, EntriesRequired(filename) + 1) || dir.Orderly(dir.fs.Table())
    modifies dir`clusters, dir`data, dir`address, dir.sector, dir.fs`head, dir.fs`chain, dir.fs`holder,
             dir.fs`pending, dir.fs`image, dir.fs.disk, dir.fs.pool
    ensures dir.Stored()
    ensures ok <==> HasRoom(old(dir.data), dir.Spare(old(dir.fs.Table())), dir.fs.sectorsPerCluster,
                            EntriesRequired(filename) + 1)
    ensures ok ==> f != null && f.Open() && f.State() == Plain(Contents(dir.otherData, size), 0)
  {
    hide *;
    f := null;
    ghost var at;
    ok, at := dir.AddFileEntry(filename, shortfilename, start, size, false);
    if ok {
      var found, entry;
      ghost var j, c;
      found, entry, j, c := dir.GetFileEntry(wanted, same);
      dir.AddedIsFound(old(dir.data), dir.Spare(old(dir.fs.Table())), at, filename, shortfilename, start, size, false,
                       c, wanted, same);
      OneMatch(c, dir.data, at + EntriesRequired(filename), found, j, wanted, same);
      Holding(entry, shortfilename, start, size);
      f := OpenEntry(dir, entry, mode);
    }
  }

  /** The first match is the only entry that the search can give. */
  lemma OneMatch(c: Cache, data: seq<Sector>, k: nat, found: bool, j: nat, wanted: seq<byte>, same: NameTest)
    requires |c.rows| == MAX_ENTRIES && c.count == 0 && k < 16 * |data|
    requires MatchesAt(c, data, k, wanted, same) && NoneBefore(c, data, k, wanted, same)
    requires found ==> j < 16 * |data| && MatchesAt(c, data, j, wanted, same) && NoneBefore(c, data, j, wanted, same)
    requires !found ==> NoneBefore(c, data, 16 * |data|, wanted, same)
    ensures found && j == k
  {
    hide MatchesAt;
  }

  lemma Holding(entry: Slot, shortfilename: seq<byte>, start: uint32, size: uint32)
    requires HoldsEntry(entry, shortfilename, start, size, false)
    ensures ClusterOf(entry) == start && SizeOf(entry) == size
  {
  }
}
