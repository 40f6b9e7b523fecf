# Verified model of FemtoRV support code and the vehicle forest exporter

Dafny models of six components of the repository, each following its source branch by branch, with
proofs of what the component is for.

- **FAT16/32 file library.** The write-back buffer chain in front of the on-disk FAT (`FatWords`,
  `FatTable`) is proved to be one plain array of links, whatever is buffered, evicted or failing. On
  that array `FatChains` and `FatRelease` treat allocation and release of cluster chains. `FileLayout`,
  `FileSpec` and `FileLib` carry this up to open files: every sequence of writes, reads, flushes and
  seeks behaves as on a plain byte sequence. `FileSession` closes the chain: mount, open, any calls,
  close, stated about the disk before and after alone; `FileLaws` tells what the calls mean to a program;
  `OpenByName` goes from a new name to the open file. `LongNames`, `DirEntries` and `Directory` treat long names
  and new directory entries; `HandleLists.dfy` the intrusive lists of file handles. Formats follow
  "FAT: General Overview of On-Disk Format", version 1.03.
- **Digits of pi.** `Arith`, `Primes` and `PiSeries` hold the number theory (Legendre, Kummer, exponents
  of primes), `PiLoops` and `PiDigits` the loops of the routine. The result: over exact fractions it
  returns decimals of the partial sum of its series, though it only ever adds up residues modulo prime
  powers.
- **Software FPU.** `FloatFormat`, `FloatSum` and `SoftFpu` compare shift, add and normalize steps on
  64-bit mantissas with exact sums and products rounded toward zero (IEEE 754-2008, section 4.3.2). They
  settle two questions left open in the source's comments (lines 383-385 and 420).
- **In-place list mergesort.** `Mergesort` is the specification on sequences, `ListSort` the pointer
  code on a heap.
- **Random-forest export.** `HeapTrees` and `ForestExport`: packed heap, padding, the evaluators and the
  two vote rules; `Accelerator`: the prediction unit in hardware, on the words the exporter writes.
- **Line drawing.** `LineDraw`: clipping with truncating division, measured against the exact line, then
  Bresenham's walk.

Code that updates state in place is modelled by classes and methods with loops, proved against
functions and invariants; the lemmas about those functions state what the code is for. `FatFs.Valid`,
`FlFile.Stored`, `DirChain.Stored`, `FatList.Valid` and `HandleTable.Valid` are the state invariants that
every operation keeps.

Where the code differs from what its comments or callers suggest, the model follows the code:

- a seek discards unwritten data (`FlFile.FSeek` has the exact condition, `FlFile.WriteSeekLoses` a run);
- a full volume whose FAT has blank entries behind its last cluster is not seen to be full
  (`FatChains.GrowStaysBelow` has the exact condition);
- `pow_mod` gives 1 for exponent 0 and modulus 1, which its caller never asks for;
- `is_prime` is wrong on 1 and 2, which its caller never asks about;
- FADD and FSUB of opposite effective signs with an exponent gap above 47 return the larger operand,
  one unit too large in magnitude for rounding toward zero (`SoftFpu.AddTooLarge`), and fused operations
  have such cases as well (`SoftFpu.FusedGap`, `SoftFpu.FusedTooLarge`);
- the tolerance of the forest exporter lets a threshold slightly below an even number of halves through
  and changes its meaning;
- a sum of -0 and +0 is -0, where IEEE 754-2008, section 6.3, asks for +0;
- a long name with the byte 0xFF reads back with a space;
- `fatfs_add_file_entry` can fail after a new cluster was added, when one cluster is too small for the
  slots of the name, and then leaves part of the slots behind (`DirChain.AddFileEntry` has the exact
  condition, `Directory.LongNameFails` the cases).

## Model

| member | source | states |
|---|---|---|
| `FatTable.FatFs.FatInit` | FemtoRV/FIRMWARE/LIBFEMTORV32/fat_io_lib/fat_table.c:60-79 | from any leftover buffer contents, initialization gives a state that meets the buffer invariant and whose FAT is the one on the disk; the disk is not touched |
| `FatTable.FatFs.Writeback` | FemtoRV/FIRMWARE/LIBFEMTORV32/fat_io_lib/fat_table.c:83-112 | a dirty buffer reaches the disk or stays dirty; in both cases the FAT the library stands for is unchanged, failing media included |
| `FatTable.FatFs.FindOrUnhook` | FemtoRV/FIRMWARE/LIBFEMTORV32/fat_io_lib/fat_table.c:116-147 | the walk along the chain finds the one buffer that holds the sector, or unhooks the last buffer when none does |
| `FatTable.FatFs.ReadSector` | FemtoRV/FIRMWARE/LIBFEMTORV32/fat_io_lib/fat_table.c:116-175 | after a successful read exactly one buffer holds the sector, the chain again visits every buffer once, and neither eviction, writeback nor a failed read changes the FAT |
| `FatTable.FatFs.OneBufferPerSector` | FemtoRV/FIRMWARE/LIBFEMTORV32/fat_io_lib/fat_table.c:116-175 | in every valid state two different buffers hold the same address only if it is the invalid one |
| `FatTable.FatFs.CleanBufferIsCurrent` | FemtoRV/FIRMWARE/LIBFEMTORV32/fat_io_lib/fat_table.c:83-112 | in every valid state a clean buffered FAT sector equals the disk |
| `FatTable.FatFs.Purge` | FemtoRV/FIRMWARE/LIBFEMTORV32/fat_io_lib/fat_table.c:179-195 | after a successful purge the FAT sectors on the disk are the FAT; a failed one leaves the FAT unchanged |
| `FatTable.FatFs.FindNextCluster` | FemtoRV/FIRMWARE/LIBFEMTORV32/fat_io_lib/fat_table.c:205-256 | reads one link of the plain FAT array, whatever is buffered: the entry (28 bits of it on FAT32), or 0xFFFFFFFF from 0xFFF8 or 0x0FFFFFF8 on; only a failed read gives anything else, and then the end-of-chain value |
| `FatChains.AnyEndMark` | FemtoRV/FIRMWARE/LIBFEMTORV32/fat_io_lib/fat_table.c:234-251 | a chain stays a chain when any other end mark, with any top bits on FAT32, is put at its end |
| `FatChains.AnyTopBits` | FemtoRV/FIRMWARE/LIBFEMTORV32/fat_io_lib/fat_table.c:244-247 | the top four bits of FAT32 entries make no difference to a chain and its links |
| `FatWords.EntryInBytes` | FemtoRV/FIRMWARE/LIBFEMTORV32/fat_io_lib/fat_table.c:226-247 | entry c of the FAT is the little-endian word of 2 or 4 bytes at byte 2c or 4c of its sectors |
| `FatTable.FatFs.SetCluster` | FemtoRV/FIRMWARE/LIBFEMTORV32/fat_io_lib/fat_table.c:349-383 | a point update of the plain FAT array, with the low 16 bits on FAT16 and all 32 on FAT32, or, when the sector cannot be read, no change at all |
| `FatWords.EntriesUpdate` | FemtoRV/FIRMWARE/LIBFEMTORV32/fat_io_lib/fat_table.c:349-383 | writing the bytes of one entry changes exactly that entry of the FAT, at 16 and at 32 bits |
| `FatTable.FatFs.FindBlankCluster` | FemtoRV/FIRMWARE/LIBFEMTORV32/fat_io_lib/fat_table.c:288-342 | finds the lowest blank entry from the given one on, and reports none only if there is none |
| `FatTable.FatFs.SetInfoNextFreeCluster` | FemtoRV/FIRMWARE/LIBFEMTORV32/fat_io_lib/fat_table.c:260-283 | on FAT32 the hint is stored in word 492 of the FSINFO sector on the disk and remembered, on FAT16 nothing happens; writing through a shared buffer disturbs neither the FAT nor anything else on the disk |
| `FatTable.FatFs.FreeClusterChain` | FemtoRV/FIRMWARE/LIBFEMTORV32/fat_io_lib/fat_table.c:389-407 | terminates on every FAT with links in range, cyclic and self-linked chains and failing media included; on reliable media it is the release of the chain on the plain array |
| `FatRelease.ReleaseClearsReachable` | FemtoRV/FIRMWARE/LIBFEMTORV32/fat_io_lib/fat_table.c:389-407 | releasing from a cluster zeroes exactly the clusters that can be reached from it by following links |
| `FatRelease.ReleaseChain` | FemtoRV/FIRMWARE/LIBFEMTORV32/fat_io_lib/fat_table.c:389-407 | on a chain, releasing zeroes exactly its clusters |
| `FatRelease.ReleaseRestoresCount` | FemtoRV/FIRMWARE/LIBFEMTORV32/fat_io_lib/fat_table.c:389-407 | freeing a chain raises the reported number of free clusters by exactly its length |
| `FatTable.FatFs.AddClusterToChain` | FemtoRV/FIRMWARE/LIBFEMTORV32/fat_io_lib/fat_table.c:413-440 | the new entry is linked behind the last cluster of the chain and ends it; on reliable media fails exactly for an empty start or a chain that runs into a free entry; on failing media no entry but those of the chain and the new one changes |
| `FatTable.FatFs.CountFreeClusters` | FemtoRV/FIRMWARE/LIBFEMTORV32/fat_io_lib/fat_table.c:446-478 | counts exactly the zero entries of the FAT, dirty buffers included |
| `FatTable.FatFs.AddFreeSpace` | FemtoRV/FIRMWARE/LIBFEMTORV32/fat_io_lib/fat_write.c:45-76 | allocation on buffers and disk is the growth of a chain on the plain FAT array, with the same success and the same first new cluster; on FAT32 the hint is reset |
| `FatChains.GrowAmount` | FemtoRV/FIRMWARE/LIBFEMTORV32/fat_io_lib/fat_write.c:45-76 | as many clusters are added as asked for or as are blank; success means all; no other entry changes |
| `FatChains.GrowTakesLowest` | FemtoRV/FIRMWARE/LIBFEMTORV32/fat_io_lib/fat_write.c:45-76 | each added cluster is the lowest blank one at its turn, so together they are the first blanks of the old FAT in increasing order |
| `FatChains.GrowExtendsChain` | FemtoRV/FIRMWARE/LIBFEMTORV32/fat_io_lib/fat_write.c:45-76 | a chain grown at its tail is the old chain followed by the added clusters, and still a chain, also when space runs out part way |
| `FatChains.GrowKeepsOtherChains` | FemtoRV/FIRMWARE/LIBFEMTORV32/fat_io_lib/fat_write.c:45-76 | every chain disjoint from the grown one is still a chain and still disjoint |
| `FatChains.GrowConserves` | FemtoRV/FIRMWARE/LIBFEMTORV32/fat_io_lib/fat_write.c:45-76 | the reported number of free clusters drops by exactly the number of clusters handed out (on FAT32: blank entries having zero top bits) |
| `FatChains.GrowStaysBelow` | FemtoRV/FIRMWARE/LIBFEMTORV32/fat_io_lib/fat_write.c:45-76 | the search knows no last cluster: for any limit, such as the first cluster number that is not on the disk, a cluster at or above it is handed out exactly when the blank entries below are fewer than asked for and there are blank entries from it on |
| `FileLib.FlFile.LookupForRead` | FemtoRV/FIRMWARE/LIBFEMTORV32/fat_io_lib/fat_filelib.c:557-613 | in every state that keeps the lookup invariant, the recorded cluster, the step from the one before, and the walk from the start give the same cluster of the chain; the sentinel index plus one wraps to 0 harmlessly |
| `FileLib.FlFile.LookupForWrite` | FemtoRV/FIRMWARE/LIBFEMTORV32/fat_io_lib/fat_filelib.c:817-869 | the same for writing, which also learns the last cluster when the chain is just too short |
| `FileLib.FlFile.ReadSectors` | FemtoRV/FIRMWARE/LIBFEMTORV32/fat_io_lib/fat_filelib.c:549-623 | reads sectors of the file up to the end of their cluster, and none at the end of the chain |
| `FileLib.FlFile.GrowFile` | FemtoRV/FIRMWARE/LIBFEMTORV32/fat_io_lib/fat_filelib.c:844-869 | growth on demand extends the chain and its sectors, keeps the old ones, and leaves any other file alone |
| `FileLib.FlFile.WriteSectors` | FemtoRV/FIRMWARE/LIBFEMTORV32/fat_io_lib/fat_filelib.c:807-890 | writes exactly the given sectors of the file up to the end of their cluster, growing the chain when they start at its end |
| `FileLayout.InClusterMaximal` | FemtoRV/FIRMWARE/LIBFEMTORV32/fat_io_lib/fat_filelib.c:815-830 | a transfer moves as much as one can: its sectors lie in one cluster, and only the request or the end of that cluster ends it |
| `FileLib.FlFile.FFlush` | FemtoRV/FIRMWARE/LIBFEMTORV32/fat_io_lib/fat_filelib.c:895-919 | the buffered sector goes to the disk; the bytes of the file do not change |
| `FileLib.FlFile.FRead` | FemtoRV/FIRMWARE/LIBFEMTORV32/fat_io_lib/fat_filelib.c:1012-1109 | returns exactly the bytes at the cursor, as many as size times length asks for or as there are, across buffered parts, direct transfers and cluster boundaries, and leaves the file as it is; -1 exactly if the file is not readable or something is asked for at or behind the end |
| `FileLaws.ReadMeaning` | FemtoRV/FIRMWARE/LIBFEMTORV32/fat_io_lib/fat_filelib.c:1012-1109 | the same for the plain byte file |
| `FileLaws.ReadToEnd` | FemtoRV/FIRMWARE/LIBFEMTORV32/fat_io_lib/fat_filelib.c:1012-1109 | reading in pieces of any size until -1 delivers everything from the cursor on, whole and in order, in full pieces up to the last |
| `FileLib.FlFile.FWrite` | FemtoRV/FIRMWARE/LIBFEMTORV32/fat_io_lib/fat_filelib.c:1252-1393 | replaces the bytes from the cursor (or the end, in append mode) and extends the file if needed; every other byte stays |
| `FileLaws.WriteMeaning` | FemtoRV/FIRMWARE/LIBFEMTORV32/fat_io_lib/fat_filelib.c:1252-1393 | on the plain byte file a write replaces the bytes at the cursor, or in append mode is put at the end, and keeps all others |
| `FileLib.FlFile.FSeek` | FemtoRV/FIRMWARE/LIBFEMTORV32/fat_io_lib/fat_filelib.c:1114-1179 | moves the cursor to the target from the start, the cursor or the end, or to the nearer end of the file, or refuses and leaves it; it forgets the sector buffer, and the file keeps its bytes if and only if the buffer was clean or every byte of it inside the file is the one on the disk |
| `FileLaws.SeekMeaning` | FemtoRV/FIRMWARE/LIBFEMTORV32/fat_io_lib/fat_filelib.c:1132-1174 | the cursor and the reply of every seek on the plain byte file |
| `FileLaws.SeekToEnd` | FemtoRV/FIRMWARE/LIBFEMTORV32/fat_io_lib/fat_filelib.c:1168-1172 | a seek to the end and a write append; a seek to the end and a read give -1 |
| `FileLaws.SeekAndRead` | FemtoRV/FIRMWARE/LIBFEMTORV32/fat_io_lib/fat_filelib.c:1141-1167 | a relative seek inside the file and a read of one byte give the byte at that distance |
| `FileLib.FlFile.WriteSeekLoses` | FemtoRV/FIRMWARE/LIBFEMTORV32/fat_io_lib/fat_filelib.c:1114-1179 | a byte written at the start of a clean file, a seek back without a flush and a read give the old byte: the new one is gone |
| `FileSpec.DroppedBuffer` | FemtoRV/FIRMWARE/LIBFEMTORV32/fat_io_lib/fat_filelib.c:1132-1135 | what the bytes of a file are when a dirty buffer is dropped: the same exactly if its bytes inside the file are those of the disk sector |
| `FileSpec.WriteSeekRead` | FemtoRV/FIRMWARE/LIBFEMTORV32/fat_io_lib/fat_filelib.c:1012-1393 | on the plain byte file, reading after writing and seeking back gives the bytes written |
| `FileLib.FlFile.Run` | FemtoRV/FIRMWARE/LIBFEMTORV32/fat_io_lib/fat_filelib.c:549-623 | for every sequence of writes, reads, flushes and seeks (each seek after a flush) for which there are clusters enough on the disk, the open file and its replies are those of a plain byte sequence with a cursor, and any other chain of the volume keeps its sectors |
| `FileLib.FlFile.OpenedFile` | FemtoRV/FIRMWARE/LIBFEMTORV32/fat_io_lib/fat_filelib.c:376-386 | a file that has just been opened stands for the bytes the disk holds in its clusters, with the cursor at 0 |
| `FileSession.MountVolume` | FemtoRV/FIRMWARE/LIBFEMTORV32/fat_io_lib/fat_table.c:60-79 | with any number of buffers, mounting gives a valid state whose FAT is the one on the disk |
| `FileSession.BytePlace` | FemtoRV/FIRMWARE/LIBFEMTORV32/fat_io_lib/fat_access.c:196-202 | sector k of the i-th cluster c of a file is sector (c - 2) * spc + k of the data area, which on FAT16 begins behind the root directory |
| `FileSession.FormattedVolume` | FemtoRV/FIRMWARE/LIBFEMTORV32/fat_io_lib/fat_format.c:395-421 | a FAT32 volume as the formatter leaves it, with blank entries to the end of the FAT and beyond the clusters on the disk, meets what the file theorems ask for: its root directory can be given every other cluster on the disk |
| `FileSession.CloseFile` | FemtoRV/FIRMWARE/LIBFEMTORV32/fat_io_lib/fat_filelib.c:923-962 | after flush and purge the disk alone holds the bytes of the file, and the other chain as it was |
| `FileSession.Session` | FemtoRV/FIRMWARE/LIBFEMTORV32/fat_io_lib/fat_filelib.c:549-623 | from disk to disk: mount, open, any such calls, close; every reply is that of the plain byte sequence, and in the end the FAT and the data sectors on the disk hold that sequence, with the other chain as it was |
| `LongNames.FilenameToLfn` | FemtoRV/FIRMWARE/LIBFEMTORV32/fat_io_lib/fat_misc.c:207-244 | builds slot number entry of a name in place, all 32 bytes of it and no other |
| `LongNames.SlotLayout` | FemtoRV/FIRMWARE/LIBFEMTORV32/fat_io_lib/fat_misc.c:207-244 | a slot in numbers: its number, with 0x40 in the last slot of the name and no other, attribute, checksum, and which byte holds which character, zero or filling |
| `LongNames.LfnCache.Entry` | FemtoRV/FIRMWARE/LIBFEMTORV32/fat_io_lib/fat_misc.c:58-91 | absorbs one slot into the cache: its row, and the number of rows if it is the first |
| `LongNames.LfnCache.Get` | FemtoRV/FIRMWARE/LIBFEMTORV32/fat_io_lib/fat_misc.c:97-108 | terminates the name and hands out the characters up to the first zero |
| `LongNames.NameComesBack` | FemtoRV/FIRMWARE/LIBFEMTORV32/fat_io_lib/fat_misc.c:39-108 | for every name of 1 to 260 characters without a zero, and any old table, feeding its slots from last to first gives it back, 0xFF read as a space; lengths that are multiples of 13 included |
| `LongNames.RoundTripExact` | FemtoRV/FIRMWARE/LIBFEMTORV32/fat_io_lib/fat_misc.c:88-90 | the name comes back with 0x20 for 0xFF and every other character as it was, so exactly if and only if it has no 0xFF |
| `LongNames.WriteAndRead` | FemtoRV/FIRMWARE/LIBFEMTORV32/fat_io_lib/fat_misc.c:207-244 | the same through the buffers of the library: encode slot by slot, collect, read |
| `Directory.DirChain.SectorReader` | FemtoRV/FIRMWARE/LIBFEMTORV32/fat_io_lib/fat_access.c:221-270 | sector x of a cluster-chain directory, by the walk along its chain; fails exactly behind the last one |
| `Directory.DirChain.FindFreeDirOffset` | FemtoRV/FIRMWARE/LIBFEMTORV32/fat_io_lib/fat_write.c:130-262 | fails exactly if nothing is asked for, or the directory has no run and there is no free cluster; the run found starts at the beginning of the directory or right behind a live entry and holds no live entry and no long-name slot of one; it lies in the directory if that has a run, and else in its free end and one new, erased cluster |
| `Directory.DirChain.ZeroCluster` | FemtoRV/FIRMWARE/LIBFEMTORV32/fat_io_lib/fat_write.c:240-246 | every sector of the new cluster is erased, and no other sector of the directory |
| `DirEntries.RunIsFree` | FemtoRV/FIRMWARE/LIBFEMTORV32/fat_io_lib/fat_write.c:178-216 | a run that ends in a deleted or blank entry contains nothing of any live entry, though the search counts long-name slots as possible space |
| `DirEntries.GrownRunIsFree` | FemtoRV/FIRMWARE/LIBFEMTORV32/fat_io_lib/fat_write.c:228-258 | nor does a run that reaches the end of the directory and goes on in erased sectors |
| `DirEntries.RunMeaning` | FemtoRV/FIRMWARE/LIBFEMTORV32/fat_io_lib/fat_write.c:158-222 | in numbers: the search finds a run if and only if as many entries in a row are long-name slots or begin with 0x00 or 0xE5, the last of them no slot |
| `Directory.DirChain.AddFileEntry` | FemtoRV/FIRMWARE/LIBFEMTORV32/fat_io_lib/fat_write.c:266-372 | succeeds if and only if there is a name and the directory has a run for its slots, or a cluster is free that holds them together with the free entries at the end of the directory; on success the slots of the long name and the short entry are written, in order, into a free run and nowhere else, and when the new cluster is too small the part of them that fits |
| `Directory.OneClusterIsEnough` | FemtoRV/FIRMWARE/LIBFEMTORV32/fat_io_lib/fat_write.c:228-258 | with a free cluster every name of up to 260 characters succeeds, if a cluster has two sectors or more or the name up to 195 characters |
| `Directory.LongNameFails` | FemtoRV/FIRMWARE/LIBFEMTORV32/fat_io_lib/fat_write.c:228-258 | with single-sector clusters and a directory full of live entries every longer name fails, free clusters or not |
| `Directory.LongNameFailsOnce` | FemtoRV/FIRMWARE/LIBFEMTORV32/fat_io_lib/fat_write.c:228-258 | such a directory and a name of 196 characters, written out |
| `Directory.DirChain.EntriesStay` | FemtoRV/FIRMWARE/LIBFEMTORV32/fat_io_lib/fat_write.c:266-372 | whatever the outcome, every live short entry and each of its long-name slots is as it was |
| `Directory.DirChain.LiveEntryStays` | FemtoRV/FIRMWARE/LIBFEMTORV32/fat_io_lib/fat_write.c:266-372 | in numbers: an entry that begins with neither 0x00 nor 0xE5 and has not all four low attribute bits set stays as it was |
| `Directory.DirChain.EntryIsListed` | FemtoRV/FIRMWARE/LIBFEMTORV32/fat_io_lib/fat_access.c:437-459 | after success a reader of the directory that comes to the new short entry takes it for one with a long name, holds exactly that name, whatever its cache and the slots held before, and reads from the entry the short name, the kind, the start cluster (bytes 20 and 26) and the size (byte 28) it was made with; every slot carries the checksum of the short name |
| `Directory.ShortLayout` | FemtoRV/FIRMWARE/LIBFEMTORV32/fat_io_lib/fat_misc.c:252-281 | the short entry in numbers |
| `Directory.ChecksumTells` | FemtoRV/FIRMWARE/LIBFEMTORV32/fat_io_lib/fat_write.c:303-306 | short names that differ in one character have different checksums |
| `Directory.ChecksumOfReadme` | FemtoRV/FIRMWARE/LIBFEMTORV32/fat_io_lib/fat_write.c:303-306 | the checksum of README.TXT is 0x73 |
| `Directory.DirChain.GetFileEntry` | FemtoRV/FIRMWARE/LIBFEMTORV32/fat_io_lib/fat_access.c:407-505 | looking a name up gives the first entry whose name, long if it has one, matches, and none exactly if there is none |
| `DirEntries.MatchMeaning` | FemtoRV/FIRMWARE/LIBFEMTORV32/fat_io_lib/fat_misc.c:129-187 | in numbers: which entries can match at all |
| `DirEntries.ShortTextOf` | FemtoRV/FIRMWARE/LIBFEMTORV32/fat_io_lib/fat_access.c:463-487 | the text of a short entry with and without an extension, for README |
| `Directory.DirChain.AddedIsFound` | FemtoRV/FIRMWARE/LIBFEMTORV32/fat_io_lib/fat_access.c:407-505 | a name that was not in the directory is found after it has been added, at its new entry |
| `OpenByName.OpenEntry` | FemtoRV/FIRMWARE/LIBFEMTORV32/fat_io_lib/fat_filelib.c:369-389 | the entry opens the chain and the length it names |
| `OpenByName.CreateAndOpen` | FemtoRV/FIRMWARE/LIBFEMTORV32/fat_io_lib/fat_filelib.c:366-389 | a file entered under a new name and opened by that name is the chain and the length it was entered for |
| `LinkedLists.FatList.Remove` | FemtoRV/FIRMWARE/LIBFEMTORV32/fat_io_lib/fat_list.h:55-69 | unlinks one node; the rest stays a well-formed list in the same order, head, tail and both directions |
| `LinkedLists.FatList.InsertAfter` | FemtoRV/FIRMWARE/LIBFEMTORV32/fat_io_lib/fat_list.h:73-86 | links a new node behind a given one, and the list stays well-formed |
| `LinkedLists.FatList.InsertBefore` | FemtoRV/FIRMWARE/LIBFEMTORV32/fat_io_lib/fat_list.h:90-103 | links a new node before a given one, and the list stays well-formed |
| `LinkedLists.FatList.InsertLast` | FemtoRV/FIRMWARE/LIBFEMTORV32/fat_io_lib/fat_list.h:125-134 | appends a node, to an empty list as well |
| `LinkedLists.FatList.PopHead` | FemtoRV/FIRMWARE/LIBFEMTORV32/fat_io_lib/fat_list.h:147-158 | takes the first node off, or gives null and changes nothing |
| `FileHandles.HandleTable.constructor` | FemtoRV/FIRMWARE/LIBFEMTORV32/fat_io_lib/fat_filelib.c:632-644 | after initialization every handle is free, in order, and none is open |
| `FileHandles.HandleTable.Allocate` | FemtoRV/FIRMWARE/LIBFEMTORV32/fat_io_lib/fat_filelib.c:72-82 | the longest free handle becomes the last open one; fails exactly when all are open |
| `FileHandles.HandleTable.Free` | FemtoRV/FIRMWARE/LIBFEMTORV32/fat_io_lib/fat_filelib.c:109-116 | an open handle becomes the last free one |
| `FileHandles.HandleTable.Run` | FemtoRV/FIRMWARE/LIBFEMTORV32/fat_io_lib/fat_filelib.c:72-116 | after any sequence of allocations and releases of open handles both lists are well-formed, equal to the two queues of the plain model, and partition the handles |
| `FileHandles.RunKeepsHandles` | FemtoRV/FIRMWARE/LIBFEMTORV32/fat_io_lib/fat_filelib.c:72-116 | in that model no sequence of requests loses or duplicates a handle |
| `FileHandles.OldestFirst` | FemtoRV/FIRMWARE/LIBFEMTORV32/fat_io_lib/fat_filelib.c:72-116 | a released handle is handed out again only after all that were free before it |
| `PiLoops.InvMod` | FemtoRV/TUTORIALS/FROM_BLINKER_TO_RISCV/FIRMWARE/pi.c:39-62 | the result times x is congruent to gcd(x, y) modulo y and below y: an inverse exactly for coprime arguments, with C remainders of negative numbers |
| `PiLoops.PowMod` | FemtoRV/TUTORIALS/FROM_BLINKER_TO_RISCV/FIRMWARE/pi.c:66-81 | a^b modulo m, the base unreduced, if and only if m is above 1 or b above 0; for modulus 1 and exponent 0 it is 1 |
| `PiLoops.IsPrime` | FemtoRV/TUTORIALS/FROM_BLINKER_TO_RISCV/FIRMWARE/pi.c:85-97 | agrees with primality on every number except 1 and 2 |
| `PiLoops.NextPrime` | FemtoRV/TUTORIALS/FROM_BLINKER_TO_RISCV/FIRMWARE/pi.c:101-107 | terminates for every n, and gives the least prime above n if and only if n is at least 2 |
| `PiSeries.Legendre` | FemtoRV/TUTORIALS/FROM_BLINKER_TO_RISCV/FIRMWARE/pi.c:134-153 | the exponent of a prime in n! is n/a plus the exponent in (n/a)! |
| `PiSeries.Kummer` | FemtoRV/TUTORIALS/FROM_BLINKER_TO_RISCV/FIRMWARE/pi.c:120-169 | for every odd prime a and k up to N, v is the exponent of a in the central binomial coefficient, lies between 0 and vmax, and a^v is at most 2k |
| `PiLoops.NumeratorRound` | FemtoRV/TUTORIALS/FROM_BLINKER_TO_RISCV/FIRMWARE/pi.c:134-143 | kq counts k modulo a in 1..a; num stays k! without its factors a, and v loses exactly their number |
| `PiLoops.DenominatorRound` | FemtoRV/TUTORIALS/FROM_BLINKER_TO_RISCV/FIRMWARE/pi.c:145-156 | kq2 counts 2k-1 modulo a in 1..a+1; den stays (2k-1)!! without its factors a, and v gains exactly their number |
| `PiLoops.TermRound` | FemtoRV/TUTORIALS/FROM_BLINKER_TO_RISCV/FIRMWARE/pi.c:158-164 | den always has an inverse, and t is k * num / den * a^(vmax-v) modulo a^vmax |
| `PiSeries.SkippedTerm` | FemtoRV/TUTORIALS/FROM_BLINKER_TO_RISCV/FIRMWARE/pi.c:158-158 | where v is 0 the term is 0 modulo a^vmax, so skipping it is right |
| `PiSeries.TermUnique` | FemtoRV/TUTORIALS/FROM_BLINKER_TO_RISCV/FIRMWARE/pi.c:158-164 | the congruence that defines a term has one solution below the modulus |
| `PiLoops.PrimeSum` | FemtoRV/TUTORIALS/FROM_BLINKER_TO_RISCV/FIRMWARE/pi.c:125-169 | after the rounds of one prime s is the sum of the terms of 1..N modulo a^vmax, so (2N-1)!! times s is the numerator of the whole series times a^vmax, modulo a^vmax and the factors a of (2N-1)!!: no inverse, no removed factor and no skipped term is left in the statement |
| `PiLoops.ResidueUnique` | FemtoRV/TUTORIALS/FROM_BLINKER_TO_RISCV/FIRMWARE/pi.c:125-169 | that congruence has one solution below a^vmax, so it says which number s is |
| `PiSeries.SumCleared` | FemtoRV/TUTORIALS/FROM_BLINKER_TO_RISCV/FIRMWARE/pi.c:132-169 | (2N-1)!! times the sum of the terms is the numerator of the series times a^vmax, modulo a^vmax and all factors a of the denominator |
| `PiDigits.AllPrimesSettle` | FemtoRV/TUTORIALS/FROM_BLINKER_TO_RISCV/FIRMWARE/pi.c:118-175 | with every odd prime up to 2N treated, the collected fraction and the shifted series differ by an integer |
| `PiDigits.Digits` | FemtoRV/TUTORIALS/FROM_BLINKER_TO_RISCV/FIRMWARE/pi.c:110-177 | over exact fractions the routine returns nine decimals, from the n-th on, of the sum of k * k! / (2k-1)!! for k = 1..N |
| `SoftFpu.Clz` | FemtoRV/SIM/FPU_funcs.cpp:76-85 | 64 minus the place of the leading one, minus 1; 64 for zero |
| `SoftFpu.Normalize23` | FemtoRV/SIM/FPU_funcs.cpp:400-439 | the leading one comes to bit 23 with the exponent adjusted, or everything is flushed to zero |
| `FloatFormat.TruncatesUnique` | FemtoRV/SIM/FPU_funcs.cpp:226-229 | in the normal range at most one bit pattern is a number rounded toward zero |
| `FloatFormat.KnownValues` | FemtoRV/SIM/FPU_funcs.cpp:226-229 | the values of some well-known bit patterns, from 1 to the largest number |
| `FloatFormat.NormFloor` | FemtoRV/SIM/FPU_funcs.cpp:400-439 | normalizing a mantissa whose unit bounds the number from below rounds the number toward zero |
| `FloatFormat.NormCeiling` | FemtoRV/SIM/FPU_funcs.cpp:400-439 | when the number lies just below the mantissa, normalizing rounds it toward zero if and only if a bit of the mantissa is dropped |
| `SoftFpu.FPU.AddShift` | FemtoRV/SIM/FPU_funcs.cpp:362-371 | the test for a gap above 47 and the shift are one division by a power of two on 48-bit mantissas |
| `SoftFpu.ShiftKeepsOrder` | FemtoRV/SIM/FPU_funcs.cpp:383-392 | after ADD_SHIFT in FADD and FSUB the shifted mantissa never exceeds the other, so leaving out ADD_SWP_FRAC there is sound |
| `SoftFpu.AddNeverShiftsLeft` | FemtoRV/SIM/FPU_funcs.cpp:419-422 | a sum or difference of two operands is zero or has its leading one at bit 23 or above, so the left shift is for fused operations only |
| `SoftFpu.AddSub` | FemtoRV/SIM/FPU_funcs.cpp:508-528 | FADD and FSUB give the exact sum or difference rounded toward zero if and only if the effective signs agree, or the exponents are at most 47 apart, or an operand is zero; otherwise the larger operand unchanged; the sign is that of the exact result, and a zero is negative only for a negative zero and another zero |
| `SoftFpu.DifferenceTooLarge` | FemtoRV/SIM/FPU_funcs.cpp:361-380 | 2^50 is not 2^50 - 1 rounded toward zero, and the exponents of the operands are 50 apart |
| `SoftFpu.AddTooLarge` | FemtoRV/SIM/FPU_funcs.cpp:508-517 | FADD of 2^50 and -1 returns 2^50 |
| `FloatSum.AddedTruncates` | FemtoRV/SIM/FPU_funcs.cpp:339-392 | the add steps round the exact sum of any two loaded numbers toward zero if and only if signs agree, nothing is shifted out, or packing the difference drops a bit as well |
| `SoftFpu.FMul` | FemtoRV/SIM/FPU_funcs.cpp:530-535 | the exact product rounded toward zero, with the sign of the operands also when it is zero or flushed to zero |
| `SoftFpu.ProductIsExact` | FemtoRV/SIM/FPU_funcs.cpp:289-303 | the scaled product that FMUL is compared with is the product of the two scaled operands |
| `SoftFpu.FusedMultiplyAdd` | FemtoRV/SIM/FPU_funcs.cpp:456-506 | x*y+z with the signs of FMADD, FMSUB, FNMADD or FNMSUB is rounded toward zero once, always when the effective signs agree, and in general if and only if nothing is shifted out or packing the difference drops a bit as well; the sign is that of the exact result |
| `SoftFpu.FusedGap` | FemtoRV/SIM/FPU_funcs.cpp:456-506 | what the exponents alone decide when the signs disagree: z being the larger, equal exponents or a gap of 25 to 46 are right and a gap of 48 or more is wrong; the product being the larger, a gap of at most 24 is right, and from 48 on all depends on whether the product alone is inexact |
| `SoftFpu.FusedTooLarge` | FemtoRV/SIM/FPU_funcs.cpp:498-506 | FNMSUB of 1, 1 and 2^50 is not 2^50 - 1 rounded toward zero |
| `Mergesort.MergesortCorrect` | FemtoRV/TUTORIALS/FROM_BLINKER_TO_RISCV/FIRMWARE/COREMARK/core_list_join.c:499-595 | bottom-up mergesort sorts and keeps equal elements in order |
| `Mergesort.SortedStableUnique` | FemtoRV/TUTORIALS/FROM_BLINKER_TO_RISCV/FIRMWARE/COREMARK/core_list_join.c:477-498 | a sorted stable rearrangement is unique |
| `ListSort.MergeRuns` | FemtoRV/TUTORIALS/FROM_BLINKER_TO_RISCV/FIRMWARE/COREMARK/core_list_join.c:533-577 | merges two runs of linked nodes by rewriting next pointers, ties from the first run |
| `ListSort.OnePass` | FemtoRV/TUTORIALS/FROM_BLINKER_TO_RISCV/FIRMWARE/COREMARK/core_list_join.c:509-583 | one pass merges neighbouring runs of the whole list, ends it, and counts at most one merge exactly when the list is no longer than two runs |
| `ListSort.ListMergesort` | FemtoRV/TUTORIALS/FROM_BLINKER_TO_RISCV/FIRMWARE/COREMARK/core_list_join.c:500-595 | for every nonempty list of distinct nodes and comparison by a key it terminates with a list of exactly the same nodes, sorted and stable, no info touched |
| `ListSort.Reverse` | FemtoRV/TUTORIALS/FROM_BLINKER_TO_RISCV/FIRMWARE/COREMARK/core_list_join.c:465-476 | the same nodes, linked in reverse order |
| `ListSort.RemoveFromList` | FemtoRV/TUTORIALS/FROM_BLINKER_TO_RISCV/FIRMWARE/COREMARK/core_list_join.c:377-389 | the node behind item leaves the list, and the info of item leaves the sequence of infos |
| `ListSort.RemoveAndUndo` | FemtoRV/TUTORIALS/FROM_BLINKER_TO_RISCV/FIRMWARE/COREMARK/core_list_join.c:408-419 | undoing a remove puts back every pointer and every info |
| `HeapTrees.PackRoundTrip` | vehicle_experiment/scripts/10_export_cesar_vehicle.py:58-92 | decoding a packed node gives its three fields back |
| `ForestExport.PackNode` | vehicle_experiment/scripts/10_export_cesar_vehicle.py:58-92 | an error exactly outside the ranges; the word has the feature in bits 31 to 27, the threshold in 26 to 16, the class in 15 to 8 and zeros below |
| `HeapTrees.SplitMeaning` | vehicle_experiment/exports/vehicle_forest_model.h:100-110 | a tree of one split sends a feature of at most the threshold to the left |
| `ForestExport.FillLeafSubtree` | vehicle_experiment/scripts/10_export_cesar_vehicle.py:95-127 | all positions of the subtree below a leaf get its class, and no other position is written |
| `HeapTrees.SimulateFilled` | vehicle_experiment/scripts/10_export_cesar_vehicle.py:100-106 | a walk through such a subtree ends in that class, whatever the features |
| `ForestExport.WrittenInOrder` | vehicle_experiment/scripts/10_export_cesar_vehicle.py:208-226 | writing a node, its left and its right subtree: none of the three disturbs another |
| `ForestExport.ExportNode` | vehicle_experiment/scripts/10_export_cesar_vehicle.py:130-226 | the subtree is exported so that walks from its position give what it means, only its positions are written, and an error is raised exactly when it is too deep or a field is out of range |
| `ForestExport.ExportForest` | vehicle_experiment/scripts/10_export_cesar_vehicle.py:229-270 | the same for all trees, one behind the other |
| `ForestExport.SimulateTree` | vehicle_experiment/scripts/10_export_cesar_vehicle.py:285-323 | the loop of fixed length is the walk on the words of its tree |
| `HeapTrees.ThresholdExact` | vehicle_experiment/scripts/10_export_cesar_vehicle.py:186-206 | an accepted threshold compares alike with every natural feature if and only if its double was not rounded up to an even number |
| `HeapTrees.AcceptedThresholds` | vehicle_experiment/scripts/10_export_cesar_vehicle.py:186-206 | every multiple of 1/2 that fits the field is accepted and stored exactly, everything within 1e-5 of one as well, and nothing farther than 0.02048 from all of them |
| `ForestExport.ToleranceChangesMeaning` | vehicle_experiment/scripts/10_export_cesar_vehicle.py:191-199 | the tolerance accepts 0.999999, which then sends feature value 1 the other way |
| `ForestExport.ExportPreservesMeaning` | vehicle_experiment/scripts/10_export_cesar_vehicle.py:285-323 | for such thresholds the exported tree gives the class of the original tree for every feature vector |
| `ForestExport.EvaluateTree` | vehicle_experiment/exports/vehicle_forest_model.h:96-114 | the loop over a node array ends, with the class of the tree |
| `ForestExport.SimulateForest` | vehicle_experiment/scripts/10_export_cesar_vehicle.py:326-345 | the lowest class with the most votes |
| `ForestExport.RfPredict` | vehicle_experiment/exports/vehicle_forest_model.h:116-150 | the lowest class with the most votes, by counting and comparing |
| `ForestExport.PredictBoth` | vehicle_experiment/exports/vehicle_forest_model.h:116-150 | exported memory and node arrays predict the same class for every feature vector |
| `Accelerator.Unit.TraverseTree` | clean1/clean1.srcs/sources_1/imports/PROCESSOR/random_forest_vehicle.sv:53-93 | the walk in hardware, by the bit slices of the unit, is the walk of simulate_tree on the same words |
| `Accelerator.Unit.Predict` | clean1/clean1.srcs/sources_1/imports/PROCESSOR/random_forest_vehicle.sv:95-167 | the unit gives the first class with the most votes of its trees |
| `Accelerator.PredictOnChip` | clean1/clean1.srcs/sources_1/imports/PROCESSOR/random_forest_vehicle.sv:1-169 | a forest that is exported, loaded into the unit and started on doubled features gives the class of the original forest |
| `LineDraw.Intersect` | FemtoRV/FIRMWARE/LIBFEMTOGL/femtoGLline.c:45-58 | no division by zero; the new end is on a border, in the box of the two ends, and less than one pixel from the line |
| `LineDraw.Clip` | FemtoRV/FIRMWARE/LIBFEMTOGL/femtoGLline.c:31-70 | the loop ends; a rejected line is nowhere more than four pixels inside the window; an accepted one has both ends in the window, in order along the line, within four pixels of it and in the box of the original ends, and what was cut off is nowhere more than four pixels inside; an end that was inside is kept, and such a line is never rejected |
| `LineDraw.CutAt` | FemtoRV/FIRMWARE/LIBFEMTOGL/femtoGLline.c:45-60 | the new end is within a pixel of the segment, and the part it cuts off lies on or outside a border |
| `LineDraw.NothingDeep` | FemtoRV/FIRMWARE/LIBFEMTOGL/femtoGLline.c:38-41 | if both ends share an outcode bit after n rounds, the line is nowhere more than n pixels inside the window |
| `LineDraw.StepsAreDrawn` | FemtoRV/FIRMWARE/LIBFEMTOGL/femtoGLline.c:87-113 | every step of the walk sets a pixel that is exact in the longer direction and within half a pixel of the clipped line in the other |
| `LineDraw.PixelsAreNear` | FemtoRV/FIRMWARE/LIBFEMTOGL/femtoGLline.c:87-113 | every pixel set, the corners where the walk changes rows included, is within one pixel of the clipped line |
| `LineDraw.WalkColumns` | FemtoRV/FIRMWARE/LIBFEMTOGL/femtoGLline.c:101-112 | the error term picks those pixels, the inner loop runs at most once, and the walk ends at the second end |
| `LineDraw.WalkRows` | FemtoRV/FIRMWARE/LIBFEMTOGL/femtoGLline.c:89-100 | the same along rows |
| `LineDraw.Line` | FemtoRV/FIRMWARE/LIBFEMTOGL/femtoGLline.c:16-114 | every pixel set is in the window and within five pixels of the line asked for, every step has one within half a pixel of the clipped line, and the walk ends at its second end |

## Left out

- Bounds of the FAT: the library does not check link values or stop at the last data cluster; the model
  asks for links in range, chains below the reserved values, and the two reserved entries not blank.
  Blank entries behind the last cluster on the disk are allowed; what is left out is what the library
  does with a cluster number it takes from there.
- `FatFs` assumes a medium that can be written (`write_media` attached) and the default configuration:
  one sector per FAT buffer, no cluster cache, no locks. The `ptr` field of a buffer is not modelled.
- FileLib.FlFile.Run: asks for reliable media and enough free clusters on the disk, because the library
  takes a FAT sector it cannot read for the end of a chain; `fl_fwrite` reports full length even then.
- FileSession.CloseFile: the length of the file is returned, not written into its directory entry.
- FatTable.FatFs.AddClusterToChain: chains that do not end, on which the loop of the source does not
  either.
- FileLib.FlFile.FRead: lengths and positions stay below 2^32; overflow of `size * count` is not modelled.
- FileLib.FlFile.FSeek: a negative offset from the start is taken as an unsigned 32-bit number, as in the
  code.
- The bytes of a FAT buffer are one sequence value, replaced as a whole, where the source stores single
  bytes; the file's sector buffer, the directory's current sector and the caller's buffers are arrays.
- `fatfs_allocate_free_space`, the FAT16 root directory, deletion, listing, paths of more than one name,
  modes of `fl_fopen`, time stamps, short-name generation and formatting.
- Directory.DirChain.GetFileEntry: the comparison of two names (`fatfs_compare_names`) is a parameter.
- Accelerator.Unit.Predict: the clocks between start and ready; reset.
- Directory.DirChain.AddFileEntry: media are reliable, the short name is given, and if the directory has
  no run, the next cluster to be handed out is on the disk or there is none.
- LongNames.NameComesBack: longer names than 260 characters, whose slots the cache ignores.
- PiDigits.Digits: the upper end N and the exponents vmax are exact integers here (logarithms in the
  source), sums of fractions are exact reals (doubles in the source), and integers are unbounded: 32-bit
  overflow for very large N is not modelled.
- SoftFpu.AddSub: results at or above 2^128, denormal operands, infinities and NaN are outside the stated
  equivalence; so are FDIV, FSQRT, FRCP, minimum, maximum and the conversions.
- SoftFpu.FusedMultiplyAdd: the same; the four C++ functions are one method with two sign flags, and FADD
  and FSUB one method with the flag of `LOAD_AB`.
- ListSort.ListMergesort: the comparison is by a key that does not change; `cmp_complex` caches what it
  computes in the data it compares. An empty list makes the C code dereference null.
- ForestExport.ExportForest: the fixed numbers of trees and levels are parameters; reading the model and
  writing the files are left out. Thresholds are reals, where the C arrays hold single precision.
- LineDraw.Clip: coordinates are unbounded integers. Each intersection is truncated, so the ends are
  stated to be within four pixels of the line, one for each round, not to be the nearest pixels.
- `GL_setpixel` is the list of pixels set; colours and the hardware line mode are left out.
- SD card, UART, display and simulator plumbing, raytracers, benchmarks' checksums: no property of this
  kind.
