# FatFs: a verified model of the FAT volume engine

The project models `FatFs/src/ff.c` (FatFs R0.11) and proves properties of it, bottom up. Each layer is proved against
the one below, so a statement about a file is, in the end, a statement about the bytes of the disk.

| layer | files | what it is |
|---|---|---|
| widths, units, geometry | `Bytes`, `Units`, `Layout` | little-endian access, 32-bit wrap where the code relies on it, the mounted geometry |
| drive | `Disk` | an abstract array of sectors behind `disk_read` and `disk_write`; a ghost history keeps every state the medium goes through, one per completed write |
| window | `Window` | the one-sector write-back window; `Fatfs.Logical()` is the disk as seen through it |
| FAT | `FatTable`, `FatAccess` | the table of entries packed in 12, 16 or 32 bits; `get_fat` and `put_fat` |
| chains | `Chains`, `Allocator`, `ClusterOps`, `Reuse`, `FreeSpace` | the forest of cluster chains; `create_chain`, `remove_chain`, `f_getfree` |
| link map | `LinkMap` | the cluster link map table, its builder and its lookup |
| files | `FileData`, `FileCursor`, `Files`, `FileFrame`, `DataAccess`, `FileBytes`, `FileRead`, `FileWrite`, `FileSeek`, `FileTruncate`, `FileRuns`, `FileSync`, `FileOpen` | `f_read`, `f_write`, `f_lseek`, `f_truncate`, `f_sync`, parts of `f_open`, and any sequence of such calls |
| directories and names | `Directory`, `DirAlloc`, `DirNames`, `Pattern`, `ShortName`, `LongName` | the directory cursor, entry allocation, wildcards, 8.3 names, long names |
| volume | `BootSector`, `Format`, `Mount` | the boot sector as a mount reads it; `f_mkfs`; the mounted object and the first file on it |

FATFS, FIL and DIR are classes with the fields of the source that the modelled functions use, changed in place.
`fs.Logical()` is the medium overlaid by the dirty window, `fs.Table()` the FAT decoded from it, `fp.Sectors()` the
sectors of the file's chain overlaid by the dirty file buffer, `fp.Bytes()` the first `fsize` bytes of them. Ghost fields
name the file's chain and the other chains of the volume.

`Drive.reliable` says that no access to an existing sector fails. What an operation does is stated for every run in
which it returns success; with a reliable drive it is proved to succeed. The one statement about failing writes is that a
failed flush keeps the dirty window.

The sector size is 512 to 4096 bytes and the cluster size any power of two from 1 to 128 sectors. `Units` spells both
out so that all arithmetic stays linear, and proves that nothing else than plain product, quotient and remainder is meant.

## What the code does where a reader might expect otherwise

- A long name of 254 characters can be registered but is not read back. `pick_lfn` tests the buffer limit once more
  after it has stored the terminator, so the round trip holds exactly up to 253 characters (`DirectoryNames.DirRead`,
  `LongName.PartPickable`, and the counterexample `LongName.TooLong`).
- The raw scan of `f_getfree` counts the reserved entries 0 and 1 of a FAT16/32 table too. The count it caches is right
  exactly when neither of them is zero; a FAT12 entry 1 stops the scan, and the partial count that is cached is right exactly
  when no free cluster lies behind it (`FreeSpace.GetFree`, `FreeSpace.RawCountsTooMany`, `FreeSpace.EntryCountsTooFew`).
- The link map builder takes an end mark equal to `n_fatent` in the very last cluster of the volume for a link. It fails
  with an internal error exactly in that case (`LinkMap.BuildLinkMap`, predicate `EndLooksLinked`). With the mark that the
  code itself stores this takes a volume of 0x0FFFFFFF entries (`LinkMap.EndCanLookLinked`, `LinkMap.OwnMarkNeverLooksLinked`).
- `f_truncate` leaves the link map table alone. The table is still the map of the file exactly when no cluster has been
  removed (`FileTruncate.FTruncate`, `FileTruncate.MapOfPrefix`). It stays good for reads and seeks, and for writes as long
  as they end in the clusters that are left (`FileWrite.FWrite`, predicate `Fil.MapServes`). A write that goes on from there
  leaves the file: it turns to the first freed cluster, one that any other file may take
  (`FileWrite.ServedSoFar`, `FileWrite.SectorToWrite`, `FileTruncate.WriteBehindCut`).
- After a file has been cut to nothing and has got a first cluster again, a seek by the old table goes to a sector that is
  not the file's, unless the same cluster was taken (`FileSeek.LookUp`, predicate `Fil.MapSeeks`). Reads and writes inside
  the new cluster still work.
- A link map made for a file without clusters misses the first cluster that a write then takes. Reads and writes inside
  that cluster still work, and every seek to a byte fails with an internal error (`FileWrite.FWrite`, `FileSeek.FastSeek`).
- Aligning the data area to an erase block may leave no room for a cluster, and `f_mkfs` still reports success
  (`Format.NoRoomIsAccepted`). A mount then finds no volume; it finds the planned one exactly when the aligned start of the
  data area plus one allocation unit lies on the disk (`Format.FMkfs`, predicate `Job.HasRoom`).
- The automatic unit table of `f_mkfs` gives a larger volume a unit that is not smaller from 64 volume units (1024000
  bytes each) up, unless the configuration supports sectors of 4096 bytes only. Then a unit of 2048 bytes is taken for
  2048 sectors and cut to 128, so that the unit drops where the volume grows past 128 volume units
  (`Format.LargerVolumeLargerUnit`, `Format.LargerVolumeSmallerUnit`).
- The alignment of `f_mkfs` is a bit mask. It gives the next multiple of the erase block when the block is a power of two
  (`Format.AlignedToBlock`); for any other size the layout follows the mask, and all else that is said of it holds too.
- A mount accepts a BPB whose sums wrap (`BootSector.WrappedIsAccepted`). What it accepts is well formed exactly when they
  do not (`BootSector.MountIsSound`, predicate `InBounds`).
- `create_name` without long names accepts an empty body (".ext") and drops a final dot ("a." gives the entry of "a").
- The upper-case table of code page 1252 maps three characters outside the page's own case pairs (0x9A to 0xAD, 0x9E to
  0xAE, 0xA1 to 0x21). The model has the table as it stands.

## Model

| member | source | states |
|---|---|---|
| Bytes.PutWord | FatFs/src/ff.h:354-356 | what ST_WORD stores LD_WORD reads back, cut to 16 bits |
| Bytes.PutDword | FatFs/src/ff.h:355-357 | what ST_DWORD stores LD_DWORD reads back |
| Bytes.StWord | FatFs/src/ff.h:356 | the two byte stores leave the buffer exactly as PutWord says, all other bytes kept |
| Bytes.StDword | FatFs/src/ff.h:357 | the same for four bytes |
| Bytes.LittleEndian | FatFs/src/ff.h:354-355 | the four bytes count 1, 0x100, 0x10000 and 0x1000000, the first one least |
| Bytes.WrapsAround | FatFs/src/ff.c:878 | unsigned 32-bit difference, increment and decrement are arithmetic modulo 2^32 |
| Bytes.SetBit0 | FatFs/src/ff.c:1106 | the FSINFO flag gets bit 0, its other bits are kept |
| Units.ByUnitIsPlain | FatFs/src/ff.c:1134 | the case lists used for products, quotients and remainders by sector and cluster size are plain arithmetic |
| Units.SupportedUnits | FatFs/src/ff.c:157 | the sector sizes are 512, 1024, 2048 and 4096, the cluster sizes the powers of two from 1 to 128 |
| Layout.Geometry.ClustToSect | FatFs/src/ff.c:873-881 | non-zero exactly for a valid cluster number, with the unsigned wrap of cluster 0 and 1; then first and last sector of the cluster lie in the data area |
| Layout.Geometry.SectorInCluster | FatFs/src/ff.c:873-881 | sector o of cluster c lies in the data area and leads back to c and o |
| Layout.Geometry.ClusterInSector | FatFs/src/ff.c:873-881 | every data sector belongs to a valid cluster, at the offset it came from |
| Layout.Geometry.AreasArePlain | FatFs/src/ff.c:2370-2392 | where the reserved area, the FAT copies, the root directory and the clusters of a well-formed volume lie, and the sector of a cluster, in plain numbers |
| Layout.Geometry.TypeIsPlain | FatFs/src/ff.c:2377-2396 | FAT12 below 4086 clusters, FAT16 below 65526, else FAT32, and a FAT with room for every entry |
| LogicalDisk.Flushed | FatFs/src/ff.c:782-794 | writing the dirty window to its sector changes nothing in the disk as seen, and leaves only the copy of a FAT sector to be made |
| LogicalDisk.CopyIsInvisible | FatFs/src/ff.c:789-792 | a write to the second FAT copy shows nowhere in the disk as seen |
| Volume.Fatfs.SyncWindow | FatFs/src/ff.c:773-797 | the disk as seen is unchanged; success leaves a clean window; a failed flush keeps the dirty window and the medium; every state written holds the present FAT in its first copy; the copies stay equal up to the dirty window |
| Volume.Fatfs.Reflect | FatFs/src/ff.c:788-793 | brings the second copy level with the sector just written, errors ignored |
| Volume.Fatfs.MoveWindow | FatFs/src/ff.c:802-823 | the disk as seen is unchanged and the window holds the wanted sector of it; flushes before it moves |
| PackedTable.Put12 | FatFs/src/ff.c:962-974 | a FAT12 store changes its own 12 bits only, whichever byte is shared with a neighbour |
| PackedTable.PutThenGet | FatFs/src/ff.c:907-990 | an entry stored is read back modulo 2^12, 2^16 or 2^28, every other entry reads as before |
| PackedTable.EntryInBytes | FatFs/src/ff.c:907-925 | which bits of which bytes make entry c: one and a half, two or four bytes, without the top four bits of FAT32 |
| PackedTable.TopBitsSurvive | FatFs/src/ff.c:984-990 | the top four stored bits of a FAT32 entry survive every 28-bit store |
| FatTable.StoredTable | FatFs/src/ff.c:946-999 | a store to the FAT bytes is a one-entry update of the table of numbers |
| FatTable.FatByte | FatFs/src/ff.c:907-925 | byte o of the FAT is byte o % ss of sector fatbase + o / ss |
| FatTable.TableInBytes | FatFs/src/ff.c:907-925 | the table of numbers in the bytes of the FAT |
| FatAccess.GetFat | FatFs/src/ff.c:891-935 | 1 for an invalid cluster, else the entry of the table, through any number of window moves; the disk as seen is unchanged |
| FatAccess.GetFat12 | FatFs/src/ff.c:908-915 | the two bytes of a FAT12 entry give the entry even when they lie in different sectors |
| FatAccess.PutFat | FatFs/src/ff.c:946-999 | success changes exactly one entry, and no byte outside the FAT; an invalid cluster changes nothing; on FAT16/32 no write carries the new value before the window moves on |
| FatAccess.PutFat12 | FatFs/src/ff.c:962-974 | the same for an entry of 1.5 bytes that may straddle two sectors |
| FatAccess.PutFat16 | FatFs/src/ff.c:976-982 | a FAT16 store: exactly one entry, the new value in the window only |
| FatAccess.PutFat32 | FatFs/src/ff.c:984-991 | the same on FAT32, the top four stored bits kept |
| Chains.NoRepeat | FatFs/src/ff.c:1026-1048 | a chain that ends is acyclic |
| Chains.HeadDetermines | FatFs/src/ff.c:1026-1048 | the first cluster determines the whole chain |
| Chains.ForestIsSafe | FatFs/src/ff.c:1098-1101 | a table of disjoint chains has no link to a free cluster |
| Chains.ForestUnique | FatFs/src/ff.c:1063-1113 | a table splits into disjoint chains in at most one way |
| Chains.AppendCluster | FatFs/src/ff.c:1098-1101 | marking a free cluster and linking it to a tail appends it to exactly that chain; all others stay |
| Chains.StartChain | FatFs/src/ff.c:1098-1101 | marking a free cluster starts a chain of one; all others stay |
| Chains.FreeChain | FatFs/src/ff.c:1026-1048 | freeing the clusters of one chain leaves exactly the others |
| Chains.SplitChain | FatFs/src/ff.c:3573-3575 | an end mark inside a chain splits it in two |
| Chains.CutChain | FatFs/src/ff.c:3565-3577 | an end mark and freeing the rest leaves exactly the prefix and all other chains |
| Allocation.RemovedOnlyFrees | FatFs/src/ff.c:1026-1048 | on any table whatever, cyclic or cross-linked, removal terminates, only turns entries free, and reports an internal error only if some entry is 1 |
| Allocation.RemovedIsZeroed | FatFs/src/ff.c:1026-1048 | removal from the head of a chain succeeds and frees exactly that chain |
| Allocation.HeadDetached | FatFs/src/ff.c:1026-1048 | no entry links to the head of a chain, and links are injective |
| Allocation.DetachedStep | FatFs/src/ff.c:1027-1047 | freeing such a cluster creates no link to a free one and detaches its successor |
| Allocation.ChainLength | FatFs/src/ff.c:1063-1113 | a chain has at most as many clusters as the volume |
| Allocation.CandidatesCover | FatFs/src/ff.c:1084-1096 | the cyclic search order reaches every cluster |
| Allocation.NothingFree | FatFs/src/ff.c:1085-1096 | a search that passed over all candidates proves that nothing is free |
| Allocation.NextFitIsComplete | FatFs/src/ff.c:1072-1096 | on a table without entry 1, for every hint, the search finds a free cluster if and only if there is one |
| Allocation.NextFitIsPlain | FatFs/src/ff.c:1072-1096 | where the search begins, and which cluster it stops at, in plain numbers: upwards from the hint or the tail, and on from cluster 2 |
| Allocation.TakenIsSafe | FatFs/src/ff.c:1098-1101 | after the mark, and again after the link, no entry links to a free cluster |
| Allocation.TakenCount | FatFs/src/ff.c:1103-1107 | taking a cluster lowers the number of free ones by exactly one |
| Allocation.TakenIs | FatFs/src/ff.c:1098-1101 | entry by entry: the mark in the new cluster, the link in the old tail, everything else as before |
| Allocation.ZerosAreFree | FatFs/src/ff.c:3510-3527 | zero entries of the whole table are the free clusters plus the zeros among entries 0 and 1 |
| ClusterOps.StillSafe | FatFs/src/ff.c:810-820 | writing a table without links to free clusters keeps the history of the medium since the mount free of them |
| ClusterOps.FindFree | FatFs/src/ff.c:1084-1096 | returns the first cluster in cyclic order whose entry is 0 (or 1 for an entry 1), and 0 only after all have been passed over |
| ClusterOps.MarkIsLast | FatFs/src/ff.c:1098 | the end mark as it is stored: 0xFFF, 0xFFFF or 0x0FFFFFFF, and above every cluster number |
| ClusterOps.TakeCluster | FatFs/src/ff.c:1098-1101 | marks, then links; no state of the medium on FAT16/32 has a link to a free cluster |
| ClusterOps.NewCluster | FatFs/src/ff.c:1084-1113 | takes the first free cluster after the start point, sets the hint, decrements a known count and marks FSINFO |
| ClusterOps.CreateChain | FatFs/src/ff.c:1063-1113 | returns an existing successor unchanged; else takes the first free cluster in cyclic order, marks it with 0xFFF, 0xFFFF or 0x0FFFFFFF and links it, every other entry kept, or returns 0 exactly when none is free; the cached count stays right, write order and copies stay safe |
| ClusterOps.FreeLink | FatFs/src/ff.c:1027-1047 | one round of the removal: frees the cluster after its link was read, counts it, marks FSINFO |
| ClusterOps.RemoveChain | FatFs/src/ff.c:1010-1052 | terminates on every FAT content; table and result are those of the removal function; the cached count stays right; from a head, no state of the medium on FAT16/32 has a link to a free cluster |
| Reuse.SafeStart | FatFs/src/ff.c:1098-1101 | a consistent FAT with a clean window on a drive not written since the mount is a safe start for the write order, whatever was written before |
| Reuse.TakenForest | FatFs/src/ff.c:1098-1101 | taking a cluster extends the one chain that ends at the given cluster, or starts one; the result is a forest again |
| Reuse.CreateChains | FatFs/src/ff.c:1063-1113 | over any run of calls with any arguments: after every single disk write the first FAT copy on the medium (FAT16/32) has no link to a free cluster; the FAT stays a forest; the cached count stays right |
| Reuse.DropContents | FatFs/src/ff.c:2589-2596 | frees exactly the old chain, returns the window to the entry and points the hint at the hole |
| Reuse.HoleFirst | FatFs/src/ff.c:2593 | with that hint, the next new chain begins at the head of the hole |
| FileOpen.EmptyEntry | FatFs/src/ff.c:2582-2587 | creation time, attribute, size and start cluster of the entry are set (bytes 14 to 17, 11, 28 to 31, 20, 21, 26 and 27), every other byte kept |
| FileOpen.OverwriteFile | FatFs/src/ff.c:2581-2597 | an overwriting open empties the entry, frees exactly the old chain if there is one, keeps all else, and is back at the entry with the hint before the hole |
| FileOpen.OpenFile | FatFs/src/ff.c:2633-2645 | a file opened by its entry has the size of bytes 28 to 31 and the start cluster of bytes 26 and 27, with 20 and 21 above them on FAT32 only, stands at 0 with no buffered sector and nothing to write back, and satisfies the file invariant |
| FileOpen.EntryBytes | FatFs/src/ff.c:1308-1321 | size and start cluster of an entry in its bytes |
| FileOpen.SyncThenOpen | FatFs/src/ff.c:2633-2919 | a file synchronized and opened again by its entry holds the same bytes |
| FreeSpace.CountByEntry | FatFs/src/ff.c:3502-3508 | the number of free clusters, or stopped at the first entry 1 with the count below it |
| FreeSpace.CountRaw | FatFs/src/ff.c:3510-3527 | the raw sector scan counts exactly the zero entries of the whole table |
| FreeSpace.ScanFree | FatFs/src/ff.c:3498-3528 | the raw scan and the per-entry count agree up to the zeros among entries 0 and 1 |
| FreeSpace.ZerosOfTwo | FatFs/src/ff.c:3510-3527 | that difference vanishes exactly when entries 0 and 1 are non-zero |
| FreeSpace.GetFree | FatFs/src/ff.c:3494-3532 | a plausible cached count is returned as it is, else the scan's; when an internal error is reported; and in each case exactly when the cached count is right afterwards |
| FreeSpace.PartialCount | FatFs/src/ff.c:3502-3508 | a count cut short at the first entry 1 is the number of free clusters exactly if none lies behind it |
| FreeSpace.RawCountsTooMany | FatFs/src/ff.c:3510-3527 | a full FAT16 volume of 4088 entries on which the raw scan counts a free cluster |
| FreeSpace.EntryCountsTooFew | FatFs/src/ff.c:3502-3508 | a FAT12 volume on which the scan by entry misses the one free cluster |
| LinkMap.LookupIsChain | FatFs/src/ff.c:1133-1141 | looking up cluster number n in the maximal-run encoding of a chain gives its n-th cluster, and 0 past the end |
| LinkMap.FragmentsOfRun | FatFs/src/ff.c:3124-3138 | the items of a map in plain numbers: length and first cluster of each maximal run, in the order of the file |
| LinkMap.OneMap | FatFs/src/ff.c:1133-1141 | a table is the map of one chain only |
| LinkMap.PrefixFragments | FatFs/src/ff.c:3121-3139 | a map of a cut chain needs no more items than that of the whole one |
| LinkMap.FragmentsInjective | FatFs/src/ff.c:3124-3138 | the encoding determines the chain |
| LinkMap.EncodingIsFragments | FatFs/src/ff.c:3124-3138 | there is exactly one list of maximal runs of a chain, and it is the one built |
| LinkMap.EndCanLookLinked | FatFs/src/ff.c:3129-3134 | a table and a chain, ended by the mark that create_chain stores, on which the builder takes the end for a link |
| LinkMap.OwnMarkNeverLooksLinked | FatFs/src/ff.c:3129-3134 | with that mark it happens on no smaller volume |
| LinkMap.ClmtClust | FatFs/src/ff.c:1125-1142 | the lookup loop returns the cluster that following the chain would reach, 0 past the end |
| LinkMap.ScanFragment | FatFs/src/ff.c:3128-3134 | the inner loop finds the maximal run of consecutive clusters; it fails exactly if the end mark looks like a link |
| LinkMap.MapFragments | FatFs/src/ff.c:3124-3139 | stores the fragments that fit and counts all of them |
| LinkMap.BuildLinkMap | FatFs/src/ff.c:3121-3145 | success gives the map of the chain; reports 2 * fragments + 2 items; never stores past the given length; fails for lack of room exactly if that is more than given |
| FileData.SectorNoInjective | FatFs/src/ff.c:2701-2703 | different sectors of a file are different sectors of the disk |
| FileData.SectorsOwn | FatFs/src/ff.c:2701-2703 | the sectors of a file belong to no other chain |
| FileData.WriteBackKeepsView | FatFs/src/ff.c:2725-2728 | writing the dirty file buffer back does not change the file |
| FileData.StoreInView | FatFs/src/ff.c:2863-2864 | changing the buffer and setting it dirty changes exactly its sector of the file |
| FileData.WriteRunInView | FatFs/src/ff.c:2820-2824 | a direct write replaces exactly its run of sectors of the file |
| FileData.SectorElsewhere | FatFs/src/ff.c:873-881 | no sector of a cluster outside the chain is a sector of the file |
| FileCursor.Advance | FatFs/src/ff.c:2682-2735 | the cursor invariant survives any advance inside a cluster |
| FileCursor.EnterSector | FatFs/src/ff.c:2685-2687 | the cluster index goes up exactly at a cluster boundary |
| FileCursor.LinkedAppend | FatFs/src/ff.c:2798-2804 | a file's chain grows at its tail; the other chains of the volume stay |
| FileCursor.LinkedStart | FatFs/src/ff.c:2789-2804 | the first write gives a file without a chain its start cluster |
| Files.Fil.constructor | FatFs/src/ff.c:2633-2645 | an opened file stands at 0, clean, unwritten, with no buffered sector and without error, and satisfies the file invariant |
| FileRead.OverlaidRun | FatFs/src/ff.c:2708-2716 | sectors read directly, with the dirty buffered sector laid over, are the bytes of the file |
| FileRead.FollowChain | FatFs/src/ff.c:2686-2699 | at a cluster boundary the start cluster, the link map or the FAT give the cluster of the byte at the pointer |
| FileRead.SectorToRead | FatFs/src/ff.c:2685-2703 | the sector computed is the one that holds the byte at the pointer |
| FileRead.FlushBuffer | FatFs/src/ff.c:2725-2729 | the file's bytes and every other file are unchanged, the buffer is clean |
| FileRead.ReadDirect | FatFs/src/ff.c:2704-2721 | a direct transfer delivers the file's bytes, a dirty sector among them taken from the buffer |
| FileRead.LoadSector | FatFs/src/ff.c:2723-2735 | the buffer holds the wanted sector, the file is unchanged |
| FileRead.ReadAligned | FatFs/src/ff.c:2684-2736 | whole sectors are delivered, or the sector at the pointer is buffered |
| FileRead.CopyOut | FatFs/src/ff.c:2737-2745 | the rest of the buffered sector is delivered, cut to what is asked |
| FileRead.ReadStep | FatFs/src/ff.c:2682-2746 | one round delivers at least one byte, exactly the file's, and keeps the cursor invariant |
| FileRead.ReadRound | FatFs/src/ff.c:2682-2746 | the same with the pointer moved on |
| FileRead.ReadLoop | FatFs/src/ff.c:2682-2746 | all rounds together deliver exactly the bytes asked for |
| FileRead.FRead | FatFs/src/ff.c:2658-2749 | returns exactly the bytes from the pointer on, min(btr, size - pointer) of them; file, FAT and all other files are unchanged; the rest of the caller's buffer too; an error sticks; holds with the link map of the file, of a longer chain it was cut from, and with any map for a file of at most one cluster |
| FileBytes.WrittenContent | FatFs/src/ff.c:2783-2869 | the steps of a write add up to the written bytes at the pointer with every other byte below the old size kept |
| FileBytes.CopiedIn | FatFs/src/ff.c:2847-2864 | a partial write keeps the other bytes of its sector, but for those past the end of the file when the sector is not read first |
| FileWrite.NextCluster | FatFs/src/ff.c:2789-2804 | the next cluster of the chain, taken if the chain ends there; 0 only when the disk is full |
| FileWrite.ServedSoFar | FatFs/src/ff.c:2785-2804 | a write that an old link map does not serve is served up to the end of the file's clusters, and there the map goes on |
| FileWrite.ClusterByMap | FatFs/src/ff.c:2793-2798 | the cluster of the byte at the pointer; past the file 0, or, if it was cut since the map was made, the next one of the map |
| FileWrite.ClusterAtStart | FatFs/src/ff.c:2788-2791 | the first cluster, taken if there is none; 0 only when the disk is full |
| FileWrite.ClusterToWrite | FatFs/src/ff.c:2787-2804 | the cluster of the byte at the pointer; 0 only when the disk is full or the link map ends; right behind a cut file the next cluster of the old map, and no entry of the FAT changes |
| FileWrite.MoveToCluster | FatFs/src/ff.c:2785-2804 | at a cluster boundary this becomes the current cluster; inside a cluster it is already |
| FileWrite.SectorToWrite | FatFs/src/ff.c:2785-2818 | the sector at the pointer with the buffer written back; a full disk moves nothing; right behind a cut file the first sector of the next cluster of the old map |
| FileWrite.WriteDirect | FatFs/src/ff.c:2819-2840 | exactly the run of sectors changes, and the buffer follows if it holds one of them |
| FileWrite.Refill | FatFs/src/ff.c:2832-2835 | after a direct write over the buffered sector the buffer is that sector again |
| FileWrite.FillForWrite | FatFs/src/ff.c:2847-2853 | the sector is read first unless nothing of it would be kept |
| FileWrite.PutInBuffer | FatFs/src/ff.c:2863-2864 | the bytes copied into the dirty buffer are in its sector of the file |
| FileWrite.CopyIn | FatFs/src/ff.c:2855-2864 | exactly the bytes copied change |
| FileWrite.WriteSectorAt | FatFs/src/ff.c:2819-2864 | whole sectors directly or one sector through the buffer: exactly the bytes reported change |
| FileWrite.WriteAligned | FatFs/src/ff.c:2785-2864 | the same at a sector boundary, the chain extended by at most the cluster written to; for every write that the link map serves |
| FileWrite.WriteStep | FatFs/src/ff.c:2783-2866 | one round writes at least one byte and keeps the cursor invariant, unless the disk is full; the link map serves the rest of the write |
| FileWrite.WriteRound | FatFs/src/ff.c:2783-2866 | the same with the pointer moved on |
| FileWrite.WriteLoop | FatFs/src/ff.c:2783-2866 | all rounds together; stops short only at the end of the last cluster of a full disk (or of the link map) |
| FileWrite.WriteBytes | FatFs/src/ff.c:2781-2869 | the write past its checks: exactly the bytes reported are changed, size and written flag follow |
| FileWrite.FWrite | FatFs/src/ff.c:2759-2872 | exactly the bytes reported are changed, every other byte of the file is kept; short only when the disk is full, the link map ends or 4 GB would be passed; other files untouched, no cluster lost or taken in vain; an error sticks; a link map stays right exactly if the file did not get its first cluster; with the map of a longer chain it was cut from, for every write that ends in the clusters left |
| FileSeek.ClusterIdxIsPlain | FatFs/src/ff.c:3185-3188 | shift and mask forms are division by the cluster size in bytes |
| FileSeek.SeekStart | FatFs/src/ff.c:3186-3202 | begins at the current cluster when the target is not before it, else at the first one, taken if there is none |
| FileSeek.FirstCluster | FatFs/src/ff.c:3192-3202 | the first cluster, taken if there is none; 0 only when the disk is full |
| FileSeek.SeekHop | FatFs/src/ff.c:3204-3219 | the next cluster of the chain, stretched in write mode |
| FileSeek.ClusterAfter | FatFs/src/ff.c:3206-3217 | the next cluster of the chain, taken at its end; 0 only on a full disk |
| FileSeek.SeekLoop | FatFs/src/ff.c:3204-3220 | ends in the cluster of the target, or at the last cluster of a full disk |
| FileSeek.Land | FatFs/src/ff.c:3220-3225 | pointer, cluster and sector satisfy the cursor invariant |
| FileSeek.SeekWalk | FatFs/src/ff.c:3182-3227 | from the current cluster or from the start, the pointer reaches the target, or the end of the chain on a full disk |
| FileSeek.FillAfterSeek | FatFs/src/ff.c:3228-3241 | the buffer holds the sector at the pointer; the file is unchanged |
| FileSeek.CursorIsResult | FatFs/src/ff.c:3182-3241 | the cursor invariant determines the outcome of a seek, so the way taken does not matter |
| FileSeek.NoStretch | FatFs/src/ff.c:3204-3219 | a seek inside the chain takes no cluster |
| FileSeek.SeekTo | FatFs/src/ff.c:3182-3241 | pointer, cluster and sector after a seek inside the chain depend on chain and target only |
| FileSeek.NormalSeek | FatFs/src/ff.c:3174-3248 | reaches the target; stretches in write mode, clipped only by a full disk; clips at the size in read-only mode; keeps every byte below the old size and every other file |
| FileSeek.LookUp | FatFs/src/ff.c:3151-3154 | cluster and sector of the pointer for every map that serves a seek; for a file cut to nothing and written again, a cluster and a sector that are not the file's, unless the same cluster was taken |
| FileSeek.FastFill | FatFs/src/ff.c:3150-3169 | the link map gives the cluster and sector that belong to the pointer; an internal error exactly if the map was made before the file had a cluster |
| FileSeek.FastSeek | FatFs/src/ff.c:3146-3170 | clips at the size and leaves the same pointer, cluster and sector as the walk along the chain, with the map of the file or of a longer chain it was cut from; fails exactly if the map misses the first cluster |
| FileSeek.MakeLinkMap | FatFs/src/ff.c:3121-3145 | the table of an open file becomes its map, fails exactly if it is too small or the end mark looks like a link, and is not touched past its given length; file and volume unchanged |
| FileSeek.FLseek | FatFs/src/ff.c:3102-3251 | chooses among the three, reports and keeps the sticky error; the result code and the state after each of them |
| FileTruncate.CutLinked | FatFs/src/ff.c:3565-3577 | the file keeps a prefix of its chain, all other chains stay |
| FileTruncate.CutCount | FatFs/src/ff.c:3565-3577 | every cluster cut off becomes free, no other |
| FileTruncate.CutIsPlain | FatFs/src/ff.c:3565-3577 | the table after a truncation, entry by entry: 0, the end mark, or as before |
| FileTruncate.KeptIsPlain | FatFs/src/ff.c:3565-3577 | the clusters kept are as many as the bytes up to the pointer need |
| FileTruncate.TailToRemove | FatFs/src/ff.c:3573-3575 | after the end mark the rest of the chain is detached, and its removal leaves exactly the cut table |
| FileTruncate.CutAfter | FatFs/src/ff.c:3565-3577 | both branches leave exactly the cut table, count and write order kept |
| FileTruncate.MapOfPrefix | FatFs/src/ff.c:3561-3577 | a table that maps a chain maps no proper prefix of it |
| FileTruncate.OldMapNamesFreed | FatFs/src/ff.c:3561-3577 | right behind a file that was cut, the old map names a cluster that is free now |
| FileTruncate.FreedBehind | FatFs/src/ff.c:3565-3577 | the first cluster cut off is free and none of the file's |
| FileTruncate.CutFile | FatFs/src/ff.c:3565-3577 | the file shows the first sectors of what it was |
| FileTruncate.TruncateAt | FatFs/src/ff.c:3562-3586 | leaves exactly the chain prefix that ends at the pointer's cluster and the bytes below the pointer |
| FileTruncate.FTruncate | FatFs/src/ff.c:3544-3591 | the bytes below the pointer remain and no others; as many clusters remain as these bytes need, the last one holds the end mark, exactly the clusters behind it are freed, and no other entry of the FAT changes; other files untouched; exactly when a link map stays the map of the file; it always stays good for reading and seeking |
| FileTruncate.WriteBehindCut | FatFs/src/ff.c:2785-3591 | cut a file at a cluster boundary and write on with its map: the write turns to the first freed cluster and to a sector that is none of the file's |
| FileRuns.RoomOf | FatFs/src/ff.c:2800 | a file fills its room exactly when no cluster is free |
| FileRuns.ByteOnDisk | FatFs/src/ff.c:2685-2745 | where the bytes of a file are: byte j of sector o of its k-th cluster c is byte j of disk sector database + (c - 2) * csize + o, or of the dirty file buffer |
| FileRuns.RoomIsPlain | FatFs/src/ff.c:2783-2804 | how far a file can grow, in bytes of its clusters and the free ones |
| FileRuns.EndIsPlain | FatFs/src/ff.c:3565-3577 | the end of the cluster of the byte before the pointer |
| FileRuns.OverwrittenAt | FatFs/src/ff.c:2783-2869 | what a write leaves, byte by byte |
| FileRuns.CutNotLinked | FatFs/src/ff.c:3129-3575 | the end mark that a truncation stores never looks like a link to the map builder, but on a volume of 0x0FFFFFFF entries |
| FileRuns.CutKept | FatFs/src/ff.c:3544-3591 | a truncation under a link map: room to the end of the cluster of the last byte, and whether the map is still that of the file |
| FileRuns.MakeMap | FatFs/src/ff.c:3121-3145 | a new map for a file that has been cut fits the old table, and serves every call again |
| FileRuns.UncutRuns | FatFs/src/ff.c:2658-3591 | without a link map, and with one as long as nothing is cut, a run is bound by the integer widths only |
| FileRuns.Make | FatFs/src/ff.c:2658-3591 | each call, truncation and a request for a new map included, acts on a plain byte string with a pointer as the application expects, answers with the bytes and counts that follow from it, and keeps the file invariant, all other files and the number of clusters |
| FileRuns.Run | FatFs/src/ff.c:2658-3591 | over any sequence of reads, writes, seeks, truncations and requests for a new map the file is a byte string with a pointer; every answer (result code, bytes read, count) and every state follows from it, determined up to the bytes that a seek past the end adds; no other file is touched, no cluster lost, count, write order and copies stay right; under the map of a file that has been cut, as long as every write ends in the clusters left or a new map is made first |
| FileSync.WriteInfo | FatFs/src/ff.c:844-854 | the FSINFO sector holds the hints, nothing else changes |
| FileSync.SyncFs | FatFs/src/ff.c:833-862 | leaves a clean window; FSINFO is written exactly when due |
| FileSync.UpdateEntry | FatFs/src/ff.c:2902-2912 | bit 0x20 of byte 11 is set and its other bits are kept; size in bytes 28 to 31, start cluster in bytes 26, 27, 20 and 21, write time and access date are updated; name, creation time and all other entries kept |
| FileSync.WithArchive | FatFs/src/ff.c:2905 | bit 0x20 is set, the other seven bits are kept |
| FileSync.UpdatedNames | FatFs/src/ff.c:2905-2907 | the updated entry in its bytes: size, start cluster, attribute |
| FileSync.CleanMedium | FatFs/src/ff.c:2893-2899 | with nothing dirty the medium itself is the disk and the file as seen |
| FileSync.SyncEntry | FatFs/src/ff.c:2901-2914 | entry, FAT and data are on the medium: the size and start cluster in the bytes of the entry, bit 0x20 of its attribute set, the others kept |
| FileSync.FSync | FatFs/src/ff.c:2881-2919 | a written file is afterwards on the medium: its FAT, its bytes, and the entry with size, start cluster and archive bit in its bytes, and on FAT32 FSINFO with the hints when the count has changed; an unwritten one changes nothing |
| Directory.DirSdi | FatFs/src/ff.c:1153-1191 | succeeds exactly if the entry exists, and leaves its cluster, sector and offset |
| Directory.PlaceCursor | FatFs/src/ff.c:1163-1190 | the same for the cluster, sector and offset |
| Directory.PlaceIsPlain | FatFs/src/ff.c:1187-1188 | entry e of sector o of the i-th cluster c of a table is at byte 32 * e of sector database + (c - 2) * csize + o |
| Directory.RootPlaceIsPlain | FatFs/src/ff.c:1168-1188 | entry e of sector o of a static root directory is at byte 32 * e of sector dirbase + o |
| Directory.EntriesArePlain | FatFs/src/ff.c:1168-1185 | which entries exist: nRootdir of them, or as many as the clusters hold |
| Directory.WalkChain | FatFs/src/ff.c:1175-1182 | the walk along the chain: the cluster of the entry and the entries left in it, or the end of the chain first |
| Directory.ClearSector | FatFs/src/ff.c:1240-1244 | one more sector of the new cluster is blank, no FAT byte changes |
| Directory.ClearSectors | FatFs/src/ff.c:1240-1244 | all sectors of the cluster are blank |
| Directory.ClearCluster | FatFs/src/ff.c:1237-1245 | every sector of the cluster is zero on the medium, nothing else changes, the clean window stands on the first one |
| Directory.FlushThenClear | FatFs/src/ff.c:1237-1245 | the old window reaches the medium before the cluster is cleared through it |
| Directory.GrowTable | FatFs/src/ff.c:1232-1235 | a free cluster is linked to the end of the table, or none is free |
| Directory.StretchTable | FatFs/src/ff.c:1232-1245 | the table grows by one cluster that was free and is zero on the medium |
| Directory.NextTableCluster | FatFs/src/ff.c:1226-1250 | the next cluster of the table; end of table, refusal and stretch each exactly when due |
| Directory.NextTableSector | FatFs/src/ff.c:1217-1255 | the sector of the next entry, at a sector boundary |
| Directory.DirNext | FatFs/src/ff.c:1201-1261 | moves to the next entry exactly if there is one or the table can be stretched, with the location dir_sdi would give |
| DirectoryAlloc.WalkTo | FatFs/src/ff.c:1153-1261 | k steps from entry 0 succeed exactly if entry k exists and lead where dir_sdi(k) leads |
| DirectoryAlloc.CountFree | FatFs/src/ff.c:1287-1288 | the counter is the length of the run of free entries that ends here |
| DirectoryAlloc.LookAt | FatFs/src/ff.c:1285-1287 | the test sees the entry of the table |
| DirectoryAlloc.NextToReserve | FatFs/src/ff.c:1292 | the count of free entries survives a stretch of the table |
| DirectoryAlloc.ReserveRound | FatFs/src/ff.c:1284-1293 | one round: a run is complete, or the count goes on at the next entry, or there is none |
| DirectoryAlloc.EntryKept | FatFs/src/ff.c:1232-1250 | every existing entry is where and what it was after the table has grown |
| DirectoryAlloc.ReserveLoop | FatFs/src/ff.c:1284-1293 | stops at the last entry of the first long enough run |
| DirectoryAlloc.DirAlloc | FatFs/src/ff.c:1272-1297 | stops at the last of the first run of n free entries, all existing entries unchanged; refuses only if there is no such run and the table cannot grow |
| DirectoryNames.EntriesApart | FatFs/src/ff.c:1187-1188 | different entries of a table do not overlap |
| DirectoryNames.EntryOnDisk | FatFs/src/ff.c:1187-1188 | the entries of a directory are what the disk holds at these places |
| DirectoryNames.ListingIsWhole | FatFs/src/ff.c:1168-1185 | how many they are, up to the 65536 that an index can name |
| DirectoryNames.PutInWindow | FatFs/src/ff.c:1703-1710 | storing the current entry in the window replaces exactly that entry of the table |
| DirectoryNames.PutParts | FatFs/src/ff.c:1685-1697 | the parts of the long name stand before the short entry, last part first, and no other entry has changed |
| DirectoryNames.ShortEntryIs | FatFs/src/ff.c:1701-1707 | the short entry in its bytes: the 11 characters, attribute 0, the two case flags, zeros |
| DirectoryNames.DirRegister | FatFs/src/ff.c:1648-1715 | the name is recorded in a run of entries that was free, under its short entry's checksum; all other entries and all sectors outside FAT and table are kept; refused only if no run is long enough and the table cannot grow |
| DirectoryNames.ReadEntry | FatFs/src/ff.c:1602-1631 | one round: the entry is returned, ends the table, or is passed over with its part of the name captured |
| DirectoryNames.ReadTable | FatFs/src/ff.c:1600-1632 | the loop, from an entry to the one it stops at |
| DirectoryNames.DirRead | FatFs/src/ff.c:1589-1637 | through window and chain: returns the next file or directory, or the volume label, or the end of the table, after which every further call reports the end; a recorded name ahead comes back with the index of its first entry if and only if it has at most 253 characters |
| DirectoryNames.ReadBack | FatFs/src/ff.c:1153-1637 | back at the first entry of a recorded name, the read comes to its short entry, with the name if it has at most 253 characters |
| DirectoryNames.RegisterThenRead | FatFs/src/ff.c:1589-1715 | a long name registered in a directory on the disk and read again comes back exactly if it has at most 253 characters |
| Pattern.Fold | FatFs/src/ff.c:1843-1861 | 0x61 to 0x7A map to the byte less 0x20, every other byte below 0x80 stays, and only the terminator maps to the terminator |
| Pattern.ExCvtIsTable | FatFs/src/ff.c:329-334 | the upper-case table of code page 1252 in numbers |
| Pattern.GlobIsAligned | FatFs/src/ff.c:1865-1902 | the meaning of a pattern: the name can be divided into one piece per pattern character |
| Pattern.GlobIgnoresCase | FatFs/src/ff.c:1893-1895 | names equal up to case match the same patterns |
| Pattern.GlobIgnoresAsciiCase | FatFs/src/ff.c:1893-1895 | names that differ only between 0x41 to 0x5A and the byte plus 0x20 match the same patterns |
| Pattern.WildBlock | FatFs/src/ff.c:1885-1890 | a block of wildcards means the number of its question marks and whether it has an asterisk |
| Pattern.LiteralsNeeded | FatFs/src/ff.c:1893-1899 | n pattern characters without an asterisk need n characters of the name |
| Pattern.NoLater | FatFs/src/ff.c:1893-1899 | an attempt that used up the name with literals leaves no later match |
| Pattern.MatchHere | FatFs/src/ff.c:1883-1897 | one attempt matches exactly if the pattern matches here; when it ends with the name, no later position matches |
| Pattern.PatternMatching | FatFs/src/ff.c:1865-1902 | terminates and is true exactly if the rest of the pattern matches after the skipped characters (anywhere behind them for an asterisk) |
| Pattern.NameMatches | FatFs/src/ff.c:3402-3404 | one test is exactly the declarative meaning of the pattern |
| Pattern.FindNext | FatFs/src/ff.c:3390-3408 | stops at the first item whose long or short name matches the pattern, or at the end; no item before it matches |
| ShortName.Convert | FatFs/src/ff.c:2072-2098 | accepts exactly the legal characters; a small letter is stored less 0x20 and noted, a large one noted |
| ShortName.LegalIs | FatFs/src/ff.c:2089 | the legal characters in numbers: those above 0x20 and below 0x7F but for sixteen, and all from 0x80 on |
| ShortName.SegmentEndsAre | FatFs/src/ff.c:2066 | a segment ends at a byte up to 0x20, at 0x2F and at 0x5C |
| ShortName.CaseIs | FatFs/src/ff.c:2072-2098 | small and large letters, counting every byte from 0x80 on as both |
| ShortName.StatusIs | FatFs/src/ff.c:2102-2111 | the status byte in numbers: 4 for the last segment, 8 and 16 for a body or extension all small |
| ShortName.AcceptableIs | FatFs/src/ff.c:2064-2101 | body and extension around the first dot: at most 8 and 3 legal characters |
| ShortName.ShortFormIs | FatFs/src/ff.c:2064-2103 | the 11 bytes one by one: folded body, folded extension, 0x20 elsewhere, a first 0xE5 stored as 0x05 |
| ShortName.TakeChar | FatFs/src/ff.c:2067-2098 | one character of the segment: stored in upper case with its case noted, or refused |
| ShortName.StoreStatus | FatFs/src/ff.c:2102-2111 | the 11 bytes and the status byte: a first byte 0xE5 replaced; last segment, and body or extension all in lower case |
| ShortName.ParseSegment | FatFs/src/ff.c:2064-2100 | body, extension and case bits of the segment, or the segment is not acceptable |
| ShortName.CreateName | FatFs/src/ff.c:2047-2113 | accepts exactly the names whose body and extension fit and are legal; the entry form, in which no byte lies in 0x61 to 0x7A, the status byte and the next segment |
| ShortName.GetFileInfo | FatFs/src/ff.c:1785-1811 | prints body, dot and extension without padding, no byte in 0x61 to 0x7A if the entry has none; attribute, size, date and time are those of the entry |
| ShortName.PrintsUpper | FatFs/src/ff.c:1785-2113 | an accepted name is printed in upper case, a final dot dropped |
| ShortName.RoundTrip | FatFs/src/ff.c:1785-2113 | every accepted name without a final dot comes back in upper case |
| ShortName.RoundTripAscii | FatFs/src/ff.c:1785-2113 | an accepted ASCII name comes back with 0x20 taken off each byte from 0x61 to 0x7A and every other byte as it was |
| ShortName.SameEntry | FatFs/src/ff.c:2047-2113 | two such names give the same 11 bytes exactly if they are equal ignoring case |
| ShortName.SameEntryAscii | FatFs/src/ff.c:2047-2113 | two ASCII names give the same 11 bytes exactly if they differ only between 0x41 to 0x5A and the byte plus 0x20 |
| ShortName.FinalDotIgnored | FatFs/src/ff.c:2067-2070 | a final dot makes no difference to the entry |
| ShortName.PrintedWhole | FatFs/src/ff.c:1785-1811 | a full name is printed as its first eight bytes, a dot and the last three |
| ShortName.ShownOne | FatFs/src/ff.c:1787-1793 | one byte in print: a space is dropped, 0x05 is printed as 0xE5 |
| LongName.FitLfn | FatFs/src/ff.c:1411-1436 | writes the given part of the name with terminator, filler and last-part flag |
| LongName.OfsIs | FatFs/src/ff.c:1342 | the 13 places of the characters |
| LongName.PartInBytes | FatFs/src/ff.c:1411-1436 | the characters in the bytes of a part: the name from its 13 (k - 1)-th character on, a 0, then 0xFFFF; and how many parts there are |
| LongName.PartUnique | FatFs/src/ff.c:1411-1436 | every byte of a part is determined by name, order and checksum |
| LongName.EntryInBytes | FatFs/src/ff.c:1384-1403 | flag, place in the buffer and characters of an entry in its bytes; it fits the buffer for orders 1 to 20 |
| LongName.PickLfn | FatFs/src/ff.c:1378-1406 | accepts exactly the entries with correct filler that fit the buffer, and copies their characters |
| LongName.PartPickable | FatFs/src/ff.c:1389-1403 | a part written is accepted exactly if it is not the last one or the name has at most 253 characters |
| LongName.PartPicked | FatFs/src/ff.c:1389-1403 | picking the parts from the last to the first rebuilds the name |
| LongName.SumSfn | FatFs/src/ff.c:1508-1517 | the rotating sum of the 11 bytes |
| LongName.SumIs | FatFs/src/ff.c:1508-1517 | from 0 on, each step rotates the sum right by one bit and adds the character modulo 0x100 |
| LongName.SumDetectsOne | FatFs/src/ff.c:1508-1517 | changing any one character always changes the checksum |
| LongName.Capture | FatFs/src/ff.c:1612-1619 | an entry is picked up exactly if it starts or continues the sequence |
| LongName.ScanPart | FatFs/src/ff.c:1612-1619 | the scan of one recorded part keeps order, checksum, start index and the part of the name read so far |
| LongName.ScanEnds | FatFs/src/ff.c:1620-1624 | at the short entry the sequence is complete exactly if the name was not too long |
| LongName.ScanEntry | FatFs/src/ff.c:1604-1624 | one entry of the scan: the end, an entry of the kind wanted (a file or directory with its long name if complete, or the volume label), or passed over |
| LongName.TooLong | FatFs/src/ff.c:1400-1403 | a name of 254 characters whose last part is never accepted |
| BootSector.CheckFs | FatFs/src/ff.c:2248-2266 | what kind of sector it is |
| BootSector.KindInBytes | FatFs/src/ff.c:2254-2265 | in bytes: 55 AA at 510, and FAT at 54 or at 82 |
| BootSector.PartitionInBytes | FatFs/src/ff.c:2330-2333 | where a partition begins: bytes 8 to 11 of its entry at 446 + 16 i, if its byte 4 is not 0 |
| BootSector.FindBoot | FatFs/src/ff.c:2326-2342 | sector 0, then the partitions in turn: the first FAT boot sector, or why there is none |
| BootSector.VolumeIsFirst | FatFs/src/ff.c:2326-2342 | the volume found is the one at sector 0, or the first partition in table order with a FAT boot sector; else no partition has one |
| BootSector.BpbInBytes | FatFs/src/ff.c:2346-2366 | every field of the BPB in the bytes of the boot sector |
| BootSector.AcceptedExactly | FatFs/src/ff.c:2346-2397 | without wrap, a BPB is accepted if and only if the sector size matches, there are one or two FATs, the cluster size is a power of two up to 128, the root entries fill sectors, the reserved count is not 0, a cluster remains, the root entry count is 0 exactly from 65526 clusters on, and the FAT has room for every entry |
| BootSector.AcceptedAs | FatFs/src/ff.c:2346-2392 | the accepted geometry, field by field, in plain numbers |
| BootSector.ReadHints | FatFs/src/ff.c:2401-2422 | the allocation hints of FSINFO, if it is there and valid |
| BootSector.InfoInBytes | FatFs/src/ff.c:2410-2412 | when FSINFO is valid, in bytes |
| BootSector.HintsInBytes | FatFs/src/ff.c:2401-2422 | the hints: bytes 488 to 491 and 492 to 495 of the sector after the boot sector, and the flag |
| BootSector.FindVolume | FatFs/src/ff.c:2326-2425 | the outcome of a mount: the volume at sector 0 or in the first FAT partition, its geometry and hints, or the right refusal |
| BootSector.MountOutcome | FatFs/src/ff.c:2326-2425 | the outcome for each kind of sector 0: no filesystem, the error of the last partition looked at, or what the boot sector found makes of it |
| BootSector.MountIsSound | FatFs/src/ff.c:2346-2397 | an accepted volume is well formed (areas disjoint and in order, the FAT has room for every entry, no cluster number can be an end mark) if and only if no sum of its BPB passes 32 bits and no cluster number 28 |
| BootSector.WrappedIsAccepted | FatFs/src/ff.c:2353-2397 | a BPB that is accepted though its data area starts inside the FAT |
| Mounting.MountVolume | FatFs/src/ff.c:2326-2425 | the file system object has the geometry, hints and FSINFO state that the mount found, an empty window, and the table that is on the medium; otherwise no object and the mount's refusal |
| Format.UnitSize | FatFs/src/ff.c:4193-4201 | a request that is a power of two is taken, any other leads to the table: 32768 bytes from 1024 volume units on, 16384 from 512, 8192 from 256, 4096 from 128, 2048 from 64, 16384 from 32, 8192 from 16, 4096 from 8, 2048 from 4, 1024 from 2, else 512; then to sectors, at least 1 and at most 128 |
| Format.TableUnit | FatFs/src/ff.c:4144-4197 | the loop over the two tables stops at the band of the volume size |
| Format.AutoUnitIs | FatFs/src/ff.c:4144-4197 | the unit of request 0 in each of the eleven bands of volume size, a volume unit being 1024000 bytes |
| Format.UnitOfLargeSectors | FatFs/src/ff.c:4144-4201 | with sectors of 4096 bytes: 8 sectors from 256000 sectors on, 4 from 128000, 2 from 64000, and so on |
| Format.LargerVolumeLargerUnit | FatFs/src/ff.c:4144-4201 | from 64 volume units up a larger volume never gets a smaller unit, if sectors of 2048 bytes or less are supported |
| Format.LargerVolumeSmallerUnit | FatFs/src/ff.c:4144-4201 | the one configuration in which it may: with sectors of 4096 bytes only, 31999 sectors get units of 128 sectors and 32000 get units of 1 |
| Format.FatIsBigEnough | FatFs/src/ff.c:4210-4219 | the FAT of a plan has an entry for every cluster |
| Format.AlignedExactly | FatFs/src/ff.c:4225-4237 | without wrap, the aligned areas end exactly at the masked start of the data, less than one erase block further on |
| Format.AlignedToBlock | FatFs/src/ff.c:4225-4227 | for an erase block that is a power of two this is its next multiple |
| Format.PlanUnwrapped | FatFs/src/ff.c:4186-4240 | with a 28-bit count no sum of the plan wraps: when it is refused, and all its numbers |
| Format.RoomIsSound | FatFs/src/ff.c:4193-4240 | a plan with room is sound |
| Format.PlanFormat | FatFs/src/ff.c:4186-4240 | result and layout are the function PlanOf of what is asked for and what the drive reports |
| Format.FirstLayout | FatFs/src/ff.c:4186-4221 | the layout before alignment |
| Format.FirstIsPlain | FatFs/src/ff.c:4204-4221 | place, type, reserved area, root directory and FAT size of that layout in plain numbers |
| Format.PlanIsPlain | FatFs/src/ff.c:4186-4240 | the plan in plain numbers: when it is refused, the sectors that alignment adds to the reserved area or the FAT, and the cluster count |
| Format.PlanIsWorth | FatFs/src/ff.c:4186-4240 | an accepted layout is sound if and only if the aligned data start plus one unit lies on the disk; without that room, either no cluster is left (FAT12) or the areas leave the disk |
| Format.UnalignedHasRoom | FatFs/src/ff.c:4223-4226 | without an erase block every accepted layout has room |
| Format.NoRoomIsAccepted | FatFs/src/ff.c:4223-4240 | an input that f_mkfs accepts without room: 128 sectors of 4096 bytes, 64 sectors a cluster, an erase block of 128 |
| Format.NothingToMount | FatFs/src/ff.c:2374-2376 | the boot sector of a layout without a cluster is refused by the mount |
| Format.PlanIsMounted | FatFs/src/ff.c:4283-4320 | the BPB of a sound plan is accepted by a mount with exactly the planned geometry, which is well formed |
| Format.BuildVbr | FatFs/src/ff.c:4283-4320 | the sector written is recognised as a FAT boot sector, its BPB describes the plan, and every other byte of it is what the format fixes |
| Format.BuildMbr | FatFs/src/ff.c:4264-4276 | the sector is no FAT boot sector and names one partition: sector 63, the size of the volume, the system id given, and the fixed and computed place fields; every other byte is 0 |
| Format.EndSectorIs | FatFs/src/ff.c:4274 | the end sector 63 with the top two bits of the end cylinder |
| Format.WriteBoot | FatFs/src/ff.c:4242-4324 | partition table with the system id of type and size, boot sector with the media byte 0xF0 or 0xF8, and on FAT32 its backup are on the medium |
| Format.WriteFat | FatFs/src/ff.c:4326-4354 | a fresh FAT and a blank root directory are on the medium, everything else as before |
| Format.FirstInBytes | FatFs/src/ff.c:4329-4338 | the first FAT sector in bytes: the reserved entries, the root of FAT32, zeros |
| Format.WriteVolume | FatFs/src/ff.c:4261-4372 | all writes of a format: what the medium holds if they succeed, and when they do |
| Format.FreshIsTable | FatFs/src/ff.c:4326-4347 | the bytes of a fresh FAT are a table without any used cluster but the FAT32 root |
| Format.FreshIsForest | FatFs/src/ff.c:4326-4347 | a fresh table is a forest: one chain on FAT32, none else |
| Format.FreshCount | FatFs/src/ff.c:4326-4347 | all clusters are free, one fewer on FAT32 |
| Format.FormatThenMount | FatFs/src/ff.c:4283-4354 | a formatted medium is mounted with the planned type, areas and n_clst + 2 entries, and a FAT large enough that holds a fresh table |
| Format.WriteFsInfo | FatFs/src/ff.c:4363-4372 | FSINFO and its backup name n_clst - 1 free clusters and cluster 2 as the last one taken |
| Format.InfoIsMounted | FatFs/src/ff.c:2403-2422 | a mount takes these hints over and has FSINFO in use |
| Format.FMkfs | FatFs/src/ff.c:4138-4375 | layout and result as a function of the inputs (28-bit cluster count); whenever it succeeds, a mount finds the planned volume, with a FAT in good order and the right number of free clusters, if the aligned data start plus one unit lies on the disk, and finds no volume at all otherwise; on FAT32 the mounted hints are true and the backups are there |
| Mounting.FormatAndMount | FatFs/src/ff.c:2326-4375 | format then mount succeeds exactly for a plan with room and gives a volume object with a right free count, a safe start for the write order, FSINFO in use on FAT32, and a table with only the root taken |
| Mounting.NewFile | FatFs/src/ff.c:2633-2645 | a new file on a fresh volume is ready for any call: empty, without clusters |
| Mounting.RunOnFresh | FatFs/src/ff.c:2658-3591 | any sequence of calls on it: a byte string that starts empty and can grow to exactly the bytes of the free clusters, the count right and the write order safe |
| Mounting.FormatAndRun | FatFs/src/ff.c:2326-4375 | format, mount, a new file and any sequence of calls on it, all from a bare drive |
| Mounting.TakeAndSync | FatFs/src/ff.c:833-1113 | on a mounted FAT32 volume a cluster taken and then a synchronization leave the new count and hint in FSINFO on the medium |

## Left out

- The physical driver: `disk_read`, `disk_write` and `disk_ioctl` act on an abstract array of sectors; a failed write leaves it as it was.
- What happens after a failed disk access, beyond the sticky error, the kept window and the FAT of every state written.
- Validation of file objects and volumes (`validate`, `get_ldnumber`, drive status, write protection, mount ids).
- Opening a file by path: path resolution, access modes and the checks of attributes; `FileOpen` has the parts of `f_open` that act on an entry found.
- Rename, unlink, mkdir, attributes, labels, timestamps (a parameter where they are stored), `f_forward`, string functions and `f_fdisk`.
- Double-byte code pages, Unicode conversion, relative paths, file locks, re-entrancy, tiny buffers, TRIM and read-only builds.
- Several files open at once: one file object at a time, with the chains of all other files kept.
- FileWrite.FWrite: a write that the link map does not serve is followed to the first sector outside the file, not to what it overwrites there.
- FileSeek.FLseek: the table of a fast seek must be one that the builder has made for this file, the file having been cut, or having got its first cluster, since, but not both. Any other contents would send the code past the end of the table; `FileSeek.LookUp` says where a file cut to nothing and written again is sent.
- FileRuns.Run: runs without disk errors; with a link map set, one that was made when the file had a cluster, and no write while the file has none.
- FileSync.FSync: the directory entry lies outside the FAT and the file's own clusters; on FAT32 the reserved area has more than one sector, so that FSINFO lies inside it, and the entry is not in FSINFO. The code assumes the same.
- FatAccess.PutFat: a failed access may leave a FAT12 entry half changed; the order of writes is stated for FAT16 and FAT32 only, since a FAT12 entry may reach the medium in two writes.
- Directory.DirNext: the entries . and .. and volume labels have no meaning of their own here.
- DirectoryNames.DirRegister: numbered short names and the search for collisions are not modelled; the entry is built aside and then stored in the window.
- ShortName.CreateName: the configuration without long names; single-byte code page 1252.
- BootSector.FindVolume: automatic search only, no partition number forced.
- Mounting.MountVolume: on a medium whose accepted BPB wraps or names sectors beyond the drive no object is built (`BootSector.MountIsSound` says which those are); the object gets an empty window, where the code leaves the last sector read in it.
- Mounting.FormatAndMount: a 28-bit cluster count and a drive without errors.
- Pattern.FindNext: the items are a given list, not read by `dir_read`.
- Format.FMkfs: a 28-bit cluster count for what the mount makes of it, one FAT copy as the code fixes it, and the single-volume configuration without a partition list.
