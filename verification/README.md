# A verified model of the kernel's file system, memory, threads, pipes and terminal filter

This project models five parts of a small RISC-V operating system and proves what each of them keeps over
all its runs. `dafny verify dfyconfig.toml` checks all of it.

1. **KTFS on the block cache.** `KtfsImage` describes an image: bitmaps, inodes, data blocks and the direct,
   indirect and doubly-indirect trees, with a `Slot` for every place that can hold a block index. `KtfsTree`,
   `KtfsGrowth` and `KtfsSteps` say what one change to an image means for every file. `KtfsVolume`, `KtfsFile`
   and `KtfsDirectory` are the classes whose methods do what the source's functions do, over the fields of a
   mounted image. `KtfsLimits` says how far a file can grow and which blocks it gets. `KtfsEntries`, `KtfsFiles` and
   `KtfsFileRuns` treat directory entries, the inode table and runs through one handle; `KtfsSystem` puts them
   together: the file system is a map from names to byte sequences, with what each file lacks and what is free. `KtfsStale`, `KtfsEvicted` and `KtfsWitnesses` treat the
   inputs on which it falls short. `KtfsBitmaps` shows that bytes and masks implement the bitmaps, and `KtfsLayout` that the
   disk which the cache (`CacheSpec`, `CacheRuns`, and with its linked list `BlockCache`) presents to its clients
   holds each part of a volume in its place.
2. **Page tables on the page allocator.** `PagePool` is the free chunk list. `PageTables`, `PagePaths` and
   `PageMaps` define what a table owns and how it translates, with the hardware's walk (sections 4.3.2 and 4.4 of
   the RISC-V Privileged Architecture, version 20211203) beside the walk of the kernel's own loops. `PageClones`
   treats copies, `PageAccess` what user programs reach, and `Memory` holds the methods over the allocator and the
   tables.
3. **Threads, conditions and locks.** `ThreadLists` is the intrusive list. `Scheduling` gives each step as a
   function on values, with its invariants; `SchedulerRuns` and `SchedulerQueues` state what holds over runs; `Scheduler` updates
   the fields as the source does. A step is the code between two suspensions of the running thread, since nothing
   yields from an interrupt.
4. **Pipes and reference counts.** `Pipes` is the ring over a page; `PipeRuns` has readers, writers and closers
   take turns; `Descriptors` counts the slots of all descriptor tables; `ArgStack` lays out the first stack page.
5. **The terminal filter.** `LineEndings` defines the two one-bit machines and their laws, `Terminal` the loops
   that carry them out over buffers.

## Where the code falls short of what it says

Each of these is stated exactly, for all inputs, by the member named; those with a volume, a cache or a table have an
input on which it shows.

- `add_dentry` does not clear a block it takes as an index block, while `get_or_alloc_data_block` does. Stale words
  then become block indices: `KtfsStale.ReachedExactly` says exactly when the two agree, and `KtfsStale.StaleIndexBlock`
  gives a volume on which the entry with index 128 goes over the first bytes of a file.
- `ktfs_create` reports success even when the directory has no room for the entry. `KtfsSystem.CreateFiles`
  says exactly when a name is added, `KtfsWitnesses.CreatedNowhere` gives a volume on which it is not.
- `add_dentry` releases the root inode and the index blocks it changed as clean when a later block is missing, so the
  pointers are lost once the cache takes the buffers over, while the blocks stay marked
  (`CacheRuns.CleanReleaseForgets`). `KtfsDirectory.Directory.AddDentry` says exactly when,
  `KtfsEvicted.CreateEvicted` what the volume is then, and `KtfsEvicted.LostIndexBlock` gives a volume.
- Positions are products of 32 bits, except in `free_data_blocks`: `KtfsLayout.DisjointExactly` says that the regions
  are disjoint exactly for images within 4 GiB, `KtfsLayout.LastBlockOnSuper` gives an image on which they are not.
- `ktfs_create` adds a file with the empty name, which `ktfs_delete` removes; but it can never be opened, since the
  empty name opens the listing (`KtfsSystem.Open`).
- `ktfs_delete` leaks the blocks that hang at or beyond the end of the file, and no others: `KtfsFiles.FreedNoLeaks`.
  Such blocks are left exactly by a cut after which the file needs fewer blocks (`KtfsSteps.CutIsExact`) and by a store
  or a resize that fails after it took a block (`KtfsFileRuns.Do`). `KtfsWitnesses.CutFileLeaks` gives a file.
- The comment on new blocks in `ktfs_store` (src/modified/sys/ktfs.c:1674) does not hold for data blocks: beyond the
  last old block a gap shows what the blocks it takes held before, which are known in advance (`KtfsFile.File.Store`,
  `KtfsLimits.GrewBlock`). `KtfsWitnesses.GapReadsZero` says exactly when it reads as zero, and
  `KtfsWitnesses.GapByteIsOld` gives a volume on which it does not; so do `KtfsFile.File.SetEnd` and
  `KtfsWitnesses.GrownByteIsOld` for growth by SETEND.
- A store that runs out of blocks fails, but has overwritten the file from its position to its end
  (`KtfsFile.File.Store`).
- `find_free_inode` leaves every bitmap block pinned that it found full (`KtfsVolume.Volume.FindFreeInode`).
- A failed fetch into an evicted block leaves the old bytes under the new position: `CacheRuns.GetIsTransparent`
  says exactly when coherence is lost, `CacheRuns.MislabelledBlock` gives a cache.
- `validate_vptr` never accepts a range that ends in the topmost page, and looks at one page for an empty range
  that starts within a page: `Memory.Manager.ValidateVptr`.
- `process_exec` gives the console to slots 0 and 1 without a look at them: `Descriptors.ConsoleCounted`, with a table
  in `Descriptors.ConsoleOverwrites`.
- `uioterm_write` does not count a line feed it drops: `Terminal.Term.Write`.

## Assumptions

- Data bitmap bit 0 is set, and so are bits past the end of each region; the image ends within 4 GiB
  (`KtfsImage.Shape`).
- A file has one open handle; its cached size is the inode's (`KtfsFileRuns.InStep`).
- The device accepts reads and writes at positions it has; clients of the cache write only through buffers they
  hold and release them as dirty (`CacheRuns.Allowed`), as KTFS does but for the exits of `add_dentry` named above.
- The cache has an entry to spare at every call of KTFS: stores and resizes that fail leave buffers pinned, and enough of
  them would fill it.
- Private leaf entries of page tables stand at level 0 and have R, W or X; shared tables are the kernel's and
  refer to kernel tables only (`PageTables.Tidy`, `PageTables.KernelClosed`).
- The idle thread only yields; a lock is released by its owner (`SchedulerRuns.Allowed`).
- A pipe's end is closed when no call on it is under way (`PipeRuns.Allowed`), as the reference counts ensure.
- Opening a path gives an endpoint that no slot names yet, with count 1 (`Descriptors.Files.Open`).
- A create that would take an index block that is not blank, or run out of blocks on the way, is where a run of the file
  system ends (`KtfsSystem.GoesWrong`); names are C strings, without zero bytes.
- The raw terminal device takes whole writes, and its reads return at least one byte (`Terminal.Term`).

## Model

| member | source | states |
|---|---|---|
| `KtfsImage.Leaf` | src/modified/sys/ktfs.c:806-900 | every file block below the limit has one leaf slot, in range, whose block number is that block |
| `KtfsImage.LeafOfBlockNumber` | src/modified/sys/ktfs.c:806-900 | every leaf slot in range stands for one block number, from which it is found again |
| `KtfsImage.LeafNext` | src/modified/sys/ktfs.c:806-900 | the next file block is in the next entry, or in the first of the next table |
| `KtfsImage.PtrOfSetPtr` | src/modified/sys/ktfs.c:844-854 | a 32-bit word written little-endian into an index block is read back, and the other 127 words stay |
| `KtfsImage.PtrIsNumber` | src/modified/sys/ktfs.c:844-854 | the word is the number that its four bytes encode, lowest first |
| `KtfsTree.PutSlotVal` | src/modified/sys/ktfs.c:847-856 | writing one slot changes the value of that slot only, when no other live index slot shares its block |
| `KtfsTree.DataFrame` | src/modified/sys/ktfs.c:799-961 | changing the bytes of a block that no index slot refers to changes no slot of any live tree |
| `KtfsTree.AllocSlotVal` | src/modified/sys/ktfs.c:799-961 | taking a free block, cleared or blank, into an empty slot changes the value of that slot only |
| `KtfsTree.AllocSlotGrown` | src/modified/sys/ktfs.c:799-961 | that step keeps blocks owned once and marked, and every other live slot as it was |
| `KtfsTree.FreeCountTake` | src/modified/sys/ktfs.c:291-317 | marking a free block lowers the number of free blocks by one |
| `KtfsTree.FreeCountFull` | src/modified/sys/ktfs.c:423-452 | no block is free exactly when every bit is set |
| `KtfsTree.FirstFreeIs` | src/modified/sys/ktfs.c:423-452 | the lowest clear bit: all bits below it are set, and there is one exactly when some block is free |
| `KtfsTree.TakeFirstTwice` | src/modified/sys/ktfs.c:423-452 | taking the lowest free blocks in two goes takes the same ones, in the same order, as in one |
| `KtfsTree.FillEntered` | src/modified/sys/ktfs.c:806-816 | filling one absent slot takes the lowest free block and changes no other slot, or fails exactly when none is free |
| `KtfsTree.LocatedReached` | src/modified/sys/ktfs.c:799-961 | filling a file block's path from the inode downwards succeeds exactly when the missing blocks are no more than the free ones, and takes exactly those, lowest first |
| `KtfsGrowth.GrownMapped` | src/modified/sys/ktfs.c:799-961 | after growth by the next block, all blocks of the file up to it are present |
| `KtfsGrowth.GrownTrim` | src/modified/sys/ktfs.c:799-961 | growth block by block leaves exactly the slots that serve the file's blocks |
| `KtfsGrowth.GrownNoLeaks` | src/modified/sys/ktfs.c:799-961 | growth marks no block that nothing refers to |
| `KtfsGrowth.GrownOthers` | src/modified/sys/ktfs.c:799-961 | growing one file changes no other file's inode, block map or bytes |
| `KtfsVolume.Volume.FindFreeDataBlock` | src/modified/sys/ktfs.c:423-452 | the first item whose digit in its byte, as a number, is 0 and not 1, or ENOTSUP exactly when there is none; no block stays pinned |
| `KtfsVolume.Volume.FindFreeInode` | src/modified/sys/ktfs.c:398-421 | the same for inodes, or ENOTSUP exactly when there is none; every bitmap block that was found full stays pinned |
| `KtfsVolume.Volume.SetDataBlockStatus` | src/modified/sys/ktfs.c:291-317 | the byte of the block loses or gains the weight of its digit, as a number, all other bytes stay, and in the whole bitmap that bit alone changes |
| `KtfsVolume.Volume.SetInodeStatus` | src/modified/sys/ktfs.c:148-175 | the same for the inode bitmap |
| `KtfsBitmaps.BitOfSetBit` | src/modified/sys/ktfs.c:164-170 | setting or clearing a bit of a byte by mask changes that bit only |
| `KtfsBitmaps.BitIsDigit` | src/modified/sys/ktfs.c:437-444 | the bit tested by the mask is the binary digit of that weight of the byte as a number |
| `KtfsBitmaps.SetBitIs` | src/modified/sys/ktfs.c:304-312 | setting or clearing it by mask changes the number by that weight, if at all |
| `KtfsBitmaps.BitsWithStatus` | src/modified/sys/ktfs.c:304-312 | the byte update changes exactly the addressed bit of the whole bitmap |
| `KtfsBitmaps.FindInBlock` | src/modified/sys/ktfs.c:404-419 | the search over the bytes and masks of a bitmap block finds the first item whose digit is 0, or none exactly when the block is full |
| `KtfsVolume.Volume.GetOrAllocDataBlock` | src/modified/sys/ktfs.c:799-961 | succeeds exactly when the missing blocks are no more than the free ones, takes exactly those, returns the block of the file's leaf, and keeps ownership; beyond the largest file it fails and changes nothing |
| `KtfsVolume.Volume.TakeBlock` | src/modified/sys/ktfs.c:822-833 | finds the lowest free block, marks it and, for an index block, clears it; fails exactly when there is none |
| `KtfsVolume.Volume.DirectBlock` | src/modified/sys/ktfs.c:806-816 | the direct case carries out the filling of a path |
| `KtfsVolume.Volume.IndirectBlock` | src/modified/sys/ktfs.c:820-863 | the indirect case, with or without clearing the index block |
| `KtfsVolume.Volume.DoublyIndirectBlock` | src/modified/sys/ktfs.c:867-960 | the doubly-indirect case, with or without clearing the index blocks |
| `KtfsVolume.Volume.FreeDataBlocks` | src/modified/sys/ktfs.c:323-395 | clears the bits of exactly the file's data blocks and of the index blocks above them |
| `KtfsVolume.ServedNext` | src/modified/sys/ktfs.c:351-392 | the slots freed so far are those that serve the blocks counted so far |
| `KtfsLimits.LackingNext` | src/modified/sys/ktfs.c:799-961 | a file that has its first blocks lacks, for one more, what the path of that block lacks |
| `KtfsLimits.ReachedGrew` | src/modified/sys/ktfs.c:799-961 | growing by the next block takes the lowest free blocks for the lowest absent slots |
| `KtfsLimits.GrewTransitive` | src/modified/sys/ktfs.c:1684-1713 | so does growing block after block |
| `KtfsLimits.LimitIs` | src/modified/sys/ktfs.c:2199-2205 | a size is within the file's limit exactly when the blocks the file lacks for it, index blocks included, are free |
| `KtfsLimits.GrewLimit` | src/modified/sys/ktfs.c:1684-1713 | growing a file does not change its limit |
| `KtfsLimits.TookAll` | src/modified/sys/ktfs.c:799-961 | a file that has its first blocks now has taken exactly what it lacked for them, no block more |
| `KtfsLimits.ServingCount` | src/modified/sys/ktfs.c:323-395 | how many blocks, index blocks included, serve a file of a given number of blocks |
| `KtfsLimits.LimitOfWants` | src/modified/sys/ktfs.c:2199-2205 | the limit is known from what the file lacks for each size and the number of free blocks alone |
| `KtfsLimits.GrewBlock` | src/modified/sys/ktfs.c:799-961 | which block a new file block gets is known before: the free block with as many free ones below it as the file lacks before it |
| `KtfsSteps.WriteLeafBytes` | src/modified/sys/ktfs.c:1705 | a copy into one block changes those bytes of the file and no others |
| `KtfsSteps.WriteLeafStep` | src/modified/sys/ktfs.c:1705 | that copy keeps ownership, block maps and every other file |
| `KtfsSteps.WrittenMore` | src/modified/sys/ktfs.c:1684-1713 | each round of the copy loop adds its chunk to what is written |
| `KtfsSteps.StoredIsSplice` | src/modified/sys/ktfs.c:1681-1720 | a store at or before the end is the byte sequence with the buffer spliced in |
| `KtfsSteps.StoreResult` | src/modified/sys/ktfs.c:1623-1720 | gap, copy loop and size update together store the buffer and keep everything else |
| `KtfsSteps.GapPositioned` | src/modified/sys/ktfs.c:1623-1679 | a gap is zero up to the end of the last old block, and beyond it shows what the blocks it takes held before |
| `KtfsSteps.StepShows` | src/modified/sys/ktfs.c:799-961 | every byte that growth exposes and nobody wrote is the byte that the block taken for it held before |
| `KtfsSteps.SetEndResult` | src/modified/sys/ktfs.c:2199-2222 | growing or cutting keeps the bytes that both lengths cover |
| `KtfsSteps.CutIsExact` | src/modified/sys/ktfs.c:2209-2211 | cutting a file leaves blocks beyond its end exactly when it then needs fewer blocks |
| `KtfsSteps.FailureIsExact` | src/modified/sys/ktfs.c:1681-1693 | a call that fails leaves blocks beyond the end exactly when it took a block |
| `KtfsSteps.DiscardIsExact` | src/modified/sys/ktfs.c:2199-2205 | a growth that fails leaves blocks beyond the end, or blocks nothing refers to, exactly when it took a block |
| `KtfsSteps.DiscardInode` | src/modified/sys/ktfs.c:2212-2216 | a growth that fails is forgotten with the private inode copy, leaves every file as it was, and can only lower the file's limit |
| `KtfsSteps.BitmapFollowsTrees` | src/modified/sys/ktfs.c:291-395 | when nothing has leaked, the block maps of the live files determine the data bitmap |
| `KtfsFile.File.Store` | src/modified/sys/ktfs.c:1567-1728 | succeeds exactly when the end is within the file's limit; then the buffer is stored at the cursor, a gap shows what its blocks held, and exactly the blocks lacking are taken; a failure is ENOTSUP, has taken all blocks the file could use and has overwritten the file from the cursor to its end; no other file changes |
| `KtfsFile.File.WriteChunks` | src/modified/sys/ktfs.c:1681-1713 | the copy loop writes the buffer over the blocks it allocates or finds, and succeeds exactly within the limit |
| `KtfsFile.File.FillGap` | src/modified/sys/ktfs.c:1623-1679 | extends the file up to the cursor, exactly when that is within the limit |
| `KtfsFile.File.Fetch` | src/modified/sys/ktfs.c:1301-1553 | returns exactly the file's bytes from the cursor up to the length or the end, and advances the cursor |
| `KtfsFile.File.CopyDirect` | src/modified/sys/ktfs.c:1363-1405 | the direct part of the walk appends the next bytes of the file |
| `KtfsFile.File.CopyIndexed` | src/modified/sys/ktfs.c:1417-1462 | the walk along an index block appends the next bytes of the file |
| `KtfsFile.File.CopyDindirect` | src/modified/sys/ktfs.c:1466-1553 | the walk along the doubly-indirect trees appends the next bytes of the file |
| `KtfsFile.File.Cntl` | src/modified/sys/ktfs.c:2124-2264 | GETEND, GETPOS, SETPOS and SETEND with their limits; other commands fail |
| `KtfsFile.File.SetEnd` | src/modified/sys/ktfs.c:2163-2257 | resizes exactly within the limit, taking exactly the blocks lacking, new bytes showing what their blocks held before; after a failure the file is as it was, and no block is free unless the size was beyond the largest |
| `KtfsFileRuns.Do` | src/modified/sys/ktfs.c:1301-2264 | each call through a handle acts as on a byte sequence with a cursor, the blocks it lacks for each size and the number of free blocks: stores and resizes succeed exactly when enough are free and take exactly those; and exactly which calls leave blocks beyond the end |
| `KtfsFileRuns.DoAll` | src/modified/sys/ktfs.c:1301-2264 | every run of calls through one handle is a run of a byte sequence with a cursor, what it lacks and what is free, and touches no other file |
| `KtfsFileRuns.ReadBack` | src/modified/sys/ktfs.c:1567-1728 | what a store wrote is what a fetch from the same place returns |
| `KtfsEntries.DentryRoundTrip` | src/modified/sys/ktfs.h:105-112 | an entry written into a block is read back, and every other entry of the block stays |
| `KtfsEntries.DentryIsNumber` | src/modified/sys/ktfs.h:105-112 | an entry is the number that its first two bytes encode and the fourteen bytes after them |
| `KtfsDirectory.CStringLength` | src/modified/sys/ktfs.c:1791-1802 | a name is what stands before the first zero byte |
| `KtfsEntries.NameRoundTrip` | src/modified/sys/ktfs.c:485-487 | a name that fits is read back from its padded form |
| `KtfsEntries.SlotBySize` | src/modified/sys/ktfs.c:492-592 | the block and entry that add_dentry and delete_dentry compute from the size are those get_dentry_at_index computes from the index, in all three regions |
| `KtfsEntries.EntriesBound` | src/modified/sys/ktfs.c:1737-1913 | distinct names and inodes bound the number of entries by the number of inodes |
| `KtfsEntries.NamesAt` | src/modified/sys/ktfs.c:989-1255 | the map of names holds an inode exactly when some entry has that name and inode |
| `KtfsEntries.AppendNames` | src/modified/sys/ktfs.c:457-671 | appending an entry with a new name adds exactly that name |
| `KtfsEntries.RemoveNames` | src/modified/sys/ktfs.c:677-796 | moving the last entry into the hole removes exactly that name, and names stay distinct |
| `KtfsEntries.AppendDone` | src/modified/sys/ktfs.c:657-669 | the entry written and the size raised append one entry |
| `KtfsEntries.RemoveDone` | src/modified/sys/ktfs.c:677-796 | the last entry moved and the size lowered remove one entry |
| `KtfsEntries.WriteEntry` | src/modified/sys/ktfs.c:657-658 | writing entry n changes that entry only, of any live directory or file |
| `KtfsDirectory.Directory.GetDentryAtIndex` | src/modified/sys/ktfs.c:178-285 | returns entry n, in all three regions |
| `KtfsDirectory.Listing.Read` | src/modified/sys/ktfs.c:2305-2353 | the next name with its terminator, ENOTSUP exactly when it does not fit the buffer, nothing at the end |
| `KtfsDirectory.Directory.Find` | src/modified/sys/ktfs.c:989-1255 | finds the entry with the name, with its block and place, or none exactly when no entry has it |
| `KtfsDirectory.Directory.AddDentry` | src/modified/sys/ktfs.c:457-671 | with blank index blocks, appends the entry exactly when the blocks it needs are present or free, and otherwise silently nothing; it releases a changed buffer as clean exactly when some block is free but fewer than the entry lacks; and for any blocks the image afterwards, as held |
| `KtfsDirectory.WithDentryAppends` | src/modified/sys/ktfs.c:457-671 | with blank index blocks the image after add_dentry is the one with the entry appended |
| `KtfsDirectory.Directory.EntryBlock` | src/modified/sys/ktfs.c:489-637 | the size arithmetic and the allocations of add_dentry look up the block of the next entry, without clearing |
| `KtfsDirectory.UnsavedExactly` | src/modified/sys/ktfs.c:547-556 | an exit without an entry has changed the root inode or an index block exactly when some block was free but too few |
| `KtfsStale.ReachedExactly` | src/modified/sys/ktfs.c:526-636 | these allocations do what get_or_alloc_data_block would do exactly when the free blocks they take as index blocks hold no non-zero word |
| `KtfsStale.StaleIndexBlock` | src/modified/sys/ktfs.c:526-580 | a directory of 128 entries and a stale free block on which the next entry goes over a file's first bytes and the directory shares the file's block |
| `KtfsDirectory.Directory.DeleteDentry` | src/modified/sys/ktfs.c:677-796 | the last entry takes the place of the deleted one and the directory is one shorter |
| `KtfsDirectory.Directory.LastDentry` | src/modified/sys/ktfs.c:706-783 | finds the last entry by the size arithmetic |
| `KtfsDirectory.Directory.Create` | src/modified/sys/ktfs.c:1737-1913 | succeeds exactly for a new name that fits with a free inode, which is the lowest; with blank index blocks one entry is appended, or nothing for want of blocks, and every other file stays; a changed buffer is released as clean exactly when add_dentry runs out on the way; for any blocks the image afterwards, as held; a failure changes nothing |
| `KtfsDirectory.Directory.Delete` | src/modified/sys/ktfs.c:1922-2105 | succeeds exactly for an existing name; the entry, the inode and the file's blocks are given back and every other file stays |
| `KtfsDirectory.DentrySlot` | src/modified/sys/ktfs.c:178-285 | index arithmetic and block tree agree on where an entry lies |
| `KtfsFiles.FreedKeepsOthers` | src/modified/sys/ktfs.c:323-395 | freeing a file's blocks leaves every other file's blocks marked and its contents alone |
| `KtfsFiles.FreedNoLeaks` | src/modified/sys/ktfs.c:323-395 | deleting gives back every block that hangs from the file exactly when none hangs at or beyond its end |
| `KtfsFiles.NewInode` | src/modified/sys/ktfs.c:1889-1905 | a cleared inode brought to life is an empty file that owns nothing |
| `KtfsFiles.CreateDone` | src/modified/sys/ktfs.c:1737-1913 | the outcome of create, from its steps |
| `KtfsFiles.DeleteDone` | src/modified/sys/ktfs.c:1922-2105 | the outcome of delete, from its steps |
| `KtfsFiles.DeletedBlocks` | src/modified/sys/ktfs.c:323-395 | a delete frees as many blocks as a file of that size has, index blocks included |
| `KtfsFiles.CreateNames` | src/modified/sys/ktfs.c:1737-1913 | names stay unique when one is created |
| `KtfsSystem.NamesDiffer` | src/modified/sys/ktfs.c:1737-2105 | two names never share an inode |
| `KtfsSystem.CreateFiles` | src/modified/sys/ktfs.c:1737-1913 | a created file is empty and lacks what an empty file lacks, every other name keeps its bytes and what it lacks; nothing is added exactly when the directory has no room |
| `KtfsSystem.DeleteFiles` | src/modified/sys/ktfs.c:1922-2105 | a deleted name is gone and every other name keeps its bytes and what it lacks |
| `KtfsSystem.HandleFiles` | src/modified/sys/ktfs.c:1301-2264 | calls through a handle change that file only |
| `KtfsSystem.EntryCostIs` | src/modified/sys/ktfs.c:457-669 | what the directory lacks for one more entry is known from the number of files and what it lacks for each size |
| `KtfsSystem.CreateSnap` | src/modified/sys/ktfs.c:1737-1913 | what an accepted create does to files, free blocks and free inodes, from these alone, with the buffers held |
| `KtfsSystem.DeleteSnap` | src/modified/sys/ktfs.c:1922-2105 | what a delete does to files, free blocks and free inodes, from these alone |
| `KtfsSystem.UseSession` | src/modified/sys/ktfs.c:1301-2264 | what a session does to them: other files keep their bytes and what they lack |
| `KtfsSystem.Open` | src/modified/sys/ktfs.c:989-1255 | the listing for the empty name; for any other a handle at position 0 with the inode of the name, or none exactly when the name does not exist |
| `KtfsSystem.DoUse` | src/modified/sys/ktfs.c:989-2264 | a session through a handle starts at the file's bytes, what it lacks and what is free, and changes nothing else |
| `KtfsSystem.DoList` | src/modified/sys/ktfs.c:2305-2353 | reading the listing to its end gives every name of the map exactly once |
| `KtfsSystem.DoOp` | src/modified/sys/ktfs.c:989-2353 | each operation that does not go wrong succeeds exactly when it can, and the answer and the snapshot after it follow from the snapshot before |
| `KtfsSystem.CreateUseDelete` | src/modified/sys/ktfs.c:323-395 | create, growing calls and delete restore both bitmaps, unless the directory had to grow |
| `KtfsSystem.UseOnce` | src/modified/sys/ktfs.c:1737-2105 | a new file, any calls through its handle, and its removal run to the end exactly when the create is accepted and the directory has room; then both bitmaps are restored if nothing had leaked, the calls only grow the file and the directory did not have to; the files stay in any case, the free blocks and inodes are known, and what was taken for the directory is in a buffer released as clean exactly when some block was free but too few |
| `KtfsSystem.SmallDirectoryReady` | src/modified/sys/ktfs.c:492-524 | a directory of at most 128 entries never takes an index block |
| `KtfsSystem.RunAll` | src/modified/sys/ktfs.c:989-2353 | every run of creates, deletes, file sessions and listings is a run of a map from names to byte sequences with counts of free blocks and inodes, in which every answer and every success follows from the state before, up to the first create that is accepted and takes an index block that is not blank or runs out of blocks on the way |
| `KtfsEvicted.EvictedVals` | src/modified/sys/ktfs.c:547-641 | whichever of the changed buffers is lost after add_dentry gave up, every reference is the one held or is gone and was not there before |
| `KtfsEvicted.LeftSound` | src/modified/sys/ktfs.c:547-641 | what is left is a sound volume |
| `KtfsEvicted.LeftLeaks` | src/modified/sys/ktfs.c:547-641 | a block has leaked exactly when one had before or a reference is gone |
| `KtfsEvicted.LeftMissing` | src/modified/sys/ktfs.c:547-641 | the next entry lacks more than with the buffers held exactly when a reference is gone |
| `KtfsEvicted.HeldSnap` | src/modified/sys/ktfs.c:1737-1913 | the image that create states is the one whose snapshot the run states |
| `KtfsEvicted.CreateEvicted` | src/modified/sys/ktfs.c:1737-1913 | after a create that ran out of blocks and the loss of none, one or both buffers: the same files, no free block, one inode less, and blocks leaked exactly when the next entry lacks more than with the buffers held |
| `KtfsEvicted.LostIndexBlock` | src/modified/sys/ktfs.c:528-556 | a volume of 128 entries and one free block on which the block is lost and the next entry lacks two blocks again |
| `KtfsWitnesses.CreatedNowhere` | src/modified/sys/ktfs.c:1883-1912 | a volume on which a create is accepted, takes an inode and reports success, and there is no such file |
| `KtfsWitnesses.GrownByteIsOld` | src/modified/sys/ktfs.c:2199-2222 | a volume on which SETEND exposes a byte that is not zero |
| `KtfsWitnesses.GapReadsZero` | src/modified/sys/ktfs.c:1660-1676 | a gap past the last old block reads as zero exactly when the blocks it takes, the lowest free ones, held zeros |
| `KtfsWitnesses.GapByteIsOld` | src/modified/sys/ktfs.c:1660-1676 | a volume and a position on which it does not |
| `KtfsWitnesses.CutFileLeaks` | src/modified/sys/ktfs.c:323-395 | a file cut to nothing whose block stays marked after its delete |
| `KtfsLayout.RegionsAreDisjoint` | src/modified/sys/ktfs.c:130-175 | superblock, bitmaps, inode table and data region of an image that ends within 4 GiB never overlap at the positions as computed, and these are aligned |
| `KtfsLayout.BlockIndex` | src/modified/sys/ktfs.h:27-70 | superblock, inode bitmap, data bitmap, inode table and data region follow each other, and within a block items stand in order |
| `KtfsLayout.DisjointExactly` | src/modified/sys/ktfs.c:130-175 | no two items share a place, with positions computed in 32 bits, exactly when the image ends within 4 GiB |
| `KtfsLayout.Collision` | src/modified/sys/ktfs.c:505-513 | beyond, some data block lies on the superblock, a bitmap block or an inode block |
| `KtfsLayout.LastBlockOnSuper` | src/modified/sys/ktfs.c:340-348 | an image of one block more, whose last data block lies on the superblock except where free_data_blocks reads it |
| `KtfsLayout.HeldImage` | src/modified/sys/ktfs.h:60-90 | an image whose parts lie on the disk one behind the other takes the whole disk and is within that bound |
| `KtfsLayout.InodeRoundTrip` | src/modified/sys/ktfs.h:98-103 | an inode written into its block as eight little-endian words is read back, and the other fifteen stay |
| `KtfsLayout.InodeIsNumbers` | src/modified/sys/ktfs.h:98-103 | the fields of an inode are the numbers that its bytes encode, in the order of the structure |
| `KtfsLayout.StoreUpdates` | src/modified/sys/ktfs.c:130-175 | a store at the position of a bitmap byte, an inode or a data block updates that part of the volume and no other |
| `KtfsLayout.CacheUpdates` | src/modified/sys/cache.c:287-310 | so does a store through the cache, whatever the cache has written back so far |
| `KtfsLayout.CacheShows` | src/modified/sys/cache.c:98-275 | a successful cache_get_block of any of these positions hands out that part of the volume |
| `CacheSpec.TableToBack` | src/modified/sys/cache.c:144-174 | moving an entry to the back, as another or the same position, replaces it in the table of positions |
| `CacheRuns.GetIsTransparent` | src/modified/sys/cache.c:98-275 | a call succeeds exactly when the position is aligned and cached, or on the device with an entry to spare; it hands out the block's contents; it keeps the disk clients see, and coherence, exactly when it does not take over an entry for a position the device refuses |
| `CacheRuns.GetErrors` | src/modified/sys/cache.c:98-275 | EIO exactly when the device refuses a block for which there is an entry, ENOTSUP exactly for a position that is not aligned or a cache whose entries are all held |
| `CacheRuns.CleanReleaseForgets` | src/modified/sys/cache.c:207-310 | a write to a clean buffer that is then released as clean is seen until the entry is taken over, and then undone |
| `CacheRuns.MislabelledBlock` | src/modified/sys/cache.c:207-237 | a full cache on which a failed get is followed by a get that succeeds with the bytes of another block |
| `CacheRuns.EvictIsTransparent` | src/modified/sys/cache.c:207-274 | a failed fetch into a victim leaves the victim's old bytes under the new position |
| `CacheRuns.HeldStays` | src/modified/sys/cache.c:208-217 | a held entry keeps position, buffer and holders whatever is asked for |
| `CacheRuns.ReleaseIsTransparent` | src/modified/sys/cache.c:287-310 | a release keeps coherence and the disk clients see |
| `CacheRuns.StepPins` | src/modified/sys/cache.c:98-310 | a get that succeeds adds a holder of its position, a release takes one away, nothing else changes a count |
| `CacheRuns.PinsAreHolders` | src/modified/sys/cache.c:98-310 | over every run a buffer is held as often as it was got and not yet released |
| `CacheRuns.ReleasedServes` | src/modified/sys/cache.c:98-310 | when every get has been released, the cache serves every block of the device |
| `CacheRuns.WriteIsSeen` | src/modified/sys/cache.c:287-310 | a client's write through a held buffer is what changes the disk clients see |
| `CacheRuns.FlushIsTransparent` | src/modified/sys/cache.c:317-341 | a flush succeeds, keeps the disk clients see, and leaves no entry dirty |
| `CacheRuns.FlushReachesDevice` | src/modified/sys/cache.c:317-341 | after a flush the device equals that disk at every block no client is changing |
| `CacheRuns.RunIsTransparent` | src/modified/sys/cache.c:98-341 | over every run the disk clients see is the first one with the clients' writes applied in order |
| `CacheRuns.GetReturnsLastWrite` | src/modified/sys/cache.c:98-275 | every successful get hands out the last bytes written to its position |
| `CacheRuns.StepKeepsRecency` | src/modified/sys/cache.c:136-179 | entries stay in order of last successful get |
| `CacheRuns.VictimIsLeastRecent` | src/modified/sys/cache.c:207-217 | over every run the victim is the least recently got of the entries nobody holds |
| `BlockCache.Cache.GetBlock` | src/modified/sys/cache.c:98-275 | the list of blocks with its head, tail and count carries out the call on entries; the block handed out is the last one, and the others keep their order |
| `BlockCache.Cache.FetchInto` | src/modified/sys/cache.c:77-86 | the block takes the position first, then the bytes if the device has them |
| `BlockCache.Cache.Unlink` | src/modified/sys/cache.c:257-267 | takes a block out of the list, with the tail corrected |
| `BlockCache.Cache.HandOut` | src/modified/sys/cache.c:136-174 | a hit is held once more and moves to the tail |
| `BlockCache.Cache.AddBlock` | src/modified/sys/cache.c:181-205 | a new block is linked only after its fetch succeeded |
| `BlockCache.Cache.TakeOver` | src/modified/sys/cache.c:207-274 | the first unheld block is written back if dirty, refilled and moved to the tail |
| `BlockCache.Cache.Lookup` | src/modified/sys/cache.c:136-179 | finds the block of a position and its predecessor |
| `BlockCache.Cache.ReleaseBlock` | src/modified/sys/cache.c:287-310 | one holder less and the dirty flag, for that block only |
| `BlockCache.Cache.Flush` | src/modified/sys/cache.c:317-341 | writes dirty blocks in list order until the device refuses one |
| `BlockCache.HeldBlockKeeps` | src/modified/sys/cache.c:208-274 | a held block object keeps its position and buffer whatever is asked for |
| `PagePool.TotalIsSize` | src/modified/sys/memory.c:834-847 | for disjoint chunks the counts add up to the number of free pages |
| `PagePool.Pool.FindBest` | src/modified/sys/memory.c:753-765 | a smallest chunk that is large enough, or none when there is none |
| `PagePool.Pool.AllocPages` | src/modified/sys/memory.c:744-792 | consecutive free pages from the end of a smallest sufficient chunk, exactly those leave the free set; a panic exactly when no chunk suffices |
| `PagePool.Pool.FreePages` | src/modified/sys/memory.c:795-831 | exactly the given pages join the free set, whether or not a chunk ends where they start |
| `PagePool.Pool.PageCount` | src/modified/sys/memory.c:834-847 | the size of the free set |
| `PageTables.TableFrame` | src/modified/sys/memory.c:477-521 | what a table owns depends on its own pages only |
| `PageTables.WalkFrame` | src/modified/sys/memory.c:477-521 | translation depends on the pages of the space and of the kernel only |
| `PageTables.EntryChanged` | src/modified/sys/memory.c:477-521 | changing one entry trades what it owned for what it owns now |
| `PagePaths.PathChanged` | src/modified/sys/memory.c:477-521 | the same for an entry at any level, seen from the root |
| `PagePaths.ViewChanged` | src/modified/sys/memory.c:477-521 | exactly the pages that share the changed entry are seen through the new one, by the hardware's walk and by the kernel's |
| `PageMaps.TablePlaced` | src/modified/sys/memory.c:485-514 | a fresh zeroed table in an empty entry changes no translation and is owned |
| `PageMaps.LeafPlaced` | src/modified/sys/memory.c:516-520 | a new level-0 entry changes the translation of its own page only |
| `PageMaps.WalkIsEntry` | src/modified/sys/memory.c:477-521 | the hardware's translation of a private page is the one its level-0 entry calls for; an entry with W but not R faults |
| `PageMaps.SamePathDigits` | src/modified/sys/memory.c:128-131 | two page numbers use the same entries exactly when their low 27 bits agree |
| `PageMaps.Digits` | src/modified/sys/memory.c:128-131 | the three indices are the digits of the low 27 bits of a page number |
| `PageAccess.LeafAccess` | src/modified/sys/memory.c:930-945 | a page mapped with some flags is reached by user programs exactly as the flags ask, by the permission, accessed and dirty checks of the hardware |
| `PageMaps.LeafTablePrivate` | src/modified/sys/memory.c:559-571 | the loops' own walk finds the table on a private page's path, or there is no mapping |
| `Memory.Manager.AllocPage` | src/modified/sys/memory.c:731-735 | some free page leaves the free set; a panic exactly when there is none |
| `Memory.Manager.PtabInsert` | src/modified/sys/memory.c:477-521 | maps the page and only it, with exactly the tables that are missing, each on a free page; a panic exactly when fewer pages are free; conserves pages up to the frame mapped before |
| `Memory.Manager.MapPage` | src/modified/sys/memory.c:464-474 | the same for the page of an address; user programs reach the frame exactly as the flags ask |
| `Memory.Manager.MapRange` | src/modified/sys/memory.c:524-533 | a panic exactly when fewer pages are free than the tables that are missing on the way to any page of the range; otherwise exactly those are made, each page translates to the matching frame with the flags, every other page as before; user programs reach each frame exactly as the flags ask |
| `PageMaps.NextNeeds` | src/modified/sys/memory.c:524-533 | the next page of a range needs what the range needs beyond the tables made for the pages before |
| `PagePaths.GapChanged` | src/modified/sys/memory.c:485-514 | exactly the pages that share a changed entry miss other tables than before |
| `Memory.Manager.SetRangeFlags` | src/modified/sys/memory.c:548-581 | mapped pages of the range keep their frames and get the flags, everything else stays; a panic exactly for an unaligned start; user programs reach those frames exactly as the flags ask |
| `Memory.Manager.UnmapAndFreeRange` | src/modified/sys/memory.c:584-613 | pages of the range are unmapped and exactly their frames become free, everything else stays; user programs reach none of them |
| `Memory.Manager.ValidateVptr` | src/modified/sys/memory.c:616-671 | returns 0 exactly when the range ends at or below the topmost page and every page it touches is well-formed and mapped with the flags; otherwise the first fault's code, or ENOMEM for a range that wraps |
| `Memory.PassedTranslates` | src/modified/sys/memory.c:647-652 | a page that passes for reading translates in hardware with each flag asked for, and is reached by user programs if accessed and dirty were asked for |
| `Memory.FaultIs` | src/modified/sys/memory.c:633-655 | EINVAL exactly for a mapped page that lacks a flag asked for, EBADFMT exactly for an address out of range or a page that is not mapped |
| `Memory.WellFormedIs` | src/modified/sys/memory.c:921-925 | bits 63 to 38 all 0 or all 1 |
| `Memory.MtagRoundTrip` | src/modified/sys/memory.c:879-890 | the tag has mode, identifier and page number in the fields of satp, and the root table is found again from it |
| `PageClones.SizeIsFoot` | src/modified/sys/memory.c:374-402 | the number of private entries below a table is the number of pages it owns |
| `PageClones.TwinsSeenAlike` | src/modified/sys/memory.c:374-402 | a copied table translates every page alike: shared translations the same, others with the same permissions and frames of equal contents |
| `PageAccess.CloneAccess` | src/modified/sys/memory.c:374-402 | user programs reach a page of a copy as they reach the page itself: a shared one in the same frame, any other in a frame with equal contents |
| `PageClones.FramesDistinct` | src/modified/sys/memory.c:374-402 | different pages of a space are mapped to different frames |
| `PageClones.CopyNext` | src/modified/sys/memory.c:374-402 | the copy so far, over the pages taken so far, grows by one entry |
| `PageClones.CopyIsSpace` | src/modified/sys/memory.c:405-420 | the finished copy is a space over exactly the pages taken, disjoint from the original's |
| `PageClones.CloneIsIsolated` | src/modified/sys/memory.c:405-420 | no page of the copy shares a frame with the original, the kernel, the free pages or another page of the copy |
| `Memory.Manager.PtabClone` | src/modified/sys/memory.c:374-402 | copies a table and what is below; a panic exactly when fewer pages are free than the table owns |
| `Memory.Manager.CloneActive` | src/modified/sys/memory.c:405-420 | a second space that translates alike with fresh frames; the original is unchanged; a panic exactly when too few pages are free |
| `Memory.Manager.PtabReset` | src/modified/sys/memory.c:961-979 | clears the private entries and frees each page below exactly once |
| `Memory.Manager.ResetActive` | src/modified/sys/memory.c:423-431 | every private page is unmapped and freed, translations through shared root entries stay |
| `Memory.Manager.DiscardActive` | src/modified/sys/memory.c:434-449 | the main space becomes active and exactly the pages of the space left behind are freed; in the main space nothing happens |
| `Memory.Manager.CloneAndDiscard` | src/modified/sys/memory.c:405-449 | clone, enter, discard restores the free pages and leaves every page of the parent, tables and frames, and its translations as they were |
| `ThreadLists.ThreadList.Insert` | src/modified/sys/thread.c:672-687 | appends to the list |
| `ThreadLists.ThreadList.Remove` | src/modified/sys/thread.c:689-706 | takes the first thread, or null from an empty list |
| `ThreadLists.ThreadList.AppendAll` | src/modified/sys/thread.c:708-725 | appends the other list in order and empties it |
| `ThreadLists.ThreadList.Clear` | src/modified/sys/thread.c:663-666 | empties the list |
| `ThreadLists.ThreadList.IsEmpty` | src/modified/sys/thread.c:668-670 | whether the list is empty |
| `Scheduling.SuspendSettles` | src/modified/sys/thread.c:634-660 | a suspension always finds a thread, the first ready one, and exactly that one runs afterwards |
| `Scheduling.BroadcastPlaced` | src/modified/sys/thread.c:489-502 | all waiters become ready, in order, behind those that are ready, and no other thread moves |
| `Scheduling.AcquireInv` | src/modified/sys/thread.c:509-520 | a round of acquire takes a free lock, counts a nested acquire, or waits for an owned one; all invariants are kept |
| `Scheduling.ReleaseInv` | src/modified/sys/thread.c:522-530 | the owner's last release frees the lock and readies its waiters; an earlier one only counts down |
| `Scheduling.ReleaseAllInv` | src/modified/sys/thread.c:740-756 | an exiting thread ends up with no lock |
| `Scheduling.ExitInv` | src/modified/sys/thread.c:326-341 | exit keeps all invariants |
| `Scheduling.SpawnInv` | src/modified/sys/thread.c:276-309 | a new thread takes the lowest free slot, is the running thread's child and is queued last; EMTHR exactly when all slots are taken |
| `Scheduling.JoinInv` | src/modified/sys/thread.c:365-416 | a round of join reclaims an exited child that was asked for, the first one for any, reports that there is none to wait for, or waits with no such child exited |
| `Scheduling.ReclaimInv` | src/modified/sys/thread.c:564-582 | reclaiming keeps all invariants and frees the slot |
| `SchedulerRuns.StepInv` | src/modified/sys/thread.c:276-530 | every step keeps placement, lock ownership and family invariants |
| `SchedulerRuns.BootInv` | src/modified/sys/thread.c:208-242 | the boot state has them |
| `SchedulerRuns.RunInv` | src/modified/sys/thread.c:276-530 | every reachable state has them |
| `SchedulerRuns.StepOrder` | src/modified/sys/thread.c:634-660 | a suspension runs the first ready thread; every other step only adds behind the ready ones |
| `SchedulerRuns.MovesUp` | src/modified/sys/thread.c:634-660 | a ready thread moves up by one with each suspension |
| `SchedulerRuns.RunsInTurn` | src/modified/sys/thread.c:634-660 | a thread at position k runs after exactly k + 1 suspensions, whatever else happens |
| `SchedulerRuns.CountIsNesting` | src/modified/sys/thread.c:509-530 | a lock's count is the number of nested acquires, positive exactly while it is owned |
| `SchedulerQueues.StepQueue` | src/modified/sys/thread.c:462-502 | a wait puts the running thread last on the condition's list, a broadcast empties it, no other step changes it |
| `SchedulerQueues.StepWoken` | src/modified/sys/thread.c:489-502 | a broadcast puts the waiters on the ready list as they stood, behind the threads that were ready |
| `SchedulerQueues.FirstComeFirstServed` | src/modified/sys/thread.c:462-502 | over every run, of two waiters for the same condition the next broadcast readies the one that came first before the other |
| `SchedulerQueues.StepHeld` | src/modified/sys/thread.c:509-540 | the locks of a thread, the one taken last first, after each step |
| `SchedulerQueues.ExitReady` | src/modified/sys/thread.c:326-341 | an exit readies the waiters for the thread's locks, the one taken last first, and then its parent |
| `SchedulerQueues.StepFamily` | src/modified/sys/thread.c:276-582 | who is whose child after each step: a new thread is the running thread's, a detached one nobody's, and the children of a reclaimed one its parent's |
| `Scheduler.Kernel.RunningThreadSuspend` | src/modified/sys/thread.c:634-660 | the fields are updated as the suspension of the value model says; there is always a next thread |
| `Scheduler.Kernel.ConditionWait` | src/modified/sys/thread.c:462-480 | carries out a wait: the thread stands last on the condition's list |
| `Scheduler.Kernel.ConditionBroadcast` | src/modified/sys/thread.c:489-502 | the loop over the waiters and the append carry out a broadcast |
| `Scheduler.Kernel.LockAcquireRound` | src/modified/sys/thread.c:509-520 | carries out one round of acquire |
| `Scheduler.Kernel.LockRelease` | src/modified/sys/thread.c:522-530 | carries out a release |
| `Scheduler.Kernel.LockReleaseCompletely` | src/modified/sys/thread.c:727-738 | wakes the waiters and takes the lock off its owner's list |
| `Scheduler.Kernel.ReleaseAllThreadLocks` | src/modified/sys/thread.c:740-756 | the loop frees every lock of the thread |
| `Scheduler.Kernel.RunningThreadExit` | src/modified/sys/thread.c:326-341 | carries out an exit |
| `Scheduler.Kernel.SpawnThread` | src/modified/sys/thread.c:276-309 | carries out a spawn |
| `Scheduler.Kernel.FindFreeSlot` | src/modified/sys/thread.c:593-601 | the lowest free slot from 1 on |
| `Scheduler.Kernel.ThreadReclaim` | src/modified/sys/thread.c:564-582 | the loop over the slots carries out a reclaim |
| `Scheduler.Kernel.ThreadJoinRound` | src/modified/sys/thread.c:365-416 | carries out one round of join |
| `Scheduler.Kernel.ThreadDetach` | src/modified/sys/thread.c:437-441 | the thread has no parent any more |
| `Pipes.RingExtend` | src/modified/sys/uio.c:129-132 | a byte stored behind fewer than a page of bytes extends the ring's contents |
| `Pipes.RingDrop` | src/modified/sys/uio.c:89-92 | advancing the head drops the oldest bytes |
| `Pipes.Pipe.ReadRound` | src/modified/sys/uio.c:68-100 | waits exactly when the ring is empty and the writing end open; otherwise takes the oldest bytes, as many as there are and fit; the lock is free afterwards |
| `Pipes.Pipe.WriteRound` | src/modified/sys/uio.c:102-140 | EPIPE exactly when the reading end is closed; waits exactly when it is open and the ring full; otherwise appends as many bytes as fit; the lock is free afterwards |
| `Pipes.Pipe.CloseRead` | src/modified/sys/uio.c:142-158 | closes the end; the pipe is freed exactly when the other is closed |
| `Pipes.Pipe.CloseWrite` | src/modified/sys/uio.c:160-176 | closes the end; the pipe is freed exactly when the other is closed |
| `PipeRuns.StepInv` | src/modified/sys/uio.c:68-176 | every step keeps: waiting readers mean an empty ring with the writer open, waiting writers a full ring with the reader open |
| `PipeRuns.StreamKept` | src/modified/sys/uio.c:68-176 | over every run, bytes read followed by the ring are the bytes accepted, in order |
| `PipeRuns.EndOfStream` | src/modified/sys/uio.c:76-85 | a read returns no bytes exactly when the writer is closed and everything was read; a write fails exactly when the reader is closed |
| `PipeRuns.RoundAmounts` | src/modified/sys/uio.c:68-141 | a read takes as many bytes as were asked for or all there are, a write puts in all of its bytes or as many as fill the ring |
| `PipeRuns.EveryWaiterWoken` | src/modified/sys/uio.c:68-176 | a write that accepts bytes and the close of the writing end wake every waiting reader with its request, a read that returns bytes and the close of the reading end every waiting writer |
| `PipeRuns.CallsKept` | src/modified/sys/uio.c:68-176 | over every run exactly the calls started and not yet answered are waiting or woken, each with its request |
| `PipeRuns.NoLostWakeup` | src/modified/sys/uio.c:68-176 | over every run a reader not yet answered can go on when there are bytes or the writer is closed, a writer when there is room or the reader is closed |
| `PipeRuns.NeverBothWait` | src/modified/sys/uio.c:76-119 | never do a reader and a writer both wait, and nobody is inside a call once the pipe is freed |
| `PipeRuns.DoRead` | src/modified/sys/uio.c:68-100 | the ring carries out a read round of the step system |
| `PipeRuns.DoWrite` | src/modified/sys/uio.c:102-140 | the ring carries out a write round of the step system |
| `Descriptors.FilledCounted` | src/modified/sys/uio.c:253 | one more slot is right with one more reference |
| `Descriptors.EmptiedCounted` | src/modified/sys/uio.c:201-217 | one slot less is right with one reference less, and a close when it was the last |
| `Descriptors.ClosedOnce` | src/modified/sys/uio.c:201-217 | an endpoint is closed at most once, and has been exactly when no slot of any process names it |
| `Descriptors.Files.Drop` | src/modified/sys/uio.c:201-217 | gives up a slot; the close method runs exactly when it was the last |
| `Descriptors.Files.Open` | src/modified/sys/syscall.c:373-416 | EBADFD, EMFILE or the open's error in that order; otherwise the slot asked for, or the first free one, names the endpoint |
| `Descriptors.Files.Close` | src/modified/sys/syscall.c:425-440 | EBADFD exactly for a bad or empty descriptor; otherwise gives up the slot |
| `Descriptors.Files.Dup` | src/modified/sys/syscall.c:628-661 | shares an endpoint in use with an empty slot, or fails with nothing changed |
| `Descriptors.Files.MakePipe` | src/modified/sys/syscall.c:557-616 | two new endpoints in two empty slots, or EBADFD or EBUSY with nothing changed |
| `Descriptors.PipeResultFits` | src/modified/sys/syscall.c:574-605 | the slots are those asked for or the first free ones that differ from the other |
| `Descriptors.PipeResultIs` | src/modified/sys/syscall.c:574-605 | a pipe is made exactly when two different empty slots are as asked for; EBUSY exactly for a slot asked for that is taken |
| `Descriptors.OpenResultIs` | src/modified/sys/syscall.c:373-416 | the errors of sysopen in their order, and otherwise the slot asked for or the first empty one |
| `Descriptors.DupResultIs` | src/modified/sys/syscall.c:628-661 | the errors of sysuiodup in their order, and otherwise the slot asked for or the first empty one |
| `Descriptors.FirstFreeIs` | src/modified/sys/syscall.c:383-390 | every slot before the one found is taken or skipped |
| `Descriptors.Files.CopyTable` | src/modified/sys/process.c:154-158 | the child's table is the parent's, with a reference for each slot |
| `Descriptors.Files.Fork` | src/modified/sys/process.c:146-211 | as that, or, when the thread cannot be made, everything exactly as before |
| `Descriptors.Files.Exit` | src/modified/sys/process.c:220-234 | every slot of the process is given up |
| `Descriptors.ConsoleCounted` | src/modified/sys/process.c:93-106 | giving the console to slots 0, 1 and 2 keeps the counts right exactly when slots 0 and 1 were empty too |
| `Descriptors.ConsoleOverwrites` | src/modified/sys/process.c:93-106 | a table on which they do not, and an endpoint keeps a reference that no slot can give up |
| `ArgStack.BuildStack` | src/modified/sys/process.c:256-303 | ENOMEM exactly when the arguments do not fit or the count is negative; otherwise reading the page at the returned address gives back the arguments and a final null, 16-aligned, with nothing written below |
| `ArgStack.StackSize` | src/modified/sys/process.c:266-276 | the size of vector and strings, or ENOMEM exactly when it exceeds a page |
| `ArgStack.CopyArgs` | src/modified/sys/process.c:294-301 | every pointer and string is in place, and stays in place while later ones are written |
| `ArgStack.PlacedIsRead` | src/modified/sys/process.c:294-298 | an argument in place is read back through its pointer |
| `LineEndings.InConcat` | src/modified/usr/uio.c:258-263 | the input machine's result does not depend on how the text is split |
| `LineEndings.OutConcat` | src/modified/usr/uio.c:313-319 | the output machine's result does not depend on how the text is split |
| `LineEndings.InAfterOutFrom` | src/modified/usr/uio.c:237-407 | reading back what was written out gives what reading the text gives, from either state |
| `LineEndings.FilterLaws` | src/modified/usr/uio.c:237-407 | in after out is in; out after out is out; the pair is the identity on text without CR |
| `LineEndings.NormsAre` | src/modified/usr/uio.c:237-407 | in: each CR becomes one LF, a LF right after one nothing, every other character itself; out: each CR, and each LF not right after one, becomes the pair, every character that is neither itself |
| `Terminal.Term.Filter` | src/modified/usr/uio.c:265-291 | the in-place loop leaves the input machine's output at the front of the buffer |
| `Terminal.Term.Read` | src/modified/usr/uio.c:237-299 | returns the input machine's output for the raw bytes used up, and waits for more exactly when the machine makes nothing of all there is |
| `Terminal.Term.Write` | src/modified/usr/uio.c:301-407 | the device gets the output machine's output for the buffer; the count is the length, less one exactly when a line feed at the start was dropped |
| `Terminal.Term.WriteChunks` | src/modified/usr/uio.c:301-407 | for any split into writes the device gets the output machine's output for the whole text |
| `Terminal.Term.ReadChunks` | src/modified/usr/uio.c:237-299 | any number of reads return together the input machine's output for the raw bytes used up |

## Left out

- `KtfsDirectory.Directory.Create`: of an entry that takes an index block that is not blank only the image is stated; a
  name without zero bytes, as a C string is.
- `KtfsSystem.RunAll`: ends at the first create that would take an index block that is not blank or run out of blocks on
  the way; `KtfsDirectory.Directory.Create` and `KtfsEvicted.CreateEvicted` say what that one does.
- `KtfsFileRuns.DoAll`: after a SETEND that fails for want of blocks, which of the blocks that the file lacked it
  still lacks.
- `KtfsSystem.CreateUseDelete`: for calls that leave no block beyond the end of the file.
- `KtfsFile.File.Store`: the source leaves locks and pins behind on the exits with an error, which are not modelled.
- `KtfsVolume.Volume.FindFreeInode`: pins are counted here only; that other calls give back every pin they take is not
  stated.
- `KtfsFile.File.Fetch`: returns the bytes instead of filling a caller's buffer.
- `KtfsVolume.Volume.GetOrAllocDataBlock`: blocks are fields of the volume; its calls of the block cache are not
  written out, since the cache shows and updates those fields (`KtfsLayout.CacheShows`, `KtfsLayout.CacheUpdates`).
- `BlockCache.Cache.GetBlock`: no ENOMEM from the heap and no cache lock; a block stands for its buffer.
- `PagePool.Pool.AllocPages`: the chunk headers that lie in the free pages themselves; chunks are a sequence.
- `Memory.Manager.MapRange`: mappings are private (no G flag), with R, W or X, of frames nobody owns, and at most the
  address space long.
- `Memory.Manager.SetRangeFlags`: for pages that no shared table serves, with the same flags.
- `Memory.Manager.UnmapAndFreeRange`: for pages that no shared table serves.
- `Memory.Manager.CloneActive`: memory after a kernel panic; contents of free pages.
- `Scheduler.Kernel.LockAcquireRound`: one round of the loop; the rounds of a waiting thread are later steps of a run.
- `Scheduler.Kernel.ThreadJoinRound`: likewise.
- `Scheduler.Kernel.RunningThreadSuspend`: the switch of stacks and address spaces, the disabling of interrupts and
  the freeing of an exited thread's stack; threads are named by their slot, and the lists are sequences, whose
  pointer form is `ThreadLists`.
- `Scheduler.Kernel.RunningThreadExit`: the main thread's exit, which halts the system.
- `Pipes.Pipe.ReadRound`: one round of the loop; the broadcast that follows is a part of `PipeRuns.Read`. The lock
  is a flag that is free whenever it is asked for.
- `Pipes.Pipe.WriteRound`: likewise, with `PipeRuns.Write`.
- `Descriptors.Files.Fork`: the three allocations that can fail are one outcome; the trap frame and the wait for the
  child.
- `Terminal.Term.Read`: a length of 0, for which the source reads on forever.
- `Terminal.Term.Write`: partial raw writes and errors of the raw device.
- Device errors inside KTFS, with the locks and pins left behind on such exits.
- The list of open files and its lock, and runs through several handles of one file.
- `process_exec` beyond the console slots: the file is closed and its slot is not cleared when it does not return.
- `validate_vstr`, the page fault handler, TLB fences, megapage mappings and the set-up of the main address space.
- Timers and alarms: only the order of the sleep list would remain to be said.
- Heaps, string functions, drivers, ELF loading, console output and user programs other than the terminal filter.
