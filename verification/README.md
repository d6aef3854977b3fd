# Pintos, modelled in Dafny

A Dafny model of the stateful and arithmetic cores of Pintos, a small 32-bit kernel, with proofs of
what its data structures and protocols keep. `dafny verify dfyconfig.toml` checks the whole project.

State that the C code updates in place is a class or an array here, and every method is proved
against a specification stated on values: the bytes of a file, the slots of a directory, the sequence
a linked list stands for, the set a hash table holds, the flat map a page directory represents.
Integers are unbounded, so every wrap-around that the C code can meet is written out. Any memory
allocation may fail: operations take a record of which ones do.

## How the parts fit together

- **File system.** `Words`, `Bitmaps`, `Inodes`, `Directory`, `StoredMaps` and `Volumes` describe a
  disk of 512-byte sectors, who owns which sector, the directory's slots and the free map with its
  copy on disk. `FileSystem` holds the operations of free-map.c, inode.c, directory.c, filesys.c and
  file.c as methods of one class, `Format` the formatting and mounting of a disk. `FileModel` is what
  callers see: directory slots, byte strings and handles, and for each operation exactly when it
  succeeds, given the allocations that succeed (`Allocations`) and whether the disk has room.
  `Sessions.Run` proves that every sequence of operations on a formatted disk, whichever allocations
  fail, is a run of `FileModel`, with the free map of the disk at each step; `NameTables` and
  `FileModel.RunPromisedIff` say exactly when such a run behaves like a map from names to byte
  strings, and `FileModel.SucceedsIff` when its operations succeed.
- **Kernel allocator.** `Palloc`, `Blocks`, `Heaps` and `Malloc`: page pools, arenas, free lists and
  blocks, up to `Malloc.Run` over every sequence of calls and what each of them does.
- **Containers and sorting.** `Merging` and `Lists` (doubly linked lists and their in-place natural
  merge sort), `Hash` (the chained table and its rehashing), `HeapSort` (sort and binary_search).
- **Scheduler.** `FixedPoint` is the arithmetic of load_avg and recent_cpu. `ReadyQueues` holds the
  state of the multi-level feedback queues as a value, what each operation makes of it, and what
  every run keeps, up to the order in which threads of one queue run. `Scheduler` is the code, each
  method of which does to the threads and queues what `ReadyQueues` says.
- **64-bit division** from 32-bit division: `Arithmetic`.
- **Semaphores and locks** as step systems under any interleaving: `Synch`.
- **Page tables**: `Masks`, `PageTables`, `Pagedir`.
- **Printers and parsers**: `Stdio`, `Printf`, `Ustar`, `Tokenizer`, `Argv`, `Elf`.
- `Sequences` and `Vaddr` hold what several modules share.

A predicate written `var ok := ...; ok` is a long conjunction that the verifier is to take as one
assertion; `hide` at the start of a proof names the definitions that it does not need.

## Findings

Places where the code does not do what it or its comments promise. Each has a lemma or method with a
concrete input, and an exact condition for all inputs.

- src/filesys/directory.c:163-167 says that a short read happens only at the end of the file. It also
  happens when no bounce buffer can be allocated, and dir_add then stores over an entry in use or
  adds a name twice: `NameTables.LostName`. It keeps its promise if and only if the name is not in a
  slot past the lookup's reach and the slot where the search ended is free:
  `NameTables.AddsNameIff`, and for whole runs `FileModel.RunPromisedIff`.
- The free map file does not always hold the bitmap in memory. free_map_release ignores the result of
  bitmap_write (src/filesys/free-map.c:49), and free_map_allocate rolls back memory only
  (src/filesys/free-map.c:33-37): `Format.StaleRelease`, `Format.StaleRollback`. The exact conditions
  are `FileSystem.FileSys.ReleaseUpToDate` and `FileSystem.FileSys.AllocateUpToDate`. What every run
  keeps is that the file holds at least the marks in memory, so mounting the disk again never gives
  away an owned sector: `Sessions.Restart`.
- push_arguments returns only if the whole frame fits one page; otherwise a push faults in the kernel
  and is retried forever. The test of MAX_ARGS_SIZE (src/userprog/process.c:269) can never be true.
  `Argv.PushArguments` has the exact condition, `Argv.PointersDoNotFit` a family of command lines
  shorter than a page, of which it holds only for those with up to 678 one-letter arguments.
- The final stack pointer is not always a multiple of 4 (src/userprog/process.c:243-244 says it is):
  `Argv.AlignedIff`, `Argv.Misaligned`.
- malloc adds its header to the size without checking for wrap-around (src/threads/malloc.c:109), so
  requests from 2^32 - 11 on get one page: `Malloc.GrantedEnough`, `Malloc.WrappedRequest`. realloc
  then copies past the new block if the old one is bigger: `Malloc.CopyFitsIff`,
  `Malloc.CopiesTooFar`.
- thread_get_recent_cpu multiplies by 100 in 32 bits (src/threads/thread.c:571-572), which overflows
  from a recent_cpu of 1310.72 on: `FixedPoint.ReportFits`. Its bound keeps it below that for at most
  4 ready threads, not for the 545 up to which what is stored fits: `FixedPoint.BoundIsTight`.
- The queues are served first come, first served (src/threads/thread.c:452-455 promises it) except
  after a donation: when update_priority gives a ready thread its old priority back, the thread goes
  to the end of the queue it is in. `ReadyQueues.KeepsPlaceIff` is the exact condition, and
  `ReadyQueues.ServedInOrder` the promise for threads in the queue of their priority.
- umod64 and smod64 return 32 bits (src/lib/arithmetic.c:131-135, 150-154). They give the remainder
  for every dividend if and only if the divisor is at most 2^32, or 2^31 in size:
  `Arithmetic.Umod64Exact`, `Arithmetic.Umod64Cut`, `Arithmetic.Smod64Exact`, `Arithmetic.Smod64Cut`.
- sdiv64 fails for one pair of operands, whose quotient does not fit: `Arithmetic.Sdiv64Exact`.
- parse_conversion keeps the flag `0` when a `*` width is negative (src/lib/stdio.c:372-394), and the
  number is padded on both sides: `Printf.CodedIff`, `Printf.PaddedTwice`.
- A ustar header for a regular file of negative size can be made and is then rejected:
  `Ustar.RoundTrip`.

## Model

| member | source | states |
|---|---|---|
| Bitmaps.MarkBit | src/lib/kernel/bitmap.c:158-167 | Or-ing a bit's mask into an element sets that bit and no other |
| Bitmaps.ResetBit | src/lib/kernel/bitmap.c:171-180 | And-ing the complement clears that bit and no other |
| Bitmaps.MaskTests | src/lib/kernel/bitmap.c:199-204 | An element and a mask have a common bit exactly when the tested bit is set |
| Bitmaps.MaskedBits | src/lib/kernel/bitmap.c:66-70 | Masking the last element changes no bit of the map |
| Bitmaps.Bitmap.constructor | src/lib/kernel/bitmap.c:79-94 | A new map has all its bits clear, whatever the storage held |
| Bitmaps.Bitmap.Mark | src/lib/kernel/bitmap.c:158-167 | The sequence of bits changes at one index |
| Bitmaps.Bitmap.Reset | src/lib/kernel/bitmap.c:171-180 | The sequence of bits changes at one index |
| Bitmaps.Bitmap.Test | src/lib/kernel/bitmap.c:199-204 | The result is the bit that the elements stand for |
| Bitmaps.Bitmap.SetMultiple | src/lib/kernel/bitmap.c:219-229 | Exactly the bits of the range take the value |
| Bitmaps.Bitmap.Contains | src/lib/kernel/bitmap.c:252-264 | True exactly when some bit of the range has the value |
| Bitmaps.Bitmap.Scan | src/lib/kernel/bitmap.c:297-311 | The first run of equal bits, or none when no run exists |
| Bitmaps.Bitmap.ScanAndFlip | src/lib/kernel/bitmap.c:321-327 | The first run, flipped as a whole; nothing changes when there is none |
| Bitmaps.Bitmap.Load | src/lib/kernel/bitmap.c:342-352 | The bits are those in the file, whatever the unused bits of its last word are |
| Inodes.ReadAt | src/filesys/inode.c:201-250 | The sector loop returns exactly the requested range of the flat file: with a bounce buffer the lesser of the size and what is left of the file; without one the whole sectors of that, and nothing from the middle of a sector on |
| Inodes.ReadChunk | src/filesys/inode.c:218-240 | One round reads its part of the flat file, through either path |
| Inodes.WriteAt | src/filesys/inode.c:258-318 | The same number of bytes at the offset is replaced; no other byte of the extent, not even past the file's end, and no other sector changes; nothing while writes are denied |
| Inodes.WriteChunk | src/filesys/inode.c:280-308 | One round overwrites its part of the flat file and leaves the rest of the sector alone |
| Inodes.TransferIs | src/filesys/inode.c:206-246 | The closed formula for the length of a transfer has these properties, which leave no choice |
| Inodes.SectorCntIs | src/filesys/inode.c:25-31 | Just as many sectors as hold the bytes |
| Directory.NewEntrySlot | src/filesys/directory.c:171-175 | The stored bytes of an entry read back as its name and sector |
| Directory.StoreSlot | src/filesys/directory.c:174 | Writing an entry's bytes changes one slot of the table and no other |
| Directory.StoreKeepsTable | src/filesys/directory.c:171-175 | An entry for a new inode, over whatever the slot held, keeps inodes distinct |
| NameTables.AddsNameIff | src/filesys/directory.c:142-179 | An entry that dir_add stores adds exactly its name, and touches no other, if and only if it does not go wrong |
| NameTables.AllRead | src/filesys/directory.c:157-169 | When every entry can be read nothing goes wrong |
| NameTables.LostName | src/filesys/directory.c:163-169 | In a directory of 16 slots, one unreadable entry makes dir_add take a name away, or add it twice |
| NameTables.EraseName | src/filesys/directory.c:203-206 | Clearing a slot removes exactly its name |
| NameTables.FindIsNames | src/filesys/directory.c:92-112 | With unique names, what lookup finds is what the name stands for |
| StoredMaps.WrittenIs | src/lib/kernel/bitmap.c:357-361 | bitmap_write succeeds exactly when it reaches every bit; otherwise it stops after the whole sectors |
| StoredMaps.SyncedBits | src/lib/kernel/bitmap.c:357-361 | The bytes written replace a prefix of the stored bits and keep the rest |
| StoredMaps.SyncedCovers | src/filesys/free-map.c:28-50 | A stored map that covers the one in memory covers it after any such write |
| Volumes.InodeSectorRoundTrip | src/filesys/inode.c:86-92 | The on-disk inode read back gives start and length |
| Volumes.SectorsDisjoint | src/filesys/inode.c:73-106 | Distinct live inodes share no sector, and all their sectors are marked |
| Volumes.WriteUserFile | src/filesys/inode.c:258-318 | A write inside one file's extent keeps the volume well formed and changes the bytes of no other file |
| Volumes.AdoptInode | src/filesys/filesys.c:50-53 | A new inode over unowned marked sectors adds one file and changes no other |
| Volumes.DropInode | src/filesys/inode.c:175-183 | Dropping a file that no entry names leaves all others |
| Volumes.ReloadMap | src/filesys/free-map.c:54-61 | Reading the stored map back keeps the volume well formed and its files the same |
| FileSystem.FileSys.StoreMap | src/lib/kernel/bitmap.c:357-361 | The free map file's content after the write, as far as it gets |
| FileSystem.FileSys.FreeMapAllocate | src/filesys/free-map.c:28-41 | The first free run, kept exactly when the map file can be written; the bits in memory and on disk afterwards, including after the rollback; nothing users see changes |
| FileSystem.FileSys.FreeMapRelease | src/filesys/free-map.c:45-50 | The bits in memory and on disk afterwards; the assertion holds; nothing users see changes |
| FileSystem.FileSys.ReleaseUpToDate | src/filesys/free-map.c:45-50 | After a release the file is up to date if and only if the write succeeded or reached all released bits |
| FileSystem.FileSys.AllocateUpToDate | src/filesys/free-map.c:28-41 | After an allocation the file is up to date if and only if it was not rolled back after the write had reached its first bit |
| FileSystem.FileSys.InodeCreate | src/filesys/inode.c:73-106 | Succeeds exactly when there is memory, a free run and a map write; then the new extent is zero, unowned and marked |
| FileSystem.FileSys.InodeOpen | src/filesys/inode.c:112-142 | Every opener of a sector shares one inode; null exactly when a new one cannot be allocated |
| FileSystem.FileSys.InodeReopen | src/filesys/inode.c:146-151 | One reference more, and the counts stay exact |
| Volumes.RoomIs | src/filesys/free-map.c:28-41 | A create has room exactly when the first scan finds a sector and the second, beside it, a run |
| Volumes.MarksAfter | src/filesys/filesys.c:50-56 | The marks that a create leaves: both allocations if it succeeds, and the extent alone if dir_add refuses |
| FileSystem.FileSys.InodeClose | src/filesys/inode.c:164-186 | The last reference to a file without a directory entry takes the file with it, otherwise nothing users see changes; exactly the sectors of a removed file are released, once |
| FileSystem.FileSys.Lookup | src/filesys/directory.c:92-112 | The first slot within reach that holds the name, with its bytes |
| FileSystem.FileSys.FindFree | src/filesys/directory.c:166-169 | Where the search for a free slot ends, including when it cannot read on |
| FileSystem.FileSys.DirAdd | src/filesys/directory.c:142-179 | Exactly when an entry is stored, in which slot, and which file is lost when that slot was in use |
| FileSystem.FileSys.DirLookup | src/filesys/directory.c:119-133 | Exactly when the inode is opened, and which |
| FileSystem.FileSys.DirRemove | src/filesys/directory.c:185-216 | Exactly when it succeeds; one slot is cleared, the file stays while it is open and otherwise exactly its sectors are released, and failure changes nothing |
| FileSystem.FileSys.DirOpenRoot | src/filesys/directory.c:55-58 | Exactly when the root directory opens; nothing users see changes |
| FileSystem.FileSys.Create | src/filesys/filesys.c:46-59 | Exactly when it succeeds, and the directory, contents and marks afterwards; failure changes nothing users see |
| FileSystem.FileSys.Open | src/filesys/filesys.c:67-77 | Exactly when it succeeds; a new handle at position 0 on the file found, and nothing else |
| FileSystem.FileSys.Remove | src/filesys/filesys.c:84-91 | Exactly when it succeeds; the slot is cleared, and the file and the marks of its sectors go unless it is open |
| FileSystem.FileSys.FileOpen | src/filesys/file.c:19-35 | The reference moves to a new handle, or is given up |
| FileSystem.FileSys.Reopen | src/filesys/file.c:40-43 | A second handle at position 0 on the same inode, removed or not |
| FileSystem.FileSys.Close | src/filesys/file.c:47-55 | The handle goes; the bytes go with it exactly when neither an entry nor another handle refers to them |
| FileSystem.FileSys.ReadFile | src/filesys/file.c:70-75 | The bytes at the position, and the position moves by as many |
| FileSystem.FileSys.ReadFileAt | src/filesys/file.c:83-86 | The bytes at the offset |
| FileSystem.FileSys.WriteFile | src/filesys/file.c:96-101 | Only this file's bytes change, by what fits, and the position moves by as many; nothing while any handle denies writes |
| FileSystem.FileSys.WriteFileAt | src/filesys/file.c:111-115 | Only this file's bytes change, by what fits; nothing while any handle denies writes |
| FileSystem.FileSys.DenyWrite | src/filesys/file.c:120-128 | The inode's count is the number of handles that deny, and inode_deny_write's assertion holds |
| FileSystem.FileSys.AllowWrite | src/filesys/file.c:134-142 | The same for taking the denial back, with inode_allow_write's assertions |
| FileSystem.FileSys.Seek | src/filesys/file.c:155-160 | Only the position changes |
| FileSystem.FileSys.Length | src/filesys/file.c:146-150 | The number of bytes that the file's content has |
| FileSystem.FileSys.LiveFiles | src/filesys/inode.c:164-186 | Between operations exactly the files with a directory entry or an open handle exist |
| FileSystem.FileSys.OnlyOpener | src/filesys/inode.c:171-172 | A handle is the inode's only reference exactly when no other handle is on its sector |
| Format.FreshRoom | src/filesys/free-map.c:28-41 | On a disk in use up to a point there is room for a file exactly when its inode and its bytes fit behind it |
| Format.MapSectorsIs | src/filesys/free-map.c:73-76 | The free map takes 4 bytes for every 32 sectors, in just as many sectors as hold them |
| Format.InitMap | src/filesys/free-map.c:13-20 | Only the two system sectors are marked |
| Format.CreateMap | src/filesys/free-map.c:73-85 | The map's extent follows the inode sectors and holds the map; exactly when this succeeds |
| Format.OpenMap | src/filesys/free-map.c:54-61 | The bits in memory are those stored, or the panic |
| Format.FormatDisk | src/filesys/filesys.c:18-31 | From any disk with room and memory an empty, well-formed file system, and otherwise the panic |
| Format.AllSuffices | src/filesys/filesys.c:18-31 | Memory is enough whenever every allocation succeeds |
| Format.MountDisk | src/filesys/filesys.c:18-31 | Mounting a disk without open files gives the files that it holds |
| Format.StaleRelease | src/filesys/free-map.c:45-50 | On a formatted disk of 8 sectors a release leaves the stored map behind |
| Format.StaleRollback | src/filesys/free-map.c:33-37 | On a formatted disk of 5000 sectors a rolled back allocation stays marked on disk |
| FileModel.StepSound | src/filesys/filesys.c:46-91 | Every operation, whichever allocations fail, leaves exactly the referenced files and no file in two slots |
| FileModel.RunSound | src/filesys/filesys.c:46-91 | So does every run from the empty file system |
| FileModel.StepPromisedIff | src/filesys/filesys.c:46-91 | With unique names before it, an operation keeps its promise about names if and only if it is not a create that succeeds without having read far enough, which is decided before the call |
| FileModel.RunPromisedIff | src/filesys/filesys.c:46-91 | In every run all promises about names are kept if and only if no create goes wrong, and then names stay unique |
| FileModel.SucceedsIff | src/filesys/filesys.c:46-91 | While every entry can be read, each operation succeeds exactly when the name has 1 to 14 bytes and is absent (create) or present (remove, open), there is a free slot and room, and the allocations that it makes succeed; failure changes nothing |
| FileModel.AllReadPromised | src/filesys/directory.c:157-169 | No create goes wrong while every entry can be read |
| FileModel.StepKeeps | src/filesys/inode.c:164-195 | An operation other than a write to it leaves an open file's bytes alone, even if it removes the file |
| FileModel.OpenFilePersists | src/filesys/inode.c:164-195 | Throughout any run an open file keeps its bytes until it is written to or closed |
| FileModel.ReadExact | src/filesys/file.c:70-75 | With a bounce buffer a read returns the bytes from the position on, as many as were asked for and are there; none if the size is negative as an off_t |
| FileModel.WriteExact | src/filesys/file.c:96-101 | With a bounce buffer a write stores the lesser of the buffer and what is left of the file, nothing if a handle denies writes, and no other byte of any file changes |
| FileModel.ReadBack | src/filesys/file.c:70-101 | A seek back and a read of as many bytes as were written return exactly those |
| Sessions.Run | src/userprog/syscall.c:309-453 | Every sequence of operations on a formatted disk, with any choice of failing allocations, is a run of the model, in which each operation succeeds exactly when it should; the disk holds each state, only creates mark sectors, and the last volume is what is on the disk |
| Sessions.Restart | src/filesys/filesys.c:18-39 | After such a run, if everything is closed, mounting again gives the directory and files of its last state |
| Palloc.PageAllocator.GetMultiple | src/threads/palloc.c:71-101 | The first free run of pages of the pool, or null exactly when there is none |
| Palloc.PageAllocator.FreeMultiple | src/threads/palloc.c:118-142 | Exactly those pages become free again |
| Palloc.InitPool | src/threads/palloc.c:154-170 | The bitmap fits in front of the pool's pages, all of which are free; the panic exactly when the pool has no page |
| Palloc.BitmapPagesIs | src/threads/palloc.c:154-163 | The bitmap takes just as many pages as hold it |
| Palloc.UserPagesIs | src/threads/palloc.c:46-57 | The user pool takes half of the pages, or its limit |
| Palloc.Init | src/threads/palloc.c:46-62 | Two pools of free pages above the first megabyte, of exactly these sizes, the user pool within its limit; the panic exactly when there are fewer than two pages above it or the limit is zero |
| Blocks.BlockIs | src/threads/malloc.c:268-294 | A block's address and its index in the arena determine each other, inside the page |
| Blocks.BlocksApart | src/threads/malloc.c:286-294 | Two blocks of an arena do not overlap |
| Heaps.BlocksDisjoint | src/threads/malloc.c:90-154 | No two blocks, in use or free, overlap |
| Heaps.HeadersDisjoint | src/threads/malloc.c:118-147 | No block overlaps an arena header |
| Heaps.Give | src/threads/malloc.c:232-246 | Giving a block back keeps free_cnt the number of the arena's free blocks; it is full exactly when all are free |
| Heaps.NothingInUse | src/threads/malloc.c:219-264 | With no block in use there is no arena and no free block |
| Malloc.InitDescs | src/threads/malloc.c:72-85 | The descriptors are those of the seven block sizes, fewer than the array holds |
| Malloc.PerArenaIs | src/threads/malloc.c:72-85 | An arena has as many blocks as fit behind its header |
| Malloc.PageCntIs | src/threads/malloc.c:109 | A big request is given the fewest pages that hold it and its header, none or one when the sum wraps |
| Malloc.DueIs | src/threads/malloc.c:90-154 | What malloc computes is what is due for every size, pool and free lists |
| Malloc.GrantedEnough | src/threads/malloc.c:97-113 | A granted block holds the request if and only if size plus header does not wrap |
| Malloc.WrappedRequest | src/threads/malloc.c:109 | A request for 2^32 - 1 bytes is granted one page |
| Malloc.CopyFitsIff | src/threads/malloc.c:195-214 | realloc's copy fits the new block if and only if the size does not wrap or the old block is at most a page |
| Malloc.CopiesTooFar | src/threads/malloc.c:195-214 | Growing two pages to 2^32 - 1 bytes does not fit |
| Malloc.NotBook | src/threads/malloc.c:118-147 | Headers and free-list links are never inside a block in use |
| Malloc.Allocator.Malloc | src/threads/malloc.c:90-154 | The block that is due: a small request the smallest power of two from 16 on, out of the free list or a new page; a big one the fewest pages that hold it and its header; null exactly when the list is empty or no such run of pages is free, and then nothing changes; the pages taken are the first free run; no byte of another block changes |
| Malloc.Allocator.Realloc | src/threads/malloc.c:195-214 | The new block is the one that is due, the bytes that fit move along, failure changes nothing, and no byte of another block changes |
| Malloc.Allocator.Free | src/threads/malloc.c:219-264 | The block is given back, an arena without blocks in use returns its page, and no byte of another block changes |
| Malloc.Allocator.BlockToArena | src/threads/malloc.c:268-282 | The arena of a block in use, and the function's assertions hold |
| Malloc.Allocator.RemoveBlocks | src/threads/malloc.c:240-245 | Exactly the blocks of the empty arena leave the free list |
| Malloc.BlockKept | src/threads/malloc.c:90-264 | In any history of malloc, realloc, free and stores a block keeps its size and bytes as long as it is held and its owner does not store into it |
| Malloc.Run | src/threads/malloc.c:90-264 | Every sequence of calls is such a history: each returns null exactly when there is no memory and then changes nothing, otherwise it grants, moves or frees the block that it names; every moment is well formed, and whenever nothing is held the page pool is as it was; it stops only before a realloc that copies too far |
| Merging.MergeStable | src/lib/kernel/list.c:380-399 | A merge keeps the order of equivalent elements |
| Merging.PassCntIs | src/lib/kernel/list.c:416-437 | A pass outputs half of the natural runs, rounded up |
| Merging.PassShrinks | src/lib/kernel/list.c:416-438 | The number of natural runs drops on every pass that outputs more than one, which is why list_sort stops |
| Merging.LastPass | src/lib/kernel/list.c:438-439 | After a pass that outputs one run the list is sorted |
| Lists.Init | src/lib/kernel/list.c:61-68 | Head and tail form an empty list |
| Lists.Insert | src/lib/kernel/list.c:169-178 | The links form the list with the element inserted |
| Lists.Remove | src/lib/kernel/list.c:249-255 | The links form the list without the element |
| Lists.Splice | src/lib/kernel/list.c:184-204 | A range moves before an element of the same or another list, and both stay well formed |
| Lists.FindEndOfRun | src/lib/kernel/list.c:358-372 | The end of the first nondecreasing run |
| Lists.InplaceMerge | src/lib/kernel/list.c:380-399 | Relinking in place yields the stable merge of two adjacent runs |
| Lists.SortPass | src/lib/kernel/list.c:411-437 | One pass merges adjacent runs pairwise and counts its outputs |
| Lists.Sort | src/lib/kernel/list.c:405-440 | A well-formed list of the same nodes, sorted and stable for every strict weak order, and it terminates |
| Lists.InsertOrdered | src/lib/kernel/list.c:446-459 | The list stays sorted, and the element follows its equals |
| Lists.Reverse | src/lib/kernel/list.c:326-337 | The links form the list in the opposite order |
| Hash.TurnOffStops | src/lib/kernel/hash.c:330-340 | Turning off low bits reaches the largest power of two below, and stops exactly there |
| Hash.MaskIsMod | src/lib/kernel/hash.c:306-310 | Masking the hash is taking it modulo the bucket count |
| Hash.IdealBuckets | src/lib/kernel/hash.c:365-370 | 4 for fewer than 8 elements, and otherwise the power of two with at least 2 and fewer than 4 elements per bucket |
| Hash.HashTable.FindElem | src/lib/kernel/hash.c:315-326 | Searching one bucket decides for the whole table |
| Hash.HashTable.Rehash | src/lib/kernel/hash.c:352-413 | The same elements, each in its bucket, in the ideal number of buckets, or the table unchanged when there is no memory |
| Hash.HashTable.Insert | src/lib/kernel/hash.c:99-110 | Adds to the set unless an equivalent element is there, which it then returns |
| Hash.HashTable.Replace | src/lib/kernel/hash.c:115-127 | The new element takes the place of an equivalent one |
| Hash.HashTable.Find | src/lib/kernel/hash.c:132-135 | An equivalent element, or none exactly when the set has none |
| Hash.HashTable.Delete | src/lib/kernel/hash.c:145-154 | Removes exactly the equivalent element |
| Hash.HashTable.OnlyOne | src/lib/kernel/hash.c:99-110 | A table never holds two equivalent elements |
| Hash.Iterator.Next | src/lib/kernel/hash.c:219-235 | The next element not yet visited, and the end exactly after all of them |
| Hash.VisitAll | src/lib/kernel/hash.c:200-235 | Iterating visits every element exactly once |
| HeapSort.Heapify | src/lib/stdlib.c:97-123 | Floating one element down makes the subtree a heap and permutes only it |
| HeapSort.RootIsMax | src/lib/stdlib.c:143-151 | The root of a heap is a maximum |
| HeapSort.Sort | src/lib/stdlib.c:132-152 | A sorted permutation for every total preorder |
| HeapSort.BinarySearch | src/lib/stdlib.c:185-207 | A match if and only if there is one |
| FixedPoint.LoadAvgBound | src/threads/thread.c:796-804 | load_avg stays between 0 and the most threads ever ready |
| FixedPoint.RecentCpuBound | src/threads/thread.c:778-793 | The once-a-second update keeps recent_cpu within its bounds |
| FixedPoint.TickBound | src/threads/thread.c:194-231 | So do up to 100 ticks of running between updates |
| FixedPoint.NoOverflow | src/threads/fixed-point.h:4-21 | With at most 545 threads no 32-bit value that the updates and thread_get_load_avg store or compute overflows |
| FixedPoint.ReportFits | src/threads/thread.c:569-573 | The product in thread_get_recent_cpu fits exactly up to a recent_cpu of 1310.72, and always with at most 4 ready threads |
| FixedPoint.BoundIsTight | src/threads/fixed-point.h:4-21 | The bound exceeds 32 bits at 546 threads, and a hundred times the bound at 5 |
| FixedPoint.PriorityMonotone | src/threads/thread.c:740-752 | More CPU use or a higher nice value never gives a higher priority |
| FixedPoint.PriorityIs | src/threads/thread.c:740-752 | The priority is at least p exactly up to a recent_cpu of 4 * (63 - p - 2 * nice), for every p from 1 to 63, with the rounding of both divisions; it is between 0 and 63 |
| FixedPoint.PriorityUnique | src/threads/thread.c:740-752 | Which determines it |
| FixedPoint.LoadAvgIs | src/threads/thread.c:796-804 | load_avg becomes 59/60 of itself and 1/60 of the ready threads, never more, and less by no more than a stated rounding error |
| FixedPoint.RecentCpuIs | src/threads/thread.c:778-793 | recent_cpu becomes 2 * load_avg / (2 * load_avg + 1) of itself and nice, each product cut toward zero |
| ReadyQueues.Top | src/threads/thread.c:811-820 | The highest queue that is not empty |
| ReadyQueues.ChosenIs | src/threads/thread.c:715-732 | The thread chosen is the first of the highest queue that is not empty, the idle thread exactly when none is ready; without donation none that is ready has a higher priority |
| ReadyQueues.PickedOk | src/threads/thread.c:876-889 | When that thread leaves its queue and runs, ready list and queues still agree |
| ReadyQueues.RerankedOk | src/threads/thread.c:740-774 | So they do when a thread moves to the queue of its new priority |
| ReadyQueues.NextOk | src/threads/thread.c:194-467 | Every event keeps ready list and queues in agreement, and without donation every ready thread in the queue of its priority |
| ReadyQueues.NextNumeric | src/threads/thread.c:194-231 | Every event keeps the bounds on load_avg and recent_cpu, a tick if at most n threads are ready |
| ReadyQueues.RunOk | src/threads/thread.c:194-467 | So does every run |
| ReadyQueues.TickedIs | src/threads/thread.c:194-231 | A tick charges the running thread alone; once a second load_avg and every recent_cpu, and on every fourth tick every priority, follow the formulas |
| ReadyQueues.NiceSetIs | src/threads/thread.c:535-551 | Afterwards no ready thread has a higher priority than the one that runs; the caller runs on if none of the queues above its new priority has been used |
| ReadyQueues.CreatedIs | src/threads/thread.c:257-333 | The new thread has the given priority and its creator's nice and recent_cpu and is last in its queue; the creator runs on unless the priority is above its own base, and then the highest ready thread runs |
| ReadyQueues.BlocksIs | src/threads/thread.c:342-352 | The caller is blocked and in no queue, and only the thread that runs next changes its state |
| ReadyQueues.PushedIs | src/threads/thread.c:360-381 | The thread is ready and last in the queue of its priority, and nothing else changes |
| ReadyQueues.YieldsIs | src/threads/thread.c:440-467 | The caller is ready or runs on, which it does if no other is ready |
| ReadyQueues.ExitIs | src/threads/thread.c:419-436 | The caller is gone and the other threads are as they were |
| ReadyQueues.DonatedIs | src/threads/synch.c:227-342 | A donated priority leaves the thread in its queue and everything else alone |
| ReadyQueues.NextLeads | src/threads/thread.c:440-467 | No event puts another thread ahead of one that stays in the queue of its priority |
| ReadyQueues.ArrivalOrder | src/threads/thread.c:440-467 | Nor does any run, whatever happens to the other thread meanwhile |
| ReadyQueues.ServedInOrder | src/threads/thread.c:715-732 | Threads that wait in one queue run in the order of their arrival |
| ReadyQueues.KeepsPlaceIff | src/threads/thread.c:740-774 | An update leaves a thread its place if and only if its priority does not change; if it returns to the priority of its queue, the thread goes to the end |
| Scheduler.Scheduler.PushReady | src/threads/thread.c:366-378 | The thread goes to its place in the ready list and to the end of the queue of its priority, and the cached highest level is raised if needed |
| Scheduler.Scheduler.HighestNonEmptyLevel | src/threads/thread.c:811-820 | The highest queue that is not empty; the scan never passes level 0 while a thread is ready |
| Scheduler.Scheduler.NextThreadToRun | src/threads/thread.c:715-732 | The first thread of the highest queue, taken off its front and out of the ready list, or the idle thread |
| Scheduler.Scheduler.Schedule | src/threads/thread.c:876-889 | That thread runs and nothing else changes |
| Scheduler.Scheduler.Yield | src/threads/thread.c:440-467 | The running thread goes to the end of its queue before the next is chosen |
| Scheduler.Scheduler.UpdatePriority | src/threads/thread.c:740-774 | The priority that recent_cpu and nice call for; a ready thread whose priority changes goes to the end of the queue of its new priority, and nothing else changes |
| Scheduler.Scheduler.SetNice | src/threads/thread.c:535-551 | The new priority, and a yield exactly when the cached highest level is above it |
| Scheduler.Scheduler.AddThread | src/threads/thread.c:648-690 | A new thread with the given priority and its creator's nice and recent_cpu |
| Scheduler.Scheduler.Tick | src/threads/thread.c:194-231 | The charge, the updates of a second and those of every fourth tick, thread by thread; the bounds hold |
| Scheduler.Run | src/threads/thread.c:194-467 | Every sequence of events is a run of the queues, event by event, up to a tick with too many ready threads; queues and bounds are in order throughout |
| Arithmetic.Nlz | src/lib/arithmetic.c:42-73 | The shift that brings the top bit to bit 31 |
| Arithmetic.TwoDigits | src/lib/arithmetic.c:80-112 | Long division by a 32-bit divisor: the result is the quotient and DIVL does not trap |
| Arithmetic.Estimate | src/lib/arithmetic.c:114-126 | The estimate for a wide divisor is the quotient or one more |
| Arithmetic.Correction | src/lib/arithmetic.c:124 | The final test corrects it, and nothing in it wraps |
| Arithmetic.Udiv64 | src/lib/arithmetic.c:78-127 | The floor of n / d for all operands, without a trap |
| Arithmetic.Umod64 | src/lib/arithmetic.c:132-135 | The remainder cut to 32 bits |
| Arithmetic.Umod64Exact | src/lib/arithmetic.c:132-135 | It is the remainder for all dividends if and only if the divisor is at most 2^32 |
| Arithmetic.Umod64Cut | src/lib/arithmetic.c:132-135 | 2^32 by 2^32 + 1 gives 0 |
| Arithmetic.TruncatedIs | src/lib/arithmetic.c:140-146 | Truncating division leaves a remainder smaller than the divisor with the dividend's sign |
| Arithmetic.Sdiv64 | src/lib/arithmetic.c:140-146 | Truncating division, cut to 64 bits |
| Arithmetic.Sdiv64Exact | src/lib/arithmetic.c:140-146 | It is the quotient for all operands except -2^63 by -1 |
| Arithmetic.Smod64 | src/lib/arithmetic.c:151-154 | The signed remainder cut to 32 bits, although intermediate values wrap |
| Arithmetic.Smod64Exact | src/lib/arithmetic.c:151-154 | It is the remainder for all dividends if and only if the divisor is at most 2^31 in size |
| Arithmetic.Smod64Cut | src/lib/arithmetic.c:151-154 | 2^31 by 2^31 + 1 gives -2^31 |
| Synch.Semaphore.DownTest | src/threads/synch.c:65-81 | One test of the loop is a step of the system: it passes exactly when the value is positive |
| Synch.Semaphore.TryDown | src/threads/synch.c:89-107 | Succeeds exactly when the value is positive |
| Synch.Semaphore.Up | src/threads/synch.c:120-152 | Wakes the first waiter of the highest priority, and all others keep waiting, in order of priority |
| Synch.SemaRunOk | src/threads/synch.c:65-152 | In every interleaving the value is the initial one plus the ups less the downs that passed, the waiters are exactly the threads that have blocked and have not been unblocked, and no wakeup is lost |
| Synch.EveryoneWakes | src/threads/synch.c:65-152 | As many ups as there are waiters, and as join them meanwhile, wake every one of the waiters, in any interleaving |
| Synch.LockIsSafe | src/threads/synch.c:227-342 | At most one thread is between the down and the up, a holder is that thread, the blocked threads are exactly the waiters, and waiters of a free lock have one on its way |
| Synch.NoDeadlock | src/threads/synch.c:227-342 | A thread can take its next step exactly when it is not blocked, and while one is blocked another can |
| Synch.LockAsserts | src/threads/synch.c:227-342 | The ownership assertions of lock_acquire and lock_release hold |
| PageTables.PdeIs | src/threads/pte.h:71-81 | A directory entry gives its page table back and is present |
| PageTables.PteIs | src/threads/pte.h:96-104 | A table entry gives its page and writability back |
| PageTables.AddressIs | src/threads/pte.h:32-39 | The two indices of an address make up its page number |
| Pagedir.Mmu.Create | src/userprog/pagedir.c:17-23 | A new directory maps no user page and shares the kernel half |
| Pagedir.Mmu.LookupPage | src/userprog/pagedir.c:57-86 | The entry's place; a new table changes no mapping |
| Pagedir.Mmu.SetPage | src/userprog/pagedir.c:99-119 | Exactly the named page of the named directory is mapped, or nothing when there is no memory |
| Pagedir.Mmu.GetPage | src/userprog/pagedir.c:126-137 | The kernel address of a mapped user address, or null |
| Pagedir.Mmu.ClearPage | src/userprog/pagedir.c:144-157 | Exactly the named page is unmapped |
| Pagedir.Mmu.Destroy | src/userprog/pagedir.c:28-48 | Every mapped page, table and the directory are freed exactly once, and no other directory changes |
| Stdio.RenderedWidth | src/lib/stdio.c:526-546 | The output fills the field, or is as wide as the number needs |
| Stdio.FormatInteger | src/lib/stdio.c:470-547 | The sign, prefix, digits and padding that C99 asks for; the 64-character buffer is never exceeded |
| Stdio.RenderedIs | src/lib/stdio.c:470-547 | In each of the four bases: spaces, the sign that value and flags ask for, 0x or 0X exactly for nonzero hexadecimal with #, digits of the base that have the value, and spaces, on the side that the flags say |
| Stdio.GroupedIs | src/lib/stdio.c:500-512 | Grouping writes the same digits with a comma after every third, or every fourth hexadecimal one |
| Stdio.Atoi | src/lib/stdlib.c:10-41 | The number that the text stands for; building it up negative never overflows |
| Stdio.ParseIs | src/lib/stdlib.c:10-41 | White space is skipped, a sign counts, and the digits up to the first other character have their decimal value |
| Stdio.RoundTrip | src/lib/stdio.c:470-547 | For every int and every conversion without grouping, atoi undoes %d |
| Stdio.Vsnprintf | src/lib/stdio.c:26-52 | The buffer holds the truncated text and a terminator, and the result is the full length |
| Printf.ParseConversion | src/lib/stdio.c:340-460 | For every well-formed specification, what its text means to the code, where it ends and which arguments it takes |
| Printf.CodedIff | src/lib/stdio.c:372-415 | That is what C99 says if and only if the flag 0 does not meet a negative argument as width |
| Printf.PaddedTwice | src/lib/stdio.c:372-394 | In that case 42 in a field of 5 takes 8 characters |
| Printf.FieldWidth | src/lib/stdio.c:340-546 | In all other cases the output fills the field exactly |
| Printf.NarrowedIs | src/lib/stdio.c:186-204 | An argument of type char or short is cut to its low 8 or 16 bits as a signed number |
| Printf.PrintAndRead | src/lib/stdio.c:157-229 | Formatting an int with any specification without grouping, cut to its type, and reading it back gives the argument |
| Ustar.StripIsClean | src/lib/ustar.c:66-73 | Stripping is idempotent and leaves no empty, "..", or "/", "./" and "../" leading name |
| Ustar.StripIs | src/lib/ustar.c:66-73 | It removes "/", "./" and "../" from the front, as long as there are any, and nothing else |
| Ustar.ParseOctalField | src/lib/ustar.c:130-162 | A value exactly when there is at least one digit, nothing but digits before the space or null byte that ends the field, and the number fits in 32 bits; then that number |
| Ustar.CalculateChksum | src/lib/ustar.c:37-54 | The sum of the bytes with the checksum field as spaces |
| Ustar.SumChanged | src/lib/ustar.c:37-54 | Each byte outside the checksum field counts with its value |
| Ustar.ZerosSum | src/lib/ustar.c:37-54 | A header of zeros has the sum of eight spaces |
| Ustar.MakeHeader | src/lib/ustar.c:83-118 | The header for the stripped name, or failure exactly when that is too long |
| Ustar.HeaderConstants | src/lib/ustar.c:97-112 | The permissions 0644 or 0755 by type, user and group 0, the time, magic, version and the names "root" |
| Ustar.ParseHeader | src/lib/ustar.c:182-227 | Each error in its order, or name, type and size |
| Ustar.ParseIs | src/lib/ustar.c:182-227 | A header of zeros ends the archive; any other gets the error of the first check that it fails |
| Ustar.RoundTrip | src/lib/ustar.c:83-227 | Name, type and size come back; for a regular file exactly when the size is not negative |
| Ustar.ChangeRejected | src/lib/ustar.c:182-227 | Changing any one byte outside the checksum makes a header invalid |
| Ustar.MakeAndParse | src/lib/ustar.c:83-227 | Making and reading a header in memory gives the stripped name, type and size back |
| Ustar.OctalIsPrintf | src/lib/ustar.c:100-105 | The octal fields are what printf writes for them |
| Tokenizer.StrtokR | src/lib/string.c:235-275 | Skips exactly the spaces, and the token runs to the next space or the end, where it is terminated in place; one call after another yields the tokens |
| Tokenizer.TokensAreWords | src/lib/string.c:235-275 | The tokens are the stretches between spaces, in order, and every byte that is not a space is in one of them |
| Tokenizer.TokensJoined | src/lib/string.c:235-275 | Joined they are the string without its spaces |
| Argv.NumTokens | src/userprog/process.c:226-241 | The number of tokens that the push loop will find |
| Argv.PushStrings | src/userprog/process.c:258-277 | All strings are on the stack exactly when they fit the page; the size test never fires |
| Argv.PushPointers | src/userprog/process.c:279-309 | The argv array, argv, argc and a null return address complete the frame, exactly when they fit |
| Argv.PushArguments | src/userprog/process.c:246-310 | Returns 1 with the frame of main, all inside the page, if and only if it fits, and otherwise faults; its strings are the program name and the words of the arguments, all of them |
| Argv.FitsIff | src/userprog/process.c:642-657 | When the frame fits, in terms of the sizes and number of the strings |
| Argv.PointersDoNotFit | src/userprog/process.c:269-295 | With one-letter arguments, 679 to 2047 of them pass the size test and do not fit |
| Argv.AlignedIff | src/userprog/process.c:279-284 | The final stack pointer is a multiple of 4 if and only if the strings take an even number of bytes |
| Argv.Misaligned | src/userprog/process.c:279-284 | The program name "ab" gives a misaligned stack pointer |
| Elf.AcceptedIff | src/userprog/process.c:550-590 | Exactly the segments are accepted that are not empty, lie between page 0 and the kernel, hold their file part, and begin in the file at the same place in a page |
| Elf.NoWrap | src/userprog/process.c:495-513 | No 32-bit computation of the layout wraps for an accepted segment |
| Elf.PagesOfIs | src/userprog/process.c:495-513 | Just as many pages as hold the segment |
| Elf.LoadSegment | src/userprog/process.c:607-637 | One page entry after another, until there is no memory for one |
| Elf.LoadHeader | src/userprog/process.c:495-524 | Such a segment is loaded exactly when there is room for its pages; then every address of its file part comes from its place in the file and the rest up to the page end is zero; others load nothing |

## Left out

- Elf.LoadHeader: takes segments whose file range fits in off_t; a larger one is a file position that file_seek's assertion stops.
- Argv.PushArguments: takes command lines of up to one page, as process_execute copies them; the kernel stack that holds the function's variable-length arrays is not bounded.
- Scheduler.Run: donated priorities are arbitrary values; which value a lock's donors give is not modelled.
- Malloc.Allocator.Malloc: what the allocator writes into headers and free blocks is arbitrary; the locks of the descriptors are not modelled.
- Malloc.Allocator.Realloc: takes no call that would copy past the new block; `Malloc.CopyFitsIff` says exactly which those are, and `Malloc.Run` stops before one.
- Pagedir.Mmu.LookupPage: takes user pages; for a kernel address and no creation the source reads the entries copied from init_page_dir, whose tables are not modelled.
- Pagedir.Mmu.Destroy: takes directories that map each frame once, and frames that are in use; palloc_free_page asserts it.
- Stdio.Atoi: takes texts that stand for an int; for others C99 section 7.20.1.2 leaves the behaviour undefined.
- Sessions.Run: sizes of new files and positions sought are not negative as an off_t, which inode_create and file_seek assert; the allocation of the descriptor itself is not modelled.
- Printf.ParseConversion: takes well-formed specifications, for others C99 section 7.19.6.1 leaves the behaviour undefined; a width argument of -2^31, whose negation overflows an int, is not treated.
- Stdio.Vsnprintf: is given the text that a format comes out as; of the conversions, the integer ones are modelled.
- Inodes.ReadAt: device errors do not occur.
- FileSystem.FileSys.DirAdd: the entry's bytes are never uninitialized; where the source would store stack contents past the name, the model stores zeros.
- Lists of free blocks, open inodes, waiters and ready threads, and hash buckets, are sequences; the pointer level of lists is proved once, in `Lists`.
- Priority donation's values, lock_try_acquire and condition variables.
- Virtual memory: frames, the supplemental page table and swap.
- process_execute, process_wait, exit, mmap and munmap; the ELF file header.
- Partitions, timer_sleep, device drivers, interrupts, context switches and system call dispatch.
- calloc's product check, list_unique, list_max and list_min, bitmap_count and bitmap_flip, hash_apply, hash_clear and the hash functions, dir_readdir, dirty and accessed bits, pagedir_activate.
- Concurrency inside the file system: its system calls hold one lock.
