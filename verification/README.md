# A verified model of the kernel's core

This project models the logic of an x86_64 kernel in Dafny and proves what that logic is for: isolation of forked
processes, page tables as maps, files as byte sequences on a shared disk, a process lifecycle without lost wake-ups, a fair
lock, two allocators, and the initial stack a program starts with. It is self-contained: `dafny verify dfyconfig.toml`
checks all of it.

The model has one core and atomic kernel steps, as the kernel itself runs with interrupt gates
(kernel/src/IDT.cpp:162) on one CPU (Makefile:2). The spinlock is the exception: it is modelled as single atomic memory
accesses of any number of threads, interleaved in every possible way. A panic or a failed assert of the code is an explicit
outcome (`None`, `false`, a constructor of a result type), or it is proved never to happen. Hardware is a parameter: the time
that passed according to the LAPIC timer is an arbitrary number between 1 and the programmed time.

Code that changes fields or buffers in place is a class or a method on an array, each proved against a specification
function or relation; the theorems over whole runs are about those specifications.

| component | modules | what is proved |
|---|---|---|
| Words and bitmaps | Common, Words, Bitmaps, KernelMath | masks reduced to arithmetic, bits as `seq<bool>`, the size-class bit trick |
| Page frames | PageFrames | first fit at the cursor, exclusiveness over runs |
| Paging | PageEntries, PageTrees, PageCopies, PageMaps, PageFlags, PageSpaces, PageIsolation, Paging, Forks, ProcessMemory | mapping as a map update, fork as a deep copy on fresh frames, isolation of any number of processes over whole runs, each process's memory as a plain page map of its own actions, with user rights on every walk |
| Ext2 | DiskBlocks, Ext2Layout, Ext2Alloc, Ext2Files, Ext2Writes, Ext2Metadata, Ext2, AbsentPointers | allocation, pointer tree, reads and writes as operations on `seq<byte>`, inode records and bitmaps untouched by them |
| Directories | Directories, Ext2Directories, Ext2Vnodes, DirectoryLayers | printer and parser of the entry stream, lookup, creation of files and directories, the vnode cache over whole runs |
| VFS | FileHandles, VfsFiles | reference counts over runs, seek and write with zero fill |
| Processes | Processes, Switching, Timers, WakeSources, Schedulers, Terminals, FailingRuns | lifecycle invariants over runs, exact task conservation of a switch, timer arithmetic, exit statuses, lines of terminal input, the code on its queues |
| Lock | TicketLock | refinement of a FIFO queue under every interleaving, across 32-bit wrap-around |
| Heap | Slabs, KernelHeaps | disjoint, aligned, large enough blocks over runs, conservation of slots |
| Initial stack | InitialStacks, StackWriters | round trip with the ABI's reader |
| Containers | Vectors | the growable array as a `seq` |

Some code does not do what its name, its comments or its callers suggest. The model follows the code and proves the exact
condition under which the expected property holds:

- A task switch takes every Normal task it meets and skips the one after it, so it can lose tasks: `Switching.ConservationExact`, `Switching.LostTasks`; two forks and a tick after the boot do it, `FailingRuns.TwoForksLoseProcessTwo`.
- Execute forgets the children of the caller, and reaping a task forgets that task's children: `Processes.ExecuteExact`, `Processes.ReapExact`; the runs are `FailingRuns.ExecuteForgetsAChild`, `FailingRuns.OrphaningIsReached` and `FailingRuns.ReapingLeavesAnOrphan`.
- A read is clamped with sums and differences that wrap at 2^64: `Ext2.ClampExact` says for which positions and counts it stays inside the file, `Ext2.ClampFails` gives two for which it does not.
- A new descriptor is the highest free slot, which is the lowest one only if at most one is free: `FileHandles.LowestSlotExact`.
- Releasing a task deletes its VFS object without closing its handles, which keeps the counts exact only if no handle is shared with another VFS object: `FileHandles.ReleasedExact`, with a failing run in `FileHandles.ReleaseLeaksAReference`.
- A large heap request is rounded down to whole pages, and one below a page is a panic: `KernelHeaps.LargeKMalloc`, `KernelHeaps.LargeRequestFits`.
- Freeing an address that is no block in use goes unnoticed and always ruins the heap: `Slabs.FreeExact`.
- A pointer block that is absent has number 0, and then block 0 is read: `Ext2.ResolvedExact` says for which disks that does no harm, and `AbsentPointers.CodeDisagrees` gives one where it does.
- A newly mapped page shows what its frame held before: `ProcessMemory.NewPageShowsOldContents`; so what a process sees can depend on others, exactly as `ProcessMemory.MappingFirstShows` says.
- FlagMismatchLevel returns with its lock held exactly when a table on the way is missing: `Paging.PagingManager.PageNotPresentLevel`, and so for every user address of a new address space, `Paging.QueryOfNewSpaceKeepsLock`.
- An inode bit is decoded back to its place only if it is one of the group's inodes: `Ext2Alloc.InodePlaceExact`.
- The range of doubly indirect indexes stops one pointer block short of what the block could hold: `Ext2Layout.SlotIsFlattened` holds up to there, and `Ext2.Ext2FileSystem.GetBlockAddr` gives no block from there on.
- Names are kept exactly when they have at most 255 bytes: `Directories.NameKeptExactly`.
- The stack pointer of a new program is a multiple of 16 only for an odd number of strings: `StackWriters.StackWriter.WriteStack`.

## Model

| member | source | states |
|---|---|---|
| Words.BitOfAnd | kernel/src/Memory/PagingManager.cpp:177-187 | a digit of `x & y` is set iff it is set in both |
| Words.AndSplit | kernel/src/Memory/PagingManager.cpp:177-187 | `&` works on the fields of a word separately |
| Words.MaskTestsBit | kernel/src/Bitmap.cpp:10-17 | testing a one-bit mask reads exactly that digit |
| Bitmaps.WithBitUpdates | kernel/src/Bitmap.cpp:19-33 | the masked byte update is a one-element update of the bit sequence, in both bit orders |
| Bitmaps.BitsAreDigits | kernel/src/Bitmap.cpp:10-17 | bit `index` of the sequence is digit `index % 8` of byte `index / 8`, or digit `7 - index % 8` in the other order |
| Bitmaps.Bitmap.GetBit | kernel/src/Bitmap.cpp:10-17 | the bit of the abstract sequence, which is that digit of its byte |
| Bitmaps.Bitmap.SetBit | kernel/src/Bitmap.cpp:19-33 | changes that digit of its byte and no other bit |
| PageFrames.PageFrameAllocator.RequestPageFrame | kernel/src/Memory/PageFrameAllocator.cpp:62-80 | the lowest free frame at or above the cursor is marked and becomes the cursor; panics iff there is none |
| PageFrames.PageFrameAllocator.RequestPageFrames | kernel/src/Memory/PageFrameAllocator.cpp:82-112 | the lowest run of free frames at or above the cursor, exactly those bits set; panics iff no such run exists |
| PageFrames.PageFrameAllocator.MarkRun | kernel/src/Memory/PageFrameAllocator.cpp:94-98 | afterwards exactly the frames of the run are marked besides those that were |
| PageFrames.PageFrameAllocator.FreePageFrame | kernel/src/Memory/PageFrameAllocator.cpp:114-124 | clears the frame's bit only |
| PageFrames.FramesAreExclusive | kernel/src/Memory/PageFrameAllocator.cpp:62-132 | in every run no frame is issued while held, none below the cursor is ever reissued, and addresses never decrease |
| PageFrames.FreeAboveTakes | kernel/src/Memory/PageFrameAllocator.cpp:62-80 | a request uses up exactly one of the frames still reachable |
| PageEntries.RedirectedEntry | kernel/src/Memory/PagingManager.cpp:177-187 | setting the address of an entry changes its frame and no other bit |
| PageEntries.PopulatedEntry | kernel/src/Memory/PagingManager.cpp:22-30 | a populated entry names the frame of the address and gains exactly present, write and user |
| PageEntries.EntryMeaning | kernel/src/Memory/PagingManager.cpp:166-187 | the masks read the frame number from bit 12 on and the flags present, write and user as bits 0, 1 and 2 |
| PageEntries.GetPageTableIndexes | kernel/src/Memory/PagingManager.cpp:10-20 | the four nine-bit indexes of an address: its quotients by 2^12, 2^21, 2^30 and 2^39, modulo 512 |
| PageEntries.IndexesNameThePage | kernel/src/Memory/PagingManager.cpp:10-20 | canonical addresses share all four indexes iff they are on one page |
| PageTrees.CopiedWalk | kernel/src/Memory/PagingManager.cpp:68-96 | in a copied tree every address translates iff it does in the original, with the same flags and page contents |
| PageTrees.WalkIsTranslation | kernel/src/Memory/PagingManager.cpp:103-128 | a walk is the translation of section 4.5 of the Intel SDM Volume 3A, written out over address bits and entry bits |
| PageTrees.WalkFrame | kernel/src/Memory/PagingManager.cpp:103-128 | a walk depends only on the tables on its way |
| PageTrees.WalkStaysInside | kernel/src/Memory/PagingManager.cpp:68-96 | every frame a walk meets belongs to the tree |
| PageCopies.PresentEntryCopied | kernel/src/Memory/PagingManager.cpp:70-95 | copying one more present entry extends the finished copy |
| PageCopies.AllocatedTwice | kernel/src/Memory/PagingManager.cpp:70-95 | two stretches of copying together allocate their fresh frames once each and spare all others |
| PageMaps.WrittenWalk | kernel/src/Memory/PagingManager.cpp:110-126 | one table write changes no walk but those of the page whose leaf was written |
| PageMaps.WrittenReach | kernel/src/Memory/PagingManager.cpp:32-42 | linking an empty table adds exactly that table to the tree |
| PageSpaces.TableLinkedIn | kernel/src/Memory/PagingManager.cpp:32-42 | AllocatePagingStructure keeps the tree and every translation |
| PageSpaces.LinkKeepsWays | kernel/src/Memory/PagingManager.cpp:22-42 | and its entry has present, write and user, so that ways on which every entry has them keep that |
| PageFlags.WrittenWay | kernel/src/Memory/PagingManager.cpp:32-42 | one written entry with all three flags leaves no way with an entry that lacks one |
| PageFlags.CopiedWay | kernel/src/Memory/PagingManager.cpp:68-96 | a copied tree grants the same rights on every way |
| PageIsolation.ForkCopiesTranslation | kernel/src/Memory/PagingManager.cpp:44-96 | after fork every user address translates in the child iff in the parent, same non-address bits and contents, parent unchanged |
| PageIsolation.ForkSharesNothing | kernel/src/Memory/PagingManager.cpp:44-96 | all frames of the child are fresh, pairwise distinct and disjoint from the parent's |
| PageIsolation.ForkMakesAddressSpace | kernel/src/Memory/PagingManager.cpp:44-96 | child and parent are well-formed address spaces afterwards |
| PageIsolation.ForkSeparates | kernel/src/Memory/PagingManager.cpp:44-96 | parent and child own disjoint memory and cannot write each other's tables |
| Paging.PhysicalMemory.RequestPageFrame | kernel/src/Memory/PageFrameAllocator.cpp:62-80 | a fresh frame, and failure iff none is left |
| Paging.PagingManager.InitializePaging | kernel/src/Memory/PagingManager.cpp:44-57 | a fresh top table with empty user half and the shared kernel half |
| Paging.PagingManager.CopyUserspace | kernel/src/Memory/PagingManager.cpp:59-66 | the user half is duplicated on fresh frames; fails iff too few frames are left |
| Paging.PagingManager.CopyPages | kernel/src/Memory/PagingManager.cpp:68-96 | the first entries of a table with everything below are duplicated, for every level |
| Paging.PagingManager.CopyEntry | kernel/src/Memory/PagingManager.cpp:75-93 | one entry with everything below it is duplicated |
| Paging.PagingManager.MapMemory | kernel/src/Memory/PagingManager.cpp:103-128 | the page's walk gives the requested frame; if the entries present on the way had present, write and user, all four entries of the walk have them; every other walk is unchanged; the tree stays well-formed; both panics characterised exactly |
| Paging.PagingManager.PageNotPresentLevel | kernel/src/Memory/PagingManager.cpp:130-156 | 0 iff the address is mapped, otherwise the level of the first missing entry; the lock stays held iff a table on the way is missing |
| Paging.QueryOfNewSpaceKeepsLock | kernel/src/Memory/PagingManager.cpp:130-156 | it stays held for every user address of a new address space |
| PageSpaces.GrownOwned | kernel/src/Memory/PagingManager.cpp:32-42 | one written entry adds exactly one frame to those an address space owns, and none is owned twice |
| Forks.ForkAddressSpace | kernel/src/Scheduler.cpp:376-378 | from any well-formed parent: the child's space is a copy on frames that were free, parent and child are separated, and the parent is unchanged; fails iff too few frames are left |
| Forks.CopyForks | kernel/src/Memory/PagingManager.cpp:44-96 | the same of InitializePaging followed by CopyUserspace, in terms of the memory before both |
| Forks.Bystander | kernel/src/Memory/PagingManager.cpp:44-96 | a process none of whose frames changed keeps its space, its translations and its view |
| ProcessMemory.IsolationOverRuns | kernel/src/Memory/PagingManager.cpp:44-128 | in every run of creations, mappings of new pages, forks, user stores and work of the kernel on frames of its own, every process owns a well-formed space and no two share a frame |
| ProcessMemory.ProcessesAreIsolated | kernel/src/Memory/PagingManager.cpp:44-128 | whatever the others and the kernel do, a process sees its memory unchanged until it acts itself |
| ProcessMemory.RightsOverRuns | kernel/src/Memory/PagingManager.cpp:22-128 | in every run all four entries of every walk of every process have present, write and user |
| ProcessMemory.MemoryIsAPageMap | kernel/src/Memory/PagingManager.cpp:44-128 | over whole runs what a process sees at an address is what its own actions, replayed on a plain map of pages, put there |
| ProcessMemory.ActingAlikeSeesAlike | kernel/src/Memory/PagingManager.cpp:44-128 | in any two runs processes that start alike and act alike see the same, whatever all others do |
| ProcessMemory.SameRequestsSeeAlike | kernel/src/Memory/PagingManager.cpp:44-128 | where all free frames hold the same words, their own requests decide what they see |
| ProcessMemory.MappingFirstShows | kernel/src/Memory/PagingManager.cpp:103-128 | two runs in which a process sees the same new page iff the two frames held the same words |
| ProcessMemory.PagesDiffer | kernel/src/Memory/PagingManager.cpp:103-128 | different pages of a process have different frames |
| ProcessMemory.KernelDisturbsNobody | kernel/src/Scheduler.cpp:146-148 | taking frames for a system-call stack and writing frames no process owns changes no process |
| ProcessMemory.StepKeepsIsolation | kernel/src/Memory/PagingManager.cpp:44-128 | each of those steps keeps all processes isolated |
| ProcessMemory.StepKeepsOpen | kernel/src/Memory/PagingManager.cpp:22-128 | each of those steps keeps the rights of all processes |
| ProcessMemory.MapKeepsSpace | kernel/src/Scheduler.cpp:38-43 | mapping a newly requested frame keeps the space well-formed and takes only frames that were free |
| ProcessMemory.StoresAreInvisible | kernel/src/Memory/PagingManager.cpp:44-96 | however the stores of any number of processes interleave, each sees what it would see had the others never stored |
| ProcessMemory.NewPageShowsOldContents | kernel/src/Memory/PagingManager.cpp:103-128 | a newly mapped page shows the old contents of its frame |
| ProcessMemory.ForkedView | kernel/src/Scheduler.cpp:376-378 | a forked child starts with exactly its parent's view |
| DiskBlocks.WriteInBlock | kernel/src/Ext2.cpp:195-228 | a write inside a block changes that block as a splice and no other block |
| DiskBlocks.AddressInBlock | kernel/src/Ext2.cpp:195-228 | an offset in a block is the disk address `block * blockSize + offset` |
| Ext2Layout.SlotIsFlattened | kernel/src/Ext2.cpp:294-327 | resolving an index is indexing the flattened direct/single/double tree |
| Ext2Layout.DataSlotsDistinct | kernel/src/Ext2.cpp:294-327 | different indexes use different pointer slots |
| Ext2.PointerRead | kernel/src/Ext2.cpp:309-327 | pointer reads stay inside their pointer block and read that pointer |
| Ext2.ResolvedFlattened | kernel/src/Ext2.cpp:294-327 | where the pointer blocks exist, the chain of reads ends in the flattened entry |
| Ext2.ResolvedExact | kernel/src/Ext2.cpp:309-327 | without a pointer block the entry is 0, and the code agrees iff the word it reads instead is 0: a word of block 0, or one of the block that a word of block 0 names |
| AbsentPointers.VolumeIsValid | kernel/src/Ext2.cpp:294-339 | a well-formed volume with a file of twelve blocks and a boot block that is not zero |
| AbsentPointers.CodeDisagrees | kernel/src/Ext2.cpp:309-313 | there the code takes the first word of the disk for the number of a block the file does not have |
| AbsentPointers.WriteGoesAstray | kernel/src/Ext2.cpp:331-336 | so block 12 of the file is written to the block this word names, and none is added |
| Ext2.Ext2FileSystem.ResolvePointer | kernel/src/Ext2.cpp:294-327 | the chain of reads for every index in range; the flattened entry where the pointer blocks exist |
| Ext2.Ext2FileSystem.GetBlockAddr | kernel/src/Ext2.cpp:294-339 | the block of an index; a missing direct block is allocated and linked on request; panics iff the index is out of range or a missing block beyond the direct ones is to be added, having taken that block |
| Ext2.Ext2FileSystem.GetInode | kernel/src/Ext2.cpp:411-424 | the record at its place in the inode table of its group, at the disk address written out |
| Ext2Metadata.RecordRoundTrip | kernel/include/Ext2.h:131-160 | of a record laid out field by field, GetInode sees the size and the block pointers |
| Ext2Alloc.TakenKeepsBitmaps | kernel/src/Ext2.cpp:341-409 | group and superblock counters stay equal to the numbers of clear bits |
| Ext2Alloc.InodePlaceExact | kernel/src/Ext2.cpp:411-424 | GetInode finds the group and index Allocate encoded iff the bit is one of the group's inodes |
| Ext2Alloc.BlockPlace | kernel/src/Ext2.cpp:341-409 | a block number divided by the blocks per group gives its group and leaves its bit |
| Ext2Alloc.BitsOnDisk | kernel/src/Ext2.cpp:366-401 | a usage bit is digit `i % 8` of byte `i / 8` of the bitmap block on the disk |
| Ext2Alloc.BlockNumberUnique | kernel/src/Ext2.cpp:341-409 | a block number stands for one group and bit |
| Ext2.AllocationIsFresh | kernel/src/Ext2.cpp:341-409 | the bit was clear, is set now, and every other bit of every bitmap is unchanged |
| Ext2.BlocksExhausted | kernel/src/Ext2.cpp:341-409 | block allocation fails only on a full disk |
| Ext2.Ext2FileSystem.Allocate | kernel/src/Ext2.cpp:341-409 | the first clear bit of the first group not skipped, clear on the disk before and set after, with all counters updated; the number is that of the group and bit, counted from 0 for blocks and from 1 for inodes; nothing is taken and the answer is 0 when every group is skipped |
| Ext2.Ext2FileSystem.AllocateInGroup | kernel/src/Ext2.cpp:345-405 | one group's turn: takes its first clear bit or leaves the store alone |
| Ext2.Ext2FileSystem.FirstClearBit | kernel/src/Ext2.cpp:374-401 | the first clear digit of the bytes, lowest digit of each byte first, or none iff all are set |
| Ext2Writes.WriteFinished | kernel/src/Ext2.cpp:180-228 | a finished write is a splice of one file and leaves all others alone, on a well-formed disk |
| Ext2.Ext2FileSystem.WriteOperation | kernel/src/Ext2.cpp:195-228 | the block-splitting loop writes exactly the buffer, adding missing direct blocks |
| Ext2.Ext2FileSystem.ReadOperation | kernel/src/Ext2.cpp:195-228 | the block-splitting loop returns exactly the slice of the file |
| Ext2.Ext2FileSystem.Write | kernel/src/Ext2.cpp:180-193 | contents become the splice, other files keep their bytes and inodes, inode bitmaps and tables stay, the disk stays well-formed |
| Ext2.Ext2FileSystem.Read | kernel/src/Ext2.cpp:163-170 | the bytes of the file from the position, up to its end; it overruns the file iff the position lies beyond the end or wraps with the count |
| Ext2.Ext2FileSystem.Truncate | kernel/src/Ext2.cpp:266-272 | the file becomes empty and keeps its blocks; nothing else changes |
| Ext2.ClampExact | kernel/src/Ext2.cpp:163-170 | for every 64-bit position and count the read stays inside the file iff it does not start beyond its end and the sum does not wrap |
| Ext2.ClampFails | kernel/src/Ext2.cpp:163-170 | two reads of a file of 10 bytes that ask for nearly 2^64 bytes |
| Ext2Metadata.DataWriteMetadata | kernel/src/Ext2.cpp:195-228 | a write into a file's block leaves inode bitmaps and tables alone |
| Ext2Metadata.BlockAddedMetadata | kernel/src/Ext2.cpp:331-336 | adding a block to a file leaves inode bitmaps and tables alone |
| Ext2Metadata.RecordKept | kernel/src/Ext2.cpp:411-424 | the record GetInode reads is unchanged by file writes |
| Ext2Metadata.WroteTwice | kernel/src/Ext2.cpp:284-291 | two writes at the end of a file are one |
| Directories.PrintedParses | kernel/src/Ext2.cpp:130-161 | a printed entry is read back with its inode, kept name, type and size |
| Directories.EntryBytes | kernel/src/Ext2.cpp:130-161 | which bytes of an entry are its inode, size, name length, kind and name |
| Directories.AppendedEntry | kernel/src/Ext2.cpp:274-292 | appending the printed entry appends exactly that entry to the parsed list |
| Directories.NameKeptExactly | kernel/src/Ext2.cpp:274-292 | the name survives iff it has at most 255 bytes |
| Directories.ParseUnique | kernel/src/Ext2.cpp:130-161 | a stream parses in one way only |
| DirectoryLayers.DirectoryLayer.WriteDirectoryEntry | kernel/src/Ext2.cpp:274-292 | the directory's bytes gain exactly the printed entry, across block boundaries, as one write |
| DirectoryLayers.DirectoryLayer.ReadDirectory | kernel/src/Ext2.cpp:130-161 | the entry parsed at a position |
| DirectoryLayers.DirectoryLayer.Load | kernel/src/Ext2.cpp:109-115 | an inode that has no vnode is read off the inode table, which holds the inode the file system means, and cached |
| DirectoryLayers.DirectoryLayer.FindInDirectory | kernel/src/Ext2.cpp:98-128 | terminates with the first entry of that name, or none; a step that keeps the invariant |
| DirectoryLayers.DirectoryLayer.NewVnode | kernel/src/Ext2.cpp:235-245 | a fresh inode whose record with size 0 is that of an empty file |
| DirectoryLayers.DirectoryLayer.Create | kernel/src/Ext2.cpp:230-264 | a file or a directory under a new inode, one more entry of the parent with that inode, name and kind; a directory has itself and its parent under the names of one and two dots; a step that keeps the invariant |
| DirectoryLayers.DirectoryLayer.CreateThenFind | kernel/src/Ext2.cpp:98-264 | FindInDirectory finds what Create made under a new name, and in a new directory itself under one dot and its parent under two |
| Ext2Vnodes.InvariantOverRuns | kernel/src/Ext2.cpp:98-264 | over every run of finds, creates, writes and truncations no inode is cached twice, cached inodes exist, all others are current on disk, every directory parses |
| Ext2Vnodes.CreatedIsNew | kernel/src/Ext2.cpp:230-264 | over every run a created inode did not exist, was not cached, and was never returned before |
| Ext2Vnodes.StepKeeps | kernel/src/Ext2.cpp:98-272 | each of those steps keeps the invariant |
| Ext2Vnodes.CreateKeeps | kernel/src/Ext2.cpp:230-264 | so does Create, and its inode is new |
| Ext2Vnodes.WroteKeepsBase | kernel/src/Ext2.cpp:180-228 | a write to a cached file keeps every other inode current on disk and all marks |
| Ext2Vnodes.AppendedListing | kernel/src/Ext2.cpp:274-292 | an appended entry is one more entry of the directory's list |
| Ext2Vnodes.NewListing | kernel/src/Ext2.cpp:253-257 | a new directory parses as its entries for itself and its parent |
| Ext2Directories.FreshInode | kernel/src/Ext2.cpp:230-264 | an allocated inode number belongs to no known file and decodes to its place |
| Ext2Directories.FileAddedValid | kernel/src/Ext2.cpp:230-264 | adding a file keeps the store well-formed and every byte of every file |
| Ext2Directories.CachedAllKeeps | kernel/src/VFS.cpp:151-167 | caching entries never caches an inode twice |
| Ext2Directories.Cached | kernel/src/VFS.cpp:608-619 | a vnode is constructed only for an inode that is not cached |
| FileHandles.HandlesOverRuns | kernel/src/VFS.cpp:179-286 | over every run no present descriptor dangles, and counts equal the numbers of present descriptors up to the first freed VFS object that shares a handle, which ends that at once |
| FileHandles.ReleasedExact | kernel/include/Task.h:60-65 | freeing a VFS object keeps the counts exact iff it shares no handle with another one |
| FileHandles.DeletedWithLastReference | kernel/src/VFS.cpp:499-516 | a handle is deleted iff its last present descriptor closes |
| FileHandles.CountIsNumber | kernel/src/VFS.cpp:14-25 | the count of a table is the number of places with a present descriptor of that handle |
| FileHandles.StepKeeps | kernel/src/VFS.cpp:14-25 | each operation keeps exact counts, FreeResources iff it shares no handle; each keeps "at least" |
| FileHandles.ExecutedKeeps | kernel/src/VFS.cpp:621-631 | OnExecute's loop keeps the counts |
| FileHandles.ExecutedExactly | kernel/src/VFS.cpp:621-631 | a descriptor is present afterwards iff it was and its handle is not close-on-execute |
| FileHandles.OpenedThenExecuted | kernel/src/VFS.cpp:266-270 | so a descriptor just opened is closed by the next execute iff it was opened with close-on-execute |
| FileHandles.ReleaseLeaksAReference | kernel/include/Task.h:60-65 | a run after which a handle counts more descriptors than there are |
| FileHandles.ReleasedKeeps | kernel/include/Task.h:60-65 | deleting a VFS object leaves no dangling descriptor elsewhere |
| FileHandles.PresentDescriptorIsCounted | kernel/src/VFS.cpp:499-516 | the asserts on reference counts never fire |
| FileHandles.Descriptors.FindFreeFileDescriptor | kernel/src/VFS.cpp:179-208 | the highest free slot, or a new one at the end |
| FileHandles.LowestSlotExact | kernel/src/VFS.cpp:183-190 | that is the lowest free slot iff at most one is free |
| FileHandles.Descriptors.Open | kernel/src/VFS.cpp:210-286 | the new descriptor reaches the new handle, which counts one reference and has the close-on-execute flag asked for; open descriptors stay as they are; a failed open only leaves a free slot |
| FileHandles.Descriptors.Close | kernel/src/VFS.cpp:499-516 | only this descriptor goes, only its handle counts one less, or is deleted if it counted one; a descriptor that is not open is an error, a negative one a panic |
| FileHandles.Descriptors.CopyConstructor | kernel/src/VFS.cpp:14-25 | the copy has the same descriptors in the same places; each handle counts one more per present descriptor that reaches it; no flag changes |
| FileHandles.Descriptors.OnExecute | kernel/src/VFS.cpp:621-631 | exactly the present close-on-execute descriptors are closed |
| VfsFiles.OpenFiles.Write | kernel/src/VFS.cpp:360-402 | two writes of the file system: contents become the old ones zero-padded to the offset and spliced with the buffer; the shared offset moves past it; no write mode is an error |
| VfsFiles.OpenFiles.FillGap | kernel/src/VFS.cpp:382-392 | the zero-fill loop ends with the size at the offset, so the assert holds |
| VfsFiles.OpenFiles.Read | kernel/src/VFS.cpp:304-350 | the bytes at the shared offset, which moves past them; the same overruns |
| VfsFiles.OpenFiles.RepositionOffset | kernel/src/VFS.cpp:404-438 | the start, the cursor or the end plus the distance, in 64-bit arithmetic |
| VfsFiles.SeekExact | kernel/src/VFS.cpp:404-438 | a seek lands where it should iff the target is neither negative nor too large |
| Processes.InvariantOverRuns | kernel/src/Scheduler.cpp:266-486 | in every state of every run: no lost wake-up, every told child is real, exactly one wake source per Blocked task, intact families |
| Processes.ExitStatusKept | kernel/src/Scheduler.cpp:345-486 | over every run an exited process keeps its exit status until it is reaped, and its pid is never used again |
| Processes.StepKeeps | kernel/src/Scheduler.cpp:169-486 | every kernel step keeps that invariant |
| Processes.StepKeepsPid | kernel/src/Scheduler.cpp:169-486 | each step leaves terminated tasks as they are or reaps them, and hands out new pids only |
| Processes.SwitchKeeps | kernel/src/Scheduler.cpp:169-208 | a switch that loses no task restores it |
| Processes.ForkKeeps | kernel/src/Scheduler.cpp:374-397 | fork keeps it |
| Processes.ExitKeeps | kernel/src/Scheduler.cpp:345-364 | exit wakes the parent that waits for it, and the parent is found |
| Processes.WaitKeeps | kernel/src/Scheduler.cpp:431-449 | waiting with nothing to reap misses no exit |
| Processes.ReapKeeps | kernel/src/Scheduler.cpp:456-486 | reaping a childless child keeps families intact |
| Processes.ReapExact | kernel/src/Scheduler.cpp:456-486 | reaping keeps families intact iff the child had no children |
| Processes.ResumedWaiterReaps | kernel/src/Scheduler.cpp:447-454 | the asserts after the suspension in WaitForChild hold |
| Processes.SleepersAreBlocked | kernel/src/Scheduler.cpp:238-264 | a timer wakes only Blocked tasks, each for the last time |
| Processes.SleepKeeps | kernel/src/Scheduler.cpp:366-372 | sleeping adds exactly one wake source |
| Processes.KeyKeeps | kernel/src/TerminalDevice.cpp:53-79 | the reader a key wakes is in the queue, Blocked and not running |
| Processes.ExecuteExact | kernel/src/Scheduler.cpp:399-423 | execute keeps families intact iff the caller had no children |
| FailingRuns.TwoForksLoseProcessTwo | kernel/src/Scheduler.cpp:169-208 | the code loses process 2 after the boot, two forks and a tick |
| FailingRuns.ThreeNormalTasksLoseOne | kernel/src/Scheduler.cpp:184-192 | of three Normal tasks in the queue the first is lost |
| FailingRuns.OrphaningIsReached | kernel/src/Scheduler.cpp:345-486 | a run to a waiter that was told a terminated child with a child of its own |
| FailingRuns.ReapingLeavesAnOrphan | kernel/src/Scheduler.cpp:456-486 | reaping there leaves a task whose parent does not exist |
| FailingRuns.ExecuteForgetsAChild | kernel/src/Scheduler.cpp:399-423 | a run after which execute leaves a child its parent does not know |
| WakeSources.SourcesOverRuns | kernel/src/Scheduler.cpp:169-486 | in all runs, also with lost tasks and with parents that are reaped or execute, Blocked tasks have exactly one wake source and nothing else has any |
| WakeSources.WakeupsFindTheirTask | kernel/src/Scheduler.cpp:238-291 | so a timer or key never asks for a task that is missing or not suspended |
| WakeSources.AnyStepKeeps | kernel/src/Scheduler.cpp:169-486 | every step that does not panic keeps the wake sources |
| WakeSources.LossySwitchKeeps | kernel/src/Scheduler.cpp:169-208 | so does a switch that loses any number of Normal tasks |
| Switching.SelectPartitions | kernel/src/Scheduler.cpp:184-192 | the selection loop neither duplicates nor invents tasks |
| Switching.SelectOne | kernel/src/Scheduler.cpp:184-192 | it takes one task iff no Normal task is two or more places after the first, and then the first |
| Switching.ConservationExact | kernel/src/Scheduler.cpp:169-208 | a switch conserves all tasks iff no Normal task sits two or more places after the first Normal one |
| Switching.LostTasks | kernel/src/Scheduler.cpp:169-208 | the tasks lost are exactly those taken but the last |
| Switching.SelectKeepsOrder | kernel/src/Scheduler.cpp:184-192 | Terminated, Blocked and waiting tasks stay in their order |
| Timers.TimerNeverStops | kernel/src/Scheduler.cpp:222-264 | remaining times stay positive, the timer is never set to 0, the clock is the sum of the deltas |
| Timers.SleeperLeft | kernel/src/Scheduler.cpp:238-264 | a sleeper's entry holds its request minus the time passed, and goes at the first update that reaches it |
| Timers.WokenExactly | kernel/src/Scheduler.cpp:222-264 | no overshoot, except possibly at the first update after the push |
| Schedulers.Scheduler.constructor | kernel/src/Scheduler.cpp:158-167 | the first process is queued, the invariant holds, and the timer is in its first state |
| Schedulers.Scheduler.GetTask | kernel/src/Scheduler.cpp:210-220 | finds the task with the pid |
| Schedulers.Scheduler.ConfigureTimerClosestExpiry | kernel/src/Scheduler.cpp:222-236 | programs the smallest remaining time, at most 5 |
| Schedulers.Scheduler.UpdateTimerEntries | kernel/src/Scheduler.cpp:238-264 | wakes exactly the sleepers whose time is up, shortens the other entries, advances the clock |
| Schedulers.WokenTasks | kernel/src/Scheduler.cpp:238-264 | those are the queued tasks of which an entry that unblocks has at most the passed time left; they turn Normal with return value 0 |
| Schedulers.Scheduler.SelectNextTask | kernel/src/Scheduler.cpp:184-192 | the loop's exact effect on the queue |
| Schedulers.Scheduler.SwitchToNextTask | kernel/src/Scheduler.cpp:169-208 | the exact effect of a switch, lossy or not; wake sources are kept always, a lossless one is a switch of the state machine, and on the timer it is an update of Timers |
| Schedulers.Scheduler.SuspendSystemCall | kernel/src/Scheduler.cpp:266-277 | records state and argument of the suspended caller |
| Schedulers.Scheduler.ExitCurrentTask | kernel/src/Scheduler.cpp:345-364 | the caller terminates with its status, the parent in the queue wakes with its pid iff it waits for it or for any child, every other task stays; then a switch and a timer update |
| Schedulers.Scheduler.SleepCurrentTask | kernel/src/Scheduler.cpp:366-372 | the caller blocks; on the timer a push of the requested milliseconds for its pid, then an update, so that the laws of Timers hold of the scheduler |
| Schedulers.Scheduler.ForkCurrentTask | kernel/src/Scheduler.cpp:374-397 | a Normal child with the next pid, known to its parent |
| Schedulers.Scheduler.Execute | kernel/src/Scheduler.cpp:399-423 | the caller is replaced by a task with its pid and parent and no children, at the end of the queue |
| Schedulers.Scheduler.FindReapable | kernel/src/Scheduler.cpp:433-445 | the first child in list order that has terminated and is accepted, or 0 iff there is none |
| Schedulers.Scheduler.Reap | kernel/src/Scheduler.cpp:456-486 | the child leaves the queue and the list of children, which keep their order, and its status is returned; both loops find it |
| Schedulers.Scheduler.WaitForChild | kernel/src/Scheduler.cpp:425-486 | error, reaping or suspension, each exactly when it should happen; what is reaped has terminated and is the child asked for, if one was |
| Schedulers.Scheduler.FinishWait | kernel/src/Scheduler.cpp:449-486 | the resumed waiter reaps the child it was told, which has terminated and is the one it asked for |
| Schedulers.Scheduler.SuspendReader | kernel/src/TerminalDevice.cpp:14-19 | the reader blocks with one place in the unblock queue; a timer update |
| Schedulers.Scheduler.UnsuspendReader | kernel/src/Scheduler.cpp:279-291 | the first reader is found, Blocked, and turns Normal with return value 0 |
| Schedulers.AnySelection | kernel/src/Scheduler.cpp:184-200 | whatever the selection takes, the tasks that stay are as they were and those lost were Normal |
| Schedulers.LosslessSelection | kernel/src/Scheduler.cpp:184-200 | a selection of at most one task keeps every task and runs a Normal one if there is one |
| Terminals.TypedAppends | kernel/src/TerminalDevice.cpp:53-79 | a key is appended to the pending input; a backspace removes only from the unfinished line |
| Terminals.TypedKeepsLines | kernel/src/TerminalDevice.cpp:53-79 | a newline ends its line: every line but the last ends with one, and it stands nowhere else |
| Terminals.TakenSplits | kernel/src/TerminalDevice.cpp:21-40 | a read takes a prefix of the pending input |
| Terminals.TakenKeepsLines | kernel/src/TerminalDevice.cpp:21-30 | a read keeps that, and only its last character can be a newline |
| Terminals.TerminalDevice.KeyboardInput | kernel/src/TerminalDevice.cpp:53-79 | the input grows by the key, lines end at newlines, and the first reader wakes under the exact condition on the new line or buffer, without a panic |
| Terminals.TerminalDevice.Read | kernel/src/TerminalDevice.cpp:8-42 | panics iff there is no line in canonical mode, blocks iff too little input is there, otherwise takes exactly the count, in canonical mode with no newline before the last character |
| Terminals.TerminalDevice.TakeInput | kernel/src/TerminalDevice.cpp:21-42 | what is read plus what is pending is what was pending, never past a line; lines still end at newlines |
| TicketLock.RefinesQueue | kernel/src/Spinlock.cpp:3-13 | outstanding tickets are the modular interval from serving to next, in queue order, in every interleaving of at most 2^32 threads |
| TicketLock.MutualExclusion | kernel/src/Spinlock.cpp:3-13 | at most one thread is inside |
| TicketLock.EntryInTicketOrder | kernel/src/Spinlock.cpp:3-13 | a spinning thread enters iff it is the one that has waited longest |
| KernelMath.Pow | kernel/src/Math.cpp:3-12 | the power in a 64-bit word |
| KernelMath.PowerTest | kernel/src/Math.cpp:28-28 | the mask test recognises exactly the powers of two |
| KernelMath.HalfTest | kernel/src/Math.cpp:30-37 | masking the upper half tests whether the value needs it |
| KernelMath.CeilLog2 | kernel/src/Math.cpp:14-40 | the least k with v <= 2^k for every nonzero 64-bit v |
| Slabs.RunsAreSafe | kernel/src/Heap.cpp:40-147 | over every run live blocks are disjoint, aligned, large enough and inside one slab |
| Slabs.InvariantOverRuns | kernel/src/Heap.cpp:40-147 | over every run each slot is free or live, free lists are acyclic and hold each free slot once |
| Slabs.SlotsConserved | kernel/src/Heap.cpp:40-147 | free-list slots plus live slots equal the slab's slot count |
| Slabs.ContentsKept | kernel/src/Heap.cpp:60-108 | nobody else's calls or writes change a word of a live block |
| Slabs.AllocKeeps | kernel/src/Heap.cpp:60-76 | taking the head hands out a free slot |
| Slabs.FreeKeeps | kernel/src/Heap.cpp:78-108 | freeing returns the block to the slab it came from |
| Slabs.StoreKeeps | kernel/src/Heap.cpp:9-12 | writes of an owner touch no free list |
| KernelHeaps.KernelHeap.InitializeSlab | kernel/src/Heap.cpp:40-58 | the list holds all slots in order, and only the slab's own memory is written |
| KernelHeaps.ListLayout | kernel/src/Heap.cpp:40-58 | such a list starts at the slab, every slot holds the address of the next one, and the last holds 0 |
| KernelHeaps.KernelHeap.InitializeKernelHeap | kernel/src/Heap.cpp:141-147 | ten full slabs of five pages, one above the other, with slots of 8 to 4096 bytes; fails iff there are no ten disjoint runs of five free frames above the cursor |
| KernelHeaps.RoomStep | kernel/src/Heap.cpp:141-147 | taking the lowest run leaves room for exactly one run less |
| KernelHeaps.KernelHeap.Alloc | kernel/src/Heap.cpp:60-76 | pops the head; fails iff the list is empty |
| KernelHeaps.KernelHeap.Free | kernel/src/Heap.cpp:78-108 | pushes the address; the heap stays well-formed iff it was a block in use |
| KernelHeaps.KernelHeap.KMalloc | kernel/src/Heap.cpp:116-122 | the head of the first slab whose slots are large enough; fails iff the request exceeds 4096 or that list is empty |
| KernelHeaps.KernelHeap.KFree | kernel/src/Heap.cpp:124-139 | for every address: the first slab whose range has it gets it, a panic iff none has; the heap stays well-formed iff it was a block in use |
| Slabs.FreeExact | kernel/src/Heap.cpp:78-108 | freeing leaves a well-formed heap iff the address is that of a block in use |
| KernelHeaps.ClassIs | kernel/src/Heap.cpp:116-121 | the slab index is the least class that fits |
| KernelHeaps.LargeKMalloc | kernel/src/Heap.cpp:110-114 | the lowest run of the whole pages of the size, which holds the request iff the size is a multiple of the page size; panics iff the size is below a page or there is no run |
| KernelHeaps.LargeRequestFits | kernel/src/Heap.cpp:110-114 | the request is granted and held iff its size is a positive multiple of the page size; 4097 bytes get one page |
| InitialStacks.LayoutRoundTrip | kernel/src/Scheduler.cpp:30-127 | the ABI's reader recovers argc, arguments, environment and auxiliary vector from the layout |
| InitialStacks.PointersRoundTrip | kernel/src/Scheduler.cpp:110-120 | null-terminated pointer lists are read back |
| InitialStacks.PairsRoundTrip | kernel/src/Scheduler.cpp:92-108 | the auxiliary vector is read back in order |
| InitialStacks.BytesAre | kernel/src/Scheduler.cpp:48-54 | byte `i` of a word is its digit `i` to the base 256 |
| InitialStacks.VisibleWhole | kernel/src/Scheduler.cpp:56-75 | strings without NUL come back whole |
| InitialStacks.MaskAligns | kernel/src/Scheduler.cpp:89-90 | the mask rounds an address down to a multiple of 16 |
| StackWriters.StackWriter.Push | kernel/src/Scheduler.cpp:48-54 | a word below the stack, its lowest byte first; fails iff it does not fit in the page |
| StackWriters.StackWriter.PushString | kernel/src/Scheduler.cpp:56-75 | the text and its NUL below the stack, and the address a program sees |
| StackWriters.StackWriter.Align | kernel/src/Scheduler.cpp:89-90 | the mask step stays in the page without a range check |
| StackWriters.StackWriter.WriteStack | kernel/src/Scheduler.cpp:45-126 | written iff everything fits in the page; a reader at rsp recovers everything; rsp is a multiple of 16 iff arguments plus environment strings are odd in number |
| Vectors.Vector.Push | kernel/include/Vector.h:65-87 | appends, growing into a new buffer of twice the capacity only when full |
| Vectors.Vector.PopLast | kernel/include/Vector.h:89-98 | removes the last element |
| Vectors.Vector.Pop | kernel/include/Vector.h:100-114 | removes one element and keeps the order of the rest |
| Vectors.Vector.Copy | kernel/include/Vector.h:46-57 | equal elements in a buffer of its own |
| Vectors.Vector.Assign | kernel/include/Vector.h:178-193 | equal elements in a buffer of its own; self-assignment changes nothing |
| Vectors.CopiesAreIndependent | kernel/include/Vector.h:46-87 | pushing to the original leaves a copy alone |

## Left out

- Hardware effects: CR3, TSS, descriptor tables, interrupt controllers, timers, port I/O and inline assembly.
- Scheduling on several cores and weak memory ordering; inside one kernel step locks are taken as held.
- Processes.InvariantOverRuns: runs of the steps of StepKeeps; of all runs SourcesOverRuns holds.
- Processes.StepKeeps: a step switches without losing a task, and only childless tasks are reaped or execute; ConservationExact, ReapExact and ExecuteExact say exactly when the code does so.
- Schedulers.Scheduler.SwitchToNextTask: register frames, page table and thread-control-block switching are not modelled.
- Terminals.TerminalDevice.Read: a reader's liveness in canonical mode is not claimed, because a newline wakes nobody there; echo and drawing are not modelled.
- ProcessMemory.IsolationOverRuns: freeing of frames is not a step, because the kernel never frees a process's frames, and mappings of frames that are not newly requested (the framebuffer) are left out; writes of the kernel into user pages count as stores of that process.
- ProcessMemory.StepKeepsIsolation: the same steps.
- ProcessMemory.ProcessesAreIsolated: the same steps.
- Paging.PagingManager.CopyUserspace: requires an empty user half in the child, as InitializePaging leaves it; the higher-half offset of the kernel's view of memory is not modelled.
- PageEntries.PopulatedEntry: only flags below bit 12 are covered; the code shifts a 32-bit 1, which is undefined for the no-execute bit.
- PageFrames.PageFrameAllocator.FreePageFrame: frees a frame the caller holds, as the code asserts; FreePageFrames is its loop and adds nothing.
- Ext2.Ext2FileSystem.GetBlockAddr: what a pointer read beyond the end of the disk finds is not modelled; on a full disk a missing block becomes block 0, which is why Write asks for enough free blocks.
- Ext2.Ext2FileSystem.Write: positions beyond the size are left to the VFS, which fills the gap first; sizes stay below 2^32, the width of the inode's size field.
- Ext2.Ext2FileSystem.Read: of an overrun only the count asked for is modelled, not what is read.
- VfsFiles.OpenFiles.Read: regular files only; directory streams and devices are not modelled, and nothing is said of the offset after an overrun.
- Ext2.Ext2FileSystem.Allocate: numbers are unbounded; the truncation to 32 bits of very large disks is not modelled.
- The first data block: for block sizes of 1024 bytes the theorems follow the code's own numbering, which ignores it, and so not that of the format.
- DirectoryLayers.DirectoryLayer.Create: the records of free inodes are taken to point to no blocks, since the code resets only the size; the parent is a cached vnode of a directory, and the disk can take the entries.
- DirectoryLayers.DirectoryLayer.FindInDirectory: the file system is one whose directories name existing inodes.
- Ext2Vnodes.InvariantOverRuns: inode fields other than size and block pointers are not modelled.
- Write-back of cached inodes and superblock when a file system is closed, symbolic links, mounts and path traversal.
- FileHandles.Descriptors.Open: the path, the flags other than close-on-execute and the file system call are one success value; flag changes and the 32-bit index are not modelled.
- VfsFiles.OpenFiles.Write: regular files only; writing to a directory is an error and to a device is passed on.
- VfsFiles.OpenFiles.RepositionOffset: regular files only; terminals are an error of their own.
- KernelHeaps.KernelHeap.InitializeSlab: the code's asserts read the fields before they are set and so test nothing; they are not modelled.
- The permanent bump allocator.
- StackWriters.StackWriter.WriteStack: mapping the stack's pages is MapMemory's part and is not repeated; the rest of CreateTask only fills fields.
- Vectors.Vector.Push: the 64-bit capacity does not wrap.
- Loading of ELF files, device files, keyboard, framebuffer, fonts, logging and boot order.
