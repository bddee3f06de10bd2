# Models of an RV64 teaching kernel

This project models the parts of the kernel in which shared, mutable state makes
correctness hard, and proves what each part keeps over every run: virtual memory with
copy-on-write, the FAT file store, the user-space heap, the buffer cache, signals, pipes,
scheduling and futexes, descriptors, process life cycles, the list macros they use, and the
shell's parser. Kernel code runs on one scheduling hart and without interruption between two
sleeps, so each protocol is a set of atomic steps.

Where a part updates objects in place it is a class whose methods carry the loops and the
stores of the code; each method is proved against functions and predicates on values, and the
properties that span operations are lemmas about those. A method result `ok == false` stands
for `panic()` or a failed assertion, and its contract says when that can happen.

| subsystem | modules | main results |
|---|---|---|
| virtual memory | PageEntry, Tables, Frames, Hardware, Segments, AddressSpace, Memory, Fork, Isolation, Teardown | `Hardware.TranslatesAsLookup`, `Isolation.Run`, `AddressSpace.IsolatedIff`, `Isolation.ForkIsolation`, `Teardown.TornDownCounts`, `Tables.SetLeafLookup`, `Segments.PagesOfAProgram` |
| FAT file store | Bytes, Bitmap, FatVolume, FileIndex, Files, FileModel, FileStore | `FileStore.FileSystem.Run`, `FileModel.RunRefines`, `FileStore.FileSystem.EWrite`, `FileStore.FileSystem.RelocClus`, `FileStore.FileSystem.ETrunc` |
| heap | HeapLayout, Heap | `Heap.Allocator.Malloc`, `Heap.Allocator.Free`, `HeapLayout.OneBlock` |
| buffer cache | Sequences, BufferList, BufferCache, Buffers | `BufferCache.Retained` |
| signals | SignalState, Signals | `SignalState.ReturnRestores` |
| pipes | Pipes | `Pipes.Pipe.WriteSegment`, `Pipes.Pipe.ReadSegment` |
| scheduling and futexes | Schedule, FutexTable, Scheduler | `Scheduler.Kernel.NobodyStarves`, `Scheduler.Kernel.Yield`, `FutexTable.RequeuedCount` |
| descriptors | DescriptorTable, Descriptors | `DescriptorTable.PipeLifetime`, `Descriptors.FileTable.SyscallPipe` |
| processes | Lifecycle, Processes | `Processes.ProcessTable.ThreadFree`, `Lifecycle.ResolveIff`, `Lifecycle.ResolvesToItsLife` |
| lists | IntrusiveList | `IntrusiveList.Links.Remove` |
| shell | ShellParser, ShellGrammar, ShellRoundTrip, ShellStrings | `ShellGrammar.ParsesIff`, `ShellGrammar.EachWordOnce`, `ShellRoundTrip.WrittenIsParsed`, `ShellStrings.ParseAndTerminate` |

Some properties one would expect are false of the code as it stands. For each the exact condition
under which it holds is proved:

- `AddressSpace.IsolatedIff`: a write of the kernel onto a read-only page shows in every process that shares its frame (`Isolation.ReadOnlyShare` is a run from start-up).
- `Memory.MemoryManager.Protect` and `Memory.MemoryManager.MapOver`: mprotect and mmap make shared frames writable.
- `Memory.MemoryManager.PageInsert`: a frame mapped again at the page of its only reference ends up mapped and free.
- `FileIndex.FreesAllIff`: index blocks of large files leak (`FileIndex.LeakExample`).
- `FileStore.FileSystem.EAlloc` with `Files.ReuseLoses`: clusters of a reused entry are lost.
- `SignalState.ReuseIff`: masks survive the reuse of a thread slot (`SignalState.ReuseExample`).
- `Descriptors.FileTable.SyscallDupAndSet`: dup3 of an only reference onto itself panics (`Descriptors.DupOntoItself`).
- `Descriptors.FileTable.FcntlDup`: with a full table a reference is never given back.
- `Lifecycle.ResolveIff`: after 2^21 processes an id can name another process, and id 0 is possible (`Processes.ZeroIdStrands`).
- `Heap.SbrkSeesSizeIff`: requests of 2^31 bytes and more wrap in sbrk's parameter.

## Model

| member | source | states |
|---|---|---|
| `PageEntry.DecodeEncode` | include/Page.h:64-75 | an entry stored as a 64-bit word and read back is the same entry, for every flag, page number and high field |
| `PageEntry.EncodeDecode` | include/Page.h:64-75 | a 64-bit word read as an entry and stored again is the same word |
| `PageEntry.MacrosSplitTheWord` | include/Page.h:72-75 | PTE2PA, PTE2PERM and PA2PTE give exactly the address and the permission part of an entry, and the two parts make up the word |
| `PageEntry.FlagPositions` | include/Page.h:64-71 | each flag of an entry stands at its own bit of the word: valid 0, read 1, write 2, execute 3, user 4, accessed 6, dirty 7, copy-on-write 8 |
| `PageEntry.WordsBytes` | include/Page.h:77-83 | a frame of entries seen as bytes, eight little-endian bytes to a word, and seen as words again is unchanged |
| `PageEntry.BytesWords` | include/Page.h:77-83 | 4096 bytes seen as entries and as bytes again are unchanged |
| `PageEntry.PokeBytes` | kernel/memory/MemoryInit.c:87-95 | copying bytes into a frame changes exactly these bytes of it |
| `Tables.WalkFacts` | kernel/memory/Page.c:67-97 | a walk from a root to page p passes tables of that address space at levels 1 and 0 only, and ends at the slot with the page's own index |
| `Tables.LeafSlotInjective` | kernel/memory/Page.c:67-97 | two different pages, of one address space or of two, never share a leaf slot: tables are never shared |
| `Tables.LeafSlotOnto` | kernel/memory/Page.c:67-97 | every slot of a level-0 table is the leaf slot of one page of one address space |
| `Tables.SetLeafLookup` | kernel/memory/Page.c:161-182 | the tree refines a map from pages to entries: writing one leaf updates one key, and every other page of every address space looks up as before |
| `Tables.GrowLookup` | kernel/memory/Page.c:67-97 | hanging a new empty table into the tree changes what no page maps to |
| `Frames.AllocInv` | kernel/memory/Page.c:49-65 | taking the first free frame and clearing it keeps the whole invariant: tree shape, memory contents, exact counts, a duplicate-free free list |
| `Frames.NewTable` | kernel/memory/Page.c:72-80 | a walk that creates a table keeps the invariant, every mapping and every frame in use |
| `Frames.PutLeafInv` | kernel/memory/Page.c:161-182 | replacing a leaf moves one reference from the old frame to the new one, so every count stays the number of entries that refer to the frame |
| `Frames.ZeroRefs` | kernel/memory/Page.c:111-120 | a frame with count 0 is neither a table nor mapped by any entry |
| `Frames.TableRefs` | kernel/memory/Page.c:122-131 | a table in use has exactly one reference, from its parent or as a root |
| `Frames.MappedFrame` | kernel/memory/Page.c:99-109 | a frame that some page maps is counted, not on the free list and not a table |
| `Frames.UnmapRemapped` | kernel/memory/Page.c:20-37 | unmapping changes one page of one address space and no contents of a frame still mapped |
| `Frames.MapLeafRemapped` | kernel/memory/Page.c:161-182 | mapping changes one page of one address space and no contents of a mapped frame |
| `Frames.RemapChain` | kernel/memory/Page.c:161-182 | unmapping, growing tables and mapping the same page amount to one remapping of that page |
| `Frames.MapFree` | kernel/memory/Page.c:161-182 | mapping a frame that is on the free list ends the invariant: it is free and counted at once |
| `Frames.InsertedWord` | kernel/memory/Page.c:161-182 | the word pageInsert stores holds the frame's address and, of the low ten bits, exactly those of the permission and the valid, accessed and dirty bits |
| `Hardware.TranslatesAsLookup` | include/Page.h:61-64 | the walk over the words in memory that section 4.4 of the RISC-V privileged architecture prescribes for Sv39 finds, for every page of every address space, the entry that the tables hold for it, or a fault; it never ends at a larger page |
| `Frames.BootInv` | kernel/memory/MemoryInit.c:15-28 | after start-up the invariant holds: frames of the kernel image are counted, all others are free once |
| `Segments.LazyIsEager` | kernel/memory/Page.c:210-233 | for segments that do not overlap, every byte of the page that pageout builds is the byte of the program loaded all at once, zero where no segment reaches |
| `Segments.PagePermIff` | kernel/memory/Page.c:210-231 | the permissions pageout joins: each flag is set if and only if a segment that reaches into the page has it |
| `Segments.ProgramRights` | kernel/trap/Exec.c:376-402 | a page of a program is executable if and only if the file part of some header reaches into it, and readable and writable if and only if any part does |
| `Segments.ReverseEager` | kernel/yield/Clone.c:17-24 | the reversed segment list that fork gives the child has the same bytes and is again free of overlaps |
| `Segments.ReverseSamePages` | kernel/yield/Clone.c:17-24 | the reversed list builds the same pages with the same permissions |
| `Segments.ForkSegments` | kernel/yield/Clone.c:17-24 | pushing copies of the parent's segments one by one gives the reversed list |
| `Segments.LoadHeader` | kernel/trap/Exec.c:380-402 | one program header adds its file part and its zero part, or is refused when memsz is below filesz |
| `Segments.LoadProgram` | kernel/trap/Exec.c:376-402 | the PT_LOAD loop yields the segments of all headers, and fails exactly when some header has memsz below filesz |
| `Segments.SegmentsAreElf` | kernel/trap/Exec.c:376-402 | loading from the segment list gives the ELF image: file bytes, then zeros up to memsz |
| `Segments.ProgramDisjoint` | kernel/trap/Exec.c:376-402 | headers with disjoint address ranges give segments that do not overlap |
| `Segments.PagesOfAProgram` | kernel/memory/Page.c:210-233 | a page of a program built on demand equals the ELF image byte for byte |
| `AddressSpace.MapPrivate` | kernel/memory/Page.c:237-259 | mapping a frame nobody else maps keeps the rule that a writable page owns its frame alone, and shows nothing elsewhere |
| `AddressSpace.StoreThrough` | kernel/memory/Page.c:313-337 | a store through any user page keeps the tables and shows in exactly the pages, of any address space, that have its frame |
| `AddressSpace.CopiedChunk` | kernel/memory/Page.c:313-337 | one turn of the copy loop: the bytes written grow by the chunk, seen at their addresses and, through a read-only page, wherever its frame is shared; nothing else visible changes |
| `AddressSpace.CountOneIsSole` | kernel/memory/Page.c:237-259 | a frame the kernel does not hold is private to a page if and only if its count is 1 |
| `AddressSpace.IsolatedIff` | kernel/memory/Page.c:313-337 | for every write of the kernel into an address space: no other address space sees anything of it if and only if each read-only page that it changes has a frame with one reference |
| `AddressSpace.ReflagPrivateIff` | kernel/trap/Syscall.c:580-589 | new flags for a user page keep every writable page private if and only if they do not make a frame with other references writable |
| `AddressSpace.AddRootUser` | kernel/memory/Page.c:184-191 | a new directory is an address space without pages and changes nobody's view |
| `Memory.MemoryManager.constructor` | kernel/memory/MemoryInit.c:15-28 | all frames above the kernel image are free, each once |
| `Memory.MemoryManager.PageAlloc` | kernel/memory/Page.c:49-65 | the first free frame, zeroed; it panics exactly when no frame is free |
| `Memory.MemoryManager.PageWalk` | kernel/memory/Page.c:67-97 | the level-0 table on the path to a page, created on demand; without creation nothing changes, and a panic means no frame is free |
| `Memory.MemoryManager.PageLookup` | kernel/memory/Page.c:99-109 | found exactly when the tables have a valid entry for the page, and then that entry |
| `Memory.MemoryManager.PageRemove` | kernel/memory/Page.c:20-37 | exactly one page is unmapped, its frame loses one reference and is freed at 0; a page outside RAM is left alone with -1 |
| `Memory.MemoryManager.PageInsert` | kernel/memory/Page.c:161-182 | exactly one page is remapped, to the given frame and permissions; the invariant is kept if and only if the frame does not have its only reference at that very page, else it ends up mapped and free; failure means no frame is free |
| `Memory.MemoryManager.AllocPgdir` | kernel/memory/Page.c:184-191 | a new empty address space |
| `Memory.MemoryManager.CowHandler` | kernel/memory/Page.c:237-259 | a copy-on-write page becomes writable on a frame of its own while every view stays the same; it panics only for a page without the mark or without a free frame |
| `Memory.MemoryManager.BuildPage` | kernel/memory/Page.c:210-231 | the loop over the segments leaves the page image in a fresh frame, or finds that no segment touches the page; the permission has a flag if and only if a segment that reaches into the page has it |
| `Memory.MemoryManager.Pageout` | kernel/memory/Page.c:193-234 | the missing page becomes resident with the contents it should have; its entry is user, and readable, writable and executable if and only if a segment of the page is, or as a stack page; everything else is unchanged; a panic means no frame or an address that belongs to nothing |
| `Memory.MemoryManager.Vir2Phy` | kernel/memory/Page.c:264-283 | the frame of a valid user page, or none; it stops only when a table on the path is missing |
| `Memory.MemoryManager.WritablePage` | kernel/memory/Page.c:318-327 | the head of the copy loops: the page is resident and private, or read-only and left as it is, and nothing visible has changed; it stops only for want of frames or at an address that cannot be reached |
| `Memory.MemoryManager.StoreChunk` | kernel/memory/Page.c:328-331 | a move into a page changes these bytes in all pages with its frame and nothing else |
| `Memory.MemoryManager.CopyOut` | kernel/memory/Page.c:313-337 | the bytes at dst.. of this address space become data, across pages, whatever was resident, shared or read-only; other address spaces see it exactly through read-only pages with a shared frame, so nothing if and only if every read-only page it changes has one reference; it never stops at a read-only page |
| `Memory.MemoryManager.MemsetOut` | kernel/memory/Page.c:339-362 | the bytes at dst.. become the value, with the same exact condition for others seeing nothing |
| `Memory.MemoryManager.CopyIn` | kernel/memory/Page.c:288-308 | the result is what the program reads at these addresses; nothing visible changes |
| `Memory.MemoryManager.StoreFault` | kernel/trap/Trap.c:168-181 | a store fault is answered with SIGSEGV, and nothing changed, if and only if the page is read-only; else the store succeeds when retried and nothing visible has changed, or the kernel stops for want of frames or because the page cannot be built |
| `Memory.MemoryManager.Protect` | kernel/trap/Syscall.c:580-589 | one turn of mprotect: a missing page is brought in, another gets new flags and keeps its bytes; writable pages stay private if and only if no shared frame becomes writable |
| `Memory.MemoryManager.MapFresh` | kernel/fs/File.c:197-202 | one turn of mmap where no page is: a page of zeros with the rights asked for, nothing else visible changes |
| `Memory.MemoryManager.MapOver` | kernel/fs/File.c:191-206 | one turn of mmap over a page: its bytes become zeros, also where a read-only page shares its frame; writable pages stay private if and only if no shared read-only page becomes writable |
| `Memory.MemoryManager.UserStore` | kernel/trap/Trap.c:168-181 | a store instruction with its fault changes one byte of this address space and nothing anybody else sees; it is refused if and only if the page is read-only |
| `Fork.ShareUser` | kernel/yield/Clone.c:55-59 | mapping the parent's frame in the child, marked or read-only, keeps the rule that every writable page owns its frame alone |
| `Fork.ForkLeaves` | kernel/yield/Clone.c:47-60 | the innermost loop shares the pages of one level-0 table and moves none of the parent's tables |
| `Fork.ForkTable` | kernel/yield/Clone.c:42-61 | the middle loop shares the pages below one level-1 table |
| `Fork.ForkPages` | kernel/yield/Clone.c:36-62 | the triple loop: each valid parent page but the trampolines is marked and mapped in the child; a panic means no frame is free |
| `Fork.ForkViews` | kernel/yield/Clone.c:36-62 | after the loops every private page of the child shows what the parent's showed, with the same rights, and nobody else's view has changed |
| `Fork.ProcessFork` | kernel/yield/Clone.c:17-62 | after fork parent and child both read, resident or not yet loaded, as the parent did before, and third processes see no change |
| `Fork.ForkSharesReadOnly` | kernel/yield/Clone.c:55-59 | after fork a read-only page has the same frame in both processes, without a mark, and more than one reference |
| `Fork.CloneSpace` | kernel/yield/Clone.c:36-62 | a new address space that reads as the parent's, while every address space there was reads as before |
| `Isolation.Run` | kernel/memory/Page.c:288-362 | copy-on-write isolation over every run of stores, copyout, memsetOut, copyin, forks and exits of any processes: unless the kernel writes a page its process may not write, each process sees exactly its own writes over what it saw at the start, or over its parent's memory at the fork, and every copyin brings these bytes; a run stops only for want of frames or in an operation with an address of its range that cannot be reached |
| `Isolation.ForkIsolation` | kernel/yield/Clone.c:36-62 | in the replay, after any run, a fork and any further run, parent and child each have their own writes over the parent's memory at the fork |
| `Isolation.OwnOfOthers` | kernel/yield/Clone.c:36-62 | operations of other processes leave a view as it was |
| `Isolation.ReadOnlyShare` | kernel/memory/Page.c:313-337 | from start-up: two processes with one read-only page, as mmap and fork leave them; after a copyout to it in one of them the other sees different bytes |
| `Teardown.DropInv` | kernel/memory/Page.c:122-131 | releasing an empty table keeps all invariants and frees the table once |
| `Teardown.FreeLeaves` | kernel/memory/Page.c:147-152 | the innermost loop unmaps every leaf of one table |
| `Teardown.ReleaseTable` | kernel/memory/Page.c:153-158 | the count of a released table is 0, so the assertion never fails; the stray store into it harms nothing |
| `Teardown.FreeTable` | kernel/memory/Page.c:142-156 | every table below one root entry is released once |
| `Teardown.PgdirFree` | kernel/memory/Page.c:133-159 | the whole directory is gone, each of its tables is on the free list, and every other table and entry is as before |
| `Teardown.TornDownCounts` | kernel/memory/Page.c:133-159 | every data frame loses exactly the references of this directory and is free, once, when none is left |
| `Teardown.TornDownLookup` | kernel/memory/Page.c:133-159 | no other address space changes a mapping or the contents behind it |
| `Teardown.TornDownUser` | kernel/memory/Page.c:133-159 | after the destruction of one address space every other one sees what it saw and is private as before |
| `Bitmap.LowBit64` | include/Type.h:37-63 | the number of the lowest set bit of a 64-bit word, -1 exactly for 0 |
| `Bitmap.FirstClear` | kernel/fs/Fat.c:150-153 | the scan over the words of a bitmap finds the lowest clear bit, and nothing exactly when all are set |
| `FatVolume.FatPlace` | kernel/fs/Fat.c:82-94 | the sector and offset of every FAT entry lie inside the table |
| `FatVolume.ClustersApart` | kernel/fs/Fat.c:71-73 | no two clusters share a sector |
| `FatVolume.PutEntryRead` | kernel/fs/Fat.c:123-134 | writing one FAT entry on disk changes that entry and no other |
| `FatVolume.PutDataSector` | kernel/fs/Fat.c:209-245 | writing into a sector of a cluster changes these bytes of this cluster, and no other cluster and no FAT entry |
| `FatVolume.BuildBitmap` | kernel/fs/FileSystem.c:210-221 | after the loop a bit is set if and only if its FAT entry is not zero |
| `FatVolume.Volume.constructor` | kernel/fs/FileSystem.c:210-221 | a mounted volume: bitmap and FAT agree |
| `FatVolume.Volume.ReadFat` | kernel/fs/Fat.c:101-115 | the entry of a cluster; end marks read as themselves, clusters past the data area as 0 |
| `FatVolume.Volume.WriteFat` | kernel/fs/Fat.c:123-134 | exactly one entry changes; a cluster past the data area is refused with -1 |
| `FatVolume.Volume.ReadClus` | kernel/fs/Fat.c:209-245 | the loop over sectors returns the given range of the cluster, and each byte of it is the one on the disk at the place behind all copies of the FAT |
| `FatVolume.Volume.WriteClus` | kernel/fs/Fat.c:209-245 | the loop over sectors lays the data over the given range of the cluster, byte by byte at its place on the disk, and changes no other cluster and no sector of any copy of the FAT |
| `FatVolume.ClusterOnDisk` | kernel/fs/Fat.c:71-73 | byte k of a data cluster stands in sector reserved + copies * sectors per FAT + (cluster - 2) * sectors per cluster + k / 512 |
| `FatVolume.DataAreaDivided` | kernel/fs/Fat.c:68-73 | the sectors behind the copies of the FAT are divided up among the data clusters: each belongs to exactly one, and no other sector to any |
| `FatVolume.EntryOnDisk` | kernel/fs/Fat.c:82-113 | an entry of the FAT is the little-endian word at its place in the first copy |
| `FatVolume.FatsKept` | kernel/fs/Fat.c:209-245 | a change of one data cluster leaves every sector of every copy of the FAT, and every sector before them, as it was |
| `FatVolume.Volume.ZeroClus` | kernel/fs/Fat.c:136-145 | the cluster is all zeros, everything else unchanged |
| `FatVolume.Volume.FindFree` | kernel/fs/Fat.c:147-153 | the lowest free cluster, or none if and only if no cluster of the data area is free |
| `FatVolume.Volume.AllocClus` | kernel/fs/Fat.c:147-168 | the lowest free cluster, marked as a chain end, zeroed and set in the bitmap; it stops if and only if no cluster of the data area is free |
| `FatVolume.Volume.FreeClus` | kernel/fs/Fat.c:170-174 | the entry is 0 and the bit clear, bitmap and FAT still agree |
| `FileIndex.PlacesDistinct` | include/Inode.h:12-18 | positions of a file and places in its index correspond one to one |
| `FileIndex.NewBlocks` | kernel/fs/Fat.c:284-309 | the index blocks a file needs for one more cluster: exactly those the code allocates |
| `FileIndex.FreesOnlyOwn` | kernel/fs/Fat.c:20-45 | eFreeInode never frees a block the file does not have |
| `FileIndex.FreesAllIff` | kernel/fs/Fat.c:20-45 | eFreeInode frees all blocks of a file if and only if it has at most 1032 clusters indexed |
| `FileIndex.LeakExample` | kernel/fs/Fat.c:29-29 | a file of 1033 clusters keeps two index blocks |
| `Files.GrowChainInv` | kernel/fs/Fat.c:267-278 | linking a fresh cluster behind a chain keeps all chains acyclic, disjoint and indexed as before, and no byte of any file changes |
| `Files.FirstClusterInv` | kernel/fs/Fat.c:377-382 | the first cluster of an empty file keeps the invariant and changes no byte |
| `Files.PutWord` | kernel/fs/Fat.c:284-309 | writing an unused word of an index block disturbs no file's index |
| `Files.NextIndexedInv` | kernel/fs/Fat.c:281-309 | once its word is in place, one more position of the index agrees with the chain |
| `Files.WriteChunk` | kernel/fs/Fat.c:384-394 | a write inside one cluster of one file changes these bytes of the file and no byte of any other file |
| `Files.WriteRefines` | kernel/fs/Fat.c:368-401 | for a file with zeros past its end, a write is the splice of the data into the byte array, a gap reads as zeros, and every other file keeps its bytes |
| `Files.SpliceByte` | kernel/fs/Fat.c:368-401 | each byte of a splice: the data in its range, the old byte elsewhere, zero in a gap |
| `Files.EmptiedInv` | kernel/fs/Fat.c:539-550 | emptying a file, with all, some or none of its clusters given back, keeps every chain and index in order |
| `Files.EmptiedRefines` | kernel/fs/Fat.c:539-550 | an emptied file is the empty byte array and the other files keep their bytes |
| `Files.ReuseLoses` | kernel/fs/Fat.c:448-459 | an entry reused while it still has clusters loses exactly these clusters: taken on the volume and in no file |
| `Files.TruncateFreesIndex` | kernel/fs/Fat.c:20-45 | after truncation an index block of the file is free if and only if eFreeInode finds it |
| `FileModel.ImageReplay` | kernel/fs/Fat.c:329-401 | the reference by bytes is the reference by arrays: writes splice, truncation and creation empty |
| `FileModel.RunRefines` | kernel/fs/Fat.c:329-401 | over every run each file with zeros past its end at the start is the byte array that the same calls make of an array |
| `FileStore.FileSystem.constructor` | kernel/fs/Dirent.c:20-25 | entries without clusters on a mounted volume |
| `FileStore.FileSystem.InodeAlloc` | kernel/fs/Inode.c:8-18 | the lowest free index block; none exactly when all are in use |
| `FileStore.FileSystem.IndexNext` | kernel/fs/Fat.c:281-310 | the next cluster of the chain enters the index at its place, nothing else about any file changes; failure means no free index block or a full index |
| `FileStore.FileSystem.EFindInode` | kernel/fs/Fat.c:47-66 | for every indexed position the cursor goes to that cluster of the chain |
| `FileStore.FileSystem.AppendCluster` | kernel/fs/Fat.c:269-273 | the chain ends with a fresh zeroed cluster; all bytes of all files are unchanged |
| `FileStore.FileSystem.Advance` | kernel/fs/Fat.c:267-310 | one turn of the loop: one cluster further along the chain, indexed on the way, or the end of the chain |
| `FileStore.FileSystem.RelocClus` | kernel/fs/Fat.c:254-313 | the cursor is on the cluster of the byte, the chain extended to reach it when asked for, else -1; index and chain agree, no byte of any file changes |
| `FileStore.FileSystem.ERead` | kernel/fs/Fat.c:329-365 | the slice of the file that the range covers, cut at its end; devices and bad ranges answer as the code does |
| `FileStore.FileSystem.ReadChunk` | kernel/fs/Fat.c:352-363 | one turn of eread's loop returns the next bytes of the file |
| `FileStore.FileSystem.OpenFirst` | kernel/fs/Fat.c:377-382 | a file without clusters gets one |
| `FileStore.FileSystem.EWrite` | kernel/fs/Fat.c:368-401 | exactly bytes [off, off+n) of this file change and its size becomes the larger of the two ends; no other file changes; refusals and the null device change nothing; a panic means a full volume or index |
| `FileStore.FileSystem.WriteAll` | kernel/fs/Fat.c:383-394 | the loop writes all the data |
| `FileStore.FileSystem.Run` | kernel/fs/Fat.c:329-401 | over every run of eread, ewrite, etrunc and ealloc calls on any files, whatever lay past their ends, every byte of every file and the answer of every read are those of the reference; it stops only on a full volume or index |
| `FileStore.FileSystem.Serve` | kernel/fs/Fat.c:329-401 | one call does to every byte of every file, and answers, what it does in the reference |
| `FileStore.FileSystem.FreeMids` | kernel/fs/Fat.c:21-27 | the first loop frees the second-level blocks the code finds, each once |
| `FileStore.FileSystem.FreeLows` | kernel/fs/Fat.c:30-37 | the inner loop frees the blocks below one third-level word, each once |
| `FileStore.FileSystem.EFreeInode` | kernel/fs/Fat.c:20-45 | each index block the code finds is freed once, its assertion never fails, and no other block is touched |
| `FileStore.FileSystem.ETrunc` | kernel/fs/Fat.c:539-550 | terminates; frees exactly its own chain and its index blocks; the file is empty, all others unchanged |
| `FileStore.FileSystem.EAlloc` | kernel/fs/Fat.c:448-475 | an entry, whatever it was, becomes an empty file with zeros past its end or a directory of one cluster, other files keep their bytes, and the clusters lost are exactly those the entry still had |
| `HeapLayout.OneBlock` | user/userHeap.c:26-86 | every unit obtained from sbrk lies in exactly one block, free or live |
| `HeapLayout.SearchStops` | user/userHeap.c:30-32 | the search of free stops exactly at the block before the one given back |
| `HeapLayout.GiveLayout` | user/userHeap.c:33-43 | giving a block back keeps the free list ordered, non-overlapping and fully joined, and conserves every unit |
| `HeapLayout.TakeLayout` | user/userHeap.c:71-81 | taking units from a free block keeps the layout; the new block is disjoint from every live one |
| `HeapLayout.MoreLayout` | user/userHeap.c:46-59 | new memory past the break keeps the layout |
| `HeapLayout.GiveCircular` | user/userHeap.c:33-43 | the stores of free make the headers spell the new circular list, with one wrap |
| `HeapLayout.TakeCircular` | user/userHeap.c:71-79 | the stores of malloc make the headers spell the new circular list |
| `Heap.UnitsFor` | user/userHeap.c:65-65 | the smallest number of units whose bytes behind the header are enough |
| `Heap.SbrkSeesSizeIff` | user/userHeap.c:46-52 | the size morecore asks for survives sbrk's int parameter if and only if the request is at most 2^31 - 32 bytes |
| `Heap.Allocator.constructor` | user/userHeap.c:23-24 | nothing allocated, no list yet |
| `Heap.Allocator.Free` | user/userHeap.c:26-44 | terminates; the block is in the list at its place, joined with the free blocks it touches, and no longer live |
| `Heap.Allocator.Morecore` | user/userHeap.c:46-59 | at least 4096 units more in the list, so that some block is large enough; nothing on failure |
| `Heap.Allocator.Malloc` | user/userHeap.c:61-86 | terminates; a new live block of enough units, disjoint from all others; null if and only if no free block is large enough and sbrk fails; memory grows only when no free block is large enough |
| `BufferList.PushFront` | kernel/fs/Bio.c:50-54 | the four stores put a buffer behind the head of the ring |
| `BufferList.TakeOut` | kernel/fs/Bio.c:148-149 | the two stores take a buffer out of the ring |
| `BufferCache.MatchIsHolder` | kernel/fs/Bio.c:68-77 | the first match in list order is the one buffer that holds the block, or an untouched one if none does |
| `BufferCache.StepInv` | kernel/fs/Bio.c:62-157 | every step of every caller keeps: list a permutation of the 16 buffers, counts equal to holder and waiters, no block twice |
| `BufferCache.HitReturns` | kernel/fs/Bio.c:116-126 | a hit gives the one copy of the block with its current data |
| `BufferCache.RecycleReturns` | kernel/fs/Bio.c:116-126 | a miss gives the one copy of the block, read from the disk |
| `BufferCache.PushedOut` | kernel/fs/Bio.c:82-92 | a buffer is recycled only when 16 distinct other uses have come since its release |
| `BufferCache.Retained` | kernel/fs/Bio.c:62-157 | over every run a released block keeps its buffer and data until 16 distinct other uses of the group have been made since |
| `Buffers.Group.constructor` | kernel/fs/Bio.c:40-57 | the ring holds all 16 buffers, last one first |
| `Buffers.Group.Lookup` | kernel/fs/Bio.c:68-77 | the first buffer in list order with that device and block |
| `Buffers.Group.Oldest` | kernel/fs/Bio.c:82-92 | the idle buffer released longest ago, or none exactly when all are referenced |
| `Buffers.Group.BRead` | kernel/fs/Bio.c:116-126 | the caller holds or awaits the one copy of the block; a held buffer is never recycled; it panics only when all 16 are referenced |
| `Buffers.Group.Retry` | kernel/lock/Sleeplock.c:17-26 | a woken waiter takes the lock if it is free and finds the buffer loaded |
| `Buffers.Group.BWrite` | kernel/fs/Bio.c:129-133 | only the holder; nothing goes to the disk |
| `Buffers.Group.BRelse` | kernel/fs/Bio.c:137-157 | only the holder; the last user moves the buffer to the front |
| `SignalState.StepInv` | kernel/system/Signal.c:19-231 | every send, mask change, delivery, discard and return keeps: each context on exactly one list once, processing equal to the signals whose handlers run, none twice |
| `SignalState.NestedDeliver` | kernel/system/Signal.c:203-231 | a delivery puts its context on top of the handler stack |
| `SignalState.NestedReturn` | kernel/trap/Syscall.c:636-645 | a return takes the top of the handler stack off |
| `SignalState.Moved` | kernel/system/Signal.c:19-39 | moving a context from one list to the head of another conserves all contexts |
| `SignalState.Deeper` | kernel/system/Signal.c:203-231 | while the stack of a thread stays above some depth, the part below does not change |
| `SignalState.ReturnRestores` | kernel/trap/Syscall.c:636-645 | nesting: after a delivery and any run that keeps its handler on the stack, the matching return restores exactly the trapframe the delivery saved |
| `SignalState.ReuseIff` | kernel/yield/Thread.c:136-145 | a thread slot used again starts in order if and only if no handler was running in the last thread, and holds back exactly the signals that thread had blocked or was handling |
| `SignalState.ReuseExample` | kernel/yield/Thread.c:136-145 | a thread that dies in the handler of signal 2 with signal 3 blocked leaves its slot out of order with both held back |
| `Signals.SignalSystem.constructor` | kernel/system/Signal.c:12-17 | all contexts free, all masks empty |
| `Signals.SignalSystem.SignalSend` | kernel/system/Signal.c:41-74 | a pending context at the head of the thread's list; it panics exactly when no context is left |
| `Signals.SignalSystem.SignProcessMask` | kernel/system/Signal.c:93-108 | blocks, unblocks or replaces the mask; other values of how change nothing |
| `Signals.SignalSystem.GetFirst` | kernel/system/Signal.c:125-136 | the first context that is started or due; none exactly when all are held back |
| `Signals.SignalSystem.GetHandling` | kernel/system/Signal.c:138-149 | the innermost started context; it fails exactly when there is none |
| `Signals.SignalSystem.SignalFinish` | kernel/system/Signal.c:196-201 | the context goes back to the free list |
| `Signals.SignalSystem.Drop` | kernel/system/Signal.c:216-220 | a due signal without a handler frees its context; the rest of the thread, the stack of interrupted frames and the other threads stay |
| `Signals.SignalSystem.Enter` | kernel/system/Signal.c:221-228 | the interrupted frame goes on top of the stack of saved frames, the signal is marked as being handled and the handler frame is put in |
| `Signals.SignalSystem.HandleSignal` | kernel/system/Signal.c:203-231 | killed if and only if the thread is; otherwise the scan stops at the first context it cannot pass, and the answer, the contexts left and the masks are exactly those of that stop: the handler is entered if and only if that signal is due, signals before it without handler are gone and all others wait on in order |
| `SignalState.HandlerFrameEnters` | kernel/system/Signal.c:166-231 | the frame a handler starts with: its own address as program counter, the trampoline as return address, a page-aligned stack at least a page below the interrupted one, wrapping as u64 does, and all other registers as they were |
| `Signals.SignalSystem.SignalReturn` | kernel/trap/Syscall.c:636-645 | restores the frame on top of the stack and pops it; it fails exactly when the stack is empty |
| `Signals.SignalSystem.FreeContexts` | kernel/yield/Thread.c:79-83 | a dying thread gives back every context |
| `Pipes.PushByte` | kernel/fs/Pipe.c:116-118 | a byte stored into a ring that is not full leaves every unread byte in place |
| `Pipes.Pipe.constructor` | kernel/fs/Pipe.c:33-52 | an empty pipe with both ends open |
| `Pipes.Pipe.Wakeup` | kernel/yield/Thread.c:466-475 | every thread asleep on the channel, and no other, is runnable |
| `Pipes.Pipe.Fill` | kernel/fs/Pipe.c:101-133 | as many bytes as fit are appended to the stream in order |
| `Pipes.Pipe.WriteSegment` | kernel/fs/Pipe.c:83-138 | a write up to its next sleep: the bytes go to the stream in order, readers wake, and it sleeps only on a full pipe; it panics exactly for an empty write or a closed reader |
| `Pipes.Pipe.Drain` | kernel/fs/Pipe.c:156-175 | the bytes read are the next bytes of the stream |
| `Pipes.Pipe.ReadSegment` | kernel/fs/Pipe.c:140-179 | a read up to its next sleep: it sleeps exactly on an empty pipe with a writer; else it returns the next bytes, fewer than asked only when nothing is left |
| `Pipes.Pipe.Close` | kernel/fs/Pipe.c:62-78 | closes the end and wakes the other side; the pipe goes back exactly when both ends are closed |
| `Pipes.Pipe.NoMutualWait` | kernel/fs/Pipe.c:83-179 | a reader and a writer never sleep on the same pipe at once |
| `Schedule.QueuePutBack` | kernel/yield/Yield.c:28-29 | a thread put back goes to the end of the queue the two lists form |
| `Schedule.QueueChangeOver` | kernel/yield/Yield.c:30-31 | changing lists leaves the queue alone |
| `Schedule.QueueTakeFirst` | kernel/yield/Yield.c:32-36 | the first thread of the queue is taken |
| `Schedule.QueueForked` | kernel/yield/Clone.c:63-65 | a forked thread enters the queue at one place and moves the others by at most one |
| `Schedule.ExaminedInTime` | kernel/yield/Yield.c:15-51 | over every run a listed thread is examined after at most as many removals as there were threads listed plus threads forked meanwhile |
| `Schedule.RotateSame` | kernel/yield/Yield.c:27-39 | turning the queue loses and duplicates no thread |
| `Scheduler.Kernel.Turn` | kernel/yield/Yield.c:28-36 | one turn of the loop: the thread in hand to the end of the queue, the first one off it, and the turn is on record |
| `Scheduler.Kernel.Choose` | kernel/yield/Yield.c:27-39 | the loop ends whenever some thread is or becomes eligible, with the first in queue order that is eligible when looked at |
| `Scheduler.Kernel.Yield` | kernel/yield/Yield.c:15-51 | the chosen thread runs; every thread in use stays on exactly one list once or is current; its futex slots, channel and timer are cleared |
| `Scheduler.Kernel.NobodyStarves` | kernel/yield/Yield.c:15-51 | in every run of the kernel, since any moment at which a thread was at some place of the queue and unless it was taken off, there were at most as many turns as threads before it and threads forked meanwhile |
| `Scheduler.Kernel.Fork` | kernel/yield/Clone.c:63-66 | a new thread is runnable and at the end of list 0, and the fork is on record |
| `Scheduler.Kernel.Exit` | kernel/yield/Thread.c:64-105 | the current thread leaves; nobody else's place changes |
| `Scheduler.Kernel.Sleep` | kernel/yield/Thread.c:424-446 | the thread sleeps on the channel |
| `Scheduler.Kernel.Wakeup` | kernel/yield/Thread.c:466-475 | exactly the sleepers on the channel are runnable |
| `Scheduler.Kernel.FutexWait` | kernel/system/Futex.c:14-30 | the current thread takes one free slot, and none exactly when the table is full; without a time limit it sleeps |
| `Scheduler.Kernel.FutexWake` | kernel/system/Futex.c:32-42 | exactly min(n, waiters) waiters, the first in slot order, are released and runnable; a negative n releases all |
| `Scheduler.Kernel.FutexRequeue` | kernel/system/Futex.c:44-58 | exactly min(n, waiters) are released and all the rest wait on the new address, none lost |
| `Scheduler.Kernel.FutexClear` | kernel/system/Futex.c:60-66 | the thread's slots and no others are free |
| `FutexTable.WokenCount` | kernel/system/Futex.c:32-42 | the waiters left on every address after a wake |
| `FutexTable.RequeuedCount` | kernel/system/Futex.c:44-58 | the waiters on both addresses after a requeue |
| `Scheduler.WokenBase` | kernel/system/Futex.c:32-58 | no thread holds two slots and every sleeping thread has a channel or a slot, after every wake and requeue |
| `DescriptorTable.PipeLifetime` | kernel/fs/Pipe.c:62-78 | a pipe end is open if and only if some descriptor or the kernel can reach it, and the pipe's bit is set if and only if one end can be reached |
| `DescriptorTable.ClosedInv` | kernel/fs/File.c:57-82 | closing a reference keeps all counts exact; the last one frees the file and closes its pipe end |
| `DescriptorTable.StoredInv` | kernel/fs/Sysfile.c:48-59 | a reference moves into a descriptor slot, counts stay exact |
| `DescriptorTable.FetchedInv` | kernel/fs/Sysfile.c:246-263 | a reference leaves a descriptor slot, counts stay exact |
| `DescriptorTable.PipeMadeInv` | kernel/fs/Pipe.c:33-52 | a new pipe has both ends open, one file each |
| `Descriptors.FileTable.constructor` | kernel/fs/File.c:22-28 | no file in use |
| `Descriptors.FileTable.FileAlloc` | kernel/fs/File.c:31-44 | the first file without references; none exactly when all have some |
| `Descriptors.FileTable.FileDup` | kernel/fs/File.c:47-54 | one more reference; a file without any is a panic |
| `Descriptors.FileTable.FileClose` | kernel/fs/File.c:57-82 | one reference less; at 0 the file is free and its pipe end closed, and with the last end the pipe; all counts stay exact |
| `Descriptors.FileTable.FindFd` | kernel/fs/Sysfile.c:48-59 | the lowest free descriptor below the limit |
| `Descriptors.FileTable.DropFd` | kernel/fs/Sysfile.c:246-263 | the descriptor is free and exactly its file has one reference less |
| `Descriptors.FileTable.SyscallDup` | kernel/fs/Sysfile.c:61-79 | the lowest free descriptor names the same file; -1 exactly for a bad descriptor, -24 exactly for a full table |
| `Descriptors.FileTable.SyscallDupAndSet` | kernel/fs/Sysfile.c:81-102 | the new descriptor names the file and its old file loses one reference; it panics if and only if a descriptor that is its file's only reference is set onto itself |
| `Descriptors.DupOntoItself` | kernel/fs/Sysfile.c:81-102 | a file opened once and set onto its own descriptor: the panic |
| `Descriptors.FileTable.SyscallClose` | kernel/fs/Sysfile.c:246-263 | the descriptor is free and its file has one reference less |
| `Descriptors.FileTable.Open` | kernel/fs/Sysfile.c:401-411 | the first free file in the lowest free descriptor; it fails, with nothing changed, if and only if there is no free file or no free descriptor |
| `Descriptors.FileTable.TwoFiles` | kernel/fs/Pipe.c:38-39 | the first two free files, or nothing changed if and only if fewer than two are free |
| `Descriptors.FileTable.PipeNew` | kernel/fs/Pipe.c:33-60 | the first two free files for the two ends of the lowest free pipe; it fails, with nothing changed, if and only if fewer than two files are free, and panics if and only if files are there and no pipe |
| `Descriptors.FileTable.TwoFds` | kernel/fs/Sysfile.c:601-607 | the two lowest free descriptors, or nothing changed if and only if fewer than two are free |
| `Descriptors.FileTable.ClosePipe` | kernel/fs/Sysfile.c:612-616 | closing both files of a new pipe undoes pipeNew: files, pipes and counts are as before |
| `Descriptors.FileTable.SyscallPipe` | kernel/fs/Sysfile.c:589-624 | the two lowest descriptors for the two ends of the lowest free pipe; it fails if and only if fewer than two files or descriptors are free or the numbers cannot be delivered, and then descriptors, files and pipes are as before |
| `Descriptors.FileTable.ForkDescriptors` | kernel/yield/Clone.c:25-27 | the child has the parent's descriptors and every file one reference more for each |
| `Descriptors.FileTable.FreeDescriptors` | kernel/yield/Process.c:73-79 | every descriptor of the process is closed |
| `Descriptors.FileTable.FcntlDup` | kernel/fs/Sysfile.c:125-129 | as dup, with the lowest free descriptor; if and only if the table is full the reference taken is never given back |
| `IntrusiveList.Links.constructor` | include/Queue.h:104-106 | empty lists |
| `IntrusiveList.Links.InsertHead` | include/Queue.h:146-152 | the macro's pointer stores put a node at the head of its list; every other list is unchanged |
| `IntrusiveList.Links.InsertTail` | include/Queue.h:159-171 | the walk to the last node and the stores put a node at the end of its list; every other list is unchanged |
| `IntrusiveList.Links.Remove` | include/Queue.h:180-185 | storing through the back pointer takes the node off whichever list it is on; every other list is unchanged |
| `IntrusiveList.UnlinkSpells` | include/Queue.h:180-185 | after the stores the pointers spell the list without the node |
| `ShellParser.TokenIsWord` | user/sh.c:260-301 | a word token is a word, and the line does not go on with a word character behind it |
| `ShellGrammar.SpellsIff` | user/sh.c:260-311 | a line is a sequence of tokens, each at its place and as long as it can be, in exactly one way: the one gettoken finds |
| `ShellGrammar.WrapsIff` | user/sh.c:359-380 | redirections go around a command in line order, the first one innermost |
| `ShellGrammar.ParsesIff` | user/sh.c:318-425 | the parser accepts a line with a tree if and only if the grammar gives the tokens of the line that tree: arguments in line order, redirections outwards in line order, pipes and lists to the right, at most nine arguments |
| `ShellGrammar.WordsRecorded` | user/sh.c:318-425 | the words of an accepted line are the words of its tree, with the same uses |
| `ShellGrammar.EachWordOnce` | user/sh.c:359-425 | each word of an accepted line stands in the tree exactly once: as a file name with the mode of the sign if the token before it is a redirection sign, as an argument otherwise |
| `ShellRoundTrip.RedirsTrip` | user/sh.c:359-380 | written redirections are read back in order |
| `ShellRoundTrip.ArgsTrip` | user/sh.c:396-425 | written words and redirections are read back as the arguments and redirections |
| `ShellRoundTrip.ExecTrip` | user/sh.c:382-425 | a written simple command or block is read back |
| `ShellRoundTrip.PipeTrip` | user/sh.c:348-357 | a written pipe is read back |
| `ShellRoundTrip.BackTrip` | user/sh.c:337-340 | a written background command is read back |
| `ShellRoundTrip.LineTrip` | user/sh.c:333-346 | a written line is read back, up to what follows it |
| `ShellRoundTrip.WrittenIsParsed` | user/sh.c:318-331 | every command tree with words of at most 9 arguments is read back from the line written for it |
| `ShellStrings.LineOkay` | user/sh.c:333-346 | every place the parser records is a word of the line, for every line it accepts |
| `ShellStrings.GetTokenAt` | user/sh.c:260-301 | the loops of gettoken find the token of the specification |
| `ShellStrings.PeekAt` | user/sh.c:303-311 | peek skips white space and tests the next character |
| `ShellStrings.NulTerminate` | user/sh.c:428-470 | exactly the end marks of the command are set to NUL |
| `ShellStrings.NoMarkInside` | user/sh.c:428-470 | no end mark lies inside a token |
| `ShellStrings.TokenIsString` | user/sh.c:428-470 | after the marks are set every token's C string is the token |
| `ShellStrings.ParseAndTerminate` | user/sh.c:318-331 | it accepts a line exactly when the grammar has a tree for it, and then with that tree, which holds every word of the line; and it leaves a buffer in which every argument and file name is its own C string |
| `Lifecycle.IdsEqual` | kernel/yield/Process.c:61-67 | an id names its slot; two ids are equal if and only if their slots are and their numbers differ by a multiple of 2^21; an id is 0 if and only if slot 0 gets it with such a number |
| `Lifecycle.IdComesAgain` | kernel/yield/Process.c:61-67 | 2^21 processes later the same slot gets the same id |
| `Lifecycle.ResolveIff` | kernel/yield/Process.c:96-121 | for every id ever issued and at any later time: it resolves to its slot if and only if the slot holds the life it was issued to or one whose number differs by a multiple of 2^21 |
| `Lifecycle.ResolvesToItsLife` | kernel/yield/Process.c:96-121 | until 2^21 more processes are made, an id resolves if and only if the process it was issued to is alive or a zombie, and to that process only |
| `Lifecycle.ZombieLives` | kernel/yield/Process.c:69-94 | processFree runs for a life for the first time |
| `Lifecycle.SpawnLives` | kernel/yield/Process.c:164-188 | a new process starts a new life in its slot, with the id for it |
| `Lifecycle.ZombieStranded` | kernel/yield/Process.c:82-93 | when a process becomes a zombie the threads waiting for it are awake |
| `Lifecycle.FreeCounted` | kernel/yield/Thread.c:91-97 | one thread less; the last one makes the process a zombie |
| `Processes.ToldIs` | kernel/yield/Process.c:82-93 | after a zombie has told its parent, no thread of a process with an id other than 0 sleeps while a child it waits for is a zombie |
| `Processes.ZeroIdStrands` | kernel/yield/Process.c:82-93 | the children of a process with id 0 wake nobody: its waiter sleeps on beside a zombie it could reap |
| `Processes.ProcessTable.constructor` | kernel/yield/Process.c:40-59 | all slots free |
| `Processes.ProcessTable.Spawn` | kernel/yield/Thread.c:189-221 | a process with one thread and the next life, also after ids have come round; it panics exactly when a free list is empty |
| `Processes.ProcessTable.AddThread` | kernel/yield/Thread.c:223-250 | one more thread of the process; it panics exactly when no slot is free |
| `Processes.ProcessTable.Wakeup` | kernel/yield/Thread.c:466-475 | exactly the threads waiting in that process are awake |
| `Processes.ProcessTable.ThreadFree` | kernel/yield/Thread.c:76-105 | the thread slot is free, the count is exact, and with the last thread processFree runs once in this life; exactly the parent's waiters wake, and no other thread or process changes |
| `Processes.ProcessTable.Tell` | kernel/yield/Process.c:82-93 | exactly the waiters of the parent wake, if the parent's id still resolves |
| `Processes.ProcessTable.WaitOnce` | kernel/yield/Process.c:280-317 | reaped if and only if a child asked for is a zombie and its status could be copied: the first one in the list, whose slot is freed, so it is reaped once; refused if and only if the copy fails or, without a zombie, waiting is not wanted; no child and sleeping exactly in the cases left |

## Left out

- Drivers, trap entry and exit, CSR and TLB handling, spinlocks (their bodies are empty in the source), consoles, printf and string helpers.
- Directory loading, long names, path lookup, mounts, links and rename; sockets; select, poll, time and identity calls; exec's stack and interpreter set-up; codeMapper.
- The loops of mprotect and mmap around one turn, the file part of mmap, munmap, and the stores of pipeRead into user pages; they are not steps of `Isolation.Run`.
- The kernel's own page directory: its references are counted as held frames; the trampoline and signal trampoline pages are shared by all address spaces and excluded from private views.
- growproc and the kernel side of sbrk; the bitmap of segment records (segmentMapAlloc, segmentMapFree); thread ids, which are issued as process ids are.
- Bytes of whole frames move at once in bcopy and bzero; their word and byte loops are not modelled.
- The file store works on an ideal array of sectors, since bwrite never reaches the disk; how long the cache keeps a block is `BufferCache.Retained`.
- Counters that the source keeps in 32 or 64 bits and that cannot be exhausted in practice are unbounded: heap block sizes, pipe positions, reference counts.
- Orphaned zombies: a process whose parent is gone is never reaped, which the model shows but no member states.
- Memory.MemoryManager.PageRemove: only for a mapped page, because pageLookup leaves its result pointer unset otherwise.
- Memory.MemoryManager.Pageout: takes the segment list of the process that owns the directory, where the code takes the current process's.
- Memory.MemoryManager.CopyOut: user addresses below the signal trampoline, and segments writable as exec makes them.
- Memory.MemoryManager.MemsetOut: as for CopyOut.
- Memory.MemoryManager.CopyIn: as for CopyOut.
- Isolation.Run: a forked process gets its trampoline pages apart, so its shared pages are not tracked.
- FatVolume.Volume.constructor: FAT entries 0 and 1 are not zero, as the format reserves them, and all entries are below 2^28.
- FatVolume.Volume.AllocClus: where the lowest free entry lies past the data area the code goes on with a cluster that has no sectors; the model stops there.
- FileStore.FileSystem.EAlloc: names, parents and the free list of entries are not modelled; the entry is an argument.
- FileStore.FileSystem.ERead: kernel buffers; a copy to a user address that fails half-way is not modelled.
- FileStore.FileSystem.EWrite: kernel buffers, as for ERead.
- Heap.Allocator.Free: only for pointers that malloc returned and that are still live.
- Heap.Allocator.Malloc: sbrk's answer is an argument and all the memory asked for is taken to be there; `Heap.SbrkSeesSizeIff` says for which requests sbrk is asked for it.
- Buffers.Group.BRead: one of the 1024 groups; blocks of different groups never meet. bpin and bunpin are not modelled.
- Signals.SignalSystem.SignalSend: for one thread that exists and signals from 1; processSignalSend is the loop over threads around it. SIGKILL also makes a sleeping thread runnable, which is scheduling state.
- Signals.SignalSystem.HandleSignal: the handler's stack page and the pthread record read from user memory are not modelled.
- Pipes.Pipe.WriteSegment: the bytes come from a resident buffer; stepping through user pages is not modelled.
- Pipes.Pipe.ReadSegment: the bytes go to a resident buffer, as for WriteSegment.
- Scheduler.Kernel.Yield: registers and trapframes are left out, because yield writes a0 of the hart's frame before the switch.
- Scheduler.Kernel.FutexWake: a timed waiter is made runnable but keeps its time limit, as in the code.
- Descriptors.FileTable.Open: the file's kind is one value for all files that are not pipe ends.
- Descriptors.FileTable.ForkDescriptors: descriptor limits are at most NOFILE and fixed.
- Processes.ProcessTable.ThreadFree: page tables, descriptors and segments that processFree releases are in the modules for these; the store to clearChildTid and its futexWake are not modelled.
- Processes.ProcessTable.WaitOnce: one pass; a woken thread makes another. CPU times are not modelled.
- ShellRoundTrip.WrittenIsParsed: one canonical line for each tree; running commands is not modelled.
