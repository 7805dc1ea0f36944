# BasicOS verification

A Dafny 4.11 model of the memory core of BasicOS, a small 32-bit kernel, and of the stateful units
around it, with proofs. `dafny verify dfyconfig.toml` checks the whole project.

## What is modelled

**The heap** (`heap_table.dfy`, class `Machine` in `machine.dfy`). The block table is one flag byte a
block; an allocation exists only as a pattern of FIRST, EXTENDS and TAKEN bits. The loops that scan,
mark and free are methods over the table in place. They are proved against functions on the table,
and those refine a map from start block to length over runs of any length.

**Paging** (`paging.dfy`, `machine.dfy`, `paging_runs.dfy`). Physical memory is an array of 2^30
little-endian words. Directories and tables lie in heap blocks and are followed through masked
pointers. They stand for a flat map of 2^20 entries; creation, update, range mapping across the
32-bit wrap, lookup, translation and destruction are proved against that map.

**Process address spaces** (`windows.dfy`, `address_space.dfy`, `steps.dfy`, `task_links.dfy`,
`lifecycle.dfy`, `runs.dfy`, `isolation.dfy`, `translation.dfy`; in place: `loader.dfy`, `load.dfy`,
`load_memory.dfy`, `terminate.dfy`, `kernel.dfy`). The system state is the heap table, all of memory,
the process slots and the three variables of the task list. Its invariant says who owns which extent,
that no two claims share one, and that each page map shows exactly the windows of its process. User
malloc of a positive size and free, user stores, string copies, refused loads and the kernel's own use
of memory always keep it. A load and a termination also store a pointer through a link of the task list
(`task_tail->next = task`, `task->prev->next = task->next`), and the links are words of memory: a link
may lead to a record that has been freed and used again. Those two events keep the invariant exactly
when that store spares the page tables of all processes and, for a load, the program fits
(`Runs.EventKeepsInvIff`); a link that is null or leads to a live task always spares them. A *run* is
a sequence of events that keep these conditions, and in every state of every run isolation holds
(`Runs.IsolationOverRuns`); a sequence of events that is no run leaves the invariant
(`Runs.TraceKeepsInvIff`), and `StaleLinks.StaleRunClosesPage` is one. `closed_pages.dfy` says what such
a store does to isolation itself: it closes pages and opens none. A page counts as writable for user
code when the directory entry and the table entry both let the processor write it. Class `Kernel`
performs the operations step by step and is proved to take exactly those steps; `failing_runs.dfy`
drives it into the two states where isolation fails. What is loaded is what the file's bytes say
(`elf_format.dfy`, `elf_headers.dfy`): the signature decides between ELF and flat, and the program
headers are read from the copy of the file in memory. `elf_encoding.dfy` writes the structs field by
field and proves that what was written is what is read; `mapped_headers.dfy` follows it to the pages a
load maps. `allocations.dfy` says in numbers what malloc and free do.

**One load in memory** (`placement.dfy`, `image_layout.dfy`, `stored_links.dfy`, `load_step.dfy`,
`linked_loads.dfy`). A load is its allocations, each where first fit puts it and so told from the heap
table before; then the two stores of the task list, which may go into any of the blocks just
allocated; then the mapping, which reads the program headers again. `LinkedLoads.LoadIsLinked` takes
the three apart: whatever the tail leads to, except the new page directory, the result is the load
without the list's store, and the store, unless a window of the new process has overwritten it.

Two conditions on programs are kept apart. `LoadSteps.ProgramMaps` is what mapping and translation
need: congruent, page-disjoint segments from the program base up that do not overflow 32 bits.
`LoadSteps.ProgramFits` is what the invariant needs besides: segments marked PF_W inside the blocks of
the loaded file, and no segment at the addresses of the heap, where allocations are mapped.
`loaded_writes.dfy` says how much of that isolation itself needs: after any load of a program that
maps, user code can write only its own image and stack exactly when its PF_W segments lie there,
which can be told in numbers from the heap table before the load.

**Units on top.** Copying a string out of a task through its page tables (`user_copy.dfy`),
argument injection (`arguments.dfy`), the tokenizer and the shell's
command list (`strtok.dfy`, `fields.dfy`, `shell.dfy`), the path parser with its destructor
(`paths.dfy`, `pparser.dfy`), sector-splitting reads and the FAT16 read above them (`streamer.dfy`,
`fat16.dfy`), the task queue (`task_queue.dfy`), the keyboard rings (`keyboard.dfy`), the two decimal
printers (`printers.dfy`) and line editing (`readline.dfy`).

Machine words are the subset type `u32`; every sum of the source that can wrap is written with
`Add32`, `Sub32` or an explicit remainder. `And` and `Or` are defined on binary digits.

## Where the code departs from its evident intent

The model follows the code and says exactly when it does what was meant.

- The block scan does not check the length of a trailing free run (`HeapTable.ScanServesIff`,
  `HeapTable.ScanOverpromises`); operations on the heap therefore require that a run exists.
- A zero-size allocation reserves nothing (`HeapTable.RequestReservesBlocksIff`), and a zero-size
  process_malloc that finds a slot leaves a pointer nobody owns in it (`Steps.EmptyMallocKeepsInvIff`).
- A free into the middle of an extent leaves a broken table (`HeapTable.ReleaseKeepsWellFormedIff`).
- A base address of zero counts as not set (`ElfHeaders.BoundingNext`).
- An ELF file with any program header that is not PT_LOAD is refused, and its record and copy are
  never freed (`Kernel.Kernel.ProcessLoadForSlot`).
- A removed task stays in its successor's `prev` link (`TaskQueue.BackLinksSurviveIff`), so that the
  successor cannot be removed correctly in turn (`TaskQueue.SuccessorCanUnlinkIff`). Its record is
  freed, and the successor's own termination writes into whatever the block has become; if that is a
  page table, a third process loses a page it owns (`StaleLinks.TerminateClosesDataPage`,
  `FailingRuns.RunStaleLink`).
- A stale tail may lead to a block that the load itself takes. In the new page directory the link closes
  an entry (`LinkedLoads.OverDirectoryCloses`); in the copy of the file it changes four bytes, program
  headers among them, before process_map_elf reads those again (`LoadSteps.LinkInFile`,
  `LoadInMemory.ProgramIsFound`).
- process_map_elf maps every program header, whatever its type (`Loader.MapElf`).
- A segment may be longer in memory than the file: user code with a large enough `.bss` can write the
  blocks behind its file, its own page directory among them (`LoadedWrites.WritesStayInsideIff`,
  `FailingRuns.RunBss`).
- A copy onto its own source repeats what it has copied (`UserCopy.Strncpy`).
- A full keyboard ring loses its oldest key (`Keyboard.PushOnFullRing`).
- The data region starts one sector early unless the root directory fills whole sectors
  (`Fat16.ClusterToSectorIff`); cluster chains are never followed (`Fat16.Volume.GetClusterForOffset`);
  a read does not move the descriptor (`Fat16.Volume.Read`).
- A flat binary is loaded after an attempt to load it as ELF, whose record and copy are never freed
  (`LoadProcess.LoadData`).
- `struct process` itself is never freed (`Kernel.Kernel.ProcessTerminate`).

## Model

| member | source | states |
|---|---|---|
| `HeapTable.FirstFit` | src/kernel/memory/heap/heap.c:58-82 | the first fit: the least index that starts the asked number of consecutive free entries |
| `HeapTable.ScanServesIff` | src/kernel/memory/heap/heap.c:58-82 | for n >= 1 the scan yields a start of n free blocks if and only if such a run exists; without one it yields the start of the free run at the end of the table, however short, or -3 when the last block is in use |
| `HeapTable.ScanOverpromises` | src/kernel/memory/heap/heap.c:75-82 | the concrete failing case: one free block, a request for two, answer 0 |
| `HeapTable.ScannedOnce` | src/kernel/memory/heap/heap.c:58-82 | the result of the scan is determined by those three cases |
| `HeapTable.ScanAddress` | src/kernel/memory/heap/heap.c:84-86 | the address that goes with a result, the error code -3 included |
| `HeapTable.FirstFitInGap` | src/kernel/memory/heap/heap.c:58-102 | requests the first gap has room for are served from its start, one behind the other |
| `Placement.ServedInGap` | src/kernel/memory/heap/heap.c:58-102 | the places of any sequence of requests, as a function of the table before them: where the first gap has room for all, one behind the other from its start |
| `Placement.PlaceWasFree` | src/kernel/memory/heap/heap.c:58-102 | every block a later request gets was free before the first |
| `HeapTable.RequestReservesBlocksIff` | src/kernel/memory/heap/heap.c:50-52 | a request reserves blocks if and only if it is positive and rounding up to whole blocks does not wrap 32 bits; then the blocks cover it without a block to spare |
| `HeapTable.AddressOfBlock` | src/kernel/memory/heap/heap.c:84-108 | block to address and back is the identity on the heap, and block addresses are block-aligned |
| `HeapTable.FlagBytes` | src/kernel/memory/heap/heap.c:88-102 | the bytes of an extent of n blocks: 0x41 for one block; else 0xC1 first, 0x81 between, 0x01 last |
| `HeapTable.EntryBits` | src/kernel/memory/heap/heap.c:54-56 | an entry is free, first or extended by its low four bits, bit 6 and bit 7 |
| `HeapTable.DecodeIsTheOnlyReading` | src/kernel/memory/heap/heap.c:88-120 | the flag bytes determine the extents: whatever map a table spells out is the one decoded from it |
| `HeapTable.SameExtentsSameTable` | src/kernel/memory/heap/heap.c:88-102 | the extents determine the flag bytes: well-formed tables with equal maps are equal byte for byte |
| `HeapTable.TakeAddsExtent` | src/kernel/memory/heap/heap.c:88-102 | marking a free run taken adds exactly one extent, disjoint from all others, and keeps the table well-formed |
| `HeapTable.ReleaseRemovesExtent` | src/kernel/memory/heap/heap.c:110-120 | freeing the start of a live extent, whose end is found only from flags, removes exactly that extent and zeroes exactly its entries |
| `HeapTable.TakeThenReleaseRestores` | src/kernel/memory/heap/heap.c:122-151 | allocation followed by free of the result restores the table byte for byte |
| `HeapTable.ReleaseOfFreeBlock` | src/kernel/memory/heap/heap.c:110-120 | freeing a block that is not live changes nothing |
| `HeapTable.ReleaseZeroes` | src/kernel/memory/heap/heap.c:110-120 | a free from any block on zeroes the entries up to the first that is not extended or the end of the table, and changes no other |
| `HeapTable.ReleaseKeepsWellFormedIff` | src/kernel/memory/heap/heap.c:110-120 | a free keeps the table well-formed if and only if it is given a live start or a block that is not live; a free into the middle of an extent breaks it |
| `HeapTable.FreePlusLiveIsTotal` | src/kernel/memory/heap/heap.c:88-120 | conservation: free blocks plus the lengths of all live extents equal the table size |
| `HeapTable.OneBlockFits` | src/kernel/memory/heap/heap.c:58-82 | a one-block request can be served if and only if some block is free |
| `HeapTable.StepRefines` | src/kernel/memory/heap/heap.c:122-151 | one allocation or free on the byte table is the same operation on a map from start block to length (least gap in, one extent out) |
| `HeapTable.RunsRefine` | src/kernel/memory/heap/heap.c:122-151 | every run of allocations and frees of live starts, of any length, is a run of the map allocator, keeps the table well-formed and loses no block |
| `HeapTable.EmptyTableIsWellFormed` | src/kernel/memory/heap/kheap.c:6-20 | the zeroed table the kernel starts from is well-formed and has no extents |
| `Machine.Machine.GetStartBlock` | src/kernel/memory/heap/heap.c:58-82 | on every table and for every n: the least start of n free entries if n >= 1 and there is one; otherwise, if the last entry is free, the index from which all entries are free and before which one is not; otherwise -3 |
| `Machine.Machine.MarkBlocksAsTaken` | src/kernel/memory/heap/heap.c:88-102 | the flag-writing loop leaves exactly FIRST/EXTENDS/TAKEN flags of one extent and nothing else |
| `Machine.Machine.MarkBlocksAsFree` | src/kernel/memory/heap/heap.c:110-120 | the freeing loop zeroes the entries from its start up to and including the first that does not say it is extended (or the last), and no other |
| `Machine.Machine.HeapAlloc` | src/kernel/memory/heap/heap.c:122-147 | the address is 0x01000000 + 4096 times what the scan yields, the start of the trailing free run or -3 included; exactly the blocks of the first fit are marked, and none for size 0 |
| `Machine.Machine.HeapFree` | src/kernel/memory/heap/heap.c:149-151 | a free changes the table from the block of the pointer on; the table stays well-formed if and only if the pointer is a live start, lies outside the heap or at a free block; for a live start exactly its extent goes |
| `Machine.Machine.Memset` | src/kernel/memory/memory.c:3-12 | exactly the bytes of the range are set |
| `Machine.Machine.KZalloc` | src/kernel/memory/heap/kheap.c:26-32 | the allocated bytes are zero and no byte outside the requested range changes; size 0 reserves and writes nothing |
| `Machine.Machine.KFree` | src/kernel/memory/heap/kheap.c:34-36 | the free of any pointer: which tables stay well-formed, and that exactly one extent goes when it is a live start |
| `Words.MaskKeepsFrame` | src/kernel/memory/paging/paging.c:96-104 | masking an entry with the frame mask drops the offset inside the page and nothing else |
| `Words.OrFlagsTwice` | src/kernel/memory/paging/paging.c:16-22 | or-ing flags twice into a page address adds their union below the page size |
| `Words.DigitsOfOrAnd` | src/kernel/fs/fat/fat16.c:190-192 | every binary digit of the bitwise and is set if and only if it is set in both words, and of the bitwise or if and only if it is set in either |
| `Paging.SetIsUpdate` | src/kernel/memory/paging/paging.c:86-107 | writing one entry through the two levels is one update of the flat map of 2^20 pages; the directory is untouched |
| `Paging.LookupIsView` | src/kernel/memory/paging/paging.c:151-167 | for aligned addresses under a present directory entry the two-level lookup is the flat-map lookup |
| `Paging.PhysicalIsView` | src/kernel/memory/paging/paging.c:169-173 | translation keeps the offset and replaces the page by what the flat map says |
| `Paging.LookupIs` | src/kernel/memory/paging/paging.c:151-167 | the two reads in numbers: the word for the address's 4 MB, the word for its page in the table that names, 0 when the first is not present; an unaligned address is looked up as page 0 |
| `Paging.PhysicalIs` | src/kernel/memory/paging/paging.c:169-173 | where any address goes, in numbers, present or not |
| `Paging.SetInSpace` | src/kernel/memory/paging/paging.c:86-107 | a paging_set stays inside one of the space's own tables and leaves directory and wiring as they were |
| `Paging.MappedStep` | src/kernel/memory/paging/paging.c:114-127 | one more page of a range mapping, also across the 2^32 wrap, is one more update of the flat map |
| `Paging.AlignAddressIs` | src/kernel/memory/paging/paging.c:57-59 | rounding up gives the end of the last page touched, and 0 above the last page |
| `Paging.AlignToLowerIs` | src/kernel/memory/paging/paging.c:61-63 | rounding down gives the start of the page |
| `Machine.Machine.PagingGetIndexes` | src/kernel/memory/paging/paging.c:65-84 | the two indexes of an aligned address recombine to its page number; an unaligned one is refused |
| `Machine.Machine.PagingSet` | src/kernel/memory/paging/paging.c:86-107 | exactly the entry of the page changes, or, for an unaligned address, nothing |
| `Machine.Machine.PagingMap` | src/kernel/memory/paging/paging.c:109-112 | one page is mapped with its flags, or nothing changes |
| `Machine.Machine.PagingMapRange` | src/kernel/memory/paging/paging.c:114-127 | either all count <= 2^20 pages are remapped, wrap included, or (unaligned) none is |
| `Machine.Machine.PagingMapTo` | src/kernel/memory/paging/paging.c:129-149 | maps exactly the pages of the physical range, or refuses misaligned and reversed ranges without change |
| `Machine.Machine.GenPaging4gb` | src/kernel/memory/paging/paging.c:6-32 | the new space is the identity map with the given flags on all 2^20 pages, on exactly 1026 new one-block extents, nothing else written |
| `Machine.Machine.PagingFree4gb` | src/kernel/memory/paging/paging.c:34-42 | exactly the space's 1026 blocks are given back |
| `Machine.BuiltSpace` | src/kernel/memory/paging/paging.c:6-32 | 1024 filled tables, a linked directory and a paging map on distinct blocks make up an identity space; when the flags open it to user code every directory entry is present, writable and open to user code, the writable bit or-ed in by the source |
| `PagingRuns.SetsAreUpdates` | src/kernel/memory/paging/paging.c:86-107 | any number of paging_set calls is the same run of flat-map updates and never writes the directory |
| `PagingRuns.UpdatesKeepBlocks` | src/kernel/memory/paging/paging.c:86-107 | no run of paging_set changes which 1026 blocks a space stands on |
| `PagingRuns.CreateUpdateFreeRestores` | src/kernel/memory/paging/paging.c:6-42 | a space created, updated any number of times and freed: the heap table is byte for byte what it was, and only blocks that are free were written |
| `PagingRuns.UseSpace` | src/kernel/memory/paging/paging.c:6-107 | the calls themselves: _gen_paging_4gb, any run of paging_set, paging_free_4gb leave the heap table as it was and every block in use unwritten |
| `Windows.WritableExactly` | src/kernel/task/process.c:104-189 | with an open directory, the physical pages user code can write through both levels are exactly those behind writable windows of the address space |
| `Windows.ThroughShows` | src/kernel/task/process.c:118-189 | windows mapped one after the other that lie apart come out as meant, and every other page keeps the entry it had, whatever that was |
| `Windows.EntryThrough` | src/kernel/task/process.c:118-189 | an entry written before a sequence of mappings is still there afterwards if and only if no window covers its page; nothing else depends on it |
| `Windows.OpenWindow` | src/kernel/task/process.c:319-329 | mapping a range that keeps clear of all other windows adds one window to what the page map shows |
| `Windows.CloseWindow` | src/kernel/task/process.c:351-361 | remapping a window to itself without flags takes exactly that window away |
| `AddressSpace.DifferentClaimsDifferentPages` | src/kernel/task/process.c:311-374 | under the invariant two different claims on memory, of one process or of two, never share a physical page |
| `Isolation.WritableIsExactlyOwned` | src/kernel/task/process.c:104-189 | under the invariant a process can write, through directory and table entries, exactly its live allocations, its stack and its PF_W segments (bit 1 of p_flags) or flat binary |
| `Isolation.NoPageWritableTwice` | src/kernel/task/process.c:104-189 | no physical page is user-writable in two processes |
| `Isolation.KernelRecordsNotWritable` | src/kernel/task/process.c:225-292 | no user-writable page holds page tables, a process, a task or an ELF record of any process |
| `Steps.MallocKeepsInv` | src/kernel/task/process.c:311-341 | process_malloc keeps the system invariant |
| `Steps.EmptyMallocKeepsInvIff` | src/kernel/task/process.c:311-341 | process_malloc(0) keeps the invariant if and only if no slot is left for it |
| `Steps.FreeKeepsInv` | src/kernel/task/process.c:343-374 | process_free keeps the system invariant |
| `Allocations.MallocIs` | src/kernel/task/process.c:311-341 | in numbers: with a slot left, the first empty one gets the pointer 0x01000000 + 4096 b to the least run b of the n free blocks that hold the size, one new extent; exactly those n pages now go to themselves with flags 7 and the rest of the page map is as before; the bytes are zero. Without a slot the pointer is null and nothing changes |
| `Allocations.FreeIs` | src/kernel/task/process.c:343-374 | in numbers: for a pointer that a slot holds, the first such slot is cleared, exactly its extent goes, and exactly its pages get flags 0; for any other, and the null pointer, nothing changes |
| `Steps.SpaceKept` | src/kernel/memory/paging/paging.c:86-107 | writes outside a space's 1026 blocks leave its wiring and its whole page map as they were |
| `Steps.OtherProcessKept` | src/kernel/task/process.c:311-374 | a step of one process disturbs no claim and no page map of another |
| `Isolation.SegmentWithinIff` | src/kernel/task/process.c:118-150 | a segment's physical pages are among the first n from the file's start if and only if the segment ends there |
| `Lifecycle.LoadKeepsInvIff` | src/kernel/task/process.c:225-292 | a load of any program that maps keeps the system invariant if and only if the program fits and the task list is empty or its store `task_tail->next = task` spares the other processes and the new one: it goes into no page directory, and if into a page table, to an entry that a window overwrites or that it maps to itself |
| `Lifecycle.RefuseKeepsInv` | src/kernel/task/process.c:225-292 | a refused load keeps the system invariant |
| `LoadSteps.FittingProgramMaps` | src/kernel/task/process.c:118-150 | every program that fits for isolation maps, if its file fits the heap |
| `Lifecycle.TerminateKeepsInvIff` | src/kernel/task/task.c:95-118 | process_terminate keeps the system invariant if and only if `prev` is null or its store `prev->next = next` spares the other processes |
| `TaskLinks.StoreKeepsInvIff` | src/kernel/task/task.c:97-98 | a link stored in the `next` word of any heap block keeps the invariant if and only if the block is no page directory of another process, and, where it is a page table of one, the entry's page lies in no window and the link is that page's own address |
| `TaskLinks.StoreNextKeepsInvIff` | src/kernel/task/task.c:97-98 | the same for a link followed, the null link included |
| `ClosedPages.StoreClosesExactly` | src/kernel/task/task.c:97-98 | after a link is stored in the `next` word of any heap block, user code writes through exactly the pages it wrote through before that are not closed: one page when the block is a page table, the pages of one table when it is a page directory, none otherwise |
| `ClosedPages.StoreKeepsOneWriter` | src/kernel/task/task.c:97-98 | wherever the link lands, no physical page is writable in two processes |
| `ClosedPages.StoreKeepsIsolationIff` | src/kernel/task/task.c:97-98 | the pages user code can write stay exactly the owned ones if and only if every owned page keeps a way in |
| `ClosedPages.UntouchedEntryIsolates` | src/kernel/task/task.c:97-98 | a link over the entry of a page in no window breaks the invariant, and the writable pages are still the owned ones |
| `TaskLinks.LiveTaskSpares` | src/kernel/task/task.c:95-98 | a link to the task of a live process is always safe to store through |
| `TaskLinks.AppendTask` | src/kernel/task/task.c:54-66 | the stores of an insertion: tail's `next`, the new task's `prev`, the three list variables |
| `TaskLinks.RemoveFromList` | src/kernel/task/task.c:95-111 | wherever `prev` leads: with words 14 and 15 of the record as `prev` and `next`, `next` is stored at word 15 of `prev` if that is not null; head and tail move to `next` and `prev` only if they were the task; the current task, if removed, becomes `next`, or the new head only when there is no `next` |
| `TaskLinks.RemovedLeavesList` | src/kernel/task/task.c:95-111 | the list variables the termination step speaks of are those |
| `TaskLinks.MallocKeepsLinks` | src/kernel/task/process.c:311-341 | process_malloc leaves the links of all live tasks as they were |
| `TaskLinks.FreeKeepsLinks` | src/kernel/task/process.c:343-374 | process_free leaves the links of all live tasks as they were |
| `Runs.UserStoreKeepsInv` | src/kernel/task/process.c:104-189 | a store by user code through its page tables keeps the system invariant |
| `Runs.UserStoreIsPrivate` | src/kernel/task/process.c:104-189 | no store by a process changes a byte of another process's extents or of its own page tables |
| `Runs.KernelAllocKeepsInv` | src/kernel/memory/heap/kheap.c:26-32 | allocations by the rest of the kernel keep the invariant |
| `Runs.KernelFreeKeepsInv` | src/kernel/memory/heap/kheap.c:34-36 | frees by the rest of the kernel of extents no process holds keep the invariant |
| `Runs.KernelStoreKeepsInv` | src/kernel/task/task.c:145-185 | kernel stores outside page tables and task links keep the invariant |
| `Runs.CopyKeepsInv` | src/kernel/task/task.c:145-185 | copy_string_from_task, which maps and unmaps a page of the task, keeps the invariant when its destination is no page table and no task record |
| `Runs.EventKeepsInvIff` | src/kernel/task/process.c:199-374 | any event (load of a program that maps, refused load, malloc, zero-size malloc, free, termination, user store, string copy, kernel use of memory) keeps the invariant if and only if the store it makes through a task link, if any, spares all processes, a program it loads fits, and a zero-size malloc finds no slot |
| `Runs.EventKeepsLinks` | src/kernel/task/task.c:41-111 | every event that meets these conditions leaves the links of the live tasks null or the address of a heap block |
| `Runs.LiveLinksAreSpared` | src/kernel/task/task.c:54-111 | an event whose link is null or leads to a live task spares all processes, the one being loaded included |
| `Runs.LiveLinksMakeRuns` | src/kernel/task/task.c:54-111 | so a sequence of events whose links are all null or live, whose programs fit and whose zero-size mallocs find no slot is a run |
| `Runs.TraceKeepsInvIff` | src/kernel/task/process.c:199-374 | the states of any sequence of events all satisfy the invariant if and only if it is a run: every store through a link spares all processes, every program loaded fits, and no zero-size malloc finds a slot |
| `Runs.RunKeepsInv` | src/kernel/task/process.c:199-374 | every state of every run satisfies the invariant |
| `Runs.IsolationOverRuns` | src/kernel/task/process.c:104-189 | from an empty heap, in every state of every run: the pages writable through directory and table are exactly the owned ones, no page is writable twice, none holds kernel records |
| `StaleLinks.StoreClosesDataPage` | src/kernel/task/task.c:97-98 | a link stored over the page table entry of a live data page leaves the page unwritable for its owner and breaks the invariant |
| `StaleLinks.TerminateClosesDataPage` | src/kernel/task/task.c:95-118 | a termination whose `prev` has become the page table of another process takes a live data page from that process |
| `StaleLinks.LoadClosesDataPage` | src/kernel/task/task.c:60-62 | a load whose tail has become such a table does the same |
| `StaleLinks.StaleRunClosesPage` | src/kernel/task/task.c:95-118 | six calls from an empty heap (load A, load B, terminate A, load D, give D a page, terminate B): the invariant holds up to the last call, which takes the page from D |
| `FailingRuns.RunStaleLink` | src/kernel/task/task.c:95-118 | the six calls made on a new `Kernel`, with the bytes of the files: they get there |
| `LoadedWrites.NewProcessWrites` | src/kernel/task/process.c:118-189 | right after any load of a program that maps, with a tail that spares the new process, user code can write exactly its PF_W segments or flat binary and its stack |
| `LoadedWrites.WritesStayInsideIff` | src/kernel/task/process.c:118-150 | right after any such load user code can write only pages of its own image and stack if and only if every PF_W segment lies on such pages |
| `LoadedWrites.WritesStayInsideBeforeIff` | src/kernel/task/process.c:118-150 | the same in numbers, told from the program and the heap table before the load, whatever that looks like: every PF_W segment ends within the blocks of the file, or reaches over into the stack behind them, or lies in the stack, wherever first fit will put it |
| `LoadedWrites.WithinFileStaysInside` | src/kernel/task/process.c:118-150 | PF_W segments that end in the file's own blocks are always safe |
| `LoadedWrites.WritesStayInsideInGapIff` | src/kernel/task/process.c:118-150 | where the first gap of the heap has room for the load, the bound is exact in numbers: every PF_W segment ends within the blocks of the file and four more, the stack |
| `LoadedWrites.BssReachesKernelRecords` | src/kernel/task/process.c:118-150 | a PF_W segment that reaches further lets user code write its own task record, page directory or page tables |
| `LoadedWrites.BssProgramEscapes` | src/kernel/task/process.c:118-150 | the failing program: one page of file and a PF_W segment of seven pages |
| `FailingRuns.RunBss` | src/kernel/task/process.c:225-292 | that program loaded into a new `Kernel` can write its own page directory |
| `Translation.SegmentTranslates` | src/kernel/task/process.c:118-150 | in a space that shows its windows every address of a segment translates to elf_memory + p_offset + its displacement, for any congruent segment that does not overflow, at any linked address |
| `Translation.BinaryTranslates` | src/kernel/task/process.c:104-116 | every address of a flat binary translates to its offset in the file |
| `Translation.StackTranslates` | src/kernel/task/process.c:180-185 | every stack address translates to its offset in the stack allocation, whatever the program |
| `Translation.DataTranslates` | src/kernel/task/process.c:311-341 | live allocations are identity-mapped |
| `Translation.UntouchedTranslates` | src/kernel/memory/paging/paging.c:6-32 | all addresses outside the windows stay identity-mapped, whatever the program |
| `Translation.MapMemoryTranslates` | src/kernel/task/process.c:152-189 | after process_map_memory every virtual address goes where the program was linked to find it, for every image with congruent, page-disjoint segments from the program base up that do not overflow |
| `Translation.ProcessesTranslate` | src/kernel/task/process.c:104-189 | so it does for every process in every state of every run |
| `Translation.LoadedTranslates` | src/kernel/task/process.c:225-292 | so it does right after any load whose tail spares the new process, of programs that fit for isolation or not |
| `Translation.LoadedSegmentReadsFile` | src/kernel/loader/formats/elf_loader.c:158-202 | right after such a load, reading a segment through the page tables reads the file from the segment's offset on, with the link if it went into the file |
| `Kernel.ProcessRecord.FindSlot` | src/kernel/task/process.c:294-309 | the first slot holding the pointer |
| `Kernel.Kernel.ProcessMalloc` | src/kernel/task/process.c:311-341 | the in-place operation is the abstract malloc step and keeps the invariant; for size 0 it fills a slot and reserves and maps nothing, and the invariant holds if and only if the result is null |
| `Kernel.Kernel.ProcessFree` | src/kernel/task/process.c:343-374 | the in-place operation is the abstract free step; an unknown or null pointer changes nothing |
| `Kernel.Kernel.FreeAllocations` | src/kernel/task/process.c:440-451 | all allocations of the process, and only those, are unmapped and freed |
| `Kernel.Kernel.ProcessTerminate` | src/kernel/task/process.c:496-513 | exactly the allocations, image, stack, 1026 paging blocks and task are given back, the task leaves the list with the store through its `prev` and hands the processor to its `next` or, without one, to the head, the slot is cleared, every other extent (struct process included) stays; the invariant holds afterwards if and only if that store spares the other processes |
| `Kernel.Kernel.ProcessLoadForSlot` | src/kernel/task/process.c:225-292 | a taken slot is refused without change; an ELF file with a header that is not PT_LOAD is refused with -EIO and leaks two extents; any other file is loaded, linked into the task list wherever the tail leads, mapped as its headers read then, and recorded as the abstract load step says; the invariant holds afterwards if and only if the program found fits and the store through the tail spares all processes |
| `Kernel.Kernel.ProcessLoad` | src/kernel/task/process.c:191-211 | the first free slot is used, with the same outcomes; with none the call is refused without change |
| `Kernel.FreeStepHolds` | src/kernel/task/process.c:343-374 | unmapped pages, the cleared slot and the freed extent together are the free step |
| `Termination.TerminateStepHolds` | src/kernel/task/process.c:440-513 | draining the slots, then freeing image, stack, paging blocks and task and unlinking the task, is the terminate step |
| `Termination.FreeFixed` | src/kernel/task/process.c:453-471 | the image, stack, paging structure and task are given back in the source's order, each exactly once, with the list removal between paging structure and task |
| `Loader.MapElf` | src/kernel/task/process.c:118-150 | the loop reads the program headers from the copy in memory, whatever it holds by then and whatever their types, and maps exactly the windows of their segments, page-rounded, with flags 7 if bit 1 of p_flags is set and 5 otherwise (`AddressSpace.SegmentFlagsAre`) |
| `Loader.PageFlags` | src/kernel/task/process.c:131-134 | the page flags from p_flags, in arithmetic: 7 if p_flags / 2 is odd, 5 otherwise |
| `AddressSpace.SegmentFlagsAre` | src/kernel/task/process.c:131-134 | a segment is writable if and only if p_flags / 2 is odd, and its pages have flags 7 or 5 accordingly |
| `MappedHeaders.RecordsAreMapped` | src/kernel/task/process.c:118-150 | from the bytes: right after any load of a program that maps, with a tail that spares the new process, if the copy of the file holds the records of a header table, user code can write the pages of record k if and only if bit 1 of its p_flags is set, and they go to the pages of the file from p_offset on |
| `MappedHeaders.RecordsTranslate` | src/kernel/task/process.c:118-150 | after such a load every address of record k goes to elf_memory + p_offset + its displacement, with p_offset and p_vaddr as written in the file |
| `Loader.MapBinary` | src/kernel/task/process.c:104-116 | a flat binary becomes one writable window at the program address |
| `Loader.MapMemory` | src/kernel/task/process.c:152-189 | the windows of the image and then that of the stack are mapped, whatever the tables held before, for every image that maps |
| `ImageLayout.ProgramLayout` | src/kernel/task/process.c:118-189 | page-disjoint segments from the program base up and the stack lay out without overlap |
| `LoadProcess.TrailingRunIsRoom` | src/kernel/task/process.c:225-292 | a long enough free run at the end of the heap is room for everything a load asks for |
| `LoadProcess.AllocateProcess` | src/kernel/task/process.c:225-292 | with record and image in place, stack, task and paging blocks are reserved on distinct new extents and the file stays in memory |
| `LoadProcess.LoadData` | src/kernel/task/process.c:38-102 | an ELF file is loaded with the segments its headers spell; a flat file is loaded after the failed ELF attempt has left its two extents behind; a file with other headers is refused |
| `LoadProcess.PreparedIsUnmapped` | src/kernel/task/process.c:225-292 | the allocations of a load, with the file read and a fresh space made, together are what the load step starts linking and mapping from |
| `LoadInMemory.LoadMemory` | src/kernel/task/process.c:225-292 | the memory side of a load as one call, list insertion included, wherever the tail leads: refused with its two leaks, or the load step with the program that process_map_memory finds |
| `LoadInMemory.LinkStaysWired` | src/kernel/task/task.c:60-62 | wherever the tail leads, the new space can still be mapped into: its tables are where they were, or one of them is the new task's own block |
| `LoadInMemory.ProgramIsFound` | src/kernel/task/process.c:118-150 | the headers process_map_elf finds in memory are those told from the table before the load: the file's own, or with four bytes changed by the link |
| `LinkedLoads.LoadIsLinked` | src/kernel/task/process.c:225-292 | any load whose tail does not lead into the new page directory is the load without the list's store, followed by that store, or that load alone where a window of the new process has overwritten the store; the new task's own links are stated |
| `LinkedLoads.OverDirectoryCloses` | src/kernel/task/task.c:60-62 | a tail that leads into the new page directory leaves an entry of it closed to user code, whatever is mapped |
| `LinkedLoads.LoadEnds` | src/kernel/task/process.c:225-292 | after the whole load, with a tail that spares the new process, its windows are shown, its extents are where first fit puts them, nothing else is mapped unless the link is, and its file is in memory but for a link that went into it |
| `LoadSteps.LinkInFile` | src/kernel/task/task.c:60-62 | a link stored into the copy of a file changes exactly four bytes of it |
| `LoadSteps.StandingTailSparesNew` | src/kernel/task/task.c:60-62 | a tail that is null or leads to a block in use leads to no page table of the new process |
| `LoadSteps.StandingTailFindsProgram` | src/kernel/task/process.c:118-150 | with such a tail the program that is mapped is the one the file spells |
| `LoadProcess.LeaksAreLost` | src/kernel/task/process.c:38-102 | the two extents a flat load leaves behind are new and carry nothing of the process |
| `LoadProcess.PlacedInOrder` | src/kernel/task/process.c:225-292 | every extent of a load is where first fit puts it, told from the table before, the file's size and its kind; so is the table afterwards |
| `LoadSteps.FirstFitsInGap` | src/kernel/task/process.c:225-292 | where the first gap has room for a whole load, its extents lie one behind the other in the order they are asked for |
| `LoadProcess.GiveUp` | src/kernel/task/process.c:273-288 | after a refused load exactly two extents are new and nothing live was written |
| `ElfHeaders.ElfFile.ProcessHeaders` | src/kernel/loader/formats/elf_loader.c:107-140 | headers are read from the file in memory, each with the fields `ElfEncoding.TableRoundTrip` reads back, and processed up to the first that is not of type 1, which is an error; the bounds are those of the segments before it |
| `ElfHeaders.ElfFile.ProcessLoaded` | src/kernel/loader/formats/elf_loader.c:142-156 | -10 (-EINVFORMAT) exactly when the bytes are no ELF file, -1 (-EIO) exactly when a header is not of type 1, otherwise the segments the file spells and their bounds |
| `ElfHeaders.BoundingNext` | src/kernel/loader/formats/elf_loader.c:90-105 | one more segment: the virtual end stays the greatest end and the bases those of some segment; the base is the least address if and only if no segment lies at address zero or the last one does |
| `ElfHeaders.EndAndBaseAre` | src/kernel/loader/formats/elf_loader.c:90-105 | the bounds of a segment in numbers: the ends count p_filesz bytes, not p_memsz, and sums wrap at 4 GB |
| `ElfHeaders.ValidateLoaded` | src/kernel/loader/formats/elf_loader.c:85-88 | the header test on the bytes in memory |
| `ElfFormat.ProgramIsUnique` | src/kernel/loader/formats/elf_loader.c:142-156 | a file is at most one program |
| `ElfEncoding.HeaderRoundTrip` | src/kernel/includes/loader/formats/elf.h:65-75 | eight words written little-endian in the order of the struct at any byte of any file are read back as the header there |
| `ElfEncoding.TableRoundTrip` | src/kernel/loader/formats/elf_loader.c:142-156 | of n such records at e_phoff, with n at e_phnum, exactly those n headers are read, each from its place |
| `ElfEncoding.EveryTableIsHeld` | src/kernel/includes/loader/formats/elf.h:65-75 | every file whose table lies inside it holds some such records, so the round trip speaks of all of them |
| `ElfEncoding.ElfTestIs` | src/kernel/loader/formats/elf_loader.c:85-88 | byte by byte which files are taken for ELF |
| `ElfEncoding.ProgramOfTable` | src/kernel/loader/formats/elf_loader.c:107-156 | the program in terms of the records written: refused if and only if one is not of type 1, otherwise their segments |
| `UserCopy.Strncpy` | src/kernel/string/string.c:80-89 | between any two addresses: n < size characters are copied one by one, each as it stands when it is met, none of them NUL; a NUL follows; the copy stopped at a NUL or at size - 1 characters; no other byte changes; size 0 writes nothing |
| `UserCopy.StrncpyFromUser` | src/kernel/task/task.c:163-167 | with the task's tables in force, the string as the task sees it is stored in the temporary block |
| `UserCopy.CopyStringFromTask` | src/kernel/task/task.c:145-185 | at the destination, NUL-terminated, the characters at the task's addresses vAddr, vAddr + 1, ... (mod 2^32) as its page tables translate them, up to their NUL or max - 1; the heap table is byte for byte as before, and nothing but the destination and the freed temporary page changed |
| `UserCopy.CopyKeepsTables` | src/kernel/task/task.c:145-185 | page tables clear of the destination and the temporary page are exactly as before, entry for entry |
| `UserCopy.UserStringKept` | src/kernel/task/task.c:160-167 | mapping the temporary page does not change the string the task sees |
| `UserCopy.BufferUnmapped` | src/kernel/task/task.c:170-178 | putting the old entry back restores every byte outside the temporary page and keeps the string in it |
| `CStrings.CutIs` | src/kernel/string/string.c:80-89 | what precedes the first NUL |
| `Strtok.RunsAreMaximal` | programs/stdlib/src/string.c:122-168 | the listed runs are all the maximal delimiter-free runs of the string, each once, left to right |
| `Strtok.Tokenizer.Strtok` | programs/stdlib/src/string.c:120-168 | one call, with a string or with NULL, for any delimiter set: token, saved pointer and cut buffer |
| `Strtok.Tokenizer.SkipDelimiters` | programs/stdlib/src/string.c:133-147 | leading delimiters are skipped |
| `Strtok.Tokenizer.CutToken` | programs/stdlib/src/string.c:154-166 | the token ends in a NUL written over its delimiter, scanning goes on behind it |
| `Strtok.CallsGiveRuns` | programs/stdlib/src/string.c:120-168 | successive calls return the maximal runs in order and then NULL for ever; every pointer returned so far is a string equal to its run; only delimiters were overwritten, with NUL |
| `Fields.RunsSpellFields` | programs/stdlib/src/string.c:120-168 | the runs spell the words a character-by-character splitter yields |
| `Fields.FewFields` | programs/stdlib/src/BasicOS.c:20-62 | a line of n characters has at most (n + 1) / 2 words |
| `Fields.FieldsHoldNoSeparator` | programs/stdlib/src/string.c:120-168 | words are non-empty and free of separators |
| `Shell.Strncpy` | programs/stdlib/src/string.c:80-89 | the string cut to size - 1 and a NUL, nothing else written; size 0 writes nothing |
| `Shell.ParseCommand` | programs/stdlib/src/BasicOS.c:20-62 | a null-terminated list with one node a word of the command cut to 1024 characters, each word cut to 511; as many as malloc has room for; null when max is too large |
| `Shell.AtMost512Arguments` | programs/stdlib/src/BasicOS.c:20-62 | a command never has more than 512 words |
| `Shell.SystemRun` | programs/stdlib/src/BasicOS.c:70-84 | refused exactly when there is no word or no memory for the first node |
| `ArgumentInjection.CountArguments` | src/kernel/task/process.c:383-395 | the length of the list |
| `ArgumentInjection.MallocKeepsData` | src/kernel/task/process.c:311-341 | no process_malloc touches a page of an allocation the process already has |
| `ArgumentInjection.MallocIsNew` | src/kernel/task/process.c:311-341 | process_malloc never returns a pointer the process already holds |
| `ArgumentInjection.OtherPage` | src/kernel/task/process.c:311-341 | two allocations of a process never share a page |
| `ArgumentInjection.MallocTakesSlot` | src/kernel/task/process.c:294-341 | process_malloc succeeds if and only if a slot is left, and takes one slot and its blocks |
| `ArgumentInjection.DataWriteKeepsInv` | src/kernel/task/process.c:424-426 | kernel writes into a process's allocation keep the system invariant and the task links |
| `ArgumentInjection.StoreExtendsArgv` | src/kernel/task/process.c:424-426 | storing the next pointer completes one more argument and leaves the others |
| `ArgumentInjection.ProcessInjectArguments` | src/kernel/task/process.c:397-438 | argv points at one allocation an argument, each holding its NUL-terminated text; success if and only if the list is non-empty and there are slots for all and for argv; the invariant is kept |
| `ArgumentInjection.ShellLineInjects` | src/kernel/task/process.c:397-438 | a list made from a shell line injects word for word (cut to 511), and a fresh process always has the slots |
| `Paths.ComponentsArePieces` | src/kernel/fs/pparser.c:33-67 | the parser collects the slash-separated pieces up to the first empty one |
| `Paths.ComponentsFit` | src/kernel/fs/pparser.c:33-52 | every part is non-empty, slash-free and no longer than the path; there are at most half as many parts as characters |
| `Paths.PrintThenParse` | src/kernel/fs/pparser.c:82-106 | printing a drive digit and non-empty slash-free parts within 108 characters, then parsing, gives the same drive and parts |
| `Paths.ParseThenPrint` | src/kernel/fs/pparser.c:82-106 | parsing, then printing, gives an accepted path back if and only if no piece after the drive is empty |
| `Paths.ValidFormatIff` | src/kernel/fs/pparser.c:9-12 | the format test accepts exactly the strings that print a drive digit, a colon and a slash followed by anything |
| `Paths.ParseIs` | src/kernel/fs/pparser.c:9-31 | character by character: accepted if and only if it has 3 to 108 characters of which the first three are a decimal digit, a colon and a slash; the digit is the drive, and the parts are the pieces behind up to the first empty one |
| `PathParser.GetPathPart` | src/kernel/fs/pparser.c:33-52 | a new block holding the part NUL-terminated, or, for an empty part, the heap table as it was |
| `PathParser.ParsePathPart` | src/kernel/fs/pparser.c:54-67 | one more linked record with its text on two new blocks, or nothing |
| `PathParser.PparserParse` | src/kernel/fs/pparser.c:82-106 | null and no change for a path too long or ill-formed; otherwise a root record and a linked list spelling exactly the drive and components, on blocks of their own |
| `PathParser.PparserFree` | src/kernel/fs/pparser.c:69-80 | every text, record and the root are given back, each exactly once |
| `PathParser.ParseThenFreeRestores` | src/kernel/fs/pparser.c:69-106 | parsing and then freeing leaves the heap table byte for byte as it was |
| `Streamer.DiskStream.Read` | src/kernel/disk/streamer.c:27-57 | from any position and for any length exactly disk[pos..pos+total) is delivered and the position moves by total |
| `Fat16.ClusterToSectorIff` | src/kernel/fs/fat/fat16.c:194-196 | cluster numbering agrees with the FAT specification's formula if and only if the root directory fills whole sectors, and is one sector short otherwise |
| `Fat16.SpecifiedSector` | src/kernel/fs/fat/fat16.c:194-196 | that formula in full |
| `Fat16.FirstClusterIs` | src/kernel/fs/fat/fat16.c:190-192 | the first cluster from the two words of the entry: each digit is set if and only if it is set in either word, so with high word 0 it is the low word |
| `Fat16.StartIs` | src/kernel/fs/fat/fat16.c:194-196 | the byte where the kernel looks for a cluster: where the specification has it, or 512 bytes before |
| `Fat16.ServedIff` | src/kernel/fs/fat/fat16.c:268-309 | which requests are served, in numbers |
| `Fat16.Volume.GetClusterForOffset` | src/kernel/fs/fat/fat16.c:223-266 | an offset in the first cluster gives the cluster; any other is an error whatever the table holds |
| `Fat16.Volume.ReadInternal` | src/kernel/fs/fat/fat16.c:268-309 | served if and only if the request starts in the first cluster and asks at most a cluster, then exactly the disk slice; otherwise -EIO |
| `Fat16.Volume.Read` | src/kernel/fs/fat/fat16.c:481-501 | nmemb items of size bytes are one contiguous slice of the data region, or -EIO as soon as one item starts past the first cluster; from an entry with high word 0 and a request inside the first cluster, the bytes from 512 times the specification's sector of cluster `low`, plus the position, on |
| `Fat16.ReadsTheFile` | src/kernel/fs/fat/fat16.c:481-501 | from the directory entry: a file whose words are 0 and low is read from cluster low, where the FAT specification puts it, for every request inside the first cluster |
| `TaskQueue.Queue.Insert` | src/kernel/task/task.c:41-73 | insertion order, current task and backward links are kept |
| `TaskQueue.Queue.GetNext` | src/kernel/task/task.c:79-81 | the next task in the round |
| `TaskQueue.Queue.TaskNext` | src/kernel/task/task.c:83-93 | a switch moves to the task that follows in the round and leaves the list |
| `TaskQueue.Queue.Ticks` | src/kernel/idt/irq.c:4-15 | any number of timer interrupts: each switches to the next task, and in any n consecutive switches each of the n tasks of the queue is current exactly once |
| `TaskQueue.Queue.Remove` | src/kernel/task/task.c:95-111 | for any prev link: the links spell the list without the task if and only if its prev link is right, or it heads a longer list and its prev link leads to no other task of the queue; a removed current task is replaced by the one that follows it in the round of the old queue; no other prev link changes |
| `TaskQueue.UnlinkIff` | src/kernel/task/task.c:95-111 | the same as a fact about head, tail, next links and current task, which becomes the task's next or, without one, the new head |
| `TaskQueue.BackLinksSurviveIff` | src/kernel/task/task.c:95-111 | the backward links stay right if and only if the removed task was the last |
| `TaskQueue.SuccessorCanUnlinkIff` | src/kernel/task/task.c:95-111 | after a removal the successor can be removed in turn if and only if it is the new head of a list that goes on after it |
| `TaskQueue.EachTaskOncePerRound` | src/kernel/task/task.c:79-93 | in any n consecutive currents of a rotation over a queue of n tasks, each of its tasks occurs exactly once |
| `Keyboard.PushAppends` | src/kernel/keyboard/keyboard.c:52-63 | with fewer than 1024 keys pending a non-zero key is appended, and the other slots stay zero |
| `Keyboard.PushOnFullRing` | src/kernel/keyboard/keyboard.c:52-63 | on a full ring the new key overwrites the oldest |
| `Keyboard.PopTakesFirst` | src/kernel/keyboard/keyboard.c:65-80 | the oldest pending key, or zero if there is none |
| `Keyboard.ProcessKeys.Push` | src/kernel/keyboard/keyboard.c:42-63 | the in-place push |
| `Keyboard.ProcessKeys.Pop` | src/kernel/keyboard/keyboard.c:65-80 | the in-place pop |
| `Keyboard.KeysComeOutInOrder` | src/kernel/keyboard/keyboard.c:42-80 | over any interleaving of push, pop, process_switch and task_switch, the keys a process with an empty ring has popped since and then those pending are the keys pushed while it was in the foreground, in order; foreground and running process are told from the last switches among the events |
| `Keyboard.SwitchesTell` | src/kernel/task/process.c:27-36 | the process in the foreground is the one the last process_switch named |
| `Printers.NumeralIsUnique` | programs/stdlib/src/stdlib.c:22-48 | the digits computed are the only canonical decimal numeral of the number |
| `Printers.DecimalIs` | programs/stdlib/src/stdlib.c:22-48 | the text of every number: a minus sign exactly for negative ones, then a canonical numeral of its magnitude, "0" included |
| `Printers.DecimalIsUnique` | programs/stdlib/src/stdlib.c:22-48 | and no other text of that form denotes it |
| `Printers.Pow` | src/kernel/includes/math/math.h:6-42 | repeated squaring gives the power, and no intermediate value overflows when the power itself fits |
| `Printers.AtMostTenDigits` | programs/stdlib/src/stdlib.c:22-48 | 32-bit magnitudes have at most ten digits |
| `Printers.Itoa.Convert` | programs/stdlib/src/stdlib.c:22-48 | the canonical decimal form of every 32-bit number, INT_MIN included, NUL-terminated inside the 12-byte buffer |
| `Printers.PrintInt` | src/kernel/kernel.c:129-160 | the same characters as itoa for every number but INT_MIN |
| `Printers.PlaceValue` | src/kernel/kernel.c:150-158 | dividing by a power of ten splits off the next digit |
| `ReadLine.TerminalReadline` | programs/stdlib/src/stdio.c:57-82 | the buffer holds the line the keys before the first stop edit to, NUL-terminated, its length is returned, nothing past max is written |
| `ReadLine.EraseUndoes` | programs/stdlib/src/stdio.c:68-76 | keys typed and then erased leave the line as it was |
| `ReadLine.BackspaceOnlyFirst` | programs/stdlib/src/stdio.c:68-76 | a backspace is stored only as the first character of a line |
| `ReadLine.PlainKeysStay` | programs/stdlib/src/stdio.c:57-82 | keys without a backspace make the line they spell |
| `ReadLine.BackspaceTakesLast` | programs/stdlib/src/stdio.c:68-76 | a backspace takes the last character off, and is stored on the empty line |

## Left out

- Heap exhaustion: the scan's error code is not recognised and a trailing run that is too short is accepted, so every allocation requires a run long enough for it; `-ENOMEM` branches that only an exhausted heap could reach are not modelled.
- `make_heap` and its validation: its error code is lost in an unsigned char, so the model starts from a zeroed table of 25600 entries.
- Kernel.Kernel.ProcessLoadForSlot: covers loads and refusals of files the heap has room for whose bytes decide between ELF and flat (not files cut off inside their ELF header or program header table, which the source reads past their end), and, as the headers read when they are mapped, make a program that maps; failing `fopen`, `fstat` and `fread` and the descriptor bookkeeping of `fopen` and `fclose` are not modelled, so the block numbers of a load are those of a kernel without that bookkeeping.
- Kernel.Kernel.ProcessLoad: the same files as ProcessLoadForSlot.
- LoadProcess.LoadData: the same files as ProcessLoadForSlot.
- ElfHeaders.ElfFile.ProcessLoaded: the same files as ProcessLoadForSlot.
- Machine.Machine.HeapAlloc: requires a run of blocks for a positive request, because without one the source writes flags past the end of the table or before its start.
- Machine.Machine.KZalloc: requires a run of blocks for a positive request, as HeapAlloc does, and sizes that do not wrap when rounded up.
- Kernel.Kernel.ProcessMalloc: requires a run of blocks for a positive request, as HeapAlloc does, if a slot is left.
- The heap's own table is an array beside physical memory, not bytes inside it.
- `struct process`, `struct task` and `struct elf_file` own heap extents, but their fields are fields of Dafny objects and not bytes of those extents, except `prev` and `next` of the tasks, which are words of memory. A link that leads into such a record changes no field here; in the source its word is part of `filename` in the first block of a `struct process` and in a `struct elf_file`, and the pointer of slot 505 or 1017 in the second or third block of a `struct process`.
- Translation.LoadedTranslates: nothing is claimed of a load whose tail leads into a table or the directory of the new process without sparing it, beyond the loss of the invariant.
- Register save and restore, `eip` and stack set-up, CR3, TSS, GDT and IDT, port I/O, ATA polling, VGA output, scan-code tables, boot code. `paging_switch` only selects which directory translates.
- `current_process` and `process_switch_available` in class `Kernel`; foreground switching appears in the keyboard runs.
- The rotation of tasks is proved on the list alone (`task_queue.dfy`), not on the links in memory; a register save through `current_task` is a kernel store of the runs only while it leads to no page table.
- TaskQueue.Queue.Ticks: fairness across a removal is not claimed.
- Branches that test the result of `paging_map_to` and `paging_set` for failure where their arguments are always aligned: the model keeps the calls, not the dead branches.
- Runs.CopyKeepsInv: the destination of a copy is no page table and no task record; the kernel passes buffers of its own.
- UserCopy.CopyStringFromTask: requires that the bytes the copy reads are on present pages, outside the temporary page and not part of that page's entry, and that the destination does not overlap the temporary buffer; `max` is at least 1, because a zero-size request reserves no block for the copy.
- UserCopy.Strncpy: both ranges lie inside the 32-bit address space.
- ArgumentInjection.ProcessInjectArguments: reads the argument list as linked objects and not as bytes of the caller's memory, and returns `argc` and `argv` where the source stores them in `struct process`.
- Shell.ParseCommand: `malloc` is a number of allocations that succeed; nodes are objects of the caller.
- Shell.SystemRun: the system call is the list it is given, with `malloc` a number of allocations that succeed.
- PathParser.PparserParse: the path is a sequence of characters and not a pointer into memory; the `cwd` argument is unused in the source.
- Fat16.Volume.Read: requires the whole requested range to lie on the disk and the first cluster to be at least 2; directory lookup, names, and what a failing read leaves in the buffer are not modelled.
- Streamer.DiskStream.Read: assumes that `disk_read_block` returns the addressed sector, and lengths below 2^31 - 512 so that no signed sum overflows.
- Printers.PrintInt: INT_MIN is excluded, because negating it overflows.
- Printers.Pow: requires the power to fit 32 bits, because anything else overflows.
- ReadLine.TerminalReadline: requires `max` of at least 1, because the terminator is written in any case, and a key sequence that ends the reading.
- Keyboard.KeysComeOutInOrder: `keyboard_backspace`, which nothing calls, is not an event of these runs.
- `atoi`, the file-descriptor table, system-call registration and `printf`: they would only add easy members or do not compute what their name says.
