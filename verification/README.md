# A verified model of a small 32-bit x86 kernel

The kernel keeps several mutable tables that must agree: a byte table of heap blocks, two-level page tables built inside those blocks, per-process allocation tables stacked on both, and a process table mirrored by a doubly linked task list. This project models those tables in the form the kernel gives them (arrays, linked objects and fields changed in place, one statement at a time) and proves each operation against a plain specification: a map of disjoint runs, a flat page map, a sequence of tasks, a flat sequence of bytes, a list of words. The results are then stated about the specifications and about whole runs.

| module | source | what is proved |
|---|---|---|
| `Machine` | 32-bit words | wrap-around, `\|` and `&` on words, rounding to pages |
| `HeapTable`, `KernelHeap` | `mm/heap.c` | the byte table is always the exact encoding of a set of disjoint runs; exact first fit; a free keeps that if and only if its block is clean to free |
| `Paging`, `AddressSpace` | `arch/x86/kernel/paging.c` | the tables refine a flat map of 2^20 entries; mapping, translation, building and tearing down; what the processor reaches, both levels and their three low bits included |
| `ProcessMemory` | `kernel/sched.c` | slots, runs and page tables of a process move together, with an exact frame for everything else; the program reads and writes exactly what it was given and not what it gave back |
| `ElfLoader` | `fs/elfloader.c`, `kernel/sched.c` | an accepted image is mapped byte for byte; an address belongs to the last segment that holds it |
| `ProgramPages` | `kernel/sched.c` | the pages of a program; exactly which images keep their writes to themselves |
| `KernelRuns`, `FileLoad` | `fs/file.c`, `fs/pparser.c`, `fs/elfloader.c` | what the kernel itself takes from the heap for a load, and exactly what of it is never given back |
| `ProcessLife` | `kernel/sched.c`, `kernel/task.c` | exactly when a program is loaded, where it then finds image and stack, and ending a process among others with any argument pointers |
| `SystemRuns` | `kernel/sched.c`, `kernel/isr80h.c` | over every run of loads, mallocs, frees and safe exits all processes stay well formed and apart and the live set is exactly known; in every state reached that way, whatever address a process may write lies in its own runs, image or stack |
| `KernelSystem` | `kernel/isr80h.c`, `kernel/sched.c` | process table, task list and memory in one run, each task on the memory that is its own |
| `Injection` | `kernel/sched.c`, `lib/string.c` | the argument vector and its strings as runs of the heap, byte by byte; exactly when there is room for them |
| `Startup` | `init/kernel.c` | from the empty heap to two running programs, and the run that breaks the heap |
| `Scheduler` | `kernel/task.c`, `kernel/sched.c`, `kernel/isr80h.c` | process table and task list stay in bijection over every run; scheduling order; when a failed load breaks it |
| `DiskStream`, `Fat16` | `kernel/streamer.c`, `fs/fat/fat16.c` | reads deliver exact slices; exactly when a FAT16 read succeeds as the code is written |
| `Words`, `CommandLine`, `Arguments` | `programs/stdlib`, `kernel/isr80h.c` | the words of a command line reach `argv` of the program it starts, in order |
| `Keyboard`, `PathParser`, `Digits` | `kernel/keyboard.c`, `fs/pparser.c`, `lib/print.c` | a ring buffer refines a bounded queue; path round trips; digits decode to the number |

Memory is an array of 32-bit words by block and word; pointers are unsigned 32-bit numbers and wrap. The disk is a function from sector number to 512 bytes. Whether an allocation inside a lower layer can succeed is a parameter (`heapOk`, `grants`) where the layer itself is not the subject. `panic` ends a run with an outcome that says which panic it was.

## Where the code departs from its evident intent

The model follows the code; these are the consequences proved of it.

- `fs/fat/fat16.c:273` bounds a round by the cluster size less the offset in the file. A non-empty read succeeds exactly when it lies inside the file's first cluster (`ReadInternal`); one that crosses its end reads on along the chain without result, without end exactly when the chain has 65536 links, by which it has met a cluster twice (`NeverEndsExact`). A file of three clusters shows it (`SecondClusterUnread`). `ReadInternalCorrected` is a labelled variant, not the kernel's code.
- `kernel/sched.c:207-213` terminates a half-built process whose id is still 0. The bijection survives a failed load exactly when slot 0 was free or nothing had been built (`LoadFails`); with the boot program in slot 0 one failed command breaks it (`FailedCommandAfterBoot`).
- `kernel/sched.c:109` rounds `p_vaddr` down but not `p_offset`. The first byte of a segment lands right exactly when `p_vaddr` is page-aligned (`MisalignedSegment`, and `MisalignedExample` at 0x400010).
- `kernel/sched.c:104-110` maps `p_memsz` bytes of a segment without comparing them with the file. What a program may write stays in its own image exactly when `p_offset + p_memsz` of each writable segment stays inside the image's run (`ImageWritesExact`). That is what the runs of `SystemRuns` ask of the programs they load (`Contained`).
- `fs/elfloader.c:116-130` uses 0 for "no base yet", so the recorded base is the least start exactly when no segment starts at 0 or the last one does (`BaseExact`; two headers that show it: `ZeroBaseForgotten`).
- `mm/heap.c:170-175` trusts its pointer. The heap survives a free exactly when the block is free, outside the table or a run start (`FreeKeepsEncoding`), and the processes survive it exactly when, besides, none of them depends on the block (`KfreeAnything`).
- `kernel/sched.c:430-435` frees whatever pointers stand in the argument vector, which `process_terminate_allocations` has freed before. The other processes and the kernel keep what they have exactly when each pointer is NULL, leads into no run in use, or into a run of the process itself (`EndMemory`). A program that frees one of its strings, which another process is then given, breaks the heap when it ends (`StaleString`; from `kernel_main` on: `StaleStringHappens`).
- `kernel/sched.c:170` takes the process descriptor from the heap and nothing frees it when the process ends; `fs/file.c:103-166` keeps the parsed path of every file it opens, and a successful `elf_load` never closes its file. So the heap is never what it was after a program has been loaded and has ended (`LoadThenExit`); what a run leaves behind is exactly known (`RunSystem`), and the table is restored if and only if that is nothing.
- `kernel/isr80h.c:95-103` loads a program before it has room for its arguments. Where they find none the command reports an error and the program stays loaded (`EndOfCommand` in `InvokeCommand`).
- `mm/heap.c:28-50` accepts a region that starts at 0 or wraps; only the others give a usable heap (`Create`). In a region at 0 the first block is marked and reported as a failure (`BlockAtNull`).
- `fs/fat/fat16.c:214-225` checks some FAT12 values and misses some FAT16 end marks (`CheckAgreesWithFat16`).
- `lib/print.c:101` leaves before the reversal when size - 1 digits are written, so a number that just fits comes out backwards (`UlongToString`; 12 in three bytes: `ExactFitReversed`). For a size of 1 the test never holds and the size bounds nothing.
- `arch/x86/kernel/paging.c:90` ORs a whole `int` of flags into the frame; the translation is right exactly when the flags' high bits are already set in the frame number, as they are for all flags below 4096 (`MapToTranslates`).

## Model

| member | source | states |
|---|---|---|
| `Machine.FrameIsPageBase` | arch/x86/kernel/paging.c:62 | masking with 0xFFFFF000 is rounding down to the page base, for every word |
| `Machine.OrKeepsFrame` | arch/x86/kernel/paging.c:85-91 | ORing a word into a page base keeps its frame if and only if the word's high bits are already in the frame number; low bits always do |
| `Machine.AlignUpMeaning` | mm/heap.c:125-133 | rounding up gives the next page base, and 0 exactly inside the last page of the address space |
| `Machine.WithByteIs` | lib/string.c:41-44 | storing a byte into a word changes that byte and no other |
| `Machine.BytesOfWord` | lib/string.c:41-44 | a word is its four bytes, the lowest first |
| `HeapTable.RunsDisjoint` | mm/heap.c:89-100 | two runs of one table share no block |
| `HeapTable.FirstBitMeansStart` | include/kernel/heap.h:9-13 | IS_FIRST is set on exactly the first block of every run |
| `HeapTable.TableBytes` | include/kernel/heap.h:9-13 | the bytes of a table: 0x41 for a run of one block, 0xC1, 0x81 up to the last and 0x01 for a longer one, 0 for every block of none |
| `HeapTable.FreeMeansUncovered` | mm/heap.c:52-55 | an entry reads as free if and only if no run covers its block, and then the whole byte is 0 |
| `HeapTable.DecodingUnique` | include/kernel/heap.h:9-13 | the three bits lose nothing: a table encodes at most one set of runs |
| `HeapTable.EncodingUnique` | include/kernel/heap.h:9-13 | a set of runs has only one table of a given length |
| `HeapTable.FirstFitMeaning` | mm/heap.c:57-82 | first fit fails if and only if no n consecutive blocks are free, and otherwise returns the lowest start of n free blocks |
| `HeapTable.FirstFitIs` | mm/heap.c:57-82 | conversely the lowest fitting start, or the error when there is none, is the only first-fit answer |
| `HeapTable.MarkedEncodes` | mm/heap.c:89-100 | marking n free blocks turns an encoding into the encoding of one run more, apart from all others |
| `HeapTable.WalkStopsWithRun` | mm/heap.c:153-163 | clearing from any block of a run stops where that run ends |
| `HeapTable.FreedEncodes` | mm/heap.c:153-163 | clearing from a run start removes exactly that run |
| `HeapTable.FreedUnused` | mm/heap.c:153-163 | clearing from a free block or past the table changes nothing |
| `HeapTable.FreedMidRun` | mm/heap.c:153-163 | clearing from the middle of a run leaves a table that encodes no set of runs at all |
| `HeapTable.FreeKeepsEncoding` | mm/heap.c:170-175 | a free keeps the table an encoding if and only if the block is free, outside the table or a run start |
| `HeapTable.MarkThenFree` | mm/heap.c:89-163 | freeing a run just allocated restores the table byte for byte |
| `HeapTable.FreeOnlyClears` | mm/heap.c:153-163 | no free fills a block; one from an unused block changes nothing |
| `HeapTable.CutByFree` | mm/heap.c:153-163 | a free inside one of some runs cuts that run down further and changes nothing else |
| `HeapTable.CutToNothing` | mm/heap.c:153-163 | runs cut down to their starts are gone and exactly the others are left |
| `HeapTable.ClearedIsLost` | mm/heap.c:153-163 | a table cleared at a block of a run that must stay fits no runs that include it |
| `HeapTable.FreedAllExact` | mm/heap.c:153-175 | any sequence of frees that includes the starts of some runs leaves exactly the other runs if each free is of an unused block or inside those runs; if one is not, no runs that include the others fit the table |
| `HeapTable.ExecutionEncodes` | mm/heap.c:102-175 | over every run of allocations and clean frees the table encodes exactly the runs those steps make |
| `HeapTable.RunTaken` | mm/heap.c:102-123 | taking a run uses up exactly its free blocks |
| `KernelHeap.BlocksHoldSize` | mm/heap.c:125-140 | for every 32-bit size the blocks asked for hold it with less than a page to spare, or none are asked for, which happens for size 0 and for sizes that wrap |
| `KernelHeap.TakeJoins` | mm/heap.c:102-123 | requests in two rows are granted, and lie, as in one |
| `KernelHeap.CompactTakes` | mm/heap.c:57-123 | while nothing has been given back every request that fits in all is granted, right behind the one before it |
| `KernelHeap.Heap.BlockAddressRoundTrip` | mm/heap.c:84-87 | block number to address and back is the identity, addresses are page bases and never NULL |
| `KernelHeap.Heap.Create` | mm/heap.c:28-50 | accepts exactly aligned regions whose table has the right length, clears every entry, and gives a usable heap if and only if the region starts above 0 and does not wrap |
| `KernelHeap.Heap.BlockAtNull` | mm/heap.c:102-123 | why a region at address 0 is not usable: its first block is marked as taken and reported as a failure |
| `KernelHeap.Heap.KheapInit` | mm/kheap.c:10-20 | the kernel's constants give a usable, empty heap of 25600 blocks, with a table and memory of its own |
| `KernelHeap.Heap.GetStartBlock` | mm/heap.c:57-82 | the one-pass count is exact first fit |
| `KernelHeap.Heap.MarkBlocksTaken` | mm/heap.c:89-100 | writes exactly the marking of one run and no other entry |
| `KernelHeap.Heap.MallocBlocks` | mm/heap.c:102-123 | takes the first fit as a new live run, or takes nothing and returns NULL |
| `KernelHeap.Heap.Malloc` | mm/heap.c:135-140 | NULL if and only if no run of that many free blocks exists or none are asked for; otherwise a new run of at least size bytes |
| `KernelHeap.Heap.Zalloc` | mm/heap.c:142-151 | as malloc, and its own run is zero while every other word of memory keeps its value |
| `KernelHeap.Heap.MarkBlocksFree` | mm/heap.c:153-163 | the loop clears exactly from the given block to the first entry without HAS_NEXT |
| `KernelHeap.Heap.Free` | mm/heap.c:170-175 | for any pointer: removes the run that starts there, and a well-formed heap stays so if and only if the pointer is NULL or its block is clean to free |
| `KernelHeap.Heap.LiveIsClean` | mm/heap.c:165-175 | every pointer to a live run may be freed |
| `KernelHeap.Heap.LiveRunsApart` | mm/heap.c:102-123 | two live runs of a heap never overlap |
| `Paging.MapToTranslates` | arch/x86/kernel/paging.c:106-135 | after a successful map every address of the range translates to phys plus its offset, if and only if the flags disturb no frame, with the given flags in its entry; every other address translates as before |
| `Paging.MmuWalksFlat` | include/kernel/paging.h:8-12 | the processor, which walks both levels and asks both for the present, writeable and user bits, reaches exactly what the flat map and the directory bits allow |
| `Paging.LowThree` | include/kernel/paging.h:8-12 | which of the three bits a word has is a matter of its remainders by 2, 4 and 8, whatever frame it holds |
| `Paging.PageStep` | arch/x86/kernel/paging.c:93-104 | stepping page by page names consecutive pages and meets address 0 exactly past the last page |
| `Paging.IndexesSplitPage` | arch/x86/kernel/paging.c:10-18 | the two indexes of a page base are the two digits of its page number |
| `Paging.TablesFound` | arch/x86/kernel/paging.c:50-66 | with the flag bits masked off each directory word leads back to its own table block |
| `Paging.PagingSet` | arch/x86/kernel/paging.c:50-66 | changes exactly one entry of the flat map, or refuses and changes nothing; directory, its flag bits and chunk stay intact |
| `Paging.PagingMap` | arch/x86/kernel/paging.c:85-91 | maps one page of the flat map, or refuses a misaligned or NULL address |
| `Paging.PagingMapRange` | arch/x86/kernel/paging.c:93-104 | succeeds if and only if the range is aligned, does not start at page 0 and does not wrap; on failure exactly the pages before address 0 are mapped |
| `Paging.PagingMapTo` | arch/x86/kernel/paging.c:106-135 | its success condition exactly, and the flat map it leaves in either case |
| `Paging.PagingGet` | arch/x86/kernel/paging.c:149-158 | the entry of a page base; page 0's entry for any other address |
| `Paging.PagingGetPhysicalAddress` | arch/x86/kernel/paging.c:160-165 | walking the two levels equals the flat translation for every address |
| `AddressSpace.IdentityTranslates` | arch/x86/kernel/paging.c:20-37 | under the map a new chunk holds, every address translates to itself with the given flags |
| `AddressSpace.TakeBlock` | mm/heap.c:142-151 | while a block is free an allocation of up to a page succeeds, takes one block and changes no other row of memory |
| `AddressSpace.SinglesFit` | mm/heap.c:57-123 | requests of at most a page each are all granted if and only if that many blocks are free, and use up as many |
| `AddressSpace.SpaceFits` | arch/x86/kernel/paging.c:20-37 | an address space fits if and only if 1026 blocks are free |
| `AddressSpace.FillTable` | arch/x86/kernel/paging.c:26-28 | fills one table with consecutive frames and touches no other block |
| `AddressSpace.DirectoryWord` | arch/x86/kernel/paging.c:30 | a directory word is its table with the flags and the writeable bit, no frame disturbed |
| `AddressSpace.DirBitsAllow` | arch/x86/kernel/paging.c:30 | the directory allows whatever the flags do: every word is writeable, present if the flags are, and open to programs if they are |
| `AddressSpace.BuildTables` | arch/x86/kernel/paging.c:24-31 | 1024 rounds take 1024 blocks that nothing else owned, and every directory word has the same flag bits, the writeable one among them |
| `AddressSpace.BuiltIsSpace` | arch/x86/kernel/paging.c:20-37 | a finished directory with its chunk implements the identity map |
| `AddressSpace.PagingNew4gbChunk` | arch/x86/kernel/paging.c:20-37 | with 1026 free blocks it takes exactly 1026, none owned before, by first fit in turn, and changes no other block; through the new directory the processor reaches every one of the 2^32 addresses at itself, to read, write and from programs exactly as the flags allow, and no other way |
| `AddressSpace.NewSpaceReached` | arch/x86/kernel/paging.c:20-37 | the identity map under directory bits made of the same flags is reached exactly as those flags allow |
| `AddressSpace.FreeTables` | arch/x86/kernel/paging.c:73-83 | the blocks freed, in order, even when some of them are free already: the words still lead to them |
| `AddressSpace.PagingFree4gb` | arch/x86/kernel/paging.c:73-83 | releases exactly the blocks of the space, whatever was set in it |
| `AddressSpace.LifeCycle` | arch/x86/kernel/paging.c:20-83 | build, any sequence of sets, tear down: the block table is restored byte for byte |
| `AddressSpace.ChunkDirectory` | arch/x86/kernel/paging.c:45-48 | the chunk's word is its directory's address |
| `ProcessMemory.MapRunToItself` | kernel/sched.c:281-282 | mapping a heap run to itself always succeeds and touches the pages of its blocks and no other page |
| `ProcessMemory.RunEnd` | kernel/sched.c:281-282 | rounding up the end of a request is the end of its run |
| `ProcessMemory.RecordRun` | kernel/sched.c:281-289 | recording a fresh run in a free slot and mapping it keeps slots, runs and all pages in step |
| `ProcessMemory.ForgetRun` | kernel/sched.c:318-324 | clearing a slot, unmapping its run and freeing it keeps slots, runs and all pages in step |
| `ProcessMemory.FootprintIsLive` | kernel/sched.c:253-325 | everything a well-formed process depends on is a live run |
| `ProcessMemory.UserWalksFlat` | arch/x86/kernel/paging.c:45-48 | what the program reaches through the directory the processor is given is exactly what its flat map allows |
| `ProcessMemory.HeldIsReached` | kernel/sched.c:281-282 | in every well-formed process the program reads and writes, at itself, every byte of every allocation it holds |
| `ProcessMemory.HoldingReached` | kernel/sched.c:281-282 | and every address of the blocks behind it |
| `ProcessMemory.UnmappedIsClosed` | kernel/sched.c:318 | a run mapped without flags is out of the program's reach, byte by byte |
| `ProcessMemory.TakenRun` | mm/heap.c:57-123 | a run taken by first fit is apart from every other, uses up exactly its blocks, and freeing it undoes it |
| `ProcessMemory.ZallocFramed` | kernel/sched.c:267 | a kernel allocation is the first fit and zero; it keeps every live word, every process and every flat map, and freeing it at once would restore the block table |
| `ProcessMemory.KfreeAnything` | mm/heap.c:170-175 | a kernel free of any pointer leaves heap and all processes well formed if and only if it is NULL, or clean to free and no process depends on its block |
| `ProcessMemory.FreeFramed` | kernel/sched.c:324 | freeing a live run keeps every process that does not depend on it, its flat map and its slots |
| `ProcessMemory.MapToFramed` | kernel/sched.c:281-282 | mapping in one address space changes rows of its own tables only, and keeps every other process and flat map |
| `ProcessMemory.FindFreeSlot` | kernel/sched.c:253-261 | the lowest free slot, or an error if and only if none is free |
| `ProcessMemory.FindSlot` | kernel/sched.c:299-307 | the lowest slot with that pointer, or -1 if and only if there is none |
| `ProcessMemory.MapAndRecord` | kernel/sched.c:281-289 | the mapping step cannot fail; run, slot and pages appear together, with the exact new flat map and no row outside the own tables changed; the program reads and writes every byte of the run |
| `ProcessMemory.PlaceRun` | kernel/sched.c:274-296 | the run gets a slot and its pages, or is given back if and only if no slot is free |
| `ProcessMemory.TablesOutside` | kernel/sched.c:253-325 | no page-table block lies in another live run |
| `ProcessMemory.ProcessMalloc` | kernel/sched.c:263-297 | NULL if and only if no run fits or no slot is free, and then heap, slots and flat map are as before; otherwise the first-fit run, zeroed, in a slot that was free, and exactly its pages in the flat map, and the program reaches every byte ptr + k, k < size, at itself, to read and to write; every other live word, process and flat map is kept |
| `ProcessMemory.ReleaseSlot` | kernel/sched.c:318-324 | one slot: exactly its run, its mapping and its entry go, and the program reaches no byte of it any more |
| `ProcessMemory.ProcessFree` | kernel/sched.c:309-325 | a pointer that is no start of a run the process holds changes nothing, memory and flat map included; otherwise exactly that run, its slot and its mapping go, and the program reaches no byte of it any more; every other process is kept |
| `ProcessMemory.ProcessTerminateAllocations` | kernel/sched.c:397-402 | empties the table and takes exactly the process's runs from the live set; no word outside its own page tables changes, and every other process is kept |
| `ElfLoader.BaseIsLeast` | fs/elfloader.c:116-130 | when no segment starts at 0 the recorded base is the least start |
| `ElfLoader.BaseExact` | fs/elfloader.c:116-130 | the recorded base is the least start if and only if no segment starts at 0 or the last one does |
| `ElfLoader.EndIsGreatest` | fs/elfloader.c:116-130 | the recorded end is always the greatest (p_vaddr + p_filesz) mod 2^32 |
| `ElfLoader.ElfFile.ProcessPtLoad` | fs/elfloader.c:116-130 | one more header, and the recorded bounds are still those of all headers seen, each with the physical address of a header that has it |
| `ElfLoader.ElfFile.ProcessPheader` | fs/elfloader.c:132-144 | a PT_LOAD header keeps all four bounds those of the headers seen; one of another type is refused and changes nothing |
| `ElfLoader.ElfFile.ProcessPheaders` | fs/elfloader.c:146-160 | an image is accepted if and only if every header is PT_LOAD, and then all four bounds are those of its headers |
| `ElfLoader.ProcessMapElf` | kernel/sched.c:97-115 | success if and only if every segment in turn can be mapped; the flat map left in either case |
| `ElfLoader.SegmentMapped` | kernel/sched.c:104-110 | one segment's pages translate to the image with its flags and no other page changes |
| `ElfLoader.SegmentEnds` | kernel/sched.c:109-110 | for a successful segment without overflow the mapped length is the segment's length in whole pages |
| `ElfLoader.ElfMapped` | kernel/sched.c:97-115 | with disjoint page ranges every address of every segment translates to its image byte with that segment's flags, and all other entries are unchanged |
| `ElfLoader.ElfSegmentBytes` | kernel/sched.c:97-115 | for aligned p_vaddr the program reaches elf_memory + p_offset + k at p_vaddr + k for all k < p_memsz, to read always and to write if and only if bit 1 of p_flags is set |
| `ElfLoader.LastSegmentWins` | kernel/sched.c:97-115 | however the segments overlap, every address translates through the last segment that holds it, with its flags, and an address in none as before |
| `ElfLoader.SegmentFits` | kernel/sched.c:109-110 | the mapped pages hold the whole segment and do not wrap |
| `ElfLoader.MisalignedSegment` | kernel/sched.c:109-110 | the first byte of a segment lands on its image byte if and only if p_vaddr is page-aligned |
| `ElfLoader.ZeroBaseForgotten` | fs/elfloader.c:116-130 | two headers, the first at address 0: the recorded base is not the least start |
| `ElfLoader.MisalignedExample` | kernel/sched.c:109-110 | a segment at 0x400010: its first byte is not found there |
| `ProgramPages.MapKeepsPages` | kernel/sched.c:97-147 | while nothing is allocated, mapping a range read-only or into image and stack keeps pages and slots in step, wherever the range lies; the page map over the heap is exactly the allocation table if the ranges are clear of it |
| `ProgramPages.SegmentInImage` | kernel/sched.c:104-110 | the physical pages of a segment lie inside the image if and only if its offset and size do, sums that wrap included |
| `ProgramPages.ElfKeepsPages` | kernel/sched.c:97-115 | so does mapping the segments of a contained image, up to the first that fails |
| `ProgramPages.ImageWritesExact` | kernel/sched.c:97-115 | the writable addresses of an image's segments all reach the image's own run if and only if the offset and size of each writable segment stay inside it, which the loader does not check |
| `ProgramPages.ProgramPagesOk` | kernel/sched.c:125-147 | the pages of a contained program with its stack lead every write into the image or the stack |
| `ProgramPages.StackGoesTo` | kernel/sched.c:142-144 | the 16384 addresses from 0x3FB000 lead to the stack, to read and to write |
| `ProgramPages.BinaryGoesTo` | kernel/sched.c:117-123 | the addresses from 0x400000 lead to the bytes of a binary, to read and to write |
| `ProgramPages.ElfGoesTo` | kernel/sched.c:97-147 | the bytes of aligned segments lie where the headers ask even with the stack mapped after them, as long as no segment lies on another or on the stack |
| `KernelRuns.TrailGrows` | mm/heap.c:142-151 | one more allocation of a load is exactly one run more |
| `KernelRuns.TrailShrinks` | mm/heap.c:170-175 | giving one back, from anywhere among them, takes out exactly its run |
| `KernelRuns.PathSizesAre` | fs/pparser.c:68-146 | a parsed path is 8 bytes, and 108 and 8 for each part |
| `KernelRuns.Kzalloc` | mm/kheap.c:27-30 | one allocation by first fit joins those of the load, or nothing, if and only if no run fits; every process and every word of what was live before the load is kept |
| `KernelRuns.Kfree` | mm/kheap.c:32-34 | and is given back, disturbing no process |
| `KernelRuns.KzallocAll` | fs/pparser.c:68-146 | one run for each of some sizes, if and only if each finds room in turn, at the places of a first fit in turn; or none kept |
| `KernelRuns.KfreeAll` | fs/pparser.c:148-162 | exactly those runs are given back, and the table is what freeing those blocks makes of it |
| `KernelRuns.FileOpen` | fs/file.c:103-166 | opens if and only if the file is there and its path and four runs of its own find room in turn; the parsed path and the directories walked through are lost; on failure the path is given back, what is lost is exactly known, and if that is nothing the table is what it was |
| `KernelRuns.FileClose` | fs/file.c:229-247 | exactly the open file goes; the path does not |
| `FileLoad.ElfRead` | fs/elfloader.c:205-239 | a file that is opened is read if and only if its image finds room and can be read; it is kept if it is ELF with PT_LOAD headers only, with file and record; else exactly what each failure leaves, an image that cannot be read included |
| `FileLoad.ElfLoad` | fs/elfloader.c:190-240 | an ELF program is read if and only if its file is there, can be read, has PT_LOAD headers only and finds room in turn; another comes to the second reading exactly when it is there, readable and fits; the table and the loss in each case |
| `FileLoad.BinLoad` | kernel/sched.c:32-70 | the second reading of a file that is no ELF succeeds if and only if it fits once more; closed again, its path lost |
| `FileLoad.LoadData` | kernel/sched.c:73-95 | a program is read if and only if its file is there, can be read, is ELF with PT_LOAD headers only or no ELF at all, and finds room; image, record, table and exactly the file loss, or exactly what the failure lost |
| `ProcessLife.FreeStrings` | kernel/sched.c:430-435 | the loop frees whatever pointers the vector holds, in order |
| `ProcessLife.FreeRuns` | kernel/sched.c:458-479 | the frees of a termination, in order: image, record, strings, stack, page tables, task |
| `ProcessLife.EndExact` | kernel/sched.c:458-479 | for any argument pointers: these frees leave exactly the other runs if each is safe, and no runs that include all the others otherwise |
| `ProcessLife.SafeAfterDrop` | kernel/sched.c:397-402 | freeing the allocations first makes no difference to which pointers are safe |
| `ProcessLife.ReleaseRuns` | kernel/sched.c:458-479 | the end of a termination, with every other process kept if the pointers are safe |
| `ProcessLife.EndMemory` | kernel/sched.c:458-479 | termination on memory, for any argument pointers at all: everything else that is live stays if and only if each is NULL, into no run in use, or into a run of the process; then exactly what the process depends on goes and every other process is kept, otherwise no runs that include the others fit the table |
| `ProcessLife.NewChunkFramed` | arch/x86/kernel/paging.c:20-37 | building an address space changes its own new blocks only and keeps every process |
| `ProcessLife.MapProgram` | kernel/sched.c:125-147 | success if and only if the image maps; the exact flat map, with the stack on top, in either case; then the program finds its stack at 0x3FB000, 16384 bytes to read and write, and its image: a binary at 0x400000, each aligned segment of an ELF at its p_vaddr |
| `ProcessLife.TrailSplits` | kernel/sched.c:158-216 | the runs of a load are those its process will give back and those that stay |
| `ProcessLife.GiveUp` | kernel/sched.c:207-211 | a load that fails before its task gives back image, record, stack and descriptor, and what reading the file lost stays |
| `ProcessLife.LoadRuns` | kernel/sched.c:158-195 | descriptor, file, stack and task if and only if all find room in turn and the file is read, or an error and exactly what that stage lost |
| `ProcessLife.FinishLoad` | kernel/sched.c:191-213 | a new well-formed process, its stack and image in place, if and only if its image maps; else all but the file loss is given back |
| `ProcessLife.LoadMemory` | kernel/sched.c:158-216 | how a load ends and what it leaves for good is exactly what the block table and the program decide; what was live stays, word for word, with exactly one run for each allocation left; a new process has its pages mapped exactly, and its program reaches stack and image, byte by byte, where they belong |
| `ProcessLife.ElfLoads` | kernel/sched.c:158-216 | an ELF program is loaded if and only if its file is there, can be read, has PT_LOAD headers only, each of its allocations finds room in turn, its address space included, and its image maps where it came to lie |
| `ProcessLife.BinaryLoads` | kernel/sched.c:158-216 | any other program is loaded if and only if its file is there, can be read, finds room for two readings, the rest fits once the first has been given back, and the image maps |
| `ProcessLife.OutcomeLeaves` | kernel/sched.c:158-216 | all that a load can leave, case by case |
| `ProcessLife.WithRoomLeaves` | kernel/sched.c:158-216 | what an ELF load leaves, in bytes, when all its allocations find room: the lookup of a file that is not there, path and image of one that cannot be read, the path of one with a header that is not PT_LOAD, path and open file of any other, with the descriptor if it runs |
| `ProcessLife.WithRoomBinaryLeaves` | kernel/sched.c:32-95 | the same for a file that is no ELF: two paths, nothing of its open files, and the descriptor if it runs; and what is left when the second reading finds no room, by how far it came |
| `SystemRuns.TakeOut` | kernel/sched.c:253-325 | each process is apart from the rest of the system, which stays settled without it |
| `SystemRuns.PutIn` | kernel/sched.c:253-325 | and conversely |
| `SystemRuns.MallocStep` | kernel/sched.c:263-297 | one malloc keeps the whole system well formed and accounted for |
| `SystemRuns.FreeStep` | kernel/sched.c:309-325 | so does one free, of any pointer |
| `SystemRuns.LoadStep` | kernel/sched.c:158-216 | so does one load, which ends and leaves exactly what the block table decides; what is live without the processes has grown by exactly those runs, every other process is kept, and the new program finds its stack and image in place |
| `SystemRuns.LoadScene` | kernel/sched.c:158-216 | as one state after the other: one process more stands behind the others, with an empty table, or the processes are the same, and every slot table is kept |
| `SystemRuns.MallocScene` | kernel/sched.c:263-297 | a malloc by a process: the first fit in one of its free slots, no run or slot of another changed, or nothing when there is no room or no slot |
| `SystemRuns.FreeScene` | kernel/sched.c:309-325 | a free by a process: its run and its slot go if the process holds the pointer, and nothing changes otherwise |
| `SystemRuns.ExitIsSafe` | kernel/sched.c:430-435 | a test for safe argument pointers, which the code does not make |
| `SystemRuns.ExitStep` | kernel/sched.c:458-479 | one exit, with any argument pointers: the others stay a system if and only if the pointers are safe |
| `SystemRuns.ExitScene` | kernel/sched.c:458-479 | an exit: the process leaves the list, exactly the runs it depends on leave the live set, and every other slot table is what it was |
| `SystemRuns.TrailJoins` | kernel/sched.c:158-216 | what two loads leave is what the first and the second leave |
| `SystemRuns.RunSystem` | kernel/isr80h.c:54-132 | over every run of loads, mallocs, frees and safe exits by any number of processes, with any sizes and pointers, all processes stay well formed and apart; each step has its own effect on processes, live set, block table and slots and none is left out (a malloc takes the first fit into a free slot or changes nothing, a free gives back the run of its pointer or changes nothing, an exit removes its process and exactly what it depends on); what is live is what was live before, exactly the runs each load left, and what the processes depend on; with no process before and after, the block table is restored if and only if no load left anything |
| `SystemRuns.RestoredExact` | kernel/sched.c:158-216 | a heap that has grown by some runs has its old table if and only if there are none |
| `SystemRuns.WritablePage` | kernel/sched.c:125-147 | a writable page, wherever it is, leads to a block of a run the process holds or of its image or stack |
| `SystemRuns.WritesStayHome` | kernel/sched.c:125-147 | isolation for every address, over all those runs: what a process may write is in its own runs, image or stack, so in no page table, no record the kernel keeps of it, no other process's memory and nothing else the kernel has allocated |
| `SystemRuns.StaleIsUnsafe` | kernel/sched.c:430-435 | a pointer to a run in use that the process does not depend on is not safe |
| `SystemRuns.StaleString` | kernel/sched.c:430-435 | two processes and a string: freed by the first, given to the second by first fit, freed again when the first ends; then no runs that include the second process fit the table |
| `SystemRuns.LoadThenExit` | kernel/sched.c:158-216 | one load and one exit: the descriptor and the file loss stay, and the table is not what it was |
| `SystemRuns.Boot` | mm/kheap.c:10-20 | the kernel's own heap is a system with no process and nothing live |
| `KernelSystem.TryExitBeside` | kernel/isr80h.c:121-132 | the memory of an ending program goes while process table and task list are untouched |
| `KernelSystem.EndProgram` | kernel/isr80h.c:121-132 | an exit or a fault of the running program: exactly its own task, slot and memory go together, the cyclic successor runs next, every other task keeps its memory, and after the last the kernel stops; an end that is not safe is not begun |
| `KernelSystem.StartProgram` | kernel/isr80h.c:54-109 | a load by the running program: the new process in the lowest free slot, its task at the tail runs next on the new memory, all others keep theirs, and when each happens is exactly known; table, list and memory come apart if and only if a load fails after its descriptor with slot 0 taken |
| `KernelSystem.RunCommand` | kernel/isr80h.c:40-132 | one command of the running program keeps all three joined and every task on the memory it had, and has its own effect on table, list and memory: a start loads, an allocation allocates, a release frees, a quit or fault removes the running program |
| `KernelSystem.RunKernel` | kernel/isr80h.c:54-132 | over every run of commands of the running programs process table, task list and memory stay joined, task by task: each runs on the memory at its own place, and one that was there from the start on the memory it had; every command has its own effect, and none is left out while the kernel goes on; all memory is accounted for |
| `Injection.StoreWord` | kernel/sched.c:381 | a word stored into a held run disturbs no page table and no process |
| `Injection.MallocBeside` | kernel/sched.c:373 | an allocation beside a vector and its strings keeps their words, and is zero |
| `Injection.StoreByte` | lib/string.c:41-44 | one byte of a string is stored and no other byte of the heap changes |
| `Injection.TextReads` | lib/string.c:37-46 | a string of single-byte characters reads back as those characters up to its NUL |
| `Injection.TextThere` | lib/string.c:37-46 | byte m of a string lies at its pointer plus m |
| `Injection.WordThere` | kernel/sched.c:381 | word k of a vector is the four bytes at its pointer plus 4k, the lowest first |
| `Injection.CopyText` | lib/string.c:37-46 | the copy of an argument fills its own string, byte by byte, and no other block |
| `Injection.InjectOne` | kernel/sched.c:372-382 | one argument: string allocated, copied and entered, if and only if there is room and a free slot for it, or nothing changed |
| `Injection.FillVector` | kernel/sched.c:372-383 | the loop takes a string for each argument of the list, in order, and stops at the first that finds no room or no slot |
| `Injection.FreeVector` | kernel/sched.c:388-392 | every word of the vector and then the vector is freed: nothing of the injection is left |
| `Injection.InjectArguments` | kernel/sched.c:349-395 | if and only if the vector and each string find room in turn, with a slot for each: a vector of the process whose words lead to one string each, holding the list's words in order; otherwise the runs and the table there were |
| `Injection.CountArguments` | kernel/sched.c:338-347 | counts the nodes of the list |
| `Startup.CompactLoads` | kernel/sched.c:158-216 | an ELF program that fits behind what has been taken is loaded, while nothing has been given back, and so is the next |
| `Startup.CompactRuns` | kernel/isr80h.c:77-109 | and a command whose program and arguments fit runs |
| `Startup.KernelMemory` | init/kernel.c:124-140 | the kernel's heap and its own address space: a system without programs, with 1026 blocks taken, in which kernel and programs read and write every address at itself |
| `Startup.KernelMain` | init/kernel.c:116-153 | a first program that fits is loaded and runs, with table, list and memory joined |
| `Startup.TwoShells` | init/kernel.c:148-157 | a one-page program loaded at the start and once more by itself: two programs run, joined |
| `Startup.StaleStringHappens` | kernel/sched.c:430-435 | from there the run that breaks the heap |
| `Scheduler.RotationStep` | kernel/task.c:108-113 | going on with the cyclic successor after a removal walks the rest of the same rotation |
| `Scheduler.RotationAt` | kernel/task.c:108-113 | the rotation from place i holds the task at place i + k, past the tail from the head again |
| `Scheduler.RelinkedIsLinked` | kernel/task.c:54-75 | bypassing a node and moving head and tail gives a list linked both ways |
| `Scheduler.Neighbours` | kernel/task.c:54-75 | the links of node i are its neighbours, only the first is the head and only the last the tail |
| `Scheduler.Kernel.constructor` | kernel/sched.c:11-12 | the empty kernel, with 12 slots, satisfies the invariant |
| `Scheduler.Kernel.TaskInsert` | kernel/task.c:18-31 | appends at the tail; the first task becomes current |
| `Scheduler.Kernel.TaskNew` | kernel/task.c:77-101 | a new task for the process at the tail, or nothing changed when it cannot be allocated |
| `Scheduler.Kernel.TaskGetNext` | kernel/task.c:108-113 | the cyclic successor of the current task in the list, or NULL if the list is empty |
| `Scheduler.Kernel.TaskListRemove` | kernel/task.c:54-75 | removes exactly that task, keeps both directions of the list, and its cyclic successor becomes current if it was |
| `Scheduler.Kernel.TaskFree` | kernel/task.c:115-125 | the same, and nothing for NULL |
| `Scheduler.FreeSlotMeaning` | kernel/sched.c:149-156 | the lowest free slot, or the error if and only if the table is full |
| `Scheduler.Kernel.ProcessGetFreeSlot` | kernel/sched.c:149-156 | the search loop returns that slot |
| `Scheduler.Kernel.ProcessSwitchToAny` | kernel/sched.c:437-448 | the process in the lowest occupied slot, or the panic if and only if there is none |
| `Scheduler.Kernel.ProcessUnlink` | kernel/sched.c:450-456 | clears the slot of the process's id; if it was current the process in the lowest occupied slot becomes current, or the process panic stops the kernel |
| `Scheduler.Kernel.ProcessTerminate` | kernel/sched.c:458-479 | list, table and current pointers after a termination, for any process including NULL and one without a task |
| `Scheduler.Kernel.TaskNext` | kernel/task.c:245-254 | the current task's process becomes current, or the tasks panic if and only if there is no current task |
| `Scheduler.Kernel.TerminateCurrent` | kernel/sched.c:458-479 | the termination of the running process keeps list and table in bijection without it |
| `Scheduler.Kernel.EndCurrent` | kernel/sched.c:458-479 | the end of the running process: its task leaves, the cyclic successor and its process run, only its slot is cleared; the invariant is kept, or it was the last one and the process panic stops the kernel |
| `Scheduler.Kernel.OthersStay` | kernel/sched.c:450-456 | another process is loaded if and only if another task is listed, and all others keep task and slot |
| `Scheduler.Kernel.Exit` | kernel/isr80h.c:121-132 | system command 9 does exactly that |
| `Scheduler.Kernel.Exception` | arch/x86/kernel/idt.c:26-30 | a fault does exactly that |
| `Scheduler.Kernel.ProcessLoad` | kernel/sched.c:158-231 | a successful load puts a new process in the lowest free slot and its task at the tail; a full table changes nothing |
| `Scheduler.Kernel.LoadStart` | kernel/isr80h.c:54-109 | commands 6 and 7: the new task and process become current and the invariant is kept |
| `Scheduler.Kernel.EndHalfBuilt` | kernel/sched.c:207-213 | ending a process that has no id yet takes its task off the list and clears slot 0, whoever is in it |
| `Scheduler.Kernel.LoadFails` | kernel/sched.c:207-213 | a failed load keeps the invariant if and only if nothing had been built, the table was full or slot 0 was free |
| `Scheduler.Kernel.OneStep` | kernel/isr80h.c:54-132 | one load, exit or fault has exactly its effect on list, table and what is running |
| `Scheduler.FailedCommandAfterBoot` | kernel/sched.c:207-213 | with the boot program in slot 0 one failed command breaks the invariant |
| `Scheduler.Kernel.RunSteps` | kernel/isr80h.c:54-132 | over every run of loads, exits and exceptions table and list stay in bijection, the list stays linked both ways, the current pointers agree, and the tasks panic is never reached; a load puts its process in the lowest free slot and its task at the tail, or changes nothing when the table is full, and an end takes out the running task and process and goes on with the next of the ring: step by step, none left out |
| `Scheduler.Kernel.RunAllToEnd` | kernel/task.c:245-254 | if every task ends and none is loaded, each runs exactly once in cyclic list order, then the process panic stops the kernel |
| `Scheduler.Kernel.LoadThenEnd` | kernel/isr80h.c:54-132 | a program loaded and ended hands control to the list head and leaves list and table as they were |
| `DiskStream.SliceConcat` | kernel/streamer.c:37-76 | adjacent slices of the flat disk join |
| `DiskStream.SectorHoldsSlice` | kernel/streamer.c:55-62 | a sector holds the flat bytes of its own range |
| `DiskStream.SplicedTwice` | kernel/streamer.c:37-76 | two adjacent writes into a buffer are one |
| `DiskStream.Stream.Read` | kernel/streamer.c:37-76 | any length from any position delivers exactly that slice of the flat disk, changes no other byte of the buffer and advances by the length; every failure changes nothing |
| `DiskStream.Stream.ReadTwice` | kernel/streamer.c:37-76 | reading a and then b bytes is reading a + b |
| `Fat16.CheckAgreesWithFat16` | fs/fat/fat16.c:214-225 | for which entries, exactly, the check agrees with the FAT16 rules for the end of a chain |
| `Fat16.ReachesBelow` | fs/fat/fat16.c:227-247 | a chain that goes k links goes any fewer |
| `Fat16.WalkStops` | fs/fat/fat16.c:249-255 | a chain that has stopped stays stopped |
| `Fat16.RepeatNeverEnds` | fs/fat/fat16.c:249-255 | a chain that meets any cluster twice never ends |
| `Fat16.NeverEndsExact` | fs/fat/fat16.c:249-255 | a chain never ends if and only if it has 65536 links, if and only if it meets a cluster twice |
| `Fat16.EnoughLinks` | fs/fat/fat16.c:249-255 | following a chain for 65536 links or more tells whether it ends |
| `Fat16.FileSliceConcat` | fs/fat/fat16.c:612-639 | adjacent slices of a file join |
| `Fat16.SameCluster` | fs/fat/fat16.c:270-273 | moving on inside a cluster keeps the cluster |
| `Fat16.NextCluster` | fs/fat/fat16.c:283-294 | moving on to the end of a cluster is the start of the next |
| `Fat16.FirstCluster` | fs/fat/fat16.c:233-235 | an offset follows no link if and only if it is inside the first cluster |
| `Fat16.ClustersInARow` | fs/fat/fat16.c:180-183 | cluster 2 starts at the first sector of the data area, and every other cluster where the one before it ends |
| `Fat16.FileByteOnDisk` | fs/fat/fat16.c:180-183 | byte m * size + k of a file is byte k of the m-th cluster of its chain, counted on the disk from the data area in units of the cluster size |
| `Fat16.ClusterPieceIsFileSlice` | fs/fat/fat16.c:180-183 | a piece of a cluster on the disk is that piece of the concatenated chain |
| `Fat16.Volume.GetFatEntry` | fs/fat/fat16.c:190-212 | reading through the FAT stream gives the little-endian entry of the flat disk whatever the stream's position was |
| `Fat16.Volume.GetClusterForOffset` | fs/fat/fat16.c:227-247 | the cluster that many links down the chain, or the error exactly when the chain is shorter |
| `Fat16.Volume.GetNextCluster` | fs/fat/fat16.c:249-255 | the next cluster, or the error exactly when the check stops the chain |
| `Fat16.Volume.ReadPiece` | fs/fat/fat16.c:270-281 | one round's seek and read delivers a piece of one cluster, or fails and changes nothing |
| `Fat16.Volume.ReadInternal` | fs/fat/fat16.c:257-298 | as written: a non-empty read succeeds if and only if it lies inside the first cluster, and then delivers exactly those bytes of the chain; how every other read ends, and that one across the end of that cluster never does if and only if the chain has 65536 links |
| `Fat16.FirstBytes` | fs/fat/fat16.c:257-298 | a disk whose data sectors differ: the first byte of the file at cluster 2 comes from the first data sector, that of the file at cluster 3 from the second |
| `Fat16.SecondClusterUnread` | fs/fat/fat16.c:257-298 | a file of three clusters: reading one byte of the second or the third fails |
| `Fat16.Volume.ReadInternalCorrected` | fs/fat/fat16.c:257-298 | a labelled variant with the evident bound: a read succeeds if and only if it is on the chain, and delivers exactly its bytes across clusters |
| `Fat16.Volume.FatRead` | fs/fat/fat16.c:612-639 | a completed call equals one contiguous read of size * nmemb bytes at the descriptor and advances it by that; any other call leaves the descriptor alone; completion exactly characterised |
| `Fat16.Volume.FatReadTwice` | fs/fat/fat16.c:612-639 | two completed calls concatenate |
| `Words.CStrAt` | lib/string.c:9-15 | a C string ends at the first NUL |
| `Words.WordsOfWeave` | programs/stdlib/src/string.c:110-165 | however words are spaced, splitting gives them back in order |
| `Words.EveryStringWeaves` | programs/stdlib/src/string.c:110-165 | every string is its words with delimiter gaps between them, so the words are the maximal delimiter-free runs |
| `Words.SplitFirst` | programs/stdlib/src/string.c:110-165 | one splitting step finds the leading gap, the first word and the rest |
| `CommandLine.Tokenizer.SkipDelims` | programs/stdlib/src/string.c:110-165 | the first loop stops at the first character that is no delimiter |
| `CommandLine.Tokenizer.SkipWord` | programs/stdlib/src/string.c:110-165 | the second loop stops at the end of the word |
| `CommandLine.Tokenizer.CutWord` | programs/stdlib/src/string.c:110-165 | the word is terminated in place, its text kept, and exactly the words after it are left |
| `CommandLine.Tokenizer.Strtok` | programs/stdlib/src/string.c:110-165 | each call returns the first word still to be split and leaves exactly the others; none left gives NULL |
| `CommandLine.StrNCpy` | programs/stdlib/src/string.c:87-99 | copies at most count - 1 characters and always terminates |
| `CommandLine.AddToken` | programs/stdlib/src/kernel.c:4-39 | one round links a node holding the next word behind the list and keeps every node before it |
| `CommandLine.ParseCommand` | programs/stdlib/src/kernel.c:4-39 | the list holds the words of the command in order, each cut to 511 characters, as far as memory allows |
| `Arguments.InjectStep` | kernel/sched.c:349-395 | an injection into one process of a system keeps the whole system and every other process, and succeeds exactly when there is room and a slot for all of it |
| `Arguments.ProgramReads` | kernel/sched.c:349-395 | what the started program finds: it reaches argv + 4i, where the four bytes are the pointer to string i, and every byte of that string up to its NUL, which are the characters of word i |
| `Arguments.InvokeCommand` | kernel/isr80h.c:77-109 | system command 7: which of its four ends it comes to is exactly decided by the words and the block table; a program that runs holds the words in order |
| `Arguments.SystemRun` | programs/stdlib/src/kernel.c:78-87 | end to end, program load included: the program runs if and only if the line has a word, it is loaded and its arguments find room, and then argc is the number of words and argv[i] leads to the i-th |
| `Arguments.StoredExact` | programs/stdlib/src/kernel.c:4-39 | no word is cut if and only if every word is under 512 characters |
| `Arguments.ParsedExact` | programs/stdlib/src/kernel.c:4-39 | of a line under 1024 characters, with memory for its words, all words come through whole if and only if each is under 512 characters |
| `Keyboard.BackspaceUndoesPush` | kernel/keyboard.c:79-91 | backspace undoes a push if and only if the push was accepted or the queue was empty |
| `Keyboard.PushInOrder` | kernel/keyboard.c:48-61 | characters that fit stand behind what waits, in order |
| `Keyboard.PushesExact` | kernel/keyboard.c:48-61 | of any characters the NULs are skipped, and what would be past the 1024th waiting one is dropped |
| `Keyboard.PopInOrder` | kernel/keyboard.c:63-78 | n pops return the first n waiting characters in order and leave the others |
| `Keyboard.FirstInFirstOut` | kernel/keyboard.c:48-78 | what waits and what is pushed behind it comes out in that order, and nothing is left |
| `Keyboard.SlotAndPlace` | kernel/keyboard.c:38-46 | place in the queue to slot in the ring and back is the identity |
| `Keyboard.PlaceAndSlot` | kernel/keyboard.c:38-46 | and the other way round |
| `Keyboard.Buffer.PushKey` | kernel/keyboard.c:48-61 | push at the back, or dropped when NUL or full |
| `Keyboard.Buffer.PopKey` | kernel/keyboard.c:63-78 | pop at the front, or NUL when empty |
| `Keyboard.Buffer.Erase` | kernel/keyboard.c:79-91 | drop at the back, or nothing when empty |
| `Keyboard.Buffer.Run` | kernel/keyboard.c:48-91 | every sequence of operations refines the bounded queue, with tail at head + size and NUL outside the window |
| `Keyboard.TypeTwo` | kernel/keyboard.c:48-91 | two different keys typed come out first one, then the other |
| `PathParser.PartsOfJoin` | fs/pparser.c:37-66 | splitting a written list of proper parts gives the list back |
| `PathParser.JoinOfPartsIsPrefix` | fs/pparser.c:98-146 | writing the parts found gives a prefix of the input |
| `PathParser.JoinIsWhole` | fs/pparser.c:98-146 | nothing is lost if and only if no part is empty |
| `PathParser.RenderThenParse` | fs/pparser.c:98-146 | parsing the written form of a drive and parts gives both back if and only if it is within the length limit |
| `PathParser.ParseThenRender` | fs/pparser.c:98-146 | writing a successful parse gives a prefix of the input, all of it if and only if no part is empty |
| `PathParser.GetDriveByPath` | fs/pparser.c:14-25 | the only drive under which the path is written, and the cursor at exactly what follows the prefix; refused if and only if it is written under none |
| `PathParser.GetPathPart` | fs/pparser.c:37-66 | the next part as a C string of its own, or none when it is empty; no store leaves the buffer |
| `PathParser.ParsePathPart` | fs/pparser.c:68-96 | the next part linked behind the last node, every earlier part kept |
| `PathParser.ParseRest` | fs/pparser.c:98-146 | the loop links one node for each remaining part |
| `PathParser.PathParse` | fs/pparser.c:98-146 | the linked list is exactly the parts of the path; which error comes when |
| `Digits.LowValue` | lib/print.c:85-115 | the digits of the division loop stand for the number |
| `Digits.DecodeReversed` | lib/print.c:85-115 | reading the reversed characters gives that value |
| `Digits.TopDigit` | lib/print.c:85-115 | the last digit produced is not zero |
| `Digits.NumeralDecodes` | lib/print.c:85-115 | the numeral decodes to the number and has no leading zero |
| `Digits.FewDigits` | lib/print.c:85-115 | a number below base^k has at most k digits |
| `Digits.WriteDigits` | lib/print.c:85-115 | the loop writes the digits, least significant first, until they or the room run out |
| `Digits.Reverse` | lib/print.c:85-115 | the swap loop reverses in place |
| `Digits.UlongToString` | lib/print.c:85-115 | with fewer than size - 1 digits the result is the terminated numeral; with more, the lowest size - 1 digits in reverse; size 0 gives the empty string and size 1 bounds nothing |
| `Digits.ExactFitReversed` | lib/print.c:99-103 | 12 in a buffer of three comes out as "21" |
| `Digits.PrintBufferSuffices` | lib/print.c:127-132 | every 32-bit value in base 10 or 16 fits the 33-byte buffer |

## Left out

- AddressSpace.PagingNew4gbChunk: needs 1026 free blocks; with fewer the code writes through the NULL that the allocator returned, and that is not modelled.
- AddressSpace.TakeBlock: the allocations made while a chunk is built are only modelled while a block is free.
- ProcessLife.LoadMemory: the bytes of the file are not modelled. Too few free blocks for an address space end the load as `NoTables`, where the code would write through NULL.
- KernelRuns.FileOpen: an allocation that fails while a file is opened gives the open file back; that the code uses such a NULL at `fs/file.c:65-67`, and what a directory lookup loses when one of its own allocations fails, is not modelled. What walking through directories loses is a parameter of the program.
- SystemRuns.RunSystem: programs are `Contained`, which the loader does not check, and a run stops before an exit that is not safe. The copying of strings from user programs (`kernel/task.c:183-220`), which can leave a page of the heap writable, is not one of the steps, and neither are the writes programs make to their own memory.
- KernelSystem.RunKernel: argument injection is not one of the commands; on memory it is in `Arguments.InvokeCommand`.
- Injection.InjectArguments: the list is reached through identity-mapped addresses, and has fewer than 2^30 nodes; the cleanup of an injection that has no vector, which the code does through NULL or an unset pointer, frees nothing.
- ElfLoader.ElfMapped: segments whose end, rounded up to a page, passes 2^32 are outside this lemma and `ProcessMapElf` covers them; for segments whose pages overlap there is `LastSegmentWins`.
- Scheduler.Kernel.RunSteps: a load that fails is not one of its steps, because it may break the invariant; `LoadFails` says exactly when.
- Scheduler.Kernel.LoadFails: the error number stands for whichever one the failing call gave.
- Scheduler.Kernel.ProcessTerminate: the memory it frees is in `ProcessLife`; the error for a file type other than ELF and binary has no state to occur in, because a cleared descriptor reads as ELF (`include/kernel/sched.h:8-11`).
- Scheduler.Kernel.TaskFree: the page tables it releases are in `ProcessLife`.
- Scheduler.Kernel.TaskNew: a task whose address space cannot be built is not modelled; a task that cannot be allocated is.
- The register and page-directory load of a task switch is no state change here.
- DiskStream.Stream.Read: negative positions, where the copy would start before the sector buffer, positions past the greatest `int`, where the addition overflows, and disks other than the one block disk are not modelled.
- Fat16.Volume.GetFatEntry: both of the volume's streams are taken as present, because mounting is not part of this model.
- Fat16.Volume.ReadInternal: `fuel` stands for how long one watches the loop, which need not end; the clusters of the chain are taken to lie at positions an `int` can hold.
- Fat16.Volume.FatRead: a descriptor position of 2^31 or more is a negative offset to the loop and is only covered for sizes that are 0 or not positive as an `int`.
- CommandLine.ParseCommand: the line buffer and the nodes are arrays and objects of their own rather than heap words; `grants` counts the allocations that succeed.
- Digits.UlongToString: buffers too short for the stores the code makes are not modelled.
- Arguments.SystemRun: which file the first word names is a parameter, the program; the shell's buffers and nodes are arrays and objects of their own, and the process table and task list are in `KernelSystem`.
- Startup.KernelMain: what the file system and the disk take from the heap before the first program is not modelled.
- Digits.PrintBufferSuffices: the kernel prints in bases 10 and 16 only.
- Port I/O, disk polling and all assembly: the disk is a function from sector number to bytes.
- Terminal drawing, formatted printing, the shell loop and the scancode table: user interface.
- Copying strings from a task's address space and the choice of entry point in `kernel/task.c:40-43`: they depend on live address-space switching and depart from their intent.
- FAT16 directory loading and lookup: counting (`fs/fat/fat16.c:164-168`) skips deleted entries and indexing does not.
- The file descriptor table, the descriptor-table encoders, ELF magic checks and the bytes of ELF headers: they would add only easy members; headers are given as values.
- The NULL-process guards of `kernel/keyboard.c`.
