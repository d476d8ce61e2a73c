/**
  From `kernel_main` (init/kernel.c) to running programs: the kernel's own heap and address space, the first program,
  and a second one.
 */
module Startup {
  import opened Machine
  import opened HeapTable
  import opened KernelHeap
  import opened Paging
  import opened AddressSpace
  import opened ProcessMemory
  import opened ElfLoader
  import opened ProgramPages
  import opened KernelRuns
  import opened FileLoad
  import opened ProcessLife
  import opened SystemRuns
  import opened KernelSystem
  import Scheduler
  import Injection
  import Arguments

  /** Where a load finds its image, counted from its first block, when nothing has been given back before. */
  function ImageOffset(program: Program): nat {
    TotalBlocks(AllTaken(program)[..|AllTaken(program)| - 3])
  }

  /** An ELF program that can be read, none of whose allocations is empty, that fits behind the first n of so many
      blocks together with its address space, and whose image maps there. */
  predicate FitsBehind(saddr: u32, n: nat, blocks: nat, program: Program) {
    && program.Elf? && program.opening.found && program.opening.readable && AllLoad(program.phdrs)
    && (forall k :: 0 <= k < |AllTaken(program)| ==> BlocksFor(AllTaken(program)[k]) > 0)
    && n + TotalBlocks(AllTaken(program)) + 1026 <= blocks
    && ImageMaps(Wrap(saddr + (n + ImageOffset(program)) * PAGE_SIZE), program)
  }

  lemma {:induction false} TablesTotal(n: nat)
    ensures TotalBlocks(TableSizes(n)) == n
    decreases n
  {
    hide BlocksFor;
    if n > 0 {
      var front := TableSizes(n - 1);
      assert TableSizes(n) == front + [4 * 1024] && (front + [4 * 1024])[..n - 1] == front;
      TablesTotal(n - 1);
      OneBlock(4 * 1024);
    }
  }

  lemma SpaceTotal()
    ensures TotalBlocks(SpaceSizes()) == 1026
    ensures forall k :: 0 <= k < |SpaceSizes()| ==> BlocksFor(SpaceSizes()[k]) > 0
  {
    hide TotalBlocks, TableSizes;
    var directory: seq<u32>, chunk: seq<u32> := [4 * 1024], [4];
    OneSize(4 * 1024);
    OneSize(4);
    TablesTotal(1024);
    TotalJoins(directory, TableSizes(1024));
    TotalJoins(directory + TableSizes(1024), chunk);
  }

  lemma OneSize(size: u32)
    ensures TotalBlocks([size]) == BlocksFor(size)
  {
    assert [size][..0] == [];
  }

  /** Such a program is loaded, and the heap has given nothing back after that either. */
  lemma CompactLoads(h: Heap, t: seq<Entry>, n: nat, program: Program)
    requires Compact(t, n) && FitsBehind(h.saddr, n, |t|, program)
    ensures LoadOutcome(h, t, program).end == Loaded
    ensures var t' := TakeAll(WithTask(t, program), SpaceSizes());
      |t'| == |t| && Compact(t', n + TotalBlocks(AllTaken(program)) + 1026)
  {
    hide Compact, BlocksFor, AllFit, TakeAll, Places, TotalBlocks, AllTaken, SpaceSizes, AllLoad, ImageMaps,
      LoadOutcome, WithTask;
    var taken := AllTaken(program);
    AtLeastThree(program);
    SpaceTotal();
    CompactTakes(t, n, taken);
    CompactTakes(TakeAll(t, taken), n + TotalBlocks(taken), SpaceSizes());
    TakeJoins(t, taken, SpaceSizes());
    ElfLoads(h, t, program);
  }

  lemma AtLeastThree(program: Program)
    ensures |AllTaken(program)| >= 3
  {
  }

  lemma NothingTaken(t: seq<Entry>)
    requires Encodes(t, map[])
    ensures Compact(t, 0)
  {
    forall i | 0 <= i < |t| ensures IsFree(t[i]) {
      FreeMeansUncovered(t, map[], i);
    }
  }

  /** `kheap_init` and the kernel's own address space, in which kernel and programs read and write every address at
      itself: a system without processes. */
  method KernelMemory() returns (h: Heap, directory: u32)
    ensures fresh(h) && fresh(h.table) && fresh(h.memory)
    ensures h.saddr == KERNEL_HEAP_ADDRESS && h.table.Length == 25600 && Compact(h.table[..], 1026)
    ensures SystemOk(h, [], h.live)
    ensures forall va: u32, write: bool, user: bool :: MmuReaches(h, directory, va, write, user, va)
  {
    hide Encodes, BlocksFor, AllFit, TakeAll, Compact, SpaceSizes, FreeBlocks, TotalBlocks, MmuReaches;
    h := Heap.KheapInit();
    ghost var t := h.table[..];
    NothingTaken(t);
    SpaceTotal();
    CompactTakes(t, 0, SpaceSizes());
    SpaceFits(t);
    var chunk;
    ghost var s;
    chunk, s := PagingNew4gbChunk(h, PRESENT + WRITEABLE + ACCESS_FROM_ALL);
    directory := ChunkDirectory(h, chunk, s);
    NobodyYet(h);
  }

  /** `kernel_main`: the kernel's own heap and address space, and the first program. A first program that fits is loaded
      and runs; without one the kernel stops. */
  method KernelMain(program: Program)
    returns (
      end: LoadEnd, k: Scheduler.Kernel, h: Heap, procs: seq<Owner>, ghost own: Owners, ghost base: Runs)
    requires Contained(program)
    ensures fresh(k) && fresh(k.processes) && fresh(h) && fresh(h.table) && fresh(h.memory)
    ensures (forall j :: 0 <= j < |k.tasks| ==> fresh(k.tasks[j])) && forall q :: q in procs ==> fresh(q.allocations)
    ensures h.saddr == KERNEL_HEAP_ADDRESS && h.table.Length == 25600
    ensures FitsBehind(KERNEL_HEAP_ADDRESS, 1026, 25600, program) ==>
      end == Loaded && Compact(h.table[..], 1026 + TotalBlocks(AllTaken(program)) + 1026)
    ensures end == Loaded ==> Joined(k, h, procs, own, base) && RunsAt(k, 0) && |procs| == 1
    ensures end == Loaded ==> AllEmpty(procs[0].allocations[..]) && k.FreeSlot() == 1
  {
    hide SystemOk, Compact, TakeAll, WithTask, SpaceSizes, TotalBlocks, AllTaken, FitsBehind, LoadOutcome, Contained,
      Trail, AllEmpty, OwnerKept;
    var directory;
    h, directory := KernelMemory();
    ghost var t := h.table[..];
    if FitsBehind(KERNEL_HEAP_ADDRESS, 1026, 25600, program) {
      CompactLoads(h, t, 1026, program);
    }
    ghost var left;
    end, procs, left, base := LoadStep(h, [], program, h.live);
    k := FirstTask(end == Loaded);
    own := map[];
    if end == Loaded {
      own := map[k.currentTask := procs[0]];
    }
  }

  /** The list and the table with the first program, or none. */
  method FirstTask(loaded: bool) returns (k: Scheduler.Kernel)
    ensures fresh(k) && fresh(k.processes) && k.Valid() && forall j :: 0 <= j < |k.tasks| ==> fresh(k.tasks[j])
    ensures loaded ==> k.currentTask != null && k.tasks == [k.currentTask] && k.FreeSlot() == 1
  {
    k := new Scheduler.Kernel();
    Scheduler.FreeSlotMeaning(k.processes[..], 0);
    if loaded {
      var _ := k.LoadStart();
      Scheduler.FreeSlotMeaning(k.processes[..], 0);
      assert k.processes[..][0] != null && k.processes[..][1] == null;
    }
  }

  // ----- a program that starts with arguments

  /** The vector and each string are one block. */
  lemma {:induction false} InjectionTotal(argc: nat, n: nat)
    requires 0 < argc <= 1024
    ensures TotalBlocks(Injection.InjectionSizes(argc, n)) == 1 + n
    ensures forall k :: 0 <= k <= n ==> BlocksFor(Injection.InjectionSizes(argc, n)[k]) == 1
    decreases n
  {
    hide BlocksFor, TotalBlocks;
    if n == 0 {
      OneBlock(4 * argc);
      OneSize(4 * argc);
    } else {
      InjectionTotal(argc, n - 1);
      OneBlock(513);
      OneSize(513);
      TotalJoins(Injection.InjectionSizes(argc, n - 1), [513]);
    }
  }

  /** While nothing has been given back, a command whose program and arguments fit runs. */
  lemma CompactRuns(h: Heap, t: seq<Entry>, n: nat, program: Program, texts: seq<string>)
    requires Compact(t, n) && FitsBehind(h.saddr, n, |t|, program)
    requires 0 < |texts| < 1024 && texts[0] != []
    requires n + TotalBlocks(AllTaken(program)) + 1026 + 1 + |texts| <= |t|
    ensures Arguments.EndOfCommand(h, t, program, texts) == Arguments.Runs
  {
    hide Compact, BlocksFor, AllFit, TakeAll, TotalBlocks, AllTaken, SpaceSizes, LoadOutcome, WithTask, FitsBehind;
    CompactLoads(h, t, n, program);
    InjectionTotal(|texts|, |texts|);
    var sizes := Injection.InjectionSizes(|texts|, |texts|);
    CompactTakes(Arguments.TableLoaded(t, program), n + TotalBlocks(AllTaken(program)) + 1026, sizes);
  }

  // ----- a program that starts, twice

  /** A program of one page, written and run in place at 0x400000, in the root directory. */
  const SHELL: Program :=
    Elf(4096, [Phdr(PT_LOAD, 0, KERNEL_PROGRAM_VIRTUAL_ADDRESS, 4096, 4096, PF_W)], Opening(1, [], true, true))

  lemma TotalGrows(sizes: seq<u32>, k: nat, blocks: nat)
    requires k < |sizes| && BlocksFor(sizes[k]) == blocks
    ensures TotalBlocks(sizes[..k + 1]) == TotalBlocks(sizes[..k]) + blocks
  {
    assert sizes[..k + 1][..k] == sizes[..k];
  }

  lemma NoBlocks()
    ensures TotalBlocks([]) == 0
  {
  }

  lemma ShellSizes()
    ensures AllTaken(SHELL) == [TASK_STRUCT_SIZE, ELF_FILE_SIZE, 8, 108, 8, 8, 8, 32, 16, 4096, 16384, 64]
  {
    assert PathSizes(0) == [8] && PathSizes(1) == [8] + [108, 8] && PathLoss(SHELL.opening) == [8, 108, 8];
    assert FileLoss(SHELL) == [8, 108, 8, 8, 8, 32, 16];
  }

  lemma ShellTakes()
    ensures |AllTaken(SHELL)| == 12
    ensures forall k :: 0 <= k < 12 ==>
      BlocksFor(AllTaken(SHELL)[k]) == if k == 0 then 3 else if k == 10 then 4 else 1
  {
    hide AllTaken, BlocksFor;
    ShellSizes();
    forall k | 0 <= k < 12 && k != 0 && k != 10 ensures BlocksFor(AllTaken(SHELL)[k]) == 1 {
      OneBlock(AllTaken(SHELL)[k]);
    }
    LargeSizes();
  }

  lemma LargeSizes()
    ensures BlocksFor(TASK_STRUCT_SIZE) == 3 && BlocksFor(16384) == 4
  {
  }

  lemma {:induction false} ShellTotalTo(k: nat)
    requires k <= 12
    ensures |AllTaken(SHELL)| == 12
    ensures TotalBlocks(AllTaken(SHELL)[..k]) == if k == 0 then 0 else if k <= 10 then k + 2 else k + 5
    decreases k
  {
    hide TotalBlocks, BlocksFor, AllTaken;
    ShellTakes();
    if k == 0 {
      NoBlocks();
      assert AllTaken(SHELL)[..0] == [];
    } else {
      ShellTotalTo(k - 1);
      TotalGrows(AllTaken(SHELL), k - 1, if k == 1 then 3 else if k == 11 then 4 else 1);
    }
  }

  /** It takes 17 blocks besides its address space, the twelfth for its image. */
  lemma ShellTotal()
    ensures |AllTaken(SHELL)| == 12 && TotalBlocks(AllTaken(SHELL)) == 17 && ImageOffset(SHELL) == 11
    ensures forall k :: 0 <= k < |AllTaken(SHELL)| ==> BlocksFor(AllTaken(SHELL)[k]) > 0
  {
    hide TotalBlocks, BlocksFor, AllTaken;
    ShellTakes();
    ShellTotalTo(4);
    ShellTotalTo(9);
    ShellTotalTo(12);
    assert AllTaken(SHELL)[..12] == AllTaken(SHELL);
  }

  lemma ShellMaps(image: u32)
    requires image % PAGE_SIZE == 0 && image + 4096 < TWO32 - 4096
    ensures ImageMaps(image, SHELL)
  {
    assert SegPhys(image, SHELL.phdrs[0]) == image;
    AlignUpMeaning(image + 4096);
  }

  lemma ShellFits(n: nat)
    requires n + 1043 <= 25600
    ensures FitsBehind(KERNEL_HEAP_ADDRESS, n, 25600, SHELL) && Contained(SHELL)
  {
    hide TotalBlocks, AllTaken, BlocksFor, ImageMaps, BitAnd;
    ShellTotal();
    OneBlock(4096);
    ShellMaps(0x1000000 + (n + 11) * 4096);
  }

  /** `kernel_main` with it, and a second one started by the first: two programs run, table, list and memory joined. */
  method TwoShells()
    returns (k: Scheduler.Kernel, h: Heap, procs: seq<Owner>, ghost own: Owners, ghost base: Runs)
    ensures fresh(h) && fresh(h.table) && fresh(h.memory) && forall q :: q in procs ==> fresh(q.allocations)
    ensures Joined(k, h, procs, own, base) && RunsAt(k, 1) && |procs| == 2
    ensures AllEmpty(procs[0].allocations[..]) && AllEmpty(procs[1].allocations[..])
    ensures h.table.Length == 25600 && Compact(h.table[..], 3112)
  {
    hide SystemOk, Compact, TakeAll, WithTask, SpaceSizes, TotalBlocks, AllTaken, FitsBehind, LoadOutcome, Contained,
      AllEmpty, Owned, Scheduler.Kernel.Valid, ProcessOk, FlatOf;
    ShellTotal();
    ShellFits(1026);
    ShellFits(2069);
    var end;
    end, k, h, procs, own, base := KernelMain(SHELL);
    CompactLoads(h, h.table[..], 2069, SHELL);
    var standing, current;
    ghost var left;
    standing, procs, current, left, own, base := StartProgram(k, h, procs, 0, SHELL, own, base);
  }

  /** From there the run of `StaleString` is at hand: an argument string of one page that the first program frees, the
      second is given, and the end of the first frees again. */
  method StaleStringHappens() returns (h: Heap)
    ensures !h.Valid()
  {
    hide SystemOk, Compact, Owned, Scheduler.Kernel.Valid, NoRoom, Keeps, Encodes;
    var k, procs;
    ghost var own, base;
    k, h, procs, own, base := TwoShells();
    CompactTake(h.table[..], 3112, 4096);
    assert procs[0].allocations[..][0].ptr == NULL && procs[1].allocations[..][0].ptr == NULL;
    var ptr := StaleString(h, procs, 0, 1, 4096, base);
  }
}
