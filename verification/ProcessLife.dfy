/**
  The memory side of a process's life (kernel/sched.c, kernel/task.c): building it beside other processes, and ending
  it.
 */
module ProcessLife {
  import opened Machine
  import opened HeapTable
  import opened KernelHeap
  import opened Paging
  import opened AddressSpace
  import opened ProcessMemory
  import opened ElfLoader
  import opened ProgramPages
  import opened KernelRuns
  import opened FileLoad

  /** Image, stack, task and, for ELF, the record of the file are the runs the kernel holds for the process; image and
      stack are what the program may reach. */
  ghost predicate KernelHolds(h: Heap, p: Owner) {
    var b, c, d, e := h.AddressBlock(p.image), h.AddressBlock(p.stack), h.AddressBlock(p.task), h.AddressBlock(p.file);
    && p.image != NULL && p.stack != NULL && p.task != NULL && {b, c, d} <= p.kept.Keys
    && (if p.file == NULL then p.kept.Keys == {b, c, d} else p.kept.Keys == {b, c, d, e} && e !in {b, c, d})
    && d !in {b, c}
    && p.reach.runs.Keys == {b, c}
  }

  /** What a process under construction or being torn down still needs, its address space and the runs kept for it,
      apart from all other processes. */
  ghost predicate Held(h: Heap, p: Owner, others: set<Owner>)
    reads h, h.table, h.memory, set q | q in others :: q.allocations
  {
    && SpaceIn(h, p.space) && |p.space.blocks| == 1026 && p.chunk == h.BlockAddress(p.space.blocks[1025])
    && OpenDirectory(p.space)
    && (forall b :: b in p.kept ==> b in h.live && h.live[b] == p.kept[b] && b !in p.space.blocks)
    && AllOk(h, others)
    && forall q :: q in others ==> Footprint(h, q) !! BlockSet(p.space.blocks) + p.kept.Keys
  }

  // ----- ending a process

  /** The blocks that the non-NULL pointers lead to. */
  ghost function StringBlocks(h: Heap, argv: seq<u32>): seq<nat>
    decreases |argv|
  {
    if argv == [] then []
    else
      var front, ptr := StringBlocks(h, argv[..|argv| - 1]), argv[|argv| - 1];
      if ptr == NULL then front else front + [h.AddressBlock(ptr)]
  }

  lemma {:induction false} StringBlocksAre(h: Heap, argv: seq<u32>)
    ensures forall b :: b in StringBlocks(h, argv) <==>
      exists i :: 0 <= i < |argv| && argv[i] != NULL && h.AddressBlock(argv[i]) == b
    decreases |argv|
  {
    hide Heap.AddressBlock;
    if argv != [] {
      var n := |argv| - 1;
      StringBlocksAre(h, argv[..n]);
      forall b ensures b in StringBlocks(h, argv) <==>
        exists i :: 0 <= i < |argv| && argv[i] != NULL && h.AddressBlock(argv[i]) == b
      {
        if i :| 0 <= i < |argv| && argv[i] != NULL && h.AddressBlock(argv[i]) == b {
          assert i < n ==> argv[..n][i] == argv[i];
        }
        if b in StringBlocks(h, argv[..n]) {
          var i :| 0 <= i < n && argv[..n][i] != NULL && h.AddressBlock(argv[..n][i]) == b;
          assert argv[i] == argv[..n][i];
        }
        assert argv[n] != NULL ==> h.AddressBlock(argv[n]) in StringBlocks(h, argv);
      }
    }
  }

  /** `process_terminate_command_argument`: frees of whatever pointers there are. */
  method FreeStrings(h: Heap, argv: seq<u32>)
    requires h.Region()
    modifies h, h.table
    ensures h.table[..] == FreedAll(old(h.table[..]), StringBlocks(h, argv))
  {
    hide Freed, FreedAll, Heap.AddressBlock;
    ghost var t := h.table[..];
    NothingFreed(t);
    var i := 0;
    while i < |argv|
      invariant 0 <= i <= |argv| && h.table[..] == FreedAll(t, StringBlocks(h, argv[..i]))
    {
      assert argv[..i + 1][..i] == argv[..i];
      FreedAllStep(t, StringBlocks(h, argv[..i]), h.AddressBlock(argv[i]));
      h.Free(argv[i]);
      i := i + 1;
    }
    assert argv[..i] == argv;
  }

  /** The order in which `process_terminate` frees what is left of a process. */
  ghost function EndOrder(h: Heap, p: Owner, argv: seq<u32>): seq<nat>
    requires |p.space.blocks| == 1026
  {
    [h.AddressBlock(p.image)] + (if p.file == NULL then [] else [h.AddressBlock(p.file)])
    + StringBlocks(h, argv) + [h.AddressBlock(p.stack)] + TearOrder(p.space) + [h.AddressBlock(p.task)]
  }

  /** The statements: image and record, argument strings, stack, address space and task. */
  method FreeRuns(h: Heap, p: Owner, argv: seq<u32>)
    requires h.Region() && Linked(h, p.space) && |p.space.blocks| == 1026
    requires p.chunk == h.BlockAddress(p.space.blocks[1025]) && p.image != NULL && p.stack != NULL && p.task != NULL
    modifies h, h.table
    ensures h.table[..] == FreedAll(old(h.table[..]), EndOrder(h, p, argv))
  {
    hide Freed, FreedAll, Linked, Frame, Heap.AddressBlock, Heap.BlockAddress, TearOrder, StringBlocks;
    ghost var t, done := h.table[..], [];
    NothingFreed(t);
    FreedAllStep(t, done, h.AddressBlock(p.image));
    h.Free(p.image);
    done := done + [h.AddressBlock(p.image)];
    if p.file != NULL {
      FreedAllStep(t, done, h.AddressBlock(p.file));
      h.Free(p.file);
      done := done + [h.AddressBlock(p.file)];
    }
    FreedAllJoins(t, done, StringBlocks(h, argv));
    FreeStrings(h, argv);
    done := done + StringBlocks(h, argv);
    FreedAllStep(t, done, h.AddressBlock(p.stack));
    h.Free(p.stack);
    done := done + [h.AddressBlock(p.stack)];
    FreedAllJoins(t, done, TearOrder(p.space));
    FreeTables(h, p.chunk, p.space);
    done := done + TearOrder(p.space);
    FreedAllStep(t, done, h.AddressBlock(p.task));
    h.Free(p.task);
    done := done + [h.AddressBlock(p.task)];
    assert done == EndOrder(h, p, argv);
  }

  /** A pointer whose free at the end of a process touches no run that stays: NULL, into no run in use, or into a run
      the process depends on. */
  ghost predicate SafeAtEnd(h: Heap, t: seq<Entry>, runs: Runs, own: set<nat>, ptr: u32) {
    ptr == NULL || Harmless(t, runs, own, h.AddressBlock(ptr))
  }

  lemma EndOrderIs(h: Heap, p: Owner, argv: seq<u32>)
    requires |p.space.blocks| == 1026 && KernelHolds(h, p)
    ensures forall b :: b in BlockSet(p.space.blocks) + p.kept.Keys ==> b in EndOrder(h, p, argv)
    ensures forall b :: b in EndOrder(h, p, argv) ==>
      b in BlockSet(p.space.blocks) + p.kept.Keys || b in StringBlocks(h, argv)
    ensures forall b :: b in StringBlocks(h, argv) ==> b in EndOrder(h, p, argv)
  {
    hide TearOrder, StringBlocks, Heap.AddressBlock;
  }

  /** What the frees of `process_terminate` come to, whatever the strings: the table is left encoding exactly the other
      runs if every string is safe, and no runs that include all the others otherwise. */
  lemma EndExact(h: Heap, p: Owner, argv: seq<u32>, t: seq<Entry>, runs: Runs, own: set<nat>)
    requires |p.space.blocks| == 1026 && KernelHolds(h, p) && Encodes(t, runs)
    requires own == BlockSet(p.space.blocks) + p.kept.Keys && own <= runs.Keys
    ensures (forall i :: 0 <= i < |argv| ==> SafeAtEnd(h, t, runs, own, argv[i])) ==>
      Encodes(FreedAll(t, EndOrder(h, p, argv)), runs - own)
    ensures forall i, runs' :: 0 <= i < |argv| && !SafeAtEnd(h, t, runs, own, argv[i]) && Keeps(runs, own, runs') ==>
      !Encodes(FreedAll(t, EndOrder(h, p, argv)), runs')
  {
    hide Encodes, Harmless, Keeps, FreedAll, EndOrder, KernelHolds, Heap.AddressBlock;
    var order := EndOrder(h, p, argv);
    EndOrderIs(h, p, argv);
    StringBlocksAre(h, argv);
    FreedAllExact(t, runs, own, order);
    if forall i :: 0 <= i < |argv| ==> SafeAtEnd(h, t, runs, own, argv[i]) {
      forall k | 0 <= k < |order| ensures Harmless(t, runs, own, order[k]) {
        if order[k] in own {
          OwnIsHarmless(t, runs, own, order[k]);
        } else {
          var i :| 0 <= i < |argv| && argv[i] != NULL && h.AddressBlock(argv[i]) == order[k];
          assert SafeAtEnd(h, t, runs, own, argv[i]);
        }
      }
    }
    forall i, runs' | 0 <= i < |argv| && !SafeAtEnd(h, t, runs, own, argv[i]) && Keeps(runs, own, runs')
      ensures !Encodes(FreedAll(t, order), runs')
    {
      assert h.AddressBlock(argv[i]) in StringBlocks(h, argv);
      var k :| 0 <= k < |order| && order[k] == h.AddressBlock(argv[i]);
      assert !Harmless(t, runs, own, order[k]);
    }
  }

  lemma OwnIsHarmless(t: seq<Entry>, runs: Runs, own: set<nat>, b: nat)
    requires Encodes(t, runs) && own <= runs.Keys && b in own
    ensures Harmless(t, runs, own, b)
  {
    assert Covers(runs, b, b);
  }

  /** What freeing the rest of a process did to the heap. */
  twostate predicate Released(h: Heap, own: set<nat>, argv: seq<u32>)
    reads h, h.table
  {
    && h.live == old(h.live) - own
    && (h.Valid() <==> forall i :: 0 <= i < |argv| ==> SafeAtEnd(h, old(h.table[..]), old(h.live), own, argv[i]))
    && (!h.Valid() ==> forall runs :: Keeps(old(h.live), own, runs) ==> !Encodes(h.table[..], runs))
  }

  method FreeRunsExact(h: Heap, p: Owner, argv: seq<u32>, ghost own: set<nat>)
    requires SpaceIn(h, p.space) && |p.space.blocks| == 1026 && p.chunk == h.BlockAddress(p.space.blocks[1025])
    requires KernelHolds(h, p) && own == BlockSet(p.space.blocks) + p.kept.Keys && own <= h.live.Keys
    modifies h, h.table
    ensures Released(h, own, argv)
  {
    assert p.image != NULL && p.stack != NULL && p.task != NULL;
    hide Encodes, Frame, KernelHolds, EndOrder, SafeAtEnd, Keeps, FreedAll;
    ghost var t, runs := h.table[..], h.live;
    FreeRuns(h, p, argv);
    EndExact(h, p, argv, t, runs, own);
    h.live := runs - own;
    assert Keeps(runs, own, runs - own) by {
      RestKeeps(runs, own);
    }
  }

  /** The end of `process_terminate`, once the allocations are gone. */
  method ReleaseRuns(h: Heap, p: Owner, argv: seq<u32>, ghost others: set<Owner>)
    requires Held(h, p, others) && KernelHolds(h, p)
    modifies h, h.table
    ensures Released(h, BlockSet(p.space.blocks) + p.kept.Keys, argv)
    ensures h.Valid() ==> forall q :: q in others ==> OwnerKept(h, q)
  {
    hide Encodes, Frame, PagesOk, SlotsOk, KernelHolds, SafeAtEnd, Keeps;
    ghost var runs, own := h.live, BlockSet(p.space.blocks) + p.kept.Keys;
    FreeRunsExact(h, p, argv, own);
    if h.Valid() {
      forall q | q in others ensures OwnerKept(h, q) {
        assert q.allocations[..] == old(q.allocations[..]);
        assert forall i :: 0 <= i < 1026 ==> q.space.blocks[i] in BlockSet(q.space.blocks);
        SlotsOkWithout(h, runs, q.allocations[..], q.space, q.kept, own);
        SameFlat(h, q.space, old(FlatOf(h, q.space)));
      }
    }
  }

  lemma RestKeeps(runs: Runs, own: set<nat>)
    ensures Keeps(runs, own, runs - own)
  {
  }

  lemma SlotsOkWithout(h: Heap, live: Runs, slots: seq<Allocation>, s: Space, kept: Runs, gone: set<nat>)
    requires SlotsOk(h, live, slots, s, kept) && gone !! Holdings(h, slots) + kept.Keys
    ensures SlotsOk(h, live - gone, slots, s, kept)
  {
    hide BlocksFor, Heap.AddressBlock, Heap.BlockAddress;
    forall i | 0 <= i < |slots| && slots[i].ptr != NULL ensures h.AddressBlock(slots[i].ptr) in Holdings(h, slots) {
    }
  }

  /** Dropping some runs first makes no difference to what is safe: a pointer into them, or into none, meets nothing
      afterwards. */
  lemma SafeAfterDrop(h: Heap, t0: seq<Entry>, runs0: Runs, t: seq<Entry>, held: set<nat>, own: set<nat>, ptr: u32)
    requires Encodes(t0, runs0) && Encodes(t, runs0 - held) && |t| == |t0| && held !! own
    ensures SafeAtEnd(h, t0, runs0, held + own, ptr) <==> SafeAtEnd(h, t, runs0 - held, own, ptr)
  {
    hide Heap.AddressBlock;
    var q := h.AddressBlock(ptr);
    var runs := runs0 - held;
    UnusedMeans(t0, runs0, q);
    UnusedMeans(t, runs, q);
    assert forall a :: Covers(runs, a, q) <==> Covers(runs0, a, q) && a !in held;
    if InRuns(runs0, held + own, q) {
      var a :| a in held + own && Covers(runs0, a, q);
      if a in held {
        forall c ensures !Covers(runs, c, q) {
          if Covers(runs, c, q) {
            RunsDisjoint(t0, runs0, a, c);
          }
        }
      } else {
        assert InRuns(runs, own, q);
      }
    }
    if InRuns(runs, own, q) {
      var a :| a in own && Covers(runs, a, q);
      assert InRuns(runs0, held + own, q);
    }
    if Unused(t, q) && !Unused(t0, q) {
      var a :| Covers(runs0, a, q);
      assert a in held && InRuns(runs0, held + own, q);
    }
  }

  lemma UnusedMeans(t: seq<Entry>, runs: Runs, q: nat)
    requires Encodes(t, runs)
    ensures Unused(t, q) <==> forall a :: !Covers(runs, a, q)
  {
    if forall a :: !Covers(runs, a, q) {
    } else {
      var a :| Covers(runs, a, q);
      assert t[q] == RunEntry(a, runs[a], q);
    }
  }

  /** `process_terminate` on memory, for any argument pointers at all: everything else that is live stays as it is if
      and only if each of them is safe. Then exactly what the process depends on goes and no other process is disturbed;
      otherwise no runs that include all the others fit the heap's table any more. */
  method EndMemory(h: Heap, p: Owner, argv: seq<u32>, ghost others: set<Owner>)
    requires ProcessOk(h, p) && KernelHolds(h, p) && AllOk(h, others) && AllApart(h, p, others)
    modifies h, h.table, h.memory, p.allocations
    ensures Released(h, old(Footprint(h, p)), argv)
    ensures h.Valid() ==> forall q :: q in others ==> OwnerKept(h, q)
    ensures OnlyBlocksChange(h, BlockSet(p.space.blocks))
  {
    hide Encodes, Frame, FlatOf, PagesOk, SlotOk, SafeAtEnd, KernelHolds, Keeps, Holdings, Heap.AddressBlock,
      Heap.BlockAddress;
    ghost var t, runs, held := h.table[..], h.live, Holdings(h, p.allocations[..]);
    ghost var own := BlockSet(p.space.blocks) + p.kept.Keys;
    HoldingsApart(h, p);
    ProcessTerminateAllocations(h, p, others);
    ghost var t1 := h.table[..];
    forall i | 0 <= i < |argv|
      ensures SafeAtEnd(h, t, runs, held + own, argv[i]) <==> SafeAtEnd(h, t1, runs - held, own, argv[i])
    {
      SafeAfterDrop(h, t, runs, t1, held, own, argv[i]);
    }
    ReleaseRuns(h, p, argv, others);
    forall rs | Keeps(runs, held + own, rs) ensures Keeps(runs - held, own, rs) {
      KeepsFewer(runs, held, own, rs);
    }
    assert held + own == old(Footprint(h, p));
  }

  lemma KeepsFewer(runs: Runs, held: set<nat>, own: set<nat>, rs: Runs)
    requires Keeps(runs, held + own, rs)
    ensures Keeps(runs - held, own, rs)
  {
  }

  lemma HoldingsApart(h: Heap, p: Owner)
    requires ProcessOk(h, p)
    ensures Holdings(h, p.allocations[..]) !! BlockSet(p.space.blocks) + p.kept.Keys
    ensures Holdings(h, p.allocations[..]) <= h.live.Keys
  {
    hide Encodes, FlatOf, PagesOk, SpaceIn, BlocksFor, Heap.AddressBlock, Heap.BlockAddress;
    var slots := p.allocations[..];
    forall b | b in Holdings(h, slots) ensures b !in p.space.blocks && b !in p.kept && b in h.live {
      var k :| 0 <= k < |slots| && slots[k].ptr != NULL && b == h.AddressBlock(slots[k].ptr);
      assert SlotOk(h, h.live, slots[k], p.space, p.kept);
    }
  }

  // ----- building a process

  /** `paging_new_4gb_chunk` disturbs no process. */
  method NewChunkFramed(h: Heap, flag: u32, ghost procs: set<Owner>) returns (chunk: u32, ghost s: Space)
    requires h.Valid() && AllOk(h, procs) && flag < 256 && |FreeBlocks(h.table[..])| >= 1026
    modifies h, h.table, h.memory
    ensures h.Valid() && SpaceIn(h, s) && |s.blocks| == 1026 && chunk == h.BlockAddress(s.blocks[1025])
    ensures FlatOf(h, s) == IdentityMap(flag) && (flag == PRESENT + ACCESS_FROM_ALL ==> OpenDirectory(s))
    ensures BlockSet(s.blocks) !! old(h.live).Keys && h.live == old(h.live) + SingleRuns(s.blocks)
    ensures h.table[..] == TakeAll(old(h.table[..]), SpaceSizes())
    ensures OnlyBlocksChange(h, BlockSet(s.blocks))
    ensures forall q :: q in procs ==> OwnerKept(h, q)
  {
    hide Encodes, Frame, FreeBlocks, SlotsOk, PagesOk, IdentityMap, TakeAll, SpaceSizes, IdentityReach;
    ghost var runs := h.live;
    chunk, s := PagingNew4gbChunk(h, flag);
    forall q | q in procs ensures OwnerKept(h, q) {
      assert q.allocations[..] == old(q.allocations[..]);
      forall i | 0 <= i < 1026
        ensures q.space.blocks[i] in h.live && h.live[q.space.blocks[i]] == 1
          && q.space.blocks[i] !in BlockSet(s.blocks)
      {
        assert q.space.blocks[i] in runs;
      }
      SameFlat(h, q.space, old(FlatOf(h, q.space)));
      SlotsOkExtend(h, runs, SingleRuns(s.blocks), q.allocations[..], q.space, q.kept);
    }
  }

  lemma SlotsOkExtend(h: Heap, live: Runs, more: Runs, slots: seq<Allocation>, s: Space, kept: Runs)
    requires SlotsOk(h, live, slots, s, kept) && live.Keys !! more.Keys
    ensures SlotsOk(h, live + more, slots, s, kept)
  {
    hide BlocksFor, Heap.AddressBlock, Heap.BlockAddress;
  }

  /** `process_map_elf` disturbs no other process. */
  method MapElfFramed(h: Heap, p: Owner, file: ElfFile, phdrs: seq<Phdr>, ghost others: set<Owner>) returns (res: i32)
    requires Held(h, p, others) && file.elfMemory == p.image
    modifies h.memory
    ensures h.Valid() && Held(h, p, others)
    ensures res == if ElfSucceeds(p.image, phdrs) then OK else EINVAGS
    ensures FlatOf(h, p.space) == ElfPages(old(FlatOf(h, p.space)), p.image, phdrs)
    ensures OnlyBlocksChange(h, BlockSet(p.space.blocks))
    ensures forall q :: q in others ==> OwnerKept(h, q)
  {
    hide Encodes, Frame, PagesOk, SlotsOk, ElfPages, ElfSucceeds;
    ghost var s := p.space;
    res := ProcessMapElf(h, p.chunk, file, phdrs, s);
    forall i | IsTable(s, i) ensures i in BlockSet(s.blocks) {
    }
    forall q | q in others ensures OwnerKept(h, q) {
      forall i | 0 <= i < 1026 ensures q.space.blocks[i] in BlockSet(q.space.blocks) && !IsTable(s, q.space.blocks[i]) {
      }
      assert q.allocations[..] == old(q.allocations[..]);
      SameFlat(h, q.space, old(FlatOf(h, q.space)));
    }
  }

  /** One `paging_map_to` while a process is under construction. */
  method MapHeld(h: Heap, p: Owner, virt: u32, phys: u32, physEnd: u32, ghost others: set<Owner>) returns (res: i32)
    requires Held(h, p, others)
    modifies h.memory
    ensures h.Valid() && Held(h, p, others)
    ensures res == if MapToSucceeds(virt, phys, physEnd) then OK else EINVAGS
    ensures FlatOf(h, p.space) == MapToPages(old(FlatOf(h, p.space)), virt, phys, physEnd, USER_PAGE)
    ensures OnlyBlocksChange(h, BlockSet(p.space.blocks))
    ensures forall q :: q in others ==> OwnerKept(h, q)
  {
    hide Encodes, Frame, FlatOf, ProcessOk, Holdings, MapToPages, MapToSucceeds;
    forall q | q in others ensures BlockSet(q.space.blocks) !! BlockSet(p.space.blocks) {
      assert BlockSet(q.space.blocks) <= Footprint(h, q);
    }
    res := MapToFramed(h, p, virt, phys, physEnd, USER_PAGE, others);
    assert forall q :: q in others ==> Footprint(h, q) == old(Footprint(h, q)) by {
      assert forall q :: q in others ==> OwnerKept(h, q);
    }
  }

  /** `process_map_memory`: the image, and then the stack, whose own result is ignored. */
  method MapProgram(h: Heap, p: Owner, program: Program, file: ElfFile?, ghost others: set<Owner>) returns (res: i32)
    requires Held(h, p, others) && (program.Elf? ==> file != null && file.elfMemory == p.image)
    modifies h.memory
    ensures h.Valid() && Held(h, p, others)
    ensures res == if ImageMaps(p.image, program) then OK else EINVAGS
    ensures FlatOf(h, p.space) ==
      if ImageMaps(p.image, program) then StackPages(ImagePages(old(FlatOf(h, p.space)), p.image, program), p.stack)
      else ImagePages(old(FlatOf(h, p.space)), p.image, program)
    ensures OnlyBlocksChange(h, BlockSet(p.space.blocks))
    ensures forall q :: q in others ==> OwnerKept(h, q)
  {
    hide SpaceIn, FlatOf, ProcessOk, MapToPages, MapToSucceeds, ElfPages, ElfSucceeds, AlignUp, Add32;
    match program {
      case Elf(_, phdrs, _) => res := MapElfFramed(h, p, file, phdrs, others);
      case Binary(size, _) =>
        res := MapHeld(h, p, KERNEL_PROGRAM_VIRTUAL_ADDRESS, p.image, AlignUp(Add32(p.image, size)), others);
    }
    if res >= 0 {
      var _ := MapHeld(h, p, KERNEL_PROGRAM_VIRTUAL_STACK_ADDRESS_END, p.stack,
        AlignUp(Add32(p.stack, KERNEL_USER_PROGRAM_STACK_SIZE)), others);
    }
  }

  /** The live set is these runs and what the process depends on, which they do not share. */
  ghost predicate Accounts(h: Heap, runs: Runs, footprint: set<nat>)
    reads h
  {
    && h.live.Keys == runs.Keys + footprint && runs.Keys !! footprint
    && forall b :: b in runs ==> h.live[b] == runs[b]
  }

  /** What the kernel holds for a new process, in the order it was taken. */
  ghost function HeldTrail(program: Program, record: u32, image: u32, stack: u32, task: u32): seq<Allocation> {
    Record(record) + [Allocation(image, program.size)] + [Allocation(stack, KERNEL_USER_PROGRAM_STACK_SIZE)]
    + [Allocation(task, THREAD_INFO_SIZE)]
  }

  /** The whole trail of a load that has come as far as its task, and what of it stays when the process is gone. */
  ghost function FullTrail(
    program: Program, desc: u32, record: u32, left: seq<Allocation>, image: u32, stack: u32,
      task: u32): seq<Allocation> {
    [Allocation(desc, TASK_STRUCT_SIZE)] + Record(record) + left + [Allocation(image, program.size)]
    + [Allocation(stack, KERNEL_USER_PROGRAM_STACK_SIZE)] + [Allocation(task, THREAD_INFO_SIZE)]
  }

  ghost function StayTrail(desc: u32, left: seq<Allocation>): seq<Allocation> {
    [Allocation(desc, TASK_STRUCT_SIZE)] + left
  }

  lemma TrailSplits(
    h: Heap, base: Runs, live: Runs, program: Program, desc: u32, record: u32, left: seq<Allocation>, image: u32,
    stack: u32, task: u32)
    requires Trail(h, base, FullTrail(program, desc, record, left, image, stack, task), live)
    ensures var held := TrailBlocks(h, HeldTrail(program, record, image, stack, task));
      && held <= live.Keys && held !! base.Keys && Trail(h, base, StayTrail(desc, left), live - held)
    ensures AllocAt(h, live, Allocation(image, program.size)) && AllocAt(h, live, Allocation(task, THREAD_INFO_SIZE))
    ensures AllocAt(h, live, Allocation(stack, KERNEL_USER_PROGRAM_STACK_SIZE))
    ensures h.AddressBlock(image) != h.AddressBlock(stack) && image != NULL && stack != NULL && task != NULL
    ensures h.AddressBlock(task) !in {h.AddressBlock(image), h.AddressBlock(stack)}
    ensures record != NULL ==>
      h.AddressBlock(record) !in {h.AddressBlock(image), h.AddressBlock(stack), h.AddressBlock(task)}
  {
    hide Trail, AllocAt, TrailBlocks, BlocksFor, Heap.AddressBlock, Heap.BlockAddress;
    var d, img := [Allocation(desc, TASK_STRUCT_SIZE)], Allocation(image, program.size);
    var stk, thr := Allocation(stack, KERNEL_USER_PROGRAM_STACK_SIZE), Allocation(task, THREAD_INFO_SIZE);
    var front := d + Record(record) + left;
    var t, i, k, r := h.AddressBlock(task), h.AddressBlock(image), h.AddressBlock(stack), h.AddressBlock(record);
    var full := FullTrail(program, desc, record, left, image, stack, task);
    assert full == front + [img] + [stk] + [thr] + [];
    TrailShrinks(h, base, front + [img] + [stk], thr, [], live);
    assert front + [img] + [stk] + [] == front + [img] + [stk] + [] && front + [img] + [] == front + [img] + [];
    TrailShrinks(h, base, front + [img], stk, [], live - {t});
    TrailShrinks(h, base, front, img, [], live - {t} - {k});
    assert front + [] == front;
    AllocMeans(h, live - {t}, stk);
    AllocMeans(h, live - {t} - {k}, img);
    TrailHas(h, base, full, live, img);
    TrailHas(h, base, full, live, stk);
    TrailHas(h, base, full, live, thr);
    HeldBlocks(h, program, record, image, stack, task);
    var held := TrailBlocks(h, HeldTrail(program, record, image, stack, task));
    if record == NULL {
      assert front == StayTrail(desc, left);
      assert live - {t} - {k} - {i} == live - held;
    } else {
      var rec := Allocation(record, ELF_FILE_SIZE);
      assert front == d + [rec] + left;
      TrailShrinks(h, base, d, rec, left, live - {t} - {k} - {i});
      AllocMeans(h, live - {t} - {k} - {i}, rec);
      TrailHas(h, base, full, live, rec);
      assert live - {t} - {k} - {i} - {r} == live - held;
    }
  }

  lemma HeldBlocks(h: Heap, program: Program, record: u32, image: u32, stack: u32, task: u32)
    ensures TrailBlocks(h, HeldTrail(program, record, image, stack, task)) ==
      {h.AddressBlock(image), h.AddressBlock(stack), h.AddressBlock(task)}
      + (if record == NULL then {} else {h.AddressBlock(record)})
  {
    hide Heap.AddressBlock;
    var img, stk := Allocation(image, program.size), Allocation(stack, KERNEL_USER_PROGRAM_STACK_SIZE);
    var thr := Allocation(task, THREAD_INFO_SIZE);
    OnlyBlocks(h, img);
    OnlyBlocks(h, stk);
    OnlyBlocks(h, thr);
    OnlyBlocks(h, Allocation(record, ELF_FILE_SIZE));
    TrailBlocksJoin(h, Record(record), [img]);
    TrailBlocksJoin(h, Record(record) + [img], [stk]);
    TrailBlocksJoin(h, Record(record) + [img] + [stk], [thr]);
  }

  lemma AllocMeans(h: Heap, live: Runs, a: Allocation)
    requires AllocAt(h, live, a)
    ensures h.AddressBlock(a.ptr) in live
  {
  }

  lemma TrailHas(h: Heap, base: Runs, trail: seq<Allocation>, live: Runs, a: Allocation)
    requires Trail(h, base, trail, live) && a in trail
    ensures AllocAt(h, live, a) && h.AddressBlock(a.ptr) !in base && h.AddressBlock(a.ptr) in live && a.ptr != NULL
  {
    hide BlocksFor, Heap.AddressBlock, Heap.BlockAddress, DifferentBlocks;
    assert h.AddressBlock(a.ptr) in TrailBlocks(h, trail);
  }

  lemma OnlyBlocks(h: Heap, a: Allocation)
    ensures TrailBlocks(h, [a]) == {h.AddressBlock(a.ptr)} && TrailBlocks(h, []) == {}
  {
    hide Heap.AddressBlock;
  }

  // ----- loading

  ghost function StackAlloc(stack: u32): seq<Allocation> {
    if stack == NULL then [] else [Allocation(stack, KERNEL_USER_PROGRAM_STACK_SIZE)]
  }

  /** The end of a load that failed before it had a task: image, record, stack and descriptor are given back. */
  method GiveUp(
    h: Heap, program: Program, desc: u32, record: u32, image: u32, stack: u32, ghost base: Runs,
    ghost left: seq<Allocation>, ghost procs: set<Owner>)
    requires Loading(h, base, StayTrail(desc, []) + Record(record) + left + [Allocation(image, program.size)]
      + StackAlloc(stack), procs)
    requires AllOk(h, procs)
    modifies h, h.table
    ensures Loading(h, base, left, procs) && forall q :: q in procs ==> OwnerKept(h, q)
  {
    hide Loading, ProcessOk, FlatOf;
    ghost var d, rec, stk := Allocation(desc, TASK_STRUCT_SIZE), Record(record), StackAlloc(stack);
    assert StayTrail(desc, []) == [d];
    Kfree(h, image, base, [d] + rec + left, Allocation(image, program.size), stk, procs);
    if record != NULL {
      assert [d] + rec + left + stk == [d] + [Allocation(record, ELF_FILE_SIZE)] + (left + stk);
      Kfree(h, record, base, [d], Allocation(record, ELF_FILE_SIZE), left + stk, procs);
      assert [d] + (left + stk) == [d] + left + stk;
    } else {
      assert [d] + rec + left + stk == [d] + left + stk;
    }
    if stack != NULL {
      assert [d] + left + stk == ([d] + left) + stk + [];
      Kfree(h, stack, base, [d] + left, stk[0], [], procs);
    }
    assert [d] + left + [] == [] + [d] + left && [] + left == left && [d] + left + [] == [d] + left;
    Kfree(h, desc, base, [], d, left, procs);
  }

  /** The table with the descriptor taken, and with everything up to the task. */
  function WithDescriptor(t: seq<Entry>): seq<Entry> {
    Take(t, TASK_STRUCT_SIZE)
  }

  /** What a load takes once it has its image. */
  const LAST_SIZES: seq<u32> := [KERNEL_USER_PROGRAM_STACK_SIZE, THREAD_INFO_SIZE]

  function WithTask(t: seq<Entry>, program: Program): seq<Entry> {
    TakeAll(TableRead(WithDescriptor(t), program), LAST_SIZES)
  }

  /** Whether a load finds everything up to its task. */
  ghost predicate RunsFit(t: seq<Entry>, program: Program) {
    && !NoRoom(t, BlocksFor(TASK_STRUCT_SIZE)) && Reads(WithDescriptor(t), program)
    && AllFit(TableRead(WithDescriptor(t), program), LAST_SIZES)
  }

  /** What a load that is refused with a descriptor loses: what a file that is not read loses, or all that a loaded file
      does. */
  ghost function RefusalLoss(t: seq<Entry>, program: Program): seq<u32> {
    if Reads(WithDescriptor(t), program) then FileLoss(program) else ReadLoss(WithDescriptor(t), program)
  }

  /** `process_load_for_slot` up to and with `task_new`'s `kzalloc`: descriptor, file, stack and task if they all fit,
      or an error and only what reading the file lost. */
  method LoadRuns(h: Heap, program: Program, ghost base: Runs, ghost procs: set<Owner>)
    returns (
      res: i32, desc: u32, record: u32, image: u32, stack: u32, task: u32, file: ElfFile?, ghost left: seq<Allocation>)
    requires Loading(h, base, [], procs) && AllOk(h, procs)
    modifies h, h.table, h.memory
    ensures res <= OK && (res == OK <==> RunsFit(old(h.table[..]), program))
    ensures res == OK ==> (program.Elf? <==> record != NULL) && (program.Elf? ==> AllLoad(program.phdrs))
    ensures res == OK ==>
      && h.table[..] == WithTask(old(h.table[..]), program)
      && image == h.BlockAddress(ImagePlace(WithDescriptor(old(h.table[..])), program))
    ensures res == OK && program.Elf? ==> file != null && fresh(file) && file.elfMemory == image
    ensures res == OK ==> Sizes(left) == FileLoss(program)
    ensures res == OK ==> Loading(h, base, FullTrail(program, desc, record, left, image, stack, task), procs)
    ensures res != OK ==> Loading(h, base, left, procs)
    ensures desc == NULL <==> NoRoom(old(h.table[..]), BlocksFor(TASK_STRUCT_SIZE))
    ensures desc == NULL ==> res == ENOMEM && left == []
    ensures desc != NULL && res != OK ==> Sizes(left) == RefusalLoss(old(h.table[..]), program)
    ensures RowsKept(h, base) && forall q :: q in procs ==> OwnerKept(h, q)
  {
    hide Loading, ProcessOk, FlatOf, FileLoss, ReadLoss, AllLoad, Take, TakeAll, AllFit, NoRoom, BlocksFor, TableRead,
      ImagePlace, FirstReads, AfterFirst, FirstReading, SecondReading, Heap.BlockAddress;
    record, image, stack, task, file, left := NULL, NULL, NULL, NULL, null, [];
    ghost var trail;
    desc, trail := Kzalloc(h, TASK_STRUCT_SIZE, base, [], procs);
    if desc == NULL {
      return ENOMEM, desc, record, image, stack, task, file, left;
    }
    ghost var d := Allocation(desc, TASK_STRUCT_SIZE);
    assert [] + [d] == [d];
    res, record, image, file, left := LoadData(h, program, base, [d], procs);
    if res != OK {
      assert [d] + left == [] + [d] + left && [] + left == left;
      Kfree(h, desc, base, [], d, left, procs);
      return;
    }
    assert StayTrail(desc, []) == [d];
    res, stack, task := TakeStackAndTask(h, program, desc, record, image, base, left, procs);
  }

  lemma LastInParts(t: seq<Entry>)
    ensures var t' := Take(t, KERNEL_USER_PROGRAM_STACK_SIZE);
      && TakeAll(t, LAST_SIZES) == Take(t', THREAD_INFO_SIZE)
      && (AllFit(t, LAST_SIZES)
        <==> !NoRoom(t, BlocksFor(KERNEL_USER_PROGRAM_STACK_SIZE)) && !NoRoom(t', BlocksFor(THREAD_INFO_SIZE)))
  {
    hide Take, TakeAll, AllFit, Places, NoRoom, BlocksFor;
    var stack: seq<u32> := [KERNEL_USER_PROGRAM_STACK_SIZE];
    assert [] + stack == stack && LAST_SIZES == stack + [THREAD_INFO_SIZE];
    TakeNone(t);
    TakeNext(t, [], KERNEL_USER_PROGRAM_STACK_SIZE);
    TakeNext(t, stack, THREAD_INFO_SIZE);
  }

  lemma FullIsGrown(
    program: Program, desc: u32, record: u32, left: seq<Allocation>, image: u32, stack: u32, task: u32)
    requires stack != NULL
    ensures FullTrail(program, desc, record, left, image, stack, task) ==
      StayTrail(desc, []) + Record(record) + left + [Allocation(image, program.size)] + StackAlloc(stack)
      + [Allocation(task, THREAD_INFO_SIZE)]
  {
  }

  /** The stack and the task's own block, or everything but what the file lost is given back. */
  method TakeStackAndTask(
    h: Heap, program: Program, desc: u32, record: u32, image: u32, ghost base: Runs, ghost left: seq<Allocation>,
    ghost procs: set<Owner>)
    returns (res: i32, stack: u32, task: u32)
    requires Loading(h, base, StayTrail(desc, []) + Record(record) + left + [Allocation(image, program.size)], procs)
    requires AllOk(h, procs)
    modifies h, h.table, h.memory
    ensures res == OK || res == ENOMEM
    ensures res == OK <==> AllFit(old(h.table[..]), LAST_SIZES)
    ensures res == OK ==> h.table[..] == TakeAll(old(h.table[..]), LAST_SIZES)
    ensures res == OK ==> Loading(h, base, FullTrail(program, desc, record, left, image, stack, task), procs)
    ensures res != OK ==> Loading(h, base, left, procs)
    ensures RowsKept(h, base) && forall q :: q in procs ==> OwnerKept(h, q)
  {
    hide Loading, ProcessOk, FlatOf, FullTrail, StayTrail, Record, Take, TakeAll, AllFit, NoRoom, BlocksFor;
    LastInParts(h.table[..]);
    ghost var data, grown := StayTrail(desc, []) + Record(record) + left + [Allocation(image, program.size)], [];
    task := NULL;
    stack, grown := Kzalloc(h, KERNEL_USER_PROGRAM_STACK_SIZE, base, data, procs);
    assert grown == data + StackAlloc(stack);
    if stack != NULL {
      task, grown := Kzalloc(h, THREAD_INFO_SIZE, base, data + StackAlloc(stack), procs);
    }
    if task == NULL {
      GiveUp(h, program, desc, record, image, stack, base, left, procs);
      res := ENOMEM;
    } else {
      res := OK;
      FullIsGrown(program, desc, record, left, image, stack, task);
    }
  }

  /** The runs of these blocks among the live ones. */
  ghost function RunsOf(live: Runs, blocks: set<nat>): Runs
    requires blocks <= live.Keys
  {
    map b | b in blocks :: live[b]
  }

  /** No row of these tables is a block of these runs. */
  ghost predicate TablesApart(runs: Runs, tables: set<nat>) {
    forall b: nat, r: nat :: Covers(runs, b, r) ==> r !in tables
  }

  lemma NewTablesApart(h: Heap, base: Runs, runs: Runs, blocks: seq<nat>)
    requires h.Valid() && h.live == runs + SingleRuns(blocks) && BlockSet(blocks) !! runs.Keys
    requires forall b :: b in base ==> b in runs && runs[b] == base[b]
    ensures TablesApart(base, BlockSet(blocks))
  {
    hide Encodes;
    forall b: nat, r: nat | Covers(base, b, r) ensures r !in BlockSet(blocks) {
      assert b in h.live && h.live[b] == base[b];
      if r in BlockSet(blocks) {
        h.LiveRunsApart(b, r);
      }
    }
  }

  /** `task_init`'s address space, for the runs that a load has taken. */
  method BuildSpace(
    h: Heap, program: Program, record: u32, image: u32, stack: u32, task: u32, ghost base: Runs, ghost stay: Runs,
    ghost held: set<nat>, ghost procs: set<Owner>)
    returns (p: Owner)
    requires h.Valid() && AllOk(h, procs) && held <= h.live.Keys && stay == h.live - held && base.Keys <= stay.Keys
    requires (forall q :: q in procs ==> Footprint(h, q) <= base.Keys) && forall b :: b in base ==> stay[b] == base[b]
    requires held == TrailBlocks(h, HeldTrail(program, record, image, stack, task))
    requires image != NULL && stack != NULL && task != NULL && |FreeBlocks(h.table[..])| >= 1026
    requires h.AddressBlock(task) !in {h.AddressBlock(image), h.AddressBlock(stack)}
    requires record != NULL ==>
      h.AddressBlock(record) !in {h.AddressBlock(image), h.AddressBlock(stack), h.AddressBlock(task)}
    modifies h, h.table, h.memory
    ensures fresh(p) && fresh(p.allocations) && p.allocations.Length == KERNEL_MAX_PROGRAM_ALLOCATIONS
    ensures forall i :: 0 <= i < p.allocations.Length ==> p.allocations[i] == Allocation(NULL, 0)
    ensures p.image == image && p.stack == stack && p.task == task && p.file == record
    ensures p.kept == RunsOf(old(h.live), held) && p.reach == ProgramReach(h, image, stack, program)
    ensures Held(h, p, procs) && KernelHolds(h, p) && Accounts(h, stay, BlockSet(p.space.blocks) + p.kept.Keys)
    ensures FlatOf(h, p.space) == IdentityMap(PRESENT + ACCESS_FROM_ALL)
    ensures h.table[..] == TakeAll(old(h.table[..]), SpaceSizes())
    ensures OnlyBlocksChange(h, BlockSet(p.space.blocks)) && TablesApart(base, BlockSet(p.space.blocks))
    ensures forall q :: q in procs ==> OwnerKept(h, q)
  {
    hide Encodes, Frame, FreeBlocks, SpaceIn, FlatOf, ProcessOk, Holdings, TablesApart, IdentityMap, HeldTrail,
      TrailBlocks, KernelHolds, Clear, BlocksFor, TakeAll, SpaceSizes, OpenDirectory,
      OnlyBlocksChange, ProgramReach, Heap.Valid, Heap.BlockAddress, Heap.AddressBlock;
    ghost var before := h.live;
    var chunk, s := NewChunkFramed(h, PRESENT + ACCESS_FROM_ALL, procs);
    assert SingleRuns(s.blocks).Keys == BlockSet(s.blocks);
    NewTablesApart(h, base, before, s.blocks);
    p := new Owner(
      chunk, image, stack, task, record, s, RunsOf(before, held), ProgramReach(h, image, stack, program));
    HeldBlocks(h, program, record, image, stack, task);
    NewHolds(h, p, program, held);
    assert forall q :: q in procs ==> Footprint(h, q) == old(Footprint(h, q)) by {
      assert forall q :: q in procs ==> OwnerKept(h, q);
    }
    assert forall b :: b in held ==> b in before && b !in BlockSet(s.blocks) && b !in s.blocks;
  }

  lemma NewHolds(h: Heap, p: Owner, program: Program, held: set<nat>)
    requires p.image != NULL && p.stack != NULL && p.task != NULL && p.kept.Keys == held
    requires held == {h.AddressBlock(p.image), h.AddressBlock(p.stack), h.AddressBlock(p.task)}
      + (if p.file == NULL then {} else {h.AddressBlock(p.file)})
    requires p.reach == ProgramReach(h, p.image, p.stack, program)
    requires h.AddressBlock(p.task) !in {h.AddressBlock(p.image), h.AddressBlock(p.stack)}
    requires p.file != NULL ==>
      h.AddressBlock(p.file) !in {h.AddressBlock(p.image), h.AddressBlock(p.stack), h.AddressBlock(p.task)}
    ensures KernelHolds(h, p)
  {
    hide Heap.AddressBlock;
  }

  /** Every slot is free. */
  ghost predicate AllEmpty(slots: seq<Allocation>) {
    |slots| == KERNEL_MAX_PROGRAM_ALLOCATIONS && forall i :: 0 <= i < |slots| ==> slots[i].ptr == NULL
  }

  /** A segment as its program finds it: the image's bytes at p_vaddr, and writable exactly when bit 1 of p_flags is
      set. */
  ghost predicate SegmentInPlace(h: Heap, p: Owner, phdr: Phdr)
    reads h.memory
  {
    forall va: u32 :: phdr.pVaddr <= va < phdr.pVaddr + phdr.pMemsz ==>
      && ReachesInto(h, p, phdr.pVaddr, Add32(p.image, phdr.pOffset), false, va)
      && (ReachesInto(h, p, phdr.pVaddr, Add32(p.image, phdr.pOffset), true, va) <==> Bit(phdr.pFlags, 1))
  }

  /** What a program finds when it starts: its stack of 16 KB below 0x3FF000; a flat binary at 0x400000, every segment
      of a well laid out ELF image at its address. */
  ghost predicate ProgramInPlace(h: Heap, p: Owner, program: Program)
    reads h.memory
  {
    && RangeReaches(h, p, 0x3F_B000, p.stack, 0x4000)
    && match program
       case Binary(size, _) => RangeReaches(h, p, 0x40_0000, p.image, size)
       case Elf(_, phdrs, _) =>
         WellLaidOut(p.image, phdrs) ==> forall i :: 0 <= i < |phdrs| ==> SegmentInPlace(h, p, phdrs[i])
  }

  /** What a successful load gives: a well-formed process beside the others, holding nothing but what it was built from,
      with the pages of its program mapped, besides the runs that stay when it is gone. */
  ghost predicate NewProcess(h: Heap, p: Owner, program: Program, stay: Runs, others: set<Owner>)
    reads h, h.table, h.memory, p.allocations, set q | q in others :: q.allocations
  {
    && ProcessOk(h, p) && AllApart(h, p, others) && KernelHolds(h, p)
    && p.reach == ProgramReach(h, p.image, p.stack, program) && ProgramInPlace(h, p, program)
    && AllEmpty(p.allocations[..]) && Accounts(h, stay, Footprint(h, p))
    && FlatOf(h, p.space) == StackPages(ImagePages(IdentityMap(PRESENT + ACCESS_FROM_ALL), p.image, program), p.stack)
  }

  lemma IdentityLength()
    ensures |IdentityMap(PRESENT + ACCESS_FROM_ALL)| == PAGES
  {
  }

  lemma RunFits(h: Heap, ptr: u32, n: nat)
    requires h.Region() && RunAt(h, ptr, n)
    ensures ptr % PAGE_SIZE == 0 && ptr + n * PAGE_SIZE < TWO32
  {
    h.BlockAddressRoundTrip(h.AddressBlock(ptr));
  }

  /** How long the page map of a program is, whatever its headers. */
  lemma {:induction false} ElfLength(pages: Flat, image: u32, phdrs: seq<Phdr>)
    ensures |ElfPages(pages, image, phdrs)| == |pages|
    decreases |phdrs|
  {
    hide SegSucceeds, MapToPages, SegPhysEnd, SegPhys, SegVirt, SegFlags;
    if phdrs != [] {
      MapToLength(pages, SegVirt(phdrs[0]), SegPhys(image, phdrs[0]), SegPhysEnd(image, phdrs[0]), SegFlags(phdrs[0]));
      ElfLength(SegPages(pages, image, phdrs[0]), image, phdrs[1..]);
    }
  }

  /** The stack of a program that has been mapped. */
  lemma StackInPlace(h: Heap, p: Owner, pages: Flat)
    requires SpaceIn(h, p.space) && |p.space.blocks| == 1026 && p.chunk == h.BlockAddress(p.space.blocks[1025])
    requires OpenDirectory(p.space) && |pages| == PAGES && FlatOf(h, p.space) == StackPages(pages, p.stack)
    requires RunAt(h, p.stack, STACK_BLOCKS)
    ensures RangeReaches(h, p, 0x3F_B000, p.stack, 0x4000)
  {
    hide FlatOf, StackPages, GoesTo, UserReaches, OpenDirectory;
    RunFits(h, p.stack, STACK_BLOCKS);
    forall va: u32 | 0x3F_B000 <= va < 0x3F_F000 ensures ReachesInto(h, p, 0x3F_B000, p.stack, true, va) {
      StackGoesTo(pages, p.stack, va);
      UserWalksFlat(h, p, va, true, p.stack + (va - 0x3F_B000));
    }
  }

  /** A flat binary that has been mapped. */
  lemma BinaryInPlace(h: Heap, p: Owner, pages: Flat, program: Program)
    requires SpaceIn(h, p.space) && |p.space.blocks| == 1026 && p.chunk == h.BlockAddress(p.space.blocks[1025])
    requires OpenDirectory(p.space) && |pages| == PAGES && program.Binary? && ImageMaps(p.image, program)
    requires FlatOf(h, p.space) == StackPages(ImagePages(pages, p.image, program), p.stack)
    requires RunAt(h, p.image, BlocksFor(program.size)) && RunAt(h, p.stack, STACK_BLOCKS)
    ensures RangeReaches(h, p, 0x40_0000, p.image, program.size)
  {
    hide FlatOf, StackPages, ImagePages, GoesTo, UserReaches, OpenDirectory, ImageMaps, BlocksFor;
    RunFits(h, p.image, BlocksFor(program.size));
    RunFits(h, p.stack, STACK_BLOCKS);
    BinarySizeFits(p.image, program);
    forall va: u32 | 0x40_0000 <= va < 0x40_0000 + program.size
      ensures ReachesInto(h, p, 0x40_0000, p.image, true, va)
    {
      BinaryGoesTo(pages, p.image, p.stack, program, va);
      UserWalksFlat(h, p, va, true, p.image + (va - 0x40_0000));
    }
  }

  lemma BinarySizeFits(image: u32, program: Program)
    requires program.Binary? && ImageMaps(image, program) && image % PAGE_SIZE == 0 && BlocksFor(program.size) > 0
    requires image + BlocksFor(program.size) * PAGE_SIZE < TWO32
    ensures 0x40_0000 + program.size <= TWO32
  {
    hide BlocksFor, AlignUp, Add32;
    BlocksHoldSize(program.size);
    RunEnd(image, program.size);
  }

  /** A segment of a well laid out ELF image that has been mapped. */
  lemma ElfSegmentInPlace(h: Heap, p: Owner, pages: Flat, phdrs: seq<Phdr>, i: nat)
    requires SpaceIn(h, p.space) && |p.space.blocks| == 1026 && p.chunk == h.BlockAddress(p.space.blocks[1025])
    requires OpenDirectory(p.space) && |pages| == PAGES && ElfSucceeds(p.image, phdrs) && WellLaidOut(p.image, phdrs)
    requires FlatOf(h, p.space) == StackPages(ElfPages(pages, p.image, phdrs), p.stack)
    requires RunAt(h, p.stack, STACK_BLOCKS) && i < |phdrs|
    ensures SegmentInPlace(h, p, phdrs[i])
  {
    hide FlatOf, StackPages, ElfPages, GoesTo, UserReaches, OpenDirectory, ElfSucceeds, SegmentsDisjoint,
      ApartFromStack, Bit;
    RunFits(h, p.stack, STACK_BLOCKS);
    var phdr := phdrs[i];
    assert NoOverflow(p.image, phdr);
    var to := Add32(p.image, phdr.pOffset);
    assert to == p.image + phdr.pOffset;
    forall va: u32 | phdr.pVaddr <= va < phdr.pVaddr + phdr.pMemsz
      ensures ReachesInto(h, p, phdr.pVaddr, to, false, va)
      ensures ReachesInto(h, p, phdr.pVaddr, to, true, va) <==> Bit(phdr.pFlags, 1)
    {
      ElfGoesTo(pages, p.image, p.stack, phdrs, i, va - phdr.pVaddr);
      UserWalksFlat(h, p, va, false, to + (va - phdr.pVaddr));
      UserWalksFlat(h, p, va, true, to + (va - phdr.pVaddr));
    }
  }

  /** A program that has been mapped, with its stack on top, is in place. */
  lemma MappedInPlace(h: Heap, p: Owner, program: Program)
    requires SpaceIn(h, p.space) && |p.space.blocks| == 1026 && p.chunk == h.BlockAddress(p.space.blocks[1025])
    requires OpenDirectory(p.space) && ImageMaps(p.image, program)
    requires RunAt(h, p.image, BlocksFor(program.size)) && RunAt(h, p.stack, STACK_BLOCKS)
    requires FlatOf(h, p.space) ==
      StackPages(ImagePages(IdentityMap(PRESENT + ACCESS_FROM_ALL), p.image, program), p.stack)
    ensures ProgramInPlace(h, p, program)
  {
    hide SpaceIn, FlatOf, IdentityMap, ElfPages, MapToPages, StackPages, BlocksFor, UserReaches, ElfSucceeds,
      WellLaidOut, RangeReaches, OpenDirectory, Bit, RunAt, Heap.BlockAddress, Heap.AddressBlock;
    var pages := IdentityMap(PRESENT + ACCESS_FROM_ALL);
    IdentityLength();
    match program {
      case Binary(size, _) =>
        MapToLength(pages, KERNEL_PROGRAM_VIRTUAL_ADDRESS, p.image, AlignUp(Add32(p.image, size)), USER_PAGE);
        StackInPlace(h, p, ImagePages(pages, p.image, program));
        BinaryInPlace(h, p, pages, program);
      case Elf(_, phdrs, _) =>
        ElfLength(pages, p.image, phdrs);
        StackInPlace(h, p, ElfPages(pages, p.image, phdrs));
        forall i | 0 <= i < |phdrs| && WellLaidOut(p.image, phdrs) ensures SegmentInPlace(h, p, phdrs[i]) {
          ElfSegmentInPlace(h, p, pages, phdrs, i);
        }
    }
  }

  /** A process just mapped, with nothing allocated yet, is well formed. */
  lemma NewProcessOk(h: Heap, p: Owner, program: Program, live: Runs)
    requires SpaceIn(h, p.space) && |p.space.blocks| == 1026 && p.chunk == h.BlockAddress(p.space.blocks[1025])
    requires forall b :: b in p.kept ==> b in h.live && h.live[b] == p.kept[b] && b !in p.space.blocks
    requires OpenDirectory(p.space) && KernelHolds(h, p) && Contained(program) && ImageMaps(p.image, program)
    requires p.reach == ProgramReach(h, p.image, p.stack, program)
    requires forall b :: b in p.kept ==> b in live && live[b] == p.kept[b]
    requires AllocAt(h, live, Allocation(p.image, program.size))
    requires AllocAt(h, live, Allocation(p.stack, KERNEL_USER_PROGRAM_STACK_SIZE))
    requires h.AddressBlock(p.image) != h.AddressBlock(p.stack)
    requires p.allocations as object != h.table as object && p.allocations.Length == KERNEL_MAX_PROGRAM_ALLOCATIONS
    requires forall i :: 0 <= i < p.allocations.Length ==> p.allocations[i] == Allocation(NULL, 0)
    requires FlatOf(h, p.space) ==
      StackPages(ImagePages(IdentityMap(PRESENT + ACCESS_FROM_ALL), p.image, program), p.stack)
    ensures ProcessOk(h, p) && AllEmpty(p.allocations[..]) && Holdings(h, p.allocations[..]) == {}
    ensures ProgramInPlace(h, p, program)
  {
    hide Encodes, Frame, FlatOf, PagesOk, Contained, IdentityMap, ImagePages, StackPages, BlocksFor, Clear,
      ProgramInPlace, ImageMaps, OpenDirectory, Heap.BlockAddress, Heap.AddressBlock;
    StackBlocks();
    RunsInside(h, h.AddressBlock(p.image));
    RunsInside(h, h.AddressBlock(p.stack));
    assert NobodyOwns(h, p.allocations[..]);
    ProgramPagesOk(h, p.allocations[..], p.image, p.stack, program);
    MappedInPlace(h, p, program);
  }

  /** `task_init` and `process_map_memory` for a load that has all its runs. A mapping that fails ends it like any other
      process, and gives its descriptor back too. */
  method FinishLoad(
    h: Heap, program: Program, desc: u32, record: u32, image: u32, stack: u32, task: u32, file: ElfFile?,
    ghost base: Runs, ghost left: seq<Allocation>, ghost procs: set<Owner>)
    returns (res: i32, p: Owner?, ghost stay: Runs)
    requires Loading(h, base, FullTrail(program, desc, record, left, image, stack, task), procs) && AllOk(h, procs)
    requires Contained(program) && |FreeBlocks(h.table[..])| >= 1026
    requires program.Elf? ==> file != null && file.elfMemory == image
    modifies h, h.table, h.memory
    ensures h.Valid() && res == if ImageMaps(image, program) then OK else EINVAGS
    ensures res == OK ==> p != null && fresh(p) && fresh(p.allocations) && p.image == image
    ensures res == OK ==> h.table[..] == TakeAll(old(h.table[..]), SpaceSizes())
    ensures res == OK ==> NewProcess(h, p, program, stay, procs) && Trail(h, base, StayTrail(desc, left), stay)
    ensures res != OK ==> p == null && Loading(h, base, left, procs)
    ensures RowsKept(h, base) && forall q :: q in procs ==> OwnerKept(h, q)
  {
    hide Encodes, Frame, FreeBlocks, SpaceIn, FlatOf, ProcessOk, Holdings, IdentityMap, HeldTrail, FullTrail,
      TrailBlocks, KernelHolds, Contained, ImageMaps, ImagePages, StackPages, AllocAt, DifferentBlocks, Clear,
      ProgramInPlace, BlocksFor, TakeAll, SpaceSizes, Heap.BlockAddress, Heap.AddressBlock;
    ghost var live, held := h.live, TrailBlocks(h, HeldTrail(program, record, image, stack, task));
    TrailSplits(h, base, live, program, desc, record, left, image, stack, task);
    stay := live - held;
    p := BuildSpace(h, program, record, image, stack, task, base, stay, held, procs);
    res := MapProgram(h, p, program, file, procs);
    if res == OK {
      NewProcessOk(h, p, program, live);
    } else {
      ReleaseRuns(h, p, [], procs);
      p := null;
      assert h.live == stay;
      assert StayTrail(desc, left) == [] + [Allocation(desc, TASK_STRUCT_SIZE)] + left && [] + left == left;
      Kfree(h, desc, base, [], Allocation(desc, TASK_STRUCT_SIZE), left, procs);
    }
  }

  // ----- whole loads

  /** A load gives a process, or fails for want of a descriptor or later, or finds too few free blocks for an address
      space: the code takes those for granted and would write through the NULL it is given. */
  datatype LoadEnd = Loaded | NoDescriptor | Refused | NoTables

  /** How a load ended, and the sizes of what it leaves in the heap for good. */
  datatype Loss = Loss(end: LoadEnd, sizes: seq<u32>)

  /** The sizes of everything a load takes up to its task. */
  function AllTaken(program: Program): seq<u32> {
    [TASK_STRUCT_SIZE] + (if program.Elf? then [ELF_FILE_SIZE] else []) + FileLoss(program) + [program.size]
    + LAST_SIZES
  }

  /** A loaded process leaves its descriptor, which nothing frees when it ends, and its file loss; a refused load
      nothing, the directories walked through, one or two paths with them, one path with the image it could not read, or
      the file loss; without tables everything stays. */
  predicate Leaves(program: Program, loss: Loss) {
    var o, sizes := program.opening, loss.sizes;
    match loss.end
    case Loaded => sizes == [TASK_STRUCT_SIZE] + FileLoss(program)
    case NoDescriptor => sizes == []
    case Refused =>
      || sizes == [] || sizes == o.lookup || sizes == PathLoss(o) || sizes == PathLoss(o) + [program.size]
      || (program.Binary? && sizes == PathLoss(o) + o.lookup) || sizes == FileLoss(program)
    case NoTables => sizes == AllTaken(program)
  }

  /** How a load with this table ends, and what it leaves. */
  ghost function LoadOutcome(h: Heap, t: seq<Entry>, program: Program): Loss {
    if NoRoom(t, BlocksFor(TASK_STRUCT_SIZE)) then Loss(NoDescriptor, [])
    else if !RunsFit(t, program) then Loss(Refused, RefusalLoss(t, program))
    else if |FreeBlocks(WithTask(t, program))| < 1026 then Loss(NoTables, AllTaken(program))
    else if ImageMaps(h.BlockAddress(ImagePlace(WithDescriptor(t), program)), program) then
      Loss(Loaded, [TASK_STRUCT_SIZE] + FileLoss(program))
    else Loss(Refused, FileLoss(program))
  }

  /** An ELF program is loaded if and only if its file is there, can be read and has PT_LOAD headers only, the heap has
      room for each of its allocations in turn, address space included, and its image maps. */
  lemma ElfLoads(h: Heap, t: seq<Entry>, program: Program)
    requires program.Elf?
    ensures LoadOutcome(h, t, program).end == Loaded <==>
      && program.opening.found && program.opening.readable && AllLoad(program.phdrs)
      && AllFit(t, AllTaken(program) + SpaceSizes())
      && ImageMaps(h.BlockAddress(Places(t, AllTaken(program))[|AllTaken(program)| - 3]), program)
    ensures WithTask(t, program) == TakeAll(t, AllTaken(program))
  {
    hide NoRoom, BlocksFor, AllFit, TakeAll, Places, Take, PathLoss, AllLoad, ImageMaps, FreeBlocks, SpaceSizes,
      Heap.BlockAddress;
    var desc, first: seq<u32>, t1 := [TASK_STRUCT_SIZE], FirstReading(program), WithDescriptor(t);
    assert AllTaken(program) == desc + (first + LAST_SIZES) && [] + desc == desc;
    TakeNone(t);
    TakeNext(t, [], TASK_STRUCT_SIZE);
    TakeJoins(t, desc, first + LAST_SIZES);
    TakeJoins(t1, first, LAST_SIZES);
    TakeJoins(t, AllTaken(program), SpaceSizes());
    SpaceFits(TakeAll(t, AllTaken(program)));
    var places := Places(t, AllTaken(program));
    assert places[|places| - 3] == Places(t1, first)[|first| - 1];
  }

  /** Any other program is loaded if and only if its file is there, can be read and finds room twice, the heap has room
      for the rest once the first reading has been given back, and its image maps. */
  lemma BinaryLoads(h: Heap, t: seq<Entry>, program: Program)
    requires program.Binary?
    ensures var before, after := [TASK_STRUCT_SIZE] + FirstReading(program), AfterFirst(WithDescriptor(t), program);
      LoadOutcome(h, t, program).end == Loaded <==>
        && program.opening.found && program.opening.readable && AllFit(t, before)
        && AllFit(after, SecondReading(program))
        && AllFit(AfterSecond(after, program), LAST_SIZES + SpaceSizes())
        && ImageMaps(h.BlockAddress(Places(after, SecondReading(program))[|SecondReading(program)| - 1]), program)
  {
    hide NoRoom, BlocksFor, AllFit, TakeAll, Places, Take, FirstReading, SecondReading, AfterFirst, AfterSecond,
      ImageMaps, FreeBlocks, SpaceSizes, Heap.BlockAddress;
    var desc: seq<u32> := [TASK_STRUCT_SIZE];
    assert [] + desc == desc;
    TakeNone(t);
    TakeNext(t, [], TASK_STRUCT_SIZE);
    TakeJoins(t, desc, FirstReading(program));
    var read := TableRead(WithDescriptor(t), program);
    TakeJoins(read, LAST_SIZES, SpaceSizes());
    SpaceFits(TakeAll(read, LAST_SIZES));
  }

  lemma OutcomeLeaves(h: Heap, t: seq<Entry>, program: Program)
    ensures Leaves(program, LoadOutcome(h, t, program))
  {
    hide NoRoom, BlocksFor, AllFit, TableRead, WithTask, FirstReading, SecondReading, PathLoss, AllLoad, AfterFirst,
      ImageMaps, ImagePlace, FreeBlocks;
    var o := program.opening;
    assert PathLoss(o) + [] == PathLoss(o);
  }

  /** With room for everything up to the task, in bytes: a file that is not there leaves the directories walked through,
      one that cannot be read its path and its image, one that is no program of PT_LOAD headers its path, and one that
      is loaded its path, the open file, and the descriptor if it runs. */
  lemma WithRoomLeaves(h: Heap, t: seq<Entry>, program: Program)
    requires var path := PathSizes(program.opening.parts) + program.opening.lookup;
      program.Elf? && AllFit(t, [9372, 132] + path + [8, 8, 32, 16, program.size, 16384, 64])
    ensures var o, loss, path := program.opening, LoadOutcome(h, t, program),
        PathSizes(program.opening.parts) + program.opening.lookup;
      if !o.found then loss == Loss(Refused, o.lookup)
      else if !o.readable then loss == Loss(Refused, path + [program.size])
      else if exists i :: 0 <= i < |program.phdrs| && program.phdrs[i].pType != 1 then loss == Loss(Refused, path)
      else
        || loss == Loss(Loaded, [9372] + path + [8, 8, 32, 16])
        || loss == Loss(Refused, path + [8, 8, 32, 16])
        || loss == Loss(NoTables, [9372, 132] + path + [8, 8, 32, 16, program.size, 16384, 64])
  {
    hide NoRoom, BlocksFor, AllFit, TakeAll, Places, Take, ImageMaps, FreeBlocks, Heap.BlockAddress, PathSizes,
      ImagePlace, AfterFirst, AfterSecond;
    var o := program.opening;
    var path, desc: seq<u32>, record: seq<u32> := PathSizes(o.parts) + o.lookup, [9372], [132];
    var image: seq<u32>, last: seq<u32> := [program.size], [16384, 64];
    var t1 := Take(t, 9372);
    var t2 := Take(t1, 132);
    var all := [9372, 132] + path + [8, 8, 32, 16, program.size, 16384, 64];
    assert all == desc + (record + (path + OPEN_FILE) + image + last) && [] + desc == desc && [] + record == record;
    TakeNone(t);
    TakeNext(t, [], 9372);
    TakeJoins(t, desc, record + (path + OPEN_FILE) + image + last);
    TakeJoins(t1, record + (path + OPEN_FILE) + image, last);
    TakeJoins(t1, record + (path + OPEN_FILE), image);
    TakeJoins(t1, record, path + OPEN_FILE);
    TakeNone(t1);
    TakeNext(t1, [], 132);
    TakeJoins(t2, path, OPEN_FILE);
    var t3 := TakeAll(t2, path + OPEN_FILE);
    assert [] + image == image;
    TakeNone(t3);
    TakeNext(t3, [], program.size);
    assert FirstReading(program) == record + (path + OPEN_FILE) + image;
    assert AllTaken(program) == all;
  }

  /** A binary's file is opened twice, and closed twice: it leaves two paths and nothing of its open files. */
  lemma WithRoomBinaryLeaves(h: Heap, t: seq<Entry>, program: Program)
    requires var path := PathSizes(program.opening.parts) + program.opening.lookup;
      program.Binary? && AllFit(t, [9372, 132] + path + [8, 8, 32, 16, program.size])
    ensures var o, loss, path := program.opening, LoadOutcome(h, t, program),
        PathSizes(program.opening.parts) + program.opening.lookup;
      if !o.found then loss == Loss(Refused, o.lookup)
      else if !o.readable then loss == Loss(Refused, path + [program.size])
      else
        var after := AfterFirst(Take(t, 9372), program);
        if !AllFit(after, path) then loss == Loss(Refused, path)
        else if !AllFit(after, path + [8, 8, 32, 16]) then loss == Loss(Refused, path + o.lookup)
        else if !AllFit(after, path + [8, 8, 32, 16, program.size]) then loss == Loss(Refused, path + path)
        else
          || loss == Loss(Loaded, [9372] + path + path)
          || loss == Loss(Refused, path + path)
          || loss == Loss(NoTables, [9372] + path + path + [program.size, 16384, 64])
  {
    hide NoRoom, BlocksFor, AllFit, TakeAll, Places, Take, ImageMaps, FreeBlocks, Heap.BlockAddress, PathSizes,
      ImagePlace, AfterFirst, AfterSecond;
    var o := program.opening;
    var path, desc: seq<u32>, record: seq<u32> := PathSizes(o.parts) + o.lookup, [9372], [132];
    var image: seq<u32> := [program.size];
    var t1 := Take(t, 9372);
    var t2 := Take(t1, 132);
    var all := [9372, 132] + path + [8, 8, 32, 16, program.size];
    assert all == desc + (record + (path + OPEN_FILE) + image) && [] + desc == desc && [] + record == record;
    TakeNone(t);
    TakeNext(t, [], 9372);
    TakeJoins(t, desc, record + (path + OPEN_FILE) + image);
    TakeJoins(t1, record + (path + OPEN_FILE), image);
    TakeJoins(t1, record, path + OPEN_FILE);
    TakeNone(t1);
    TakeNext(t1, [], 132);
    TakeJoins(t2, path, OPEN_FILE);
    var t3 := TakeAll(t2, path + OPEN_FILE);
    assert [] + image == image;
    TakeNone(t3);
    TakeNext(t3, [], program.size);
    assert FirstReading(program) == record + (path + OPEN_FILE) + image;
    var after := AfterFirst(t1, program);
    TakeJoins(after, path, OPEN_FILE);
    TakeJoins(after, path + OPEN_FILE, image);
    assert SecondReading(program) == path + [8, 8, 32, 16, program.size] == path + OPEN_FILE + image;
    assert path + [] == path;
    assert AllTaken(program) == [9372] + path + path + [program.size, 16384, 64];
  }

  /** `process_load_for_slot` on memory. What was live before stays, with exactly one run more for each allocation that
      the load leaves for good; a new process is built beside that and the others. */
  method LoadMemory(h: Heap, program: Program, ghost others: set<Owner>)
    returns (end: LoadEnd, p: Owner?, ghost left: seq<Allocation>, ghost stay: Runs)
    requires h.Valid() && AllOk(h, others) && Contained(program)
    modifies h, h.table, h.memory
    ensures h.Valid() && RowsKept(h, old(h.live)) && forall q :: q in others ==> OwnerKept(h, q)
    ensures Trail(h, old(h.live), left, stay)
    ensures Loss(end, Sizes(left)) == LoadOutcome(h, old(h.table[..]), program)
    ensures end == Loaded <==> p != null
    ensures p != null ==>
      && p.image == h.BlockAddress(ImagePlace(WithDescriptor(old(h.table[..])), program))
      && h.table[..] == TakeAll(WithTask(old(h.table[..]), program), SpaceSizes())
    ensures p != null ==> fresh(p) && fresh(p.allocations) && NewProcess(h, p, program, stay, others)
    ensures p != null ==> ImageMaps(p.image, program) && (program.Elf? ==> AllLoad(program.phdrs))
    ensures p == null ==> h.live == stay
  {
    hide Encodes, Frame, FreeBlocks, SpaceIn, FlatOf, ProcessOk, Holdings, FullTrail, TrailBlocks, Contained,
      ImageMaps, NewProcess, AllocAt, AllLoad, DifferentBlocks, FileLoss, ReadLoss, RefusalLoss, RunsFit, BlocksFor,
      NoRoom, WithTask, WithDescriptor, ImagePlace, TakeAll, SpaceSizes, Heap.BlockAddress, Heap.AddressBlock;
    ghost var base := h.live;
    StartLoading(h, others);
    var res, desc, record, image, stack, task, file;
    res, desc, record, image, stack, task, file, left := LoadRuns(h, program, base, others);
    p, stay, end := null, h.live, if desc == NULL then NoDescriptor else Refused;
    NoSizes();
    if res == OK {
      var free := CountFree(h);
      if free < 1026 {
        FullSizes(program, desc, record, left, image, stack, task);
        left := FullTrail(program, desc, record, left, image, stack, task);
        return NoTables, p, left, stay;
      }
      res, p, stay := FinishLoad(h, program, desc, record, image, stack, task, file, base, left, others);
      if res == OK {
        assert Sizes(StayTrail(desc, left)) == [TASK_STRUCT_SIZE] + Sizes(left);
        left := StayTrail(desc, left);
        end := Loaded;
      } else {
        stay := h.live;
      }
    }
  }

  lemma NoSizes()
    ensures Sizes([]) == []
  {
  }

  lemma FullSizes(
    program: Program, desc: u32, record: u32, left: seq<Allocation>, image: u32, stack: u32, task: u32)
    requires Sizes(left) == FileLoss(program) && (program.Elf? <==> record != NULL)
    ensures Sizes(FullTrail(program, desc, record, left, image, stack, task)) == AllTaken(program)
  {
    hide FileLoss;
  }

  lemma StartLoading(h: Heap, procs: set<Owner>)
    requires h.Valid() && AllOk(h, procs)
    ensures Loading(h, h.live, [], procs)
  {
    hide ProcessOk, Footprint;
    forall q | q in procs ensures Footprint(h, q) <= h.live.Keys {
      FootprintIsLive(h, q);
    }
  }

  /** Counts the free blocks: whether an address space can be built, which the code does not ask. */
  method CountFree(h: Heap) returns (n: nat)
    ensures n == |FreeBlocks(h.table[..])|
  {
    n := 0;
    var i := 0;
    while i < h.table.Length
      invariant 0 <= i <= h.table.Length && n == |FreeBlocks(h.table[..i])|
    {
      FreeBlocksStep(h.table[..], i);
      if IsFree(h.table[i]) {
        n := n + 1;
      }
      i := i + 1;
    }
    assert h.table[..i] == h.table[..];
  }

  lemma FreeBlocksStep(t: seq<Entry>, i: nat)
    requires i < |t|
    ensures |FreeBlocks(t[..i + 1])| == |FreeBlocks(t[..i])| + if IsFree(t[i]) then 1 else 0
  {
    assert FreeBlocks(t[..i + 1]) == FreeBlocks(t[..i]) + if IsFree(t[i]) then {i} else {};
  }
}
