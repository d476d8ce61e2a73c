/**
  Per-process memory (kernel/sched.c): the allocation table that stacks a
  process's heap runs on the block allocator and on its own page tables.
 */
module ProcessMemory {
  import opened Machine
  import opened HeapTable
  import opened KernelHeap
  import opened Paging
  import opened AddressSpace

  const KERNEL_MAX_PROGRAM_ALLOCATIONS: int := 1024

  /** PRESENT, WRITEABLE and ACCESS_FROM_ALL together. */
  const USER_PAGE: u32 := 7

  datatype Allocation = Allocation(ptr: u32, size: u32)

  /** Where a program's writable pages may lead: these runs. It is strict when its image and stack are mapped clear of
      the heap's addresses. */
  datatype Reach = Reach(runs: Runs, strict: bool)

  /** A process as an owner of memory: the runs in its allocation table, its address space, and the runs the kernel
      holds for it until it ends: its program image and its stack, which the program may reach, its task, and for an
      ELF program the file header record. */
  class Owner {
    const allocations: array<Allocation>
    const chunk: u32
    const image: u32
    const stack: u32
    const task: u32
    const file: u32
    ghost const space: Space
    ghost const kept: Runs
    ghost const reach: Reach

    constructor (
      chunk: u32, image: u32, stack: u32, task: u32, file: u32, ghost space: Space, ghost kept: Runs,
        ghost reach: Reach)
      ensures fresh(allocations) && allocations.Length == KERNEL_MAX_PROGRAM_ALLOCATIONS
      ensures forall i :: 0 <= i < allocations.Length ==> allocations[i] == Allocation(NULL, 0)
      ensures this.chunk == chunk && this.image == image && this.stack == stack && this.task == task
        && this.file == file
      ensures this.space == space && this.kept == kept && this.reach == reach
    {
      this.chunk, this.image, this.stack, this.task, this.file := chunk, image, stack, task, file;
      this.space, this.kept, this.reach := space, kept, reach;
      allocations := new Allocation[KERNEL_MAX_PROGRAM_ALLOCATIONS](_ => Allocation(NULL, 0));
    }
  }

  /** The page-map index of heap block q. */
  function PageOf(h: Heap, q: nat): nat {
    h.saddr / PAGE_SIZE + q
  }

  /** The slot names a live run, exactly as long as its size rounded up, that is no page table and not held by the
      kernel. */
  ghost predicate SlotOk(h: Heap, live: Runs, a: Allocation, s: Space, kept: Runs) {
    var b := h.AddressBlock(a.ptr);
    && b < h.table.Length && a.ptr == h.BlockAddress(b) && b !in s.blocks && b !in kept
    && b in live && live[b] == BlocksFor(a.size) > 0
  }

  /** Every occupied slot names a run of its own, and the runs the kernel holds are live and no page tables. */
  ghost predicate SlotsOk(h: Heap, live: Runs, slots: seq<Allocation>, s: Space, kept: Runs) {
    && |slots| == KERNEL_MAX_PROGRAM_ALLOCATIONS
    && (forall i :: 0 <= i < |slots| && slots[i].ptr != NULL ==> SlotOk(h, live, slots[i], s, kept))
    && (forall i, j :: 0 <= i < j < |slots| && slots[i].ptr != NULL ==> slots[i].ptr != slots[j].ptr)
    && (forall b :: b in kept ==> b in live && live[b] == kept[b] && b !in s.blocks)
  }

  /** Slot i holds the run that contains heap block q. */
  ghost predicate Holds(h: Heap, a: Allocation, q: nat) {
    a.ptr != NULL && h.AddressBlock(a.ptr) <= q < h.AddressBlock(a.ptr) + BlocksFor(a.size)
  }

  ghost predicate Owns(h: Heap, slots: seq<Allocation>, q: nat) {
    exists i :: 0 <= i < |slots| && Holds(h, slots[i], q)
  }

  /** Page v is one of the pages at which heap blocks are mapped to themselves. */
  predicate HeapPage(h: Heap, v: nat) {
    h.saddr / PAGE_SIZE <= v < h.saddr / PAGE_SIZE + h.table.Length
  }

  ghost predicate LeadsTo(h: Heap, runs: Runs, entry: u32, q: nat) {
    Frame(entry) == h.BlockAddress(q) && exists b :: Covers(runs, b, q)
  }

  /** The entry leads to a block of one of these runs. */
  ghost predicate ReachesRun(h: Heap, runs: Runs, entry: u32) {
    exists q: nat :: LeadsTo(h, runs, entry, q)
  }

  /** The entry is not writable, or may be and leads into the reach. */
  ghost predicate EntryOk(h: Heap, reach: Reach, entry: u32, may: bool) {
    IsWriteable(entry) ==> may && ReachesRun(h, reach.runs, entry)
  }

  /** Over the heap's addresses owned pages map to themselves as present, writable and user. For a strict reach no
      other heap page is writable, so the page map is exactly the allocation table there; otherwise such a page leads
      into the reach. */
  ghost predicate HeapPagesOk(h: Heap, slots: seq<Allocation>, reach: Reach, pages: Flat)
    requires h.Region() && |pages| == PAGES
  {
    forall q :: 0 <= q < h.table.Length ==>
      if Owns(h, slots, q) then pages[PageOf(h, q)] == h.BlockAddress(q) + USER_PAGE
        else EntryOk(h, reach, pages[PageOf(h, q)], !reach.strict)
  }

  /** Elsewhere every writable page leads into the reach. */
  ghost predicate OtherPagesOk(h: Heap, reach: Reach, pages: Flat)
    requires |pages| == PAGES
  {
    forall v: nat :: v < PAGES && !HeapPage(h, v) ==> EntryOk(h, reach, pages[v], true)
  }

  ghost predicate PagesOk(h: Heap, slots: seq<Allocation>, reach: Reach, pages: Flat)
    requires h.Region() && |pages| == PAGES
  {
    HeapPagesOk(h, slots, reach, pages) && OtherPagesOk(h, reach, pages)
  }

  /** The directory lets every access of a program pass, and leaves it to the tables. */
  predicate OpenDirectory(s: Space) {
    Allows(s.bits, true, true)
  }

  ghost predicate ProcessOk(h: Heap, p: Owner)
    reads h, h.table, h.memory, p.allocations
  {
    && h.Valid() && SpaceIn(h, p.space) && |p.space.blocks| == 1026 && p.chunk == h.BlockAddress(p.space.blocks[1025])
    && OpenDirectory(p.space)
    && p.allocations as object != h.table as object
    && SlotsOk(h, h.live, p.allocations[..], p.space, p.kept)
    && (forall b :: b in p.reach.runs ==> b in p.kept && p.kept[b] == p.reach.runs[b])
    && PagesOk(h, p.allocations[..], p.reach, FlatOf(h, p.space))
  }

  /** The runs a process holds. */
  ghost function Holdings(h: Heap, slots: seq<Allocation>): set<nat> {
    set i | 0 <= i < |slots| && slots[i].ptr != NULL :: h.AddressBlock(slots[i].ptr)
  }

  /** Every heap block a process depends on: its page tables, the runs the kernel holds for it and the runs it holds. */
  ghost function Footprint(h: Heap, p: Owner): set<nat>
    reads p.allocations
  {
    BlockSet(p.space.blocks) + p.kept.Keys + Holdings(h, p.allocations[..])
  }

  /** What is live apart from one process. */
  ghost function Rest(h: Heap, p: Owner): Runs
    reads h, p.allocations
  {
    h.live - Footprint(h, p)
  }

  /** Two processes depend on different blocks and keep different tables. */
  ghost predicate Apart(h: Heap, p: Owner, q: Owner)
    reads p.allocations, q.allocations
  {
    p != q && p.allocations != q.allocations && Footprint(h, p) !! Footprint(h, q)
  }

  ghost predicate AllOk(h: Heap, procs: set<Owner>)
    reads h, h.table, h.memory, set q | q in procs :: q.allocations
  {
    forall q :: q in procs ==> ProcessOk(h, q)
  }

  ghost predicate AllApart(h: Heap, p: Owner, others: set<Owner>)
    reads p.allocations, set q | q in others :: q.allocations
  {
    forall q :: q in others ==> Apart(h, p, q)
  }

  lemma SlotInFootprint(h: Heap, p: Owner, k: nat)
    requires k < p.allocations.Length && p.allocations[k].ptr != NULL
    ensures h.AddressBlock(p.allocations[k].ptr) in Footprint(h, p)
  {
    assert p.allocations[..][k].ptr != NULL;
  }

  lemma FootprintOf(h: Heap, p: Owner, slots: seq<Allocation>)
    requires p.allocations[..] == slots
    ensures Footprint(h, p) == BlockSet(p.space.blocks) + p.kept.Keys + Holdings(h, slots)
  {
  }

  lemma FootprintIsLive(h: Heap, q: Owner)
    requires ProcessOk(h, q)
    ensures Footprint(h, q) <= h.live.Keys
  {
    hide Encodes, Frame, BlocksFor, PagesOk, Heap.AddressBlock, Heap.BlockAddress;
    forall b | b in Holdings(h, q.allocations[..]) ensures b in h.live {
      var k :| 0 <= k < |q.allocations[..]| && q.allocations[..][k].ptr != NULL
        && b == h.AddressBlock(q.allocations[..][k].ptr);
      assert SlotOk(h, h.live, q.allocations[..][k], q.space, q.kept);
    }
  }

  // ----- what the program itself can reach

  /** What the program's own code reaches, through the directory that `paging_switch` hands to the processor. */
  ghost predicate UserReaches(h: Heap, p: Owner, va: u32, write: bool, phys: int)
    reads h.memory
  {
    var chunk := h.AddressBlock(p.chunk);
    && chunk < h.memory.Length0 && h.memory.Length1 == 1024
    && MmuReaches(h, h.memory[chunk, 0], va, write, true, phys)
  }

  lemma UserWalksFlat(h: Heap, p: Owner, va: u32, write: bool, phys: int)
    requires SpaceIn(h, p.space) && |p.space.blocks| == 1026 && p.chunk == h.BlockAddress(p.space.blocks[1025])
    requires OpenDirectory(p.space)
    ensures UserReaches(h, p, va, write, phys) <==> GoesTo(FlatOf(h, p.space), va, write, phys)
  {
    hide SpaceIn, FlatOf, Translate, MmuReaches, Heap.AddressBlock, Heap.BlockAddress;
    TablesFound(h, p.space, 0);
    MmuWalksFlat(h, p.space, va, write, true, phys);
  }

  /** The program's access to va reaches the place in the range at `to` that va has in the range at `from`. */
  ghost predicate ReachesInto(h: Heap, p: Owner, from: u32, to: u32, write: bool, va: u32)
    reads h.memory
  {
    UserReaches(h, p, va, write, to + (va - from))
  }

  /** The program reads and writes `size` bytes from `from` on, and finds those from `to` on there. */
  ghost predicate RangeReaches(h: Heap, p: Owner, from: u32, to: u32, size: u32)
    reads h.memory
  {
    from + size <= TWO32 && forall va: u32 :: from <= va < from + size ==> ReachesInto(h, p, from, to, true, va)
  }

  /** The program reads and writes every byte of this range, at itself. */
  ghost predicate RangeReached(h: Heap, p: Owner, ptr: u32, size: u32)
    reads h.memory
  {
    RangeReaches(h, p, ptr, ptr, size)
  }

  /** No access of the program reaches anything in this range. */
  ghost predicate RangeClosed(h: Heap, p: Owner, ptr: u32, size: u32)
    reads h.memory
  {
    forall va: u32, write: bool, phys: int :: ptr <= va < ptr + size ==> !UserReaches(h, p, va, write, phys)
  }

  /** A word that the allocator enters for a page of a program: everything passes, to that page. */
  lemma UserPageOpen(frame: u32)
    requires frame % PAGE_SIZE == 0 && frame + USER_PAGE < TWO32
    ensures Frame(frame + USER_PAGE) == frame && Allows(frame + USER_PAGE, true, true)
  {
    LowThree(frame + USER_PAGE, frame / 4096, USER_PAGE);
  }

  /** Whatever a process holds its program reads and writes, every byte of it. */
  lemma HeldIsReached(h: Heap, p: Owner, i: nat)
    requires ProcessOk(h, p) && i < p.allocations.Length && p.allocations[i].ptr != NULL
    ensures RangeReached(h, p, p.allocations[i].ptr, p.allocations[i].size)
  {
    hide Encodes, Frame, FlatOf, SpaceIn, SlotsOk, EntryOk, BlocksFor, UserReaches, OtherPagesOk, Allows,
      Heap.AddressBlock, Heap.BlockAddress;
    var a, slots := p.allocations[i], p.allocations[..];
    assert slots[i] == a;
    var b := SlotRun(h, p, i);
    forall va: u32 | a.ptr <= va < a.ptr + a.size ensures ReachesInto(h, p, a.ptr, a.ptr, true, va) {
      var q := BlockOfAddress(h, b, a.ptr, a.size, va);
      assert Holds(h, a, q) && Owns(h, slots, q);
      OwnedBlockReached(h, p, q, va);
    }
  }

  /** Every address of a block the process owns. */
  lemma OwnedBlockReached(h: Heap, p: Owner, q: nat, va: u32)
    requires ProcessOk(h, p) && q < h.table.Length && Owns(h, p.allocations[..], q)
    requires PageOf(h, q) == va / 4096 && h.BlockAddress(q) + va % 4096 == va
    ensures UserReaches(h, p, va, true, va)
  {
    hide Encodes, Frame, FlatOf, SpaceIn, SlotsOk, EntryOk, BlocksFor, UserReaches, OtherPagesOk, Allows, Owns,
      Heap.AddressBlock, Heap.BlockAddress;
    h.BlockAddressRoundTrip(q);
    assert h.BlockAddress(q) + USER_PAGE < TWO32;
    UserPageOpen(h.BlockAddress(q));
    UserWalksFlat(h, p, va, true, va);
  }

  /** Every address of a run that starts at a block the process holds. */
  lemma HoldingReached(h: Heap, p: Owner, b: nat, va: u32)
    requires ProcessOk(h, p) && b in Holdings(h, p.allocations[..])
    ensures b in h.live && b + h.live[b] <= h.table.Length
    ensures h.saddr + b * 4096 <= va < h.saddr + (b + h.live[b]) * 4096 ==> UserReaches(h, p, va, true, va)
  {
    hide Encodes, Frame, FlatOf, SpaceIn, PagesOk, BlocksFor, UserReaches, Heap.AddressBlock, Heap.BlockAddress;
    var i :| 0 <= i < p.allocations.Length && p.allocations[i].ptr != NULL && h.AddressBlock(p.allocations[i].ptr) == b;
    assert SlotOk(h, h.live, p.allocations[..][i], p.space, p.kept);
    LiveInside(h, b);
    var first := h.saddr / 4096;
    assert h.saddr == first * 4096;
    if h.saddr + b * 4096 <= va < h.saddr + (b + h.live[b]) * 4096 {
      var q := va / 4096 - first;
      assert b <= q < b + h.live[b];
      h.BlockAddressRoundTrip(q);
      assert Holds(h, p.allocations[..][i], q) && Owns(h, p.allocations[..], q);
      OwnedBlockReached(h, p, q, va);
    }
  }

  lemma SlotRun(h: Heap, p: Owner, i: nat) returns (b: nat)
    requires ProcessOk(h, p) && i < p.allocations.Length && p.allocations[i].ptr != NULL
    ensures var a := p.allocations[i];
      && b == h.AddressBlock(a.ptr) && a.ptr == h.BlockAddress(b) && BlocksFor(a.size) > 0
      && b + BlocksFor(a.size) <= h.table.Length && a.ptr + a.size < TWO32
  {
    hide Encodes, FlatOf, SpaceIn, PagesOk, BlocksFor, Heap.AddressBlock, Heap.BlockAddress;
    var slots := p.allocations[..];
    assert slots[i] == p.allocations[i] && SlotOk(h, h.live, slots[i], p.space, p.kept);
    b := h.AddressBlock(slots[i].ptr);
    LiveInside(h, b);
    h.BlockAddressRoundTrip(b);
    BlocksHoldSize(slots[i].size);
  }

  lemma LiveInside(h: Heap, b: nat)
    requires h.Valid() && b in h.live
    ensures b + h.live[b] <= h.table.Length
  {
  }

  /** The block an address of a run lies in, and its page. */
  lemma BlockOfAddress(h: Heap, b: nat, ptr: u32, size: u32, va: u32) returns (q: nat)
    requires h.Region() && ptr == h.BlockAddress(b) && BlocksFor(size) > 0 && b + BlocksFor(size) <= h.table.Length
    requires ptr <= va < ptr + size && ptr + size < TWO32
    ensures b <= q < b + BlocksFor(size) && PageOf(h, q) == va / 4096 && h.BlockAddress(q) + va % 4096 == va
  {
    hide BlocksFor;
    BlocksHoldSize(size);
    h.BlockAddressRoundTrip(b);
    var first, k := h.saddr / 4096, (va - ptr) / 4096;
    assert h.saddr == first * 4096 && ptr == (first + b) * 4096;
    assert va / 4096 == first + b + k && k < BlocksFor(size);
    q := b + k;
    h.BlockAddressRoundTrip(q);
  }

  /** New runs do not disturb a slot table. */
  lemma SlotsOkGrow(h: Heap, live: Runs, slots: seq<Allocation>, s: Space, kept: Runs, b: nat, n: nat)
    requires SlotsOk(h, live, slots, s, kept) && b !in live
    ensures SlotsOk(h, live[b := n], slots, s, kept)
  {
    hide BlocksFor, Heap.AddressBlock, Heap.BlockAddress;
  }

  /** Freeing a run it does not hold does not disturb a slot table. */
  lemma SlotsOkShrink(h: Heap, live: Runs, slots: seq<Allocation>, s: Space, kept: Runs, b: nat)
    requires SlotsOk(h, live, slots, s, kept) && b !in Holdings(h, slots) && b !in kept
    ensures SlotsOk(h, live - {b}, slots, s, kept)
  {
    hide BlocksFor, Heap.AddressBlock, Heap.BlockAddress;
    forall i | 0 <= i < |slots| && slots[i].ptr != NULL ensures h.AddressBlock(slots[i].ptr) in Holdings(h, slots) {
    }
  }

  // ----- page-map arithmetic

  /** The new map sends the blocks of the run to themselves with the given flags and agrees with the old one on every
      other page. */
  ghost predicate RunMapped(h: Heap, pages: Flat, pages': Flat, b: nat, n: nat, flags: u32)
    requires h.Region()
  {
    && |pages| == |pages'| == PAGES
    && (forall q: nat :: q < h.table.Length ==>
         pages'[PageOf(h, q)] == if b <= q < b + n then h.BlockAddress(q) + flags else pages[PageOf(h, q)])
    && forall v: nat :: v < PAGES && !HeapPage(h, v) ==> pages'[v] == pages[v]
  }

  /** Mapping a run of the heap to itself succeeds and touches the pages of its blocks and no other page. */
  lemma MapRunToItself(h: Heap, pages: Flat, b: nat, size: u32, flags: u32)
    requires h.Region() && |pages| == PAGES && BlocksFor(size) > 0 && b + BlocksFor(size) <= h.table.Length
      && flags < PAGE_SIZE
    ensures var ptr := h.BlockAddress(b);
      && MapToSucceeds(ptr, ptr, AlignUp(Add32(ptr, size)))
      && RunMapped(h, pages, MapToPages(pages, ptr, ptr, AlignUp(Add32(ptr, size)), flags), b, BlocksFor(size), flags)
  {
    hide Or32, AlignUp, BlocksFor;
    var n := BlocksFor(size);
    var ptr := h.BlockAddress(b);
    h.BlockAddressRoundTrip(b);
    assert ptr + n * 4096 == h.saddr + (b + n) * 4096 < TWO32;
    RunEnd(ptr, size);
    var first := ptr / 4096;
    assert first == h.saddr / 4096 + b && ptr == first * 4096;
    var pages' := MapToPages(pages, ptr, ptr, ptr + n * 4096, flags);
    assert pages' == MapPages(pages, first, ptr, n, flags);
    forall q: nat | q < h.table.Length
      ensures pages'[PageOf(h, q)] == if b <= q < b + n then h.BlockAddress(q) + flags else pages[PageOf(h, q)]
    {
      h.BlockAddressRoundTrip(q);
      if b <= q < b + n {
        OrFlags(h.BlockAddress(q), flags);
        assert Wrap(ptr + (q - b) * 4096) == h.BlockAddress(q);
      }
    }
  }

  /** Rounding up the end of a request gives the end of its run. */
  lemma RunEnd(ptr: u32, size: u32)
    requires ptr % PAGE_SIZE == 0 && BlocksFor(size) > 0 && ptr + BlocksFor(size) * PAGE_SIZE < TWO32
    ensures AlignUp(Add32(ptr, size)) == ptr + BlocksFor(size) * PAGE_SIZE
  {
    BlocksHoldSize(size);
    assert Add32(ptr, size) == ptr as int + size as int;
    assert AlignUp(size) == BlocksFor(size) * 4096;
  }

  // ----- the table and the page map move together

  /** Recording a fresh run in a free slot and mapping it keeps slots and pages in step. */
  lemma RecordRun(
    h: Heap, live: Runs, slots: seq<Allocation>, s: Space, kept: Runs, reach: Reach, pages: Flat, i: nat, b: nat,
      size: u32)
    requires h.Region() && |pages| == PAGES && SlotsOk(h, live, slots, s, kept) && PagesOk(h, slots, reach, pages)
    requires i < |slots| && slots[i].ptr == NULL
    requires BlocksFor(size) > 0 && b + BlocksFor(size) <= h.table.Length && b !in live && b !in s.blocks
    ensures var ptr := h.BlockAddress(b);
      var slots' := slots[i := Allocation(ptr, size)];
      var pages' := MapToPages(pages, ptr, ptr, AlignUp(Add32(ptr, size)), USER_PAGE);
      && |pages'| == PAGES && SlotsOk(h, live[b := BlocksFor(size)], slots', s, kept)
        && PagesOk(h, slots', reach, pages')
      && Holdings(h, slots') == Holdings(h, slots) + {b}
  {
    hide MapToPages, MapToSucceeds, AlignUp, BlocksFor, Wrap, Add32, PagesOk, RunMapped;
    h.BlockAddressRoundTrip(b);
    var ptr := h.BlockAddress(b);
    var slots' := slots[i := Allocation(ptr, size)];
    MapRunToItself(h, pages, b, size, USER_PAGE);
    MapToLength(pages, ptr, ptr, AlignUp(Add32(ptr, size)), USER_PAGE);
    OwnsAfterSet(h, slots, i, Allocation(ptr, size));
    HoldingsAfterSet(h, slots, i, Allocation(ptr, size));
    RecordPages(h, slots, slots', reach, pages, MapToPages(pages, ptr, ptr, AlignUp(Add32(ptr, size)), USER_PAGE), b,
      BlocksFor(size));
  }

  lemma RecordPages(h: Heap, slots: seq<Allocation>, slots': seq<Allocation>, reach: Reach, pages: Flat, pages': Flat,
    b: nat, n: nat)
    requires h.Region() && |pages| == PAGES && PagesOk(h, slots, reach, pages)
      && RunMapped(h, pages, pages', b, n, USER_PAGE)
    requires forall q: nat :: Owns(h, slots', q) <==> Owns(h, slots, q) || b <= q < b + n
    ensures PagesOk(h, slots', reach, pages')
  {
    hide EntryOk;
  }

  lemma OwnsAfterSet(h: Heap, slots: seq<Allocation>, i: nat, a: Allocation)
    requires i < |slots| && slots[i].ptr == NULL
    ensures forall q :: Owns(h, slots[i := a], q) <==> Owns(h, slots, q) || Holds(h, a, q)
  {
    var slots' := slots[i := a];
    forall q ensures Owns(h, slots', q) <==> Owns(h, slots, q) || Holds(h, a, q) {
      if Owns(h, slots, q) {
        var k :| 0 <= k < |slots| && Holds(h, slots[k], q);
        assert Holds(h, slots'[k], q);
      }
      if Holds(h, a, q) {
        assert Holds(h, slots'[i], q);
      }
      if Owns(h, slots', q) {
        var k :| 0 <= k < |slots'| && Holds(h, slots'[k], q);
        assert k != i ==> Holds(h, slots[k], q);
      }
    }
  }

  lemma HoldingsAfterSet(h: Heap, slots: seq<Allocation>, i: nat, a: Allocation)
    requires i < |slots| && slots[i].ptr == NULL && a.ptr != NULL
    ensures Holdings(h, slots[i := a]) == Holdings(h, slots) + {h.AddressBlock(a.ptr)}
  {
    var slots' := slots[i := a];
    assert slots'[i] == a;
    forall b | b in Holdings(h, slots) ensures b in Holdings(h, slots') {
      var k :| 0 <= k < |slots| && slots[k].ptr != NULL && b == h.AddressBlock(slots[k].ptr);
      assert slots'[k] == slots[k];
    }
  }

  ghost predicate RunsApart(live: Runs, a: nat, b: nat) {
    a in live && b in live && (a + live[a] <= b || b + live[b] <= a)
  }

  /** Clearing a slot, unmapping its run and dropping it from the live set keeps slots and pages in step. */
  lemma ForgetRun(h: Heap, live: Runs, slots: seq<Allocation>, s: Space, kept: Runs, reach: Reach, pages: Flat, i: nat)
    requires h.Valid() && h.live == live && |pages| == PAGES && SlotsOk(h, live, slots, s, kept)
      && PagesOk(h, slots, reach, pages)
    requires i < |slots| && slots[i].ptr != NULL
    ensures var ptr := slots[i].ptr;
      var slots' := slots[i := Allocation(NULL, 0)];
      var pages' := MapToPages(pages, ptr, ptr, AlignUp(Add32(ptr, slots[i].size)), 0);
      && |pages'| == PAGES && SlotsOk(h, live - {h.AddressBlock(ptr)}, slots', s, kept)
        && PagesOk(h, slots', reach, pages')
      && Holdings(h, slots') == Holdings(h, slots) - {h.AddressBlock(ptr)}
  {
    hide Encodes, MapToPages, MapToSucceeds, AlignUp, BlocksFor, Wrap, Add32, Heap.BlockAddress, Heap.AddressBlock,
      PagesOk, Holdings;
    var ptr, size := slots[i].ptr, slots[i].size;
    var b: nat := h.AddressBlock(ptr);
    var slots' := slots[i := Allocation(NULL, 0)];
    assert SlotOk(h, live, slots[i], s, kept);
    RunsInside(h, b);
    MapRunToItself(h, pages, b, size, 0);
    forall k | 0 <= k < |slots| && k != i && slots[k].ptr != NULL
      ensures SlotOk(h, live, slots[k], s, kept) && h.AddressBlock(slots[k].ptr) != b
        && RunsApart(live, h.AddressBlock(slots[k].ptr), b)
    {
      assert SlotOk(h, live, slots[k], s, kept);
      h.LiveRunsApart(h.AddressBlock(slots[k].ptr), b);
    }
    OwnsAfterClear(h, live, slots, s, kept, i);
    HoldingsAfterClear(h, slots, i);
    ForgetPages(h, slots, slots', reach, pages, MapToPages(pages, ptr, ptr, AlignUp(Add32(ptr, size)), 0), b,
      BlocksFor(size));
  }

  lemma ForgetPages(h: Heap, slots: seq<Allocation>, slots': seq<Allocation>, reach: Reach, pages: Flat, pages': Flat,
    b: nat, n: nat)
    requires h.Region() && |pages| == PAGES && PagesOk(h, slots, reach, pages) && RunMapped(h, pages, pages', b, n, 0)
    requires forall q: nat :: Owns(h, slots', q) <==> Owns(h, slots, q) && !(b <= q < b + n)
    ensures PagesOk(h, slots', reach, pages')
  {
    hide IsWriteable, Heap.BlockAddress;
    forall q: nat | q < h.table.Length ensures !IsWriteable(h.BlockAddress(q)) {
      h.BlockAddressRoundTrip(q);
      PageBaseNotWriteable(h.BlockAddress(q));
    }
  }

  lemma PageBaseNotWriteable(base: u32)
    requires base % PAGE_SIZE == 0
    ensures !IsWriteable(base)
  {
    var frame := base / 4096;
    assert base == 4 * (1024 * frame);
  }

  lemma OwnsAfterClear(h: Heap, live: Runs, slots: seq<Allocation>, s: Space, kept: Runs, i: nat)
    requires SlotsOk(h, live, slots, s, kept) && i < |slots| && slots[i].ptr != NULL
    requires forall k :: 0 <= k < |slots| && k != i && slots[k].ptr != NULL ==>
      RunsApart(live, h.AddressBlock(slots[k].ptr), h.AddressBlock(slots[i].ptr))
    ensures forall q: nat :: Owns(h, slots[i := Allocation(NULL, 0)], q) <==>
      Owns(h, slots, q) && !Holds(h, slots[i], q)
  {
    hide BlocksFor, Heap.BlockAddress, Heap.AddressBlock;
    var slots' := slots[i := Allocation(NULL, 0)];
    assert SlotOk(h, live, slots[i], s, kept);
    forall q: nat ensures Owns(h, slots', q) <==> Owns(h, slots, q) && !Holds(h, slots[i], q) {
      if Owns(h, slots', q) {
        var k :| 0 <= k < |slots'| && Holds(h, slots'[k], q);
        assert Holds(h, slots[k], q) && SlotOk(h, live, slots[k], s, kept);
      }
      if Owns(h, slots, q) && !Holds(h, slots[i], q) {
        var k :| 0 <= k < |slots| && Holds(h, slots[k], q);
        assert Holds(h, slots'[k], q);
      }
    }
  }

  lemma RunsInside(h: Heap, b: nat)
    requires h.Valid() && b in h.live
    ensures h.live[b] >= 1 && b + h.live[b] <= h.table.Length
  {
  }

  lemma HoldingsAfterClear(h: Heap, slots: seq<Allocation>, i: nat)
    requires i < |slots| && slots[i].ptr != NULL
    requires forall k :: 0 <= k < |slots| && k != i && slots[k].ptr != NULL ==>
      h.AddressBlock(slots[k].ptr) != h.AddressBlock(slots[i].ptr)
    ensures Holdings(h, slots[i := Allocation(NULL, 0)]) == Holdings(h, slots) - {h.AddressBlock(slots[i].ptr)}
  {
    var slots' := slots[i := Allocation(NULL, 0)];
    forall b | b in Holdings(h, slots) && b != h.AddressBlock(slots[i].ptr) ensures b in Holdings(h, slots') {
      var k :| 0 <= k < |slots| && slots[k].ptr != NULL && b == h.AddressBlock(slots[k].ptr);
      assert slots'[k] == slots[k];
    }
    forall b | b in Holdings(h, slots') ensures b in Holdings(h, slots) && b != h.AddressBlock(slots[i].ptr) {
      var k :| 0 <= k < |slots'| && slots'[k].ptr != NULL && b == h.AddressBlock(slots'[k].ptr);
      assert slots'[k] == slots[k];
    }
  }

  // ----- the heap and page-table operations, seen from every address space at once

  /** The process is still well formed, with the same address space and the same allocation table. */
  twostate predicate OwnerKept(h: Heap, q: Owner)
    reads h, h.table, h.memory, q.allocations
  {
    && old(ProcessOk(h, q)) && ProcessOk(h, q)
    && FlatOf(h, q.space) == old(FlatOf(h, q.space)) && q.allocations[..] == old(q.allocations[..])
  }

  /** The n blocks from b on are zero. */
  ghost predicate Zeroed(h: Heap, b: nat, n: nat)
    reads h.memory
  {
    forall i, j :: b <= i < b + n && i < h.memory.Length0 && 0 <= j < h.memory.Length1 ==> h.memory[i, j] == 0
  }

  /** Rows of live runs keep their words, except rows of the given tables. */
  twostate predicate LiveRowsKept(h: Heap, tables: set<nat>)
    reads h, h.memory
  {
    forall b: nat, r: nat, j :: Covers(old(h.live), b, r) && r !in tables && r < h.memory.Length0
      && 0 <= j < h.memory.Length1
      ==> h.memory[r, j] == old(h.memory[r, j])
  }

  /** First fit, once it succeeds, takes a run apart from all others; freeing it would undo it. */
  lemma TakenRun(t: seq<Entry>, runs: Runs, n: nat)
    requires Encodes(t, runs) && n > 0 && exists b: nat :: Fits(t, b, n)
    ensures var r := FirstFit(t, n);
      && 0 <= r && r + n <= |t| && r !in runs
      && (forall a :: a in runs ==> a + runs[a] <= r || r + n <= a)
      && Freed(Marked(t, r, n), r) == t && |FreeBlocks(Marked(t, r, n))| == |FreeBlocks(t)| - n
  {
    hide Encodes;
    FirstFitMeaning(t, n, 0);
    var r := FirstFit(t, n);
    MarkedEncodes(t, runs, r, n);
    MarkThenFree(t, runs, r, n);
    RunTaken(t, r, n);
  }

  /** `kzalloc` disturbs no address space, no live run and no process. */
  method ZallocFramed(h: Heap, size: u32, ghost procs: set<Owner>) returns (ptr: u32)
    requires h.Valid() && AllOk(h, procs)
    modifies h, h.table, h.memory
    ensures h.Valid()
    ensures ptr == NULL ==> h.live == old(h.live) && h.table[..] == old(h.table[..])
    ensures ptr == NULL <==> NoRoom(old(h.table[..]), BlocksFor(size))
    ensures ptr != NULL ==> var b := h.AddressBlock(ptr);
      && ptr == h.BlockAddress(b) && b !in old(h.live) && h.live == old(h.live)[b := BlocksFor(size)]
      && BlocksFor(size) > 0 && b + BlocksFor(size) <= h.table.Length
      && Freed(h.table[..], b) == old(h.table[..])
      && b == FirstFit(old(h.table[..]), BlocksFor(size)) && Zeroed(h, b, BlocksFor(size))
    ensures h.table[..] == Take(old(h.table[..]), size)
    ensures LiveRowsKept(h, {})
    ensures forall q :: q in procs ==> OwnerKept(h, q)
  {
    hide BlocksFor, AlignUp, Encodes, Frame, PagesOk, SlotsOk, FlatOf, FirstFit, Fits, Marked, Freed;
    ghost var t, runs := h.table[..], h.live;
    ptr := h.Zalloc(size);
    ghost var n := BlocksFor(size);
    if ptr != NULL {
      TakenRun(t, runs, n);
      h.BlockAddressRoundTrip(FirstFit(t, n));
      assert FirstFit(t, n) in h.live;
    }
    forall q | q in procs ensures OwnerKept(h, q) {
      assert q.allocations[..] == old(q.allocations[..]);
      forall i | 0 <= i < 1026 ensures Covers(runs, q.space.blocks[i], q.space.blocks[i]) {
      }
      ghost var pages := old(FlatOf(h, q.space));
      SameFlat(h, q.space, pages);
      if ptr != NULL {
        SlotsOkGrow(h, runs, q.allocations[..], q.space, q.kept, h.AddressBlock(ptr), n);
      }
    }
  }

  /** Table rows that read as the given flat map make it the space's flat map. */
  lemma SameFlat(h: Heap, s: Space, pages: Flat)
    requires SpaceIn(h, s) && |pages| == PAGES
    requires forall i, j :: 0 <= i < 1024 && 0 <= j < 1024 ==> pages[i * 1024 + j] == h.memory[s.Table(i), j]
    ensures FlatOf(h, s) == pages
  {
    hide Encodes, Frame;
    forall p | 0 <= p < PAGES ensures FlatOf(h, s)[p] == pages[p] {
      assert p == p / 1024 * 1024 + p % 1024;
    }
  }

  /** What a caller can check before a `kfree`: the pointer is NULL, or the block is clean to free and no process
      depends on it. */
  ghost predicate SafeToFree(h: Heap, ptr: u32, procs: set<Owner>)
    reads h.table, set q | q in procs :: q.allocations
  {
    ptr == NULL || (CleanToFree(h.table[..], h.AddressBlock(ptr)) && forall q :: q in procs ==>
      h.AddressBlock(ptr) !in Footprint(h, q))
  }

  /** `kfree` of any pointer at all leaves heap and processes well formed exactly when it is safe to free. */
  method KfreeAnything(h: Heap, ptr: u32, ghost procs: set<Owner>)
    requires h.Valid() && AllOk(h, procs)
    modifies h, h.table
    ensures h.Valid() && AllOk(h, procs) <==> old(SafeToFree(h, ptr, procs))
    ensures old(SafeToFree(h, ptr, procs)) ==> forall q :: q in procs ==> OwnerKept(h, q)
    ensures h.table[..] == if ptr == NULL then old(h.table[..]) else Freed(old(h.table[..]), h.AddressBlock(ptr))
    ensures h.live == if ptr == NULL then old(h.live)
      else RunsAfterFree(old(h.table[..]), old(h.live), h.AddressBlock(ptr))
  {
    hide Encodes, Frame, CleanToFree, Freed, PagesOk, SlotsOk;
    ghost var runs, b := h.live, h.AddressBlock(ptr);
    h.Free(ptr);
    assert forall q :: q in procs ==>
      q.allocations[..] == old(q.allocations[..]) && Footprint(h, q) == old(Footprint(h, q));
    if old(SafeToFree(h, ptr, procs)) {
      forall q | q in procs ensures OwnerKept(h, q) {
        assert forall i :: 0 <= i < 1026 ==> q.space.blocks[i] in BlockSet(q.space.blocks);
        if ptr != NULL && b in runs {
          SlotsOkShrink(h, runs, q.allocations[..], q.space, q.kept, b);
        }
        SameFlat(h, q.space, old(FlatOf(h, q.space)));
      }
    } else if h.Valid() && AllOk(h, procs) {
      forall q | q in procs ensures b !in Footprint(h, q) {
        FootprintIsLive(h, q);
      }
    }
  }

  /** `kfree` of a live run disturbs no process that does not depend on it. */
  method FreeFramed(h: Heap, ptr: u32, ghost procs: set<Owner>)
    requires h.Valid() && ptr != NULL && h.AddressBlock(ptr) in h.live && AllOk(h, procs)
    requires forall q :: q in procs ==> h.AddressBlock(ptr) !in Footprint(h, q)
    modifies h, h.table
    ensures h.Valid() && h.live == old(h.live) - {h.AddressBlock(ptr)}
    ensures h.table[..] == Freed(old(h.table[..]), h.AddressBlock(ptr))
    ensures forall q :: q in procs ==> OwnerKept(h, q)
  {
    hide FlatOf, Encodes, CleanToFree, Freed, ProcessOk, Footprint;
    h.LiveIsClean(h.AddressBlock(ptr));
    KfreeAnything(h, ptr, procs);
  }

  /** `paging_map_to` disturbs no process with other tables. */
  method MapToFramed(h: Heap, p: Owner, virt: u32, phys: u32, physEnd: u32, flags: u32, ghost procs: set<Owner>)
    returns (res: i32)
    requires SpaceIn(h, p.space) && p.chunk == h.BlockAddress(p.space.blocks[1025]) && AllOk(h, procs)
    requires forall q :: q in procs ==> BlockSet(q.space.blocks) !! BlockSet(p.space.blocks)
    modifies h.memory
    ensures SpaceIn(h, p.space)
    ensures res == if MapToSucceeds(virt, phys, physEnd) then OK else EINVAGS
    ensures FlatOf(h, p.space) == MapToPages(old(FlatOf(h, p.space)), virt, phys, physEnd, flags)
    ensures OnlyBlocksChange(h, BlockSet(p.space.blocks))
    ensures forall q :: q in procs ==> OwnerKept(h, q)
  {
    hide Encodes, Frame, MapToPages, MapToSucceeds, PagesOk, SlotsOk;
    ghost var s := p.space;
    res := PagingMapTo(h, p.chunk, virt, phys, physEnd, flags, s);
    forall i | IsTable(s, i) ensures i in BlockSet(s.blocks) {
    }
    forall q | q in procs ensures OwnerKept(h, q) {
      forall i | 0 <= i < 1026 ensures q.space.blocks[i] in BlockSet(q.space.blocks) && !IsTable(s, q.space.blocks[i]) {
      }
      assert q.allocations[..] == old(q.allocations[..]);
      SameFlat(h, q.space, old(FlatOf(h, q.space)));
    }
  }

  // ----- the operations

  /** `process_find_free_allocations_index`. */
  method FindFreeSlot(p: Owner) returns (index: int)
    requires p.allocations.Length == KERNEL_MAX_PROGRAM_ALLOCATIONS
    ensures index == ENOMEM || 0 <= index < p.allocations.Length
    ensures index < 0 ==> forall i :: 0 <= i < p.allocations.Length ==> p.allocations[i].ptr != NULL
    ensures index >= 0 ==> p.allocations[index].ptr == NULL && forall i :: 0 <= i < index ==>
      p.allocations[i].ptr != NULL
  {
    index := 0;
    while index < KERNEL_MAX_PROGRAM_ALLOCATIONS
      invariant 0 <= index <= p.allocations.Length
      invariant forall i :: 0 <= i < index ==> p.allocations[i].ptr != NULL
    {
      if p.allocations[index].ptr == NULL {
        return;
      }
      index := index + 1;
    }
    index := ENOMEM;
  }

  /** `process_get_allocation_index_by_addr`. */
  method FindSlot(p: Owner, ptr: u32) returns (index: int)
    requires p.allocations.Length == KERNEL_MAX_PROGRAM_ALLOCATIONS
    ensures -1 <= index < p.allocations.Length
    ensures index < 0 <==> forall i :: 0 <= i < p.allocations.Length ==> p.allocations[i].ptr != ptr
    ensures index >= 0 ==> p.allocations[index].ptr == ptr && forall i :: 0 <= i < index ==> p.allocations[i].ptr != ptr
  {
    index := 0;
    while index < KERNEL_MAX_PROGRAM_ALLOCATIONS
      invariant 0 <= index <= p.allocations.Length
      invariant forall i :: 0 <= i < index ==> p.allocations[i].ptr != ptr
    {
      if p.allocations[index].ptr == ptr {
        return;
      }
      index := index + 1;
    }
    index := -1;
  }

  ghost predicate NoSlot(slots: seq<Allocation>) {
    forall i :: 0 <= i < |slots| ==> slots[i].ptr != NULL
  }

  /** Slot i was free and now holds a; the others are as before. */
  ghost predicate Recorded(slots: seq<Allocation>, slots': seq<Allocation>, i: nat, a: Allocation) {
    i < |slots| && slots[i].ptr == NULL && slots' == slots[i := a]
  }

  /** The second half of `process_malloc`: map the new run to itself and store it in the free slot. The heap's layout
      makes the mapping succeed. */
  method MapAndRecord(h: Heap, p: Owner, index: nat, ptr: u32, size: u32, ghost runs: Runs, ghost others: set<Owner>)
    returns (ret: i32)
    requires ProcessOk(h, p) && AllOk(h, others) && AllApart(h, p, others)
    requires index < p.allocations.Length && p.allocations[index].ptr == NULL
      && SlotsOk(h, runs, p.allocations[..], p.space, p.kept)
    requires var b := h.AddressBlock(ptr);
      && ptr == h.BlockAddress(b) && b !in runs && h.live == runs[b := BlocksFor(size)] && b !in p.space.blocks
      && BlocksFor(size) > 0 && b + BlocksFor(size) <= h.table.Length
    requires forall q :: q in others ==> Footprint(h, q) <= runs.Keys
    modifies h.memory, p.allocations
    ensures ret == OK && ProcessOk(h, p) && AllOk(h, others) && AllApart(h, p, others)
    ensures p.allocations[..] == old(p.allocations[..])[index := Allocation(ptr, size)]
    ensures FlatOf(h, p.space) == MapToPages(old(FlatOf(h, p.space)), ptr, ptr, AlignUp(Add32(ptr, size)), USER_PAGE)
    ensures OnlyBlocksChange(h, BlockSet(p.space.blocks))
    ensures forall q :: q in others ==> OwnerKept(h, q)
    ensures Footprint(h, p) == old(Footprint(h, p)) + {h.AddressBlock(ptr)}
  {
    hide Encodes, Frame, BlocksFor, AlignUp, MapToPages, FlatOf, Add32, Heap.BlockAddress, Heap.AddressBlock, PagesOk,
      SlotOk, LiveRowsKept, MapToSucceeds, SpaceIn;
    ghost var slots, pages, b := p.allocations[..], FlatOf(h, p.space), h.AddressBlock(ptr);
    RecordRun(h, runs, slots, p.space, p.kept, p.reach, pages, index, b, size);
    MapRunToItself(h, pages, b, size, USER_PAGE);
    assert forall q :: q in others ==> q.allocations[..] == old(q.allocations[..]);
    ret := MapToFramed(h, p, ptr, ptr, AlignUp(Add32(ptr, size)), USER_PAGE, others);
    if ret >= 0 {
      p.allocations[index] := Allocation(ptr, size);
      assert p.allocations[..] == slots[index := Allocation(ptr, size)];
    }
  }

  /** A run just taken for the process, still in no slot. */
  ghost predicate Taken(h: Heap, p: Owner, ptr: u32, size: u32, runs: Runs, others: set<Owner>)
    reads h, set q | q in others :: q.allocations
  {
    var b := h.AddressBlock(ptr);
    && ptr != NULL && ptr == h.BlockAddress(b) && b !in runs && h.live == runs[b := BlocksFor(size)]
    && BlocksFor(size) > 0 && b + BlocksFor(size) <= h.table.Length
    && forall q :: q in others ==> Footprint(h, q) <= runs.Keys
  }

  /** What `process_malloc` does with its run: give it a slot and map it, or give it back when no slot is free. */
  method PlaceRun(h: Heap, p: Owner, ptr: u32, size: u32, ghost runs: Runs, ghost others: set<Owner>) returns (ret: i32)
    requires ProcessOk(h, p) && AllOk(h, others) && AllApart(h, p, others)
    requires Taken(h, p, ptr, size, runs, others + {p}) && SlotsOk(h, runs, p.allocations[..], p.space, p.kept)
    modifies h, h.table, h.memory, p.allocations
    ensures ProcessOk(h, p) && AllApart(h, p, others)
    ensures ret == if NoSlot(old(p.allocations[..])) then ENOMEM else OK
    ensures ret != OK ==>
      && h.live == runs && h.table[..] == Freed(old(h.table[..]), h.AddressBlock(ptr))
      && p.allocations[..] == old(p.allocations[..]) && FlatOf(h, p.space) == old(FlatOf(h, p.space))
    ensures ret == OK ==>
      && h.live == old(h.live) && h.table[..] == old(h.table[..])
      && Footprint(h, p) == old(Footprint(h, p)) + {h.AddressBlock(ptr)}
      && FlatOf(h, p.space) == MapToPages(old(FlatOf(h, p.space)), ptr, ptr, AlignUp(Add32(ptr, size)), USER_PAGE)
      && exists i :: Recorded(old(p.allocations[..]), p.allocations[..], i, Allocation(ptr, size))
    ensures OnlyBlocksChange(h, BlockSet(p.space.blocks))
    ensures forall q :: q in others ==> OwnerKept(h, q)
  {
    hide Encodes, Frame, BlocksFor, AlignUp, MapToPages, Freed, FlatOf, Add32, Heap.BlockAddress, Heap.AddressBlock,
      PagesOk, SlotOk, SpaceIn;
    ghost var slots := p.allocations[..];
    var index := FindFreeSlot(p);
    if index < 0 {
      ret := ENOMEM;
      FreeFramed(h, ptr, others + {p});
      assert OwnerKept(h, p);
    } else {
      assert h.AddressBlock(ptr) !in BlockSet(p.space.blocks) + p.kept.Keys;
      ret := MapAndRecord(h, p, index, ptr, size, runs, others);
      assert Recorded(slots, p.allocations[..], index, Allocation(ptr, size));
    }
  }

  lemma RecordedReached(h: Heap, p: Owner, slots: seq<Allocation>, i: nat, a: Allocation)
    requires ProcessOk(h, p) && Recorded(slots, p.allocations[..], i, a) && a.ptr != NULL
    ensures RangeReached(h, p, a.ptr, a.size)
  {
    hide ProcessOk, RangeReached;
    assert p.allocations[..][i] == a;
    HeldIsReached(h, p, i);
  }

  /** No page-table block lies in another run. */
  lemma TablesOutside(h: Heap, s: Space, b: nat)
    requires SpaceIn(h, s) && b in h.live && b !in BlockSet(s.blocks)
    ensures forall i: nat :: b <= i < b + h.live[b] ==> i !in BlockSet(s.blocks)
  {
    hide Encodes, Frame;
    forall i: nat | b <= i < b + h.live[b] ensures i !in BlockSet(s.blocks) {
      if i in BlockSet(s.blocks) {
        var k :| 0 <= k < |s.blocks| && s.blocks[k] == i;
        h.LiveRunsApart(b, i);
      }
    }
  }

  /** `process_malloc`: the run, its slot and its pages appear together or not at all. */
  method ProcessMalloc(h: Heap, p: Owner, size: u32, ghost others: set<Owner>) returns (ptr: u32)
    requires ProcessOk(h, p) && AllOk(h, others) && AllApart(h, p, others)
    modifies h, h.table, h.memory, p.allocations
    ensures ProcessOk(h, p) && AllApart(h, p, others)
    ensures ptr == NULL <==> NoRoom(old(h.table[..]), BlocksFor(size)) || NoSlot(old(p.allocations[..]))
    ensures ptr == NULL ==>
      && h.live == old(h.live) && h.table[..] == old(h.table[..])
      && p.allocations[..] == old(p.allocations[..]) && FlatOf(h, p.space) == old(FlatOf(h, p.space))
    ensures ptr != NULL ==> var b := h.AddressBlock(ptr);
      && ptr == h.BlockAddress(b) && b !in old(h.live) && h.live == old(h.live)[b := BlocksFor(size)]
      && size <= BlocksFor(size) * PAGE_SIZE && b == FirstFit(old(h.table[..]), BlocksFor(size))
      && h.table[..] == Take(old(h.table[..]), size) && Zeroed(h, b, BlocksFor(size))
      && Footprint(h, p) == old(Footprint(h, p)) + {b}
      && FlatOf(h, p.space) == MapToPages(old(FlatOf(h, p.space)), ptr, ptr, AlignUp(Add32(ptr, size)), USER_PAGE)
      && exists i :: Recorded(old(p.allocations[..]), p.allocations[..], i, Allocation(ptr, size))
    ensures ptr != NULL ==> RangeReached(h, p, ptr, size)
    ensures LiveRowsKept(h, BlockSet(p.space.blocks))
    ensures forall q :: q in others ==> OwnerKept(h, q)
  {
    hide Encodes, Frame, BlocksFor, AlignUp, MapToPages, Freed, NoRoom, FlatOf, Add32, Heap.BlockAddress,
      Heap.AddressBlock, PagesOk, SlotsOk, SpaceIn, Holdings, Recorded, RangeReached, OpenDirectory;
    ghost var runs := h.live;
    forall q | q in others + {p} ensures Footprint(h, q) <= h.live.Keys {
      FootprintIsLive(h, q);
    }
    ptr := ZallocFramed(h, size, others + {p});
    assert OwnerKept(h, p);
    if ptr != NULL {
      assert forall q :: q in others + {p} ==> Footprint(h, q) == old(Footprint(h, q)) by {
        assert forall q :: q in others + {p} ==> OwnerKept(h, q);
      }
      BlocksHoldSize(size);
      TablesOutside(h, p.space, h.AddressBlock(ptr));
      var ret := PlaceRun(h, p, ptr, size, runs, others);
      if ret < 0 {
        ptr := NULL;
      } else {
        ghost var i: nat :| Recorded(old(p.allocations[..]), p.allocations[..], i, Allocation(ptr, size));
        RecordedReached(h, p, old(p.allocations[..]), i, Allocation(ptr, size));
      }
    }
  }

  /** A run mapped with no flags is closed to the program. */
  lemma UnmappedIsClosed(h: Heap, p: Owner, pages: Flat, b: nat, ptr: u32, size: u32)
    requires ProcessOk(h, p) && |pages| == PAGES && ptr == h.BlockAddress(b)
    requires BlocksFor(size) > 0 && b + BlocksFor(size) <= h.table.Length && ptr + size < TWO32
    requires FlatOf(h, p.space) == MapToPages(pages, ptr, ptr, AlignUp(Add32(ptr, size)), 0)
    ensures RangeClosed(h, p, ptr, size)
  {
    hide Encodes, Frame, FlatOf, SpaceIn, SlotsOk, PagesOk, BlocksFor, UserReaches, MapToPages, MapToSucceeds, AlignUp,
      Add32, Heap.AddressBlock, Heap.BlockAddress;
    MapRunToItself(h, pages, b, size, 0);
    forall va: u32, write: bool, phys: int | ptr <= va < ptr + size ensures !UserReaches(h, p, va, write, phys) {
      var q := BlockOfAddress(h, b, ptr, size, va);
      h.BlockAddressRoundTrip(q);
      assert FlatOf(h, p.space)[va / 4096] == h.BlockAddress(q);
      UserWalksFlat(h, p, va, write, phys);
      LowThree(h.BlockAddress(q), h.BlockAddress(q) / 4096, 0);
    }
  }

  /** The second half of `process_free`: unmap the slot's run, clear the slot and free the run. */
  method ReleaseSlot(h: Heap, p: Owner, index: nat, ghost others: set<Owner>)
    requires ProcessOk(h, p) && AllOk(h, others) && AllApart(h, p, others)
    requires index < p.allocations.Length && p.allocations[index].ptr != NULL
    modifies h, h.table, h.memory, p.allocations
    ensures ProcessOk(h, p) && AllOk(h, others) && AllApart(h, p, others)
    ensures var a := old(p.allocations[index]);
      && h.live == old(h.live) - {h.AddressBlock(a.ptr)}
      && Footprint(h, p) == old(Footprint(h, p)) - {h.AddressBlock(a.ptr)}
      && FlatOf(h, p.space) == MapToPages(old(FlatOf(h, p.space)), a.ptr, a.ptr, AlignUp(Add32(a.ptr, a.size)), 0)
      && RangeClosed(h, p, a.ptr, a.size)
    ensures p.allocations[..] == old(p.allocations[..])[index := Allocation(NULL, 0)]
    ensures OnlyBlocksChange(h, BlockSet(p.space.blocks))
    ensures forall q :: q in others ==> OwnerKept(h, q)
  {
    hide Encodes, Frame, BlocksFor, AlignUp, MapToPages, Freed, FlatOf, Add32, Heap.BlockAddress, Heap.AddressBlock,
      PagesOk, SpaceIn, MapToSucceeds;
    ghost var slots, pages := p.allocations[..], FlatOf(h, p.space);
    var ptr := p.allocations[index].ptr;
    ghost var b := h.AddressBlock(ptr);
    assert SlotOk(h, h.live, slots[index], p.space, p.kept);
    b := SlotRun(h, p, index);
    ForgetRun(h, h.live, slots, p.space, p.kept, p.reach, pages, index);
    assert b in Holdings(h, slots);
    var allocation := p.allocations[index];
    var res := MapToFramed(h, p, ptr, allocation.ptr, AlignUp(Add32(allocation.ptr, allocation.size)), 0, others);
    p.allocations[index] := Allocation(NULL, 0);
    assert p.allocations[..] == slots[index := Allocation(NULL, 0)];
    SlotsOkGrow(h, h.live - {b}, p.allocations[..], p.space, p.kept, b, h.live[b]);
    assert (h.live - {b})[b := h.live[b]] == h.live;
    FreeFramed(h, ptr, others + {p});
    UnmappedIsClosed(h, p, pages, b, ptr, slots[index].size);
  }

  /** `process_free`: any pointer may be passed; one that is not the start of a run the process holds changes nothing
      at all. */
  method ProcessFree(h: Heap, p: Owner, ptr: u32, ghost others: set<Owner>)
    requires ProcessOk(h, p) && AllOk(h, others) && AllApart(h, p, others)
    modifies h, h.table, h.memory, p.allocations
    ensures ProcessOk(h, p) && AllOk(h, others) && AllApart(h, p, others)
    ensures (ptr == NULL || forall i :: 0 <= i < p.allocations.Length ==> old(p.allocations[i].ptr) != ptr) ==>
      h.live == old(h.live) && h.table[..] == old(h.table[..]) && p.allocations[..] == old(p.allocations[..])
      && FlatOf(h, p.space) == old(FlatOf(h, p.space)) && OnlyBlocksChange(h, {})
    ensures forall i :: 0 <= i < p.allocations.Length && ptr != NULL && old(p.allocations[i].ptr) == ptr ==>
      && h.live == old(h.live) - {h.AddressBlock(ptr)}
      && p.allocations[..] == old(p.allocations[..])[i := Allocation(NULL, 0)]
      && Footprint(h, p) == old(Footprint(h, p)) - {h.AddressBlock(ptr)}
      && FlatOf(h, p.space) == MapToPages(old(FlatOf(h, p.space)), ptr, ptr,
        AlignUp(Add32(ptr, old(p.allocations[i].size))), 0)
      && RangeClosed(h, p, ptr, old(p.allocations[i].size))
    ensures OnlyBlocksChange(h, BlockSet(p.space.blocks))
    ensures forall q :: q in others ==> OwnerKept(h, q)
  {
    hide Encodes, Frame, BlocksFor, AlignUp, MapToPages, Freed, FlatOf, Add32, Heap.BlockAddress, Heap.AddressBlock,
      PagesOk, SlotOk, SpaceIn, Footprint;
    if ptr == NULL {
      return;
    }
    var index := FindSlot(p, ptr);
    if index < 0 {
      return;
    }
    assert forall i :: 0 <= i < p.allocations.Length && p.allocations[i].ptr == ptr ==> i == index;
    ReleaseSlot(h, p, index, others);
  }

  /** `process_terminate_allocations`: empties the table and takes from the live set exactly the runs the process
      held. */
  method ProcessTerminateAllocations(h: Heap, p: Owner, ghost others: set<Owner>)
    requires ProcessOk(h, p) && AllOk(h, others) && AllApart(h, p, others)
    modifies h, h.table, h.memory, p.allocations
    ensures ProcessOk(h, p) && AllOk(h, others) && AllApart(h, p, others)
    ensures forall i :: 0 <= i < p.allocations.Length ==> p.allocations[i].ptr == NULL
    ensures h.live == old(h.live) - old(Holdings(h, p.allocations[..]))
    ensures OnlyBlocksChange(h, BlockSet(p.space.blocks))
    ensures forall q :: q in others ==> OwnerKept(h, q)
  {
    hide Encodes, Frame, SpaceIn, FlatOf, PagesOk, SlotOk, Heap.AddressBlock, Heap.BlockAddress, Footprint;
    ghost var runs, slots := h.live, p.allocations[..];
    var i := 0;
    while i < KERNEL_MAX_PROGRAM_ALLOCATIONS
      invariant 0 <= i <= p.allocations.Length == KERNEL_MAX_PROGRAM_ALLOCATIONS == |slots|
      invariant ProcessOk(h, p) && AllOk(h, others) && AllApart(h, p, others)
      invariant forall k :: 0 <= k < i ==> p.allocations[k].ptr == NULL
      invariant forall k :: i <= k < |slots| ==> p.allocations[k] == slots[k]
      invariant h.live == runs - Holdings(h, slots[..i])
      invariant OnlyBlocksChange(h, BlockSet(p.space.blocks))
      invariant forall q :: q in others ==> OwnerKept(h, q)
    {
      ghost var before := p.allocations[..];
      ProcessFree(h, p, p.allocations[i].ptr, others);
      HoldingsOfPrefix(h, slots, i);
      if before[i].ptr != NULL {
        assert forall k :: 0 <= k < |slots| && k != i && before[k].ptr == before[i].ptr ==> false;
        assert h.live == (runs - Holdings(h, slots[..i])) - {h.AddressBlock(slots[i].ptr)};
      }
      i := i + 1;
    }
    assert slots[..i] == slots;
  }

  lemma HoldingsOfPrefix(h: Heap, slots: seq<Allocation>, i: nat)
    requires i < |slots|
    ensures Holdings(h, slots[..i + 1]) == Holdings(h, slots[..i]) + (if slots[i].ptr == NULL then {}
      else {h.AddressBlock(slots[i].ptr)})
  {
    forall b | b in Holdings(h, slots[..i]) ensures b in Holdings(h, slots[..i + 1]) {
      var k :| 0 <= k < i && slots[..i][k].ptr != NULL && b == h.AddressBlock(slots[..i][k].ptr);
      assert slots[..i + 1][k] == slots[k];
    }
    forall b | b in Holdings(h, slots[..i + 1])
      ensures b in Holdings(h, slots[..i]) || (slots[i].ptr != NULL && b == h.AddressBlock(slots[i].ptr)) {
      var k :| 0 <= k < i + 1 && slots[..i + 1][k].ptr != NULL && b == h.AddressBlock(slots[..i + 1][k].ptr);
      if k < i {
        assert slots[..i][k] == slots[k];
      }
    }
    if slots[i].ptr != NULL {
      assert slots[..i + 1][i] == slots[i];
    }
  }
}
