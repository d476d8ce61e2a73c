/**
  The pages of a loaded program (kernel/sched.c): its image, its stack, and what a program may write through them.
 */
module ProgramPages {
  import opened Machine
  import opened HeapTable
  import opened KernelHeap
  import opened Paging
  import opened AddressSpace
  import opened ProcessMemory
  import opened ElfLoader

  const KERNEL_PROGRAM_VIRTUAL_ADDRESS: u32 := 0x40_0000
  const KERNEL_PROGRAM_VIRTUAL_STACK_ADDRESS_END: u32 := 0x3F_B000
  const KERNEL_USER_PROGRAM_STACK_SIZE: u32 := 16384
  const STACK_BLOCKS: nat := 4

  /** What opening the program's file takes from the heap: the number of parts of its path, the sizes of what walking
      through its directories loses, whether the file is found there, and whether it can be read. */
  datatype Opening = Opening(parts: nat, lookup: seq<u32>, found: bool, readable: bool)

  /** A program file: an ELF image with its program headers, or bytes mapped as they are. */
  datatype Program =
    | Elf(size: u32, phdrs: seq<Phdr>, opening: Opening)
    | Binary(size: u32, opening: Opening)

  // ----- mapping a program's pages

  /** The addresses [virt, virt + span) hold no address of the heap. */
  predicate ClearOfHeap(h: Heap, virt: u32, span: int) {
    virt + span <= h.saddr || h.saddr + h.table.Length * PAGE_SIZE <= virt
  }

  predicate RunSpans(h: Heap, runs: Runs, b: nat, phys: u32, physEnd: u32) {
    && b in runs && b + runs[b] <= h.table.Length
    && h.saddr + b * PAGE_SIZE <= phys && physEnd <= h.saddr + (b + runs[b]) * PAGE_SIZE
  }

  /** The physical range [phys, physEnd) lies in one of these runs. */
  ghost predicate InRun(h: Heap, runs: Runs, phys: u32, physEnd: u32) {
    exists b: nat :: RunSpans(h, runs, b, phys, physEnd)
  }

  ghost predicate NobodyOwns(h: Heap, slots: seq<Allocation>) {
    forall q: nat :: !Owns(h, slots, q)
  }

  /** While nothing is allocated, mapping a range read-only or into the reach keeps the page map in step; a strict reach
      asks for a range clear of the heap's addresses. */
  lemma MapKeepsPages(
    h: Heap, slots: seq<Allocation>, reach: Reach, pages: Flat, virt: u32, phys: u32, physEnd: u32, flags: u32)
    requires h.Region() && |pages| == PAGES && PagesOk(h, slots, reach, pages) && NobodyOwns(h, slots)
    requires flags < PAGE_SIZE && phys % PAGE_SIZE == 0 && (reach.strict ==> ClearOfHeap(h, virt, physEnd - phys))
    requires IsWriteable(flags) && phys < physEnd ==> InRun(h, reach.runs, phys, physEnd)
    ensures |MapToPages(pages, virt, phys, physEnd, flags)| == PAGES
    ensures PagesOk(h, slots, reach, MapToPages(pages, virt, phys, physEnd, flags))
  {
    hide Frame, Or32, EntryOk, Owns, HeapPage, Heap.BlockAddress;
    var pages' := MapToPages(pages, virt, phys, physEnd, flags);
    if virt % PAGE_SIZE == 0 && physEnd % PAGE_SIZE == 0 && phys <= physEnd {
      var first, n := virt / 4096, PagesBeforeNull(virt, (physEnd - phys) / 4096);
      forall v: nat | v < PAGES
        ensures pages'[v] == pages[v] || EntryOk(h, reach, pages'[v], !reach.strict || !HeapPage(h, v))
      {
        if first <= v < first + n {
          MappedPageOk(h, reach, pages, virt, phys, physEnd, flags, v);
        }
      }
      forall v: nat | v < PAGES && EntryOk(h, reach, pages'[v], !reach.strict || !HeapPage(h, v))
        ensures EntryOk(h, reach, pages'[v], true)
      {
        MayWeaken(h, reach, pages'[v]);
      }
      forall q: nat | q < h.table.Length ensures PageOf(h, q) < PAGES && HeapPage(h, PageOf(h, q)) {
        PageOfIsHeapPage(h, q);
      }
    }
  }

  lemma MayWeaken(h: Heap, reach: Reach, entry: u32)
    ensures EntryOk(h, reach, entry, false) ==> EntryOk(h, reach, entry, true)
  {
  }

  lemma PageOfIsHeapPage(h: Heap, q: nat)
    requires h.Region() && q < h.table.Length
    ensures PageOf(h, q) < PAGES && HeapPage(h, PageOf(h, q))
  {
  }

  lemma MappedPageOk(
    h: Heap, reach: Reach, pages: Flat, virt: u32, phys: u32, physEnd: u32, flags: u32, v: nat)
    requires h.Region() && |pages| == PAGES && flags < PAGE_SIZE && v < PAGES
    requires virt % PAGE_SIZE == phys % PAGE_SIZE == physEnd % PAGE_SIZE == 0
    requires reach.strict ==> ClearOfHeap(h, virt, physEnd - phys)
    requires virt / 4096 <= v < virt / 4096 + PagesBeforeNull(virt, (physEnd - phys) / 4096)
    requires IsWriteable(flags) && phys < physEnd ==> InRun(h, reach.runs, phys, physEnd)
    ensures var entry := MapToPages(pages, virt, phys, physEnd, flags)[v];
      EntryOk(h, reach, entry, !reach.strict || !HeapPage(h, v))
  {
    hide Frame, Or32, IsWriteable, Heap.BlockAddress, PageOf;
    var k := v - virt / 4096;
    var base := phys + k * 4096;
    assert k < (physEnd - phys) / 4096 && base < physEnd && Wrap(base) == base;
    var entry := MapToPages(pages, virt, phys, physEnd, flags)[v];
    assert entry == Or32(base, flags);
    OrFlags(base, flags);
    FlagsOfSum(base, flags);
    if IsWriteable(entry) {
      var b: nat :| RunSpans(h, reach.runs, b, phys, physEnd);
      var first, page := h.saddr / 4096, phys / 4096;
      assert h.saddr == first * 4096 && phys == page * 4096;
      assert first + b <= page && page + k < first + b + reach.runs[b];
      var q: nat := page - first + k;
      assert base == h.saddr + q * 4096 && b <= q < b + reach.runs[b];
      h.BlockAddressRoundTrip(q);
      assert Covers(reach.runs, b, q);
      assert LeadsTo(h, reach.runs, entry, q);
    }
  }

  lemma FlagsOfSum(base: u32, flags: u32)
    requires base % PAGE_SIZE == 0 && flags < PAGE_SIZE
    ensures IsWriteable(base + flags) <==> IsWriteable(flags)
  {
    var frame := base / 4096;
    assert base + flags == 4 * (1024 * frame) + flags;
  }

  // ----- which programs stay in their own memory

  predicate Writes(p: Phdr) {
    BitAnd(p.pFlags, PF_W) != 0
  }

  /** A writable segment lies inside an image of n blocks. */
  predicate SegmentContained(n: nat, p: Phdr) {
    Writes(p) && p.pMemsz > 0 ==> p.pOffset + p.pMemsz <= n * PAGE_SIZE
  }

  /** What can be read off a program file before it is loaded: its writable segments lie inside it. */
  predicate Contained(program: Program) {
    program.Elf? ==> forall i :: 0 <= i < |program.phdrs| ==>
      SegmentContained(BlocksFor(program.size), program.phdrs[i])
  }

  /** The program's pages and its stack are clear of the heap's addresses. */
  predicate Clear(h: Heap, program: Program) {
    && ClearOfHeap(h, KERNEL_PROGRAM_VIRTUAL_STACK_ADDRESS_END, KERNEL_USER_PROGRAM_STACK_SIZE)
    && match program
       case Elf(_, phdrs, _) => forall i :: 0 <= i < |phdrs| ==> ClearOfHeap(h, SegVirt(phdrs[i]), SegSpan(phdrs[i]))
       case Binary(size, _) => ClearOfHeap(h, KERNEL_PROGRAM_VIRTUAL_ADDRESS, BlocksFor(size) * PAGE_SIZE)
  }

  /** The physical range of a segment that maps any page lies inside the image exactly when its offset and size do,
      wrap-around of either sum included. */
  lemma SegmentInImage(memory: u32, p: Phdr, n: nat)
    requires memory % PAGE_SIZE == 0 && memory + n * PAGE_SIZE < TWO32
    requires SegSucceeds(memory, p) && SegPhys(memory, p) < SegPhysEnd(memory, p)
    ensures memory <= SegPhys(memory, p) && SegPhysEnd(memory, p) <= memory + n * PAGE_SIZE
      <==> p.pOffset + p.pMemsz <= n * PAGE_SIZE
  {
    hide AlignUp;
    var phys, end := SegPhys(memory, p), SegPhysEnd(memory, p);
    SegmentEndsAt(phys, p.pMemsz);
    PagesInRun(memory, n, phys, p.pMemsz, end);
    assert p.pOffset == if memory <= phys then phys - memory else phys - memory + TWO32;
  }

  /** A page range that holds `size` bytes from its start lies in a run of pages if the bytes do. */
  lemma PagesInRun(memory: int, n: nat, phys: int, size: int, end: int)
    requires memory % 4096 == 0 && phys % 4096 == 0 && end % 4096 == 0
    requires phys + size <= end < phys + size + 4096
    ensures end <= memory + n * 4096 <==> phys + size <= memory + n * 4096
  {
    var m, e := memory / 4096, end / 4096;
    assert memory == 4096 * m && end == 4096 * e;
  }

  /** An end rounded up beyond its start is the sum rounded up, without wrap. */
  lemma SegmentEndsAt(phys: u32, size: u32)
    requires phys % PAGE_SIZE == 0
    ensures var end := AlignUp(Add32(phys, size));
      && (end > phys ==>
        phys + size <= 0xFFFF_F000 && phys + size <= end < phys + size + PAGE_SIZE && end % PAGE_SIZE == 0)
      && end - phys <= (size + PAGE_SIZE - 1) / PAGE_SIZE * PAGE_SIZE
  {
    AlignUpMeaning(Add32(phys, size));
    var base, n := phys / 4096, (size + 4095) / 4096;
    assert phys == base * 4096 && n * 4096 - 4096 < size <= n * 4096;
  }

  lemma WritableInside(memory: u32, p: Phdr, n: nat)
    requires memory % PAGE_SIZE == 0 && memory + n * PAGE_SIZE < TWO32 && p.pOffset + p.pMemsz <= n * PAGE_SIZE
    requires SegPhys(memory, p) % PAGE_SIZE == 0
    ensures SegPhys(memory, p) == memory + p.pOffset && SegPhysEnd(memory, p) <= memory + n * PAGE_SIZE
  {
    var end, m := memory + p.pOffset + p.pMemsz, memory / 4096;
    assert memory == m * 4096;
    assert end <= (m + n) * 4096 < TWO32;
    AlignUpMeaning(end);
  }

  /** Mapping a contained segment of an image in the reach keeps the page map in step. */
  lemma SegmentKeepsPages(h: Heap, slots: seq<Allocation>, reach: Reach, pages: Flat, b: nat, p: Phdr)
    requires h.Region() && |pages| == PAGES && PagesOk(h, slots, reach, pages) && NobodyOwns(h, slots)
    requires b in reach.runs && b + reach.runs[b] <= h.table.Length && reach.runs[b] > 0
    requires SegmentContained(reach.runs[b], p) && (reach.strict ==> ClearOfHeap(h, SegVirt(p), SegSpan(p)))
    ensures var pages' := SegPages(pages, h.BlockAddress(b), p); |pages'| == PAGES && PagesOk(h, slots, reach, pages')
  {
    hide PagesOk, BitAnd, AlignUp, Add32, MapPages, PagesBeforeNull;
    var memory := h.BlockAddress(b);
    h.BlockAddressRoundTrip(b);
    var phys, end := SegPhys(memory, p), SegPhysEnd(memory, p);
    MapToLength(pages, SegVirt(p), phys, end, SegFlags(p));
    if phys % PAGE_SIZE == 0 {
      SegmentEndsAt(phys, p.pMemsz);
      if Writes(p) && phys < end {
        WritableInside(memory, p, reach.runs[b]);
        assert RunSpans(h, reach.runs, b, phys, end);
      }
      MapKeepsPages(h, slots, reach, pages, SegVirt(p), phys, end, SegFlags(p));
    }
  }

  /** So does mapping all segments of a contained image, up to the first that fails. */
  lemma {:induction false} ElfKeepsPages(
    h: Heap, slots: seq<Allocation>, reach: Reach, pages: Flat, b: nat, phdrs: seq<Phdr>)
    requires h.Region() && |pages| == PAGES && PagesOk(h, slots, reach, pages) && NobodyOwns(h, slots)
    requires b in reach.runs && b + reach.runs[b] <= h.table.Length && reach.runs[b] > 0
    requires forall i :: 0 <= i < |phdrs| ==>
      SegmentContained(reach.runs[b], phdrs[i])
        && (reach.strict ==> ClearOfHeap(h, SegVirt(phdrs[i]), SegSpan(phdrs[i])))
    ensures var pages' := ElfPages(pages, h.BlockAddress(b), phdrs);
      |pages'| == PAGES && PagesOk(h, slots, reach, pages')
    decreases |phdrs|
  {
    hide PagesOk, SegPages, SegSucceeds, SegmentContained, ClearOfHeap, NobodyOwns, Heap.BlockAddress;
    if phdrs != [] {
      SegmentKeepsPages(h, slots, reach, pages, b, phdrs[0]);
      ElfKeepsPages(h, slots, reach, SegPages(pages, h.BlockAddress(b), phdrs[0]), b, phdrs[1..]);
    }
  }

  /** Every writable address of every segment translates into [from, to). */
  ghost predicate WritesReach(pages: Flat, phdrs: seq<Phdr>, from: int, to: int)
    requires |pages| == PAGES
  {
    forall i, va: u32 :: 0 <= i < |phdrs| && InSegment(phdrs[i], va) && IsWriteable(pages[va / PAGE_SIZE]) ==>
      from <= Translate(pages, va) < to
  }

  /** The writable addresses of an image's segments all reach the image's own run exactly when each writable segment's
      offset and size stay inside it: the loader checks neither. */
  lemma ImageWritesExact(pages: Flat, memory: u32, phdrs: seq<Phdr>, n: nat)
    requires |pages| == PAGES && ElfSucceeds(memory, phdrs) && SegmentsDisjoint(phdrs)
    requires forall i :: 0 <= i < |phdrs| ==> NoOverflow(memory, phdrs[i])
    requires memory % PAGE_SIZE == 0 && memory + n * PAGE_SIZE < TWO32
    ensures |ElfPages(pages, memory, phdrs)| == PAGES
    ensures WritesReach(ElfPages(pages, memory, phdrs), phdrs, memory, memory + n * PAGE_SIZE)
      <==> forall i :: 0 <= i < |phdrs| && Writes(phdrs[i]) && phdrs[i].pMemsz > 0 ==>
        phdrs[i].pOffset + phdrs[i].pMemsz <= n * PAGE_SIZE
  {
    hide BitAnd, Frame, ElfPages, SegSucceeds, NoOverflow, SegmentsDisjoint, Translate, IsWriteable;
    ElfMapped(pages, memory, phdrs);
    var pages' := ElfPages(pages, memory, phdrs);
    forall i, va: u32 | 0 <= i < |phdrs| && InSegment(phdrs[i], va)
      ensures IsWriteable(pages'[va / PAGE_SIZE]) <==> Writes(phdrs[i])
    {
      FlagBits(pages'[va / PAGE_SIZE], SegFlags(phdrs[i]));
    }
    forall i | 0 <= i < |phdrs| && Writes(phdrs[i]) && phdrs[i].pMemsz > 0
      ensures (forall va: u32 :: InSegment(phdrs[i], va) ==> memory <= Translate(pages', va) < memory + n * PAGE_SIZE)
        <==> phdrs[i].pOffset + phdrs[i].pMemsz <= n * PAGE_SIZE
    {
      SegmentBytesInside(memory, phdrs[i], n);
      SegmentFits(memory, phdrs[i]);
      var last: u32 := SegVirt(phdrs[i]) + SegSpan(phdrs[i]) - 1;
      assert InSegment(phdrs[i], last);
    }
  }

  lemma SegmentBytesInside(memory: u32, p: Phdr, n: nat)
    requires SegSucceeds(memory, p) && NoOverflow(memory, p) && memory % PAGE_SIZE == 0
    ensures p.pOffset + SegSpan(p) <= n * PAGE_SIZE <==> p.pOffset + p.pMemsz <= n * PAGE_SIZE
  {
    hide SegVirt, SegPhysEnd;
    SegUnfold([], memory, p);
    assert (memory + p.pOffset) % 4096 == 0;
    PageDifference(memory, memory + p.pOffset);
    RoundedInside(p.pOffset, p.pMemsz, n);
  }

  lemma PageDifference(from: nat, to: nat)
    requires from % 4096 == 0 && to % 4096 == 0
    ensures (to - from) % 4096 == 0
  {
    var a, b := from / 4096, to / 4096;
    assert from == 4096 * a && to == 4096 * b;
  }

  /** Rounding a size up to whole pages does not carry it past a page boundary it stays within. */
  lemma RoundedInside(offset: nat, size: nat, n: nat)
    requires offset % 4096 == 0
    ensures offset + (size + 4095) / 4096 * 4096 <= n * 4096 <==> offset + size <= n * 4096
  {
    var first, span := offset / 4096, (size + 4095) / 4096;
    assert offset == 4096 * first && span * 4096 - 4096 < size <= span * 4096;
    assert first + span <= n <==> 4096 * first + size <= n * 4096;
  }

  // ----- whole programs

  /** The pages of a program file, and of its stack on top of them. */
  function ImagePages(pages: Flat, image: u32, program: Program): Flat {
    match program
    case Elf(_, phdrs, _) => ElfPages(pages, image, phdrs)
    case Binary(size, _) =>
      MapToPages(pages, KERNEL_PROGRAM_VIRTUAL_ADDRESS, image, AlignUp(Add32(image, size)), USER_PAGE)
  }

  function StackPages(pages: Flat, stack: u32): Flat {
    MapToPages(pages, KERNEL_PROGRAM_VIRTUAL_STACK_ADDRESS_END, stack,
      AlignUp(Add32(stack, KERNEL_USER_PROGRAM_STACK_SIZE)), USER_PAGE)
  }

  predicate ImageMaps(image: u32, program: Program) {
    match program
    case Elf(_, phdrs, _) => ElfSucceeds(image, phdrs)
    case Binary(size, _) => MapToSucceeds(KERNEL_PROGRAM_VIRTUAL_ADDRESS, image, AlignUp(Add32(image, size)))
  }

  /** A page map that lets the program read every page and write none is in step while nothing is allocated. */
  lemma FreshPagesOk(h: Heap, slots: seq<Allocation>, reach: Reach)
    requires h.Region() && NobodyOwns(h, slots)
    ensures |IdentityMap(PRESENT + ACCESS_FROM_ALL)| == PAGES
    ensures PagesOk(h, slots, reach, IdentityMap(PRESENT + ACCESS_FROM_ALL))
  {
    hide Frame, Or32, IsWriteable, ReachesRun, PageOf, Owns;
    var pages := IdentityMap(PRESENT + ACCESS_FROM_ALL);
    forall v: nat | v < PAGES ensures !IsWriteable(pages[v]) {
      OrFlags(v * 4096, 5);
      FlagsOfSum(v * 4096, 5);
      FlagBits(5, 5);
    }
    forall q: nat | q < h.table.Length ensures PageOf(h, q) < PAGES {
      PageOfIsHeapPage(h, q);
    }
  }

  lemma StackBlocks()
    ensures BlocksFor(KERNEL_USER_PROGRAM_STACK_SIZE) == STACK_BLOCKS
  {
  }

  /** Mapping a run of the reach writable keeps the page map in step. */
  lemma RunMapKeepsPages(h: Heap, slots: seq<Allocation>, reach: Reach, pages: Flat, virt: u32, b: nat, size: u32)
    requires h.Region() && |pages| == PAGES && PagesOk(h, slots, reach, pages) && NobodyOwns(h, slots)
    requires b in reach.runs && b + reach.runs[b] <= h.table.Length && reach.runs[b] == BlocksFor(size) > 0
    requires reach.strict ==> ClearOfHeap(h, virt, reach.runs[b] * PAGE_SIZE)
    ensures var ptr := h.BlockAddress(b);
      var pages' := MapToPages(pages, virt, ptr, AlignUp(Add32(ptr, size)), USER_PAGE);
      |pages'| == PAGES && PagesOk(h, slots, reach, pages')
  {
    hide PagesOk, MapToPages, BlocksFor, AlignUp, Add32, NobodyOwns;
    h.BlockAddressRoundTrip(b);
    var ptr := h.BlockAddress(b);
    RunEnd(ptr, size);
    assert RunSpans(h, reach.runs, b, ptr, AlignUp(Add32(ptr, size)));
    MapKeepsPages(h, slots, reach, pages, virt, ptr, AlignUp(Add32(ptr, size)), USER_PAGE);
  }

  /** What a program may reach: its image and its stack. */
  function ProgramReach(h: Heap, image: u32, stack: u32, program: Program): Reach {
    Reach(map[h.AddressBlock(image) := BlocksFor(program.size), h.AddressBlock(stack) := STACK_BLOCKS],
      Clear(h, program))
  }

  /** The pointer is the start of n blocks of the heap. */
  predicate RunAt(h: Heap, ptr: u32, n: nat) {
    ptr == h.BlockAddress(h.AddressBlock(ptr)) && n > 0 && h.AddressBlock(ptr) + n <= h.table.Length
  }

  /** The pages of a contained program and its stack are in step with that reach. */
  lemma ProgramPagesOk(h: Heap, slots: seq<Allocation>, image: u32, stack: u32, program: Program)
    requires h.Region() && NobodyOwns(h, slots) && Contained(program)
    requires RunAt(h, image, BlocksFor(program.size)) && RunAt(h, stack, STACK_BLOCKS)
    requires h.AddressBlock(image) != h.AddressBlock(stack)
    ensures var pages := StackPages(ImagePages(IdentityMap(PRESENT + ACCESS_FROM_ALL), image, program), stack);
      |pages| == PAGES && PagesOk(h, slots, ProgramReach(h, image, stack, program), pages)
  {
    hide PagesOk, IdentityMap, SegmentContained, BlocksFor, AlignUp, Add32, MapToPages, RunSpans, ClearOfHeap,
      NobodyOwns, Heap.BlockAddress, Heap.AddressBlock;
    var b, c := h.AddressBlock(image), h.AddressBlock(stack);
    var reach := ProgramReach(h, image, stack, program);
    FreshPagesOk(h, slots, reach);
    var pages := IdentityMap(PRESENT + ACCESS_FROM_ALL);
    match program {
      case Elf(_, phdrs, _) => ElfKeepsPages(h, slots, reach, pages, b, phdrs);
      case Binary(size, _) => RunMapKeepsPages(h, slots, reach, pages, KERNEL_PROGRAM_VIRTUAL_ADDRESS, b, size);
    }
    StackBlocks();
    RunMapKeepsPages(h, slots, reach, ImagePages(pages, image, program),
      KERNEL_PROGRAM_VIRTUAL_STACK_ADDRESS_END, c, KERNEL_USER_PROGRAM_STACK_SIZE);
  }

  // ----- where the program finds itself

  /** Mapping a run of the heap for a program: it reads and writes every byte of it from `virt` on, and no other page
      changes. */
  lemma RunGoesTo(pages: Flat, virt: u32, ptr: u32, size: u32, va: u32)
    requires |pages| == PAGES && ptr % PAGE_SIZE == 0
    requires BlocksFor(size) > 0 && ptr + BlocksFor(size) * PAGE_SIZE < TWO32
    requires MapToSucceeds(virt, ptr, AlignUp(Add32(ptr, size)))
    ensures var pages' := MapToPages(pages, virt, ptr, AlignUp(Add32(ptr, size)), USER_PAGE);
      && |pages'| == PAGES
      && if virt <= va < virt + BlocksFor(size) * PAGE_SIZE then GoesTo(pages', va, true, ptr + (va - virt))
         else pages'[va / 4096] == pages[va / 4096]
  {
    hide Frame, Or32, MapToPages, MapToSucceeds, AlignUp, Add32, BlocksFor, Translate, KeepsFrame;
    RunEnd(ptr, size);
    var end := AlignUp(Add32(ptr, size));
    MapToLength(pages, virt, ptr, end, USER_PAGE);
    MapToTranslates(pages, virt, ptr, end, USER_PAGE, va);
    AllowsLowBits(MapToPages(pages, virt, ptr, end, USER_PAGE)[va / 4096], true, true);
  }

  /** A segment's pages and the four below 0x3FF000 have nothing in common. */
  predicate ApartFromStack(p: Phdr) {
    SegVirt(p) + SegSpan(p) <= 0x3F_B000 || 0x3F_F000 <= SegVirt(p)
  }

  /** The segments' addresses are page-aligned, and no two of them share a page with each other or with the stack. */
  ghost predicate WellLaidOut(image: u32, phdrs: seq<Phdr>) {
    && SegmentsDisjoint(phdrs)
    && forall i :: 0 <= i < |phdrs| ==>
      NoOverflow(image, phdrs[i]) && phdrs[i].pVaddr % PAGE_SIZE == 0 && ApartFromStack(phdrs[i])
  }

  /** The stack: 16 KB below 0x3FF000, whatever was there before, and nothing else changes. */
  lemma StackGoesTo(pages: Flat, stack: u32, va: u32)
    requires |pages| == PAGES && stack % PAGE_SIZE == 0 && stack + 0x4000 < TWO32
    ensures |StackPages(pages, stack)| == PAGES
    ensures if 0x3F_B000 <= va < 0x3F_F000 then GoesTo(StackPages(pages, stack), va, true, stack + (va - 0x3F_B000))
      else StackPages(pages, stack)[va / 4096] == pages[va / 4096]
  {
    hide MapToPages, AlignUp, Add32, GoesTo, BlocksFor;
    StackBlocks();
    RunEnd(stack, 0x4000);
    RunGoesTo(pages, 0x3F_B000, stack, 0x4000, va);
  }

  /** A flat binary: from 0x400000 on, untouched by the stack. */
  lemma BinaryGoesTo(pages: Flat, image: u32, stack: u32, program: Program, va: u32)
    requires |pages| == PAGES && program.Binary? && ImageMaps(image, program)
    requires image % PAGE_SIZE == 0 && BlocksFor(program.size) > 0
    requires image + BlocksFor(program.size) * PAGE_SIZE < TWO32 && stack % PAGE_SIZE == 0 && stack + 0x4000 < TWO32
    requires 0x40_0000 <= va < 0x40_0000 + program.size
    ensures |ImagePages(pages, image, program)| == PAGES
    ensures |StackPages(ImagePages(pages, image, program), stack)| == PAGES
    ensures GoesTo(StackPages(ImagePages(pages, image, program), stack), va, true, image + (va - 0x40_0000))
  {
    hide MapToPages, AlignUp, Add32, BlocksFor, Allows, Frame, MapToSucceeds, StackPages;
    BlocksHoldSize(program.size);
    RunGoesTo(pages, 0x40_0000, image, program.size, va);
    StackGoesTo(ImagePages(pages, image, program), stack, va);
  }

  /** An ELF image that is well laid out: byte k of segment i, with the stack in place. */
  lemma ElfGoesTo(pages: Flat, image: u32, stack: u32, phdrs: seq<Phdr>, i: nat, k: nat)
    requires |pages| == PAGES && ElfSucceeds(image, phdrs) && WellLaidOut(image, phdrs)
    requires stack % PAGE_SIZE == 0 && stack + 0x4000 < TWO32 && i < |phdrs| && k < phdrs[i].pMemsz
    ensures phdrs[i].pVaddr + k < TWO32 && |ElfPages(pages, image, phdrs)| == PAGES
    ensures |StackPages(ElfPages(pages, image, phdrs), stack)| == PAGES
    ensures var pages', va, to := StackPages(ElfPages(pages, image, phdrs), stack), phdrs[i].pVaddr + k,
        image + phdrs[i].pOffset + k;
      GoesTo(pages', va, false, to) && (GoesTo(pages', va, true, to) <==> Bit(phdrs[i].pFlags, 1))
  {
    hide ElfPages, SegSucceeds, NoOverflow, SegmentsDisjoint, StackPages, Allows, Frame, Bit, SegSpan;
    ElfSegmentBytes(pages, image, phdrs, i, k);
    SegmentFits(image, phdrs[i]);
    assert ApartFromStack(phdrs[i]);
    StackGoesTo(ElfPages(pages, image, phdrs), stack, phdrs[i].pVaddr + k);
  }
}
