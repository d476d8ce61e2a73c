/**
  ELF program headers: the bounds fs/elfloader.c records while it accepts an
  image, and the page mappings kernel/sched.c makes of the accepted segments
  (TIS ELF Specification 1.2, "Program Header").
 */
module ElfLoader {
  import opened Machine
  import opened KernelHeap
  import opened Paging

  const PT_LOAD: u32 := 1
  const PF_W: u32 := 2

  datatype Phdr = Phdr(pType: u32, pOffset: u32, pVaddr: u32, pFilesz: u32, pMemsz: u32, pFlags: u32)

  // ----- fs/elfloader.c

  predicate AllLoad(phdrs: seq<Phdr>) {
    forall i :: 0 <= i < |phdrs| ==> phdrs[i].pType == PT_LOAD
  }

  /** The virtual base recorded after these headers: 0 stands for "none yet". */
  function BaseAfter(phdrs: seq<Phdr>): u32 {
    if phdrs == [] then 0
    else
      var b, v := BaseAfter(phdrs[..|phdrs| - 1]), phdrs[|phdrs| - 1].pVaddr;
      if b >= v || b == 0 then v else b
  }

  function EndOf(p: Phdr): u32 {
    Add32(p.pVaddr, p.pFilesz)
  }

  function EndAfter(phdrs: seq<Phdr>): u32 {
    if phdrs == [] then 0
    else
      var b, e := EndAfter(phdrs[..|phdrs| - 1]), EndOf(phdrs[|phdrs| - 1]);
      if b <= e || b == 0 then e else b
  }

  predicate IsLeastVaddr(phdrs: seq<Phdr>, b: u32) {
    (exists i :: 0 <= i < |phdrs| && phdrs[i].pVaddr == b) && forall i :: 0 <= i < |phdrs| ==> b <= phdrs[i].pVaddr
  }

  /** While no header starts at virtual address 0 the recorded base is the least start. */
  lemma {:induction false} BaseIsLeast(phdrs: seq<Phdr>)
    requires phdrs != [] && forall i :: 0 <= i < |phdrs| ==> phdrs[i].pVaddr != 0
    ensures IsLeastVaddr(phdrs, BaseAfter(phdrs)) && BaseAfter(phdrs) != 0
    decreases |phdrs|
  {
    var n := |phdrs| - 1;
    var front := phdrs[..n];
    if front != [] {
      BaseIsLeast(front);
      var i :| 0 <= i < |front| && front[i].pVaddr == BaseAfter(front);
      assert phdrs[i].pVaddr == BaseAfter(front);
    }
    assert phdrs[n].pVaddr == phdrs[|phdrs| - 1].pVaddr;
    forall i | 0 <= i < |phdrs| ensures BaseAfter(phdrs) <= phdrs[i].pVaddr {
      if i < n {
        assert front[i] == phdrs[i];
      }
    }
  }

  /** The recorded base is the least segment start exactly when no segment starts at 0 or the last one does: a start
      of 0 reads as "none yet" and the next header overwrites it. */
  lemma {:induction false} BaseExact(phdrs: seq<Phdr>)
    requires phdrs != []
    ensures IsLeastVaddr(phdrs, BaseAfter(phdrs)) <==>
      (forall i :: 0 <= i < |phdrs| ==> phdrs[i].pVaddr != 0) || phdrs[|phdrs| - 1].pVaddr == 0
  {
    if forall i :: 0 <= i < |phdrs| ==> phdrs[i].pVaddr != 0 {
      BaseIsLeast(phdrs);
    }
  }

  lemma {:induction false} EndIsGreatestOf(phdrs: seq<Phdr>)
    requires phdrs != []
    ensures exists i :: 0 <= i < |phdrs| && EndOf(phdrs[i]) == EndAfter(phdrs)
    ensures forall i :: 0 <= i < |phdrs| ==> EndOf(phdrs[i]) <= EndAfter(phdrs)
    decreases |phdrs|
  {
    var n := |phdrs| - 1;
    var front := phdrs[..n];
    assert EndOf(phdrs[n]) == EndOf(phdrs[|phdrs| - 1]);
    if front != [] {
      EndIsGreatestOf(front);
      var i :| 0 <= i < |front| && EndOf(front[i]) == EndAfter(front);
      assert EndOf(phdrs[i]) == EndAfter(front);
      forall k | 0 <= k < n ensures EndOf(phdrs[k]) <= EndAfter(front) {
        assert front[k] == phdrs[k];
      }
    }
  }

  /** The recorded end is always the greatest 32-bit end, p_vaddr and p_filesz together. */
  lemma EndIsGreatest(phdrs: seq<Phdr>)
    requires phdrs != []
    ensures exists i :: 0 <= i < |phdrs| && (phdrs[i].pVaddr + phdrs[i].pFilesz) % TWO32 == EndAfter(phdrs)
    ensures forall i :: 0 <= i < |phdrs| ==> (phdrs[i].pVaddr + phdrs[i].pFilesz) % TWO32 <= EndAfter(phdrs)
  {
    hide EndAfter;
    EndIsGreatestOf(phdrs);
  }

  class ElfFile {
    const elfMemory: u32
    var virtualBase: u32
    var virtualEnd: u32
    var physicalBase: u32
    var physicalEnd: u32

    constructor (memory: u32)
      ensures elfMemory == memory && Bounds([])
    {
      elfMemory := memory;
      virtualBase, virtualEnd, physicalBase, physicalEnd := 0, 0, 0, 0;
    }

    /** `elf_phdr_phys_address`. */
    function PhysAddress(p: Phdr): u32 {
      Add32(elfMemory, p.pOffset)
    }

    /** The recorded bounds are those of the headers seen: the base and the end of `BaseAfter` and `EndAfter`, each
        with the physical address of a header that has it. */
    ghost predicate Bounds(seen: seq<Phdr>)
      reads this
    {
      && virtualBase == BaseAfter(seen) && virtualEnd == EndAfter(seen)
      && (seen != [] ==> exists i :: 0 <= i < |seen| && BaseIs(seen[i]))
      && (seen != [] ==> exists i :: 0 <= i < |seen| && EndIs(seen[i]))
    }

    ghost predicate BaseIs(p: Phdr)
      reads this
    {
      virtualBase == p.pVaddr && physicalBase == PhysAddress(p)
    }

    ghost predicate EndIs(p: Phdr)
      reads this
    {
      virtualEnd == EndOf(p) && physicalEnd == Add32(PhysAddress(p), p.pFilesz)
    }

    /** `elf_process_phdr_pt_load`: one more header, and the bounds are still those of all headers seen. */
    method ProcessPtLoad(p: Phdr, ghost seen: seq<Phdr>)
      requires Bounds(seen)
      modifies this
      ensures Bounds(seen + [p])
    {
      ghost var all := seen + [p];
      assert all[..|seen|] == seen && all[|seen|] == p;
      if virtualBase >= p.pVaddr || virtualBase == 0 {
        virtualBase := p.pVaddr;
        physicalBase := PhysAddress(p);
        assert BaseIs(all[|seen|]);
      } else {
        ghost var i :| 0 <= i < |seen| && BaseIs(seen[i]);
        assert BaseIs(all[i]);
      }
      ghost var base := if BaseIs(p) then |seen| else var i :| 0 <= i < |seen| && BaseIs(seen[i]); i;
      var end := EndOf(p);
      if virtualEnd <= end || virtualEnd == 0 {
        virtualEnd := end;
        physicalEnd := Add32(PhysAddress(p), p.pFilesz);
        assert EndIs(all[|seen|]);
      } else {
        ghost var i :| 0 <= i < |seen| && EndIs(seen[i]);
        assert EndIs(all[i]);
      }
      assert BaseIs(all[base]);
    }

    /** `elf_process_pheader`: a header of another type is refused and changes nothing. */
    method ProcessPheader(p: Phdr, ghost seen: seq<Phdr>) returns (res: i32)
      requires Bounds(seen)
      modifies this
      ensures res == if p.pType == PT_LOAD then OK else EINVAGS
      ensures if res == OK then Bounds(seen + [p]) else unchanged(this)
    {
      if p.pType == PT_LOAD {
        ProcessPtLoad(p, seen);
        res := OK;
      } else {
        res := EINVAGS;
      }
    }

    /** `elf_process_pheaders`: an image is accepted exactly when every header is PT_LOAD, and then the recorded
        bounds are those of all its headers. */
    method ProcessPheaders(phdrs: seq<Phdr>) returns (res: i32)
      requires Bounds([])
      modifies this
      ensures res == OK || res == EINVAGS
      ensures res == OK <==> AllLoad(phdrs)
      ensures res == OK ==> Bounds(phdrs)
    {
      res := OK;
      var i := 0;
      while i < |phdrs|
        invariant 0 <= i <= |phdrs| && res == OK && AllLoad(phdrs[..i]) && Bounds(phdrs[..i])
      {
        assert phdrs[..i + 1] == phdrs[..i] + [phdrs[i]];
        res := ProcessPheader(phdrs[i], phdrs[..i]);
        if res < 0 {
          return;
        }
        i := i + 1;
      }
      assert phdrs[..i] == phdrs;
    }
  }

  /** A segment at virtual address 0 is forgotten by the next header: of these two, whose ends are 0x1000 and 0x3000,
      the base recorded is not the least. */
  lemma ZeroBaseForgotten()
    ensures var phdrs := [Phdr(PT_LOAD, 0, 0, 0x1000, 0x1000, 0), Phdr(PT_LOAD, 0x1000, 0x2000, 0x1000, 0x1000, 0)];
      BaseAfter(phdrs) == 0x2000 && !IsLeastVaddr(phdrs, BaseAfter(phdrs)) && phdrs[0].pVaddr == 0
  {
    var phdrs := [Phdr(PT_LOAD, 0, 0, 0x1000, 0x1000, 0), Phdr(PT_LOAD, 0x1000, 0x2000, 0x1000, 0x1000, 0)];
    assert phdrs[..1] == [phdrs[0]] && phdrs[..1][..0] == [];
    assert BaseAfter(phdrs[..1]) == 0;
  }

  // ----- kernel/sched.c: process_map_elf

  function SegFlags(p: Phdr): u32 {
    if BitAnd(p.pFlags, PF_W) != 0 then PRESENT + ACCESS_FROM_ALL + WRITEABLE else PRESENT + ACCESS_FROM_ALL
  }

  function SegVirt(p: Phdr): u32 {
    p.pVaddr - p.pVaddr % PAGE_SIZE
  }

  function SegPhys(memory: u32, p: Phdr): u32 {
    Add32(memory, p.pOffset)
  }

  function SegPhysEnd(memory: u32, p: Phdr): u32 {
    AlignUp(Add32(SegPhys(memory, p), p.pMemsz))
  }

  function SegPages(pages: Flat, memory: u32, p: Phdr): Flat {
    MapToPages(pages, SegVirt(p), SegPhys(memory, p), SegPhysEnd(memory, p), SegFlags(p))
  }

  predicate SegSucceeds(memory: u32, p: Phdr) {
    MapToSucceeds(SegVirt(p), SegPhys(memory, p), SegPhysEnd(memory, p))
  }

  /** Map the headers in order, stopping after the first that fails. */
  function ElfPages(pages: Flat, memory: u32, phdrs: seq<Phdr>): Flat
    decreases |phdrs|
  {
    if phdrs == [] then pages
    else if SegSucceeds(memory, phdrs[0]) then ElfPages(SegPages(pages, memory, phdrs[0]), memory, phdrs[1..])
    else SegPages(pages, memory, phdrs[0])
  }

  predicate ElfSucceeds(memory: u32, phdrs: seq<Phdr>) {
    forall i :: 0 <= i < |phdrs| ==> SegSucceeds(memory, phdrs[i])
  }

  /** `process_map_elf`. */
  method ProcessMapElf(h: Heap, chunk: u32, file: ElfFile, phdrs: seq<Phdr>, ghost s: Space) returns (res: i32)
    requires SpaceIn(h, s) && chunk == h.BlockAddress(s.Chunk())
    modifies h.memory
    ensures SpaceIn(h, s) && OnlyTablesChange(h, s)
    ensures res == if ElfSucceeds(file.elfMemory, phdrs) then OK else EINVAGS
    ensures FlatOf(h, s) == ElfPages(old(FlatOf(h, s)), file.elfMemory, phdrs)
  {
    hide SpaceIn, FlatOf, IsTable, SegSucceeds, SegPages, MapToPages, MapToSucceeds, BitAnd, SegPhysEnd, SegPhys,
      SegVirt;
    res := OK;
    var i := 0;
    while i < |phdrs|
      invariant 0 <= i <= |phdrs| && res == OK && SpaceIn(h, s) && OnlyTablesChange(h, s)
      invariant forall k :: 0 <= k < i ==> SegSucceeds(file.elfMemory, phdrs[k])
      invariant ElfPages(old(FlatOf(h, s)), file.elfMemory, phdrs) == ElfPages(FlatOf(h, s), file.elfMemory, phdrs[i..])
    {
      var phdr := phdrs[i];
      var phys := file.PhysAddress(phdr);
      var flag := SegFlags(phdr);
      assert phdrs[i..][0] == phdr && phdrs[i..][1..] == phdrs[i + 1..];
      SegUnfold(FlatOf(h, s), file.elfMemory, phdr);
      res := PagingMapTo(h, chunk, SegVirt(phdr), phys, SegPhysEnd(file.elfMemory, phdr), flag, s);
      if res < 0 {
        break;
      }
      i := i + 1;
    }
  }

  lemma SegUnfold(pages: Flat, memory: u32, p: Phdr)
    ensures SegPhys(memory, p) == Add32(memory, p.pOffset)
    ensures SegSucceeds(memory, p) <==> MapToSucceeds(SegVirt(p), SegPhys(memory, p), SegPhysEnd(memory, p))
    ensures SegPages(pages, memory, p) == MapToPages(pages, SegVirt(p), SegPhys(memory, p), SegPhysEnd(memory, p),
      SegFlags(p))
  {
  }

  /** The segment's end, rounded up to a page, stays below 2^32. */
  predicate NoOverflow(memory: u32, p: Phdr) {
    memory as int + p.pOffset as int + p.pMemsz as int <= 0xFFFF_F000
  }

  /** The pages a segment occupies, as an address range [SegVirt, SegVirt + SegSpan). */
  function SegSpan(p: Phdr): int {
    (p.pMemsz + PAGE_SIZE - 1) / PAGE_SIZE * PAGE_SIZE
  }

  predicate InSegment(p: Phdr, va: u32) {
    SegVirt(p) <= va < SegVirt(p) + SegSpan(p)
  }

  predicate SegmentsDisjoint(phdrs: seq<Phdr>) {
    forall i, j :: 0 <= i < j < |phdrs| ==>
      SegVirt(phdrs[i]) + SegSpan(phdrs[i]) <= SegVirt(phdrs[j])
      || SegVirt(phdrs[j]) + SegSpan(phdrs[j]) <= SegVirt(phdrs[i])
  }

  /** One mapped segment: addresses in its pages go to the image with its flags, others are untouched. */
  lemma SegmentMapped(pages: Flat, memory: u32, p: Phdr, va: u32)
    requires |pages| == PAGES && SegSucceeds(memory, p) && NoOverflow(memory, p)
    ensures var pages' := SegPages(pages, memory, p);
      && |pages'| == PAGES
      && if InSegment(p, va)
         then Translate(pages', va) == memory + p.pOffset + (va - SegVirt(p))
           && pages'[va / PAGE_SIZE] % PAGE_SIZE == SegFlags(p)
         else pages'[va / PAGE_SIZE] == pages[va / PAGE_SIZE]
  {
    hide BitAnd, Frame, Or32, AlignUp, MapPages;
    SegmentEnds(memory, p);
    MapToTranslates(pages, SegVirt(p), SegPhys(memory, p), SegPhysEnd(memory, p), SegFlags(p), va);
    MapToLength(pages, SegVirt(p), SegPhys(memory, p), SegPhysEnd(memory, p), SegFlags(p));
  }

  lemma SegmentEnds(memory: u32, p: Phdr)
    requires SegSucceeds(memory, p) && NoOverflow(memory, p)
    ensures SegPhys(memory, p) == memory + p.pOffset && SegPhysEnd(memory, p) == SegPhys(memory, p) + SegSpan(p)
  {
    var base, n := SegPhys(memory, p) / 4096, (p.pMemsz + 4095) / 4096;
    assert SegPhys(memory, p) == base * 4096;
    assert SegSpan(p) == n * 4096 && n * 4096 - 4096 < p.pMemsz <= n * 4096;
    AlignUpIs(base * 4096 + p.pMemsz, base + n);
  }

  lemma AlignUpIs(x: u32, n: nat)
    requires n * 4096 - 4096 < x <= n * 4096 < TWO32
    ensures AlignUp(x) == n * 4096
  {
  }

  /** An accepted image, mapped successfully: each byte of each segment translates to its byte of the image, its page
      is writable exactly when the segment has PF_W, and pages of no segment keep their entries. */
  lemma {:induction false} ElfMapped(pages: Flat, memory: u32, phdrs: seq<Phdr>)
    requires |pages| == PAGES && ElfSucceeds(memory, phdrs) && SegmentsDisjoint(phdrs)
    requires forall i :: 0 <= i < |phdrs| ==> NoOverflow(memory, phdrs[i])
    ensures |ElfPages(pages, memory, phdrs)| == PAGES
    ensures forall i, va: u32 :: 0 <= i < |phdrs| && InSegment(phdrs[i], va) ==>
      && Translate(ElfPages(pages, memory, phdrs), va) == memory + phdrs[i].pOffset + (va - SegVirt(phdrs[i]))
      && ElfPages(pages, memory, phdrs)[va / PAGE_SIZE] % PAGE_SIZE == SegFlags(phdrs[i])
    ensures forall va: u32 :: (forall i :: 0 <= i < |phdrs| ==> !InSegment(phdrs[i], va)) ==>
      ElfPages(pages, memory, phdrs)[va / PAGE_SIZE] == pages[va / PAGE_SIZE]
    decreases |phdrs|
  {
    hide BitAnd, Frame, SegPages, SegSucceeds, SegFlags, SegVirt, SegSpan, NoOverflow;
    if phdrs != [] {
      var first, rest := phdrs[0], phdrs[1..];
      var mid := SegPages(pages, memory, first);
      SegmentMapped(pages, memory, first, 0);
      forall i | 0 <= i < |rest| ensures SegSucceeds(memory, rest[i]) && NoOverflow(memory, rest[i]) {
        assert rest[i] == phdrs[i + 1];
      }
      ElfMapped(mid, memory, rest);
      forall i, va: u32 | 0 <= i < |phdrs| && InSegment(phdrs[i], va)
        ensures Translate(ElfPages(pages, memory, phdrs), va) == memory + phdrs[i].pOffset + (va - SegVirt(phdrs[i]))
        ensures ElfPages(pages, memory, phdrs)[va / PAGE_SIZE] % PAGE_SIZE == SegFlags(phdrs[i])
      {
        SegmentMapped(pages, memory, first, va);
        if i == 0 {
          forall k | 0 <= k < |rest| ensures !InSegment(rest[k], va) {
            assert rest[k] == phdrs[k + 1];
          }
        } else {
          assert rest[i - 1] == phdrs[i] && LastToHold(rest, va, i - 1);
        }
      }
      forall va: u32 | forall i :: 0 <= i < |phdrs| ==> !InSegment(phdrs[i], va)
        ensures ElfPages(pages, memory, phdrs)[va / PAGE_SIZE] == pages[va / PAGE_SIZE]
      {
        SegmentMapped(pages, memory, first, va);
        assert !InSegment(phdrs[0], va);
        forall k | 0 <= k < |rest| ensures !InSegment(rest[k], va) {
          assert rest[k] == phdrs[k + 1];
        }
      }
    }
  }

  ghost predicate LastToHold(phdrs: seq<Phdr>, va: u32, i: nat) {
    i < |phdrs| && InSegment(phdrs[i], va) && forall k :: i < k < |phdrs| ==> !InSegment(phdrs[k], va)
  }

  /** However the segments overlap, an address belongs to the last segment that holds it. */
  lemma {:induction false} LastSegmentWins(pages: Flat, memory: u32, phdrs: seq<Phdr>, va: u32)
    requires |pages| == PAGES && ElfSucceeds(memory, phdrs)
    requires forall i :: 0 <= i < |phdrs| ==> NoOverflow(memory, phdrs[i])
    ensures |ElfPages(pages, memory, phdrs)| == PAGES
    ensures forall i: nat :: LastToHold(phdrs, va, i) ==>
      && Translate(ElfPages(pages, memory, phdrs), va) == memory + phdrs[i].pOffset + (va - SegVirt(phdrs[i]))
      && ElfPages(pages, memory, phdrs)[va / PAGE_SIZE] % PAGE_SIZE == SegFlags(phdrs[i])
    ensures (forall i :: 0 <= i < |phdrs| ==> !InSegment(phdrs[i], va)) ==>
      ElfPages(pages, memory, phdrs)[va / PAGE_SIZE] == pages[va / PAGE_SIZE]
    decreases |phdrs|
  {
    hide BitAnd, Frame, SegPages, SegSucceeds, SegFlags, SegVirt, SegSpan, NoOverflow;
    if phdrs != [] {
      var first, rest := phdrs[0], phdrs[1..];
      var mid := SegPages(pages, memory, first);
      SegmentMapped(pages, memory, first, va);
      assert forall i :: 0 <= i < |rest| ==> rest[i] == phdrs[i + 1];
      LastSegmentWins(mid, memory, rest, va);
      forall i: nat | LastToHold(phdrs, va, i)
        ensures Translate(ElfPages(pages, memory, phdrs), va) == memory + phdrs[i].pOffset + (va - SegVirt(phdrs[i]))
        ensures ElfPages(pages, memory, phdrs)[va / PAGE_SIZE] % PAGE_SIZE == SegFlags(phdrs[i])
      {
        if i > 0 {
          assert rest[i - 1] == phdrs[i] && LastToHold(rest, va, i - 1);
        }
      }
    }
  }

  /** For a page-aligned p_vaddr that is byte for byte what the program header asks: a program reaches the byte of the
      image, to read it always, and to write it exactly when bit 1 of p_flags is set. */
  lemma ElfSegmentBytes(pages: Flat, memory: u32, phdrs: seq<Phdr>, i: nat, k: nat)
    requires |pages| == PAGES && ElfSucceeds(memory, phdrs) && SegmentsDisjoint(phdrs)
    requires forall i :: 0 <= i < |phdrs| ==> NoOverflow(memory, phdrs[i])
    requires i < |phdrs| && phdrs[i].pVaddr % PAGE_SIZE == 0 && k < phdrs[i].pMemsz
    ensures phdrs[i].pVaddr + k < TWO32 && |ElfPages(pages, memory, phdrs)| == PAGES
    ensures GoesTo(ElfPages(pages, memory, phdrs), phdrs[i].pVaddr + k, false, memory + phdrs[i].pOffset + k)
    ensures GoesTo(ElfPages(pages, memory, phdrs), phdrs[i].pVaddr + k, true, memory + phdrs[i].pOffset + k)
      <==> Bit(phdrs[i].pFlags, 1)
  {
    hide BitAnd, Bit, Frame, ElfPages, MapToPages, SegPages, SegSucceeds, NoOverflow, SegSpan, SegmentsDisjoint,
      Translate;
    ElfMapped(pages, memory, phdrs);
    var p := phdrs[i];
    SegmentFits(memory, p);
    var va: u32 := p.pVaddr + k;
    assert InSegment(p, va);
    var entry := ElfPages(pages, memory, phdrs)[va / PAGE_SIZE];
    AndTwo(p.pFlags);
    AllowsLowBits(entry, false, true);
    AllowsLowBits(entry, true, true);
  }

  lemma SegmentFits(memory: u32, p: Phdr)
    requires SegSucceeds(memory, p) && NoOverflow(memory, p)
    ensures p.pMemsz <= SegSpan(p) && (p.pMemsz > 0 ==> SegVirt(p) + SegSpan(p) <= TWO32)
  {
    SegmentEnds(memory, p);
  }

  lemma FlagBits(entry: u32, flags: u32)
    requires entry % PAGE_SIZE == flags
    ensures IsWriteable(entry) <==> flags % 4 >= 2
  {
    var frame, high := entry / 4096, flags / 4;
    assert entry == 4 * (1024 * frame + high) + flags % 4;
  }

  /** The rounding down of p_vaddr is only harmless when there is nothing to round: the first byte of a non-empty
      segment lands on its image byte exactly when p_vaddr is page-aligned. */
  lemma MisalignedSegment(pages: Flat, memory: u32, p: Phdr)
    requires |pages| == PAGES && SegSucceeds(memory, p) && NoOverflow(memory, p) && p.pMemsz > 0
    ensures |SegPages(pages, memory, p)| == PAGES
    ensures Translate(SegPages(pages, memory, p), p.pVaddr) == memory + p.pOffset <==> p.pVaddr % PAGE_SIZE == 0
  {
    hide BitAnd, Frame, SegPages, SegSucceeds;
    SegmentMapped(pages, memory, p, p.pVaddr);
  }

  /** An image at 0x1000000 whose one segment asks for address 0x400010: the byte found there is not the segment's
      first. */
  lemma MisalignedExample(pages: Flat)
    requires |pages| == PAGES
    ensures var p := Phdr(PT_LOAD, 0x1000, 0x40_0010, 0x100, 0x100, 0);
      && SegSucceeds(0x100_0000, p) && |SegPages(pages, 0x100_0000, p)| == PAGES
      && Translate(SegPages(pages, 0x100_0000, p), 0x40_0010) == 0x100_1010 != 0x100_0000 + p.pOffset
  {
    hide BitAnd, MapToPages, Frame;
    var p := Phdr(PT_LOAD, 0x1000, 0x40_0010, 0x100, 0x100, 0);
    SegmentMapped(pages, 0x100_0000, p, 0x40_0010);
  }
}
