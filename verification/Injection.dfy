/**
  `process_inject_argument` (kernel/sched.c): from the list of a command's words to a vector and strings in runs that
  the process allocates. Addresses of the list are taken to translate to themselves, which
  `AddressSpace.IdentityTranslates` shows of a fresh address space, NULL included.
 */
module Injection {
  import opened Machine
  import opened HeapTable
  import opened KernelHeap
  import opened Paging
  import opened AddressSpace
  import opened ProcessMemory
  import opened KernelRuns
  import opened Words
  import opened CommandLine

  /** `sizeof(current->argument) + 1`. */
  const STRING_SIZE: u32 := 513

  /** A character is one byte. */
  function Byte(c: char): nat {
    c as int % 256
  }

  /** A run that the process holds, by its pointer. */
  ghost predicate HoldsRun(h: Heap, p: Owner, ptr: u32, n: nat)
    reads h, p.allocations
  {
    var b := h.AddressBlock(ptr);
    && ptr != NULL && ptr == h.BlockAddress(b) && b in Holdings(h, p.allocations[..])
    && b in h.live && h.live[b] == n > 0 && b + n <= h.table.Length
  }

  /** A process among others, all well formed and apart. */
  ghost predicate Among(h: Heap, p: Owner, others: set<Owner>)
    reads h, h.table, h.memory, p.allocations, set q | q in others :: q.allocations
  {
    ProcessOk(h, p) && AllOk(h, others) && AllApart(h, p, others)
  }

  /** The rows of a held run are rows of no page table. */
  lemma RunIsNoTable(h: Heap, p: Owner, ptr: u32, n: nat, q: Owner)
    requires ProcessOk(h, p) && HoldsRun(h, p, ptr, n) && ProcessOk(h, q) && (p == q || Apart(h, p, q))
    ensures forall i: nat :: h.AddressBlock(ptr) <= i < h.AddressBlock(ptr) + n ==> i !in BlockSet(q.space.blocks)
  {
    hide Encodes, FlatOf, PagesOk, SpaceIn, BlocksFor, Heap.AddressBlock, Heap.BlockAddress;
    var b, slots := h.AddressBlock(ptr), p.allocations[..];
    var k :| 0 <= k < |slots| && slots[k].ptr != NULL && b == h.AddressBlock(slots[k].ptr);
    assert SlotOk(h, h.live, slots[k], p.space, p.kept);
    assert b in Footprint(h, p);
    TablesOutside(h, q.space, b);
  }

  /** One word stored into a run the process holds disturbs no page table, and so no process. */
  method StoreWord(h: Heap, p: Owner, ptr: u32, ghost n: nat, row: nat, col: nat, word: u32, ghost others: set<Owner>)
    requires Among(h, p, others) && HoldsRun(h, p, ptr, n)
    requires h.AddressBlock(ptr) <= row < h.AddressBlock(ptr) + n && col < 1024
    modifies h.memory
    ensures Among(h, p, others) && OwnerKept(h, p)
    ensures forall q :: q in others ==> OwnerKept(h, q)
    ensures forall i, j :: 0 <= i < h.memory.Length0 && 0 <= j < h.memory.Length1 ==>
      h.memory[i, j] == if i == row && j == col then word else old(h.memory[i, j])
  {
    hide Encodes, Frame, PagesOk, SlotsOk, Heap.AddressBlock, Heap.BlockAddress;
    forall q | q in others + {p} ensures row !in BlockSet(q.space.blocks) {
      RunIsNoTable(h, p, ptr, n, q);
    }
    h.memory[row, col] := word;
    forall q | q in others + {p} ensures OwnerKept(h, q) {
      assert q.allocations[..] == old(q.allocations[..]);
      forall i | 0 <= i < 1026 ensures q.space.blocks[i] in BlockSet(q.space.blocks) {
      }
      SameFlat(h, q.space, old(FlatOf(h, q.space)));
    }
  }

  // ----- one argument

  /** Byte m of a block. */
  ghost function ByteAt(h: Heap, b: nat, m: nat): nat
    requires b < h.memory.Length0 && h.memory.Length1 == 1024 && m < 4096
    reads h.memory
  {
    ByteIn(h.memory[b, m / 4], m % 4)
  }

  /** The block this pointer leads to holds the bytes of these characters and zeros after them. */
  ghost predicate TextAt(h: Heap, ptr: u32, text: string)
    reads h.memory
  {
    var b := h.AddressBlock(ptr);
    && b < h.memory.Length0 && h.memory.Length1 == 1024
    && forall m :: 0 <= m < 4096 ==> ByteAt(h, b, m) == if m < |text| then Byte(text[m]) else 0
  }

  lemma ZeroedText(h: Heap, ptr: u32)
    requires var b := h.AddressBlock(ptr); b < h.memory.Length0 && Zeroed(h, b, 1) && h.memory.Length1 == 1024
    ensures TextAt(h, ptr, [])
  {
    hide Heap.AddressBlock;
    forall m | 0 <= m < 4096 ensures ByteAt(h, h.AddressBlock(ptr), m) == 0 {
      BytesOfZero(m % 4);
    }
  }

  /** What the bytes at a pointer say: a C string of these characters, if they are single bytes and none is NUL. */
  lemma TextReads(h: Heap, ptr: u32, text: string)
    requires TextAt(h, ptr, text) && |text| < 4096
    requires forall k :: 0 <= k < |text| ==> text[k] != NUL && text[k] < 256 as char
    ensures var b := h.AddressBlock(ptr);
      && ByteAt(h, b, |text|) == 0
      && forall m :: 0 <= m < |text| ==> ByteAt(h, b, m) != 0 && ByteAt(h, b, m) as char == text[m]
  {
    hide Heap.AddressBlock;
  }

  /** One byte stored into a string. */
  method StoreByte(h: Heap, p: Owner, ptr: u32, m: nat, byte: nat, ghost others: set<Owner>)
    requires Among(h, p, others) && HoldsRun(h, p, ptr, 1) && h.Region() && m < 4096 && byte < 256
    modifies h.memory
    ensures Among(h, p, others) && OwnerKept(h, p)
    ensures forall k :: 0 <= k < 4096 ==>
      ByteAt(h, h.AddressBlock(ptr), k) == if k == m then byte else old(ByteAt(h, h.AddressBlock(ptr), k))
    ensures OnlyBlocksChange(h, {h.AddressBlock(ptr)})
    ensures forall q :: q in others ==> OwnerKept(h, q)
  {
    hide Among, OwnerKept, Holdings, ByteIn, WithByte, Heap.AddressBlock, Heap.BlockAddress;
    var b := h.AddressBlock(ptr);
    ghost var word := h.memory[b, m / 4];
    forall k | 0 <= k < 4
      ensures ByteIn(WithByte(word, m % 4, byte), k) == if k == m % 4 then byte else ByteIn(word, k)
    {
      WithByteIs(word, m % 4, byte, k);
    }
    StoreWord(h, p, ptr, 1, b, m / 4, WithByte(h.memory[b, m / 4], m % 4, byte), others);
    forall k | 0 <= k < 4096 ensures ByteAt(h, b, k) == if k == m then byte else old(ByteAt(h, b, k)) {
      if k / 4 == m / 4 {
        assert (k == m <==> k % 4 == m % 4) && h.memory[b, k / 4] == WithByte(word, m % 4, byte);
      } else {
        assert h.memory[b, k / 4] == old(h.memory[b, k / 4]);
      }
    }
  }

  /** The kernel's `strncpy` of an argument into a string just allocated. */
  method CopyText(h: Heap, p: Owner, ptr: u32, node: ArgNode, ghost text: string, ghost others: set<Owner>)
    requires Among(h, p, others) && HoldsRun(h, p, ptr, 1) && h.Region() && TextAt(h, ptr, []) && HoldsAt(node, text)
    modifies h.memory
    ensures Among(h, p, others) && TextAt(h, ptr, text) && OwnerKept(h, p)
    ensures OnlyBlocksChange(h, {h.AddressBlock(ptr)})
    ensures forall q :: q in others ==> OwnerKept(h, q)
  {
    hide ProcessOk, FlatOf, Holdings, AllApart, CStr, Terminated, ByteAt, Heap.AddressBlock, Heap.BlockAddress;
    var src := node.argument;
    CStrAt(src[..], 0);
    var i := 0;
    while i < ARGUMENT_SIZE && src[i] != NUL
      invariant 0 <= i <= |text| && Among(h, p, others) && HoldsRun(h, p, ptr, 1) && TextAt(h, ptr, text[..i])
      invariant OwnerKept(h, p) && OnlyBlocksChange(h, {h.AddressBlock(ptr)})
      invariant forall q :: q in others ==> OwnerKept(h, q)
    {
      assert src[..][i] == text[i];
      StoreByte(h, p, ptr, i, Byte(src[i]), others);
      i := i + 1;
    }
    assert i == |text| && text[..i] == text;
    if i > 0 {
      StoreByte(h, p, ptr, i, 0, others);
    }
  }

  // ----- the vector

  /** Word k of a vector. */
  ghost function WordAt(h: Heap, vector: u32, k: nat): u32
    requires h.AddressBlock(vector) + k / 1024 < h.memory.Length0 && h.memory.Length1 == 1024
    reads h.memory
  {
    h.memory[h.AddressBlock(vector) + k / 1024, k % 1024]
  }

  /** The vector's own allocation and those of its strings. */
  ghost function VectorTrail(vector: u32, argc: nat, ptrs: seq<u32>): seq<Allocation>
    requires 4 * argc < TWO32
  {
    [Allocation(vector, 4 * argc)] + seq(|ptrs|, k requires 0 <= k < |ptrs| => Allocation(ptrs[k], STRING_SIZE))
  }

  /** The process holds the run of every allocation of the trail, by its first address. */
  ghost predicate HoldsTrail(h: Heap, p: Owner, trail: seq<Allocation>)
    reads p.allocations
  {
    forall a :: a in trail ==>
      a.ptr == h.BlockAddress(h.AddressBlock(a.ptr)) && h.AddressBlock(a.ptr) in Holdings(h, p.allocations[..])
  }

  // ----- the same, by address

  /** The byte at an address of the heap; words lie lowest byte first. */
  ghost function ByteThere(h: Heap, a: u32): nat
    requires h.Region() && h.saddr <= a < h.saddr + h.table.Length * 4096
    reads h, h.memory
  {
    var word := h.memory[(a - h.saddr) / 4096, (a - h.saddr) % 4096 / 4];
    (if a % 4 == 0 then word else if a % 4 == 1 then word / 0x100 else if a % 4 == 2 then word / 0x1_0000
      else word / 0x100_0000) % 256
  }

  /** The four bytes at an address are this pointer. */
  ghost predicate PointerThere(h: Heap, a: u32, ptr: u32)
    reads h, h.memory
  {
    && h.Region() && h.saddr <= a && a + 3 < h.saddr + h.table.Length * 4096 < TWO32
    && ptr == ByteThere(h, a) + 0x100 * ByteThere(h, a + 1) + 0x1_0000 * ByteThere(h, a + 2)
      + 0x100_0000 * ByteThere(h, a + 3)
  }

  lemma PlaceInBlock(saddr: nat, b: nat, m: nat, n: nat)
    requires saddr % 4096 == 0 && b < n && m < 4096
    ensures (b * 4096 + m) / 4096 == b && (b * 4096 + m) % 4096 == m && b * 4096 + m < n * 4096
    ensures (saddr + b * 4096 + m) % 4 == m % 4
  {
    var first := saddr / 4096;
    ByPage(b, m);
    ByWord(1024 * first + 1024 * b + m / 4, m % 4);
    assert saddr + b * 4096 + m == 4 * (1024 * first + 1024 * b + m / 4) + m % 4;
  }

  lemma ByPage(q: nat, r: nat)
    requires r < 4096
    ensures (q * 4096 + r) / 4096 == q && (q * 4096 + r) % 4096 == r
  {
  }

  lemma ByWord(q: nat, r: nat)
    requires r < 4
    ensures (4 * q + r) % 4 == r
  {
  }

  lemma ByteInBlock(h: Heap, b: nat, m: nat)
    requires h.Region() && b < h.table.Length && m < 4096
    ensures h.saddr <= h.saddr + b * 4096 + m < h.saddr + h.table.Length * 4096 < TWO32
    ensures ByteThere(h, h.saddr + b * 4096 + m) == ByteAt(h, b, m)
  {
    hide ByteIn;
    PlaceInBlock(h.saddr, b, m, h.table.Length);
    ByteByDivision(h.memory[b, m / 4]);
  }

  /** Byte m of a string lies m bytes behind its pointer. */
  lemma TextThere(h: Heap, ptr: u32, text: string, m: nat)
    requires h.Region() && TextAt(h, ptr, text) && ptr == h.BlockAddress(h.AddressBlock(ptr)) && m < 4096
    ensures ptr + m < h.saddr + h.table.Length * 4096 < TWO32 && h.saddr <= ptr
    ensures ByteThere(h, ptr + m) == if m < |text| then text[m] as int % 256 else 0
  {
    hide ByteAt, ByteThere, Heap.AddressBlock, Heap.BlockAddress;
    h.BlockAddressRoundTrip(h.AddressBlock(ptr));
    ByteInBlock(h, h.AddressBlock(ptr), m);
  }

  /** Word k of a vector lies 4k bytes behind its pointer. */
  lemma WordThere(h: Heap, vector: u32, k: nat)
    requires h.Region() && h.AddressBlock(vector) + k / 1024 < h.table.Length
    requires vector == h.BlockAddress(h.AddressBlock(vector))
    ensures vector + 4 * k < TWO32 && PointerThere(h, vector + 4 * k, WordAt(h, vector, k))
  {
    hide ByteThere, Heap.AddressBlock, Heap.BlockAddress;
    var b, m := h.AddressBlock(vector) + k / 1024, k % 1024 * 4;
    h.BlockAddressRoundTrip(h.AddressBlock(vector));
    assert vector + 4 * k == h.saddr + b * 4096 + m;
    ByteInBlock(h, b, m);
    ByteInBlock(h, b, m + 1);
    ByteInBlock(h, b, m + 2);
    ByteInBlock(h, b, m + 3);
    assert (m + 1) / 4 == (m + 2) / 4 == (m + 3) / 4 == k % 1024;
    assert m % 4 == 0 && (m + 1) % 4 == 1 && (m + 2) % 4 == 2 && (m + 3) % 4 == 3;
    BytesOfWord(WordAt(h, vector, k));
  }

  /** The vector is a run, long enough for argc words. */
  ghost predicate VectorFits(h: Heap, vector: u32, argc: nat)
    reads h
  {
    var b := h.AddressBlock(vector);
    b in h.live && b + h.live[b] <= h.memory.Length0 && h.memory.Length1 == 1024 && argc <= h.live[b] * 1024
  }

  /** So far the vector holds these strings, in order, and zeros. */
  ghost predicate Filled(h: Heap, vector: u32, argc: nat, ptrs: seq<u32>, texts: seq<string>)
    requires VectorFits(h, vector, argc)
    reads h, h.memory
  {
    && |ptrs| == |texts| <= argc
    && (forall k :: 0 <= k < argc ==> WordAt(h, vector, k) == if k < |ptrs| then ptrs[k] else 0)
    && forall k :: 0 <= k < |ptrs| ==> TextAt(h, ptrs[k], texts[k])
  }

  /** An injection under way. */
  ghost predicate Injecting(
    h: Heap, p: Owner, base: Runs, vector: u32, argc: nat, ptrs: seq<u32>, texts: seq<string>, others: set<Owner>)
    reads h, h.table, h.memory, p.allocations, set q | q in others :: q.allocations
  {
    && 4 * argc < TWO32 && Among(h, p, others) && VectorFits(h, vector, argc) && Filled(h, vector, argc, ptrs, texts)
    && Trail(h, base, VectorTrail(vector, argc, ptrs), h.live) && HoldsTrail(h, p, VectorTrail(vector, argc, ptrs))
  }

  /** A row of one of the runs of the trail. */
  ghost predicate TrailRow(h: Heap, live: Runs, trail: seq<Allocation>, r: nat) {
    exists a :: a in trail && Covers(live, h.AddressBlock(a.ptr), r)
  }

  /** These rows are rows of no page table of the process, and of no run taken later. */
  lemma TrailRowsSafe(h: Heap, p: Owner, base: Runs, trail: seq<Allocation>)
    requires ProcessOk(h, p) && Trail(h, base, trail, h.live) && HoldsTrail(h, p, trail)
    ensures forall r: nat :: TrailRow(h, h.live, trail, r) ==> r !in BlockSet(p.space.blocks) && r < h.memory.Length0
  {
    hide Encodes, FlatOf, PagesOk, SpaceIn, SlotsOk, TrailBlocks, DifferentBlocks, BlocksFor, Heap.AddressBlock,
      Heap.BlockAddress;
    forall r: nat | TrailRow(h, h.live, trail, r) ensures r !in BlockSet(p.space.blocks) && r < h.memory.Length0 {
      var a :| a in trail && Covers(h.live, h.AddressBlock(a.ptr), r);
      assert AllocAt(h, h.live, a);
      OkRegion(h, p, h.AddressBlock(a.ptr));
      RunIsNoTable(h, p, a.ptr, h.live[h.AddressBlock(a.ptr)], p);
    }
  }

  lemma OkRegion(h: Heap, p: Owner, b: nat)
    requires ProcessOk(h, p) && b in h.live
    ensures h.Valid() && h.memory.Length0 == h.table.Length && h.memory.Length1 == 1024
    ensures h.live[b] >= 1 && b + h.live[b] <= h.table.Length
  {
    hide Encodes;
    RunsInside(h, b);
  }

  /** The vector's and the strings' rows are rows of the trail. */
  lemma FilledRows(h: Heap, base: Runs, vector: u32, argc: nat, ptrs: seq<u32>)
    requires 4 * argc < TWO32 && VectorFits(h, vector, argc)
    requires Trail(h, base, VectorTrail(vector, argc, ptrs), h.live)
    ensures forall k: nat :: k < argc ==>
      TrailRow(h, h.live, VectorTrail(vector, argc, ptrs), h.AddressBlock(vector) + k / 1024)
    ensures forall k :: 0 <= k < |ptrs| ==>
      TrailRow(h, h.live, VectorTrail(vector, argc, ptrs), h.AddressBlock(ptrs[k]))
  {
    hide TrailBlocks, DifferentBlocks, BlocksFor, Heap.AddressBlock, Heap.BlockAddress;
    var trail := VectorTrail(vector, argc, ptrs);
    assert trail[0] in trail;
    forall k: nat | k < argc ensures TrailRow(h, h.live, trail, h.AddressBlock(vector) + k / 1024) {
      assert Covers(h.live, h.AddressBlock(trail[0].ptr), h.AddressBlock(vector) + k / 1024);
    }
    forall k | 0 <= k < |ptrs| ensures TrailRow(h, h.live, trail, h.AddressBlock(ptrs[k])) {
      var a := trail[1 + k];
      assert a in trail && AllocAt(h, h.live, a) && Covers(h.live, h.AddressBlock(a.ptr), h.AddressBlock(ptrs[k]));
    }
  }

  /** The rows of these runs keep their words. */
  twostate predicate TrailRowsKept(h: Heap, live: Runs, trail: seq<Allocation>)
    reads h.memory
  {
    forall r: nat, j :: TrailRow(h, live, trail, r) && r < h.memory.Length0 && 0 <= j < h.memory.Length1 ==>
      h.memory[r, j] == old(h.memory[r, j])
  }

  /** The free slots of an allocation table. */
  ghost function FreeSlots(slots: seq<Allocation>): set<nat> {
    set i: nat | i < |slots| && slots[i].ptr == NULL
  }

  /** One entry more is one free slot less. */
  lemma SlotTaken(slots: seq<Allocation>, slots': seq<Allocation>, i: nat, a: Allocation)
    requires Recorded(slots, slots', i, a) && a.ptr != NULL
    ensures |FreeSlots(slots')| == |FreeSlots(slots)| - 1
  {
    assert FreeSlots(slots') == FreeSlots(slots) - {i};
  }

  lemma NoSlotMeans(slots: seq<Allocation>)
    ensures NoSlot(slots) <==> |FreeSlots(slots)| == 0
  {
    if i: nat :| i < |slots| && slots[i].ptr == NULL {
      assert i in FreeSlots(slots);
    } else {
      assert FreeSlots(slots) == {};
    }
  }

  /** An allocation of this size for this process: granted if and only if there is room and a slot, and then one run and
      one slot are used up. */
  twostate predicate Granted(h: Heap, p: Owner, size: u32, ptr: u32)
    reads h.table, p.allocations
  {
    && (ptr == NULL <==> NoRoom(old(h.table[..]), BlocksFor(size)) || |FreeSlots(old(p.allocations[..]))| == 0)
    && h.table[..] == (if ptr == NULL then old(h.table[..]) else Take(old(h.table[..]), size))
    && |FreeSlots(p.allocations[..])| == |FreeSlots(old(p.allocations[..]))| - if ptr == NULL then 0 else 1
  }

  /** `process_malloc` while a trail is held: the new run joins it, zeroed, and its rows keep their words. */
  method MallocBeside(
    h: Heap, p: Owner, size: u32, ghost base: Runs, ghost trail: seq<Allocation>, ghost others: set<Owner>)
    returns (ptr: u32)
    requires Among(h, p, others) && Trail(h, base, trail, h.live) && HoldsTrail(h, p, trail)
    modifies h, h.table, h.memory, p.allocations
    ensures h.Region() && Among(h, p, others) && forall q :: q in others ==> OwnerKept(h, q)
    ensures var trail' := if ptr == NULL then trail else trail + [Allocation(ptr, size)];
      Trail(h, base, trail', h.live) && HoldsTrail(h, p, trail')
    ensures ptr == NULL ==> h.live == old(h.live)
    ensures ptr != NULL ==>
      && HoldsRun(h, p, ptr, BlocksFor(size)) && size <= BlocksFor(size) * PAGE_SIZE
      && Zeroed(h, h.AddressBlock(ptr), BlocksFor(size))
      && h.AddressBlock(ptr) !in old(h.live) && h.live == old(h.live)[h.AddressBlock(ptr) := BlocksFor(size)]
    ensures TrailRowsKept(h, old(h.live), trail)
    ensures Granted(h, p, size, ptr) && Rest(h, p) == old(Rest(h, p))
  {
    hide Encodes, FlatOf, PagesOk, SpaceIn, SlotsOk, ProcessOk, TrailBlocks, DifferentBlocks, BlocksFor, Holdings,
      MapToPages, FirstFit, NoRoom, NoSlot, Zeroed, Footprint, Take, FreeSlots, Heap.AddressBlock, Heap.BlockAddress;
    ghost var slots, live := p.allocations[..], h.live;
    NoSlotMeans(slots);
    FootprintOf(h, p, slots);
    TrailRowsSafe(h, p, base, trail);
    ptr := ProcessMalloc(h, p, size, others);
    OkIsRegion(h, p);
    if ptr != NULL {
      ghost var i: nat :| Recorded(slots, p.allocations[..], i, Allocation(ptr, size));
      HoldingsAfterSet(h, slots, i, Allocation(ptr, size));
      SlotTaken(slots, p.allocations[..], i, Allocation(ptr, size));
      ghost var b := h.AddressBlock(ptr);
      OkRegion(h, p, b);
      TrailGrows(h, base, trail, live, Allocation(ptr, size));
      assert h.live - (old(Footprint(h, p)) + {b}) == live - old(Footprint(h, p));
    } else {
      FootprintOf(h, p, slots);
    }
  }

  /** `process_malloc` of one string: it joins the trail, and the vector and its strings keep their words. */
  method MallocString(
    h: Heap, p: Owner, ghost base: Runs, ghost vector: u32, ghost argc: nat, ghost ptrs: seq<u32>,
    ghost texts: seq<string>, ghost others: set<Owner>)
    returns (ptr: u32)
    requires Injecting(h, p, base, vector, argc, ptrs, texts, others)
    modifies h, h.table, h.memory, p.allocations
    ensures ptr == NULL ==> Injecting(h, p, base, vector, argc, ptrs, texts, others)
    ensures ptr != NULL ==> Among(h, p, others) && VectorFits(h, vector, argc) && Filled(h, vector, argc, ptrs, texts)
    ensures ptr != NULL ==>
      && Trail(h, base, VectorTrail(vector, argc, ptrs + [ptr]), h.live)
      && HoldsTrail(h, p, VectorTrail(vector, argc, ptrs + [ptr]))
      && HoldsRun(h, p, ptr, 1) && TextAt(h, ptr, [])
    ensures Granted(h, p, STRING_SIZE, ptr) && Rest(h, p) == old(Rest(h, p))
    ensures forall q :: q in others ==> OwnerKept(h, q)
  {
    hide Among, Trail, HoldsTrail, TrailRow, OwnerKept, Holdings, BlocksFor, Granted, Rest, ByteIn, Heap.AddressBlock,
      Heap.BlockAddress;
    ghost var trail := VectorTrail(vector, argc, ptrs);
    FilledRows(h, base, vector, argc, ptrs);
    VectorIsLive(h, base, vector, argc, ptrs);
    ptr := MallocBeside(h, p, STRING_SIZE, base, trail, others);
    forall k: nat | k < argc ensures WordAt(h, vector, k) == old(WordAt(h, vector, k)) {
      assert TrailRow(h, old(h.live), trail, h.AddressBlock(vector) + k / 1024);
    }
    forall k | 0 <= k < |ptrs| ensures TextAt(h, ptrs[k], texts[k]) {
      assert old(TextAt(h, ptrs[k], texts[k])) && TrailRow(h, old(h.live), trail, h.AddressBlock(ptrs[k]));
    }
    if ptr != NULL {
      assert VectorTrail(vector, argc, ptrs + [ptr]) == trail + [Allocation(ptr, STRING_SIZE)];
      StringIsOneBlock();
      ZeroedText(h, ptr);
    }
  }

  lemma StringIsOneBlock()
    ensures BlocksFor(STRING_SIZE) == 1
  {
  }

  lemma VectorIsLive(h: Heap, base: Runs, vector: u32, argc: nat, ptrs: seq<u32>)
    requires 4 * argc < TWO32 && Trail(h, base, VectorTrail(vector, argc, ptrs), h.live)
    ensures h.AddressBlock(vector) in h.live
  {
    assert VectorTrail(vector, argc, ptrs)[0] in VectorTrail(vector, argc, ptrs);
    assert AllocAt(h, h.live, Allocation(vector, 4 * argc));
  }

  lemma OkIsRegion(h: Heap, p: Owner)
    requires ProcessOk(h, p)
    ensures h.Valid()
  {
  }

  /** A run of the trail has no row of another. */
  lemma RowsDiffer(h: Heap, base: Runs, trail: seq<Allocation>, i: nat, j: nat)
    requires h.Valid() && Trail(h, base, trail, h.live) && i < |trail| && j < |trail| && i != j
    ensures var a, b := h.AddressBlock(trail[i].ptr), h.AddressBlock(trail[j].ptr);
      a in h.live && b in h.live && forall r :: Covers(h.live, a, r) ==> !Covers(h.live, b, r)
  {
    hide Encodes, TrailBlocks, BlocksFor, Heap.AddressBlock, Heap.BlockAddress;
    assert AllocAt(h, h.live, trail[i]) && AllocAt(h, h.live, trail[j]);
    var a, b := h.AddressBlock(trail[i].ptr), h.AddressBlock(trail[j].ptr);
    assert a != b;
    h.LiveRunsApart(a, b);
  }

  /** What the places of a vector and its strings are: the strings' rows are all different, and none is the vector's. */
  lemma PlacesDiffer(h: Heap, base: Runs, vector: u32, argc: nat, ptrs: seq<u32>)
    requires 4 * argc < TWO32 && h.Valid() && Trail(h, base, VectorTrail(vector, argc, ptrs), h.live)
    requires VectorFits(h, vector, argc)
    ensures forall r, m :: Covers(h.live, h.AddressBlock(vector), r) && 0 <= m < |ptrs| ==> r != h.AddressBlock(ptrs[m])
    ensures forall k, m :: 0 <= k < |ptrs| && 0 <= m < |ptrs| && k != m ==>
      h.AddressBlock(ptrs[k]) != h.AddressBlock(ptrs[m])
    ensures forall m :: 0 <= m < |ptrs| ==>
      h.AddressBlock(ptrs[m]) in h.live && h.AddressBlock(ptrs[m]) < h.memory.Length0
  {
    hide Encodes, TrailBlocks, BlocksFor, Heap.AddressBlock, Heap.BlockAddress;
    var trail := VectorTrail(vector, argc, ptrs);
    forall m | 0 <= m < |ptrs|
      ensures h.AddressBlock(ptrs[m]) in h.live && h.AddressBlock(ptrs[m]) < h.memory.Length0
      ensures forall r :: Covers(h.live, h.AddressBlock(vector), r) ==> r != h.AddressBlock(ptrs[m])
    {
      RowsDiffer(h, base, trail, 0, 1 + m);
      RunsInside(h, h.AddressBlock(ptrs[m]));
      assert Covers(h.live, h.AddressBlock(ptrs[m]), h.AddressBlock(ptrs[m]));
    }
    forall k, m | 0 <= k < |ptrs| && 0 <= m < |ptrs| && k != m
      ensures h.AddressBlock(ptrs[k]) != h.AddressBlock(ptrs[m]) {
      assert trail[1 + k].ptr == ptrs[k] && trail[1 + m].ptr == ptrs[m];
    }
  }

  /** The copy of an argument into its string leaves the vector and the other strings alone. */
  method CopyBeside(
    h: Heap, p: Owner, ptr: u32, node: ArgNode, ghost text: string, ghost base: Runs, ghost vector: u32,
    ghost argc: nat, ghost ptrs: seq<u32>, ghost texts: seq<string>, ghost others: set<Owner>)
    requires 4 * argc < TWO32 && Among(h, p, others) && VectorFits(h, vector, argc)
      && Filled(h, vector, argc, ptrs, texts)
    requires Trail(h, base, VectorTrail(vector, argc, ptrs + [ptr]), h.live)
    requires HoldsRun(h, p, ptr, 1) && TextAt(h, ptr, []) && HoldsAt(node, text)
    modifies h.memory
    ensures Among(h, p, others) && VectorFits(h, vector, argc) && Filled(h, vector, argc, ptrs, texts)
    ensures TextAt(h, ptr, text) && forall q :: q in others ==> OwnerKept(h, q)
  {
    hide Among, Trail, OwnerKept, HoldsRun, HoldsAt, ByteIn, BlocksFor, Heap.AddressBlock, Heap.BlockAddress;
    AmongIsRegion(h, p, others);
    PlacesDiffer(h, base, vector, argc, ptrs + [ptr]);
    assert (ptrs + [ptr])[|ptrs|] == ptr && forall k :: 0 <= k < |ptrs| ==> (ptrs + [ptr])[k] == ptrs[k];
    ghost var rows := h.AddressBlock(vector);
    assert forall k: nat :: k < argc ==> Covers(h.live, rows, rows + k / 1024);
    CopyText(h, p, ptr, node, text, others);
  }

  lemma AmongIsRegion(h: Heap, p: Owner, others: set<Owner>)
    requires Among(h, p, others)
    ensures h.Valid()
  {
    OkIsRegion(h, p);
  }

  /** The store `argv[i] = argument_str`. */
  method EnterString(
    h: Heap, p: Owner, vector: u32, argc: nat, i: nat, ptr: u32, ghost text: string, ghost base: Runs,
    ghost ptrs: seq<u32>, ghost texts: seq<string>, ghost others: set<Owner>)
    requires 4 * argc < TWO32 && Among(h, p, others) && VectorFits(h, vector, argc)
      && Filled(h, vector, argc, ptrs, texts)
    requires Trail(h, base, VectorTrail(vector, argc, ptrs + [ptr]), h.live)
    requires HoldsTrail(h, p, VectorTrail(vector, argc, ptrs + [ptr])) && TextAt(h, ptr, text) && i == |ptrs| < argc
    modifies h.memory
    ensures Among(h, p, others) && VectorFits(h, vector, argc)
    ensures Filled(h, vector, argc, ptrs + [ptr], texts + [text])
    ensures forall q :: q in others ==> OwnerKept(h, q)
  {
    hide Among, Trail, OwnerKept, ByteIn, BlocksFor, HoldsTrail, Heap.AddressBlock, Heap.BlockAddress;
    AmongIsRegion(h, p, others);
    PlacesDiffer(h, base, vector, argc, ptrs + [ptr]);
    VectorIsHeld(h, p, base, vector, argc, ptrs + [ptr]);
    ghost var rows, ptrs' := h.AddressBlock(vector), ptrs + [ptr];
    assert ptrs'[|ptrs|] == ptr && forall k :: 0 <= k < |ptrs| ==> ptrs'[k] == ptrs[k];
    assert Covers(h.live, rows, rows + i / 1024);
    StoreWord(h, p, vector, h.live[rows], h.AddressBlock(vector) + i / 1024, i % 1024, ptr, others);
    forall k | 0 <= k < argc ensures WordAt(h, vector, k) == if k < |ptrs'| then ptrs'[k] else 0 {
      SplitIndex(k, i / 1024, i % 1024);
      assert i == i / 1024 * 1024 + i % 1024;
      assert old(WordAt(h, vector, k)) == if k < |ptrs| then ptrs[k] else 0;
      assert Covers(h.live, rows, rows + k / 1024);
    }
    forall k | 0 <= k < |ptrs'| ensures TextAt(h, ptrs'[k], (texts + [text])[k]) {
      ghost var b := h.AddressBlock(ptrs'[k]);
      assert old(TextAt(h, ptrs'[k], (texts + [text])[k])) && b != rows + i / 1024;
      forall m | 0 <= m < 4096 ensures ByteAt(h, b, m) == old(ByteAt(h, b, m)) {
        assert h.memory[b, m / 4] == old(h.memory[b, m / 4]);
      }
    }
  }

  /** One argument: its string is allocated, copied and entered in the vector, or nothing changes. */
  method InjectOne(
    h: Heap, p: Owner, vector: u32, argc: nat, i: nat, node: ArgNode, ghost text: string, ghost base: Runs,
    ghost ptrs: seq<u32>, ghost texts: seq<string>, ghost others: set<Owner>)
    returns (ptr: u32)
    requires Injecting(h, p, base, vector, argc, ptrs, texts, others) && i == |ptrs| < argc && HoldsAt(node, text)
    requires node.argument as object != h.table && node.argument as object != p.allocations
    modifies h, h.table, h.memory, p.allocations
    ensures ptr == NULL ==> Injecting(h, p, base, vector, argc, ptrs, texts, others)
    ensures ptr != NULL ==> Injecting(h, p, base, vector, argc, ptrs + [ptr], texts + [text], others)
    ensures Granted(h, p, STRING_SIZE, ptr) && Rest(h, p) == old(Rest(h, p))
    ensures forall q :: q in others ==> OwnerKept(h, q)
  {
    hide ProcessOk, FlatOf, Trail, HoldsTrail, VectorFits, Filled, TextAt, HoldsRun, AllApart, AllOk, NoRoom, BlocksFor,
      Take, FreeSlots, Rest, CStr, Terminated;
    ptr := MallocString(h, p, base, vector, argc, ptrs, texts, others);
    if ptr != NULL {
      CopyBeside(h, p, ptr, node, text, base, vector, argc, ptrs, texts, others);
      EnterString(h, p, vector, argc, i, ptr, text, base, ptrs, texts, others);
    }
  }

  lemma VectorIsHeld(h: Heap, p: Owner, base: Runs, vector: u32, argc: nat, ptrs: seq<u32>)
    requires 4 * argc < TWO32 && h.Valid() && Trail(h, base, VectorTrail(vector, argc, ptrs), h.live)
    requires HoldsTrail(h, p, VectorTrail(vector, argc, ptrs)) && VectorFits(h, vector, argc)
    ensures HoldsRun(h, p, vector, h.live[h.AddressBlock(vector)])
  {
    hide Encodes, TrailBlocks, BlocksFor, Holdings, Heap.AddressBlock, Heap.BlockAddress;
    assert VectorTrail(vector, argc, ptrs)[0] in VectorTrail(vector, argc, ptrs);
    assert AllocAt(h, h.live, Allocation(vector, 4 * argc));
    RunsInside(h, h.AddressBlock(vector));
  }

  // ----- giving a failed injection back

  lemma SlotOfRun(h: Heap, p: Owner, base: Runs, trail: seq<Allocation>, a: Allocation) returns (i: nat)
    requires ProcessOk(h, p) && Trail(h, base, trail, h.live) && HoldsTrail(h, p, trail) && a in trail
    ensures i < p.allocations.Length && p.allocations[i].ptr == a.ptr != NULL
  {
    hide Encodes, FlatOf, PagesOk, SpaceIn, TrailBlocks, DifferentBlocks, BlocksFor, Heap.AddressBlock,
      Heap.BlockAddress;
    var slots := p.allocations[..];
    assert AllocAt(h, h.live, a) && h.AddressBlock(a.ptr) in Holdings(h, slots);
    i :| 0 <= i < |slots| && slots[i].ptr != NULL && h.AddressBlock(slots[i].ptr) == h.AddressBlock(a.ptr);
    assert SlotOk(h, h.live, slots[i], p.space, p.kept);
  }

  /** `process_free` of one allocation of a trail: it leaves the trail, and the rows of the trail keep their words. */
  method FreeOne(
    h: Heap, p: Owner, ptr: u32, ghost base: Runs, ghost front: seq<Allocation>, ghost a: Allocation,
    ghost rest: seq<Allocation>, ghost others: set<Owner>)
    requires Among(h, p, others) && Trail(h, base, front + [a] + rest, h.live) && HoldsTrail(h, p, front + [a] + rest)
    requires ptr == a.ptr
    modifies h, h.table, h.memory, p.allocations
    ensures Among(h, p, others) && Trail(h, base, front + rest, h.live) && HoldsTrail(h, p, front + rest)
    ensures h.Valid() && TrailRowsKept(h, old(h.live), front + [a] + rest) && Rest(h, p) == old(Rest(h, p))
    ensures forall q :: q in others ==> OwnerKept(h, q)
  {
    hide Encodes, FlatOf, PagesOk, SpaceIn, SlotsOk, ProcessOk, TrailBlocks, DifferentBlocks, BlocksFor, MapToPages,
      Footprint, Heap.AddressBlock, Heap.BlockAddress;
    ghost var trail, slots := front + [a] + rest, p.allocations[..];
    TrailRowsSafe(h, p, base, trail);
    assert trail[|front|] == a;
    ghost var i := SlotOfRun(h, p, base, trail, a);
    TrailShrinks(h, base, front, a, rest, h.live);
    OthersStayHeld(h, p, base, front, a, rest, i);
    SlotInFootprint(h, p, i);
    ProcessFree(h, p, ptr, others);
    OkIsRegion(h, p);
    assert h.live - Footprint(h, p) == old(Rest(h, p));
  }

  lemma OthersStayHeld(
    h: Heap, p: Owner, base: Runs, front: seq<Allocation>, a: Allocation, rest: seq<Allocation>, i: nat)
    requires Trail(h, base, front + [a] + rest, h.live) && HoldsTrail(h, p, front + [a] + rest)
    requires i < p.allocations.Length && p.allocations[i].ptr == a.ptr
    ensures forall c :: c in front + rest ==>
      h.AddressBlock(c.ptr) in Holdings(h, p.allocations[..][i := Allocation(NULL, 0)])
  {
    hide BlocksFor, AllocAt, Heap.AddressBlock, Heap.BlockAddress;
    var slots := p.allocations[..];
    var slots' := slots[i := Allocation(NULL, 0)];
    TakeOutDifferent(h, front, a, rest);
    forall c | c in front + rest ensures h.AddressBlock(c.ptr) in Holdings(h, slots') {
      assert c in front + [a] + rest && h.AddressBlock(c.ptr) in Holdings(h, slots);
      InTrailBlocks(h, front + rest, c);
      var k :| 0 <= k < |slots| && slots[k].ptr != NULL && h.AddressBlock(slots[k].ptr) == h.AddressBlock(c.ptr);
      assert k != i && slots'[k] == slots[k];
    }
  }

  /** What is left of a vector's trail before word k is freed. */
  ghost function LeftTrail(vector: u32, argc: nat, strings: seq<Allocation>, k: nat): seq<Allocation>
    requires 4 * argc < TWO32
  {
    [Allocation(vector, 4 * argc)] + if k < |strings| then strings[k..] else []
  }

  ghost predicate HoldsWords(h: Heap, vector: u32, argc: nat, ptrs: seq<u32>)
    requires VectorFits(h, vector, argc)
    reads h, h.memory
  {
    forall m :: 0 <= m < argc ==> WordAt(h, vector, m) == if m < |ptrs| then ptrs[m] else 0
  }

  /** Word k of the vector is freed: a string, or NULL. */
  method FreeWord(
    h: Heap, p: Owner, vector: u32, argc: nat, k: nat, ghost base: Runs, ghost ptrs: seq<u32>,
    ghost strings: seq<Allocation>, ghost others: set<Owner>)
    requires 4 * argc < TWO32 && Among(h, p, others) && VectorFits(h, vector, argc) && HoldsWords(h, vector, argc, ptrs)
    requires k < argc && |strings| == |ptrs| && forall m :: 0 <= m < |ptrs| ==> strings[m].ptr == ptrs[m]
    requires Trail(h, base, LeftTrail(vector, argc, strings, k), h.live)
    requires HoldsTrail(h, p, LeftTrail(vector, argc, strings, k))
    modifies h, h.table, h.memory, p.allocations
    ensures Among(h, p, others) && VectorFits(h, vector, argc) && HoldsWords(h, vector, argc, ptrs)
    ensures Trail(h, base, LeftTrail(vector, argc, strings, k + 1), h.live)
    ensures HoldsTrail(h, p, LeftTrail(vector, argc, strings, k + 1)) && Rest(h, p) == old(Rest(h, p))
    ensures forall q :: q in others ==> OwnerKept(h, q)
  {
    hide ProcessOk, FlatOf, Trail, HoldsTrail, AllApart, TrailRow, Rest, Heap.AddressBlock, Heap.BlockAddress;
    ghost var left, v := LeftTrail(vector, argc, strings, k), [Allocation(vector, 4 * argc)];
    AmongIsRegion(h, p, others);
    var ptr := h.memory[h.AddressBlock(vector) + k / 1024, k % 1024];
    assert ptr == WordAt(h, vector, k);
    if ptr == NULL {
      if k < |ptrs| {
        assert left[1] == strings[k];
        NoNullInTrail(h, base, left, strings[k]);
        assert false;
      }
    } else {
      assert left == v + [strings[k]] + strings[k + 1..];
      VectorRows(h, base, vector, argc, left);
      FreeOne(h, p, ptr, base, v, strings[k], strings[k + 1..], others);
      assert v + strings[k + 1..] == LeftTrail(vector, argc, strings, k + 1);
      VectorStays(h, base, vector, argc, LeftTrail(vector, argc, strings, k + 1));
    }
  }

  lemma NoNullInTrail(h: Heap, base: Runs, trail: seq<Allocation>, a: Allocation)
    requires Trail(h, base, trail, h.live) && a in trail
    ensures a.ptr != NULL
  {
    assert AllocAt(h, h.live, a);
  }

  /** The vector's rows are rows of its trail. */
  lemma VectorRows(h: Heap, base: Runs, vector: u32, argc: nat, trail: seq<Allocation>)
    requires 4 * argc < TWO32 && VectorFits(h, vector, argc) && Allocation(vector, 4 * argc) in trail
    ensures forall k: nat :: k < argc ==> TrailRow(h, h.live, trail, h.AddressBlock(vector) + k / 1024)
  {
    hide Heap.AddressBlock;
    forall k: nat | k < argc ensures TrailRow(h, h.live, trail, h.AddressBlock(vector) + k / 1024) {
      assert Covers(h.live, h.AddressBlock(Allocation(vector, 4 * argc).ptr), h.AddressBlock(vector) + k / 1024);
    }
  }

  lemma VectorStays(h: Heap, base: Runs, vector: u32, argc: nat, trail: seq<Allocation>)
    requires 4 * argc < TWO32 && h.Valid() && Trail(h, base, trail, h.live) && Allocation(vector, 4 * argc) in trail
    ensures VectorFits(h, vector, argc)
  {
    hide Encodes, Heap.AddressBlock, Heap.BlockAddress;
    var b := h.AddressBlock(vector);
    assert AllocAt(h, h.live, Allocation(vector, 4 * argc));
    RunsInside(h, b);
    BlocksHoldSize(4 * argc);
    WordsFit(argc, h.live[b]);
  }

  lemma WordsFit(argc: nat, n: nat)
    requires 4 * argc <= n * 4096
    ensures argc <= n * 1024
  {
  }

  /** The cleanup of `process_inject_argument`: every word of the vector is freed, and then the vector, and nothing of
      the injection is left. */
  method FreeVector(
    h: Heap, p: Owner, vector: u32, argc: nat, ghost base: Runs, ghost ptrs: seq<u32>, ghost texts: seq<string>,
    ghost others: set<Owner>)
    requires Injecting(h, p, base, vector, argc, ptrs, texts, others)
    modifies h, h.table, h.memory, p.allocations
    ensures Among(h, p, others) && Trail(h, base, [], h.live) && forall q :: q in others ==> OwnerKept(h, q)
    ensures Rest(h, p) == old(Rest(h, p))
  {
    hide Encodes, ProcessOk, FlatOf, Trail, HoldsTrail, AllApart, TrailRow, Rest, Heap.AddressBlock, Heap.BlockAddress;
    ghost var v := Allocation(vector, 4 * argc);
    ghost var strings := VectorTrail(vector, argc, ptrs)[1..];
    var k := 0;
    assert VectorTrail(vector, argc, ptrs) == LeftTrail(vector, argc, strings, 0);
    while k < argc
      invariant 0 <= k <= argc && Among(h, p, others) && VectorFits(h, vector, argc)
      invariant Trail(h, base, LeftTrail(vector, argc, strings, k), h.live)
      invariant HoldsTrail(h, p, LeftTrail(vector, argc, strings, k)) && HoldsWords(h, vector, argc, ptrs)
      invariant Rest(h, p) == old(Rest(h, p))
      invariant forall q :: q in others ==> OwnerKept(h, q)
    {
      FreeWord(h, p, vector, argc, k, base, ptrs, strings, others);
      k := k + 1;
    }
    ghost var none: seq<Allocation> := [];
    assert LeftTrail(vector, argc, strings, argc) == none + [v] + none && none + none == none;
    FreeOne(h, p, vector, base, none, v, none, others);
  }

  // ----- the whole injection

  /** What an injection of argc arguments has asked the heap for after n strings. */
  function InjectionSizes(argc: nat, n: nat): (sizes: seq<u32>)
    requires 4 * argc < TWO32
    ensures |sizes| == 1 + n
  {
    if n == 0 then [4 * argc] else InjectionSizes(argc, n - 1) + [STRING_SIZE]
  }

  lemma {:induction false} FewerFit(t: seq<Entry>, argc: nat, i: nat, n: nat)
    requires 4 * argc < TWO32 && i <= n && AllFit(t, InjectionSizes(argc, n))
    ensures AllFit(t, InjectionSizes(argc, i))
    decreases n
  {
    hide AllFit, TakeAll, NoRoom, BlocksFor, Take, Place, Places;
    if i < n {
      TakeNext(t, InjectionSizes(argc, n - 1), STRING_SIZE);
      FewerFit(t, argc, i, n - 1);
    }
  }

  lemma VectorSize(t: seq<Entry>, argc: nat)
    requires 4 * argc < TWO32
    ensures TakeAll(t, InjectionSizes(argc, 0)) == Take(t, 4 * argc)
    ensures AllFit(t, InjectionSizes(argc, 0)) <==> !NoRoom(t, BlocksFor(4 * argc))
  {
    hide AllFit, TakeAll, NoRoom, BlocksFor, Take, Place, Places;
    TakeNone(t);
    TakeNext(t, [], 4 * argc);
    assert InjectionSizes(argc, 0) == [] + [4 * argc];
  }

  /** Whether a heap and a process with so many free slots can take an injection. */
  ghost predicate CanInject(t: seq<Entry>, slots: seq<Allocation>, argc: nat) {
    0 < argc && 4 * argc < TWO32 && AllFit(t, InjectionSizes(argc, argc)) && |FreeSlots(slots)| > argc
  }

  /** One allocation that does not fit, or one slot too few, rules the injection out. */
  lemma CannotInject(t: seq<Entry>, slots: seq<Allocation>, argc: nat, i: nat)
    requires 4 * argc < TWO32 && i <= argc
    requires !AllFit(t, InjectionSizes(argc, i)) || |FreeSlots(slots)| <= i
    ensures !CanInject(t, slots, argc)
  {
    hide AllFit, FreeSlots;
    if CanInject(t, slots, argc) {
      FewerFit(t, argc, i, argc);
    }
  }

  lemma SameRuns(h: Heap, p: Owner, t: seq<Entry>, base: Runs)
    requires ProcessOk(h, p) && h.live == base && Encodes(t, base) && |t| == h.table.Length
    ensures h.table[..] == t
  {
    EncodingUnique(h.table[..], t, base);
  }

  /** The vector itself: zeroed words, and no string yet. */
  method TakeVector(h: Heap, p: Owner, argc: nat, ghost others: set<Owner>) returns (vector: u32)
    requires Among(h, p, others) && 0 < argc && 4 * argc < TWO32
    modifies h, h.table, h.memory, p.allocations
    ensures vector != NULL ==> Injecting(h, p, old(h.live), vector, argc, [], [], others)
    ensures vector == NULL ==> Among(h, p, others) && h.live == old(h.live)
    ensures Granted(h, p, 4 * argc, vector) && Rest(h, p) == old(Rest(h, p))
    ensures forall q :: q in others ==> OwnerKept(h, q)
  {
    hide ProcessOk, FlatOf, Holdings, AllApart, BlocksFor, NoRoom, Take, FreeSlots, Rest, Heap.AddressBlock,
      Heap.BlockAddress;
    ghost var base := h.live;
    NoTrail(h, base);
    vector := MallocBeside(h, p, 4 * argc, base, [], others);
    if vector != NULL {
      WordsFit(argc, BlocksFor(4 * argc));
      assert VectorTrail(vector, argc, []) == [] + [Allocation(vector, 4 * argc)];
    }
  }

  /** `process_count_command_argument`. */
  method CountArguments(root: ArgNode?, ghost nodes: seq<ArgNode>) returns (count: nat)
    requires Chained(nodes) && root == if nodes == [] then null else nodes[0]
    ensures count == |nodes|
  {
    count := 0;
    var current := root;
    while current != null
      invariant count <= |nodes| && current == if count < |nodes| then nodes[count] else null
      decreases |nodes| - count
    {
      count := count + 1;
      current := current.next;
    }
  }

  /** The list is none of the memory that an injection writes. */
  ghost predicate Outside(h: Heap, p: Owner, nodes: seq<ArgNode>) {
    forall n :: n in nodes ==> n.argument as object != h.table && n.argument as object != p.allocations
  }

  /** The loop of `process_inject_argument`: a string for each argument of the list, as far as there is room and a
      slot. */
  method FillVector(
    h: Heap, p: Owner, vector: u32, argc: nat, root: ArgNode?, ghost nodes: seq<ArgNode>, ghost texts: seq<string>,
    ghost base: Runs, ghost t: seq<Entry>, ghost slots: seq<Allocation>, ghost others: set<Owner>)
    returns (ok: bool, ghost ptrs: seq<u32>)
    requires Injecting(h, p, base, vector, argc, [], [], others) && argc == |texts|
    requires Chained(nodes) && CommandLine.Holds(nodes, texts) && root == (if nodes == [] then null else nodes[0])
    requires Outside(h, p, nodes)
    requires AllFit(t, InjectionSizes(argc, 0)) && h.table[..] == TakeAll(t, InjectionSizes(argc, 0))
    requires |FreeSlots(p.allocations[..])| == |FreeSlots(slots)| - 1
    modifies h, h.table, h.memory, p.allocations
    ensures ok ==> |ptrs| == argc && Injecting(h, p, base, vector, argc, ptrs, texts, others)
    ensures ok ==> AllFit(t, InjectionSizes(argc, argc)) && |FreeSlots(slots)| > argc
    ensures ok ==> h.table[..] == TakeAll(t, InjectionSizes(argc, argc))
    ensures !ok ==> |ptrs| < argc && Injecting(h, p, base, vector, argc, ptrs, texts[..|ptrs|], others)
    ensures !ok ==> !CanInject(t, slots, argc)
    ensures Rest(h, p) == old(Rest(h, p)) && forall q :: q in others ==> OwnerKept(h, q)
  {
    hide ProcessOk, FlatOf, Holdings, BlocksFor, AllApart, Trail, HoldsTrail, Filled, VectorFits, FreeSlots, AllFit,
      TakeAll, Places, NoRoom, Take, Rest, HoldsAt, CanInject, Heap.AddressBlock, Heap.BlockAddress;
    ok, ptrs := true, [];
    var current, i := root, 0;
    while current != null
      invariant 0 <= i <= argc && i == |ptrs| && Injecting(h, p, base, vector, argc, ptrs, texts[..i], others)
      invariant current == (if i < argc then nodes[i] else null) && CommandLine.Holds(nodes, texts)
      invariant AllFit(t, InjectionSizes(argc, i)) && h.table[..] == TakeAll(t, InjectionSizes(argc, i))
      invariant |FreeSlots(p.allocations[..])| == |FreeSlots(slots)| - 1 - i
      invariant Rest(h, p) == old(Rest(h, p)) && forall q :: q in others ==> OwnerKept(h, q)
      decreases argc - i
    {
      TakeNext(t, InjectionSizes(argc, i), STRING_SIZE);
      var ptr := InjectOne(h, p, vector, argc, i, current, texts[i], base, ptrs, texts[..i], others);
      if ptr == NULL {
        CannotInject(t, slots, argc, i + 1);
        return false, ptrs;
      }
      assert texts[..i + 1] == texts[..i] + [texts[i]];
      ptrs := ptrs + [ptr];
      i := i + 1;
      current := current.next;
    }
    assert texts[..i] == texts;
  }

  /** `process_inject_argument`: if and only if there is room for the vector and each string in turn and a slot for
      each, a vector in a run of the process whose words lead to one string each, holding the arguments in order;
      otherwise the heap has the runs and the table it had. */
  method InjectArguments(
    h: Heap, p: Owner, root: ArgNode?, ghost nodes: seq<ArgNode>, ghost texts: seq<string>, ghost others: set<Owner>)
    returns (res: i32, argc: nat, vector: u32, ghost ptrs: seq<u32>)
    requires Among(h, p, others) && 4 * |texts| < TWO32
    requires Chained(nodes) && CommandLine.Holds(nodes, texts) && root == (if nodes == [] then null else nodes[0])
    requires Outside(h, p, nodes)
    modifies h, h.table, h.memory, p.allocations
    ensures Among(h, p, others) && forall q :: q in others ==> OwnerKept(h, q)
    ensures res == OK || res == ENOMEM || res == EIO
    ensures res == EIO <==> texts == []
    ensures res == OK <==> CanInject(old(h.table[..]), old(p.allocations[..]), |texts|)
    ensures res == OK ==> h.table[..] == TakeAll(old(h.table[..]), InjectionSizes(|texts|, |texts|))
    ensures argc == |texts| && Rest(h, p) == old(Rest(h, p))
    ensures res == OK ==>
      |ptrs| == |texts| && Injecting(h, p, old(h.live), vector, |texts|, ptrs, texts, others)
    ensures res != OK ==> h.live == old(h.live) && h.table[..] == old(h.table[..])
  {
    hide ProcessOk, FlatOf, Holdings, BlocksFor, AllApart, Trail, HoldsTrail, Filled, VectorFits, Encodes, FreeSlots,
      AllFit, TakeAll, Places, NoRoom, Take, Rest, CStr, Terminated, Heap.AddressBlock, Heap.BlockAddress;
    ghost var base, t, slots := h.live, h.table[..], p.allocations[..];
    AmongIsRegion(h, p, others);
    vector, ptrs := NULL, [];
    argc := CountArguments(root, nodes);
    if argc == 0 {
      return EIO, argc, vector, ptrs;
    }
    VectorSize(t, argc);
    vector := TakeVector(h, p, argc, others);
    if vector == NULL {
      CannotInject(t, slots, argc, 0);
      SameRuns(h, p, t, base);
      return ENOMEM, argc, vector, ptrs;
    }
    var ok;
    ok, ptrs := FillVector(h, p, vector, argc, root, nodes, texts, base, t, slots, others);
    if !ok {
      FreeVector(h, p, vector, argc, base, ptrs, texts[..|ptrs|], others);
      OnlyBase(h, base, h.live);
      SameRuns(h, p, t, base);
    }
    res := if ok then OK else ENOMEM;
  }
}
