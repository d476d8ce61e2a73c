/**
  The kernel's own allocations while it loads a program (fs/file.c, fs/pparser.c, fs/fat/fat16.c), one run after the
  other, and which of them opening and closing a file gives back.
 */
module KernelRuns {
  import opened Machine
  import opened HeapTable
  import opened KernelHeap
  import opened Paging
  import opened ProcessMemory
  import opened ProgramPages

  // ----- what a load takes besides the image and the stack

  /** `struct task_struct`, `struct elf_file` and `struct thread_info`. */
  const TASK_STRUCT_SIZE: u32 := 9372
  const ELF_FILE_SIZE: u32 := 132
  const THREAD_INFO_SIZE: u32 := 64

  /** A parsed path: its root, and for each part a buffer and a node. */
  const PATH_ROOT_SIZE: u32 := 8
  const PATH_PART_SIZE: u32 := 8
  const KERNEL_MAX_PATH: u32 := 108

  /** An open FAT16 file: its descriptor, its item, the copy of its directory entry, and the kernel's descriptor. */
  const OPEN_FILE: seq<u32> := [8, 8, 32, 16]

  function PathSizes(parts: nat): seq<u32> {
    if parts == 0 then [PATH_ROOT_SIZE] else PathSizes(parts - 1) + [KERNEL_MAX_PATH, PATH_PART_SIZE]
  }

  /** Eight bytes for the root, and then 108 and 8 for each part. */
  lemma {:induction false} PathSizesAre(parts: nat)
    ensures |PathSizes(parts)| == 2 * parts + 1 && PathSizes(parts)[0] == 8
    ensures forall k :: 0 <= k < parts ==> PathSizes(parts)[2 * k + 1] == 108 && PathSizes(parts)[2 * k + 2] == 8
    decreases parts
  {
    if parts > 0 {
      PathSizesAre(parts - 1);
    }
  }

  /** What opening a file loses: the parsed path, which `fopen` frees only if it fails, and the directories walked
      through. */
  function PathLoss(o: Opening): seq<u32> {
    PathSizes(o.parts) + o.lookup
  }

  /** What a program that has been loaded leaves in files: an ELF file is never closed, and a binary is opened twice. */
  function FileLoss(program: Program): seq<u32> {
    match program
    case Elf(_, _, o) => PathLoss(o) + OPEN_FILE
    case Binary(_, o) => PathLoss(o) + PathLoss(o)
  }

  // ----- a load's allocations, one after the other

  ghost function TrailBlocks(h: Heap, trail: seq<Allocation>): set<nat> {
    set a | a in trail :: h.AddressBlock(a.ptr)
  }

  ghost predicate AllocAt(h: Heap, live: Runs, a: Allocation) {
    var b := h.AddressBlock(a.ptr);
    && a.ptr != NULL && a.ptr == h.BlockAddress(b) && b < h.table.Length
    && b in live && live[b] == BlocksFor(a.size) > 0
  }

  ghost predicate DifferentBlocks(h: Heap, trail: seq<Allocation>) {
    forall j, k :: 0 <= j < k < |trail| ==> h.AddressBlock(trail[j].ptr) != h.AddressBlock(trail[k].ptr)
  }

  /** These live runs are the base and exactly one run for each allocation of the trail. */
  ghost predicate Trail(h: Heap, base: Runs, trail: seq<Allocation>, live: Runs) {
    && live.Keys == base.Keys + TrailBlocks(h, trail) && base.Keys !! TrailBlocks(h, trail)
    && (forall b :: b in base ==> live[b] == base[b])
    && (forall a :: a in trail ==> AllocAt(h, live, a))
    && DifferentBlocks(h, trail)
  }

  lemma TrailBlocksJoin(h: Heap, one: seq<Allocation>, two: seq<Allocation>)
    ensures TrailBlocks(h, one + two) == TrailBlocks(h, one) + TrailBlocks(h, two)
  {
    hide Heap.AddressBlock;
  }

  lemma TrailGrows(h: Heap, base: Runs, trail: seq<Allocation>, live: Runs, a: Allocation)
    requires Trail(h, base, trail, live) && h.AddressBlock(a.ptr) !in live
    requires AllocAt(h, live[h.AddressBlock(a.ptr) := BlocksFor(a.size)], a)
    ensures Trail(h, base, trail + [a], live[h.AddressBlock(a.ptr) := BlocksFor(a.size)])
  {
    hide BlocksFor, Heap.AddressBlock, Heap.BlockAddress;
    var trail', b := trail + [a], h.AddressBlock(a.ptr);
    TrailBlocksJoin(h, trail, [a]);
    assert TrailBlocks(h, [a]) == {b};
    forall c | c in trail' ensures AllocAt(h, live[b := BlocksFor(a.size)], c) {
      assert c != a ==> AllocAt(h, live, c);
    }
    forall k | 0 <= k < |trail| ensures h.AddressBlock(trail[k].ptr) != b {
      assert trail[k] in trail;
    }
  }

  /** Taking an allocation out of the middle leaves its run out and all else as it was. */
  lemma TrailShrinks(h: Heap, base: Runs, front: seq<Allocation>, a: Allocation, rest: seq<Allocation>, live: Runs)
    requires Trail(h, base, front + [a] + rest, live)
    ensures AllocAt(h, live, a) && h.AddressBlock(a.ptr) !in base
    ensures Trail(h, base, front + rest, live - {h.AddressBlock(a.ptr)})
  {
    hide BlocksFor, Heap.AddressBlock, Heap.BlockAddress, AllocAt, DifferentBlocks;
    var trail, b := front + [a] + rest, h.AddressBlock(a.ptr);
    TakeOutDifferent(h, front, a, rest);
    TrailBlocksJoin(h, front + [a], rest);
    TrailBlocksJoin(h, front, [a]);
    TrailBlocksJoin(h, front, rest);
    assert TrailBlocks(h, [a]) == {b};
    assert a in trail && b in TrailBlocks(h, trail);
    forall c | c in front + rest ensures AllocAt(h, live - {b}, c) {
      assert c in trail && AllocAt(h, live, c) && h.AddressBlock(c.ptr) in TrailBlocks(h, front + rest);
      StillAt(h, live, b, c);
    }
  }

  lemma StillAt(h: Heap, live: Runs, b: nat, c: Allocation)
    requires AllocAt(h, live, c) && h.AddressBlock(c.ptr) != b
    ensures AllocAt(h, live - {b}, c)
  {
  }

  lemma TakeOutDifferent(h: Heap, front: seq<Allocation>, a: Allocation, rest: seq<Allocation>)
    requires DifferentBlocks(h, front + [a] + rest)
    ensures DifferentBlocks(h, front + rest) && h.AddressBlock(a.ptr) !in TrailBlocks(h, front + rest)
  {
    hide Heap.AddressBlock;
    var trail, trail', i := front + [a] + rest, front + rest, |front|;
    assert trail[i] == a;
    forall k | 0 <= k < |trail'| ensures trail'[k] == trail[if k < i then k else k + 1] {
    }
    forall j, k | 0 <= j < k < |trail'| ensures h.AddressBlock(trail'[j].ptr) != h.AddressBlock(trail'[k].ptr) {
      assert trail'[j] == trail[if j < i then j else j + 1] && trail'[k] == trail[if k < i then k else k + 1];
    }
    forall c | c in trail' ensures h.AddressBlock(c.ptr) != h.AddressBlock(a.ptr) {
      var k :| 0 <= k < |trail'| && trail'[k] == c;
      assert c == trail[if k < i then k else k + 1];
    }
  }

  // ----- taking and giving back

  /** Rows of these runs keep their words. */
  twostate predicate RowsKept(h: Heap, base: Runs)
    reads h.memory
  {
    forall b: nat, r: nat, j :: Covers(base, b, r) && r < h.memory.Length0 && 0 <= j < h.memory.Length1 ==>
      h.memory[r, j] == old(h.memory[r, j])
  }

  /** A load under way: the heap holds what there was before and the allocations of the trail, and no process depends on
      anything of the trail. */
  ghost predicate Loading(h: Heap, base: Runs, trail: seq<Allocation>, procs: set<Owner>)
    reads h, h.table, set q | q in procs :: q.allocations
  {
    && h.Valid() && Trail(h, base, trail, h.live)
    && forall q :: q in procs ==> Footprint(h, q) <= base.Keys
  }

  /** `kzalloc`: one more allocation, or nothing. */
  method Kzalloc(h: Heap, size: u32, ghost base: Runs, ghost trail: seq<Allocation>, ghost procs: set<Owner>)
    returns (ptr: u32, ghost trail': seq<Allocation>)
    requires Loading(h, base, trail, procs) && AllOk(h, procs)
    modifies h, h.table, h.memory
    ensures trail' == if ptr == NULL then trail else trail + [Allocation(ptr, size)]
    ensures Loading(h, base, trail', procs)
    ensures ptr == NULL <==> NoRoom(old(h.table[..]), BlocksFor(size))
    ensures h.table[..] == Take(old(h.table[..]), size)
    ensures ptr != NULL ==>
      ptr == h.BlockAddress(Place(old(h.table[..]), size)) && h.AddressBlock(ptr) == Place(old(h.table[..]), size)
    ensures RowsKept(h, base) && forall q :: q in procs ==> OwnerKept(h, q)
  {
    hide Encodes, FlatOf, ProcessOk, Holdings, BlocksFor, NoRoom, Freed, FirstFit, Zeroed, Take, Heap.BlockAddress,
      Heap.AddressBlock, DifferentBlocks, TrailBlocks;
    forall b: nat, r: nat | Covers(base, b, r) ensures Covers(h.live, b, r) {
    }
    ptr := ZallocFramed(h, size, procs);
    trail' := trail;
    if ptr != NULL {
      TrailGrows(h, base, trail, old(h.live), Allocation(ptr, size));
      trail' := trail + [Allocation(ptr, size)];
    }
    assert forall q :: q in procs ==> Footprint(h, q) == old(Footprint(h, q)) by {
      assert forall q :: q in procs ==> OwnerKept(h, q);
    }
  }

  /** `kfree` of one allocation. */
  method Kfree(
    h: Heap, ptr: u32, ghost base: Runs, ghost front: seq<Allocation>, ghost a: Allocation, ghost rest: seq<Allocation>,
    ghost procs: set<Owner>)
    requires Loading(h, base, front + [a] + rest, procs) && ptr == a.ptr && AllOk(h, procs)
    modifies h, h.table
    ensures Loading(h, base, front + rest, procs)
    ensures h.table[..] == Freed(old(h.table[..]), h.AddressBlock(ptr))
    ensures forall q :: q in procs ==> OwnerKept(h, q)
  {
    hide Encodes, FlatOf, ProcessOk, Holdings, BlocksFor, Freed, Heap.BlockAddress, Heap.AddressBlock,
      DifferentBlocks, TrailBlocks;
    TrailShrinks(h, base, front, a, rest, h.live);
    FreeFramed(h, ptr, procs);
    assert forall q :: q in procs ==> Footprint(h, q) == old(Footprint(h, q)) by {
      assert forall q :: q in procs ==> OwnerKept(h, q);
    }
  }

  /** The allocations of these pointers and sizes. */
  ghost function Allocs(ptrs: seq<u32>, sizes: seq<u32>): seq<Allocation>
    requires |ptrs| <= |sizes|
  {
    seq(|ptrs|, k requires 0 <= k < |ptrs| => Allocation(ptrs[k], sizes[k]))
  }

  function Sizes(trail: seq<Allocation>): (sizes: seq<u32>)
    ensures |sizes| == |trail|
  {
    seq(|trail|, k requires 0 <= k < |trail| => trail[k].size)
  }

  /** The blocks these pointers lead to. */
  ghost function BlocksOf(h: Heap, ptrs: seq<u32>): (blocks: seq<nat>)
    ensures |blocks| == |ptrs|
  {
    seq(|ptrs|, k requires 0 <= k < |ptrs| => h.AddressBlock(ptrs[k]))
  }

  /** Gives back the allocations of these pointers, first to last. */
  method KfreeAll(
    h: Heap, ptrs: seq<u32>, ghost base: Runs, ghost front: seq<Allocation>, ghost mid: seq<Allocation>,
    ghost rest: seq<Allocation>, ghost procs: set<Owner>)
    requires Loading(h, base, front + mid + rest, procs) && AllOk(h, procs)
    requires |mid| == |ptrs| && forall k :: 0 <= k < |ptrs| ==> mid[k].ptr == ptrs[k]
    modifies h, h.table
    ensures Loading(h, base, front + rest, procs)
    ensures h.table[..] == FreedAll(old(h.table[..]), BlocksOf(h, ptrs))
    ensures forall q :: q in procs ==> OwnerKept(h, q)
  {
    hide Loading, ProcessOk, FlatOf, Freed, FreedAll, Heap.AddressBlock;
    ghost var t := h.table[..];
    NothingFreed(t);
    var i := 0;
    while i < |ptrs|
      invariant 0 <= i <= |ptrs| && Loading(h, base, front + mid[i..] + rest, procs)
      invariant h.table[..] == FreedAll(t, BlocksOf(h, ptrs)[..i])
      invariant forall q :: q in procs ==> OwnerKept(h, q)
    {
      assert front + mid[i..] + rest == front + [mid[i]] + (mid[i + 1..] + rest);
      FreedAllStep(t, BlocksOf(h, ptrs)[..i], h.AddressBlock(ptrs[i]));
      assert BlocksOf(h, ptrs)[..i + 1] == BlocksOf(h, ptrs)[..i] + [h.AddressBlock(ptrs[i])];
      Kfree(h, ptrs[i], base, front, mid[i], mid[i + 1..] + rest, procs);
      assert front + (mid[i + 1..] + rest) == front + mid[i + 1..] + rest;
      i := i + 1;
    }
    assert front + mid[i..] + rest == front + rest;
    assert BlocksOf(h, ptrs)[..i] == BlocksOf(h, ptrs);
  }

  /** One allocation of each size, in the places of a first fit of each in turn, if all of them find room; or none
      kept. */
  method KzallocAll(h: Heap, sizes: seq<u32>, ghost base: Runs, ghost trail: seq<Allocation>, ghost procs: set<Owner>)
    returns (ok: bool, ptrs: seq<u32>)
    requires Loading(h, base, trail, procs) && AllOk(h, procs)
    modifies h, h.table, h.memory
    ensures ok <==> AllFit(old(h.table[..]), sizes)
    ensures ok ==> |ptrs| == |sizes| && Loading(h, base, trail + Allocs(ptrs, sizes), procs)
    ensures ok ==>
      h.table[..] == TakeAll(old(h.table[..]), sizes) && BlocksOf(h, ptrs) == Places(old(h.table[..]), sizes)
    ensures !ok ==> Loading(h, base, trail, procs)
    ensures RowsKept(h, base) && forall q :: q in procs ==> OwnerKept(h, q)
  {
    hide Loading, ProcessOk, FlatOf, TakeAll, AllFit, Places, Take, Place, NoRoom, BlocksFor, Heap.AddressBlock;
    ghost var t := h.table[..];
    TakeNone(t);
    ok, ptrs := true, [];
    assert trail + Allocs([], sizes) == trail;
    while |ptrs| < |sizes|
      invariant |ptrs| <= |sizes| && Loading(h, base, trail + Allocs(ptrs, sizes), procs)
      invariant AllFit(t, sizes[..|ptrs|]) && h.table[..] == TakeAll(t, sizes[..|ptrs|])
      invariant BlocksOf(h, ptrs) == Places(t, sizes[..|ptrs|])
      invariant RowsKept(h, base) && forall q :: q in procs ==> OwnerKept(h, q)
      decreases |sizes| - |ptrs|
    {
      var ptr;
      ghost var trail', n := [], |ptrs|;
      assert sizes[..n + 1] == sizes[..n] + [sizes[n]];
      TakeNext(t, sizes[..n], sizes[n]);
      ptr, trail' := Kzalloc(h, sizes[|ptrs|], base, trail + Allocs(ptrs, sizes), procs);
      if ptr == NULL {
        assert trail + Allocs(ptrs, sizes) + [] == trail + Allocs(ptrs, sizes) && trail + [] == trail;
        KfreeAll(h, ptrs, base, trail, Allocs(ptrs, sizes), [], procs);
        TakeJoins(t, sizes[..n + 1], sizes[n + 1..]);
        assert sizes == sizes[..n + 1] + sizes[n + 1..];
        return false, ptrs;
      }
      assert Allocs(ptrs + [ptr], sizes) == Allocs(ptrs, sizes) + [Allocation(ptr, sizes[|ptrs|])];
      assert trail + Allocs(ptrs + [ptr], sizes) == trail';
      assert BlocksOf(h, ptrs + [ptr]) == BlocksOf(h, ptrs) + [h.AddressBlock(ptr)];
      ptrs := ptrs + [ptr];
    }
    assert sizes[..|ptrs|] == sizes;
  }

  lemma InTrailBlocks(h: Heap, trail: seq<Allocation>, a: Allocation)
    requires a in trail
    ensures h.AddressBlock(a.ptr) in TrailBlocks(h, trail)
  {
    hide Heap.AddressBlock;
  }

  lemma NoTrail(h: Heap, base: Runs)
    ensures Trail(h, base, [], base) && Sizes([]) == []
  {
    assert TrailBlocks(h, []) == {};
  }

  lemma OnlyBase(h: Heap, base: Runs, live: Runs)
    requires Trail(h, base, [], live)
    ensures live == base
  {
  }

  lemma LoadingTable(h: Heap, base: Runs, trail: seq<Allocation>, procs: set<Owner>)
    requires Loading(h, base, trail, procs)
    ensures Encodes(h.table[..], h.live) && Trail(h, base, trail, h.live)
  {
  }

  /** The same base and the same trail make the same table. */
  lemma SameTrailSameTable(
    h: Heap, t: seq<Entry>, base: Runs, live: Runs, trail: seq<Allocation>, procs: set<Owner>)
    requires Loading(h, base, trail, procs) && Trail(h, base, trail, live) && Encodes(t, live) && |t| == h.table.Length
    ensures h.table[..] == t
  {
    hide Encodes, DifferentBlocks, BlocksFor, Heap.AddressBlock, Heap.BlockAddress;
    assert forall b :: b in TrailBlocks(h, trail) ==> live[b] == h.live[b];
    assert h.live == live;
    EncodingUnique(h.table[..], t, live);
  }

  // ----- files

  /** What an `fopen` that fails loses. */
  ghost function OpenLoss(t: seq<Entry>, o: Opening): seq<u32> {
    if AllFit(t, PathLoss(o)) then o.lookup else []
  }

  /** `fopen`, which succeeds if and only if the file is there and there is room for its path and for the open file: the
      parsed path and the directories walked through are lost, and the open file is `fd`'s; without a file the path is
      given back. */
  method FileOpen(h: Heap, o: Opening, ghost base: Runs, ghost trail: seq<Allocation>, ghost procs: set<Owner>)
    returns (ok: bool, fd: seq<u32>, ghost lost: seq<Allocation>)
    requires Loading(h, base, trail, procs) && AllOk(h, procs)
    modifies h, h.table, h.memory
    ensures ok <==> o.found && AllFit(old(h.table[..]), PathLoss(o) + OPEN_FILE)
    ensures ok ==> Sizes(lost) == PathLoss(o) && |fd| == |OPEN_FILE|
    ensures ok ==> Loading(h, base, trail + lost + Allocs(fd, OPEN_FILE), procs)
    ensures ok ==>
      && h.table[..] == TakeAll(old(h.table[..]), PathLoss(o) + OPEN_FILE)
      && BlocksOf(h, fd) == Places(old(h.table[..]), PathLoss(o) + OPEN_FILE)[|PathLoss(o)|..]
    ensures !ok ==> Sizes(lost) == OpenLoss(old(h.table[..]), o) && Loading(h, base, trail + lost, procs)
    ensures !ok && o.lookup == [] ==> h.table[..] == old(h.table[..])
    ensures RowsKept(h, base) && forall q :: q in procs ==> OwnerKept(h, q)
  {
    hide Loading, PathSizes, ProcessOk, FlatOf, TakeAll, AllFit, Places, BlocksOf;
    ghost var t, live := h.table[..], h.live;
    LoadingTable(h, base, trail, procs);
    TakeJoins(t, PathLoss(o), OPEN_FILE);
    fd, lost := [], [];
    var sizes := PathSizes(o.parts) + o.lookup;
    var path;
    ok, path := KzallocAll(h, sizes, base, trail, procs);
    if !ok {
      assert trail + lost == trail;
      SameTrailSameTable(h, t, base, live, trail, procs);
      return;
    }
    lost := Allocs(path, sizes);
    assert Sizes(lost) == sizes;
    ok := false;
    if o.found {
      ok, fd := KzallocAll(h, OPEN_FILE, base, trail + lost, procs);
    }
    if !ok {
      ghost var n := |PathSizes(o.parts)|;
      assert trail + lost == trail + lost[..n] + lost[n..];
      KfreeAll(h, path[..|PathSizes(o.parts)|], base, trail, lost[..n], lost[n..], procs);
      lost := lost[n..];
      assert Sizes(lost) == o.lookup;
      if o.lookup == [] {
        assert trail + lost == trail;
        SameTrailSameTable(h, t, base, live, trail, procs);
      }
    }
  }

  /** `fclose`. */
  method FileClose(
    h: Heap, fd: seq<u32>, ghost base: Runs, ghost front: seq<Allocation>, ghost rest: seq<Allocation>,
    ghost procs: set<Owner>)
    requires |fd| == |OPEN_FILE| && Loading(h, base, front + Allocs(fd, OPEN_FILE) + rest, procs) && AllOk(h, procs)
    modifies h, h.table
    ensures Loading(h, base, front + rest, procs)
    ensures h.table[..] == FreedAll(old(h.table[..]), BlocksOf(h, fd))
    ensures forall q :: q in procs ==> OwnerKept(h, q)
  {
    hide Loading, ProcessOk, BlocksOf, FreedAll;
    KfreeAll(h, fd, base, front, Allocs(fd, OPEN_FILE), rest, procs);
  }
}
