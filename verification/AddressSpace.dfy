/**
  Building and tearing down an address space (arch/x86/kernel/paging.c): a
  directory, 1024 tables and the chunk that names the directory, one heap
  block each.
 */
module AddressSpace {
  import opened Machine
  import opened HeapTable
  import opened KernelHeap
  import opened Paging

  /** Every page mapped to itself. */
  function IdentityMap(flag: u32): Flat {
    seq(PAGES, p requires 0 <= p < PAGES => Or32(p * 4096, flag))
  }

  /** Under an identity map every address translates to itself; NULL does too, so a NULL link stays NULL. */
  lemma IdentityTranslates(flag: u32, va: u32)
    requires flag < PAGE_SIZE
    ensures Translate(IdentityMap(flag), va) == va && IdentityMap(flag)[va / 4096] % PAGE_SIZE == flag
  {
    hide Or32, Frame;
    var page := va / 4096;
    OrFlags(page * 4096, flag);
    assert IdentityMap(flag)[page] == page * 4096 + flag && (page * 4096 + flag) % 4096 == flag;
  }

  /** Each listed block a live run of length one. */
  ghost function SingleRuns(blocks: seq<nat>): Runs {
    map b | b in blocks :: 1
  }

  ghost function BlockSet(blocks: seq<nat>): set<nat> {
    set b | b in blocks
  }

  lemma SingleRunsAppend(blocks: seq<nat>, b: nat)
    ensures SingleRuns(blocks + [b]) == SingleRuns(blocks)[b := 1]
    ensures BlockSet(blocks + [b]) == BlockSet(blocks) + {b}
  {
    assert forall k :: k in blocks + [b] <==> k in blocks || k == b;
    assert forall k :: k in SingleRuns(blocks + [b]) <==> k in SingleRuns(blocks)[b := 1];
  }

  lemma HeadRun(blocks: seq<nat>)
    requires blocks != []
    ensures blocks[0] in BlockSet(blocks) && blocks[0] in SingleRuns(blocks) && SingleRuns(blocks)[blocks[0]] == 1
  {
  }

  ghost predicate Distinct(blocks: seq<nat>) {
    forall i, j :: 0 <= i < j < |blocks| ==> blocks[i] != blocks[j]
  }

  twostate predicate OnlyBlocksChange(h: Heap, blocks: set<nat>)
    reads h.memory
  {
    forall i, j :: 0 <= i < h.memory.Length0 && 0 <= j < h.memory.Length1 && i !in blocks ==>
      h.memory[i, j] == old(h.memory[i, j])
  }

  lemma OneBlock(size: u32)
    requires 0 < size <= PAGE_SIZE
    ensures BlocksFor(size) == 1
  {
  }

  /** A `kzalloc` of at most a page, while the heap has a free block. */
  method TakeBlock(h: Heap, size: u32) returns (ptr: u32)
    requires h.Valid() && 0 < size <= PAGE_SIZE && |FreeBlocks(h.table[..])| > 0
    modifies h, h.table, h.memory
    ensures h.Valid() && |FreeBlocks(h.table[..])| == old(|FreeBlocks(h.table[..])|) - 1
    ensures var b := h.AddressBlock(ptr);
      && b < h.table.Length && ptr == h.BlockAddress(b) && b !in old(h.live)
      && h.live == old(h.live)[b := 1]
    ensures h.table[..] == Take(old(h.table[..]), size)
    ensures OnlyBlocksChange(h, {h.AddressBlock(ptr)})
  {
    hide Encodes, BlocksFor, AlignUp, Wrap, FirstFitFrom;
    ghost var t := h.table[..];
    ghost var free: nat :| free in FreeBlocks(t);
    assert Fits(t, free, 1);
    OneBlock(size);
    ptr := h.Zalloc(size);
    assert ptr != NULL;
    ghost var b := h.AddressBlock(ptr);
    FirstFitMeaning(t, 1, 0);
    RunTaken(t, FirstFit(t, 1), 1);
    h.BlockAddressRoundTrip(FirstFit(t, 1));
    assert FirstFit(t, 1) in h.live;
  }

  /** The inner loop of `paging_new_4gb_chunk`: one table of consecutive frames. */
  method FillTable(h: Heap, b: nat, offset: u32, flag: u32)
    requires h.Region() && b < h.table.Length
    modifies h.memory
    ensures forall j :: 0 <= j < 1024 ==> h.memory[b, j] == Or32(Wrap(offset + j * 4096), flag)
    ensures OnlyBlocksChange(h, {b})
  {
    var j := 0;
    while j < 1024
      invariant 0 <= j <= 1024
      invariant forall k :: 0 <= k < j ==> h.memory[b, k] == Or32(Wrap(offset + k * 4096), flag)
      invariant OnlyBlocksChange(h, {b})
    {
      h.memory[b, j] := Or32(Wrap(offset + j * 4096), flag);
      j := j + 1;
    }
  }

  /** What `| flag | PAGING_IS_WRITEABLE` puts below the address of a table. */
  function DirBits(flag: u32): u32
    requires flag < 256
  {
    if flag % 4 >= 2 then flag else flag + 2
  }

  lemma DirectoryWord(entry: u32, flag: u32)
    requires entry % PAGE_SIZE == 0 && flag < 256
    ensures var word := Or32(Or32(entry, flag), WRITEABLE); Frame(word) == entry && LowBits(word) == DirBits(flag)
  {
    hide Or32, Frame;
    OrFlags(entry, flag);
    OrFlags(entry + flag, WRITEABLE);
    OrTwo(entry + flag);
    LowThree(entry + flag, entry / 4096, flag);
  }

  /** Directory words with these bits let everything pass that the flags let pass, and are always writable. */
  lemma DirBitsAllow(flag: u32, write: bool, user: bool)
    requires flag < 256
    ensures Allows(DirBits(flag), write, user) <==> IsPresent(flag) && (user ==> IsUser(flag))
    ensures IsWriteable(DirBits(flag)) && (IsPresent(DirBits(flag)) <==> IsPresent(flag))
    ensures IsUser(DirBits(flag)) <==> IsUser(flag)
  {
    var q, low := flag / 8, flag % 8;
    Eighth(q, low);
    if flag % 4 < 2 {
      assert low == 0 || low == 1 || low == 4 || low == 5;
      assert flag + 2 == 8 * q + (low + 2);
      Eighth(q, low + 2);
    }
  }

  /** Through this directory the processor reaches every address, at itself, by exactly the accesses that the flags let
      pass. */
  ghost predicate IdentityReach(h: Heap, directory: u32, flag: u32)
    reads h.memory
  {
    forall va: u32, write: bool, user: bool, phys: int ::
      MmuReaches(h, directory, va, write, user, phys) <==> Allows(flag, write, user) && phys == va
  }

  /** The directory and the first |blocks| - 1 tables are in place. */
  ghost predicate Built(h: Heap, blocks: seq<nat>, flag: u32)
    reads h, h.table, h.memory
  {
    && h.Valid() && 0 < |blocks| <= 1025 && Distinct(blocks)
    && (forall i :: 0 <= i < |blocks| ==> blocks[i] < h.table.Length && blocks[i] in h.live && h.live[blocks[i]] == 1)
    && (forall i :: 0 <= i < |blocks| - 1 ==> Frame(h.memory[blocks[0], i]) == h.BlockAddress(blocks[1 + i]))
    && flag < 256 && (forall i :: 0 <= i < |blocks| - 1 ==> LowBits(h.memory[blocks[0], i]) == DirBits(flag))
    && (forall k, j :: 1 <= k < |blocks| && 0 <= j < 1024 ==>
      h.memory[blocks[k], j] == Or32(((k - 1) * 1024 + j) * 4096, flag))
  }

  /** One round of the outer loop of `paging_new_4gb_chunk`. */
  method AddTable(h: Heap, directory: u32, i: nat, offset: u32, flag: u32, ghost blocks: seq<nat>)
    returns (ghost blocks': seq<nat>)
    requires Built(h, blocks, flag) && i == |blocks| - 1 < 1024 && offset == i * 1024 * 4096 && flag < 256
    requires directory == h.BlockAddress(blocks[0]) && |FreeBlocks(h.table[..])| > 0
    modifies h, h.table, h.memory
    ensures |blocks'| == |blocks| + 1 && blocks == blocks'[..|blocks|] && blocks'[|blocks|] !in old(h.live)
    ensures Built(h, blocks', flag)
    ensures h.live == old(h.live)[blocks'[|blocks|] := 1]
    ensures h.table[..] == Take(old(h.table[..]), 4 * 1024)
    ensures |FreeBlocks(h.table[..])| == old(|FreeBlocks(h.table[..])|) - 1
    ensures OnlyBlocksChange(h, {blocks[0], blocks'[|blocks|]})
  {
    hide Encodes, FreeBlocks, Or32, BitAnd, Frame, LowBits, DirBits, Take, Heap.BlockAddress, Heap.AddressBlock;
    var entry := TakeBlock(h, 4 * 1024);
    var b := h.AddressBlock(entry);
    blocks' := blocks + [b];
    assert forall k :: 0 <= k < |blocks| ==> blocks[k] != b;
    assert Built(h, blocks, flag);
    FillTable(h, b, offset, flag);
    assert Built(h, blocks, flag);
    h.BlockAddressRoundTrip(blocks[0]);
    h.BlockAddressRoundTrip(b);
    DirectoryWord(entry, flag);
    h.memory[h.AddressBlock(directory), i] := Or32(Or32(entry, flag), WRITEABLE);
    assert Built(h, blocks, flag);
    BuiltExtend(h, blocks, b, flag);
  }

  lemma BuiltExtend(h: Heap, blocks: seq<nat>, b: nat, flag: u32)
    requires Built(h, blocks, flag) && |blocks| <= 1024 && b !in blocks
    requires b < h.table.Length && b in h.live && h.live[b] == 1
    requires Frame(h.memory[blocks[0], |blocks| - 1]) == h.BlockAddress(b)
    requires LowBits(h.memory[blocks[0], |blocks| - 1]) == DirBits(flag)
    requires forall j :: 0 <= j < 1024 ==> h.memory[b, j] == Or32(Wrap((|blocks| - 1) * 1024 * 4096 + j * 4096), flag)
    ensures Built(h, blocks + [b], flag)
  {
    hide Encodes, Or32, Frame, LowBits, DirBits;
  }

  lemma NextOffset(i: nat)
    requires i < 1024
    ensures Wrap(i * 0x40_0000 + 0x40_0000) == if i + 1 < 1024 then (i + 1) * 0x40_0000 else 0
  {
  }

  /** What n tables ask the heap for, and a whole address space: directory, tables and chunk. */
  function TableSizes(n: nat): (sizes: seq<u32>)
    ensures |sizes| == n && forall k :: 0 <= k < n ==> sizes[k] == 4 * 1024
  {
    if n == 0 then [] else TableSizes(n - 1) + [4 * 1024]
  }

  function SpaceSizes(): seq<u32> {
    [4 * 1024] + TableSizes(1024) + [4]
  }

  /** The outer loop of `paging_new_4gb_chunk`. */
  method BuildTables(h: Heap, directory: u32, flag: u32) returns (ghost blocks: seq<nat>)
    requires Built(h, [h.AddressBlock(directory)], flag) && flag < 256 && |FreeBlocks(h.table[..])| >= 1025
    requires directory == h.BlockAddress(h.AddressBlock(directory))
    modifies h, h.table, h.memory
    ensures |blocks| == 1025 && blocks[0] == h.AddressBlock(directory) && Built(h, blocks, flag)
    ensures h.live == old(h.live) + SingleRuns(blocks)
    ensures h.table[..] == TakeAll(old(h.table[..]), TableSizes(1024))
    ensures BlockSet(blocks) - {blocks[0]} !! old(h.live).Keys
    ensures |FreeBlocks(h.table[..])| == old(|FreeBlocks(h.table[..])|) - 1024
    ensures OnlyBlocksChange(h, BlockSet(blocks))
  {
    hide Encodes, FreeBlocks, Or32, SingleRuns, BlockSet, BitAnd, Wrap, Built, Take, TakeAll, AllFit, Places;
    TakeNone(h.table[..]);
    blocks := [h.AddressBlock(directory)];
    RootRun(h, blocks, flag);
    var offset: int, i := 0, 0;
    while i < 1024
      invariant 0 <= i <= 1024 && i == |blocks| - 1 && offset == if i < 1024 then i * 0x40_0000 else 0
      invariant blocks[0] == h.AddressBlock(directory) && directory == h.BlockAddress(blocks[0])
      invariant Built(h, blocks, flag)
      invariant h.live == old(h.live) + SingleRuns(blocks)
      invariant BlockSet(blocks) - {blocks[0]} !! old(h.live).Keys && blocks[0] in BlockSet(blocks)
        && blocks[0] in h.live
      invariant |FreeBlocks(h.table[..])| == old(|FreeBlocks(h.table[..])|) - i
      invariant h.table[..] == TakeAll(old(h.table[..]), TableSizes(i))
      invariant OnlyBlocksChange(h, BlockSet(blocks))
    {
      ghost var before := blocks;
      TakeNext(old(h.table[..]), TableSizes(i), 4 * 1024);
      blocks := AddTable(h, directory, i, offset, flag, blocks);
      assert blocks == before + [blocks[|before|]];
      SingleRunsAppend(before, blocks[|before|]);
      NextOffset(i);
      offset, i := Wrap(offset + 1024 * 4096), i + 1;
    }
  }

  lemma RootRun(h: Heap, blocks: seq<nat>, flag: u32)
    requires |blocks| == 1 && Built(h, blocks, flag)
    ensures h.live == h.live + SingleRuns(blocks) && BlockSet(blocks) == {blocks[0]} && blocks[0] in h.live
  {
  }

  /** A complete directory with a chunk pointing at it is an address space implementing the identity map. */
  lemma BuiltIsSpace(h: Heap, blocks: seq<nat>, c: nat, flag: u32)
    requires Built(h, blocks, flag) && |blocks| == 1025 && c !in blocks
    requires c < h.table.Length && c in h.live && h.live[c] == 1 && h.memory[c, 0] == h.BlockAddress(blocks[0])
    ensures var s := Space(blocks + [c], DirBits(flag)); SpaceIn(h, s) && FlatOf(h, s) == IdentityMap(flag)
  {
    hide Encodes, Or32, BitAnd, LowBits, DirBits;
    var s := Space(blocks + [c], DirBits(flag));
    forall i | 0 <= i < 1024 ensures Frame(h.memory[s.Dir(), i]) == h.BlockAddress(s.Table(i)) {
      assert blocks[1 + i] == s.Table(i);
    }
    forall p | 0 <= p < PAGES ensures FlatOf(h, s)[p] == IdentityMap(flag)[p] {
      assert FlatOf(h, s)[p] == h.memory[blocks[1 + p / 1024], p % 1024];
    }
  }

  /** The last step of `paging_new_4gb_chunk`. */
  method AddChunk(h: Heap, directory: u32, flag: u32, ghost blocks: seq<nat>) returns (chunk: u32, ghost s: Space)
    requires Built(h, blocks, flag) && |blocks| == 1025 && |FreeBlocks(h.table[..])| > 0
    requires directory == h.BlockAddress(blocks[0])
    modifies h, h.table, h.memory
    ensures SpaceIn(h, s) && |s.blocks| == 1026 && chunk == h.BlockAddress(s.Chunk())
      && FlatOf(h, s) == IdentityMap(flag) && s.bits == DirBits(flag)
    ensures s.blocks[..1025] == blocks && s.Chunk() !in old(h.live)
    ensures h.live == old(h.live)[s.Chunk() := 1]
    ensures h.table[..] == Take(old(h.table[..]), 4)
    ensures |FreeBlocks(h.table[..])| == old(|FreeBlocks(h.table[..])|) - 1
    ensures OnlyBlocksChange(h, {s.Chunk()})
  {
    hide Encodes, FreeBlocks, Or32, BitAnd, LowBits, DirBits, SpaceIn, FlatOf, Take;
    chunk := TakeBlock(h, 4);
    ghost var c := h.AddressBlock(chunk);
    assert forall k :: 0 <= k < |blocks| ==> blocks[k] != c;
    h.memory[h.AddressBlock(chunk), 0] := directory;
    s := Space(blocks + [c], DirBits(flag));
    assert Built(h, blocks, flag);
    BuiltIsSpace(h, blocks, c, flag);
  }

  /** One free block each is all that requests of a page or less need. */
  lemma {:induction false} SinglesFit(t: seq<Entry>, sizes: seq<u32>)
    requires forall k :: 0 <= k < |sizes| ==> 0 < sizes[k] <= PAGE_SIZE
    ensures AllFit(t, sizes) <==> |FreeBlocks(t)| >= |sizes|
    ensures AllFit(t, sizes) ==> |FreeBlocks(TakeAll(t, sizes))| == |FreeBlocks(t)| - |sizes|
    decreases |sizes|
  {
    hide BlocksFor, FreeBlocks, FirstFit, Marked, Take, TakeAll, AllFit, NoRoom, Places, Place;
    if sizes == [] {
      TakeNone(t);
    } else {
      var front, last := sizes[..|sizes| - 1], sizes[|sizes| - 1];
      assert sizes == front + [last];
      SinglesFit(t, front);
      TakeNext(t, front, last);
      OneFits(TakeAll(t, front), last);
    }
  }

  lemma OneFits(t: seq<Entry>, size: u32)
    requires 0 < size <= PAGE_SIZE
    ensures NoRoom(t, BlocksFor(size)) <==> |FreeBlocks(t)| == 0
    ensures |FreeBlocks(t)| > 0 ==> |FreeBlocks(Take(t, size))| == |FreeBlocks(t)| - 1
  {
    hide BlocksFor, Marked, FirstFitFrom;
    OneBlock(size);
    FirstFitMeaning(t, 1, 0);
    if free: nat :| free in FreeBlocks(t) {
      assert Fits(t, free, 1);
      RunTaken(t, FirstFit(t, 1), 1);
    } else {
      assert forall b: nat :: Fits(t, b, 1) ==> b in FreeBlocks(t);
    }
  }

  /** An address space fits if and only if 1026 blocks are free. */
  lemma SpaceFits(t: seq<Entry>)
    ensures AllFit(t, SpaceSizes()) <==> |FreeBlocks(t)| >= 1026
  {
    hide FreeBlocks, AllFit, TableSizes;
    SinglesFit(t, SpaceSizes());
  }

  lemma SpaceTaken(t: seq<Entry>)
    ensures TakeAll(t, SpaceSizes()) == Take(TakeAll(Take(t, 4 * 1024), TableSizes(1024)), 4)
  {
    hide Take, TakeAll, AllFit, Places, TableSizes;
    var directory: seq<u32> := [4 * 1024];
    TakeNone(t);
    TakeNext(t, [], 4 * 1024);
    assert [] + directory == directory;
    TakeJoins(t, directory, TableSizes(1024));
    TakeNext(t, directory + TableSizes(1024), 4);
  }

  /** A space that holds the identity map with these flags behind such a directory is reached exactly as they say. */
  lemma NewSpaceReached(h: Heap, s: Space, flag: u32)
    requires SpaceIn(h, s) && flag < 256 && s.bits == DirBits(flag) && FlatOf(h, s) == IdentityMap(flag)
    ensures IdentityReach(h, h.BlockAddress(s.Dir()), flag)
  {
    hide SpaceIn, FlatOf, DirBits, Allows, IdentityMap, MmuReaches, Translate, Heap.BlockAddress;
    TablesFound(h, s, 0);
    forall va: u32, write: bool, user: bool, phys: int
      ensures MmuReaches(h, h.BlockAddress(s.Dir()), va, write, user, phys) <==> Allows(flag, write, user) && phys == va
    {
      MmuWalksFlat(h, s, va, write, user, phys);
      IdentityTranslates(flag, va);
      DirBitsAllow(flag, write, user);
      AllowsLowBits(IdentityMap(flag)[va / 4096], write, user);
      AllowsMeans(flag, write, user);
    }
  }

  lemma AllowsMeans(flag: u32, write: bool, user: bool)
    ensures Allows(flag, write, user) ==> IsPresent(flag) && (user ==> IsUser(flag))
    ensures LowBits(flag) == flag % PAGE_SIZE
  {
  }

  /** `paging_new_4gb_chunk`: with 1026 free blocks it takes exactly 1026 and yields the identity map with the given
      flags on all pages, behind a directory that is always writable, so that the processor reaches every address by
      exactly the accesses the flags let pass. */
  method PagingNew4gbChunk(h: Heap, flag: u32) returns (chunk: u32, ghost s: Space)
    requires h.Valid() && flag < 256 && |FreeBlocks(h.table[..])| >= 1026
    modifies h, h.table, h.memory
    ensures SpaceIn(h, s) && |s.blocks| == 1026 && chunk == h.BlockAddress(s.Chunk())
    ensures FlatOf(h, s) == IdentityMap(flag) && IdentityReach(h, h.BlockAddress(s.Dir()), flag)
    ensures IsWriteable(s.bits) && (IsPresent(s.bits) <==> IsPresent(flag)) && (IsUser(s.bits) <==> IsUser(flag))
    ensures h.live == old(h.live) + SingleRuns(s.blocks)
    ensures h.table[..] == TakeAll(old(h.table[..]), SpaceSizes())
    ensures BlockSet(s.blocks) !! old(h.live).Keys
    ensures |FreeBlocks(h.table[..])| == old(|FreeBlocks(h.table[..])|) - 1026
    ensures OnlyBlocksChange(h, BlockSet(s.blocks))
  {
    hide Encodes, FreeBlocks, Or32, SpaceIn, FlatOf, SingleRuns, BlockSet, BitAnd, Take, TakeAll, TableSizes, DirBits,
      IdentityReach, IdentityMap, IsPresent, IsUser, IsWriteable;
    SpaceTaken(h.table[..]);
    var directory := TakeBlock(h, 4 * 1024);
    ghost var root := h.AddressBlock(directory);
    SingleRunsAppend([], root);
    assert [] + [root] == [root];
    NoRuns();
    ghost var one := h.live;
    ghost var blocks := BuildTables(h, directory, flag);
    ghost var two := h.live;
    chunk, s := AddChunk(h, directory, flag, blocks);
    assert s.blocks == blocks + [s.Chunk()];
    HeadRun(blocks);
    SingleRunsAppend(blocks, s.Chunk());
    SpaceRuns(old(h.live), one, two, h.live, blocks, s.Chunk());
    NewSpaceReached(h, s, flag);
    DirBitsAllow(flag, true, true);
  }

  /** The runs taken one after the other are the runs of the space. */
  lemma SpaceRuns(live: Runs, one: Runs, two: Runs, three: Runs, blocks: seq<nat>, c: nat)
    requires blocks != [] && blocks[0] !in live && one == live[blocks[0] := 1] && two == one + SingleRuns(blocks)
    requires BlockSet(blocks) - {blocks[0]} !! one.Keys && c !in two && three == two[c := 1]
    ensures three == live + SingleRuns(blocks + [c]) && BlockSet(blocks + [c]) !! live.Keys
  {
    HeadRun(blocks);
    SingleRunsAppend(blocks, c);
    assert two == live + SingleRuns(blocks);
    assert forall b :: b in BlockSet(blocks) ==> b == blocks[0] || b !in one;
    assert BlockSet(blocks) !! live.Keys && c !in live;
  }

  lemma NoRuns()
    ensures SingleRuns([]) == map[] && BlockSet([]) == {}
  {
  }

  /** The words of the space still link chunk to directory to tables, whatever has become of its blocks. */
  ghost predicate Linked(h: Heap, s: Space)
    reads h.memory
  {
    && h.Region() && s.Shape() && (forall i :: 0 <= i < 1026 ==> s.blocks[i] < h.table.Length)
    && h.memory[s.Chunk(), 0] == h.BlockAddress(s.Dir())
    && forall i :: 0 <= i < 1024 ==> Frame(h.memory[s.Dir(), i]) == h.BlockAddress(s.Table(i))
  }

  /** The order in which the blocks of a space are freed. */
  ghost function TearOrder(s: Space): (order: seq<nat>)
    requires |s.blocks| == 1026
    ensures forall b :: b in order <==> b in s.blocks
  {
    assert s.blocks == [s.blocks[0]] + s.blocks[1..1025] + [s.blocks[1025]];
    s.blocks[1..1025] + [s.Dir(), s.Chunk()]
  }

  /** The statements of `paging_free_4gb`: the blocks it frees are found by masking the flag bits off the directory
      words, even if some of them are free already. */
  method FreeTables(h: Heap, chunk: u32, ghost s: Space)
    requires Linked(h, s) && chunk == h.BlockAddress(s.Chunk())
    modifies h, h.table
    ensures h.table[..] == FreedAll(old(h.table[..]), TearOrder(s))
  {
    hide Freed, BitAnd, Frame, Heap.BlockAddress, Heap.AddressBlock, FreedAll;
    h.BlockAddressRoundTrip(s.Chunk());
    h.BlockAddressRoundTrip(s.Dir());
    ghost var t := h.table[..];
    NothingFreed(t);
    assert s.blocks[1..1] == [];
    var i := 0;
    while i < 1024
      invariant 0 <= i <= 1024
      invariant h.table[..] == FreedAll(t, s.blocks[1..1 + i])
    {
      var entry := h.memory[h.AddressBlock(h.memory[h.AddressBlock(chunk), 0]), i];
      h.BlockAddressRoundTrip(s.Table(i));
      FreedAllStep(t, s.blocks[1..1 + i], s.Table(i));
      assert s.blocks[1..2 + i] == s.blocks[1..1 + i] + [s.Table(i)];
      h.Free(Frame(entry));
      i := i + 1;
    }
    ghost var tables := s.blocks[1..1025];
    FreedAllStep(t, tables, s.Dir());
    h.Free(h.memory[h.AddressBlock(chunk), 0]);
    FreedAllStep(t, tables + [s.Dir()], s.Chunk());
    h.Free(chunk);
    assert tables + [s.Dir()] + [s.Chunk()] == TearOrder(s);
  }

  /** `paging_free_4gb` of a space that is in place: releases exactly its blocks. */
  method PagingFree4gb(h: Heap, chunk: u32, ghost s: Space)
    requires SpaceIn(h, s) && chunk == h.BlockAddress(s.Chunk())
    modifies h, h.table
    ensures h.Valid() && h.live == old(h.live) - BlockSet(s.blocks)
  {
    hide Encodes, Frame, FreedAll, Heap.BlockAddress;
    ghost var t, runs, own := h.table[..], h.live, BlockSet(s.blocks);
    FreeTables(h, chunk, s);
    forall k | 0 <= k < |TearOrder(s)| ensures HeapTable.Harmless(t, runs, own, TearOrder(s)[k]) {
      assert TearOrder(s)[k] in s.blocks && Covers(runs, TearOrder(s)[k], TearOrder(s)[k]);
    }
    FreedAllExact(t, runs, own, TearOrder(s));
    h.live := runs - own;
  }

  /** Build, set any entries at all, tear down: the block table is restored byte for byte. */
  method LifeCycle(h: Heap, flag: u32, sets: seq<(u32, u32)>)
    requires h.Valid() && flag < 256 && |FreeBlocks(h.table[..])| >= 1026
    modifies h, h.table, h.memory
    ensures h.Valid() && h.live == old(h.live) && h.table[..] == old(h.table[..])
  {
    hide SpaceIn;
    var chunk, s := PagingNew4gbChunk(h, flag);
    ghost var runs := h.live;
    var i := 0;
    while i < |sets|
      invariant 0 <= i <= |sets| && SpaceIn(h, s) && h.live == runs && chunk == h.BlockAddress(s.Chunk())
    {
      var directory := ChunkDirectory(h, chunk, s);
      var res := PagingSet(h, directory, sets[i].0, sets[i].1, s);
      i := i + 1;
    }
    PagingFree4gb(h, chunk, s);
    assert h.live == old(h.live);
    EncodingUnique(h.table[..], old(h.table[..]), h.live);
  }

  /** `paging_4gb_chunk_get_directory`. */
  method ChunkDirectory(h: Heap, chunk: u32, ghost s: Space) returns (directory: u32)
    requires SpaceIn(h, s) && chunk == h.BlockAddress(s.Chunk())
    ensures directory == h.BlockAddress(s.Dir())
  {
    h.BlockAddressRoundTrip(s.Chunk());
    directory := h.memory[h.AddressBlock(chunk), 0];
  }
}
