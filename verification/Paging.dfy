/**
  arch/x86/kernel/paging.c: two-level 32-bit page tables (Intel SDM volume 3A,
  section 4.3) built inside heap blocks, and the flat map from page numbers to
  page-table entries that they implement.
 */
module Paging {
  import opened Machine
  import opened HeapTable
  import opened KernelHeap

  const PRESENT: u32 := 1
  const WRITEABLE: u32 := 2
  const ACCESS_FROM_ALL: u32 := 4

  const PAGES: int := 0x10_0000

  // ----- the flat view

  /** Entry p of a flat map is the page-table entry that governs addresses p * 4096 up to (p + 1) * 4096. */
  type Flat = seq<u32>

  /** The address that virtual address va reaches through a flat map. */
  function Translate(pages: Flat, va: u32): u32
    requires |pages| == PAGES
  {
    Frame(pages[va / 4096]) + va % 4096
  }

  /** Bits 0, 1 and 2 of a directory or table word. */
  predicate IsPresent(word: u32) {
    word % 2 == 1
  }

  predicate IsWriteable(word: u32) {
    word % 4 >= 2
  }

  predicate IsUser(word: u32) {
    word % 8 >= 4
  }

  /** The word lets an access pass: to write, or from a user program, it needs the bit for that as well. */
  predicate Allows(word: u32, write: bool, user: bool) {
    IsPresent(word) && (write ==> IsWriteable(word)) && (user ==> IsUser(word))
  }

  /** The bits of a word below its frame. */
  function LowBits(word: u32): (r: u32)
    ensures r < PAGE_SIZE
  {
    word % 4096
  }

  lemma AllowsLowBits(word: u32, write: bool, user: bool)
    ensures Allows(LowBits(word), write, user) <==> Allows(word, write, user)
  {
    LowThree(word, word / 4096, word % 4096);
  }

  lemma LowThree(word: nat, frame: nat, low: nat)
    requires word == frame * 4096 + low
    ensures word % 2 == low % 2 && word % 4 == low % 4 && word % 8 == low % 8
  {
    var q, r := low / 8, low % 8;
    assert low == 8 * q + r && word == 8 * (512 * frame + q) + r;
    Eighth(q, r);
    Eighth(512 * frame + q, r);
  }

  lemma Eighth(m: nat, r: nat)
    requires r < 8
    ensures (8 * m + r) % 8 == r && (8 * m + r) % 4 == r % 4 && (8 * m + r) % 2 == r % 2
  {
    var x, half, pair := 8 * m + r, r / 2, r / 4;
    Fourth(x, 2 * m + pair, r - 4 * pair);
    Half(x, 4 * m + half, r - 2 * half);
  }

  lemma Fourth(x: nat, q: nat, r: nat)
    requires x == 4 * q + r && r < 4
    ensures x % 4 == r
  {
  }

  lemma Half(x: nat, q: nat, r: nat)
    requires x == 2 * q + r && r < 2
    ensures x % 2 == r
  {
  }

  /** An access of a program to va passes this flat map and reaches phys. */
  predicate GoesTo(pages: Flat, va: u32, write: bool, phys: int)
    requires |pages| == PAGES
  {
    Allows(pages[va / 4096], write, true) && phys == Translate(pages, va)
  }

  /** The walk of the processor from the directory that its register CR3 names (section 4.3 of the manual): the access
      passes both levels, and reaches this physical address. */
  ghost predicate MmuReaches(h: Heap, cr3: u32, va: u32, write: bool, user: bool, phys: int)
    reads h.memory
  {
    var directory := h.AddressBlock(cr3);
    && directory < h.memory.Length0 && h.memory.Length1 == 1024
    && var word := h.memory[directory, va / 0x40_0000];
      var table := h.AddressBlock(Frame(word));
      && Allows(word, write, user) && table < h.memory.Length0
      && var entry := h.memory[table, va / 4096 % 1024];
        Allows(entry, write, user) && phys == Frame(entry) + va % 4096
  }

  function MappedEntry(pages: Flat, v: nat, phys: u32, k: nat, flags: u32, p: nat): u32
    requires p < |pages|
  {
    if v <= p < v + k then Or32(Wrap(phys + (p - v) * 4096), flags) else pages[p]
  }

  /** Map k pages from page v on to consecutive frames from phys. */
  function MapPages(pages: Flat, v: nat, phys: u32, k: nat, flags: u32): Flat {
    seq(|pages|, p requires 0 <= p < |pages| => MappedEntry(pages, v, phys, k, flags, p))
  }

  lemma MapPagesExtend(pages: Flat, v: nat, phys: u32, k: nat, flags: u32)
    requires v + k < |pages|
    ensures MapPages(pages, v, phys, k + 1, flags)
      == MapPages(pages, v, phys, k, flags)[v + k := Or32(Wrap(phys + k * 4096), flags)]
  {
  }

  lemma MapPagesNone(pages: Flat, v: nat, phys: u32, flags: u32)
    ensures MapPages(pages, v, phys, 0, flags) == pages
  {
  }

  /** Stepping a pointer page by page: it stays a page base, names the next page, and wraps to 0 past the last page. */
  lemma PageStep(base: u32, i: nat)
    requires base % PAGE_SIZE == 0
    ensures var v := Wrap(base + i * 4096);
      && v % 4096 == 0 && Wrap(v + 4096) == Wrap(base + (i + 1) * 4096)
      && (base / 4096 + i < PAGES ==> v == base + i * 4096 && v / 4096 == base / 4096 + i)
      && (base / 4096 + i == PAGES ==> v == 0)
  {
  }

  /** How many pages of a range get mapped before the walk meets address 0, where it stops with an error. */
  function PagesBeforeNull(virt: u32, count: int): (k: nat)
    requires virt % PAGE_SIZE == 0
    ensures k <= PAGES - virt / 4096
  {
    if count <= 0 || virt == 0 then 0
    else if count <= PAGES - virt / 4096 then count
    else PAGES - virt / 4096
  }

  /** When `paging_map_to` reports success: aligned addresses, an ordered physical range, and a virtual range that
      neither starts at page 0 nor wraps past 2^32. */
  predicate MapToSucceeds(virt: u32, phys: u32, physEnd: u32) {
    && virt % PAGE_SIZE == 0 && phys % PAGE_SIZE == 0 && physEnd % PAGE_SIZE == 0 && phys <= physEnd
    && (phys < physEnd ==> virt != 0 && virt + (physEnd - phys) <= TWO32)
  }

  /** The flat map that `paging_map_to` leaves behind, whether or not it succeeds. */
  function MapToPages(pages: Flat, virt: u32, phys: u32, physEnd: u32, flags: u32): Flat {
    if virt % PAGE_SIZE == 0 && phys % PAGE_SIZE == 0 && physEnd % PAGE_SIZE == 0 && phys <= physEnd
    then MapPages(pages, virt / 4096, phys, PagesBeforeNull(virt, (physEnd - phys) / 4096), flags)
    else pages
  }

  lemma MapToLength(pages: Flat, virt: u32, phys: u32, physEnd: u32, flags: u32)
    ensures |MapToPages(pages, virt, phys, physEnd, flags)| == |pages|
  {
  }

  /** After a successful map an address of the virtual range translates to phys plus its offset exactly when the high
      bits of the flags, if any, are already set in that frame's number; flags below the page size have none. Its
      entry carries the flags, and every other address translates as before. */
  lemma MapToTranslates(pages: Flat, virt: u32, phys: u32, physEnd: u32, flags: u32, va: u32)
    requires |pages| == PAGES && MapToSucceeds(virt, phys, physEnd)
    ensures var pages' := MapToPages(pages, virt, phys, physEnd, flags);
      if virt <= va < virt + (physEnd - phys)
      then (Translate(pages', va) == phys + (va - virt) <==> KeepsFrame(phys + (va - virt), flags))
        && (flags < PAGE_SIZE ==> KeepsFrame(phys + (va - virt), flags))
        && pages'[va / 4096] % PAGE_SIZE == flags % PAGE_SIZE
      else pages'[va / 4096] == pages[va / 4096] && Translate(pages', va) == Translate(pages, va)
  {
    hide Frame, Or32, MapToPages, MapToSucceeds;
    MappedWhere(pages, virt, phys, physEnd, flags, va);
    if virt <= va < virt + (physEnd - phys) {
      OrKeepsFrame(phys + (va - virt) - va % 4096, flags);
    }
  }

  /** Which entry governs an address after a successful map. */
  lemma MappedWhere(pages: Flat, virt: u32, phys: u32, physEnd: u32, flags: u32, va: u32)
    requires |pages| == PAGES && MapToSucceeds(virt, phys, physEnd)
    ensures |MapToPages(pages, virt, phys, physEnd, flags)| == PAGES
    ensures var entry := MapToPages(pages, virt, phys, physEnd, flags)[va / 4096];
      if virt <= va < virt + (physEnd - phys)
      then
        var to := phys + (va - virt);
        && to < TWO32 && 0 <= to - va % 4096 && (to - va % 4096) % 4096 == 0 && to / 4096 == (to - va % 4096) / 4096
        && entry == Or32(to - va % 4096, flags)
      else entry == pages[va / 4096]
  {
    hide Frame, Or32;
    var n, first, p := (physEnd - phys) / 4096, virt / 4096, va / 4096;
    assert physEnd - phys == n * 4096 && virt == first * 4096;
    assert virt <= va < virt + n * 4096 <==> first <= p < first + n;
    if first <= p < first + n {
      var base := phys + (p - first) * 4096;
      assert base < physEnd && base % 4096 == 0 && Wrap(base) == base;
      assert phys + (va - virt) == base + va % 4096;
      SamePage(base, va % 4096);
    }
  }

  lemma SamePage(base: nat, offset: nat)
    requires base % 4096 == 0 && offset < 4096
    ensures (base + offset) / 4096 == base / 4096
  {
  }

  // ----- the tables in memory

  /** The 1026 heap blocks of one address space, in the order they are taken: the directory, its 1024 tables, and the
      chunk that points at the directory; and the bits that every directory word has below the address of its table. */
  datatype Space = Space(blocks: seq<nat>, bits: u32) {
    ghost predicate Shape() {
      |blocks| == 1026 && forall i, j :: 0 <= i < j < |blocks| ==> blocks[i] != blocks[j]
    }

    function Dir(): nat
      requires |blocks| == 1026
    {
      blocks[0]
    }

    function Table(i: nat): nat
      requires |blocks| == 1026 && i < 1024
    {
      blocks[1 + i]
    }

    function Chunk(): nat
      requires |blocks| == 1026
    {
      blocks[1025]
    }
  }

  /** The blocks belong to this space, each a live run of its own, and the words in them link chunk to directory to
      tables. */
  ghost predicate SpaceIn(h: Heap, s: Space)
    reads h, h.table, h.memory
  {
    && h.Valid() && s.Shape()
    && (forall i :: 0 <= i < 1026 ==> s.blocks[i] < h.table.Length && s.blocks[i] in h.live && h.live[s.blocks[i]] == 1)
    && h.memory[s.Chunk(), 0] == h.BlockAddress(s.Dir())
    && (forall i :: 0 <= i < 1024 ==> Frame(h.memory[s.Dir(), i]) == h.BlockAddress(s.Table(i)))
    && forall i :: 0 <= i < 1024 ==> LowBits(h.memory[s.Dir(), i]) == s.bits
  }

  /** The flat map a space implements. */
  ghost function FlatOf(h: Heap, s: Space): (pages: Flat)
    requires SpaceIn(h, s)
    reads h, h.table, h.memory
    ensures |pages| == PAGES
    ensures forall i, j :: 0 <= i < 1024 && 0 <= j < 1024 ==> pages[i * 1024 + j] == h.memory[s.Table(i), j]
  {
    hide Encodes, Frame, LowBits, Heap.BlockAddress, Heap.AddressBlock;
    seq(PAGES, p requires 0 <= p < PAGES && SpaceIn(h, s)
      reads h, h.table, h.memory => h.memory[s.Table(p / 1024), p % 1024])
  }

  ghost predicate IsTable(s: Space, b: nat) {
    |s.blocks| == 1026 && exists i :: 0 <= i < 1024 && s.Table(i) == b
  }

  twostate predicate OnlyTablesChange(h: Heap, s: Space)
    reads h.memory
  {
    forall i, j :: 0 <= i < h.memory.Length0 && 0 <= j < h.memory.Length1 && !IsTable(s, i) ==>
      h.memory[i, j] == old(h.memory[i, j])
  }

  // ----- the operations

  /** `paging_get_indexes`. */
  function Indexes(virt: u32): (i32, nat, nat) {
    if virt == NULL || virt % PAGE_SIZE != 0 then (EINVAGS, 0, 0)
    else (OK, virt / (4096 * 1024), virt % (4096 * 1024) / 4096)
  }

  lemma IndexesSplitPage(virt: u32)
    requires virt % PAGE_SIZE == 0 && virt != 0
    ensures var (r, di, ti) := Indexes(virt);
      r == OK && di < 1024 && ti < 1024 && di * 1024 + ti == virt / 4096
  {
  }

  /** The directory address and each masked directory word lead back to their blocks. */
  lemma TablesFound(h: Heap, s: Space, i: nat)
    requires SpaceIn(h, s) && i < 1024
    ensures h.Region() && s.Shape() && s.Dir() < h.table.Length && s.Table(i) < h.table.Length
      && s.Chunk() < h.table.Length
    ensures h.AddressBlock(h.BlockAddress(s.Dir())) == s.Dir() && h.AddressBlock(h.BlockAddress(s.Chunk())) == s.Chunk()
    ensures h.AddressBlock(Frame(h.memory[s.Dir(), i])) == s.Table(i)
    ensures h.memory[s.Chunk(), 0] == h.BlockAddress(s.Dir()) != NULL
  {
    hide Encodes, Frame, LowBits;
    h.BlockAddressRoundTrip(s.Dir());
    h.BlockAddressRoundTrip(s.Chunk());
    h.BlockAddressRoundTrip(s.Table(i));
  }

  /** What the processor reaches in a space: the access passes the directory's bits and the flat entry, and the address
      is the flat translation. */
  lemma MmuWalksFlat(h: Heap, s: Space, va: u32, write: bool, user: bool, phys: int)
    requires SpaceIn(h, s)
    ensures MmuReaches(h, h.BlockAddress(s.Dir()), va, write, user, phys) <==>
      Allows(s.bits, write, user) && Allows(FlatOf(h, s)[va / 4096], write, user) && phys == Translate(FlatOf(h, s), va)
  {
    hide Encodes, Frame, Allows, LowBits, Heap.AddressBlock, Heap.BlockAddress;
    var di, ti := va / 0x40_0000, va / 4096 % 1024;
    SplitAddress(va);
    TablesFound(h, s, di);
    AllowsLowBits(h.memory[s.Dir(), di], write, user);
    assert FlatOf(h, s)[di * 1024 + ti] == h.memory[s.Table(di), ti];
  }

  lemma SplitAddress(va: u32)
    ensures va / 0x40_0000 < 1024 && va / 4096 == va / 0x40_0000 * 1024 + va / 4096 % 1024
  {
    var p := va / 4096;
    assert va / 0x40_0000 == p / 1024;
  }

  /** A page number is a table number and a place in that table. */
  lemma SplitIndex(p: nat, di: nat, ti: nat)
    requires ti < 1024
    ensures p == di * 1024 + ti <==> p / 1024 == di && p % 1024 == ti
  {
  }

  lemma FlatAt(h: Heap, s: Space, p: nat)
    requires SpaceIn(h, s) && p < PAGES
    ensures p / 1024 < 1024 && p / 1024 * 1024 + p % 1024 == p
    ensures FlatOf(h, s)[p] == h.memory[s.Table(p / 1024), p % 1024]
  {
    hide Encodes, Frame, LowBits, Heap.BlockAddress, Heap.AddressBlock;
  }

  /** One word of one table is one page of the flat map. */
  lemma FlatSet(h: Heap, s: Space, before: Flat, di: nat, ti: nat, val: u32)
    requires SpaceIn(h, s) && |before| == PAGES && di < 1024 && ti < 1024
    requires forall i, j :: 0 <= i < 1024 && 0 <= j < 1024 ==>
      h.memory[s.Table(i), j] == if i == di && j == ti then val else before[i * 1024 + j]
    ensures FlatOf(h, s) == before[di * 1024 + ti := val]
  {
    hide SpaceIn, FlatOf;
    forall p | 0 <= p < PAGES ensures FlatOf(h, s)[p] == before[di * 1024 + ti := val][p] {
      FlatAt(h, s, p);
      SplitIndex(p, di, ti);
    }
  }

  /** The store `table[table_index] = val`: it changes one entry of the flat map and keeps the space intact, because
      no table block is also the directory or the chunk. */
  method StoreEntry(h: Heap, table: u32, di: nat, ti: nat, val: u32, ghost s: Space)
    requires SpaceIn(h, s) && di < 1024 && ti < 1024 && h.AddressBlock(table) == s.Table(di)
    modifies h.memory
    ensures SpaceIn(h, s) && FlatOf(h, s) == old(FlatOf(h, s))[di * 1024 + ti := val]
    ensures OnlyTablesChange(h, s)
  {
    hide Encodes, Frame, LowBits, FlatOf, Heap.BlockAddress, Heap.AddressBlock;
    ghost var before := FlatOf(h, s);
    assert s.Table(di) != s.Dir() && s.Table(di) != s.Chunk() && IsTable(s, s.Table(di));
    assert forall i, j :: 0 <= i < 1024 && 0 <= j < 1024 ==> before[i * 1024 + j] == h.memory[s.Table(i), j];
    h.memory[h.AddressBlock(table), ti] := val;
    assert forall i :: 0 <= i < 1024 ==> h.memory[s.Dir(), i] == old(h.memory[s.Dir(), i]);
    FlatSet(h, s, before, di, ti, val);
  }

  /** `paging_set`: one entry of one table, found through the directory word with its flag bits masked off. */
  method PagingSet(h: Heap, directory: u32, virt: u32, val: u32, ghost s: Space) returns (res: i32)
    requires SpaceIn(h, s) && (directory == NULL || directory == h.BlockAddress(s.Dir()))
    modifies h.memory
    ensures SpaceIn(h, s)
    ensures res == if directory != NULL && virt % PAGE_SIZE == 0 && virt != NULL then OK else EINVAGS
    ensures FlatOf(h, s) == if res == OK then old(FlatOf(h, s))[virt / 4096 := val] else old(FlatOf(h, s))
    ensures OnlyTablesChange(h, s)
  {
    hide SpaceIn, FlatOf, Heap.AddressBlock, Frame;
    if directory == NULL || virt % PAGE_SIZE != 0 {
      return EINVAGS;
    }
    var ix := Indexes(virt);
    if ix.0 != OK {
      return ix.0;
    }
    var di, ti := ix.1, ix.2;
    IndexesSplitPage(virt);
    TablesFound(h, s, di);
    var entry := h.memory[h.AddressBlock(directory), di];
    var table := Frame(entry);
    StoreEntry(h, table, di, ti, val, s);
    res := OK;
  }

  /** `paging_map`. */
  method PagingMap(h: Heap, chunk: u32, virt: u32, phys: u32, flags: u32, ghost s: Space) returns (res: i32)
    requires SpaceIn(h, s) && chunk == h.BlockAddress(s.Chunk())
    modifies h.memory
    ensures SpaceIn(h, s)
    ensures res == if virt % PAGE_SIZE == 0 && phys % PAGE_SIZE == 0 && virt != NULL then OK else EINVAGS
    ensures FlatOf(h, s) == if res == OK then old(FlatOf(h, s))[virt / 4096 := Or32(phys, flags)] else old(FlatOf(h, s))
    ensures OnlyTablesChange(h, s)
  {
    hide SpaceIn, FlatOf, Or32, Frame, IsTable, Heap.AddressBlock, Heap.BlockAddress;
    if virt % PAGE_SIZE != 0 || phys % PAGE_SIZE != 0 {
      return EINVAGS;
    }
    TablesFound(h, s, 0);
    var directory := h.memory[h.AddressBlock(chunk), 0];
    res := PagingSet(h, directory, virt, Or32(phys, flags), s);
  }

  /** `paging_map_range`: stops at the first page that cannot be mapped and keeps the pages mapped before it. */
  method PagingMapRange(h: Heap, chunk: u32, virt: u32, phys: u32, count: i32, flags: u32, ghost s: Space)
    returns (res: i32)
    requires SpaceIn(h, s) && chunk == h.BlockAddress(s.Chunk())
    modifies h.memory
    ensures SpaceIn(h, s)
    ensures res == OK || res == EINVAGS
    ensures res == OK <==>
      count <= 0 || (virt % PAGE_SIZE == 0 && phys % PAGE_SIZE == 0 && virt != 0 && virt / 4096 + count <= PAGES)
    ensures FlatOf(h, s) == if virt % PAGE_SIZE == 0 && phys % PAGE_SIZE == 0
      then MapPages(old(FlatOf(h, s)), virt / 4096, phys, PagesBeforeNull(virt, count), flags) else old(FlatOf(h, s))
    ensures OnlyTablesChange(h, s)
  {
    hide SpaceIn, IsTable, FlatOf, MapPages, Or32, Wrap;
    ghost var before := FlatOf(h, s);
    ghost var aligned := virt % PAGE_SIZE == 0 && phys % PAGE_SIZE == 0;
    res := OK;
    var v, p, i := virt, phys, 0;
    ghost var first := virt / 4096;
    MapPagesNone(before, first, phys, flags);
    WrapSmall(virt);
    WrapSmall(phys);
    while i < count
      invariant 0 <= i && (i > 0 ==> i <= count && aligned && virt != 0 && first + i <= PAGES)
      invariant v == Wrap(virt + i * 4096) && p == Wrap(phys + i * 4096)
      invariant i == 0 ==> v == virt && p == phys
      invariant i > 0 && first + i < PAGES ==> v / 4096 == first + i && v != 0
      invariant i > 0 && first + i == PAGES ==> v == 0
      invariant i > 0 ==> v % 4096 == 0 && p % 4096 == 0
      invariant res == OK && SpaceIn(h, s)
      invariant FlatOf(h, s) == MapPages(before, first, phys, i, flags)
      invariant OnlyTablesChange(h, s)
    {
      res := PagingMap(h, chunk, v, p, flags, s);
      if res < 0 {
        return;
      }
      assert v / 4096 == first + i;
      MapPagesExtend(before, first, phys, i, flags);
      PageStep(virt, i);
      PageStep(virt, i + 1);
      PageStep(phys, i);
      PageStep(phys, i + 1);
      v, p, i := Wrap(v + PAGE_SIZE), Wrap(p + PAGE_SIZE), i + 1;
    }
  }

  /** `paging_map_to`. */
  method PagingMapTo(h: Heap, chunk: u32, virt: u32, phys: u32, physEnd: u32, flags: u32, ghost s: Space)
    returns (res: i32)
    requires SpaceIn(h, s) && chunk == h.BlockAddress(s.Chunk())
    modifies h.memory
    ensures SpaceIn(h, s)
    ensures res == if MapToSucceeds(virt, phys, physEnd) then OK else EINVAGS
    ensures FlatOf(h, s) == MapToPages(old(FlatOf(h, s)), virt, phys, physEnd, flags)
    ensures OnlyTablesChange(h, s)
  {
    hide SpaceIn;
    if virt % PAGE_SIZE != 0 {
      return EINVAGS;
    }
    if phys % PAGE_SIZE != 0 {
      return EINVAGS;
    }
    if physEnd % PAGE_SIZE != 0 {
      return EINVAGS;
    }
    if phys > physEnd {
      return EINVAGS;
    }
    var totalPages := (physEnd - phys) / PAGE_SIZE;
    res := PagingMapRange(h, chunk, virt, phys, totalPages, flags, s);
  }

  /** `paging_get`: for a page base, the flat entry. An address it cannot index falls through to page 0. */
  method PagingGet(h: Heap, chunk: u32, virt: u32, ghost s: Space) returns (entry: u32)
    requires SpaceIn(h, s) && chunk == h.BlockAddress(s.Chunk())
    ensures entry == FlatOf(h, s)[if virt % PAGE_SIZE == 0 then virt / 4096 else 0]
  {
    hide SpaceIn, FlatOf, Frame, Heap.AddressBlock, Heap.BlockAddress;
    var (_, di, ti) := Indexes(virt);
    TablesFound(h, s, di);
    var directory := h.memory[h.AddressBlock(chunk), 0];
    var table := Frame(h.memory[h.AddressBlock(directory), di]);
    entry := h.memory[h.AddressBlock(table), ti];
    assert virt % PAGE_SIZE == 0 ==> virt / 4096 == di * 1024 + ti;
    assert FlatOf(h, s)[di * 1024 + ti] == entry;
  }

  /** `paging_get_physical_address`: walking the tables gives the flat translation, for every address. */
  method PagingGetPhysicalAddress(h: Heap, chunk: u32, virt: u32, ghost s: Space) returns (phys: u32)
    requires SpaceIn(h, s) && chunk == h.BlockAddress(s.Chunk())
    ensures phys == Translate(FlatOf(h, s), virt)
  {
    hide SpaceIn, FlatOf;
    var base := virt - virt % PAGE_SIZE;
    var offset := virt - base;
    var entry := PagingGet(h, chunk, base, s);
    phys := Frame(entry) + offset;
  }
}
