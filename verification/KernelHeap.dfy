/**
  mm/heap.c and mm/kheap.c: a first-fit allocator over 4096-byte blocks.
  The heap object holds the block table and the memory the blocks stand for,
  1024 words to a block; `live` is the abstract set of runs the table encodes.
 */
module KernelHeap {
  import opened Machine
  import opened HeapTable

  const KERNEL_HEAP_ADDRESS: u32 := 0x0100_0000
  const KERNEL_HEAP_SIZE_BYTES: u32 := 104857600

  /** How many blocks a request of `size` bytes asks for. */
  function BlocksFor(size: u32): nat {
    AlignUp(size) / PAGE_SIZE
  }

  /** A granted request is never short: a positive block count holds `size` bytes, and a count of 0 means size 0 or a
      wrap in rounding up. */
  lemma BlocksHoldSize(size: u32)
    ensures BlocksFor(size) > 0 ==> size <= BlocksFor(size) * PAGE_SIZE < size + PAGE_SIZE
    ensures BlocksFor(size) == 0 <==> size == 0 || size > 0xFFFF_F000
  {
    AlignUpMeaning(size);
  }

  // ----- several allocations in a row, on the table alone

  /** The table after one request: first fit, or unchanged when it is refused. */
  function Take(t: seq<Entry>, size: u32): seq<Entry> {
    Step(t, Alloc(BlocksFor(size)))
  }

  /** Where a request that is granted comes to lie. */
  function Place(t: seq<Entry>, size: u32): nat {
    var r := FirstFit(t, BlocksFor(size));
    if r < 0 then |t| else r
  }

  /** The table after requests of these sizes. */
  function TakeAll(t: seq<Entry>, sizes: seq<u32>): seq<Entry>
    decreases |sizes|
  {
    if sizes == [] then t else Take(TakeAll(t, sizes[..|sizes| - 1]), sizes[|sizes| - 1])
  }

  /** All of them are granted. */
  ghost predicate AllFit(t: seq<Entry>, sizes: seq<u32>)
    decreases |sizes|
  {
    sizes == []
    || (AllFit(t, sizes[..|sizes| - 1])
      && !NoRoom(TakeAll(t, sizes[..|sizes| - 1]), BlocksFor(sizes[|sizes| - 1])))
  }

  /** Where they come to lie. */
  function Places(t: seq<Entry>, sizes: seq<u32>): (places: seq<nat>)
    ensures |places| == |sizes|
    decreases |sizes|
  {
    if sizes == [] then []
    else Places(t, sizes[..|sizes| - 1]) + [Place(TakeAll(t, sizes[..|sizes| - 1]), sizes[|sizes| - 1])]
  }

  lemma TakeNone(t: seq<Entry>)
    ensures TakeAll(t, []) == t && AllFit(t, []) && Places(t, []) == []
  {
  }

  lemma TakeNext(t: seq<Entry>, sizes: seq<u32>, size: u32)
    ensures TakeAll(t, sizes + [size]) == Take(TakeAll(t, sizes), size)
    ensures AllFit(t, sizes + [size]) <==> AllFit(t, sizes) && !NoRoom(TakeAll(t, sizes), BlocksFor(size))
    ensures Places(t, sizes + [size]) == Places(t, sizes) + [Place(TakeAll(t, sizes), size)]
  {
    hide NoRoom, BlocksFor, Take, Place;
    assert (sizes + [size])[..|sizes + [size]| - 1] == sizes;
  }

  /** Requests in two rows are requests in one. */
  lemma {:induction false} TakeJoins(t: seq<Entry>, one: seq<u32>, two: seq<u32>)
    ensures TakeAll(t, one + two) == TakeAll(TakeAll(t, one), two)
    ensures AllFit(t, one + two) <==> AllFit(t, one) && AllFit(TakeAll(t, one), two)
    ensures Places(t, one + two) == Places(t, one) + Places(TakeAll(t, one), two)
    decreases |two|
  {
    hide NoRoom, BlocksFor, Take, Place;
    if two == [] {
      assert one + two == one;
      TakeNone(TakeAll(t, one));
    } else {
      var front, last := two[..|two| - 1], two[|two| - 1];
      TakeJoins(t, one, front);
      assert one + two == (one + front) + [last] && two == front + [last];
      TakeNext(t, one + front, last);
      TakeNext(TakeAll(t, one), front, last);
    }
  }

  // ----- a heap that has never had anything given back

  /** The first n blocks are taken and the others are free. */
  ghost predicate Compact(t: seq<Entry>, n: nat) {
    n <= |t| && forall i :: 0 <= i < |t| ==> (IsFree(t[i]) <==> i >= n)
  }

  function TotalBlocks(sizes: seq<u32>): nat
    decreases |sizes|
  {
    if sizes == [] then 0 else TotalBlocks(sizes[..|sizes| - 1]) + BlocksFor(sizes[|sizes| - 1])
  }

  lemma CompactTake(t: seq<Entry>, n: nat, size: u32)
    requires Compact(t, n) && BlocksFor(size) > 0 && n + BlocksFor(size) <= |t|
    ensures !NoRoom(t, BlocksFor(size)) && Place(t, size) == n
    ensures |Take(t, size)| == |t| && Compact(Take(t, size), n + BlocksFor(size))
  {
    hide BlocksFor, FirstFitFrom;
    assert Fits(t, n, BlocksFor(size));
    forall b: nat | b < n ensures !Fits(t, b, BlocksFor(size)) {
      assert !IsFree(t[b]);
    }
    FirstFitIs(t, BlocksFor(size), n);
    forall i | n <= i < n + BlocksFor(size) ensures !IsFree(RunEntry(n, BlocksFor(size), i)) {
    }
  }

  /** Requests that fit in all are granted, each behind the one before it. */
  lemma {:induction false} CompactTakes(t: seq<Entry>, n: nat, sizes: seq<u32>)
    requires Compact(t, n) && n + TotalBlocks(sizes) <= |t|
    requires forall k :: 0 <= k < |sizes| ==> BlocksFor(sizes[k]) > 0
    ensures AllFit(t, sizes) && |TakeAll(t, sizes)| == |t| && Compact(TakeAll(t, sizes), n + TotalBlocks(sizes))
    ensures forall k :: 0 <= k < |sizes| ==> Places(t, sizes)[k] == n + TotalBlocks(sizes[..k])
    decreases |sizes|
  {
    hide BlocksFor, Compact, NoRoom, Take, Place, AllFit, TakeAll, Places;
    if sizes == [] {
      TakeNone(t);
    } else {
      var front, last := sizes[..|sizes| - 1], sizes[|sizes| - 1];
      CompactTakes(t, n, front);
      CompactTake(TakeAll(t, front), n + TotalBlocks(front), last);
      TakeNext(t, front, last);
      assert sizes == front + [last];
      forall k | 0 <= k < |front| ensures sizes[..k] == front[..k] {
      }
    }
  }

  lemma {:induction false} TotalJoins(one: seq<u32>, two: seq<u32>)
    ensures TotalBlocks(one + two) == TotalBlocks(one) + TotalBlocks(two)
    decreases |two|
  {
    hide BlocksFor;
    if two == [] {
      assert one + two == one;
    } else {
      TotalJoins(one, two[..|two| - 1]);
      assert (one + two)[..|one + two| - 1] == one + two[..|two| - 1];
    }
  }

  class Heap {
    const saddr: u32
    const table: array<Entry>
    const memory: array2<u32>
    ghost var live: Runs

    ghost predicate Region()
    {
      && saddr % PAGE_SIZE == 0 && saddr > 0 && saddr + table.Length * PAGE_SIZE < TWO32
      && memory.Length0 == table.Length && memory.Length1 == 1024
    }

    ghost predicate Valid()
      reads this, table
    {
      Region() && Encodes(table[..], live)
    }

    function BlockAddress(b: nat): u32 {
      Wrap(saddr + b * PAGE_SIZE)
    }

    function AddressBlock(ptr: u32): nat {
      Wrap(ptr - saddr) / PAGE_SIZE
    }

    /** Block numbers and block addresses correspond, and no block is at NULL. */
    lemma BlockAddressRoundTrip(b: nat)
      requires Region() && b < table.Length
      ensures BlockAddress(b) == saddr + b * PAGE_SIZE
      ensures AddressBlock(BlockAddress(b)) == b
      ensures BlockAddress(b) != NULL && BlockAddress(b) % PAGE_SIZE == 0
    {
      assert saddr + b * PAGE_SIZE < TWO32;
    }

    constructor (ptr: u32, blocks: nat)
      ensures saddr == ptr && table.Length == blocks && memory.Length0 == blocks && memory.Length1 == 1024
      ensures forall i :: 0 <= i < blocks ==> table[i] == FREE
      ensures live == map[] && fresh(table) && fresh(memory)
    {
      saddr := ptr;
      table := new Entry[blocks](_ => FREE);
      memory := new u32[blocks, 1024];
      live := map[];
    }

    /** `heap_create`: refuses a misaligned region or a table of the wrong length. An accepted region that starts at 0
        or wraps past 2^32 is the one case that does not give a usable heap. */
    static method Create(ptr: u32, end: u32, total: nat) returns (res: i32, heap: Heap?)
      ensures res == OK || res == EINVAGS
      ensures res == OK <==> ptr % PAGE_SIZE == 0 && end % PAGE_SIZE == 0 && total == Wrap(end - ptr) / PAGE_SIZE
      ensures res == OK <==> heap != null
      ensures heap != null ==> fresh(heap) && fresh(heap.table) && fresh(heap.memory)
      ensures heap != null ==> heap.saddr == ptr && heap.table.Length == total && heap.live == map[]
      ensures heap != null ==> forall i :: 0 <= i < total ==> heap.table[i] == FREE
      ensures heap != null ==> (heap.Valid() <==> 0 < ptr <= end)
    {
      heap := null;
      if ptr % PAGE_SIZE != 0 || end % PAGE_SIZE != 0 {
        return EINVAGS, null;
      }
      var tableSize := Wrap(end - ptr);
      if total != tableSize / PAGE_SIZE {
        return EINVAGS, null;
      }
      res := OK;
      var h := new Heap(ptr, total);
      AllFreeEncodesNothing(h.table[..]);
      heap := h;
    }

    /** Why a region at address 0 is not usable: its first block has the address that means failure. Taking it marks
        it and reports that nothing was given. */
    static method BlockAtNull() returns (heap: Heap, ptr: u32)
      ensures heap.saddr == 0 && heap.table.Length == 2 && ptr == NULL && !IsFree(heap.table[0])
    {
      var res, made := Create(0, 2 * 4096, 2);
      heap := made;
      assert Fits(heap.table[..], 0, 1);
      FirstFitIs(heap.table[..], 1, 0);
      ptr := heap.MallocBlocks(1);
      assert heap.table[..][0] == RunEntry(0, 1, 0);
    }

    /** `kheap_init`: the kernel's own constants give a usable, empty heap of 25600 blocks. */
    static method KheapInit() returns (heap: Heap)
      ensures fresh(heap) && fresh(heap.table) && fresh(heap.memory) && heap.Valid() && heap.live == map[]
      ensures heap.saddr == KERNEL_HEAP_ADDRESS && heap.table.Length == 25600
    {
      var res, h := Create(KERNEL_HEAP_ADDRESS, KERNEL_HEAP_ADDRESS + KERNEL_HEAP_SIZE_BYTES,
        KERNEL_HEAP_SIZE_BYTES / PAGE_SIZE);
      heap := h;
    }

    /** `heap_get_start_block`: one pass with a count `bc` of consecutive free blocks starting at `bs`. */
    method GetStartBlock(n: nat) returns (r: int)
      requires n > 0
      ensures r == FirstFit(table[..], n)
    {
      ghost var t := table[..];
      var bc, bs, i := 0, -1, 0;
      while i < table.Length
        invariant 0 <= i <= table.Length
        invariant bs == -1 ==> bc == 0
        invariant bs != -1 ==> 0 <= bs && bs + bc == i && 0 < bc < n
        invariant forall k :: bs != -1 && bs <= k < i ==> IsFree(t[k])
        invariant forall b: nat :: b < (if bs == -1 then i else bs) ==> !Fits(t, b, n)
      {
        if !IsFree(table[i]) {
          forall b: nat | b < i + 1 ensures !Fits(t, b, n) {
            assert !IsFree(t[i]);
          }
          bc, bs, i := 0, -1, i + 1;
          continue;
        }
        if bs == -1 {
          bs := i;
        }
        bc := bc + 1;
        if bc == n {
          break;
        }
        i := i + 1;
      }
      if bs == -1 || bc != n {
        r := ENOMEM;
        forall b: nat ensures !Fits(t, b, n) {
          if bs != -1 && b >= bs {
            assert b + n > |t|;
          }
        }
      } else {
        r := bs;
      }
      FirstFitIs(t, n, r);
    }

    /** `heap_mark_blocks_taken`. */
    method MarkBlocksTaken(b: nat, n: nat)
      requires n > 0 && b + n <= table.Length
      modifies table
      ensures table[..] == Marked(old(table[..]), b, n)
    {
      var end := b + n - 1;
      var i := b;
      while i <= end
        invariant b <= i <= end + 1
        invariant forall k :: 0 <= k < table.Length ==>
          table[k] == if b <= k < i then RunEntry(b, n, k) else old(table[k])
      {
        table[i] := TAKEN;
        if i == b {
          table[i] := table[i] | IS_FIRST;
        }
        if i < end {
          table[i] := table[i] | HAS_NEXT;
        }
        i := i + 1;
      }
    }

    /** `heap_malloc_blocks`: takes the first fit, or takes nothing and returns NULL. */
    method MallocBlocks(n: nat) returns (ptr: u32)
      requires Encodes(table[..], live)
      modifies table, this
      ensures Encodes(table[..], live)
      ensures var r := FirstFit(old(table[..]), n);
        if n == 0 || r < 0 then ptr == NULL && live == old(live)
        else ptr == BlockAddress(r) && r !in old(live) && live == old(live)[r := n] && r + n <= table.Length
      ensures table[..] == Step(old(table[..]), Alloc(n))
      ensures live == StepRuns(old(table[..]), old(live), Alloc(n))
    {
      ptr := NULL;
      if n == 0 {
        return;
      }
      var start := GetStartBlock(n);
      FirstFitMeaning(table[..], n, 0);
      if start < 0 {
        return;
      }
      ptr := BlockAddress(start);
      MarkedEncodes(table[..], live, start, n);
      MarkBlocksTaken(start, n);
      live := live[start := n];
    }

    /** `heap_malloc`. */
    method Malloc(size: u32) returns (ptr: u32)
      requires Valid()
      modifies table, this
      ensures Valid()
      ensures table[..] == Step(old(table[..]), Alloc(BlocksFor(size)))
      ensures live == StepRuns(old(table[..]), old(live), Alloc(BlocksFor(size)))
      ensures ptr != NULL ==> var b := AddressBlock(ptr);
        && ptr == BlockAddress(b) && b !in old(live) && live == old(live)[b := BlocksFor(size)]
        && size <= BlocksFor(size) * PAGE_SIZE && b + BlocksFor(size) <= table.Length
      ensures ptr == NULL ==> live == old(live) && table[..] == old(table[..])
      ensures ptr == NULL <==> BlocksFor(size) == 0 || forall b: nat :: !Fits(old(table[..]), b, BlocksFor(size))
    {
      var n := BlocksFor(size);
      BlocksHoldSize(size);
      if n > 0 {
        FirstFitMeaning(table[..], n, 0);
      }
      ptr := MallocBlocks(n);
      if ptr != NULL {
        BlockAddressRoundTrip(FirstFit(old(table[..]), n));
      } else if n > 0 && FirstFit(old(table[..]), n) >= 0 {
        BlockAddressRoundTrip(FirstFit(old(table[..]), n));
      }
    }

    /** `heap_zalloc`: like malloc, and the run handed out is zero while every other word keeps its value. */
    method Zalloc(size: u32) returns (ptr: u32)
      requires Valid()
      modifies table, this, memory
      ensures Valid()
      ensures table[..] == Step(old(table[..]), Alloc(BlocksFor(size)))
      ensures live == StepRuns(old(table[..]), old(live), Alloc(BlocksFor(size)))
      ensures ptr != NULL ==> var b := AddressBlock(ptr);
        && ptr == BlockAddress(b) && b !in old(live) && live == old(live)[b := BlocksFor(size)]
        && size <= BlocksFor(size) * PAGE_SIZE && b + BlocksFor(size) <= table.Length
      ensures ptr == NULL ==> live == old(live) && table[..] == old(table[..])
      ensures ptr == NULL <==> BlocksFor(size) == 0 || forall b: nat :: !Fits(old(table[..]), b, BlocksFor(size))
      ensures forall i, j :: 0 <= i < memory.Length0 && 0 <= j < 1024 ==>
        memory[i, j] == if ptr != NULL && AddressBlock(ptr) <= i < AddressBlock(ptr) + BlocksFor(size) then 0
          else old(memory[i, j])
    {
      ptr := Malloc(size);
      if ptr == NULL {
        return;
      }
      var b, n := AddressBlock(ptr), BlocksFor(size);
      forall i, j | b <= i < b + n && 0 <= j < 1024 {
        memory[i, j] := 0;
      }
    }

    /** `heap_mark_blocks_free`. */
    method MarkBlocksFree(b: nat)
      modifies table
      ensures table[..] == Freed(old(table[..]), b)
    {
      ghost var t := table[..];
      var i := b;
      while i < table.Length
        invariant b <= i && (b < table.Length ==> i < WalkEnd(t, b))
        invariant i < table.Length ==> WalkEnd(t, i) == WalkEnd(t, b)
        invariant forall k :: 0 <= k < table.Length ==> table[k] == if b <= k < i then FREE else t[k]
      {
        var entry := table[i];
        table[i] := FREE;
        if entry & HAS_NEXT == 0 || i + 1 == table.Length {
          assert WalkEnd(t, i) == i + 1;
          break;
        }
        i := i + 1;
      }
    }

    /** `heap_free`: any pointer at all may be passed; a well-formed heap stays well formed exactly when the pointer
        is NULL or its block is clean to free. */
    method Free(ptr: u32)
      requires Region()
      modifies table, this
      ensures table[..] == if ptr == NULL then old(table[..]) else Freed(old(table[..]), AddressBlock(ptr))
      ensures live == if ptr == NULL then old(live) else RunsAfterFree(old(table[..]), old(live), AddressBlock(ptr))
      ensures old(Valid()) ==> (Valid() <==> ptr == NULL || CleanToFree(old(table[..]), AddressBlock(ptr)))
    {
      if ptr == NULL {
        return;
      }
      ghost var t := table[..];
      var b := AddressBlock(ptr);
      if Valid() {
        FreeKeepsEncoding(t, live, b);
      }
      MarkBlocksFree(b);
      live := RunsAfterFree(t, live, b);
    }

    /** Every live start may be freed. */
    lemma LiveIsClean(b: nat)
      requires Valid() && b in live
      ensures b < table.Length && CleanToFree(table[..], b) && AddressBlock(BlockAddress(b)) == b
        && BlockAddress(b) != NULL
    {
      assert table[..][b] == RunEntry(b, live[b], b);
      BlockAddressRoundTrip(b);
    }

    /** Two live runs share no block. */
    lemma LiveRunsApart(a: nat, b: nat)
      requires Valid() && a in live && b in live && a != b
      ensures a + live[a] <= b || b + live[b] <= a
    {
      RunsDisjoint(table[..], live, a, b);
    }
  }
}
