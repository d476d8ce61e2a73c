/**
  Whole runs of loads, allocations, frees and exits by any number of processes,
  and what no process can do to another over any of them.
 */
module SystemRuns {
  import opened Machine
  import opened HeapTable
  import opened KernelHeap
  import opened Paging
  import opened AddressSpace
  import opened ProcessMemory
  import opened ProgramPages
  import opened KernelRuns
  import opened FileLoad
  import opened ProcessLife

  /** One step. An exit comes with the argument pointers that are in the process's vector at that moment; the vector is
      memory of the program, so they may be any. */
  datatype Step =
    | Load(program: Program)
    | Malloc(who: nat, size: u32)
    | Free(who: nat, ptr: u32)
    | Exit(who: nat, argv: seq<u32>)

  ghost function All(procs: seq<Owner>): set<Owner> {
    set q | q in procs
  }

  function Others(procs: seq<Owner>, i: nat): seq<Owner>
    requires i < |procs|
  {
    procs[..i] + procs[i + 1..]
  }

  type Footprints = map<Owner, set<nat>>

  ghost function FootprintsOf(h: Heap, procs: seq<Owner>): Footprints
    reads set q | q in procs :: q.allocations
  {
    map q | q in procs :: Footprint(h, q)
  }

  ghost predicate Needed(fps: Footprints, b: nat) {
    exists q :: q in fps && b in fps[q]
  }

  /** These runs are the ones there were without the processes, and exactly what the processes depend on. */
  ghost predicate Accounted(fps: Footprints, runs: Runs, base: Runs) {
    && (forall b :: b in base ==> b in runs && runs[b] == base[b] && !Needed(fps, b))
    && forall b :: b in runs ==> b in base || Needed(fps, b)
  }

  ghost predicate ApartBy(fps: Footprints, p: Owner, q: Owner) {
    p != q && p.allocations != q.allocations && p in fps && q in fps && fps[p] !! fps[q]
  }

  /** Any two of the processes depend on different blocks and keep different tables. */
  ghost predicate PairsApart(fps: Footprints, procs: seq<Owner>) {
    forall i, j :: 0 <= i < |procs| && 0 <= j < |procs| && i != j ==> ApartBy(fps, procs[i], procs[j])
  }

  /** Any two of the processes are apart, and these runs are accounted for. */
  ghost predicate Settled(fps: Footprints, runs: Runs, procs: seq<Owner>, base: Runs) {
    PairsApart(fps, procs) && Accounted(fps, runs, base)
  }

  ghost predicate EachOk(h: Heap, procs: seq<Owner>)
    reads h, h.table, h.memory, set q | q in procs :: q.allocations
  {
    forall q :: q in procs ==> ProcessOk(h, q) && KernelHolds(h, q)
  }

  /** Every process is well formed with its image and stack, any two are apart, and all of live memory is accounted
      for. */
  ghost predicate SystemOk(h: Heap, procs: seq<Owner>, base: Runs)
    reads h, h.table, h.memory, set q | q in procs :: q.allocations
  {
    h.Valid() && EachOk(h, procs) && Settled(FootprintsOf(h, procs), h.live, procs, base)
  }

  lemma AreOk(h: Heap, procs: seq<Owner>, base: Runs)
    requires SystemOk(h, procs, base)
    ensures forall q :: q in procs ==> ProcessOk(h, q)
  {
    hide ProcessOk, KernelHolds;
  }

  /** Where the elements of a list come to stand in the list without element i. */
  lemma OthersAre(procs: seq<Owner>, i: nat)
    requires i < |procs|
    ensures |Others(procs, i)| == |procs| - 1
    ensures forall k :: 0 <= k < |procs| && k != i ==> procs[k] == Others(procs, i)[if k < i then k else k - 1]
    ensures forall k :: 0 <= k < |procs| - 1 ==> Others(procs, i)[k] == procs[if k < i then k else k + 1]
    ensures forall q :: q in procs <==> q == procs[i] || q in Others(procs, i)
  {
    var others := Others(procs, i);
    forall q | q in procs ensures q == procs[i] || q in others {
      var k :| 0 <= k < |procs| && procs[k] == q;
      assert k != i ==> others[if k < i then k else k - 1] == q;
    }
    forall q | q in others ensures q in procs {
      var k :| 0 <= k < |others| && others[k] == q;
    }
  }

  lemma OthersMembers(procs: seq<Owner>, i: nat)
    requires i < |procs|
    ensures |Others(procs, i)| == |procs| - 1
    ensures forall q :: q in procs <==> q == procs[i] || q in Others(procs, i)
  {
    OthersAre(procs, i);
  }

  lemma AccountedWithout(fps: Footprints, p: Owner, runs: Runs, base: Runs)
    requires Accounted(fps, runs, base) && p in fps
    ensures Accounted(fps - {p}, runs - fps[p], base)
  {
    var fps', rest := fps - {p}, runs - fps[p];
    forall b | b in base ensures b in rest && !Needed(fps', b) {
      assert !Needed(fps, b);
    }
    forall b | b in rest && b !in base ensures Needed(fps', b) {
      assert Needed(fps, b);
      var q: Owner :| q in fps && b in fps[q];
      assert q in fps' && fps'[q] == fps[q];
    }
  }

  lemma PairsWithout(fps: Footprints, procs: seq<Owner>, i: nat)
    requires PairsApart(fps, procs) && i < |procs| && procs[i] in fps
    ensures PairsApart(fps - {procs[i]}, Others(procs, i))
    ensures forall q :: q in Others(procs, i) ==> ApartBy(fps, procs[i], q)
  {
    hide Others;
    OthersAre(procs, i);
    var others, fps' := Others(procs, i), fps - {procs[i]};
    forall k | 0 <= k < |others| ensures ApartBy(fps, procs[i], others[k]) {
      assert others[k] == procs[if k < i then k else k + 1];
    }
    forall a, c | 0 <= a < |others| && 0 <= c < |others| && a != c ensures ApartBy(fps', others[a], others[c]) {
      assert ApartBy(fps, procs[if a < i then a else a + 1], procs[if c < i then c else c + 1]);
    }
  }

  lemma AccountedWith(fps: Footprints, p: Owner, rest: Runs, runs: Runs, base: Runs, fp: set<nat>)
    requires Accounted(fps, rest, base) && p !in fps
    requires runs.Keys == rest.Keys + fp && rest.Keys !! fp && forall b :: b in rest ==> runs[b] == rest[b]
    ensures Accounted(fps[p := fp], runs, base)
  {
    var fps' := fps[p := fp];
    forall b | b in base ensures b in runs && runs[b] == base[b] && !Needed(fps', b) {
      assert b in rest && !Needed(fps, b);
      assert forall q :: q in fps' && q != p ==> q in fps && fps'[q] == fps[q];
    }
    forall b | b in runs && b !in base ensures Needed(fps', b) {
      if b in rest {
        assert Needed(fps, b);
        var q: Owner :| q in fps && b in fps[q];
        assert q in fps' && fps'[q] == fps[q];
      } else {
        assert p in fps' && b in fps'[p];
      }
    }
  }

  lemma PairsWith(fps: Footprints, procs: seq<Owner>, i: nat)
    requires i < |procs| && procs[i] in fps && PairsApart(fps - {procs[i]}, Others(procs, i))
    requires forall q :: q in Others(procs, i) ==> ApartBy(fps, procs[i], q)
    ensures PairsApart(fps, procs)
  {
    hide Others;
    OthersAre(procs, i);
    var others, fps' := Others(procs, i), fps - {procs[i]};
    forall k | 0 <= k < |procs| && k != i ensures ApartBy(fps, procs[i], procs[k]) && ApartBy(fps, procs[k], procs[i]) {
      assert procs[k] == others[if k < i then k else k - 1];
    }
    forall a, c | 0 <= a < |procs| && 0 <= c < |procs| && a != c && a != i && c != i
      ensures ApartBy(fps, procs[a], procs[c]) {
      assert ApartBy(fps', others[if a < i then a else a - 1], others[if c < i then c else c - 1]);
    }
  }

  /** Taking process i out leaves the others settled on the rest, from which it is apart. */
  lemma TakeOut(h: Heap, procs: seq<Owner>, i: nat, base: Runs)
    requires SystemOk(h, procs, base) && i < |procs|
    ensures EachOk(h, Others(procs, i)) && AllApart(h, procs[i], All(Others(procs, i)))
    ensures Settled(FootprintsOf(h, Others(procs, i)), Rest(h, procs[i]), Others(procs, i), base)
    ensures Accounts(h, Rest(h, procs[i]), Footprint(h, procs[i]))
  {
    hide ProcessOk, KernelHolds, Footprint, Others, Accounted, PairsApart;
    var p, others := procs[i], Others(procs, i);
    var fps := FootprintsOf(h, procs);
    OthersAre(procs, i);
    FootprintIsLive(h, p);
    PairsWithout(fps, procs, i);
    AccountedWithout(fps, p, h.live, base);
    assert FootprintsOf(h, others) == fps - {p};
    forall q | q in others ensures Apart(h, p, q) {
      assert ApartBy(fps, p, q) && fps[p] == Footprint(h, p) && fps[q] == Footprint(h, q);
    }
  }

  lemma OkIsValid(h: Heap, p: Owner)
    requires ProcessOk(h, p)
    ensures h.Valid()
  {
  }

  /** Putting a process back among others it is apart from, at its place. */
  lemma PutIn(h: Heap, procs: seq<Owner>, i: nat, base: Runs, rest: Runs)
    requires i < |procs| && EachOk(h, [procs[i]]) && EachOk(h, Others(procs, i))
    requires AllApart(h, procs[i], All(Others(procs, i)))
    requires Settled(FootprintsOf(h, Others(procs, i)), rest, Others(procs, i), base)
    requires Accounts(h, rest, Footprint(h, procs[i]))
    ensures SystemOk(h, procs, base)
  {
    hide ProcessOk, KernelHolds, Footprint, Others, Accounted, PairsApart;
    var p, others := procs[i], Others(procs, i);
    var fps, fps' := FootprintsOf(h, procs), FootprintsOf(h, others);
    OthersAre(procs, i);
    assert p in [p];
    OkIsValid(h, p);
    forall q | q in others ensures ApartBy(fps, p, q) {
      assert q in All(others) && Apart(h, p, q) && fps[q] == Footprint(h, q);
    }
    assert fps' == fps - {p} && fps == fps'[p := Footprint(h, p)];
    PairsWith(fps, procs, i);
    AccountedWith(fps', p, rest, h.live, base, Footprint(h, p));
  }

  // ----- what each step does

  /** The system at one moment: the processes, what is live, the heap's table, and every process's allocation table. */
  datatype Scene = Scene(procs: seq<Owner>, live: Runs, table: seq<Entry>, slots: map<Owner, seq<Allocation>>)

  ghost function SceneOf(h: Heap, procs: seq<Owner>): (s: Scene)
    reads h, h.table, set q | q in procs :: q.allocations
    ensures s.procs == procs && s.slots.Keys == (set q | q in procs)
  {
    Scene(procs, h.live, h.table[..], map q | q in procs :: q.allocations[..])
  }

  /** What a process with these slots depends on. */
  ghost function DependsOn(h: Heap, p: Owner, slots: seq<Allocation>): set<nat> {
    BlockSet(p.space.blocks) + p.kept.Keys + Holdings(h, slots)
  }

  /** An allocation is refused and changes nothing, or takes the first fit and one free slot, and nothing else. */
  ghost predicate AfterMalloc(h: Heap, before: Scene, p: Owner, size: u32, after: Scene)
    requires p in before.slots
  {
    if NoRoom(before.table, BlocksFor(size)) || NoSlot(before.slots[p]) then after == before
    else
      var b := Place(before.table, size);
      && after.procs == before.procs && b !in before.live && after.live == before.live[b := BlocksFor(size)]
      && after.table == Take(before.table, size) && p in after.slots
      && (exists k: nat :: Recorded(before.slots[p], after.slots[p], k, Allocation(h.BlockAddress(b), size)))
      && after.slots == before.slots[p := after.slots[p]]
  }

  ghost predicate HeldAt(slots: seq<Allocation>, ptr: u32, k: nat) {
    k < |slots| && ptr != NULL && slots[k].ptr == ptr
  }

  /** A free of a pointer the process does not hold changes nothing; of one it holds takes that run and its slot, and
      nothing else. */
  ghost predicate AfterFree(h: Heap, before: Scene, p: Owner, ptr: u32, after: Scene)
    requires p in before.slots
  {
    if !exists k: nat :: HeldAt(before.slots[p], ptr, k) then after == before
    else
      && after.procs == before.procs && after.live == before.live - {h.AddressBlock(ptr)}
      && exists k: nat ::
        HeldAt(before.slots[p], ptr, k) && after.slots == before.slots[p := before.slots[p][k := Allocation(NULL, 0)]]
  }

  /** An exit takes the process and exactly what it depends on. */
  ghost predicate AfterExit(h: Heap, before: Scene, who: nat, after: Scene)
    requires who < |before.procs| && before.procs[who] in before.slots
  {
    var p := before.procs[who];
    && after.procs == before.procs[..who] + before.procs[who + 1..]
    && after.live == before.live - DependsOn(h, p, before.slots[p]) && after.slots == before.slots - {p}
  }

  ghost predicate Grown(before: Runs, after: Runs) {
    forall b :: b in before ==> b in after && after[b] == before[b]
  }

  /** A load keeps whatever is live and all there are; if the table has room for it a process joins at the end, with
      nothing allocated. */
  ghost predicate AfterLoad(h: Heap, before: Scene, program: Program, after: Scene) {
    && Grown(before.live, after.live)
    && (forall q :: q in before.procs && q in before.slots ==>
      q in after.slots && after.slots[q] == before.slots[q])
    && if LoadOutcome(h, before.table, program).end != Loaded then after.procs == before.procs
       else
         && |after.procs| == |before.procs| + 1 && before.procs <= after.procs
         && after.procs[|before.procs|] in after.slots && AllEmpty(after.slots[after.procs[|before.procs|]])
  }

  /** Each step has its own effect; one by a process that is not there has none. */
  ghost predicate AfterStep(h: Heap, before: Scene, step: Step, after: Scene)
    requires forall q :: q in before.procs ==> q in before.slots
  {
    match step
    case Load(program) => AfterLoad(h, before, program, after)
    case Malloc(who, size) =>
      if who < |before.procs| then AfterMalloc(h, before, before.procs[who], size, after) else after == before
    case Free(who, ptr) =>
      if who < |before.procs| then AfterFree(h, before, before.procs[who], ptr, after) else after == before
    case Exit(who, argv) => if who < |before.procs| then AfterExit(h, before, who, after) else after == before
  }

  /** One `process_malloc` by process i. */
  method MallocStep(h: Heap, procs: seq<Owner>, i: nat, size: u32, ghost base: Runs) returns (ptr: u32)
    requires SystemOk(h, procs, base) && i < |procs|
    modifies h, h.table, h.memory, procs[i].allocations
    ensures SystemOk(h, procs, base)
    ensures ptr == NULL <==> NoRoom(old(h.table[..]), BlocksFor(size)) || NoSlot(old(procs[i].allocations[..]))
    ensures ptr != NULL ==> var b := h.AddressBlock(ptr);
      && ptr == h.BlockAddress(b) && b == FirstFit(old(h.table[..]), BlocksFor(size))
      && b !in old(h.live) && h.live == old(h.live)[b := BlocksFor(size)]
      && Footprint(h, procs[i]) == old(Footprint(h, procs[i])) + {b}
      && exists k :: Recorded(old(procs[i].allocations[..]), procs[i].allocations[..], k, Allocation(ptr, size))
    ensures h.table[..] == if ptr == NULL then old(h.table[..]) else Take(old(h.table[..]), size)
    ensures ptr == NULL ==> h.live == old(h.live) && procs[i].allocations[..] == old(procs[i].allocations[..])
    ensures forall q :: q in Others(procs, i) ==> OwnerKept(h, q)
  {
    hide ProcessOk, KernelHolds, FlatOf, Encodes, Holdings, BlockSet, Settled, LiveRowsKept, OnlyBlocksChange,
      MapToPages, BlocksFor, NoRoom, NoSlot, Recorded, Take, RangeReached, Heap.AddressBlock, Heap.BlockAddress;
    ghost var p, others, rest := procs[i], Others(procs, i), Rest(h, procs[i]);
    TakeOut(h, procs, i, base);
    ptr := ProcessMalloc(h, procs[i], size, All(others));
    assert ptr == NULL ==> Footprint(h, p) == old(Footprint(h, p));
    forall q | q in others ensures OwnerKept(h, q) && Footprint(h, q) == old(Footprint(h, q)) {
      assert q in All(others);
    }
    assert FootprintsOf(h, others) == old(FootprintsOf(h, others));
    PutIn(h, procs, i, base, rest);
  }

  /** One `process_free` by process i, of any pointer. */
  method FreeStep(h: Heap, procs: seq<Owner>, i: nat, ptr: u32, ghost base: Runs)
    requires SystemOk(h, procs, base) && i < |procs|
    modifies h, h.table, h.memory, procs[i].allocations
    ensures SystemOk(h, procs, base)
    ensures forall k :: 0 <= k < procs[i].allocations.Length && ptr != NULL ==>
      old(procs[i].allocations[k].ptr) == ptr ==>
      && h.live == old(h.live) - {h.AddressBlock(ptr)}
      && Footprint(h, procs[i]) == old(Footprint(h, procs[i])) - {h.AddressBlock(ptr)}
    ensures forall k :: 0 <= k < procs[i].allocations.Length && ptr != NULL ==>
      old(procs[i].allocations[k].ptr) == ptr ==>
        procs[i].allocations[..] == old(procs[i].allocations[..])[k := Allocation(NULL, 0)]
    ensures (ptr == NULL || forall k :: 0 <= k < procs[i].allocations.Length ==>
      old(procs[i].allocations[k].ptr) != ptr) ==>
      h.live == old(h.live) && h.table[..] == old(h.table[..])
      && procs[i].allocations[..] == old(procs[i].allocations[..])
    ensures forall q :: q in Others(procs, i) ==> OwnerKept(h, q)
  {
    hide ProcessOk, KernelHolds, FlatOf, Encodes, Holdings, BlockSet, Settled, LiveRowsKept, OnlyBlocksChange,
      MapToPages, BlocksFor, NoRoom, NoSlot, Recorded, RangeClosed, Heap.AddressBlock, Heap.BlockAddress;
    ghost var p, others, rest := procs[i], Others(procs, i), Rest(h, procs[i]);
    TakeOut(h, procs, i, base);
    forall k | 0 <= k < p.allocations.Length && ptr != NULL && p.allocations[k].ptr == ptr
      ensures h.AddressBlock(ptr) in Footprint(h, p)
    {
      assert p.allocations[..][k].ptr == ptr;
      SlotInFootprint(h, p, k);
    }
    ProcessFree(h, procs[i], ptr, All(others));
    if k :| 0 <= k < p.allocations.Length && ptr != NULL && old(p.allocations[k].ptr) == ptr {
      assert h.live == old(h.live) - {h.AddressBlock(ptr)};
    } else {
      assert Footprint(h, p) == old(Footprint(h, p));
    }
    forall q | q in others ensures OwnerKept(h, q) && Footprint(h, q) == old(Footprint(h, q)) {
      assert q in All(others);
    }
    assert FootprintsOf(h, others) == old(FootprintsOf(h, others));
    PutIn(h, procs, i, base, rest);
  }

  // ----- loads

  lemma StaysGrown(h: Heap, base: Runs, left: seq<Allocation>, stay: Runs, footprint: set<nat>)
    requires Trail(h, base, left, stay) && (Accounts(h, stay, footprint) || h.live == stay)
    ensures Grown(base, h.live)
  {
    hide TrailBlocks, AllocAt, DifferentBlocks;
  }

  /** What stays of a load is one more part of what is live without the processes. */
  lemma AccountedMore(h: Heap, fps: Footprints, live: Runs, base: Runs, left: seq<Allocation>, stay: Runs)
    returns (base': Runs)
    requires Accounted(fps, live, base) && Trail(h, live, left, stay) && forall b :: Needed(fps, b) ==> b in live
    ensures Accounted(fps, stay, base') && Trail(h, base, left, base')
  {
    hide TrailBlocks, DifferentBlocks, BlocksFor, Heap.AddressBlock, Heap.BlockAddress;
    base' := RunsOf(stay, base.Keys + TrailBlocks(h, left));
    forall a | a in left ensures AllocAt(h, base', a) {
      InTrailBlocks(h, left, a);
    }
  }

  lemma NeededIsLive(h: Heap, procs: seq<Owner>)
    requires EachOk(h, procs)
    ensures forall b :: Needed(FootprintsOf(h, procs), b) ==> b in h.live
  {
    hide ProcessOk, KernelHolds, Footprint;
    forall q | q in procs ensures Footprint(h, q) <= h.live.Keys {
      FootprintIsLive(h, q);
    }
  }

  /** One load. How it ends and what it leaves is exactly what the table decides; what was live without the processes
      grows by exactly one run for each allocation the load leaves for good; a loaded process joins at the end, holding
      nothing yet. */
  method LoadStep(h: Heap, procs: seq<Owner>, program: Program, ghost base: Runs)
    returns (end: LoadEnd, procs': seq<Owner>, ghost left: seq<Allocation>, ghost base': Runs)
    requires SystemOk(h, procs, base) && Contained(program)
    modifies h, h.table, h.memory
    ensures SystemOk(h, procs', base') && Trail(h, base, left, base')
    ensures Loss(end, Sizes(left)) == LoadOutcome(h, old(h.table[..]), program)
    ensures end != Loaded ==> procs' == procs
    ensures end == Loaded ==>
      |procs'| == |procs| + 1 && procs <= procs' && fresh(procs'[|procs|]) && fresh(procs'[|procs|].allocations)
    ensures end == Loaded ==>
      && h.table[..] == TakeAll(WithTask(old(h.table[..]), program), SpaceSizes())
      && AllEmpty(procs'[|procs|].allocations[..]) && ProgramInPlace(h, procs'[|procs|], program)
    ensures Grown(old(h.live), h.live)
    ensures forall q :: q in procs' ==> q in procs || fresh(q.allocations)
    ensures forall q :: q in procs ==> q in procs' && OwnerKept(h, q)
  {
    hide ProcessOk, KernelHolds, FlatOf, Encodes, Holdings, BlockSet, Settled, Contained, LoadOutcome, Trail,
      RowsKept, ImageMaps, ProgramReach, WithTask, TakeAll, SpaceSizes, AllEmpty, ProgramInPlace, Grown,
      Heap.AddressBlock, Heap.BlockAddress;
    ghost var fps, live := FootprintsOf(h, procs), h.live;
    NeededIsLive(h, procs);
    var p;
    ghost var stay;
    end, p, left, stay := LoadMemory(h, program, All(procs));
    forall q | q in procs ensures OwnerKept(h, q) && Footprint(h, q) == old(Footprint(h, q)) {
      assert q in All(procs);
    }
    assert FootprintsOf(h, procs) == fps;
    SettledAccounted(fps, live, procs, base);
    StaysGrown(h, live, left, stay, if p == null then {} else Footprint(h, p));
    base' := AccountedMore(h, fps, live, base, left, stay);
    AccountedSettles(fps, live, procs, base, stay, base');
    procs' := procs;
    if p != null {
      procs' := procs + [p];
      assert Others(procs', |procs|) == procs;
      PutIn(h, procs', |procs|, base', stay);
    }
  }

  lemma SettledAccounted(fps: Footprints, runs: Runs, procs: seq<Owner>, base: Runs)
    requires Settled(fps, runs, procs, base)
    ensures Accounted(fps, runs, base)
  {
  }

  lemma AccountedSettles(fps: Footprints, live: Runs, procs: seq<Owner>, base: Runs, stay: Runs, base': Runs)
    requires Settled(fps, live, procs, base) && Accounted(fps, stay, base')
    ensures Settled(fps, stay, procs, base')
  {
  }

  // ----- exits

  /** The first block of the run in use that block b is in. */
  method RunStart(h: Heap, b: nat) returns (s: nat)
    requires h.Valid() && b < h.table.Length && h.table[b] != FREE
    ensures Covers(h.live, s, b)
  {
    ghost var t, runs := h.table[..], h.live;
    ghost var r: nat :| Covers(runs, r, b);
    s := b;
    while h.table[s] & IS_FIRST == 0
      invariant r <= s <= b
      decreases s
    {
      StartBit(t, runs, r, s);
      s := s - 1;
    }
    StartBit(t, runs, r, s);
  }

  lemma StartBit(t: seq<Entry>, runs: Runs, r: nat, s: nat)
    requires Encodes(t, runs) && Covers(runs, r, s)
    ensures s < |t| && (t[s] & IS_FIRST != 0 <==> s == r)
  {
    FirstBitMeansStart(t, runs, s);
    if s in runs && s != r {
      RunsDisjoint(t, runs, s, r);
    }
  }

  /** Whether a process depends on the run that starts at block s. */
  method InFootprint(h: Heap, p: Owner, s: nat) returns (own: bool)
    requires ProcessOk(h, p) && KernelHolds(h, p) && s < h.table.Length
    ensures own <==> s in Footprint(h, p)
  {
    hide Encodes, Frame, PagesOk, SlotsOk, FlatOf, Heap.AddressBlock, Heap.BlockAddress;
    own := s == h.AddressBlock(p.image) || s == h.AddressBlock(p.stack) || s == h.AddressBlock(p.task)
      || (p.file != NULL && s == h.AddressBlock(p.file));
    assert own <==> s in p.kept;
    var slot := SlotStarts(h, p, s);
    var table := TableStarts(h, p, s);
    own := own || slot || table;
  }

  method SlotStarts(h: Heap, p: Owner, s: nat) returns (found: bool)
    ensures found <==> s in Holdings(h, p.allocations[..])
  {
    hide Heap.AddressBlock;
    found := false;
    var i := 0;
    while i < p.allocations.Length
      invariant 0 <= i <= p.allocations.Length && (found <==> s in Holdings(h, p.allocations[..i]))
    {
      assert p.allocations[..] [..i + 1] == p.allocations[..i + 1] && p.allocations[..][..i] == p.allocations[..i];
      HoldingsOfPrefix(h, p.allocations[..], i);
      if p.allocations[i].ptr != NULL && h.AddressBlock(p.allocations[i].ptr) == s {
        found := true;
      }
      i := i + 1;
    }
    assert p.allocations[..i] == p.allocations[..];
  }

  method TableStarts(h: Heap, p: Owner, s: nat) returns (found: bool)
    requires SpaceIn(h, p.space) && |p.space.blocks| == 1026 && p.chunk == h.BlockAddress(p.space.blocks[1025])
    ensures found <==> s in BlockSet(p.space.blocks)
  {
    hide Encodes, Frame, Heap.AddressBlock, Heap.BlockAddress;
    ghost var blocks := p.space.blocks;
    TablesFound(h, p.space, 0);
    var dir := h.memory[h.AddressBlock(p.chunk), 0];
    assert h.AddressBlock(dir) == blocks[0] && h.AddressBlock(p.chunk) == blocks[1025];
    found := s == h.AddressBlock(p.chunk) || s == h.AddressBlock(dir);
    var i := 0;
    while i < 1024
      invariant 0 <= i <= 1024
      invariant found <==> s == blocks[1025] || s == blocks[0] || s in blocks[1..1 + i]
    {
      TablesFound(h, p.space, i);
      SliceGrows(blocks, i);
      if s == h.AddressBlock(Frame(h.memory[h.AddressBlock(dir), i])) {
        found := true;
      }
      i := i + 1;
    }
    assert blocks == [blocks[0]] + blocks[1..1 + i] + [blocks[1025]];
  }

  lemma SliceGrows(blocks: seq<nat>, i: nat)
    requires i + 2 <= |blocks|
    ensures blocks[1..2 + i] == blocks[1..1 + i] + [blocks[1 + i]]
  {
  }

  /** Whether an exit with these argument pointers is safe; the code does not ask. */
  method ExitIsSafe(h: Heap, p: Owner, argv: seq<u32>) returns (safe: bool)
    requires ProcessOk(h, p) && KernelHolds(h, p)
    ensures safe <==> forall i :: 0 <= i < |argv| ==> SafeAtEnd(h, h.table[..], h.live, Footprint(h, p), argv[i])
  {
    hide Footprint, KernelHolds, Heap.AddressBlock, ProcessOk;
    OkIsValid(h, p);
    safe := true;
    var i := 0;
    while i < |argv|
      invariant 0 <= i <= |argv|
      invariant safe <==> forall k :: 0 <= k < i ==> SafeAtEnd(h, h.table[..], h.live, Footprint(h, p), argv[k])
    {
      if argv[i] != NULL {
        var b := h.AddressBlock(argv[i]);
        if b < h.table.Length && h.table[b] != FREE {
          var s := RunStart(h, b);
          CoveredStart(h, s, b);
          var own := InFootprint(h, p, s);
          OnlyCover(h, Footprint(h, p), s, b);
          safe := safe && own;
        }
      }
      i := i + 1;
    }
  }

  lemma CoveredStart(h: Heap, s: nat, b: nat)
    requires h.Valid() && Covers(h.live, s, b)
    ensures s < h.table.Length && b < h.table.Length
  {
  }

  lemma OnlyCover(h: Heap, own: set<nat>, s: nat, b: nat)
    requires h.Valid() && Covers(h.live, s, b) && b < h.table.Length
    ensures InRuns(h.live, own, b) <==> s in own
    ensures !Unused(h.table[..], b)
  {
    assert h.table[..][b] == RunEntry(s, h.live[s], b);
    forall r | r in own && Covers(h.live, r, b) ensures r == s {
      if r != s {
        RunsDisjoint(h.table[..], h.live, r, s);
      }
    }
  }

  /** One exit, with any argument pointers: what is left stays a system exactly when they are safe, and otherwise no
      runs that include what the others and the kernel have fit the heap's table any more. */
  method ExitStep(h: Heap, procs: seq<Owner>, i: nat, argv: seq<u32>, ghost base: Runs) returns (procs': seq<Owner>)
    requires SystemOk(h, procs, base) && i < |procs|
    modifies h, h.table, h.memory, procs[i].allocations
    ensures procs' == Others(procs, i) && Released(h, old(Footprint(h, procs[i])), argv)
    ensures h.Valid() ==> SystemOk(h, procs', base) && forall q :: q in procs' ==> OwnerKept(h, q)
  {
    hide ProcessOk, KernelHolds, FlatOf, Encodes, Holdings, Settled, Apart, SafeAtEnd, Keeps, OnlyBlocksChange,
      Heap.AddressBlock, Heap.BlockAddress;
    ghost var rest := Rest(h, procs[i]);
    procs' := Others(procs, i);
    TakeOut(h, procs, i, base);
    EndMemory(h, procs[i], argv, All(procs'));
    if h.Valid() {
      forall q | q in procs' ensures OwnerKept(h, q) && Footprint(h, q) == old(Footprint(h, q)) {
        assert q in All(procs');
      }
      assert FootprintsOf(h, procs') == old(FootprintsOf(h, procs'));
      assert h.live == rest;
    }
  }

  // ----- whole runs

  /** Trails in a row are one trail. */
  lemma TrailJoins(
    h: Heap, base: Runs, one: seq<Allocation>, mid: Runs, two: seq<Allocation>, live: Runs)
    requires Trail(h, base, one, mid) && Trail(h, mid, two, live)
    ensures Trail(h, base, one + two, live) && Sizes(one + two) == Sizes(one) + Sizes(two)
  {
    hide TrailBlocks, BlocksFor, Heap.AddressBlock, Heap.BlockAddress;
    TrailBlocksJoin(h, one, two);
    forall a | a in one ensures AllocAt(h, live, a) && h.AddressBlock(a.ptr) in mid {
      InTrailBlocks(h, one, a);
    }
    forall j, k | 0 <= j < k < |one + two|
      ensures h.AddressBlock((one + two)[j].ptr) != h.AddressBlock((one + two)[k].ptr)
    {
      if j < |one| <= k {
        assert one[j] in one && two[k - |one|] in two;
        InTrailBlocks(h, one, one[j]);
        InTrailBlocks(h, two, two[k - |one|]);
      }
    }
  }

  /** The programs that a run loads, in order. */
  function Programs(steps: seq<Step>): seq<Program>
    decreases |steps|
  {
    if steps == [] then []
    else
      var front, last := Programs(steps[..|steps| - 1]), steps[|steps| - 1];
      if last.Load? then front + [last.program] else front
  }

  /** How each load ended and what it left. */
  predicate LossesOf(programs: seq<Program>, losses: seq<Loss>) {
    |losses| == |programs| && forall k :: 0 <= k < |losses| ==> Leaves(programs[k], losses[k])
  }

  function AllSizes(losses: seq<Loss>): seq<u32>
    decreases |losses|
  {
    if losses == [] then [] else AllSizes(losses[..|losses| - 1]) + losses[|losses| - 1].sizes
  }

  /** Why a run ends: all its steps are done, a load lacked the blocks of an address space, or the next step is an exit
      whose argument pointers are not safe. */
  datatype Stop = AllDone | LackedTables | UnsafeExit

  ghost predicate UnsafeStep(h: Heap, procs: seq<Owner>, step: Step)
    reads h, h.table, set q | q in procs :: q.allocations
  {
    && step.Exit? && step.who < |procs|
    && exists k :: 0 <= k < |step.argv|
         && !SafeAtEnd(h, h.table[..], h.live, Footprint(h, procs[step.who]), step.argv[k])
  }

  lemma EachIsOk(h: Heap, procs: seq<Owner>, i: nat)
    requires EachOk(h, procs) && i < |procs|
    ensures ProcessOk(h, procs[i]) && KernelHolds(h, procs[i])
  {
    hide ProcessOk, KernelHolds;
  }

  lemma LossGrows(programs: seq<Program>, losses: seq<Loss>, program: Program, loss: Loss)
    requires LossesOf(programs, losses) && Leaves(program, loss)
    ensures LossesOf(programs + [program], losses + [loss])
    ensures AllSizes(losses + [loss]) == AllSizes(losses) + loss.sizes
  {
    hide Leaves;
    assert (losses + [loss])[..|losses|] == losses;
  }

  lemma NoLosses()
    ensures LossesOf(Programs([]), []) && AllSizes([]) == []
  {
  }

  lemma NobodyLeft(h: Heap, procs: seq<Owner>, base: Runs)
    requires SystemOk(h, procs, base)
    ensures h.Valid() && (procs == [] ==> h.live == base)
  {
  }

  /** An exit of one of the processes, unless it is unsafe. */
  method TryExit(h: Heap, procs: seq<Owner>, who: nat, argv: seq<u32>, ghost base: Runs)
    returns (safe: bool, procs': seq<Owner>)
    requires SystemOk(h, procs, base)
    modifies h, h.table, h.memory, set q | q in procs :: q.allocations
    ensures SystemOk(h, procs', base) && forall q :: q in procs' ==> q in procs
    ensures !safe ==> procs' == procs && UnsafeStep(h, procs, Exit(who, argv))
    ensures safe && who < |procs| ==>
      procs' == Others(procs, who) && h.live == old(h.live) - old(Footprint(h, procs[who]))
      && forall q :: q in procs' ==> OwnerKept(h, q)
    ensures !safe || who >= |procs| ==> SceneOf(h, procs') == old(SceneOf(h, procs))
  {
    hide EachOk, Settled, FootprintsOf, Encodes, SafeAtEnd, ProcessOk, KernelHolds, FlatOf, Others, Footprint;
    if who < |procs| {
      OthersAre(procs, who);
    }
    safe, procs' := true, procs;
    if who < |procs| {
      EachIsOk(h, procs, who);
      safe := ExitIsSafe(h, procs[who], argv);
      if safe {
        procs' := ExitStep(h, procs, who, argv, base);
      }
    }
  }

  /** The same, as one scene after the other. */
  method ExitScene(h: Heap, procs: seq<Owner>, who: nat, argv: seq<u32>, ghost base: Runs)
    returns (safe: bool, procs': seq<Owner>)
    requires SystemOk(h, procs, base)
    modifies h, h.table, h.memory, set q | q in procs :: q.allocations
    ensures SystemOk(h, procs', base) && forall q :: q in procs' ==> q in procs
    ensures !safe ==> procs' == procs && UnsafeStep(h, procs, Exit(who, argv))
    ensures safe && who < |procs| ==>
      procs' == Others(procs, who) && h.live == old(h.live) - old(Footprint(h, procs[who]))
      && forall q :: q in procs' ==> OwnerKept(h, q)
    ensures !safe ==> SceneOf(h, procs') == old(SceneOf(h, procs))
    ensures safe ==> AfterStep(h, old(SceneOf(h, procs)), Exit(who, argv), SceneOf(h, procs'))
  {
    hide SystemOk, UnsafeStep, ProcessOk, FlatOf, Footprint, DependsOn, Others;
    ghost var before := SceneOf(h, procs);
    if who < |procs| {
      OthersDiffer(h, procs, who, base);
      FootprintDepends(h, procs[who]);
    }
    safe, procs' := TryExit(h, procs, who, argv, base);
    if safe && who < |procs| {
      SlotsWithout(h, before, procs, who);
      assert procs' == procs[..who] + procs[who + 1..] by {
        OthersMeans(procs, who);
      }
    }
  }

  lemma OthersMeans(procs: seq<Owner>, i: nat)
    requires i < |procs|
    ensures Others(procs, i) == procs[..i] + procs[i + 1..]
  {
  }

  lemma FootprintDepends(h: Heap, p: Owner)
    ensures Footprint(h, p) == DependsOn(h, p, p.allocations[..])
  {
  }

  lemma OthersDiffer(h: Heap, procs: seq<Owner>, i: nat, base: Runs)
    requires SystemOk(h, procs, base) && i < |procs|
    ensures forall q :: q in Others(procs, i) ==> q != procs[i] && q in procs
  {
    hide EachOk, Accounted, Others, Footprint;
    TakeOut(h, procs, i, base);
    OthersAre(procs, i);
    forall q | q in Others(procs, i) ensures q != procs[i] {
      assert q in All(Others(procs, i)) && Apart(h, procs[i], q);
    }
  }

  /** Without one process, with every other table the same. */
  lemma SlotsWithout(h: Heap, before: Scene, procs: seq<Owner>, i: nat)
    requires i < |procs| && before.slots.Keys == (set q | q in procs)
    requires forall q :: q in Others(procs, i) ==> q != procs[i] && q.allocations[..] == before.slots[q]
    ensures SceneOf(h, Others(procs, i)).slots == before.slots - {procs[i]}
  {
    hide Others;
    OthersAre(procs, i);
  }

  /** One allocation, as one scene after the other. */
  method MallocScene(h: Heap, procs: seq<Owner>, who: nat, size: u32, ghost base: Runs) returns (ptr: u32)
    requires SystemOk(h, procs, base)
    modifies h, h.table, h.memory, set q | q in procs :: q.allocations
    ensures SystemOk(h, procs, base)
    ensures AfterStep(h, old(SceneOf(h, procs)), Malloc(who, size), SceneOf(h, procs))
    ensures forall q :: q in procs && !(who < |procs| && q == procs[who]) ==> OwnerKept(h, q)
  {
    hide SystemOk, ProcessOk, FlatOf, Footprint, Take, NoRoom, NoSlot, Recorded, Others, BlocksFor, Heap.BlockAddress,
      Heap.AddressBlock;
    ptr := NULL;
    AreOk(h, procs, base);
    if who < |procs| {
      OthersAre(procs, who);
      ghost var before := SceneOf(h, procs);
      ptr := MallocStep(h, procs, who, size, base);
      SameOrOne(h, before, procs, procs[who]);
      if ptr != NULL {
        GrantedAt(before.table, size);
      }
    }
  }

  lemma GrantedAt(t: seq<Entry>, size: u32)
    requires !NoRoom(t, BlocksFor(size))
    ensures Place(t, size) == FirstFit(t, BlocksFor(size)) >= 0
  {
    hide BlocksFor;
    FirstFitMeaning(t, BlocksFor(size), 0);
  }

  /** While every other table is the same, a scene differs from one before in the table of one process at most. */
  lemma SameOrOne(h: Heap, before: Scene, procs: seq<Owner>, p: Owner)
    requires p in procs && before.slots.Keys == (set q | q in procs)
    requires forall q :: q in procs && q != p ==> q.allocations[..] == before.slots[q]
    ensures SceneOf(h, procs).slots == before.slots[p := p.allocations[..]]
    ensures p.allocations[..] == before.slots[p] ==> SceneOf(h, procs).slots == before.slots
  {
  }

  /** One free, as one scene after the other. */
  method FreeScene(h: Heap, procs: seq<Owner>, who: nat, ptr: u32, ghost base: Runs)
    requires SystemOk(h, procs, base)
    modifies h, h.table, h.memory, set q | q in procs :: q.allocations
    ensures SystemOk(h, procs, base)
    ensures AfterStep(h, old(SceneOf(h, procs)), Step.Free(who, ptr), SceneOf(h, procs))
    ensures forall q :: q in procs && !(who < |procs| && q == procs[who]) ==> OwnerKept(h, q)
  {
    hide SystemOk, ProcessOk, FlatOf, Footprint, Others, BlocksFor, Heap.BlockAddress, Heap.AddressBlock;
    AreOk(h, procs, base);
    if who < |procs| {
      OthersMembers(procs, who);
      ghost var before, p := SceneOf(h, procs), procs[who];
      ghost var slots := p.allocations[..];
      FreeStep(h, procs, who, ptr, base);
      SameOrOne(h, before, procs, p);
      if k: nat :| HeldAt(slots, ptr, k) {
        assert old(p.allocations[k].ptr) == ptr && p.allocations[..] == slots[k := Allocation(NULL, 0)];
      } else {
        forall k | 0 <= k < p.allocations.Length ensures ptr == NULL || old(p.allocations[k].ptr) != ptr {
          assert !HeldAt(slots, ptr, k);
        }
      }
    }
  }

  lemma LoadsAt(h: Heap, before: Scene, program: Program, after: Scene)
    requires Grown(before.live, after.live)
    requires forall q :: q in before.procs && q in before.slots ==>
      q in after.slots && after.slots[q] == before.slots[q]
    requires LoadOutcome(h, before.table, program).end != Loaded ==> after.procs == before.procs
    requires LoadOutcome(h, before.table, program).end == Loaded ==>
      && |after.procs| == |before.procs| + 1 && before.procs <= after.procs
      && after.procs[|before.procs|] in after.slots && AllEmpty(after.slots[after.procs[|before.procs|]])
    ensures AfterLoad(h, before, program, after)
  {
    hide Grown, LoadOutcome, AllEmpty;
  }

  /** The same, as a change of scene. */
  method LoadScene(h: Heap, procs: seq<Owner>, program: Program, ghost base: Runs)
    returns (end: LoadEnd, procs': seq<Owner>, ghost left: seq<Allocation>, ghost base': Runs)
    requires SystemOk(h, procs, base) && Contained(program)
    modifies h, h.table, h.memory
    ensures if end == Loaded then |procs'| == |procs| + 1 && procs <= procs' else procs' == procs
    ensures end == Loaded ==> AllEmpty(procs'[|procs|].allocations[..])
    ensures end == Loaded ==> h.table[..] == TakeAll(WithTask(old(h.table[..]), program), SpaceSizes())
    ensures Loss(end, Sizes(left)) == LoadOutcome(h, old(h.table[..]), program)
    ensures forall q :: q in procs' ==> q in procs || fresh(q.allocations)
    ensures forall q :: q in procs ==> OwnerKept(h, q)
    ensures SystemOk(h, procs', base') && Trail(h, base, left, base')
    ensures AfterStep(h, old(SceneOf(h, procs)), Load(program), SceneOf(h, procs'))
  {
    hide SystemOk, Contained, LoadOutcome, Trail, ProcessOk, FlatOf, AllEmpty, WithTask, TakeAll, SpaceSizes,
      ProgramInPlace, Grown, AfterLoad, Sizes;
    ghost var before := SceneOf(h, procs);
    end, procs', left, base' := LoadStep(h, procs, program, base);
    ghost var after := SceneOf(h, procs');
    forall q | q in procs ensures after.slots[q] == before.slots[q] {
      assert OwnerKept(h, q);
    }
    LoadsAt(h, before, program, after);
  }

  /** One load, added to what the run has lost so far. */
  method LoadAndCount(
    h: Heap, procs: seq<Owner>, program: Program, ghost base0: Runs, ghost left: seq<Allocation>, ghost base: Runs,
    ghost losses: seq<Loss>, ghost programs: seq<Program>)
    returns (
      end: LoadEnd, procs': seq<Owner>, ghost losses': seq<Loss>, ghost left': seq<Allocation>, ghost base': Runs)
    requires SystemOk(h, procs, base) && Contained(program)
    requires Trail(h, base0, left, base) && Sizes(left) == AllSizes(losses) && LossesOf(programs, losses)
    modifies h, h.table, h.memory
    ensures SystemOk(h, procs', base') && Trail(h, base0, left', base')
    ensures Sizes(left') == AllSizes(losses') && LossesOf(programs + [program], losses')
    ensures losses' != [] && losses'[|losses'| - 1].end == end
    ensures AfterStep(h, old(SceneOf(h, procs)), Load(program), SceneOf(h, procs'))
    ensures forall q :: q in procs' ==> q in procs || fresh(q.allocations)
  {
    hide SystemOk, Contained, Leaves, LoadOutcome, Trail, LossesOf, AllSizes, AllEmpty, WithTask, TakeAll, AfterStep,
      OwnerKept;
    OutcomeLeaves(h, h.table[..], program);
    ghost var more;
    end, procs', more, base' := LoadScene(h, procs, program, base);
    TrailJoins(h, base0, left, base, more, base');
    LossGrows(programs, losses, program, Loss(end, Sizes(more)));
    left', losses' := left + more, losses + [Loss(end, Sizes(more))];
  }

  /** From each scene to the next there is one step, and they are these, in order. */
  ghost predicate TraceOk(h: Heap, trace: seq<Scene>, steps: seq<Step>) {
    && |trace| == |steps| + 1
    && (forall k :: 0 <= k < |trace| ==> forall q :: q in trace[k].procs ==> q in trace[k].slots)
    && forall k :: 0 <= k < |steps| ==> AfterStep(h, trace[k], steps[k], trace[k + 1])
  }

  lemma TraceStarts(h: Heap, scene: Scene)
    requires forall q :: q in scene.procs ==> q in scene.slots
    ensures TraceOk(h, [scene], [])
  {
  }

  lemma TraceGrows(h: Heap, trace: seq<Scene>, steps: seq<Step>, step: Step, scene: Scene)
    requires TraceOk(h, trace, steps) && forall q :: q in scene.procs ==> q in scene.slots
    requires AfterStep(h, trace[|steps|], step, scene)
    ensures TraceOk(h, trace + [scene], steps + [step])
  {
    hide AfterStep;
    var trace', steps' := trace + [scene], steps + [step];
    forall k | 0 <= k < |steps'| ensures AfterStep(h, trace'[k], steps'[k], trace'[k + 1]) {
      assert k < |steps| ==> trace'[k] == trace[k] && steps'[k] == steps[k] && trace'[k + 1] == trace[k + 1];
    }
  }

  /** One step of a run: its effect, unless it is an exit that is not safe. */
  method RunStep(
    h: Heap, procs: seq<Owner>, step: Step, ghost base0: Runs, ghost left: seq<Allocation>, ghost base: Runs,
    ghost losses: seq<Loss>, ghost programs: seq<Program>)
    returns (
      stop: Stop, procs': seq<Owner>, ghost losses': seq<Loss>, ghost left': seq<Allocation>, ghost base': Runs)
    requires SystemOk(h, procs, base) && (step.Load? ==> Contained(step.program))
    requires Trail(h, base0, left, base) && Sizes(left) == AllSizes(losses) && LossesOf(programs, losses)
    modifies h, h.table, h.memory, set q | q in procs :: q.allocations
    ensures SystemOk(h, procs', base') && Trail(h, base0, left', base') && Sizes(left') == AllSizes(losses')
    ensures stop != UnsafeExit ==> AfterStep(h, old(SceneOf(h, procs)), step, SceneOf(h, procs'))
    ensures LossesOf(if step.Load? then programs + [step.program] else programs, losses')
    ensures stop == UnsafeExit ==>
      procs' == procs && UnsafeStep(h, procs, step) && SceneOf(h, procs') == old(SceneOf(h, procs)) && step.Exit?
    ensures stop == LackedTables ==> losses' != [] && losses'[|losses'| - 1].end == NoTables
    ensures forall q :: q in procs' ==> q in procs || fresh(q.allocations)
  {
    hide SystemOk, Contained, Trail, UnsafeStep, LossesOf, AllSizes, AfterStep, SceneOf, OwnerKept;
    stop, procs', losses', left', base' := AllDone, procs, losses, left, base;
    match step {
      case Load(program) =>
        var end;
        end, procs', losses', left', base' := LoadAndCount(h, procs, program, base0, left, base, losses, programs);
        stop := if end == NoTables then LackedTables else AllDone;
      case Malloc(who, size) => var _ := MallocScene(h, procs, who, size, base);
      case Free(who, ptr) => FreeScene(h, procs, who, ptr, base);
      case Exit(who, argv) =>
        var safe;
        safe, procs' := ExitScene(h, procs, who, argv, base);
        stop := if safe then AllDone else UnsafeExit;
    }
  }

  /** Every run of loads, mallocs, frees and exits, in any order, by any of the processes there are, with any sizes and
      pointers, keeps every process well formed, every two apart and all of live memory accounted for: it is what was
      live without the processes at the start, exactly the runs that each load left, and what the processes depend on.
      Each step has its own effect, and none is left out before the run stops. With no process before or after, the
      heap's table is restored, byte for byte, if and only if no load left anything. */
  method RunSystem(h: Heap, procs0: seq<Owner>, steps: seq<Step>, ghost base0: Runs)
    returns (
      procs: seq<Owner>, done: nat, stop: Stop, ghost losses: seq<Loss>, ghost left: seq<Allocation>, ghost base: Runs,
      ghost trace: seq<Scene>)
    requires SystemOk(h, procs0, base0)
    requires forall k :: 0 <= k < |steps| && steps[k].Load? ==> Contained(steps[k].program)
    modifies h, h.table, h.memory, set q | q in procs0 :: q.allocations
    ensures SystemOk(h, procs, base) && Trail(h, base0, left, base) && Sizes(left) == AllSizes(losses)
    ensures done <= |steps| && LossesOf(Programs(steps[..done]), losses)
    ensures stop == AllDone ==> done == |steps|
    ensures stop == LackedTables ==> losses != [] && losses[|losses| - 1].end == NoTables
    ensures stop == UnsafeExit ==> done < |steps| && UnsafeStep(h, procs, steps[done])
    ensures |trace| == done + 1 && trace[0] == old(SceneOf(h, procs0)) && trace[done] == SceneOf(h, procs)
    ensures TraceOk(h, trace, steps[..done])
    ensures procs == [] ==> h.live == base
    ensures procs0 == [] && procs == [] ==> (h.table[..] == old(h.table[..]) <==> AllSizes(losses) == [])
  {
    hide EachOk, Settled, FootprintsOf, Contained, Encodes, Trail, UnsafeStep, LossesOf, AllSizes, AfterStep, SceneOf,
      TraceOk;
    ghost var t := h.table[..];
    NobodyLeft(h, procs0, base0);
    NoTrail(h, base0);
    NoLosses();
    procs, done, stop, losses, left, base := procs0, 0, AllDone, [], [], base0;
    trace := [SceneOf(h, procs0)];
    TraceStarts(h, trace[0]);
    while done < |steps| && stop == AllDone
      invariant 0 <= done <= |steps| && SystemOk(h, procs, base)
      invariant Trail(h, base0, left, base) && Sizes(left) == AllSizes(losses)
      invariant LossesOf(Programs(steps[..done]), losses)
      invariant stop == LackedTables ==> losses != [] && losses[|losses| - 1].end == NoTables
      invariant stop == UnsafeExit ==> done < |steps| && UnsafeStep(h, procs, steps[done])
      invariant forall q :: q in procs ==> q in procs0 || fresh(q.allocations)
      invariant |trace| == done + 1 && trace[0] == old(SceneOf(h, procs0)) && trace[done] == SceneOf(h, procs)
      invariant TraceOk(h, trace, steps[..done])
      decreases |steps| - done, stop == AllDone
    {
      assert steps[..done + 1][..done] == steps[..done];
      stop, procs, losses, left, base :=
        RunStep(h, procs, steps[done], base0, left, base, losses, Programs(steps[..done]));
      if stop != UnsafeExit {
        TraceGrows(h, trace, steps[..done], steps[done], SceneOf(h, procs));
        assert steps[..done] + [steps[done]] == steps[..done + 1];
        trace, done := trace + [SceneOf(h, procs)], done + 1;
      }
    }
    NobodyLeft(h, procs, base);
    if procs0 == [] && procs == [] {
      RestoredExact(h, t, base0, left, base);
    }
  }

  /** A heap that has grown by a trail has its old table exactly when the trail is empty. */
  lemma RestoredExact(h: Heap, t: seq<Entry>, base: Runs, left: seq<Allocation>, live: Runs)
    requires h.Valid() && h.live == live && Trail(h, base, left, live) && Encodes(t, base) && |t| == h.table.Length
    ensures h.table[..] == t <==> Sizes(left) == []
  {
    hide Encodes, AllocAt, DifferentBlocks, Heap.AddressBlock;
    if left == [] {
      OnlyBase(h, base, live);
      EncodingUnique(h.table[..], t, base);
    } else {
      InTrailBlocks(h, left, left[0]);
      if h.table[..] == t {
        DecodingUnique(t, base, live);
        assert false;
      }
    }
  }

  // ----- isolation

  /** A run the process may use: one it holds, or its image or stack. */
  ghost function OwnRuns(h: Heap, p: Owner): set<nat>
    reads p.allocations
  {
    Holdings(h, p.allocations[..]) + p.reach.runs.Keys
  }

  ghost predicate OwnsPage(h: Heap, slots: seq<Allocation>, v: nat) {
    HeapPage(h, v) && Owns(h, slots, v - h.saddr / PAGE_SIZE)
  }

  /** A writable page leads to a block of a run the process may use; among the heap's addresses of a strict program, to
      itself. */
  lemma WritablePage(h: Heap, p: Owner, v: nat) returns (b: nat, q: nat)
    requires ProcessOk(h, p) && v < PAGES && IsWriteable(FlatOf(h, p.space)[v])
    ensures b in OwnRuns(h, p) && Covers(h.live, b, q) && q < h.table.Length
    ensures Frame(FlatOf(h, p.space)[v]) == h.BlockAddress(q)
    ensures HeapPage(h, v) && p.reach.strict ==> v == PageOf(h, q)
  {
    hide Encodes, SpaceIn, FlatOf, BlocksFor, IsWriteable, HeapPagesOk, HeapPage, Heap.AddressBlock,
      Heap.BlockAddress, Frame, Holds, OwnsPage;
    var pages, slots := FlatOf(h, p.space), p.allocations[..];
    if HeapPage(h, v) && (p.reach.strict || OwnsPage(h, slots, v)) {
      var k;
      k, q := WritableHeapPage(h, slots, p.reach, pages, v);
      b := h.AddressBlock(slots[k].ptr);
      SlotCovers(h, p, k, q);
    } else {
      ElsewhereReaches(h, slots, p.reach, pages, v);
      q :| LeadsTo(h, p.reach.runs, pages[v], q);
      b :| Covers(p.reach.runs, b, q);
      RunsInside(h, b);
    }
  }

  lemma WritableHeapPage(h: Heap, slots: seq<Allocation>, reach: Reach, pages: Flat, v: nat) returns (k: nat, q: nat)
    requires h.Region() && |pages| == PAGES && v < PAGES && HeapPagesOk(h, slots, reach, pages)
    requires HeapPage(h, v) && IsWriteable(pages[v]) && (reach.strict || OwnsPage(h, slots, v))
    ensures k < |slots| && Holds(h, slots[k], q) && q < h.table.Length
    ensures Frame(pages[v]) == h.BlockAddress(q) && v == PageOf(h, q)
  {
    hide IsWriteable, Frame, Holds, Heap.BlockAddress;
    q := v - h.saddr / PAGE_SIZE;
    assert Owns(h, slots, q);
    k :| 0 <= k < |slots| && Holds(h, slots[k], q);
    h.BlockAddressRoundTrip(q);
    assert h.BlockAddress(q) + USER_PAGE < TWO32;
    UserFrame(h.BlockAddress(q));
  }

  lemma ElsewhereReaches(h: Heap, slots: seq<Allocation>, reach: Reach, pages: Flat, v: nat)
    requires h.Region() && |pages| == PAGES && v < PAGES && PagesOk(h, slots, reach, pages) && IsWriteable(pages[v])
    requires HeapPage(h, v) ==> !reach.strict && !OwnsPage(h, slots, v)
    ensures ReachesRun(h, reach.runs, pages[v])
  {
    hide IsWriteable, ReachesRun, Owns, Heap.BlockAddress;
    if HeapPage(h, v) {
      var q: nat := v - h.saddr / PAGE_SIZE;
      assert v == PageOf(h, q);
    }
  }

  lemma SlotCovers(h: Heap, p: Owner, k: nat, q: nat)
    requires ProcessOk(h, p) && k < p.allocations.Length && Holds(h, p.allocations[k], q)
    ensures var b := h.AddressBlock(p.allocations[k].ptr); b in Holdings(h, p.allocations[..]) && Covers(h.live, b, q)
  {
    hide Encodes, SpaceIn, FlatOf, PagesOk, BlocksFor, Heap.AddressBlock, Heap.BlockAddress;
    var slots := p.allocations[..];
    assert slots[k] == p.allocations[k] && SlotOk(h, h.live, slots[k], p.space, p.kept);
  }

  lemma UserFrame(base: u32)
    requires base % PAGE_SIZE == 0 && base + USER_PAGE < TWO32
    ensures Frame(base + USER_PAGE) == base
  {
  }

  /** Isolation, for every address there is: what a process may write lies in a run it holds or in its image or stack,
      so in no page table, in no other process's memory, and in nothing else the kernel has allocated. */
  lemma WritesStayHome(h: Heap, procs: seq<Owner>, base: Runs, i: nat, va: u32) returns (b: nat, q: nat)
    requires SystemOk(h, procs, base) && i < |procs| && ProcessOk(h, procs[i]) && KernelHolds(h, procs[i])
    requires IsWriteable(FlatOf(h, procs[i].space)[va / PAGE_SIZE])
    ensures Translate(FlatOf(h, procs[i].space), va) == h.BlockAddress(q) + va % PAGE_SIZE
    ensures b in OwnRuns(h, procs[i]) && Covers(h.live, b, q)
    ensures forall c :: c in h.live && c != b ==> !Covers(h.live, c, q)
    ensures b !in base && b !in BlockSet(procs[i].space.blocks)
    ensures b != h.AddressBlock(procs[i].task) && (procs[i].file != NULL ==> b != h.AddressBlock(procs[i].file))
    ensures forall j :: 0 <= j < |procs| && j != i ==> b !in Footprint(h, procs[j])
  {
    hide Encodes, SpaceIn, FlatOf, PagesOk, EachOk, IsWriteable, Heap.AddressBlock, Heap.BlockAddress, Frame,
      Holdings;
    var p := procs[i];
    b, q := WritablePage(h, p, va / PAGE_SIZE);
    OwnRunsAreNoRecords(h, p);
    assert b in Footprint(h, p);
    forall c | c in h.live && c != b ensures !Covers(h.live, c, q) {
      h.LiveRunsApart(b, c);
    }
    var fps := FootprintsOf(h, procs);
    assert p in fps && b in fps[p] && Needed(fps, b);
    forall j | 0 <= j < |procs| && j != i ensures b !in Footprint(h, procs[j]) {
      assert ApartBy(fps, p, procs[j]) && procs[j] in procs;
    }
  }

  lemma OwnRunsAreNoRecords(h: Heap, p: Owner)
    requires ProcessOk(h, p) && KernelHolds(h, p)
    ensures OwnRuns(h, p) !! BlockSet(p.space.blocks) && OwnRuns(h, p) <= Footprint(h, p)
    ensures h.AddressBlock(p.task) !in OwnRuns(h, p) && (p.file != NULL ==> h.AddressBlock(p.file) !in OwnRuns(h, p))
  {
    hide Encodes, FlatOf, PagesOk, SpaceIn, BlocksFor, Heap.AddressBlock, Heap.BlockAddress;
    var slots := p.allocations[..];
    forall b | b in Holdings(h, slots) ensures b !in p.space.blocks && b !in p.kept {
      var k :| 0 <= k < |slots| && slots[k].ptr != NULL && b == h.AddressBlock(slots[k].ptr);
      assert SlotOk(h, h.live, slots[k], p.space, p.kept);
    }
  }

  // ----- what the code gets wrong

  lemma ApartInSystem(h: Heap, procs: seq<Owner>, base: Runs, i: nat, j: nat)
    requires SystemOk(h, procs, base) && i < |procs| && j < |procs| && i != j
    ensures procs[i] in Others(procs, j) && procs[j] in Others(procs, i) && procs[i].allocations != procs[j].allocations
  {
    hide EachOk, Others, Accounted;
    OthersAre(procs, i);
    OthersAre(procs, j);
    assert ApartBy(FootprintsOf(h, procs), procs[i], procs[j]);
    assert procs[j] == Others(procs, i)[if j < i then j else j - 1];
    assert procs[i] == Others(procs, j)[if i < j then i else i - 1];
  }

  lemma OwnIsLive(h: Heap, procs: seq<Owner>, base: Runs, i: nat)
    requires SystemOk(h, procs, base) && i < |procs|
    ensures Footprint(h, procs[i]) <= h.live.Keys
  {
    hide ProcessOk, KernelHolds, Footprint, Settled;
    FootprintIsLive(h, procs[i]);
  }

  lemma SameTable(h: Heap, t: seq<Entry>, runs: Runs)
    requires h.Valid() && h.live == runs && |t| == h.table.Length && Encodes(t, runs)
    ensures h.table[..] == t
  {
    EncodingUnique(h.table[..], t, runs);
  }

  /** A pointer to a run in use that the process does not depend on is not safe. */
  lemma StaleIsUnsafe(h: Heap, own: set<nat>, ptr: u32)
    requires h.Valid() && ptr != NULL && h.AddressBlock(ptr) in h.live && h.AddressBlock(ptr) !in own
    ensures !SafeAtEnd(h, h.table[..], h.live, own, ptr)
  {
    hide Encodes, Heap.AddressBlock;
    var b := h.AddressBlock(ptr);
    RunsInside(h, b);
    assert Covers(h.live, b, b);
    OnlyCover(h, own, b, b);
  }

  /** Two processes and an argument string: the first frees it, the second is given the same block, and the first ends.
      Its end frees the string once more, and no runs that include the second's fit the heap's table any more. */
  method StaleString(h: Heap, procs: seq<Owner>, i: nat, j: nat, size: u32, ghost base: Runs) returns (ptr: u32)
    requires SystemOk(h, procs, base) && i < |procs| && j < |procs| && i != j
    requires !NoRoom(h.table[..], BlocksFor(size))
    requires !NoSlot(procs[i].allocations[..]) && !NoSlot(procs[j].allocations[..])
    modifies h, h.table, h.memory, procs[i].allocations, procs[j].allocations
    ensures !h.Valid() && forall runs ::
      Keeps(old(h.live)[h.AddressBlock(ptr) := BlocksFor(size)], old(Footprint(h, procs[i])), runs) ==>
        !Encodes(h.table[..], runs)
  {
    hide EachOk, Settled, FootprintsOf, Encodes, SafeAtEnd, Footprint, Others, NoRoom, NoSlot, FirstFit, Keeps,
      BlocksFor, ProcessOk, FlatOf, Heap.AddressBlock, Heap.BlockAddress;
    ghost var t, live, own := h.table[..], h.live, Footprint(h, procs[i]);
    ApartInSystem(h, procs, base, i, j);
    OwnIsLive(h, procs, base, i);
    ptr := MallocStep(h, procs, i, size, base);
    assert procs[j].allocations[..] == old(procs[j].allocations[..]);
    ghost var k: nat :| Recorded(old(procs[i].allocations[..]), procs[i].allocations[..], k, Allocation(ptr, size));
    assert procs[i].allocations[..][k] == procs[i].allocations[k];
    FreeStep(h, procs, i, ptr, base);
    assert procs[j].allocations[..] == old(procs[j].allocations[..]);
    assert h.live == live && Footprint(h, procs[i]) == own;
    FootprintOf(h, procs[i], procs[i].allocations[..]);
    SameTable(h, t, live);
    ghost var slots := procs[i].allocations[..];
    var again := MallocStep(h, procs, j, size, base);
    assert again == ptr;
    assert procs[i].allocations[..] == slots;
    FootprintOf(h, procs[i], slots);
    StaleIsUnsafe(h, own, ptr);
    ghost var table, now := h.table[..], h.live;
    var argv := [ptr];
    assert !SafeAtEnd(h, table, now, own, argv[0]);
    var left := ExitStep(h, procs, i, argv, base);
  }

  /** One load and one exit: however the load went, what it left stays. A program that is loaded and ends leaves its
      descriptor and its file loss, so the table is not what it was before. */
  method LoadThenExit(h: Heap, program: Program) returns (end: LoadEnd, ghost left: seq<Allocation>)
    requires h.Valid() && Contained(program)
    modifies h, h.table, h.memory
    ensures h.Valid() && Trail(h, old(h.live), left, h.live)
    ensures Loss(end, Sizes(left)) == LoadOutcome(h, old(h.table[..]), program)
    ensures end == Loaded ==>
      Sizes(left) == [TASK_STRUCT_SIZE] + FileLoss(program) && h.table[..] != old(h.table[..])
  {
    hide EachOk, Settled, FootprintsOf, Contained, Encodes, LoadOutcome, Trail, FileLoss, SafeAtEnd, OwnerKept,
      AllEmpty, WithTask;
    OutcomeLeaves(h, h.table[..], program);
    ghost var t, base, base' := h.table[..], h.live, h.live;
    NobodyYet(h);
    var procs;
    end, procs, left, base' := LoadStep(h, [], program, base);
    if end == Loaded {
      procs := ExitStep(h, procs, 0, [], base');
      assert procs == [];
    }
    NobodyLeft(h, procs, base');
    RestoredExact(h, t, base, left, h.live);
  }

  lemma NobodyYet(h: Heap)
    requires h.Valid()
    ensures SystemOk(h, [], h.live)
  {
  }

  /** The kernel's own heap, before any process: a run may start from there, and every program whose pages lie below it
      is clear of it. */
  method Boot() returns (h: Heap)
    ensures fresh(h) && fresh(h.table) && fresh(h.memory)
    ensures SystemOk(h, [], map[]) && ClearOfHeap(h, KERNEL_PROGRAM_VIRTUAL_STACK_ADDRESS_END,
      KERNEL_USER_PROGRAM_STACK_SIZE)
  {
    h := Heap.KheapInit();
  }
}
