/**
  Reading a program's file into the heap (fs/elfloader.c, kernel/sched.c): the image, and what is left behind when it
  has been read or has not.
 */
module FileLoad {
  import opened Machine
  import opened HeapTable
  import opened KernelHeap
  import opened Paging
  import opened ProcessMemory
  import opened ElfLoader
  import opened ProgramPages
  import opened KernelRuns

  const EINFORMATS: i32 := -9

  // ----- when a program's file can be read, and what it takes

  /** What the first reading of a program's file takes, record first and image last, and the second one of a file that
      is no ELF. */
  function FirstReading(program: Program): (sizes: seq<u32>)
    ensures |sizes| >= 6
  {
    [ELF_FILE_SIZE] + PathLoss(program.opening) + OPEN_FILE + [program.size]
  }

  function SecondReading(program: Program): (sizes: seq<u32>)
    ensures |sizes| >= 5
  {
    PathLoss(program.opening) + OPEN_FILE + [program.size]
  }

  /** The table after the first reading of a file that is no ELF: its image, the open file and the record are given
      back, and its path is not. */
  function AfterFirst(t: seq<Entry>, program: Program): seq<Entry> {
    var places := Places(t, FirstReading(program));
    var n := |places|;
    FreedAll(TakeAll(t, FirstReading(program)), [places[n - 1]] + places[n - 5..n - 1] + [places[0]])
  }

  /** The table after the second one, which gives back the open file alone. */
  function AfterSecond(t: seq<Entry>, program: Program): seq<Entry> {
    var places := Places(t, SecondReading(program));
    var n := |places|;
    FreedAll(TakeAll(t, SecondReading(program)), places[n - 5..n - 1])
  }

  /** The file is there, can be read, and there is room for the first reading of it. */
  ghost predicate FirstReads(t: seq<Entry>, program: Program) {
    program.opening.found && program.opening.readable && AllFit(t, FirstReading(program))
  }

  /** Whether a program's file is read: an ELF file needs PT_LOAD headers only, any other room for a second reading. */
  ghost predicate Reads(t: seq<Entry>, program: Program) {
    && FirstReads(t, program)
    && if program.Elf? then AllLoad(program.phdrs) else AllFit(AfterFirst(t, program), SecondReading(program))
  }

  /** The table once it has been read, and where its image lies. */
  function TableRead(t: seq<Entry>, program: Program): seq<Entry> {
    if program.Elf? then TakeAll(t, FirstReading(program)) else AfterSecond(AfterFirst(t, program), program)
  }

  function ImagePlace(t: seq<Entry>, program: Program): nat {
    if program.Elf? then Places(t, FirstReading(program))[|FirstReading(program)| - 1]
    else Places(AfterFirst(t, program), SecondReading(program))[|SecondReading(program)| - 1]
  }

  /** An image that cannot be read is lost. */
  ghost function Unreadable(t: seq<Entry>, program: Program): seq<u32> {
    if !NoRoom(t, BlocksFor(program.size)) && !program.opening.readable then [program.size] else []
  }

  /** What a first reading that fails loses, and a second one. */
  ghost function FirstLoss(t: seq<Entry>, program: Program): seq<u32> {
    var o, t' := program.opening, Take(t, ELF_FILE_SIZE);
    if NoRoom(t, BlocksFor(ELF_FILE_SIZE)) then []
    else if !(o.found && AllFit(t', PathLoss(o) + OPEN_FILE)) then OpenLoss(t', o)
    else PathLoss(o) + Unreadable(TakeAll(t', PathLoss(o) + OPEN_FILE), program)
  }

  ghost function SecondLoss(t: seq<Entry>, program: Program): seq<u32> {
    var o := program.opening;
    if o.found && AllFit(t, PathLoss(o) + OPEN_FILE) then PathLoss(o) else OpenLoss(t, o)
  }

  /** What a program's file that is not read loses. */
  ghost function ReadLoss(t: seq<Entry>, program: Program): seq<u32> {
    if program.Elf? || !FirstReads(t, program) then FirstLoss(t, program)
    else PathLoss(program.opening) + SecondLoss(AfterFirst(t, program), program)
  }

  // ----- reading the program's file

  /** `elf_load`: an ELF file that is read keeps its record and its image and stays open; otherwise the record is given
      back, and the image too unless it could not be read. */
  method ElfLoad(h: Heap, program: Program, ghost base: Runs, ghost trail: seq<Allocation>, ghost procs: set<Owner>)
    returns (res: i32, record: u32, image: u32, file: ElfFile?, ghost left: seq<Allocation>)
    requires Loading(h, base, trail, procs) && AllOk(h, procs)
    modifies h, h.table, h.memory
    ensures res <= OK && (res == OK <==> program.Elf? && Reads(old(h.table[..]), program))
    ensures res == EINFORMATS <==> program.Binary? && FirstReads(old(h.table[..]), program)
    ensures res == OK ==> record != NULL && file != null && fresh(file) && file.elfMemory == image
    ensures res == OK ==> Sizes(left) == FileLoss(program)
    ensures res == OK ==>
      Loading(h, base, trail + [Allocation(record, ELF_FILE_SIZE)] + left + [Allocation(image, program.size)], procs)
    ensures res == OK ==>
      h.table[..] == TableRead(old(h.table[..]), program)
      && image == h.BlockAddress(ImagePlace(old(h.table[..]), program))
    ensures res == EINFORMATS ==> h.table[..] == AfterFirst(old(h.table[..]), program)
    ensures res != OK ==> Sizes(left) == FirstLoss(old(h.table[..]), program) && Loading(h, base, trail + left, procs)
    ensures RowsKept(h, base) && forall q :: q in procs ==> OwnerKept(h, q)
  {
    hide Loading, ProcessOk, FlatOf, PathLoss, AllLoad, TakeAll, AllFit, Places, Place, Take, NoRoom, FreedAll,
      BlocksFor, BlocksOf, OpenLoss, Heap.BlockAddress, Heap.AddressBlock;
    ghost var t := h.table[..];
    FirstInParts(t, program);
    AfterFirstIs(t, program);
    image, file, left := NULL, null, [];
    ghost var grown;
    record, grown := Kzalloc(h, ELF_FILE_SIZE, base, trail, procs);
    if record == NULL {
      assert trail + left == trail;
      return ENOMEM, record, image, file, left;
    }
    ghost var rec := Allocation(record, ELF_FILE_SIZE);
    var ok, fd;
    ok, fd, left := FileOpen(h, program.opening, base, trail + [rec], procs);
    if !ok {
      Kfree(h, record, base, trail, rec, left, procs);
      return EIO, record, image, file, left;
    }
    res, image, file, left := ElfRead(h, program, record, fd, base, trail, left, procs);
  }

  /** The first reading is the record, the opening and the image. */
  lemma FirstInParts(t: seq<Entry>, program: Program)
    ensures var o, t1 := program.opening, Take(t, ELF_FILE_SIZE);
      var t2, first := TakeAll(t1, PathLoss(o) + OPEN_FILE), FirstReading(program);
      && TakeAll(t, first) == Take(t2, program.size)
      && (AllFit(t, first) <==>
        !NoRoom(t, BlocksFor(ELF_FILE_SIZE)) && AllFit(t1, PathLoss(o) + OPEN_FILE)
        && !NoRoom(t2, BlocksFor(program.size)))
      && Places(t, first) ==
        [Place(t, ELF_FILE_SIZE)] + Places(t1, PathLoss(o) + OPEN_FILE) + [Place(t2, program.size)]
  {
    hide PathLoss, Take, Place, NoRoom, BlocksFor, TakeAll, AllFit, Places;
    var one, two := [ELF_FILE_SIZE], PathLoss(program.opening) + OPEN_FILE;
    assert FirstReading(program) == (one + two) + [program.size] && [] + one == one;
    TakeNone(t);
    TakeNext(t, [], ELF_FILE_SIZE);
    TakeJoins(t, one, two);
    TakeNext(t, one + two, program.size);
  }

  /** What a first reading that ends for want of an ELF file gives back: image, open file and record. */
  lemma AfterFirstIs(t: seq<Entry>, program: Program)
    ensures var o, t1 := program.opening, Take(t, ELF_FILE_SIZE);
      var t2, fd := TakeAll(t1, PathLoss(o) + OPEN_FILE), Places(t1, PathLoss(o) + OPEN_FILE)[|PathLoss(o)|..];
      AfterFirst(t, program) ==
        FreedAll(Take(t2, program.size), [Place(t2, program.size)] + fd + [Place(t, ELF_FILE_SIZE)])
  {
    hide PathLoss, Take, Place, NoRoom, BlocksFor, TakeAll, AllFit, Places, FreedAll;
    FirstInParts(t, program);
    var o, t1, places := program.opening, Take(t, ELF_FILE_SIZE), Places(t, FirstReading(program));
    var both, n := Places(t1, PathLoss(o) + OPEN_FILE), |places|;
    assert places[n - 5..n - 1] == both[|PathLoss(o)|..];
  }

  /** The second is the opening and the image. */
  lemma SecondInParts(t: seq<Entry>, program: Program)
    ensures var opening := PathLoss(program.opening) + OPEN_FILE;
      var t', second := TakeAll(t, opening), SecondReading(program);
      && TakeAll(t, second) == Take(t', program.size)
      && (AllFit(t, second) <==> AllFit(t, opening) && !NoRoom(t', BlocksFor(program.size)))
      && Places(t, second) == Places(t, opening) + [Place(t', program.size)]
      && AfterSecond(t, program) ==
        FreedAll(Take(t', program.size), Places(t, opening)[|PathLoss(program.opening)|..])
  {
    hide PathLoss, Take, Place, NoRoom, BlocksFor, TakeAll, AllFit, Places, FreedAll;
    var opening := PathLoss(program.opening) + OPEN_FILE;
    TakeNext(t, opening, program.size);
    var places := Places(t, SecondReading(program));
    assert places[|places| - 5..|places| - 1] == Places(t, opening)[|PathLoss(program.opening)|..];
  }

  /** There is room for the image, and it can be read. */
  ghost predicate Readable(t: seq<Entry>, program: Program) {
    !NoRoom(t, BlocksFor(program.size)) && program.opening.readable
  }

  /** The second half of `elf_load`, with the file open. */
  method ElfRead(
    h: Heap, program: Program, record: u32, fd: seq<u32>, ghost base: Runs, ghost trail: seq<Allocation>,
    ghost lost: seq<Allocation>, ghost procs: set<Owner>)
    returns (res: i32, image: u32, file: ElfFile?, ghost left: seq<Allocation>)
    requires Sizes(lost) == PathLoss(program.opening) && |fd| == |OPEN_FILE| && AllOk(h, procs)
    requires Loading(h, base, trail + [Allocation(record, ELF_FILE_SIZE)] + lost + Allocs(fd, OPEN_FILE), procs)
    modifies h, h.table, h.memory
    ensures res <= OK && (res == OK <==> Readable(old(h.table[..]), program) && program.Elf? && AllLoad(program.phdrs))
    ensures res == EINFORMATS <==> Readable(old(h.table[..]), program) && program.Binary?
    ensures res == OK ==>
      h.table[..] == Take(old(h.table[..]), program.size)
      && image == h.BlockAddress(Place(old(h.table[..]), program.size))
    ensures res == EINFORMATS ==>
      h.table[..] == FreedAll(Take(old(h.table[..]), program.size),
        [Place(old(h.table[..]), program.size)] + BlocksOf(h, fd) + [h.AddressBlock(record)])
    ensures res == OK ==> file != null && fresh(file) && file.elfMemory == image && Sizes(left) == FileLoss(program)
    ensures res == OK ==>
      Loading(h, base, trail + [Allocation(record, ELF_FILE_SIZE)] + left + [Allocation(image, program.size)], procs)
    ensures res != OK ==> Loading(h, base, trail + left, procs)
    ensures res != OK ==>
      Sizes(left) == PathLoss(program.opening) + Unreadable(old(h.table[..]), program)
    ensures RowsKept(h, base) && forall q :: q in procs ==> OwnerKept(h, q)
  {
    hide Loading, ProcessOk, FlatOf, PathLoss, AllLoad, Freed, FreedAll, Take, Place, NoRoom, BlocksFor, BlocksOf,
      Heap.BlockAddress, Heap.AddressBlock;
    ghost var t := Take(h.table[..], program.size);
    NothingFreed(t);
    ghost var rec, open := Allocation(record, ELF_FILE_SIZE), Allocs(fd, OPEN_FILE);
    ghost var front, grown := trail + [rec] + lost, [];
    file, left := null, lost;
    image, grown := Kzalloc(h, program.size, base, front + open, procs);
    ghost var img := Allocation(image, program.size);
    ghost var rest := if image == NULL then [] else [img];
    assert front + open + rest == grown;
    res := if image == NULL then ENOMEM else if !program.opening.readable then EIO else OK;
    if res == OK {
      if program.Elf? {
        file := new ElfFile(image);
        res := file.ProcessPheaders(program.phdrs);
      } else {
        res := EINFORMATS;
      }
      if res < 0 {
        assert front + open + [img] + [] == front + open + [img];
        Kfree(h, image, base, front + open, img, [], procs);
        rest := [];
        assert front + open + [] == front + open + rest;
        FreedAllStep(t, [], h.AddressBlock(image));
        FreedAllJoins(t, [h.AddressBlock(image)], BlocksOf(h, fd));
        FreedAllStep(t, [h.AddressBlock(image)] + BlocksOf(h, fd), h.AddressBlock(record));
        assert [] + [h.AddressBlock(image)] == [h.AddressBlock(image)];
      }
    }
    if res < 0 {
      FileClose(h, fd, base, front, rest, procs);
      assert front + rest == trail + [rec] + (lost + rest);
      Kfree(h, record, base, trail, rec, lost + rest, procs);
      left := lost + rest;
      assert Sizes(left) == PathLoss(program.opening) + Sizes(rest);
    } else {
      left := lost + open;
      assert Sizes(left) == FileLoss(program);
      assert trail + [rec] + left + [img] == front + open + rest;
    }
  }

  /** `process_load_bin`: opens the file a second time, and closes it. */
  method BinLoad(h: Heap, program: Program, ghost base: Runs, ghost trail: seq<Allocation>, ghost procs: set<Owner>)
    returns (res: i32, image: u32, ghost left: seq<Allocation>)
    requires Loading(h, base, trail, procs) && AllOk(h, procs)
    modifies h, h.table, h.memory
    ensures var o := program.opening;
      res <= OK && (res == OK <==> o.found && o.readable && AllFit(old(h.table[..]), SecondReading(program)))
    ensures res == OK ==> Sizes(left) == PathLoss(program.opening)
    ensures res == OK ==> Loading(h, base, trail + left + [Allocation(image, program.size)], procs)
    ensures res == OK ==>
      && h.table[..] == AfterSecond(old(h.table[..]), program)
      && image == h.BlockAddress(Places(old(h.table[..]), SecondReading(program))[|SecondReading(program)| - 1])
    ensures res != OK ==> Loading(h, base, trail + left, procs)
    ensures res != OK ==> Sizes(left) == SecondLoss(old(h.table[..]), program)
    ensures RowsKept(h, base) && forall q :: q in procs ==> OwnerKept(h, q)
  {
    hide Loading, ProcessOk, FlatOf, PathLoss, TakeAll, AllFit, Places, Place, Take, NoRoom, FreedAll, BlocksFor,
      BlocksOf, OpenLoss, Heap.BlockAddress, Heap.AddressBlock;
    ghost var t := h.table[..];
    SecondInParts(t, program);
    image := NULL;
    var ok, fd;
    ok, fd, left := FileOpen(h, program.opening, base, trail, procs);
    if !ok {
      return EIO, image, left;
    }
    ghost var front, open, grown := trail + left, Allocs(fd, OPEN_FILE), [];
    image, grown := Kzalloc(h, program.size, base, front + open, procs);
    ghost var img := Allocation(image, program.size);
    ghost var rest := if image == NULL then [] else [img];
    assert front + open + rest == grown;
    res := if image == NULL then ENOMEM else if !program.opening.readable then EIO else OK;
    if res < 0 && image != NULL {
      assert front + open + [img] + [] == front + open + [img];
      Kfree(h, image, base, front + open, img, [], procs);
      rest := [];
      assert front + open + [] == front + open + rest;
    }
    FileClose(h, fd, base, front, rest, procs);
    assert rest == [] ==> front + rest == front;
  }

  /** The record of an ELF file as an allocation; a binary has none. */
  ghost function Record(record: u32): seq<Allocation> {
    if record == NULL then [] else [Allocation(record, ELF_FILE_SIZE)]
  }

  /** `process_load_data`: as ELF, and if the file is none, as it is. */
  method LoadData(h: Heap, program: Program, ghost base: Runs, ghost trail: seq<Allocation>, ghost procs: set<Owner>)
    returns (res: i32, record: u32, image: u32, file: ElfFile?, ghost left: seq<Allocation>)
    requires Loading(h, base, trail, procs) && AllOk(h, procs)
    modifies h, h.table, h.memory
    ensures res <= OK && (res == OK <==> Reads(old(h.table[..]), program))
    ensures res == OK ==>
      h.table[..] == TableRead(old(h.table[..]), program)
      && image == h.BlockAddress(ImagePlace(old(h.table[..]), program))
    ensures res == OK && program.Elf? ==> record != NULL && file != null && fresh(file) && file.elfMemory == image
    ensures res == OK && program.Binary? ==> record == NULL
    ensures res == OK ==> Sizes(left) == FileLoss(program)
    ensures res == OK ==>
      Loading(h, base, trail + Record(record) + left + [Allocation(image, program.size)], procs)
    ensures res != OK ==> Sizes(left) == ReadLoss(old(h.table[..]), program) && Loading(h, base, trail + left, procs)
    ensures RowsKept(h, base) && forall q :: q in procs ==> OwnerKept(h, q)
  {
    hide Loading, ProcessOk, FlatOf, PathLoss, AllLoad, TakeAll, AllFit, Places, FreedAll, OpenLoss, AfterFirst,
      AfterSecond, FirstReading, SecondReading, Take, NoRoom, BlocksFor, Heap.BlockAddress;
    FirstInParts(h.table[..], program);
    res, record, image, file, left := ElfLoad(h, program, base, trail, procs);
    if res == EINFORMATS {
      ghost var first, more := left, [];
      record, file := NULL, null;
      res, image, more := BinLoad(h, program, base, trail + first, procs);
      left := first + more;
      assert Sizes(left) == Sizes(first) + Sizes(more);
      assert Sizes(first) == PathLoss(program.opening) + [] == PathLoss(program.opening);
      assert trail + left == trail + first + more && trail + Record(record) + left == trail + first + more;
    }
  }
}
