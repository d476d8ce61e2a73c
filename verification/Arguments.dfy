/**
  From a command line in the shell to a program that runs with its words as argc and argv (programs/stdlib,
  kernel/isr80h.c, kernel/sched.c).
 */
module Arguments {
  import opened Machine
  import opened HeapTable
  import opened KernelHeap
  import opened Paging
  import opened AddressSpace
  import opened ProcessMemory
  import opened ProgramPages
  import opened KernelRuns
  import opened ProcessLife
  import opened SystemRuns
  import opened Injection
  import opened Words
  import opened CommandLine

  /** How a command ends: it has no word, its program is not loaded, its arguments find no room, which leaves the
      program loaded, or it runs. */
  datatype CommandEnd = NoWord | NotLoaded(end: LoadEnd) | NoRoomForArguments | Runs

  /** The process holds a vector whose words lead to one string each, and the strings are these, in order. */
  ghost predicate HasArguments(h: Heap, p: Owner, argc: nat, vector: u32, ptrs: seq<u32>, texts: seq<string>)
    reads h, h.memory, p.allocations
  {
    && argc == |texts| == |ptrs| && 4 * argc < TWO32
    && VectorFits(h, vector, argc) && Injection.Filled(h, vector, argc, ptrs, texts)
    && HoldsTrail(h, p, VectorTrail(vector, argc, ptrs))
  }

  /** What the program that was given arguments finds at argv: it reaches argv[i], which is the pointer to string i,
      and it reaches every byte of that string, its NUL included. */
  lemma ProgramReads(
    h: Heap, procs: seq<Owner>, base: Runs, p: Owner, argc: nat, vector: u32, ptrs: seq<u32>, texts: seq<string>,
    i: nat, m: nat)
    requires SystemOk(h, procs, base) && p in procs && HasArguments(h, p, argc, vector, ptrs, texts)
    requires i < argc && m <= |texts[i]| < 4096
    ensures vector + 4 * i + 3 < TWO32
    ensures forall a: u32 :: vector + 4 * i <= a <= vector + 4 * i + 3 ==> UserReaches(h, p, a, true, a)
    ensures PointerThere(h, vector + 4 * i, ptrs[i])
    ensures ptrs[i] + m < TWO32 && UserReaches(h, p, ptrs[i] + m, true, ptrs[i] + m) && h.Region()
    ensures h.saddr <= ptrs[i] + m < h.saddr + h.table.Length * 4096
      && ByteThere(h, ptrs[i] + m) == if m < |texts[i]| then texts[i][m] as int % 256 else 0
  {
    hide SystemOk, ProcessOk, HoldsTrail, UserReaches, ByteThere, PointerThere, TextAt, WordAt, Heap.AddressBlock,
      Heap.BlockAddress;
    AreOk(h, procs, base);
    var trail := VectorTrail(vector, argc, ptrs);
    assert trail[0] == Allocation(vector, 4 * argc) && trail[1 + i] == Allocation(ptrs[i], STRING_SIZE);
    HoldsOf(h, p, trail, trail[0]);
    HoldsOf(h, p, trail, trail[1 + i]);
    WordThere(h, vector, i);
    TextThere(h, ptrs[i], texts[i], m);
    forall a: u32 | vector + 4 * i <= a <= vector + 4 * i + 3 ensures UserReaches(h, p, a, true, a) {
      HoldingReached(h, p, h.AddressBlock(vector), a);
    }
    HoldingReached(h, p, h.AddressBlock(ptrs[i]), ptrs[i] + m);
  }

  /** What it holds are runs, by their pointers. */
  lemma HoldsOf(h: Heap, p: Owner, trail: seq<Allocation>, a: Allocation)
    requires ProcessOk(h, p) && HoldsTrail(h, p, trail) && a in trail
    ensures var b := h.AddressBlock(a.ptr);
      && h.Region() && b in h.live && b + h.live[b] <= h.table.Length && h.live[b] > 0
      && b in Holdings(h, p.allocations[..]) && a.ptr == h.BlockAddress(b) == h.saddr + b * 4096
  {
    hide FlatOf, SpaceIn, PagesOk, Heap.AddressBlock, Heap.BlockAddress;
    HoldingReached(h, p, h.AddressBlock(a.ptr), 0);
    h.BlockAddressRoundTrip(h.AddressBlock(a.ptr));
  }

  lemma AllSlotsFree(slots: seq<Allocation>)
    requires AllEmpty(slots)
    ensures |FreeSlots(slots)| == KERNEL_MAX_PROGRAM_ALLOCATIONS
  {
    assert FreeSlots(slots) == Blocks(0, 1024);
  }

  /** The list is none of the memory of the kernel's programs. */
  ghost predicate ListApart(h: Heap, procs: seq<Owner>, nodes: seq<ArgNode>) {
    forall n :: n in nodes ==> n.argument as object != h.table && forall q :: q in procs ==>
      n.argument as object != q.allocations
  }

  lemma RestAccounts(h: Heap, p: Owner)
    requires ProcessOk(h, p)
    ensures Accounts(h, Rest(h, p), Footprint(h, p))
  {
    hide ProcessOk, Footprint;
    FootprintIsLive(h, p);
  }

  /** `process_inject_argument` into process i of a system. */
  method InjectStep(
    h: Heap, procs: seq<Owner>, i: nat, root: ArgNode?, ghost nodes: seq<ArgNode>, ghost texts: seq<string>,
    ghost base: Runs)
    returns (res: i32, argc: nat, vector: u32, ghost ptrs: seq<u32>)
    requires SystemOk(h, procs, base) && i < |procs| && 4 * |texts| < TWO32
    requires Chained(nodes) && CommandLine.Holds(nodes, texts) && root == (if nodes == [] then null else nodes[0])
    requires ListApart(h, procs, nodes)
    modifies h, h.table, h.memory, procs[i].allocations
    ensures SystemOk(h, procs, base) && forall q :: q in Others(procs, i) ==> OwnerKept(h, q)
    ensures res == OK <==> CanInject(old(h.table[..]), old(procs[i].allocations[..]), |texts|)
    ensures res == OK ==> HasArguments(h, procs[i], argc, vector, ptrs, texts)
    ensures res != OK ==> h.live == old(h.live) && h.table[..] == old(h.table[..])
  {
    hide ProcessOk, KernelHolds, FlatOf, Encodes, Holdings, BlockSet, Settled, BlocksFor, CanInject, VectorFits,
      Injection.Filled, HoldsTrail, Trail, HoldsAt, Rest, Heap.AddressBlock, Heap.BlockAddress;
    ghost var p, others, rest := procs[i], Others(procs, i), Rest(h, procs[i]);
    TakeOut(h, procs, i, base);
    EachIsOk(h, procs, i);
    OthersMembers(procs, i);
    res, argc, vector, ptrs := InjectArguments(h, procs[i], root, nodes, texts, All(others));
    forall q | q in others ensures OwnerKept(h, q) && Footprint(h, q) == old(Footprint(h, q)) {
      assert q in All(others);
    }
    assert FootprintsOf(h, others) == old(FootprintsOf(h, others));
    RestAccounts(h, p);
    PutIn(h, procs, i, base, rest);
  }

  // ----- system command 7

  /** The table once a program has been loaded. */
  function TableLoaded(t: seq<Entry>, program: Program): seq<Entry> {
    TakeAll(WithTask(t, program), SpaceSizes())
  }

  /** How a command with these words ends. */
  ghost function EndOfCommand(h: Heap, t: seq<Entry>, program: Program, texts: seq<string>): CommandEnd {
    if texts == [] || texts[0] == [] then NoWord
    else if LoadOutcome(h, t, program).end != Loaded then NotLoaded(LoadOutcome(h, t, program).end)
    else if |texts| < KERNEL_MAX_PROGRAM_ALLOCATIONS && 4 * |texts| < TWO32
      && AllFit(TableLoaded(t, program), InjectionSizes(|texts|, |texts|))
    then Runs
    else NoRoomForArguments
  }

  /** The first node's string is empty if and only if the first word is. */
  lemma FirstWord(nodes: seq<ArgNode>, texts: seq<string>)
    requires CommandLine.Holds(nodes, texts)
    ensures |nodes| == |texts| && (nodes != [] ==> nodes[0].argument.Length == ARGUMENT_SIZE)
    ensures nodes != [] ==> (nodes[0].argument[0] == NUL <==> texts[0] == [])
  {
    if nodes != [] {
      assert HoldsAt(nodes[0], texts[0]);
      CStrAt(nodes[0].argument[..], 0);
    }
  }

  lemma WithoutLast(procs: seq<Owner>, procs': seq<Owner>)
    requires |procs'| == |procs| + 1 && procs <= procs'
    ensures Others(procs', |procs|) == procs
  {
  }

  /** System command 7 on memory, for the list of a command's words: how it ends is exactly what the words and the
      heap's table decide, and a program that runs holds them as its arguments, in order. */
  method InvokeCommand(
    h: Heap, procs: seq<Owner>, program: Program, root: ArgNode?, ghost nodes: seq<ArgNode>, ghost texts: seq<string>,
    ghost base: Runs)
    returns (
      end: CommandEnd, procs': seq<Owner>, argc: nat, vector: u32, ghost ptrs: seq<u32>, ghost left: seq<Allocation>,
      ghost base': Runs)
    requires SystemOk(h, procs, base) && Contained(program) && 4 * |texts| < TWO32
    requires Chained(nodes) && CommandLine.Holds(nodes, texts) && root == (if nodes == [] then null else nodes[0])
    requires ListApart(h, procs, nodes)
    modifies h, h.table, h.memory
    ensures SystemOk(h, procs', base') && Trail(h, base, left, base') && forall q :: q in procs ==> OwnerKept(h, q)
    ensures end == EndOfCommand(h, old(h.table[..]), program, texts)
    ensures end == NoWord ==> left == [] && h.table[..] == old(h.table[..])
    ensures end != NoWord ==> Sizes(left) == LoadOutcome(h, old(h.table[..]), program).sizes
    ensures if end == Runs || end == NoRoomForArguments then |procs'| == |procs| + 1 && procs <= procs'
      else procs' == procs
    ensures end == Runs ==> HasArguments(h, procs'[|procs|], argc, vector, ptrs, texts)
  {
    hide SystemOk, Contained, Trail, LoadOutcome, ProcessOk, FlatOf, Others, AllEmpty, WithTask, TakeAll, AllFit,
      SpaceSizes, FreeSlots, CStr, Terminated, HasArguments;
    procs', argc, vector, ptrs, left, base' := procs, 0, NULL, [], [], base;
    NoTrail(h, base);
    FirstWord(nodes, texts);
    AreOk(h, procs, base);
    if root == null || root.argument[0] == NUL {
      return NoWord, procs', argc, vector, ptrs, left, base';
    }
    var loadEnd;
    loadEnd, procs', left, base' := LoadStep(h, procs, program, base);
    if loadEnd != Loaded {
      return NotLoaded(loadEnd), procs', argc, vector, ptrs, left, base';
    }
    var res;
    AllSlotsFree(procs'[|procs|].allocations[..]);
    WithoutLast(procs, procs');
    res, argc, vector, ptrs := InjectStep(h, procs', |procs|, root, nodes, texts, base');
    end := if res == OK then Runs else NoRoomForArguments;
  }

  // ----- the whole way

  lemma ClipExact(s: string, n: nat)
    ensures Clip(s, n) == s <==> |s| <= n
  {
  }

  /** Storing loses nothing exactly when every word is under 512 characters. */
  lemma StoredExact(words: seq<string>)
    ensures Stored(words) == words <==> forall i :: 0 <= i < |words| ==> |words[i]| < 512
  {
    hide Clip;
    if Stored(words) == words {
      forall i | 0 <= i < |words| ensures |words[i]| < ARGUMENT_SIZE {
        StoredAt(words, i);
        ClipExact(words[i], ARGUMENT_SIZE - 1);
      }
    }
    if forall i :: 0 <= i < |words| ==> |words[i]| < ARGUMENT_SIZE {
      forall i | 0 <= i < |words| ensures Stored(words)[i] == words[i] {
        StoredAt(words, i);
        ClipExact(words[i], ARGUMENT_SIZE - 1);
      }
    }
  }

  /** A string has no more words than characters, and none of them is empty. */
  lemma {:induction false} WordsFew(s: string)
    ensures |WordsOf(s, " ")| <= |s| && forall k :: 0 <= k < |WordsOf(s, " ")| ==> WordsOf(s, " ")[k] != []
    decreases |s|
  {
    hide WordsOf, LeadingDelims, WordLength, AllDelims, NoDelims, IsDelim;
    var k := LeadingDelims(s, " ");
    var t := s[k..];
    if t == [] {
      NoWordsLeft(s, " ");
    } else {
      var n := WordLength(t, " ");
      SplitFirst(s, " ", k, t, n);
      WordsFew(t[n..]);
    }
  }

  /** What of a command line comes to the kernel: the words of its first 1023 characters, each cut to 511, as far as the
      shell has memory for them. */
  function Parsed(line: string, grants: nat): seq<string> {
    var words := Stored(WordsOf(Clip(Clip(line, 1023), COMMAND_SIZE - 1), " "));
    if grants < |words| then words[..grants] else words
  }

  /** Words come through whole when line and words are short enough and the shell has memory for them. */
  lemma ParsedExact(line: string, grants: nat)
    requires |line| < 1024 && |WordsOf(line, " ")| <= grants
    ensures Parsed(line, grants) == WordsOf(line, " ") <==>
      forall i :: 0 <= i < |WordsOf(line, " ")| ==> |WordsOf(line, " ")[i]| < 512
  {
    ClipExact(line, 1023);
    ClipExact(line, 1024);
    StoredExact(WordsOf(line, " "));
  }

  lemma ParsedFew(line: string, grants: nat)
    ensures |Parsed(line, grants)| <= 1024
    ensures Parsed(line, grants) != [] ==> Parsed(line, grants)[0] != []
  {
    hide WordsOf;
    var clipped := Clip(Clip(line, 1023), COMMAND_SIZE - 1);
    WordsFew(clipped);
    if Parsed(line, grants) != [] {
      StoredAt(WordsOf(clipped, " "), 0);
    }
  }

  lemma EndsEarly(h: Heap, t: seq<Entry>, program: Program, texts: seq<string>)
    ensures EndOfCommand(h, t, program, texts) == NoWord <==> texts == [] || texts[0] == []
  {
  }

  /** From the shell to the running program (`kernel_system_run`, then system command 7): the program runs if and only
      if the line has a word, the program is loaded and its arguments find room, and then argv holds the line's words,
      in order. */
  method SystemRun(
    tk: Tokenizer, command: array<char>, grants: nat, h: Heap, procs: seq<Owner>, program: Program, ghost base: Runs)
    returns (
      end: CommandEnd, procs': seq<Owner>, argc: nat, vector: u32, ghost ptrs: seq<u32>, ghost left: seq<Allocation>,
      ghost base': Runs)
    requires tk.Valid() && Terminated(command[..], 0) && SystemOk(h, procs, base) && Contained(program)
    requires tk.text as object != h.table && forall q :: q in procs ==> tk.text as object != q.allocations
    modifies tk, tk.text, h, h.table, h.memory
    ensures SystemOk(h, procs', base') && Trail(h, base, left, base')
    ensures var words := Parsed(old(CStr(command[..], 0)), grants);
      && end == EndOfCommand(h, old(h.table[..]), program, words) && (end == NoWord <==> words == [])
      && (end == Runs ==>
        |procs'| == |procs| + 1 && procs <= procs'
        && HasArguments(h, procs'[|procs|], argc, vector, ptrs, words))
  {
    hide CStr, Terminated, WordsOf, HoldsAt, SystemOk, Contained, Trail, EndOfCommand, HasArguments, OwnerKept, Stored,
      Clip;
    ghost var line := CStr(command[..], 0);
    var buf := new char[1024](_ => NUL);
    StrNCpy(buf, command, 0, 1024);
    ghost var words := Parsed(line, grants);
    ParsedFew(line, grants);
    var root, nodes := ParseCommand(tk, buf, 1024, grants);
    EndsEarly(h, h.table[..], program, words);
    if root == null {
      NoTrail(h, base);
      return NoWord, procs, 0, NULL, [], [], base;
    }
    end, procs', argc, vector, ptrs, left, base' := InvokeCommand(h, procs, program, root, nodes, words, base);
  }
}
