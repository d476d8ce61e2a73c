/**
  The running kernel as one system (kernel/sched.c, kernel/task.c, kernel/isr80h.c): process table, task list and memory
  together, every step taken by the program that is running.
 */
module KernelSystem {
  import opened Machine
  import opened HeapTable
  import opened KernelHeap
  import opened Paging
  import opened AddressSpace
  import opened ProcessMemory
  import opened ProgramPages
  import opened KernelRuns
  import opened ProcessLife
  import opened SystemRuns
  import Scheduler

  /** What the running program does: start another program, allocate, free, exit, or fault. Exit and fault come with the
      argument pointers in its vector. */
  datatype Command =
    | Start(program: Program)
    | Allocate(size: u32)
    | Release(ptr: u32)
    | Quit(argv: seq<u32>)
    | Fault(argv: seq<u32>)

  /** Where a run stands: the kernel goes on, or the last program has ended and it stops, or a load lacked the blocks of
      an address space, or failed while slot 0 was taken, or the running program's end is not safe. */
  datatype Standing = GoesOn | LastEnded | LackedBlocks | SlotZeroLost | UnsafeEnd

  /** Whose memory each task runs on. */
  type Owners = map<Scheduler.Task, Owner>

  /** Task i of the list runs on the memory procs[i]. */
  ghost predicate Owned(tasks: seq<Scheduler.Task>, procs: seq<Owner>, own: Owners) {
    |tasks| == |procs| && forall i :: 0 <= i < |tasks| ==> tasks[i] in own && own[tasks[i]] == procs[i]
  }

  /** Table, list and memory are each well formed, every task of the list runs on the memory at its own place, and the
      arrays of the one side are not those of the other. */
  ghost predicate Joined(k: Scheduler.Kernel, h: Heap, procs: seq<Owner>, own: Owners, base: Runs)
    reads k, k.processes, k.Loaded(), k.tasks, set t | t in k.tasks :: t.process,
      h, h.table, h.memory, set q | q in procs :: q.allocations
  {
    && k.Valid() && SystemOk(h, procs, base) && Owned(k.tasks, procs, own)
    && k.processes as object != h.table as object && k.processes as object != h.memory as object
    && forall q :: q in procs ==> k.processes as object != q.allocations as object
  }

  lemma JoinedOwns(k: Scheduler.Kernel, h: Heap, procs: seq<Owner>, own: Owners, base: Runs)
    requires Joined(k, h, procs, own, base)
    ensures |k.tasks| == |procs| && forall t :: t in k.tasks ==> t in own
  {
  }

  /** The running program's place in the list. */
  ghost predicate RunsAt(k: Scheduler.Kernel, current: nat)
    reads k
  {
    current < |k.tasks| && k.tasks[current] == k.currentTask
  }

  /** The whole system at one moment: table and list, the running program's place, and memory. */
  datatype View = View(moment: Scheduler.Moment, current: nat, scene: Scene)

  ghost function ViewOf(k: Scheduler.Kernel, h: Heap, procs: seq<Owner>, current: nat): View
    reads k, k.processes, h, h.table, set q | q in procs :: q.allocations
  {
    View(k.Now(), current, SceneOf(h, procs))
  }

  /** The memory in a view knows every process's allocation table. */
  ghost predicate Complete(scene: Scene) {
    forall q :: q in scene.procs ==> q in scene.slots
  }

  /** What each command does: a load that finds a slot has the effect of a load on memory, and if it succeeds on list
      and table; an allocation or free has its effect on the running program's memory and none on list and table; an end
      has its effect on all three. */
  ghost predicate AfterCommand(h: Heap, before: View, command: Command, after: View)
    requires Complete(before.scene)
  {
    match command
    case Start(program) =>
      if null !in before.moment.table then after == before
      else
        && AfterStep(h, before.scene, Load(program), after.scene)
        && (match LoadOutcome(h, before.scene.table, program).end
            case Loaded =>
              && Scheduler.Follows(before.moment, Scheduler.LoadStep, after.moment)
              && after.current == |before.moment.tasks|
            case Refused =>
              && |before.moment.table| > 0 && after.current == before.current
              && after.moment == before.moment.(table := before.moment.table[0 := null])
            case _ => after.moment == before.moment && after.current == before.current)
    case Allocate(size) =>
      && AfterStep(h, before.scene, Malloc(before.current, size), after.scene)
      && after.moment == before.moment && after.current == before.current
    case Release(ptr) =>
      && AfterStep(h, before.scene, Step.Free(before.current, ptr), after.scene)
      && after.moment == before.moment && after.current == before.current
    case Quit(argv) => AfterEnd(h, before, argv, after)
    case Fault(argv) => AfterEnd(h, before, argv, after)
  }

  /** The parts of a view. */
  lemma PartsOfView(k: Scheduler.Kernel, h: Heap, procs: seq<Owner>, current: nat)
    ensures ViewOf(k, h, procs, current) == View(k.Now(), current, SceneOf(h, procs))
    ensures Complete(SceneOf(h, procs)) && k.Now().tasks == k.tasks && SceneOf(h, procs).table == h.table[..]
  {
  }

  /** Each view follows from the one before by its command. */
  ghost predicate ViewsOk(h: Heap, trace: seq<View>, commands: seq<Command>) {
    && |trace| == |commands| + 1
    && (forall k :: 0 <= k < |trace| ==> Complete(trace[k].scene))
    && forall k :: 0 <= k < |commands| ==> AfterCommand(h, trace[k], commands[k], trace[k + 1])
  }

  lemma ViewsStart(h: Heap, view: View)
    requires Complete(view.scene)
    ensures ViewsOk(h, [view], [])
  {
  }

  lemma ViewsGrow(h: Heap, trace: seq<View>, commands: seq<Command>, command: Command, view: View)
    requires ViewsOk(h, trace, commands) && Complete(view.scene)
    requires AfterCommand(h, trace[|commands|], command, view)
    ensures ViewsOk(h, trace + [view], commands + [command])
  {
    hide AfterCommand, Complete;
    var trace', commands' := trace + [view], commands + [command];
    forall k | 0 <= k < |commands'| ensures AfterCommand(h, trace'[k], commands'[k], trace'[k + 1]) {
      assert k < |commands| ==>
        trace'[k] == trace[k] && commands'[k] == commands[k] && trace'[k + 1] == trace[k + 1];
    }
  }

  ghost predicate AfterEnd(h: Heap, before: View, argv: seq<u32>, after: View)
    requires Complete(before.scene)
  {
    && AfterStep(h, before.scene, Exit(before.current, argv), after.scene)
    && Scheduler.Follows(before.moment, Scheduler.ExitStep, after.moment)
    && after.current == if before.current + 1 < |before.moment.tasks| then before.current else 0
  }

  lemma EndsAt(h: Heap, before: View, argv: seq<u32>, after: View)
    requires Complete(before.scene) && AfterStep(h, before.scene, Exit(before.current, argv), after.scene)
    requires Scheduler.Follows(before.moment, Scheduler.ExitStep, after.moment)
    requires after.current == if before.current + 1 < |before.moment.tasks| then before.current else 0
    ensures AfterEnd(h, before, argv, after)
  {
    hide AfterStep, Scheduler.Follows;
  }

  /** The end of the running program, by exit or by exception: its task, slot and memory go, its cyclic successor runs
      next, and every other task keeps its own memory. */
  method EndProgram(
    k: Scheduler.Kernel, h: Heap, procs: seq<Owner>, current: nat, faults: bool, argv: seq<u32>, ghost own: Owners,
    ghost base: Runs)
    returns (standing: Standing, procs': seq<Owner>, current': nat)
    requires Joined(k, h, procs, own, base) && RunsAt(k, current)
    modifies k, k.processes, k.tasks, h, h.table, h.memory, set q | q in procs :: q.allocations
    ensures forall q :: q in procs' ==> q in procs
    ensures standing == UnsafeEnd || standing == (if |procs| == 1 then LastEnded else GoesOn)
    ensures standing == UnsafeEnd ==>
      procs' == procs && current' == current && UnsafeStep(h, procs, Exit(current, argv))
      && Joined(k, h, procs, own, base) && RunsAt(k, current)
    ensures standing != UnsafeEnd ==> k.tasks == Scheduler.RemoveAt(old(k.tasks), current)
    ensures standing == UnsafeEnd ==>
      k.tasks == old(k.tasks) && ViewOf(k, h, procs', current') == old(ViewOf(k, h, procs, current))
    ensures standing != UnsafeEnd ==>
      h.live == old(h.live) - old(Footprint(h, procs[current])) && forall q :: q in procs' ==> OwnerKept(h, q)
    ensures standing != UnsafeEnd ==>
      AfterEnd(h, old(ViewOf(k, h, procs, current)), argv, ViewOf(k, h, procs', current'))
    ensures standing == LastEnded ==> procs' == [] && k.tasks == [] && h.Valid() && h.live == base
    ensures standing == GoesOn ==> Joined(k, h, procs', own, base) && RunsAt(k, current')
    ensures standing == GoesOn ==> procs' == Others(procs, current) && current' == if current < |procs'| then current
      else 0
    ensures forall t :: t in k.tasks ==> t in old(k.tasks)
  {
    hide SystemOk, UnsafeStep, Others, Owned, OwnerKept, Footprint, AfterStep, Scheduler.Kernel.Valid,
      Scheduler.Kernel.ListOk, Scheduler.Kernel.Paired, Scheduler.RemoveAt, Scheduler.Follows, SceneOf,
      AfterEnd, ViewOf, Scheduler.Kernel.Loaded, Scheduler.Kernel.Now, Complete, FlatOf, Heap.Valid;
    current' := current;
    ghost var before := ViewOf(k, h, procs, current);
    PartsOfView(k, h, procs, current);
    JoinedOwns(k, h, procs, own, base);
    OthersMembers(procs, current);
    OwnedWithout(k.tasks, procs, own, current);
    var safe;
    safe, procs' := TryExitBeside(k, h, procs, current, argv, own, base);
    if !safe {
      PartsOfView(k, h, procs', current');
      return UnsafeEnd, procs', current';
    }
    NobodyLeft(h, procs', base);
    var ended := EndTask(k, current, faults);
    current' := if current < |procs'| then current else 0;
    standing := if ended then LastEnded else GoesOn;
    PartsOfView(k, h, procs', current');
    EndsAt(h, before, argv, ViewOf(k, h, procs', current'));
  }

  /** Task and memory of one place go together. */
  lemma OwnedWithout(tasks: seq<Scheduler.Task>, procs: seq<Owner>, own: Owners, i: nat)
    requires Owned(tasks, procs, own) && i < |tasks|
    ensures Owned(Scheduler.RemoveAt(tasks, i), Others(procs, i), own)
  {
  }

  /** The memory of the running program, with table and list untouched beside it. */
  method TryExitBeside(
    k: Scheduler.Kernel, h: Heap, procs: seq<Owner>, current: nat, argv: seq<u32>, ghost own: Owners, ghost base: Runs)
    returns (safe: bool, procs': seq<Owner>)
    requires Joined(k, h, procs, own, base) && current < |procs|
    modifies h, h.table, h.memory, set q | q in procs :: q.allocations
    ensures k.Valid() && SystemOk(h, procs', base) && forall q :: q in procs' ==> q in procs
    ensures procs' == if safe then Others(procs, current) else procs
    ensures safe ==>
      h.live == old(h.live) - old(Footprint(h, procs[current])) && forall q :: q in procs' ==> OwnerKept(h, q)
    ensures !safe ==> UnsafeStep(h, procs, Exit(current, argv)) && SceneOf(h, procs') == old(SceneOf(h, procs))
    ensures k.Now() == old(k.Now())
    ensures safe ==> AfterStep(h, old(SceneOf(h, procs)), Exit(current, argv), SceneOf(h, procs'))
  {
    hide SystemOk, UnsafeStep, Others, OwnerKept, Footprint, AfterStep, Scheduler.Kernel.ListOk;
    safe, procs' := ExitScene(h, procs, current, argv, base);
  }

  /** The task and the slot of the running program. */
  method EndTask(k: Scheduler.Kernel, current: nat, faults: bool) returns (ended: bool)
    requires k.Valid() && RunsAt(k, current)
    modifies k, k.processes, k.tasks
    ensures ended <==> |old(k.tasks)| == 1
    ensures k.tasks == Scheduler.RemoveAt(old(k.tasks), current) && |k.tasks| == |old(k.tasks)| - 1
    ensures forall t :: t in k.tasks ==> t in old(k.tasks)
    ensures !ended ==> k.Valid() && RunsAt(k, if current < |k.tasks| then current else 0)
    ensures Scheduler.Follows(old(k.Now()), Scheduler.ExitStep, k.Now())
  {
    hide Scheduler.Kernel.Paired, Scheduler.Linked;
    ghost var tasks, before := k.tasks, k.Now();
    k.TasksDistinct();
    ghost var slot := k.InItsSlot();
    var o;
    ghost var i;
    if faults {
      o, i := k.Exception();
    } else {
      o, i := k.Exit();
    }
    assert i == current;
    assert Scheduler.EndedAt(before, i, slot, k.Now());
    Scheduler.RemoveAtMeaning(tasks, current);
    forall t | t in k.tasks ensures t in tasks {
      var j :| 0 <= j < |k.tasks| && k.tasks[j] == t;
      assert t == tasks[if j < current then j else j + 1];
    }
    ended := o != Scheduler.Running;
  }

  // ----- loads

  /** How a load by the running program ends: a full process table refuses it before anything else, and otherwise the
      heap's table decides. */
  ghost function StartEnd(k: Scheduler.Kernel, h: Heap, program: Program): LoadEnd
    reads k.processes, h.table
  {
    if k.FreeSlot() < 0 then NoDescriptor else LoadOutcome(h, h.table[..], program).end
  }

  /** A load by the running program. When it succeeds the new program starts at once, its task at the tail of the list
      running on the new memory; a load that is refused once its descriptor has been taken breaks the process table if
      and only if slot 0 was taken. */
  method StartProgram(
    k: Scheduler.Kernel, h: Heap, procs: seq<Owner>, current: nat, program: Program, ghost own: Owners,
    ghost base: Runs)
    returns (
      standing: Standing, procs': seq<Owner>, current': nat, ghost left: seq<Allocation>, ghost own': Owners,
      ghost base': Runs)
    requires Joined(k, h, procs, own, base) && RunsAt(k, current) && Contained(program)
    modifies k, k.processes, k.tasks, h, h.table, h.memory
    ensures SystemOk(h, procs', base') && Trail(h, base, left, base')
    ensures standing == GoesOn || standing == LackedBlocks || standing == SlotZeroLost
    ensures standing == GoesOn ==> Joined(k, h, procs', own', base') && RunsAt(k, current')
    ensures standing == match old(StartEnd(k, h, program))
      case NoTables => LackedBlocks
      case Refused => if old(k.processes.Length > 0 && k.processes[0] != null) then SlotZeroLost else GoesOn
      case _ => GoesOn
    ensures standing == SlotZeroLost <==> !k.Valid()
    ensures old(StartEnd(k, h, program)) == Loaded ==>
      && k.tasks == old(k.tasks) + [k.currentTask] && fresh(k.currentTask) && current' == |procs|
      && |procs'| == |procs| + 1 && procs <= procs' && own' == own[k.currentTask := procs'[|procs|]]
      && h.table[..] == TakeAll(WithTask(old(h.table[..]), program), SpaceSizes())
      && AllEmpty(procs'[|procs|].allocations[..])
    ensures old(StartEnd(k, h, program)) != Loaded ==>
      k.tasks == old(k.tasks) && procs' == procs && own' == own && current' == current
    ensures AfterCommand(h, old(ViewOf(k, h, procs, current)), Start(program), ViewOf(k, h, procs', current'))
    ensures standing == LackedBlocks ==> Sizes(left) == AllTaken(program)
    ensures forall q :: q in procs ==> OwnerKept(h, q)
    ensures forall q :: q in procs' ==> q in procs || fresh(q.allocations)
    ensures forall t :: t in k.tasks ==> t in old(k.tasks) || fresh(t)
  {
    hide SystemOk, Trail, LoadOutcome, Contained, Owned, ProcessOk, FlatOf, AllTaken, AllEmpty, WithTask, TakeAll,
      SpaceSizes, AfterStep, Scheduler.Kernel.Valid, Scheduler.FreeSlotFrom, Scheduler.Follows, SceneOf;
    Scheduler.FreeSlotMeaning(k.processes[..], 0);
    standing, procs', current', left, own', base' := GoesOn, procs, current, [], own, base;
    NoTrail(h, base);
    AreOk(h, procs, base);
    PartsOfView(k, h, procs, current);
    var slot, end;
    slot, end, procs', left, base' := LoadBeside(k, h, procs, program, own, base);
    if slot < 0 {
      return;
    }
    if end == NoTables {
      NoTablesLeave(h, old(h.table[..]), program);
      standing := LackedBlocks;
    } else {
      ghost var tasks := k.tasks;
      var lost := StartTask(k, current, end);
      if end == Loaded {
        current', own' := |procs|, own[k.currentTask := procs'[|procs|]];
        OwnedWith(tasks, procs, own, k.currentTask, procs'[|procs|]);
        assert procs' == procs + [procs'[|procs|]];
      }
      standing := if lost then SlotZeroLost else GoesOn;
    }
  }

  /** A new task at the tail runs on the new memory at the tail. */
  lemma OwnedWith(tasks: seq<Scheduler.Task>, procs: seq<Owner>, own: Owners, t: Scheduler.Task, p: Owner)
    requires Owned(tasks, procs, own) && t !in tasks
    ensures Owned(tasks + [t], procs + [p], own[t := p])
  {
  }

  lemma NoTablesLeave(h: Heap, t: seq<Entry>, program: Program)
    requires LoadOutcome(h, t, program).end == NoTables
    ensures LoadOutcome(h, t, program).sizes == AllTaken(program)
  {
  }

  /** The search for a free slot and then the memory of a load, with table and list untouched beside it. */
  method LoadBeside(
    k: Scheduler.Kernel, h: Heap, procs: seq<Owner>, program: Program, ghost own: Owners, ghost base: Runs)
    returns (slot: int, end: LoadEnd, procs': seq<Owner>, ghost left: seq<Allocation>, ghost base': Runs)
    requires Joined(k, h, procs, own, base) && Contained(program)
    modifies h, h.table, h.memory
    ensures k.Valid() && SystemOk(h, procs', base') && Trail(h, base, left, base')
    ensures slot == old(k.FreeSlot())
    ensures slot < 0 ==>
      end == NoDescriptor && left == [] && base' == base && Owned(k.tasks, procs', own)
      && SceneOf(h, procs') == old(SceneOf(h, procs))
    ensures slot >= 0 ==> Loss(end, Sizes(left)) == LoadOutcome(h, old(h.table[..]), program)
    ensures if end == Loaded then |procs'| == |procs| + 1 && procs <= procs' else procs' == procs
    ensures end == Loaded ==>
      h.table[..] == TakeAll(WithTask(old(h.table[..]), program), SpaceSizes())
      && AllEmpty(procs'[|procs|].allocations[..])
    ensures forall q :: q in procs' ==> (q in procs || fresh(q.allocations)) && k.processes as object != q.allocations
    ensures slot >= 0 ==> AfterStep(h, old(SceneOf(h, procs)), Load(program), SceneOf(h, procs'))
    ensures k.Now() == old(k.Now())
    ensures forall q :: q in procs ==> OwnerKept(h, q)
  {
    hide SystemOk, Trail, LoadOutcome, Contained, ProcessOk, FlatOf, AllEmpty, WithTask, TakeAll, SpaceSizes,
      AfterStep, SceneOf, Owned, Scheduler.FreeSlotFrom, Scheduler.Kernel.ListOk;
    end, procs', left, base' := NoDescriptor, procs, [], base;
    NoTrail(h, base);
    AreOk(h, procs, base);
    slot := k.ProcessGetFreeSlot();
    if slot < 0 {
      return;
    }
    end, procs', left, base' := LoadScene(h, procs, program, base);
  }

  /** The task and the slot of a load that ended this way. */
  method StartTask(k: Scheduler.Kernel, ghost current: nat, end: LoadEnd) returns (lost: bool)
    requires k.Valid() && RunsAt(k, current) && k.FreeSlot() >= 0 && end != NoTables
    modifies k, k.processes, k.tasks
    ensures lost <==> !k.Valid()
    ensures lost <==> end == Refused && old(k.processes.Length > 0 && k.processes[0] != null)
    ensures end == Loaded ==>
      k.currentTask != null && fresh(k.currentTask) && k.tasks == old(k.tasks) + [k.currentTask]
    ensures end != Loaded ==> RunsAt(k, current) && k.tasks == old(k.tasks)
    ensures end == Loaded ==> Scheduler.Follows(old(k.Now()), Scheduler.LoadStep, k.Now())
    ensures end == NoDescriptor ==> k.Now() == old(k.Now())
    ensures end == Refused ==>
      |old(k.Now()).table| > 0 && k.Now() == old(k.Now()).(table := old(k.Now()).table[0 := null])
    ensures forall t :: t in k.tasks ==> t in old(k.tasks) || fresh(t)
  {
    assert k.processes.Length > 0;
    hide Scheduler.Kernel.Paired, Scheduler.Linked, Scheduler.FreeSlotFrom;
    lost := false;
    match end {
      case Loaded =>
        ghost var before, free := k.Now(), k.FreeSlot();
        Scheduler.FreeSlotMeaning(k.processes[..], 0);
        var _ := k.LoadStart();
        assert Scheduler.LoadedAt(before, free, k.Now());
        Scheduler.LoadFollowsAt(before, k.Now(), free);
      case NoDescriptor =>
        var _ := k.LoadFails(Scheduler.NothingBuilt);
      case Refused =>
        lost := k.processes[0] != null;
        var _ := k.LoadFails(Scheduler.TaskBuilt);
    }
  }

  // ----- whole runs

  /** One allocation or free by the running program, with table and list untouched beside it. */
  method CallBeside(
    k: Scheduler.Kernel, h: Heap, procs: seq<Owner>, current: nat, command: Command, ghost own: Owners,
    ghost base: Runs)
    requires Joined(k, h, procs, own, base) && RunsAt(k, current) && (command.Allocate? || command.Release?)
    modifies h, h.table, h.memory, set q | q in procs :: q.allocations
    ensures Joined(k, h, procs, own, base) && RunsAt(k, current) && k.tasks == old(k.tasks)
    ensures AfterCommand(h, old(ViewOf(k, h, procs, current)), command, ViewOf(k, h, procs, current))
    ensures forall q :: q in procs && q != procs[current] ==> OwnerKept(h, q)
  {
    hide SystemOk, OwnerKept, AfterStep, SceneOf, Scheduler.Kernel.ListOk;
    match command {
      case Allocate(size) => var _ := MallocScene(h, procs, current, size, base);
      case Release(ptr) => FreeScene(h, procs, current, ptr, base);
    }
  }

  lemma InIsOneOf(tasks: seq<Scheduler.Task>, t: Scheduler.Task)
    requires t in tasks
    ensures Scheduler.OneOf(tasks, t)
  {
  }

  /** One command of the running program. */
  method RunCommand(
    k: Scheduler.Kernel, h: Heap, procs: seq<Owner>, current: nat, command: Command, ghost own: Owners,
    ghost base: Runs)
    returns (
      standing: Standing, procs': seq<Owner>, current': nat, ghost left: seq<Allocation>, ghost own': Owners,
      ghost base': Runs)
    requires Joined(k, h, procs, own, base) && RunsAt(k, current)
    requires command.Start? ==> Contained(command.program)
    modifies k, k.processes, k.tasks, h, h.table, h.memory, set q | q in procs :: q.allocations
    ensures Trail(h, base, left, base')
    ensures standing == GoesOn || standing == UnsafeEnd ==> Joined(k, h, procs', own', base') && RunsAt(k, current')
    ensures standing == LastEnded ==> k.tasks == [] && h.Valid() && h.live == base'
    ensures standing == LackedBlocks || standing == SlotZeroLost ==> SystemOk(h, procs', base')
    ensures standing != UnsafeEnd ==>
      AfterCommand(h, old(ViewOf(k, h, procs, current)), command, ViewOf(k, h, procs', current'))
    ensures standing == UnsafeEnd ==>
      (command.Quit? || command.Fault?) && old(ViewOf(k, h, procs, current)) == ViewOf(k, h, procs', current')
    ensures forall q :: q in procs' ==> q in procs || fresh(q.allocations)
    ensures forall t :: t in k.tasks ==> t in old(k.tasks) || fresh(t)
    ensures forall t :: t in k.tasks && t in old(k.tasks) ==> t in own && t in own' && own'[t] == own[t]
  {
    hide SystemOk, Trail, Contained, UnsafeStep, Others, Scheduler.Kernel.Valid, Joined, Owned, StartEnd, AllTaken,
      OwnerKept, Footprint, AllEmpty, WithTask, Scheduler.RemoveAt;
    standing, procs', current', left, own', base' := GoesOn, procs, current, [], own, base;
    NoTrail(h, base);
    JoinedOwns(k, h, procs, own, base);
    match command {
      case Start(program) =>
        standing, procs', current', left, own', base' := StartProgram(k, h, procs, current, program, own, base);
      case Quit(argv) => standing, procs', current' := EndProgram(k, h, procs, current, false, argv, own, base);
      case Fault(argv) => standing, procs', current' := EndProgram(k, h, procs, current, true, argv, own, base);
      case _ => CallBeside(k, h, procs, current, command, own, base);
    }
  }

  /** Every run of commands of the running programs, with any sizes and pointers: process table, task list and memory
      stay joined, each task on the memory at its own place and all memory accounted for, as long as the kernel goes on,
      and a task that was there from the start still runs on the memory it had. Every command carried out has its own
      effect, and all are carried out while the kernel goes on. When the last program has ended, what is live is what
      was live at the start and what the loads left. */
  method RunKernel(
    k: Scheduler.Kernel, h: Heap, procs0: seq<Owner>, current0: nat, commands: seq<Command>, ghost own0: Owners,
    ghost base0: Runs)
    returns (
      standing: Standing, procs: seq<Owner>, current: nat, ghost left: seq<Allocation>, ghost own: Owners,
      ghost base: Runs, ghost done: nat, ghost trace: seq<View>)
    requires Joined(k, h, procs0, own0, base0) && RunsAt(k, current0)
    requires forall i :: 0 <= i < |commands| && commands[i].Start? ==> Contained(commands[i].program)
    modifies k, k.processes, k.tasks, h, h.table, h.memory, set q | q in procs0 :: q.allocations
    ensures Trail(h, base0, left, base)
    ensures standing == GoesOn || standing == UnsafeEnd ==> Joined(k, h, procs, own, base) && RunsAt(k, current)
    ensures standing == LastEnded ==> k.tasks == [] && h.Valid() && h.live == base
    ensures standing == LackedBlocks || standing == SlotZeroLost ==> SystemOk(h, procs, base)
    ensures forall t :: t in k.tasks && t in old(k.tasks) ==> t in own && t in own0 && own[t] == own0[t]
    ensures done <= |commands| && (standing == GoesOn ==> done == |commands|)
    ensures standing == UnsafeEnd ==> done < |commands| && (commands[done].Quit? || commands[done].Fault?)
    ensures ViewsOk(h, trace, commands[..done])
    ensures |trace| == done + 1 && trace[0] == old(ViewOf(k, h, procs0, current0))
    ensures trace[done] == ViewOf(k, h, procs, current)
  {
    hide SystemOk, Trail, Contained, UnsafeStep, Others, Scheduler.Kernel.Valid, Joined, Owned, StartEnd, AllTaken,
      OwnerKept, Footprint, AllEmpty, WithTask, Scheduler.RemoveAt, AfterCommand, ViewsOk, ViewOf, Complete;
    standing, procs, current, left, own, base := GoesOn, procs0, current0, [], own0, base0;
    NoTrail(h, base0);
    JoinedOwns(k, h, procs0, own0, base0);
    var i := 0;
    done, trace := 0, [ViewOf(k, h, procs0, current0)];
    PartsOfView(k, h, procs, current);
    ViewsStart(h, trace[0]);
    while i < |commands| && standing == GoesOn
      invariant 0 <= done <= i <= |commands| && (if standing == UnsafeEnd then done + 1 == i else done == i)
      invariant standing == UnsafeEnd ==> commands[done].Quit? || commands[done].Fault?
      invariant ViewsOk(h, trace, commands[..done])
      invariant |trace| == done + 1 && trace[0] == old(ViewOf(k, h, procs0, current0))
      invariant trace[done] == ViewOf(k, h, procs, current)
      invariant Trail(h, base0, left, base)
      invariant standing == GoesOn || standing == UnsafeEnd ==> Joined(k, h, procs, own, base) && RunsAt(k, current)
      invariant standing == LastEnded ==> k.tasks == [] && h.Valid() && h.live == base
      invariant standing == LackedBlocks || standing == SlotZeroLost ==> SystemOk(h, procs, base)
      invariant forall q :: q in procs ==> q in procs0 || fresh(q.allocations)
      invariant forall t :: t in k.tasks ==> t in old(k.tasks) || fresh(t)
      invariant forall j :: 0 <= j < |k.tasks| ==> Scheduler.OneOf(old(k.tasks), k.tasks[j]) || fresh(k.tasks[j])
      invariant forall t :: t in k.tasks && t in old(k.tasks) ==> t in own && t in own0 && own[t] == own0[t]
      decreases |commands| - i, standing == GoesOn
    {
      ghost var more, base';
      standing, procs, current, more, own, base' := RunCommand(k, h, procs, current, commands[i], own, base);
      TrailJoins(h, base0, left, base, more, base');
      left, base := left + more, base';
      if standing != UnsafeEnd {
        PartsOfView(k, h, procs, current);
        ViewsGrow(h, trace, commands[..i], commands[i], ViewOf(k, h, procs, current));
        assert commands[..i] + [commands[i]] == commands[..i + 1];
        trace, done := trace + [ViewOf(k, h, procs, current)], i + 1;
      }
      i := i + 1;
      forall j | 0 <= j < |k.tasks| ensures Scheduler.OneOf(old(k.tasks), k.tasks[j]) || fresh(k.tasks[j]) {
        assert k.tasks[j] in k.tasks;
        if k.tasks[j] in old(k.tasks) {
          InIsOneOf(old(k.tasks), k.tasks[j]);
        }
      }
    }
  }
}
