/**
  The scheduler state: the doubly linked task list of kernel/task.c, the
  process table of kernel/sched.c, and the steps kernel/isr80h.c and the
  exception handler of arch/x86/kernel/idt.c take on them.
 */
module Scheduler {
  import opened Machine

  const KERNEL_MAX_PROCESSES: int := 12

  /** `panic` prints and never returns: a step ends either running or stopped by one of the panics it can meet. */
  datatype Outcome = Running | NoProcesses | NoTasks

  /** How far a failing load got: no descriptor, a descriptor without a task, or a task already on the list. */
  datatype FailStage = NothingBuilt | DescriptorBuilt | TaskBuilt

  datatype Step = LoadStep | ExitStep | FaultStep

  class Task {
    var next: Task?
    var prev: Task?
    var process: Process?

    constructor ()
      ensures next == null && prev == null && process == null
    {
      next, prev, process := null, null, null;
    }
  }

  class Process {
    var id: nat
    var task: Task?

    constructor ()
      ensures id == 0 && task == null
    {
      id, task := 0, null;
    }
  }

  function RemoveAt<T>(s: seq<T>, i: nat): seq<T>
    requires i < |s|
  {
    s[..i] + s[i + 1..]
  }

  /** The list read cyclically from position i. */
  function Rotation<T>(s: seq<T>, i: nat): seq<T>
    requires i <= |s|
  {
    s[i..] + s[..i]
  }

  /** The position after i, cyclically. */
  function Succ(i: nat, n: nat): nat {
    if i + 1 < n then i + 1 else 0
  }

  /** The rotation visits every place once, in order, and begins again at the front. */
  lemma RotationAt<T>(s: seq<T>, i: nat, k: nat)
    requires i < |s| && k < |s|
    ensures |Rotation(s, i)| == |s| && Rotation(s, i)[k] == s[if i + k < |s| then i + k else i + k - |s|]
  {
  }

  /** Removing the element at i and going on with its cyclic successor walks the rest of the same rotation. */
  lemma RotationStep<T>(s: seq<T>, i: nat)
    requires i < |s| && |s| > 1
    ensures var rest := RemoveAt(s, i);
      var i' := if i < |rest| then i else 0;
      Rotation(s, i) == [s[i]] + Rotation(rest, i') && rest[i'] == s[Succ(i, |s|)]
  {
    var rest := RemoveAt(s, i);
    assert s[i..] == [s[i]] + s[i + 1..];
    if i < |rest| {
      assert rest[i..] == s[i + 1..] && rest[..i] == s[..i];
    } else {
      assert rest == s[..i] && s[i + 1..] == [];
      assert Rotation(rest, 0) == rest;
    }
  }

  lemma RotationOfOne<T>(s: seq<T>)
    requires |s| == 1
    ensures Rotation(s, 0) == s
  {
  }

  /** The task at a place of the list, or null outside it. */
  function At(tasks: seq<Task>, i: int): Task? {
    if 0 <= i < |tasks| then tasks[i] else null
  }

  ghost predicate Linked(tasks: seq<Task>, head: Task?, tail: Task?)
    reads tasks
  {
    && (forall i, j :: 0 <= i < j < |tasks| ==> tasks[i] != tasks[j])
    && head == At(tasks, 0) && tail == At(tasks, |tasks| - 1)
    && (forall i {:trigger tasks[i].next} :: 0 <= i < |tasks| ==> tasks[i].next == At(tasks, i + 1))
    && (forall i {:trigger tasks[i].prev} :: 0 <= i < |tasks| ==> tasks[i].prev == At(tasks, i - 1))
  }

  lemma Neighbours(tasks: seq<Task>, head: Task?, tail: Task?, i: nat)
    requires Linked(tasks, head, tail) && i < |tasks|
    ensures head == tasks[0] && tail == tasks[|tasks| - 1] && tasks[i].next == At(tasks, i + 1)
      && tasks[i].prev == At(tasks, i - 1)
    ensures (head == tasks[i] <==> i == 0) && (tail == tasks[i] <==> i == |tasks| - 1)
    ensures Linked(tasks, At(tasks, 0), At(tasks, |tasks| - 1))
    ensures forall j, k :: 0 <= j < k < |tasks| ==> tasks[j] != tasks[k]
  {
  }

  lemma RemainsAfter<T>(s: seq<T>, i: nat, x: T)
    requires i < |s| && x in s && x != s[i]
    ensures x in RemoveAt(s, i)
  {
    var k :| 0 <= k < |s| && s[k] == x;
    assert k < i ==> RemoveAt(s, i)[k] == x;
    assert k > i ==> RemoveAt(s, i)[k - 1] == x;
  }

  lemma RemoveAtMeaning<T>(s: seq<T>, i: nat)
    requires i < |s|
    ensures |RemoveAt(s, i)| == |s| - 1
    ensures forall k :: 0 <= k < |s| - 1 ==> RemoveAt(s, i)[k] == s[if k < i then k else k + 1]
  {
  }

  /** The list with the links of position i bypassed, and i itself arbitrary. */
  ghost predicate Bypassed(tasks: seq<Task>, i: nat)
    reads tasks
  {
    && i < |tasks|
    && (forall k {:trigger tasks[k].next} :: 0 <= k < |tasks| && k != i ==>
      tasks[k].next == At(tasks, if k + 1 == i then i + 1 else k + 1))
    && (forall k {:trigger tasks[k].prev} :: 0 <= k < |tasks| && k != i ==>
      tasks[k].prev == At(tasks, if k == i + 1 then i - 1 else k - 1))
  }

  lemma RelinkedIsLinked(tasks: seq<Task>, i: nat, head: Task?, tail: Task?)
    requires Bypassed(tasks, i) && forall j, k :: 0 <= j < k < |tasks| ==> tasks[j] != tasks[k]
    requires head == (if i == 0 then At(tasks, 1) else tasks[0])
    requires tail == (if i == |tasks| - 1 then At(tasks, i - 1) else tasks[|tasks| - 1])
    ensures Linked(RemoveAt(tasks, i), head, tail)
  {
    var rest := RemoveAt(tasks, i);
    forall k | 0 <= k < |rest| ensures rest[k] == tasks[if k < i then k else k + 1] {
    }
    forall k {:trigger rest[k].next} | 0 <= k < |rest|
      ensures rest[k].next == At(rest, k + 1) && rest[k].prev == At(rest, k - 1) {
      var k' := if k < i then k else k + 1;
      assert tasks[k'].next == At(tasks, if k' + 1 == i then i + 1 else k' + 1);
      assert tasks[k'].prev == At(tasks, if k' == i + 1 then i - 1 else k' - 1);
    }
  }

  ghost predicate OneOf(tasks: seq<Task>, t: Task) {
    exists i :: 0 <= i < |tasks| && tasks[i] == t
  }

  ghost predicate LowestLoaded(table: seq<Process?>, p: Process?) {
    exists i :: 0 <= i < |table| && table[i] == p && p != null && forall k :: 0 <= k < i ==> table[k] == null
  }

  /** The lowest free slot of the process table at or after `from`, or -EISTKN. */
  ghost function FreeSlotFrom(table: seq<Process?>, from: nat): int
    decreases |table| - from
  {
    if from >= |table| then EISTKN else if table[from] == null then from else FreeSlotFrom(table, from + 1)
  }

  lemma {:induction false} FreeSlotMeaning(table: seq<Process?>, from: nat)
    ensures var r := FreeSlotFrom(table, from);
      if r < 0 then r == -8 && forall k :: from <= k < |table| ==> table[k] != null
      else from <= r < |table| && table[r] == null && forall k :: from <= k < r ==> table[k] != null
    decreases |table| - from
  {
    if from < |table| && table[from] != null {
      FreeSlotMeaning(table, from + 1);
    }
  }

  /** The state at one moment: the list, the process table, and what is running. */
  datatype Moment = Moment(tasks: seq<Task>, table: seq<Process?>, current: Task?, process: Process?)

  /** What one step makes of a state. A load puts a new process in the lowest free slot and runs its task at the tail of
      the list, or changes nothing when no slot is free; the end of the running program takes its task off the list and
      its process out of its slot, and the next task of the list, read as a ring, runs. */
  ghost predicate Follows(before: Moment, step: Step, after: Moment) {
    if step.LoadStep? then
      if null !in before.table then after == before
      else exists slot :: LoadedAt(before, slot, after)
    else
      exists i, slot :: EndedAt(before, i, slot, after)
  }

  ghost predicate LoadedAt(before: Moment, slot: nat, after: Moment) {
    && slot < |before.table| && before.table[slot] == null && (forall k :: 0 <= k < slot ==> before.table[k] != null)
    && after.process != null && after.process !in before.table && after.table == before.table[slot := after.process]
    && after.current != null && after.current !in before.tasks && after.tasks == before.tasks + [after.current]
  }

  ghost predicate EndedAt(before: Moment, i: nat, slot: nat, after: Moment) {
    && i < |before.tasks| && before.tasks[i] == before.current
    && after.tasks == before.tasks[..i] + before.tasks[i + 1..]
    && slot < |before.table| && before.table[slot] == before.process && after.table == before.table[slot := null]
    && (|before.tasks| > 1 ==> after.current == before.tasks[if i + 1 == |before.tasks| then 0 else i + 1])
  }

  lemma LoadFollowsAt(before: Moment, after: Moment, slot: nat)
    requires LoadedAt(before, slot, after)
    ensures Follows(before, LoadStep, after)
  {
  }

  class Kernel {
    var taskHead: Task?
    var taskTail: Task?
    var currentTask: Task?
    const processes: array<Process?>
    var currentProcess: Process?
    ghost var tasks: seq<Task>

    ghost function Loaded(): set<Process>
      reads processes
    {
      set i | 0 <= i < processes.Length && processes[i] != null :: processes[i]
    }

    /** The list is linked in both directions and its current task is on it. */
    ghost predicate ListOk()
      reads this, tasks
    {
      && Linked(tasks, taskHead, taskTail)
      && (currentTask == null <==> tasks == []) && (currentTask != null ==> currentTask in tasks)
    }

    /** Process table and task list are in bijection. */
    ghost predicate Paired()
      reads this`tasks, processes, Loaded(), tasks, set t | t in tasks :: t.process
    {
      && processes.Length == KERNEL_MAX_PROCESSES
      && (forall i :: 0 <= i < processes.Length && processes[i] != null ==>
            processes[i].id == i && processes[i].task != null && processes[i].task in tasks
              && processes[i].task.process == processes[i])
      && (forall t :: t in tasks ==>
            t.process != null && t.process.task == t && t.process.id < processes.Length
              && processes[t.process.id] == t.process)
    }

    ghost predicate Valid()
      reads this, processes, Loaded(), tasks, set t | t in tasks :: t.process
    {
      && ListOk() && Paired()
      && (currentTask == null ==> currentProcess == null)
      && (currentTask != null ==> currentProcess == currentTask.process)
    }

    constructor ()
      ensures Valid() && tasks == [] && fresh(processes) && processes.Length == 12
      ensures forall i :: 0 <= i < processes.Length ==> processes[i] == null
    {
      processes := new Process?[KERNEL_MAX_PROCESSES](_ => null);
      taskHead, taskTail, currentTask, currentProcess := null, null, null, null;
      tasks := [];
    }

    // ----- kernel/task.c

    /** `task_insert`. */
    method TaskInsert(task: Task)
      requires ListOk() && task !in tasks && task.next == null && task.prev == null
      modifies this`taskHead, this`taskTail, this`currentTask, this`tasks, tasks, task
      ensures ListOk() && tasks == old(tasks) + [task]
      ensures currentTask == if old(tasks) == [] then task else old(currentTask)
      ensures forall t :: t in tasks ==> t.process == old(t.process)
    {
      if taskHead == null {
        taskHead, taskTail, currentTask := task, task, task;
        tasks := [task];
        return;
      }
      taskTail.next := task;
      task.prev := taskTail;
      task.next := null;
      taskTail := task;
      tasks := tasks + [task];
    }

    /** `task_new`: a task for the process at the tail, or nothing when the allocator cannot supply it. */
    method TaskNew(process: Process, heapOk: bool) returns (task: Task?)
      requires ListOk()
      modifies this`taskHead, this`taskTail, this`currentTask, this`tasks, tasks
      ensures ListOk() && (task == null <==> !heapOk)
      ensures task == null ==> tasks == old(tasks) && currentTask == old(currentTask)
      ensures task != null ==> fresh(task) && tasks == old(tasks) + [task] && task.process == process
      ensures task != null ==> currentTask == if old(tasks) == [] then task else old(currentTask)
      ensures forall t :: t in old(tasks) ==> t.process == old(t.process)
    {
      if !heapOk {
        return null;
      }
      task := new Task();
      task.process := process;
      TaskInsert(task);
    }

    /** `task_get_next`: the cyclic successor of the current task, and nothing on an empty list. It is also called
        while the head has moved already, so what it reads is stated as well. */
    method TaskGetNext() returns (task: Task?)
      ensures ListOk() ==>
        if tasks == [] then task == null
        else exists i :: 0 <= i < |tasks| && tasks[i] == currentTask && task == tasks[Succ(i, |tasks|)]
      ensures task == if currentTask == null || currentTask.next == null then taskHead else currentTask.next
    {
      ghost var i :| ListOk() && tasks != [] ==> 0 <= i < |tasks| && tasks[i] == currentTask;
      if currentTask == null || currentTask.next == null {
        task := taskHead;
      } else {
        task := currentTask.next;
      }
      assert ListOk() && tasks != [] ==> tasks[i] == currentTask && task == tasks[Succ(i, |tasks|)];
    }

    /** `task_list_remove`: unlinks the task; if it was the current one, its cyclic successor becomes current. */
    method TaskListRemove(task: Task, ghost i: nat)
      requires ListOk() && i < |tasks| && tasks[i] == task
      modifies this`taskHead, this`taskTail, this`currentTask, this`tasks, tasks
      ensures ListOk() && tasks == RemoveAt(old(tasks), i)
      ensures old(currentTask) != task ==> currentTask == old(currentTask)
      ensures old(currentTask) == task && tasks != [] ==> currentTask == old(tasks)[Succ(i, |old(tasks)|)]
      ensures forall t :: t in old(tasks) ==> t.process == old(t.process)
    {
      hide Bypassed, Linked, RemoveAt;
      Neighbours(tasks, taskHead, taskTail, i);
      if currentTask != task {
        RemainsAfter<Task>(tasks, i, currentTask);
      } else if |tasks| > 1 {
        RemainsAfter(tasks, i, tasks[Succ(i, |tasks|)]);
      }
      RemoveAtMeaning(tasks, i);
      if taskHead == task {
        taskHead := task.next;
      }
      if taskTail == task {
        taskTail := task.prev;
      }
      if currentTask == task {
        currentTask := TaskGetNext();
        assert |tasks| > 1 ==> currentTask == tasks[Succ(i, |tasks|)];
      }
      BypassLinks(task, i);
      RelinkedIsLinked(tasks, i, taskHead, taskTail);
      tasks := RemoveAt(tasks, i);
    }

    /** The last two statements of `task_list_remove`. */
    method BypassLinks(task: Task, ghost i: nat)
      requires i < |tasks| && tasks[i] == task && Linked(tasks, At(tasks, 0), At(tasks, |tasks| - 1))
      modifies tasks
      ensures Bypassed(tasks, i)
      ensures forall t :: t in tasks ==> t.process == old(t.process)
    {
      if task.prev != null {
        task.prev.next := task.next;
      }
      if task.next != null {
        task.next.prev := task.prev;
      }
    }

    /** `task_free`. */
    method TaskFree(task: Task?, ghost i: nat)
      requires ListOk() && (task != null ==> i < |tasks| && tasks[i] == task)
      modifies this`taskHead, this`taskTail, this`currentTask, this`tasks, tasks
      ensures ListOk() && tasks == if task == null then old(tasks) else RemoveAt(old(tasks), i)
      ensures task == null || old(currentTask) != task ==> currentTask == old(currentTask)
      ensures task != null && old(currentTask) == task && tasks != [] ==>
        currentTask == old(tasks)[Succ(i, |old(tasks)|)]
      ensures forall t :: t in old(tasks) ==> t.process == old(t.process)
    {
      if task == null {
        return;
      }
      TaskListRemove(task, i);
    }

    /** `task_switch`, without the register and page-directory load. */
    method TaskSwitch(task: Task)
      modifies this`currentTask
      ensures currentTask == task
    {
      currentTask := task;
    }

    // ----- kernel/sched.c

    /** `process_get_free_slot`. */
    method ProcessGetFreeSlot() returns (slot: int)
      requires processes.Length == KERNEL_MAX_PROCESSES
      ensures slot == FreeSlot()
    {
      slot := 0;
      while slot < KERNEL_MAX_PROCESSES
        invariant 0 <= slot <= processes.Length
        invariant forall i :: 0 <= i < slot ==> processes[i] != null
        invariant FreeSlot() == FreeSlotFrom(processes[..], slot)
      {
        if processes[slot] == null {
          return;
        }
        slot := slot + 1;
      }
      slot := EISTKN;
    }

    ghost function FreeSlot(): int
      reads processes
    {
      FreeSlotFrom(processes[..], 0)
    }

    /** `process_switch_to_any`: the process in the lowest occupied slot, or a panic when there is none. */
    method ProcessSwitchToAny() returns (o: Outcome)
      requires processes.Length == KERNEL_MAX_PROCESSES
      modifies this`currentProcess
      ensures o == Running || o == NoProcesses
      ensures o == NoProcesses <==> forall i :: 0 <= i < processes.Length ==> processes[i] == null
      ensures if o == Running then LowestLoaded(processes[..], currentProcess)
        else currentProcess == old(currentProcess)
    {
      var i := 0;
      while i < KERNEL_MAX_PROCESSES
        invariant 0 <= i <= processes.Length
        invariant forall k :: 0 <= k < i ==> processes[k] == null
      {
        if processes[i] != null {
          currentProcess := processes[i];
          return Running;
        }
        i := i + 1;
      }
      o := NoProcesses;
    }

    /** `process_unlink`. */
    method ProcessUnlink(p: Process) returns (o: Outcome)
      requires processes.Length == KERNEL_MAX_PROCESSES && p.id < processes.Length
      modifies this`currentProcess, processes
      ensures processes[..] == old(processes[..])[p.id := null]
      ensures o == Running || o == NoProcesses
      ensures o == NoProcesses <==> old(currentProcess) == p && forall i :: 0 <= i < processes.Length ==>
        processes[i] == null
      ensures if old(currentProcess) == p && o == Running
        then LowestLoaded(processes[..], currentProcess) else currentProcess == old(currentProcess)
    {
      processes[p.id] := null;
      o := Running;
      if currentProcess == p {
        o := ProcessSwitchToAny();
      }
    }

    /** `process_terminate`, as far as the task list and the process table see it. */
    method ProcessTerminate(p: Process?, ghost i: nat) returns (o: Outcome)
      requires ListOk() && processes.Length == KERNEL_MAX_PROCESSES
      requires p != null ==> p.id < processes.Length && (p.task != null ==> i < |tasks| && tasks[i] == p.task)
      modifies this, processes, tasks
      ensures p == null ==>
        && o == Running && tasks == old(tasks) && currentTask == old(currentTask)
        && currentProcess == old(currentProcess) && processes[..] == old(processes[..])
      ensures ListOk()
      ensures p != null ==> tasks == if p.task == null then old(tasks) else RemoveAt(old(tasks), i)
      ensures p != null ==> (p.task == null || old(currentTask) != p.task ==> currentTask == old(currentTask))
      ensures p != null ==> (p.task != null && old(currentTask) == p.task && tasks != [] ==>
        currentTask == old(tasks)[Succ(i, |old(tasks)|)])
      ensures p != null ==> processes[..] == old(processes[..])[p.id := null]
      ensures p != null ==> (o == Running || o == NoProcesses)
      ensures p != null ==> (o == NoProcesses <==>
        old(currentProcess) == p && forall k :: 0 <= k < processes.Length ==> processes[k] == null)
      ensures p != null && old(currentProcess) != p ==> currentProcess == old(currentProcess)
      ensures forall t :: t in old(tasks) ==> t.process == old(t.process)
    {
      if p == null {
        return Running;
      }
      TaskFree(p.task, i);
      o := ProcessUnlink(p);
    }

    /** `task_next`. */
    method TaskNext() returns (o: Outcome)
      modifies this`currentTask, this`currentProcess
      ensures currentTask == old(currentTask)
      ensures o == if currentTask == null then NoTasks else Running
      ensures currentTask != null ==> currentProcess == currentTask.process
    {
      var next := currentTask;
      if next == null {
        return NoTasks;
      }
      currentProcess := next.process;
      TaskSwitch(next);
      o := Running;
    }

    // ----- kernel/isr80h.c and arch/x86/kernel/idt.c: whole steps

    /** What the end of the current process does, whichever way it comes about: task i leaves the list, its cyclic
        successor and that task's process run next, and only the process's own slot is cleared. With no successor the
        kernel stops because no process is left. */
    twostate predicate CurrentEnded(o: Outcome, i: nat)
      requires old(Valid() && tasks != [])
      reads *
    {
      && i < |old(tasks)| && old(tasks)[i] == old(currentTask) && tasks == RemoveAt(old(tasks), i)
      && processes[..] == old(processes[..])[old(currentProcess.id) := null]
      && o == (if |old(tasks)| == 1 then NoProcesses else Running)
      && (o == Running ==> Valid() && currentTask == old(tasks)[Succ(i, |old(tasks)|)])
      && forall t :: t in old(tasks) ==> t.process == old(t.process)
    }

    /** Every other process keeps its task on the list, and some other process is loaded exactly when some other task
        is. */
    lemma OthersStay(i: nat)
      requires Valid() && i < |tasks|
      ensures var id := tasks[i].process.id;
        && id < processes.Length && processes[id] == tasks[i].process
        && (forall k :: 0 <= k < processes.Length && k != id && processes[k] != null ==>
          processes[k].task in RemoveAt(tasks, i))
        && (forall t :: t in RemoveAt(tasks, i) ==> t in tasks && t != tasks[i] && t.process.id != id)
        && ((exists k :: 0 <= k < processes.Length && k != id && processes[k] != null) <==> |tasks| > 1)
    {
      var p := tasks[i].process;
      forall t | t in tasks && t != tasks[i] ensures t in RemoveAt(tasks, i) {
        var k :| 0 <= k < |tasks| && tasks[k] == t;
        assert k < i ==> RemoveAt(tasks, i)[k] == t;
        assert k > i ==> RemoveAt(tasks, i)[k - 1] == t;
      }
      if |tasks| > 1 {
        var o := tasks[if i == 0 then 1 else 0];
        assert o in tasks && o != tasks[i];
        assert processes[o.process.id] == o.process;
      } else {
        assert tasks == [tasks[i]];
        forall k | 0 <= k < processes.Length && processes[k] != null ensures k == p.id {
          assert processes[k].task in tasks;
        }
      }
    }

    /** `process_terminate` of the current process, whose task is task i. */
    method TerminateCurrent(p: Process, ghost i: nat) returns (o: Outcome)
      requires Valid() && i < |tasks| && tasks[i] == currentTask == p.task && p == currentProcess
      modifies this, processes, tasks
      ensures ListOk() && Paired() && tasks == RemoveAt(old(tasks), i)
      ensures processes[..] == old(processes[..])[p.id := null]
      ensures o == if |old(tasks)| == 1 then NoProcesses else Running
      ensures o == Running ==> tasks != [] && currentTask == old(tasks)[Succ(i, |old(tasks)|)]
      ensures forall t :: t in old(tasks) ==> t.process == old(t.process)
    {
      hide Linked, LowestLoaded, RemoveAt, Succ, Loaded;
      ghost var table := processes[..];
      OthersStay(i);
      o := ProcessTerminate(p, i);
      assert forall k :: 0 <= k < processes.Length && k != p.id ==> processes[k] == table[k];
    }

    /** The statements that system command 9 and the exception handler share. */
    method EndCurrent(p: Process?) returns (o: Outcome, ghost i: nat)
      requires Valid() && tasks != [] && p == currentProcess
      modifies this, processes, tasks
      ensures CurrentEnded(o, i)
    {
      hide Linked, RemoveAt, Succ;
      i :| 0 <= i < |tasks| && tasks[i] == currentTask;
      o := TerminateCurrent(p, i);
      if o != Running {
        return;
      }
      o := TaskNext();
    }

    /** System command 9: the running program exits. */
    method Exit() returns (o: Outcome, ghost i: nat)
      requires Valid() && tasks != []
      modifies this, processes, tasks
      ensures CurrentEnded(o, i)
    {
      var process := currentTask.process;
      o, i := EndCurrent(process);
    }

    /** `idt_handle_exception`: the running program faults. */
    method Exception() returns (o: Outcome, ghost i: nat)
      requires Valid() && tasks != []
      modifies this, processes, tasks
      ensures CurrentEnded(o, i)
    {
      o, i := EndCurrent(currentProcess);
    }

    /** `process_load` when it succeeds: a new process takes the lowest free slot and its task the tail of the list. */
    method ProcessLoad() returns (res: int, process: Process?)
      requires ListOk() && Paired()
      modifies this`taskHead, this`taskTail, this`currentTask, this`tasks, processes, tasks
      ensures ListOk() && Paired()
      ensures res == if old(FreeSlot()) < 0 then EISTKN else OK
      ensures res != OK ==>
        tasks == old(tasks) && currentTask == old(currentTask) && processes[..] == old(processes[..])
      ensures res == OK ==>
        && process != null && fresh(process) && process.task != null && fresh(process.task)
        && process.task.process == process
      ensures res == OK ==> tasks == old(tasks) + [process.task] && 0 <= old(FreeSlot()) < processes.Length
      ensures res == OK ==> processes[..] == old(processes[..])[old(FreeSlot()) := process]
      ensures forall t :: t in old(tasks) ==> t.process == old(t.process)
    {
      hide FreeSlotFrom, ListOk;
      FreeSlotMeaning(processes[..], 0);
      var slot := ProcessGetFreeSlot();
      if slot < 0 {
        return EISTKN, null;
      }
      var p := new Process();
      p.task := TaskNew(p, true);
      p.id := slot;
      processes[slot] := p;
      assert forall k :: 0 <= k < processes.Length && k != slot ==> processes[k] == old(processes[k]);
      forall t | t in tasks ensures t == p.task || t in old(tasks) {
      }
      res, process := OK, p;
    }

    /** System commands 6 and 7, and the first load at boot, when the load succeeds: the new task goes to the tail and
        runs at once; a full process table changes nothing. */
    method LoadStart() returns (res: int)
      requires Valid()
      modifies this, processes, tasks
      ensures Valid()
      ensures res == if old(FreeSlot()) < 0 then EISTKN else OK
      ensures res != OK ==>
        tasks == old(tasks) && currentTask == old(currentTask) && processes[..] == old(processes[..])
      ensures res == OK ==> fresh(currentTask) && tasks == old(tasks) + [currentTask] && fresh(currentTask.process)
      ensures res == OK ==> 0 <= old(FreeSlot()) < processes.Length
      ensures res == OK ==> processes[..] == old(processes[..])[old(FreeSlot()) := currentTask.process]
      ensures forall t :: t in old(tasks) ==> t.process == old(t.process)
    {
      hide Linked, FreeSlotFrom;
      var process;
      res, process := ProcessLoad();
      if res < 0 {
        return;
      }
      currentProcess := process;
      TaskSwitch(process.task);
      assert tasks[|tasks| - 1] == currentTask;
    }

    /** The end of a process that has no id yet, with or without a task at the tail of the list. */
    method EndHalfBuilt(hasTask: bool)
      requires Valid() && FreeSlot() >= 0
      modifies this, processes, tasks
      ensures ListOk() && tasks == old(tasks) && currentTask == old(currentTask)
      ensures currentProcess == old(currentProcess) && processes.Length > 0
      ensures processes[..] == old(processes[..])[0 := null]
      ensures forall t :: t in tasks ==> t.process == old(t.process)
    {
      hide Linked, FreeSlotFrom;
      ghost var list := tasks;
      var process := new Process();
      if hasTask {
        process.task := TaskNew(process, true);
      }
      var _ := ProcessTerminate(process, |list|);
      assert tasks == list;
    }

    /** A load that fails after a slot was found. Its cleanup runs before the process is given its id, so the slot
        cleared is slot 0, not the slot of the load: the bijection survives exactly when slot 0 was free anyway, or
        nothing had been built. */
    method LoadFails(stage: FailStage) returns (res: int)
      requires Valid()
      modifies this, processes, tasks
      ensures res == if old(FreeSlot()) < 0 then EISTKN else ENOMEM
      ensures tasks == old(tasks) && currentTask == old(currentTask) && currentProcess == old(currentProcess)
      ensures processes[..] == if old(FreeSlot()) < 0 || stage == NothingBuilt then old(processes[..])
        else old(processes[..])[0 := null]
      ensures Valid() <==> old(FreeSlot()) < 0 || stage == NothingBuilt || old(processes[0]) == null
    {
      hide Linked, FreeSlotFrom;
      var slot := ProcessGetFreeSlot();
      if slot < 0 {
        return EISTKN;
      }
      res := ENOMEM;
      if stage == NothingBuilt {
        var _ := ProcessTerminate(null, 0);
        return;
      }
      ghost var table := processes[..];
      EndHalfBuilt(stage == TaskBuilt);
      if table[0] == null {
        assert processes[..] == table;
        assert Paired();
      } else {
        assert table[0].task in tasks && table[0].task.process == table[0] && table[0].id == 0;
      }
    }

    // ----- whole runs

    ghost function Now(): Moment
      reads this, processes
    {
      Moment(tasks, processes[..], currentTask, currentProcess)
    }

    /** The running process is in its slot. */
    lemma InItsSlot() returns (slot: nat)
      requires Valid() && tasks != []
      ensures currentProcess != null && slot == currentProcess.id < processes.Length
      ensures processes[..][slot] == currentProcess
    {
      hide Linked;
      slot := currentTask.process.id;
    }

    /** One step of a run. */
    method OneStep(step: Step) returns (o: Outcome)
      requires Valid() && tasks != []
      modifies this, processes, tasks
      ensures o != NoTasks && Follows(old(Now()), step, Now())
      ensures o == Running ==> Valid() && tasks != []
      ensures o == NoProcesses <==> !step.LoadStep? && |old(tasks)| == 1
      ensures o == NoProcesses ==> tasks == []
      ensures forall t :: t in tasks ==> t in old(tasks) || fresh(t)
    {
      hide Linked, FreeSlotFrom, Paired;
      o := Running;
      ghost var before := Now();
      ghost var slot := InItsSlot();
      ghost var i;
      match step {
        case LoadStep =>
          FreeSlotMeaning(processes[..], 0);
          ghost var free := FreeSlot();
          var _ := LoadStart();
          if free >= 0 {
            assert LoadedAt(before, free, Now());
            LoadFollowsAt(before, Now(), free);
          }
        case ExitStep =>
          o, i := Exit();
          assert EndedAt(before, i, slot, Now());
        case FaultStep =>
          o, i := Exception();
          assert EndedAt(before, i, slot, Now());
      }
    }

    /** From a running system every sequence of loads, exits and exceptions keeps table, list and current pointers
        consistent until the last program ends, and then the panic is the one about processes: the one about tasks is
        never reached. Each step has its own effect, and none is left out before the kernel stops. */
    method RunSteps(steps: seq<Step>) returns (o: Outcome, ghost trace: seq<Moment>)
      requires Valid() && tasks != []
      modifies this, processes, tasks
      ensures o != NoTasks
      ensures o == Running ==> Valid() && tasks != []
      ensures 0 < |trace| <= |steps| + 1 && trace[0] == old(Now()) && trace[|trace| - 1] == Now()
      ensures forall k :: 0 <= k < |trace| - 1 ==> Follows(trace[k], steps[k], trace[k + 1])
      ensures if o == Running then |trace| == |steps| + 1 else tasks == []
    {
      hide Linked, FreeSlotFrom, Paired, Follows;
      o, trace := Running, [Now()];
      var k := 0;
      while k < |steps| && o == Running
        invariant 0 <= k <= |steps| && o != NoTasks
        invariant o == Running ==> Valid() && tasks != []
        invariant o != Running ==> tasks == []
        invariant forall i :: 0 <= i < |tasks| ==> OneOf(old(tasks), tasks[i]) || fresh(tasks[i])
        invariant |trace| == k + 1 && trace[0] == old(Now()) && trace[k] == Now()
        invariant forall j :: 0 <= j < k ==> Follows(trace[j], steps[j], trace[j + 1])
      {
        o := OneStep(steps[k]);
        assert forall i :: 0 <= i < |tasks| ==> tasks[i] in tasks;
        trace := trace + [Now()];
        k := k + 1;
      }
    }

    lemma TasksDistinct()
      requires ListOk()
      ensures forall i, j :: 0 <= i < j < |tasks| ==> tasks[i] != tasks[j]
    {
    }

    /** If every running program ends, by exit or by exception, and nothing is loaded, each task on the list runs
        exactly once, in cyclic list order from the current one, and then the kernel stops for want of processes. */
    method RunAllToEnd(ghost i: nat) returns (ghost ran: seq<Task>, o: Outcome)
      requires Valid() && i < |tasks| && tasks[i] == currentTask
      modifies this, processes, tasks
      ensures ran == Rotation(old(tasks), i) && o == NoProcesses && tasks == []
    {
      hide Linked, Paired, Rotation, RemoveAt;
      o, ran := Running, [];
      ghost var j: nat := i;
      ghost var all := Rotation(tasks, i);
      while o == Running
        invariant o == Running ==> Valid() && j < |tasks| && tasks[j] == currentTask && all == ran + Rotation(tasks, j)
        invariant o != Running ==> o == NoProcesses && tasks == [] && ran == all
        invariant forall k :: 0 <= k < |tasks| ==> OneOf(old(tasks), tasks[k])
        decreases |tasks|
      {
        ghost var list, running, at := tasks, currentTask, j;
        TasksDistinct();
        var faults: bool := *;
        ghost var gone;
        if faults {
          o, gone := Exception();
        } else {
          o, gone := Exit();
        }
        assert list[gone] == running == list[at];
        assert gone == at;
        ran := ran + [running];
        if |list| > 1 {
          RotationStep(list, at);
          RemoveAtMeaning(list, at);
          j := if at < |tasks| then at else 0;
        } else {
          RotationOfOne(list);
          RemoveAtMeaning(list, at);
        }
      }
    }

    /** A program loaded and switched to, ending at once, hands control to the head of the list and leaves list and
        table as they were. */
    method LoadThenEnd() returns (res: int, o: Outcome)
      requires Valid() && tasks != []
      modifies this, processes, tasks
      ensures res == OK ==>
        && o == Running && Valid() && tasks == old(tasks) && currentTask == old(tasks)[0]
        && processes[..] == old(processes[..])
    {
      hide Linked, FreeSlotFrom;
      o := Running;
      FreeSlotMeaning(processes[..], 0);
      ghost var list, table := tasks, processes[..];
      res := LoadStart();
      if res == OK {
        ghost var gone;
        o, gone := Exit();
        assert gone == |list|;
        assert RemoveAt(list + [old(tasks)[0]], |list|) == list;
      }
    }
  }

  /** With the boot program in slot 0, one failed command is enough to break the bijection: its process keeps running
      without a slot. */
  method FailedCommandAfterBoot() returns (k: Kernel)
    ensures !k.Valid() && k.currentTask != null && k.processes.Length > 0 && k.processes[0] == null
  {
    k := new Kernel();
    FreeSlotMeaning(k.processes[..], 0);
    var _ := k.LoadStart();
    FreeSlotMeaning(k.processes[..], 0);
    assert k.processes[..][0] != null && k.processes[..][1] == null;
    var _ := k.LoadFails(DescriptorBuilt);
  }
}
