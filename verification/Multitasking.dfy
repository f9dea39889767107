/** `Task` and `TaskManager` (src/multitasking.cpp). */
module Multitasking {
  import opened Bytes
  import opened RoundRobin

  /** The saved registers of a task; a pointer to them is a reference to this object. */
  class CPUState {
    var eax: uint32
    var ebx: uint32
    var ecx: uint32
    var edx: uint32
    var esi: uint32
    var edi: uint32
    var ebp: uint32
    var eip: uint32
    var cs: uint32
    var eflags: uint32

    constructor ()
    {
    }
  }

  class Task {
    var cpustate: CPUState

    constructor (codeSegment: uint32, entrypoint: uint32)
      ensures fresh(cpustate)
      ensures cpustate.eip == entrypoint && cpustate.cs == codeSegment && cpustate.eflags == 0x202
      ensures cpustate.eax == cpustate.ebx == cpustate.ecx == cpustate.edx == 0
      ensures cpustate.esi == cpustate.edi == cpustate.ebp == 0
    {
      cpustate := new CPUState();
      new;
      cpustate.eax := 0;
      cpustate.ebx := 0;
      cpustate.ecx := 0;
      cpustate.edx := 0;
      cpustate.esi := 0;
      cpustate.edi := 0;
      cpustate.ebp := 0;
      cpustate.eip := entrypoint;
      cpustate.cs := codeSegment;
      cpustate.eflags := 0x202;
    }
  }

  class TaskManager {
    const tasks: array<Task?>
    var numTasks: int
    var currentTask: int

    ghost predicate ValidTasks()
      reads this, tasks
    {
      && tasks.Length == MAX_TASKS
      && 0 <= numTasks <= MAX_TASKS && -1 <= currentTask && (currentTask == -1 || currentTask < numTasks)
      && forall i :: 0 <= i < numTasks ==> tasks[i] != null
    }

    /** The tasks in order. */
    ghost function TaskList(): (r: seq<Task>)
      requires ValidTasks()
      reads this, tasks
      ensures |r| == numTasks && forall i :: 0 <= i < numTasks ==> r[i] == tasks[i]
    {
      seq(numTasks, i requires 0 <= i < numTasks && ValidTasks() reads this, tasks => tasks[i])
    }

    ghost function State(): Sched<Task, CPUState>
      requires ValidTasks()
      reads this, tasks, TaskList()
    {
      Sched(TaskList(), map t | t in TaskList() :: t.cpustate, currentTask)
    }

    constructor ()
      ensures ValidTasks() && State() == Empty() && fresh(tasks)
    {
      tasks := new Task?[MAX_TASKS](_ => null);
      numTasks := 0;
      currentTask := -1;
    }

    method AddTask(task: Task) returns (ok: bool)
      requires ValidTasks()
      modifies this`numTasks, tasks
      ensures ValidTasks()
      ensures State() == Add(old(State()), task, task.cpustate)
      ensures ok <==> old(numTasks) < 256
    {
      if numTasks >= MAX_TASKS {
        return false;
      }
      ghost var s := State();
      tasks[numTasks] := task;
      numTasks := numTasks + 1;
      assert TaskList() == s.tasks + [task];
      return true;
    }

    /** Saves the state of the current task. */
    method Save(cpustate: CPUState)
      requires ValidTasks() && currentTask >= 0
      modifies TaskList()
      ensures ValidTasks() && TaskList() == old(TaskList())
      ensures State() == old(State()).(saved := old(State()).saved[TaskList()[currentTask] := cpustate])
    {
      tasks[currentTask].cpustate := cpustate;
    }

    /** Moves on to the next task, or back to the first one. */
    method Advance()
      requires ValidTasks() && numTasks > 0
      modifies this`currentTask
      ensures ValidTasks()
      ensures State() == old(State()).(current := if AtEnd(old(State())) then 0 else old(currentTask) + 1)
    {
      currentTask := currentTask + 1;
      if currentTask >= numTasks {
        currentTask := 0;
      }
    }

    method Schedule(cpustate: CPUState) returns (r: CPUState)
      requires ValidTasks()
      modifies this`currentTask, TaskList()
      ensures ValidTasks() && TaskList() == old(TaskList())
      ensures State() == Tick(old(State()), cpustate)
      ensures r == TickResult(old(State()), cpustate)
    {
      if numTasks <= 0 {
        return cpustate;
      }
      if currentTask >= 0 {
        Save(cpustate);
      }
      Advance();
      return tasks[currentTask].cpustate;
    }
  }
}
