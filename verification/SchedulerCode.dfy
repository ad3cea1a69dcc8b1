/** schedule, do_timer and sys_nice of kernel/sched.c and find_empty_process of kernel/fork.c, as they run on the table
  of task structures. */
module SchedulerCode {
  import opened Scheduler

  const EAGAIN: int := 11

  class TaskStruct {
    var state: State
    var counter: int
    var priority: int
    var signal: set<nat>
    var alarm: int
    var pid: int
    var father: int

    constructor (t: Task)
      ensures Value() == t
    {
      state, counter, priority, signal := t.state, t.counter, t.priority, t.signal;
      alarm, pid, father := t.alarm, t.pid, t.father;
    }

    function Value(): Task
      reads this
    {
      Task(state, counter, priority, signal, alarm, pid, father)
    }
  }

  class Kernel {
    const task: array<TaskStruct?>
    var current: nat
    var jiffies: int
    var lastPid: int

    ghost function Structs(): set<TaskStruct>
      reads task
    {
      set i | 0 <= i < task.Length && task[i] != null :: task[i]
    }

    ghost predicate Valid()
      reads this, task, Structs()
    {
      && task.Length == NR_TASKS && task[0] != null && current < NR_TASKS
      && forall i, j :: 0 <= i < j < NR_TASKS && task[i] != null ==> task[i] != task[j]
    }

    ghost function Tasks(): (s: seq<Slot>)
      reads task, Structs()
      ensures |s| == task.Length
      ensures forall i :: 0 <= i < task.Length ==> s[i] == if task[i] == null then Free else Taken(task[i].Value())
    {
      seq(task.Length, i requires 0 <= i < task.Length reads task, Structs() =>
        if task[i] == null then Free else Taken(task[i].Value()))
    }

    ghost function S(): Sched
      reads this, task, Structs()
    {
      Sched(Tasks(), current, jiffies, lastPid)
    }

    /** Only task 0 is there. */
    constructor ()
      ensures Valid() && S() == Boot() && fresh(task) && fresh(Structs())
    {
      var table := new TaskStruct?[NR_TASKS](i => null);
      var init := new TaskStruct(Boot().tasks[0].task);
      table[0] := init;
      task := table;
      current, jiffies, lastPid := 0, 0, 0;
      new;
      assert Tasks() == Boot().tasks;
    }

    /** The first loop of schedule. */
    method Rouse()
      requires Valid()
      modifies Structs()
      ensures Valid() && Tasks() == RousedAll(old(Tasks()), jiffies)
    {
      var p := NR_TASKS - 1;
      while p > 0
        invariant 0 <= p < NR_TASKS && Valid()
        invariant forall i :: 0 <= i < NR_TASKS && task[i] != null ==>
          task[i].Value() == if i > p then Roused(old(task[i].Value()), jiffies) else old(task[i].Value())
      {
        var t := task[p];
        if t != null {
          if t.alarm != 0 && t.alarm < jiffies {
            t.signal := t.signal + {SIGALRM};
            t.alarm := 0;
          }
          if t.signal != {} && t.state == Interruptible {
            t.state := Running;
          }
        }
        p := p - 1;
      }
    }

    /** The scan for the runnable task with the largest counter. */
    method Search() returns (c: int, next: nat)
      requires Valid()
      ensures (c, next) == Scan(Tasks(), NR_TASKS, -1, 0)
    {
      c, next := -1, 0;
      var i := NR_TASKS - 1;
      while i != 0
        invariant 0 <= i < NR_TASKS && next < NR_TASKS
          && Scan(Tasks(), i + 1, c, next) == Scan(Tasks(), NR_TASKS, -1, 0)
      {
        var t := task[i];
        if t != null && t.state == Running && t.counter > c {
          c, next := t.counter, i;
        }
        i := i - 1;
      }
    }

    method Recharge()
      requires Valid()
      modifies Structs()
      ensures Valid() && Tasks() == Recharged(old(Tasks()))
    {
      var p := NR_TASKS - 1;
      while p > 0
        invariant 0 <= p < NR_TASKS && Valid()
        invariant forall i :: 0 <= i < NR_TASKS && task[i] != null ==>
          task[i].Value() == if i > p then Refilled(old(task[i].Value())) else old(task[i].Value())
      {
        var t := task[p];
        if t != null {
          t.counter := Long(t.counter / 2 + t.priority);
        }
        p := p - 1;
      }
    }

    /** The scheduler proper; it ends because a recharge leaves every runnable task some time. */
    method Choose() returns (next: nat)
      requires Valid() && Ranged(Tasks())
      modifies Structs()
      ensures Valid() && (Tasks(), next) == Passes(old(Tasks()))
    {
      ghost var r := Tasks();
      ghost var passes := 0;
      var c;
      c, next := Search();
      while c == 0
        invariant 0 <= passes <= 1 && Valid() && next < NR_TASKS && (c, next) == Scan(Tasks(), NR_TASKS, -1, 0)
        invariant Ranged(r) && (passes == 0 ==> Tasks() == r)
        invariant passes == 1 ==> Scan(r, NR_TASKS, -1, 0).0 == 0 && Tasks() == Recharged(r) && c > 0
        decreases 1 - passes
      {
        RechargeEnds(r);
        Recharge();
        c, next := Search();
        passes := passes + 1;
      }
    }

    method Schedule()
      requires Valid() && Ranged(Tasks())
      modifies this, Structs()
      ensures Valid() && S() == Scheduler.Schedule(old(S()))
    {
      Rouse();
      current := Choose();
    }

    method DoTimer(user: bool)
      requires Valid() && Ranged(Tasks()) && task[current] != null
      modifies this, Structs()
      ensures Valid() && S() == Scheduler.DoTimer(old(S()), user)
    {
      ghost var s := S();
      var t := task[current];
      t.counter := Long(t.counter - 1);
      if t.counter > 0 {
        assert Tasks() == Set(s, current, t.Value()).tasks;
        return;
      }
      t.counter := 0;
      assert Tasks() == Set(s, current, t.Value()).tasks;
      if user {
        Schedule();
      }
    }

    /** What the timer interrupt does with the task table. */
    method TimerInterrupt(user: bool)
      requires Valid() && Good(S())
      modifies this, Structs()
      ensures Valid() && S() == Step(old(S()), Timer(user)) && Good(S())
    {
      ghost var t := TimerKeeps(S(), user);
      jiffies := jiffies + 1;
      assert S() == t;
      DoTimer(user);
    }

    method SysNice(increment: int)
      requires Valid() && task[current] != null
      modifies Structs()
      ensures Valid() && S() == Set(old(S()), current, Niced(old(S()).tasks[current].task, increment))
    {
      var t := task[current];
      if Long(t.priority - increment) > 0 {
        t.priority := Long(t.priority - increment);
      }
      assert Tasks() == Set(old(S()), current, Niced(old(S()).tasks[current].task, increment)).tasks;
    }

    /** Whether a live task has the pid in last_pid. */
    method PidTaken(ghost tasks: seq<Slot>) returns (b: bool)
      requires Valid() && Tasks() == tasks
      ensures b == Live(tasks, lastPid)
    {
      var i := 0;
      while i < NR_TASKS
        invariant i <= NR_TASKS
        invariant forall j :: 0 <= j < i && task[j] != null ==> task[j].pid != lastPid
      {
        if task[i] != null && task[i].pid == lastPid {
          assert tasks[i].task.pid == lastPid;
          return true;
        }
        i := i + 1;
      }
      return false;
    }

    /** The first two lines of the retry loop: the next pid, and whether a task has it. */
    method TryPid(ghost tasks: seq<Slot>) returns (again: bool)
      requires Valid() && Tasks() == tasks
      modifies `lastPid
      ensures Tasks() == tasks && lastPid == Bump(old(lastPid)) && again == Live(tasks, Bump(old(lastPid)))
    {
      lastPid := if lastPid == LAST_PID then 1 else lastPid + 1;
      again := PidTaken(tasks);
    }

    /** The retry loop of find_empty_process. */
    method NextPid()
      requires Valid() && 0 <= lastPid <= LAST_PID
      modifies `lastPid
      ensures Valid() && S() == old(S()).(lastPid := FreshPid(old(Tasks()), old(lastPid)))
    {
      ghost var tasks := Tasks();
      ghost var left := FreshPidIsFree(tasks, lastPid);
      ghost var q := FreshPid(tasks, lastPid);
      OneTry(tasks, lastPid, q, left);
      var again := TryPid(tasks);
      while again
        invariant Tasks() == tasks
        invariant if again then left > 1 && FirstFree(tasks, lastPid, q, left - 1) else lastPid == q
        decreases left
      {
        left := left - 1;
        OneTry(tasks, lastPid, q, left);
        again := TryPid(tasks);
      }
    }

    /** find_empty_process */
    method FindEmptyProcess() returns (nr: int)
      requires Valid() && 0 <= lastPid <= LAST_PID
      modifies `lastPid
      ensures Valid() && S() == old(S()).(lastPid := FreshPid(old(Tasks()), old(lastPid)))
      ensures nr == if EmptySlot(Tasks(), 1) == -1 then -EAGAIN else EmptySlot(Tasks(), 1)
    {
      NextPid();
      nr := 1;
      while nr < NR_TASKS
        invariant 1 <= nr <= NR_TASKS && EmptySlot(Tasks(), nr) == EmptySlot(Tasks(), 1)
      {
        if task[nr] == null {
          return;
        }
        nr := nr + 1;
      }
      nr := -EAGAIN;
    }

    /** What copy_process does with the task table. `memory` says whether its two allocations succeed. */
    method CopyProcess(nr: nat, memory: bool) returns (r: int)
      requires Valid() && 0 < nr < NR_TASKS && task[nr] == null && task[current] != null
      modifies task
      ensures Valid() && S() == if memory then old(Filled(S(), nr)) else old(S())
      ensures r == if memory then lastPid else -EAGAIN
    {
      if !memory {
        return -EAGAIN;
      }
      var p := new TaskStruct(task[current].Value());
      p.state := Running;
      p.pid := lastPid;
      p.father := task[current].pid;
      p.counter := p.priority;
      p.signal := {};
      p.alarm := 0;
      task[nr] := p;
      assert Tasks() == old(Filled(S(), nr)).tasks;
      r := lastPid;
    }

    /** sys_fork */
    method SysFork(memory: bool) returns (r: int)
      requires Valid() && Good(S())
      modifies this, task
      ensures Valid() && S() == Step(old(S()), Fork(memory)) && Good(S())
      ensures r == if memory && EmptySlot(old(Tasks()), 1) != -1 then lastPid else -EAGAIN
    {
      Scheduler.StepKeeps(S(), Fork(memory));
      r := FindEmptyProcess();
      if r >= 0 {
        r := CopyProcess(r, memory);
      }
    }
  }
}
