/** The task table: schedule, do_timer and sys_nice of kernel/sched.c, find_empty_process and copy_process of
  kernel/fork.c, and how kernel/exit.c ends a task. */
module Scheduler {
  import opened Common

  const NR_TASKS: nat := 64
  const SIGCHLD: nat := 17
  const SIGALRM: nat := 14
  const HZ: int := 100
  const LAST_PID: int := 0x7fffffff
  const MOST: int := 0x7fffffff // of a long
  const SAFE: int := 0x4000_0000 // see HalfIsExact

  /** Arithmetic on a long, of 32 bits. */
  function Long(x: int): (r: int)
    ensures -MOST - 1 <= r <= MOST && (-MOST - 1 <= x <= MOST ==> r == x)
  {
    (x + MOST + 1) % 0x1_0000_0000 - MOST - 1
  }

  datatype State = Running | Interruptible | Uninterruptible | Zombie

  /** `signal` is the set of signals raised; `alarm` is 0 or a time in jiffies. */
  datatype Task = Task(state: State, counter: int, priority: int, signal: set<nat>, alarm: int, pid: int, father: int)
  datatype Slot = Free | Taken(task: Task)

  datatype Sched = Sched(tasks: seq<Slot>, current: nat, jiffies: int, lastPid: int)

  predicate Shape(s: Sched) {
    |s.tasks| == NR_TASKS && s.tasks[0].Taken? && s.current < NR_TASKS
  }

  predicate Runnable(tasks: seq<Slot>, i: int) {
    0 < i < |tasks| && tasks[i].Taken? && tasks[i].task.state == Running
  }

  ghost predicate Someone(tasks: seq<Slot>) {
    exists i :: Runnable(tasks, i)
  }

  // ---------------------------------------------------------------------------------------------------------
  // schedule

  /** Alarms that are past and signals that interrupt a sleep. */
  function Roused(t: Task, jiffies: int): Task {
    var t1 := if t.alarm != 0 && t.alarm < jiffies then t.(signal := t.signal + {SIGALRM}, alarm := 0) else t;
    if t1.signal != {} && t1.state == Interruptible then t1.(state := Running) else t1
  }

  /** `f` is not applied to task 0. */
  function RousedAll(tasks: seq<Slot>, jiffies: int): (r: seq<Slot>)
    ensures |r| == |tasks|
    ensures forall i :: 0 <= i < |tasks| ==>
      r[i] == if i > 0 && tasks[i].Taken? then Taken(Roused(tasks[i].task, jiffies)) else tasks[i]
  {
    seq(|tasks|, i requires 0 <= i < |tasks| =>
      if i > 0 && tasks[i].Taken? then Taken(Roused(tasks[i].task, jiffies)) else tasks[i])
  }

  /** The inner scan, downwards from task i - 1, with the best so far: its counter and its number. */
  function Scan(tasks: seq<Slot>, i: nat, c: int, next: nat): (r: (int, nat))
    requires i <= |tasks| && next < |tasks|
    ensures r.1 < |tasks|
  {
    if i <= 1 then (c, next)
    else if Runnable(tasks, i - 1) && tasks[i - 1].task.counter > c
      then Scan(tasks, i - 1, tasks[i - 1].task.counter, i - 1)
    else Scan(tasks, i - 1, c, next)
  }

  function Refilled(t: Task): Task {
    t.(counter := Long(t.counter / 2 + t.priority))
  }

  function Recharged(tasks: seq<Slot>): (r: seq<Slot>)
    ensures |r| == |tasks|
    ensures forall i :: 0 <= i < |tasks| ==>
      r[i] == if i > 0 && tasks[i].Taken? then Taken(Refilled(tasks[i].task)) else tasks[i]
  {
    seq(|tasks|, i requires 0 <= i < |tasks| => if i > 0 && tasks[i].Taken? then Taken(Refilled(tasks[i].task))
      else tasks[i])
  }

  /** Counters and priorities are longs, and sys_nice keeps the priorities positive. */
  ghost predicate Ranged(tasks: seq<Slot>) {
    forall i :: 0 <= i < |tasks| && tasks[i].Taken? ==>
      -MOST - 1 <= tasks[i].task.counter <= MOST && 0 < tasks[i].task.priority <= MOST
  }

  /** No counter is negative, and none can become so, because no priority is above 2^30. */
  ghost predicate Fair(tasks: seq<Slot>) {
    forall i :: 0 <= i < |tasks| && tasks[i].Taken? ==>
      0 <= tasks[i].task.counter <= MOST && 0 < tasks[i].task.priority <= SAFE
  }

  /** What the scan finds: the last of the runnable tasks with the largest counter, or task 0 when all their counters
      are negative. */
  ghost predicate Best(tasks: seq<Slot>, c: int, next: nat) {
    if next == 0 then c == -1 && forall i {:trigger Runnable(tasks, i)} :: Runnable(tasks, i) ==>
      tasks[i].task.counter < 0
    else
      && Runnable(tasks, next) && tasks[next].task.counter == c >= 0
      && forall i {:trigger Runnable(tasks, i)} :: Runnable(tasks, i) ==>
        tasks[i].task.counter <= c && (i > next ==> tasks[i].task.counter < c)
  }

  lemma {:induction false} ScanFinds(tasks: seq<Slot>, i: nat, c: int, next: nat)
    requires 1 <= i <= |tasks| && next < |tasks|
    requires if next == 0 then c == -1 else i <= next && Runnable(tasks, next) && tasks[next].task.counter == c >= 0
    requires forall j {:trigger Runnable(tasks, j)} :: i <= j && Runnable(tasks, j) ==>
      tasks[j].task.counter <= c && (next != 0 && j > next ==> tasks[j].task.counter < c)
    ensures var (d, n) := Scan(tasks, i, c, next); Best(tasks, d, n)
  {
    if i > 1 {
      if Runnable(tasks, i - 1) && tasks[i - 1].task.counter > c {
        ScanFinds(tasks, i - 1, tasks[i - 1].task.counter, i - 1);
      } else {
        ScanFinds(tasks, i - 1, c, next);
      }
    }
  }

  lemma ScanIsBest(tasks: seq<Slot>)
    requires |tasks| >= 1
    ensures var (c, n) := Scan(tasks, |tasks|, -1, 0); Best(tasks, c, n)
  {
    ScanFinds(tasks, |tasks|, -1, 0);
  }

  /** A pass that finds only empty counters is followed by one that does not, whatever wraps around; without negative
      counters every task that can run then has time. */
  lemma RechargeEnds(tasks: seq<Slot>)
    requires Ranged(tasks) && |tasks| >= 1 && Scan(tasks, |tasks|, -1, 0).0 == 0
    ensures Ranged(Recharged(tasks)) && Scan(Recharged(tasks), |tasks|, -1, 0).0 > 0
    ensures Fair(tasks) ==> Fair(Recharged(tasks))
    ensures forall i {:trigger Runnable(tasks, i)} :: Runnable(tasks, i) && tasks[i].task.counter >= 0 ==>
      Runnable(Recharged(tasks), i) && Recharged(tasks)[i].task.counter > 0
  {
    var r := Recharged(tasks);
    ScanIsBest(tasks);
    ScanIsBest(r);
    var n := Scan(tasks, |tasks|, -1, 0).1;
    assert Runnable(tasks, n) && Runnable(r, n);
  }

  /** The passes of schedule over the counters. */
  function Passes(tasks: seq<Slot>): (r: (seq<Slot>, nat))
    requires |tasks| >= 1
    ensures |r.0| == |tasks| && r.1 < |tasks|
    ensures r.0[0] == tasks[0]
  {
    var (c, next) := Scan(tasks, |tasks|, -1, 0);
    if c != 0 then (tasks, next) else (Recharged(tasks), Scan(Recharged(tasks), |tasks|, -1, 0).1)
  }

  function Schedule(s: Sched): (t: Sched)
    requires Shape(s)
    ensures Shape(t)
  {
    var (tasks, next) := Passes(RousedAll(s.tasks, s.jiffies));
    s.(tasks := tasks, current := next)
  }

  /** schedule would recharge the counters in this state. */
  predicate Exhausted(s: Sched)
    requires Shape(s)
  {
    Scan(RousedAll(s.tasks, s.jiffies), NR_TASKS, -1, 0).0 == 0
  }

  /** The counters are recharged exactly when some task that can run has just used up its own and none has any time
      left. */
  lemma ExhaustedMeans(s: Sched)
    requires Shape(s)
    ensures var r := RousedAll(s.tasks, s.jiffies);
      && (Exhausted(s) <==>
        (exists i {:trigger Runnable(r, i)} :: Runnable(r, i) && r[i].task.counter == 0)
        && forall i {:trigger Runnable(r, i)} :: Runnable(r, i) ==> r[i].task.counter <= 0)
      && (Fair(s.tasks) ==>
        (Exhausted(s) <==> Someone(r) && forall i {:trigger Runnable(r, i)} :: Runnable(r, i) ==>
          r[i].task.counter == 0))
  {
    var r := RousedAll(s.tasks, s.jiffies);
    ScanIsBest(r);
    var (c, n) := Scan(r, NR_TASKS, -1, 0);
    if n != 0 { assert Runnable(r, n); }
  }

  /** Who runs after schedule, and with how much time. */
  ghost predicate Chosen(t: Sched)
    requires Shape(t)
  {
    && (t.current != 0 ==> Runnable(t.tasks, t.current) && t.tasks[t.current].task.counter > 0)
    && Best(t.tasks, if t.current == 0 then -1 else t.tasks[t.current].task.counter, t.current)
  }

  /** What the passes choose. */
  lemma PassesChoose(tasks: seq<Slot>)
    requires Ranged(tasks) && |tasks| >= 1
    ensures var (r, n) := Passes(tasks);
      && Ranged(r) && Best(r, if n == 0 then -1 else if r[n].Taken? then r[n].task.counter else 0, n)
      && (n != 0 ==> Runnable(r, n) && r[n].task.counter > 0) && (Fair(tasks) ==> Fair(r))
      && forall i :: 0 < i < |tasks| && r[i].Taken? ==> tasks[i].Taken? && r[i] == Taken(tasks[i].task.(
        counter := r[i].task.counter))
  {
    ScanIsBest(tasks);
    if Scan(tasks, |tasks|, -1, 0).0 == 0 {
      RechargeEnds(tasks);
      ScanIsBest(Recharged(tasks));
    }
  }

  /** schedule runs the last of the runnable tasks with the most time left, or task 0 when all of their counters are
      negative, which is when no other can run as long as no counter is; and no task sleeps through a signal. */
  lemma ScheduleChooses(s: Sched)
    requires Shape(s) && Ranged(s.tasks)
    ensures var t := Schedule(s);
      && Shape(t) && Ranged(t.tasks) && Chosen(t)
      && (Fair(s.tasks) ==> Fair(t.tasks) && (t.current == 0 <==> !Someone(t.tasks)))
      && (forall i :: 0 < i < NR_TASKS && t.tasks[i].Taken? && t.tasks[i].task.state == Interruptible ==>
        t.tasks[i].task.signal == {})
  {
    var r := RousedAll(s.tasks, s.jiffies);
    PassesChoose(r);
    assert Fair(s.tasks) ==> Fair(r);
  }

  /** Task `i` after schedule: an alarm that is past has become a signal, a signal ends an interruptible sleep, and when
      the counters were used up, half of the old counter and the priority are the new one, in 32 bits and whatever the
      task does; nothing else of it changes. Task 0 is left alone. */
  ghost predicate Rescheduled(t: Task, u: Task, jiffies: int, recharge: bool) {
    var rings := t.alarm != 0 && t.alarm < jiffies;
    && u.pid == t.pid && u.father == t.father && u.priority == t.priority
    && u.alarm == (if rings then 0 else t.alarm) && u.signal == (if rings then t.signal + {14} else t.signal)
    && u.state == (if t.state == Interruptible && u.signal != {} then Running else t.state)
    && -0x8000_0000 <= u.counter < 0x8000_0000
    && (if recharge then (u.counter - t.counter / 2 - t.priority) % 0x1_0000_0000 == 0 else u.counter == t.counter)
  }

  /** What schedule does to the table; by ExhaustedMeans that is a recharge exactly when no task that can run has time
      left and one has just used up its own. */
  lemma ScheduleTasks(s: Sched)
    requires Shape(s) && Ranged(s.tasks)
    ensures var t := Schedule(s);
      && t.tasks[0] == s.tasks[0] && t.jiffies == s.jiffies && t.lastPid == s.lastPid
      && forall i {:trigger t.tasks[i]} :: 0 < i < NR_TASKS ==>
        && (t.tasks[i].Taken? <==> s.tasks[i].Taken?)
        && (s.tasks[i].Taken? ==> Rescheduled(s.tasks[i].task, t.tasks[i].task, s.jiffies, Exhausted(s)))
  {
    var t := Schedule(s);
    forall i {:trigger t.tasks[i]} | 0 < i < NR_TASKS && s.tasks[i].Taken?
      ensures t.tasks[i].Taken? && Rescheduled(s.tasks[i].task, t.tasks[i].task, s.jiffies, Exhausted(s))
    {
      LongIs(s.tasks[i].task.counter / 2 + s.tasks[i].task.priority);
    }
  }

  lemma LongIs(x: int)
    ensures (Long(x) - x) % 0x1_0000_0000 == 0
  {
    var m := 0x1_0000_0000;
    var y := x + MOST + 1;
    assert y == y / m * m + y % m;
    assert Long(x) - x == -(y / m) * m;
    Multiple(-(y / m), m);
  }

  lemma Multiple(k: int, m: int)
    requires m > 0
    ensures k * m % m == 0
  {
    assert k * m == m * k + 0;
    DivUnique(k * m, m, k, 0);
  }

  lemma DivUnique(x: int, m: int, q: int, r: int)
    requires m > 0 && x == m * q + r && 0 <= r < m
    ensures x % m == r
  {
    var d := x / m - q;
    assert m * d == r - x % m;
    Product(m, d);
  }

  lemma Product(m: int, d: int)
    requires m > 0
    ensures (d >= 1 ==> m * d >= m) && (d <= -1 ==> m * d <= -m)
  {
  }

  // ---------------------------------------------------------------------------------------------------------
  // find_empty_process

  /** ++last_pid, in 32 bits, and back to 1 when that is negative. */
  function Bump(p: int): int {
    if p == LAST_PID then 1 else p + 1
  }

  function Bumps(p: int, k: nat): int
    decreases k
  {
    if k == 0 then p else Bumps(Bump(p), k - 1)
  }

  predicate Live(tasks: seq<Slot>, pid: int) {
    exists i :: 0 <= i < |tasks| && tasks[i].Taken? && tasks[i].task.pid == pid
  }

  ghost function Pids(tasks: seq<Slot>): (p: set<int>)
    ensures forall x :: x in p <==> Live(tasks, x)
  {
    set i | 0 <= i < |tasks| && tasks[i].Taken? :: tasks[i].task.pid
  }

  ghost function Tried(p: int, k: nat): set<int> {
    if k == 0 then {} else Tried(p, k - 1) + {Bumps(p, k)}
  }

  lemma {:induction false} BumpsLast(p: int, k: nat)
    ensures Bumps(p, k + 1) == Bump(Bumps(p, k))
    decreases k
  {
    if k > 0 { BumpsLast(Bump(p), k - 1); }
  }

  lemma {:induction false} BumpsIs(p: int, k: nat)
    requires 0 <= p <= LAST_PID && k <= LAST_PID
    ensures Bumps(p, k) == if p + k <= LAST_PID then p + k else p + k - LAST_PID
    decreases k
  {
    if k > 0 {
      BumpsLast(p, k - 1);
      BumpsIs(p, k - 1);
    }
  }

  /** On which try after `p` a pid comes up. */
  function Place(p: int, x: int): int {
    if x > p then x - p else x - p + LAST_PID
  }

  /** The first tries are all different. */
  lemma {:induction false} TriedDistinct(p: int, k: nat)
    requires 0 <= p <= LAST_PID && k <= LAST_PID
    ensures |Tried(p, k)| == k
    ensures forall x {:trigger x in Tried(p, k)} :: x in Tried(p, k) ==>
      1 <= Place(p, x) <= k && Bumps(p, Place(p, x)) == x
  {
    if k > 0 {
      TriedDistinct(p, k - 1);
      BumpsIs(p, k);
      assert Place(p, Bumps(p, k)) == k;
    }
  }

  lemma {:induction false} FewPids(tasks: seq<Slot>)
    ensures |Pids(tasks)| <= |tasks|
  {
    if tasks == [] {
      assert Pids(tasks) == {};
    } else {
      var n := |tasks| - 1;
      FewPids(tasks[..n]);
      var one := if tasks[n].Taken? then {tasks[n].task.pid} else {};
      forall x ensures x in Pids(tasks) <==> x in Pids(tasks[..n]) + one {
        if Live(tasks, x) {
          var i :| 0 <= i < |tasks| && tasks[i].Taken? && tasks[i].task.pid == x;
          if i < n { assert tasks[..n][i] == tasks[i]; }
        }
        if Live(tasks[..n], x) {
          var i :| 0 <= i < n && tasks[..n][i].Taken? && tasks[..n][i].task.pid == x;
          assert tasks[i].task.pid == x;
        }
      }
      assert Pids(tasks) == Pids(tasks[..n]) + one;
    }
  }

  /** The pigeonhole: among the first tries, one more than there are live pids, one is free. */
  lemma SomePidFree(tasks: seq<Slot>, p: int, k: nat)
    requires 0 <= p <= LAST_PID && k <= LAST_PID
    requires forall j :: 1 <= j <= k ==> Live(tasks, Bumps(p, j))
    ensures k <= |Pids(tasks)|
  {
    TriedDistinct(p, k);
    forall x | x in Tried(p, k) ensures x in Pids(tasks) { }
    SubsetSize(Tried(p, k), Pids(tasks));
  }

  /** The `k`-th try on, with `left` tries to go. */
  function PidFrom(tasks: seq<Slot>, p: int, left: nat): int
    decreases left
  {
    var q := Bump(p);
    if left == 0 || !Live(tasks, q) then q else PidFrom(tasks, q, left - 1)
  }

  /** The pid find_empty_process leaves in last_pid. */
  function FreshPid(tasks: seq<Slot>, p: int): int {
    PidFrom(tasks, p, |tasks|)
  }

  /** `q` is the first free pid after `p`. */
  ghost predicate FirstFree(tasks: seq<Slot>, p: int, q: int, k: nat) {
    k > 0 && q == Bumps(p, k) && !Live(tasks, q) && forall j :: 1 <= j < k ==> Live(tasks, Bumps(p, j))
  }

  /** One round of the retry loop brings the free pid one try closer. */
  lemma OneTry(tasks: seq<Slot>, p: int, q: int, k: nat)
    requires FirstFree(tasks, p, q, k)
    ensures Live(tasks, Bump(p)) ==> k > 1 && FirstFree(tasks, Bump(p), q, k - 1)
    ensures !Live(tasks, Bump(p)) ==> k == 1 && q == Bump(p)
  {
    assert Bumps(p, 1) == Bumps(Bump(p), 0) == Bump(p);
    forall j | 1 <= j < k - 1 ensures Live(tasks, Bumps(Bump(p), j)) {
      assert Bumps(p, j + 1) == Bumps(Bump(p), j);
    }
  }

  lemma {:induction false} PidFromIs(tasks: seq<Slot>, p: int, q: int, k: nat, n: nat)
    requires FirstFree(tasks, p, q, k) && k <= n + 1
    ensures PidFrom(tasks, p, n) == q
    decreases n
  {
    OneTry(tasks, p, q, k);
    if k > 1 {
      PidFromIs(tasks, Bump(p), q, k - 1, n - 1);
    }
  }

  /** The retry loop ends within one more try than there are live pids, on a pid no live task has. */
  lemma FreshPidIsFree(tasks: seq<Slot>, p: int) returns (k: nat)
    requires 0 <= p <= LAST_PID && |tasks| <= NR_TASKS
    ensures 1 <= k <= |Pids(tasks)| + 1
    ensures FirstFree(tasks, p, FreshPid(tasks, p), k) && 1 <= FreshPid(tasks, p) <= LAST_PID
  {
    FewPids(tasks);
    k := 1;
    while Live(tasks, Bumps(p, k))
      invariant 1 <= k <= |Pids(tasks)| + 1
      invariant forall j :: 1 <= j < k ==> Live(tasks, Bumps(p, j))
      decreases |Pids(tasks)| + 1 - k
    {
      SomePidFree(tasks, p, k);
      k := k + 1;
    }
    PidFromIs(tasks, p, Bumps(p, k), k, |tasks|);
    BumpsIs(p, k);
  }

  /** The first empty slot from `i`, or -1 for -EAGAIN. */
  function EmptySlot(tasks: seq<Slot>, i: nat): (r: int)
    requires i <= |tasks|
    ensures r == -1 || i <= r < |tasks|
    ensures r >= 0 ==> tasks[r].Free? && forall j :: i <= j < r ==> tasks[j].Taken?
    ensures r == -1 ==> forall j :: i <= j < |tasks| ==> tasks[j].Taken?
    decreases |tasks| - i
  {
    if i == |tasks| then -1 else if tasks[i].Free? then i else EmptySlot(tasks, i + 1)
  }

  // ---------------------------------------------------------------------------------------------------------
  // Runs

  /** What can happen. Sleep, Exit and Nice are calls of the current task; memory decides whether a fork succeeds; Reap
      is a parent's waitpid finding its child. */
  datatype Event =
    | Timer(user: bool)
    | Sleep(interruptible: bool)
    | Wake(i: nat)
    | Signal(i: nat, sig: nat)
    | Handle(sig: nat)
    | Alarm(seconds: int)
    | Nice(increment: int)
    | Fork(memory: bool)
    | Exit
    | Reap(i: nat)
    | Yield

  ghost predicate DistinctPids(tasks: seq<Slot>) {
    forall i, j :: 0 <= i < j < |tasks| && tasks[i].Taken? && tasks[j].Taken? ==> tasks[i].task.pid != tasks[j].task.pid
  }

  /** Good but for the current task, which may just have left the table. */
  ghost predicate Leaving(s: Sched) {
    Shape(s) && Ranged(s.tasks) && 0 <= s.lastPid <= LAST_PID && DistinctPids(s.tasks)
  }

  ghost predicate Good(s: Sched) {
    Leaving(s) && s.tasks[s.current].Taken?
  }

  function Boot(): (s: Sched)
  {
    Sched(seq(NR_TASKS, i => if i == 0 then Taken(Task(Running, 15, 15, {}, 0, 0, -1)) else Free), 0, 0, 0)
  }

  lemma BootIsGood()
    ensures Good(Boot()) && Fair(Boot().tasks)
  {
  }

  function Set(s: Sched, i: nat, t: Task): (u: Sched)
    requires Shape(s) && i < NR_TASKS
    ensures Shape(u)
  {
    s.(tasks := s.tasks[i := Taken(t)])
  }

  /** The callers' side: task 0 neither sleeps nor exits, only sleepers are woken, only zombies are reaped. */
  predicate Possible(s: Sched, e: Event)
    requires Shape(s)
  {
    s.tasks[s.current].Taken? &&
    match e
    case Sleep(_) => s.current != 0
    case Exit => s.current != 0
    case Wake(i) => i < NR_TASKS && s.tasks[i].Taken? && s.tasks[i].task.state != Zombie
    case Signal(i, _) => 0 < i < NR_TASKS && s.tasks[i].Taken?
    case Reap(i) => 0 < i < NR_TASKS && i != s.current && s.tasks[i].Taken? && s.tasks[i].task.state == Zombie
    case _ => true
  }

  /** do_timer, after the tick is counted. */
  function DoTimer(s: Sched, user: bool): (t: Sched)
    requires Shape(s) && s.tasks[s.current].Taken?
  {
    var me := s.tasks[s.current].task;
    if Long(me.counter - 1) > 0 then Set(s, s.current, me.(counter := Long(me.counter - 1)))
    else
      var s1 := Set(s, s.current, me.(counter := 0));
      if user then Schedule(s1) else s1
  }

  /** sys_nice */
  function Niced(t: Task, increment: int): Task {
    if Long(t.priority - increment) > 0 then t.(priority := Long(t.priority - increment)) else t
  }

  /** copy_process: a copy of the current task, with last_pid as its pid, in slot `nr`. */
  function Filled(s: Sched, nr: nat): (t: Sched)
    requires Shape(s) && s.tasks[s.current].Taken? && nr < NR_TASKS
    ensures Shape(t)
  {
    var me := s.tasks[s.current].task;
    var child := me.(state := Running, counter := me.priority, signal := {}, alarm := 0, pid := s.lastPid,
      father := me.pid);
    Set(s, nr, child)
  }

  /** find_empty_process and copy_process: last_pid moves on even when the fork then fails. */
  function ForkFrom(s: Sched, memory: bool): (t: Sched)
    requires Shape(s) && s.tasks[s.current].Taken?
    ensures Shape(t)
  {
    var s1 := s.(lastPid := FreshPid(s.tasks, s.lastPid));
    var nr := EmptySlot(s.tasks, 1);
    if nr == -1 || !memory then s1 else
    Filled(s1, nr)
  }

  /** The children of `pid` are handed to task 0. */
  function Orphaned(tasks: seq<Slot>, pid: int): (r: seq<Slot>)
    ensures |r| == |tasks|
    ensures forall i :: 0 <= i < |tasks| ==>
      r[i] == if tasks[i].Taken? && tasks[i].task.father == pid then Taken(tasks[i].task.(father := 0)) else tasks[i]
  {
    seq(|tasks|, i requires 0 <= i < |tasks| =>
      if tasks[i].Taken? && tasks[i].task.father == pid then Taken(tasks[i].task.(father := 0)) else tasks[i])
  }

  /** do_kill(pid, sig, 1) for a positive pid. */
  function Killed(tasks: seq<Slot>, pid: int, sig: nat): (r: seq<Slot>)
    ensures |r| == |tasks|
    ensures forall i :: 0 <= i < |tasks| ==> r[i] == if i > 0 then KilledIf(tasks[i], pid, sig) else tasks[i]
  {
    seq(|tasks|, i requires 0 <= i < |tasks| => if i > 0 then KilledIf(tasks[i], pid, sig) else tasks[i])
  }

  function KilledIf(s: Slot, pid: int, sig: nat): Slot {
    if s.Taken? && s.task.pid == pid then Taken(s.task.(signal := s.task.signal + {sig})) else s
  }

  /** do_exit, up to its call of schedule: a task without a father is released at once. */
  function ExitFrom(s: Sched): (t: Sched)
    requires Shape(s) && s.tasks[s.current].Taken? && s.current != 0
    ensures Shape(t)
  {
    var s1 := s.(tasks := Orphaned(s.tasks, s.tasks[s.current].task.pid));
    var me := s1.tasks[s.current].task;
    if me.father != 0 then
      var s2 := Set(s1, s.current, me.(state := Zombie));
      s2.(tasks := Killed(s2.tasks, me.father, SIGCHLD))
    else s1.(tasks := s1.tasks[s.current := Free])
  }

  /** The state in which the event calls schedule, if it does. */
  function Before(s: Sched, e: Event): (t: Sched)
    requires Shape(s) && Possible(s, e)
    ensures Shape(t)
  {
    var me := s.tasks[s.current].task;
    match e
    case Timer(user) =>
      var s1 := s.(jiffies := s.jiffies + 1);
      Set(s1, s.current, me.(counter := if Long(me.counter - 1) > 0 then Long(me.counter - 1) else 0))
    case Sleep(interruptible) => Set(s, s.current,
      me.(state := if interruptible then Interruptible else Uninterruptible))
    case Wake(i) => Set(s, i, s.tasks[i].task.(state := Running))
    case Signal(i, sig) => Set(s, i, s.tasks[i].task.(signal := s.tasks[i].task.signal + {sig}))
    case Handle(sig) => Set(s, s.current, me.(signal := me.signal - {sig}))
    case Alarm(seconds) => Set(s, s.current, me.(alarm := if seconds > 0 then s.jiffies + HZ * seconds else 0))
    case Nice(increment) => Set(s, s.current, Niced(me, increment))
    case Fork(memory) => ForkFrom(s, memory)
    case Exit => ExitFrom(s)
    case Reap(i) => s.(tasks := s.tasks[i := Free])
    case Yield => s
  }

  predicate Schedules(s: Sched, e: Event)
    requires Shape(s) && Possible(s, e)
  {
    match e
    case Timer(user) => user && Long(s.tasks[s.current].task.counter - 1) <= 0
    case Sleep(_) => true
    case Exit => true
    case Reap(_) => true
    case Yield => true
    case _ => false
  }

  function Step(s: Sched, e: Event): (t: Sched)
    requires Shape(s) && Possible(s, e)
    ensures Shape(t)
  {
    if Schedules(s, e) then Schedule(Before(s, e)) else Before(s, e)
  }

  lemma TimerIsDoTimer(s: Sched, user: bool)
    requires Shape(s) && Possible(s, Timer(user))
    ensures Step(s, Timer(user)) == DoTimer(s.(jiffies := s.jiffies + 1), user)
  {
  }

  lemma TimerKeeps(s: Sched, user: bool) returns (t: Sched)
    requires Good(s)
    ensures t == s.(jiffies := s.jiffies + 1) && Ranged(t.tasks) && Shape(t) && t.tasks[t.current].Taken?
    ensures Step(s, Timer(user)) == DoTimer(t, user) && Good(DoTimer(t, user))
  {
    t := s.(jiffies := s.jiffies + 1);
    StepKeeps(s, Timer(user));
    TimerIsDoTimer(s, user);
  }

  /** A fork, failed or not, moves last_pid to the first pid no task has; a successful one puts a copy of the current
      task in the first empty slot. Nothing else changes. */
  lemma ForkKeeps(s: Sched, memory: bool)
    requires Good(s)
    ensures var t := ForkFrom(s, memory); var nr := EmptySlot(s.tasks, 1);
      && Good(t) && t.current == s.current && t.jiffies == s.jiffies
      && 1 <= t.lastPid <= LAST_PID && !Live(s.tasks, t.lastPid)
      && (exists k: nat {:trigger Bumps(s.lastPid, k)} ::
        k <= |Pids(s.tasks)| + 1 && FirstFree(s.tasks, s.lastPid, t.lastPid, k))
      && (forall i :: 0 <= i < NR_TASKS && !(memory && i == nr) ==> t.tasks[i] == s.tasks[i])
      && (memory && nr > 0 ==>
        && s.tasks[nr].Free? && t.tasks[nr].Taken?
        && var me, child := s.tasks[s.current].task, t.tasks[nr].task;
        && child.pid == t.lastPid && child.father == me.pid && child.counter == child.priority == me.priority
        && child.state == Running && child.signal == {} && child.alarm == 0)
  {
    var k := FreshPidIsFree(s.tasks, s.lastPid);
    var t := ForkFrom(s, memory);
    forall i, j | 0 <= i < j < NR_TASKS && t.tasks[i].Taken? && t.tasks[j].Taken?
      ensures t.tasks[i].task.pid != t.tasks[j].task.pid
    {
      assert s.tasks[i].Taken? ==> Live(s.tasks, s.tasks[i].task.pid);
      assert s.tasks[j].Taken? ==> Live(s.tasks, s.tasks[j].task.pid);
    }
    assert Bumps(s.lastPid, k) == t.lastPid;
  }

  lemma ExitKeeps(s: Sched)
    requires Good(s) && Possible(s, Exit)
    ensures Leaving(ExitFrom(s))
  {
    var t := ExitFrom(s);
    forall i | 0 <= i < NR_TASKS && t.tasks[i].Taken?
      ensures s.tasks[i].Taken? && t.tasks[i].task.pid == s.tasks[i].task.pid
        && t.tasks[i].task.counter == s.tasks[i].task.counter && t.tasks[i].task.priority == s.tasks[i].task.priority
    {
    }
  }

  lemma BeforeKeeps(s: Sched, e: Event)
    requires Good(s) && Possible(s, e)
    ensures Leaving(Before(s, e)) && (!e.Exit? ==> Good(Before(s, e)))
  {
    if e.Fork? {
      ForkKeeps(s, e.memory);
    } else if e.Exit? {
      ExitKeeps(s);
    }
  }

  lemma ScheduleKeeps(s: Sched)
    requires Leaving(s)
    ensures Good(Schedule(s))
  {
    ScheduleChooses(s);
    var t := Schedule(s);
    assert t.current != 0 ==> Runnable(t.tasks, t.current);
    forall i | 0 <= i < NR_TASKS && t.tasks[i].Taken?
      ensures s.tasks[i].Taken? && t.tasks[i].task.pid == s.tasks[i].task.pid { }
  }

  lemma StepKeeps(s: Sched, e: Event)
    requires Good(s) && Possible(s, e)
    ensures Good(Step(s, e))
  {
    BeforeKeeps(s, e);
    if Schedules(s, e) { ScheduleKeeps(Before(s, e)); }
  }

  ghost predicate Runs(s: Sched, events: seq<Event>)
    requires Shape(s)
    decreases |events|
  {
    events == [] || (Possible(s, events[0]) && Runs(Step(s, events[0]), events[1..]))
  }

  ghost function Run(s: Sched, events: seq<Event>): (t: Sched)
    requires Shape(s) && Runs(s, events)
    ensures Shape(t)
    decreases |events|
  {
    if events == [] then s else Run(Step(s, events[0]), events[1..])
  }

  /** Over every run, live pids stay distinct and priorities positive; and the task that runs is in the table. */
  lemma {:induction false} GoodInEveryRun(s: Sched, events: seq<Event>)
    requires Good(s) && Runs(s, events)
    ensures Good(Run(s, events))
    decreases |events|
  {
    if events != [] {
      StepKeeps(s, events[0]);
      GoodInEveryRun(Step(s, events[0]), events[1..]);
    }
  }

  // ---------------------------------------------------------------------------------------------------------
  // The bound on the counters

  ghost predicate Capped(s: Sched, p: int) {
    forall i :: 0 <= i < |s.tasks| && s.tasks[i].Taken? ==> s.tasks[i].task.priority <= p
  }

  /** No priority is above `p` in any state of the run. */
  ghost predicate AllCapped(s: Sched, events: seq<Event>, p: int)
    requires Shape(s) && Runs(s, events)
    decreases |events|
  {
    Capped(s, p) && (events == [] || AllCapped(Step(s, events[0]), events[1..], p))
  }

  ghost predicate NoneNegative(tasks: seq<Slot>) {
    forall i :: 0 <= i < |tasks| && tasks[i].Taken? ==> tasks[i].task.counter >= 0
  }

  lemma BeforeFair(s: Sched, e: Event)
    requires Good(s) && Possible(s, e) && Fair(s.tasks) && Capped(Before(s, e), SAFE)
    ensures Fair(Before(s, e).tasks)
  {
    BeforeKeeps(s, e);
    var b := Before(s, e);
    forall i | 0 <= i < NR_TASKS && b.tasks[i].Taken? ensures b.tasks[i].task.counter >= 0 { }
  }

  lemma StepFair(s: Sched, e: Event)
    requires Good(s) && Possible(s, e) && Fair(s.tasks) && Capped(Step(s, e), SAFE)
    ensures Fair(Step(s, e).tasks)
  {
    BeforeKeeps(s, e);
    if Schedules(s, e) {
      var b, t := Before(s, e), Step(s, e);
      forall i | 0 <= i < NR_TASKS && b.tasks[i].Taken? ensures b.tasks[i].task.priority <= SAFE {
        assert t.tasks[i].Taken? && t.tasks[i].task.priority == b.tasks[i].task.priority;
      }
      BeforeFair(s, e);
      ScheduleChooses(b);
    } else {
      BeforeFair(s, e);
    }
  }

  /** As long as no priority passes 2^30 no counter is ever negative. */
  lemma {:induction false} FairInEveryRun(s: Sched, events: seq<Event>)
    requires Good(s) && Fair(s.tasks) && Runs(s, events) && AllCapped(s, events, SAFE)
    ensures Good(Run(s, events)) && Fair(Run(s, events).tasks)
    decreases |events|
  {
    if events != [] {
      StepKeeps(s, events[0]);
      StepFair(s, events[0]);
      FairInEveryRun(Step(s, events[0]), events[1..]);
    }
  }

  function Max(a: int, b: int): int { if a > b then a else b }

  function PriorityOf(s: Sched, i: nat): int
    requires Shape(s) && i < NR_TASKS
  {
    if s.tasks[i].Taken? then s.tasks[i].task.priority else 0
  }

  /** The largest priority the task that is in slot `i` after the run has had, if the one that is there now has had
      `top`: it starts again where the slot is filled. */
  ghost function TaskTop(s: Sched, events: seq<Event>, i: nat, top: int): int
    requires Shape(s) && Runs(s, events) && i < NR_TASKS
    decreases |events|
  {
    if events == [] then top
    else
      var t := Step(s, events[0]);
      TaskTop(t, events[1..], i, if s.tasks[i].Free? then PriorityOf(t, i) else Max(top, PriorityOf(t, i)))
  }

  /** A slot that is taken before and after a step holds the same task. */
  lemma SlotKeepsTask(s: Sched, e: Event, i: nat)
    requires Good(s) && Possible(s, e) && i < NR_TASKS && s.tasks[i].Taken? && Step(s, e).tasks[i].Taken?
    ensures Step(s, e).tasks[i].task.pid == s.tasks[i].task.pid
  {
    var b := Before(s, e);
    BeforeKeeps(s, e);
    assert b.tasks[i].Taken? && b.tasks[i].task.pid == s.tasks[i].task.pid;
  }

  ghost predicate Below(s: Sched, i: nat, p: int)
    requires Shape(s) && i < NR_TASKS
  {
    s.tasks[i].Taken? ==> 0 <= s.tasks[i].task.counter < 2 * p && 0 < s.tasks[i].task.priority <= p
  }

  lemma BeforeBelow(s: Sched, e: Event, i: nat, p: int)
    requires Good(s) && Possible(s, e) && i < NR_TASKS && Below(s, i, p) && PriorityOf(Before(s, e), i) <= p
    ensures Below(Before(s, e), i, p)
  {
    BeforeKeeps(s, e);
  }

  lemma ScheduleBelow(s: Sched, i: nat, p: int)
    requires Leaving(s) && i < NR_TASKS && Below(s, i, p) && p <= SAFE
    ensures Below(Schedule(s), i, p) && PriorityOf(Schedule(s), i) == PriorityOf(s, i)
  {
  }

  lemma StepBelow(s: Sched, e: Event, i: nat, p: int)
    requires Good(s) && Possible(s, e) && i < NR_TASKS && Below(s, i, p) && PriorityOf(Step(s, e), i) <= p <= SAFE
    ensures Below(Step(s, e), i, p)
  {
    BeforeKeeps(s, e);
    var b := Before(s, e);
    assert PriorityOf(b, i) == PriorityOf(Step(s, e), i);
    BeforeBelow(s, e, i, p);
    if Schedules(s, e) { ScheduleBelow(b, i, p); }
  }

  lemma {:induction false} BelowInEveryRun(s: Sched, events: seq<Event>, i: nat, top: int)
    requires Good(s) && Runs(s, events) && i < NR_TASKS && (top <= SAFE ==> Below(s, i, top))
    ensures var p := TaskTop(s, events, i, top); p <= SAFE ==> Below(Run(s, events), i, p)
    decreases |events|
  {
    if events != [] {
      var t := Step(s, events[0]);
      var p := if s.tasks[i].Free? then PriorityOf(t, i) else Max(top, PriorityOf(t, i));
      StepKeeps(s, events[0]);
      if p <= SAFE { StepBelow(s, events[0], i, p); }
      BelowInEveryRun(t, events[1..], i, p);
    }
  }

  /** From the boot on, a task that has never had a priority above 2^30 has a counter from 0 up and below twice the
      largest priority it has had, whatever other tasks do and had its slot before. */
  lemma CountersBounded(events: seq<Event>, i: nat)
    requires Runs(Boot(), events) && i < NR_TASKS
    ensures var t, top := Run(Boot(), events), TaskTop(Boot(), events, i, PriorityOf(Boot(), i));
      t.tasks[i].Taken? && top <= SAFE ==> 0 <= t.tasks[i].task.counter < 2 * top
  {
    BootIsGood();
    BelowInEveryRun(Boot(), events, i, PriorityOf(Boot(), i));
  }

  // ---------------------------------------------------------------------------------------------------------
  // No starvation

  /** Task `i` can run in every state of the run. */
  ghost predicate AlwaysRunnable(s: Sched, events: seq<Event>, i: nat)
    requires Shape(s) && Runs(s, events)
    decreases |events|
  {
    Runnable(s.tasks, i) && (events == [] || AlwaysRunnable(Step(s, events[0]), events[1..], i))
  }

  /** Task `i` is the current task in some state of the run. */
  ghost predicate EverCurrent(s: Sched, events: seq<Event>, i: nat)
    requires Shape(s) && Runs(s, events)
    decreases |events|
  {
    s.current == i || (events != [] && EverCurrent(Step(s, events[0]), events[1..], i))
  }

  /** The event makes schedule recharge the counters. */
  ghost predicate Recharges(s: Sched, e: Event)
    requires Shape(s) && Possible(s, e)
  {
    Schedules(s, e) && Exhausted(Before(s, e))
  }

  ghost predicate NoRecharge(s: Sched, events: seq<Event>)
    requires Shape(s) && Runs(s, events)
    decreases |events|
  {
    events == [] || (!Recharges(s, events[0]) && NoRecharge(Step(s, events[0]), events[1..]))
  }

  function Counter(s: Sched, i: nat): int
    requires Shape(s)
  {
    if i < NR_TASKS && s.tasks[i].Taken? then s.tasks[i].task.counter else 0
  }

  /** While it waits its turn a runnable task keeps the counter it has. If that is above 0 it holds off the next
      recharge; if not, the task is passed over until then. */
  lemma WaitingKeepsCounter(s: Sched, e: Event, i: nat)
    requires Good(s) && Possible(s, e) && Runnable(s.tasks, i) && s.current != i
    ensures Runnable(Before(s, e).tasks, i) && Counter(Before(s, e), i) == Counter(s, i)
    ensures Counter(s, i) > 0 ==> !Recharges(s, e)
    ensures !Recharges(s, e) ==> Counter(Step(s, e), i) == Counter(s, i)
    ensures !Recharges(s, e) && Counter(s, i) <= 0 ==> Step(s, e).current != i
  {
    var b := Before(s, e);
    BeforeKeeps(s, e);
    WaitingInSchedule(b, i);
  }

  lemma WaitingInSchedule(b: Sched, i: nat)
    requires Leaving(b) && Runnable(b.tasks, i)
    ensures Counter(b, i) > 0 ==> !Exhausted(b)
    ensures !Exhausted(b) ==> Counter(Schedule(b), i) == Counter(b, i)
    ensures !Exhausted(b) && Counter(b, i) <= 0 ==> Schedule(b).current != i
  {
    ExhaustedMeans(b);
    ScheduleChooses(b);
    var r := RousedAll(b.tasks, b.jiffies);
    assert Runnable(r, i);
  }

  lemma {:induction false} WaitingHoldsOff(s: Sched, events: seq<Event>, i: nat)
    requires Good(s) && Runs(s, events) && AlwaysRunnable(s, events, i) && !EverCurrent(s, events, i)
    requires Counter(s, i) > 0
    ensures NoRecharge(s, events) && Good(Run(s, events)) && Runnable(Run(s, events).tasks, i)
    ensures Run(s, events).current != i && Counter(Run(s, events), i) == Counter(s, i)
    decreases |events|
  {
    if events != [] {
      StepKeeps(s, events[0]);
      WaitingKeepsCounter(s, events[0], i);
      WaitingHoldsOff(Step(s, events[0]), events[1..], i);
    }
  }

  lemma {:induction false} PassedOver(s: Sched, events: seq<Event>, i: nat)
    requires Good(s) && Runs(s, events) && AlwaysRunnable(s, events, i) && NoRecharge(s, events)
    requires s.current != i && Counter(s, i) <= 0
    ensures !EverCurrent(s, events, i)
    decreases |events|
  {
    if events != [] {
      StepKeeps(s, events[0]);
      WaitingKeepsCounter(s, events[0], i);
      PassedOver(Step(s, events[0]), events[1..], i);
    }
  }

  /** A recharge gives time to every task that can run and whose counter is not negative. */
  lemma RechargeGivesTime(s: Sched, e: Event, i: nat)
    requires Good(s) && Possible(s, e) && Recharges(s, e) && Runnable(Step(s, e).tasks, i)
    ensures Counter(Before(s, e), i) >= 0 ==> Counter(Step(s, e), i) > 0
    ensures Counter(Step(s, e), i) <= 0 ==> Step(s, e).current != i
  {
    BeforeKeeps(s, e);
    var b := Before(s, e);
    var r := RousedAll(b.tasks, b.jiffies);
    RechargeEnds(r);
    ScheduleChooses(b);
    assert Runnable(r, i);
  }

  /** No starvation: between one recharge of the counters and the next, a task that could run all the time has run if
      and only if the first recharge left it some time, which it did unless its counter was negative. */
  lemma NoStarvation(s: Sched, e: Event, events: seq<Event>, f: Event, i: nat)
    requires Good(s) && Possible(s, e) && Recharges(s, e)
    requires Runs(Step(s, e), events) && AlwaysRunnable(Step(s, e), events, i) && NoRecharge(Step(s, e), events)
    requires Possible(Run(Step(s, e), events), f) && Recharges(Run(Step(s, e), events), f)
    ensures EverCurrent(Step(s, e), events, i) <==> Counter(Step(s, e), i) > 0
    ensures Counter(Before(s, e), i) >= 0 ==> Counter(Step(s, e), i) > 0
  {
    StepKeeps(s, e);
    RechargeGivesTime(s, e, i);
    var t := Step(s, e);
    if Counter(t, i) <= 0 {
      PassedOver(t, events, i);
    } else if !EverCurrent(t, events, i) {
      WaitingHoldsOff(t, events, i);
      WaitingKeepsCounter(Run(t, events), f, i);
    }
  }

  /** So, as long as no priority passes 2^30, every task that could run all the time has run. */
  lemma NoStarvationWhileFair(s: Sched, e: Event, events: seq<Event>, f: Event, i: nat)
    requires Good(s) && Fair(s.tasks) && Possible(s, e) && Recharges(s, e)
    requires Runs(Step(s, e), events) && AlwaysRunnable(Step(s, e), events, i)
    requires Possible(Run(Step(s, e), events), f) && Recharges(Run(Step(s, e), events), f)
    ensures EverCurrent(Step(s, e), events, i)
  {
    var t := Step(s, e);
    StepKeeps(s, e);
    TimeWhileFair(s, e, i);
    if !EverCurrent(t, events, i) {
      WaitingHoldsOff(t, events, i);
      WaitingKeepsCounter(Run(t, events), f, i);
    }
  }

  lemma TimeWhileFair(s: Sched, e: Event, i: nat)
    requires Good(s) && Fair(s.tasks) && Possible(s, e) && Recharges(s, e) && Runnable(Step(s, e).tasks, i)
    ensures Counter(Step(s, e), i) > 0
  {
    RechargeGivesTime(s, e, i);
    BeforeKeeps(s, e);
    assert Counter(Before(s, e), i) >= 0;
  }

  // ---------------------------------------------------------------------------------------------------------
  // What a priority is worth

  /** A timer tick takes a tick off the current task's counter, which ends at 0, and only one that interrupts a user
      program can lead to another task. */
  lemma TickEffect(s: Sched, user: bool)
    requires Good(s)
    ensures var b, me, c := Before(s, Timer(user)), s.current, s.tasks[s.current].task.counter;
      && b.jiffies == s.jiffies + 1 && b.current == me && b.lastPid == s.lastPid
      && (forall i :: 0 <= i < NR_TASKS && i != me ==> b.tasks[i] == s.tasks[i])
      && (c > 0 ==> b.tasks[me] == Taken(s.tasks[me].task.(counter := c - 1)))
      && (-0x8000_0000 < c <= 0 ==> b.tasks[me] == Taken(s.tasks[me].task.(counter := 0)))
      && (Step(s, Timer(user)) == if user && b.tasks[me].task.counter == 0 then Schedule(b) else b)
  {
  }

  /** nice changes the priority by just what is asked for, if it stays positive and no overflow gets in the way. */
  lemma NiceEffect(s: Sched, increment: int)
    requires Good(s) && -0x8000_0000 <= s.tasks[s.current].task.priority - increment < 0x8000_0000
    ensures var p := s.tasks[s.current].task.priority - increment;
      Step(s, Nice(increment)) ==
        if p > 0 then s.(tasks := s.tasks[s.current := Taken(s.tasks[s.current].task.(priority := p))]) else s
  {
  }

  /** The tick is charged to task `i`. */
  predicate Charges(s: Sched, e: Event, i: nat)
    requires Shape(s)
  {
    e.Timer? && s.current == i && Counter(s, i) > 0
  }

  /** How many ticks of the run are charged to task `i`. */
  ghost function Charged(s: Sched, events: seq<Event>, i: nat): nat
    requires Shape(s) && Runs(s, events)
    decreases |events|
  {
    if events == [] then 0
    else (if Charges(s, events[0], i) then 1 else 0) + Charged(Step(s, events[0]), events[1..], i)
  }

  lemma ChargeStep(s: Sched, e: Event, i: nat)
    requires Good(s) && Possible(s, e) && !Recharges(s, e) && Runnable(s.tasks, i) && Runnable(Step(s, e).tasks, i)
    requires Counter(s, i) >= 0
    ensures Counter(Step(s, e), i) == Counter(s, i) - if Charges(s, e, i) then 1 else 0
  {
    BeforeKeeps(s, e);
    var b := Before(s, e);
    assert Counter(b, i) == Counter(s, i) - if Charges(s, e, i) then 1 else 0;
    if Schedules(s, e) { ScheduleTasks(b); }
  }

  lemma {:induction false} ChargesUntil(s: Sched, events: seq<Event>, i: nat)
    requires Good(s) && Runs(s, events) && AlwaysRunnable(s, events, i) && NoRecharge(s, events) && Counter(s, i) >= 0
    ensures Good(Run(s, events)) && Runnable(Run(s, events).tasks, i) && Counter(Run(s, events), i) >= 0
    ensures Counter(Run(s, events), i) == Counter(s, i) - Charged(s, events, i)
    decreases |events|
  {
    if events != [] {
      StepKeeps(s, events[0]);
      ChargeStep(s, events[0], i);
      ChargesUntil(Step(s, events[0]), events[1..], i);
    }
  }

  /** Between two recharges a task that could run all the time, and had used up its counter at the first, is charged
      exactly as many ticks as the priority it had then. */
  lemma PriorityIsTicks(s: Sched, e: Event, events: seq<Event>, f: Event, i: nat)
    requires Good(s) && Possible(s, e) && Recharges(s, e) && Counter(Before(s, e), i) == 0
    requires var t := Step(s, e); Runs(t, events) && AlwaysRunnable(t, events, i) && NoRecharge(t, events)
    requires var u := Run(Step(s, e), events);
      Possible(u, f) && Recharges(u, f) && Runnable(Before(u, f).tasks, i)
    ensures var t := Step(s, e); var u := Run(t, events);
      Charged(t, events, i) + (if Charges(u, f, i) then 1 else 0) == t.tasks[i].task.priority
  {
    LeftOver(s, e, events, i);
    LastCharge(Run(Step(s, e), events), f, i);
  }

  lemma LeftOver(s: Sched, e: Event, events: seq<Event>, i: nat)
    requires Good(s) && Possible(s, e) && Recharges(s, e) && Counter(Before(s, e), i) == 0
    requires var t := Step(s, e); Runs(t, events) && AlwaysRunnable(t, events, i) && NoRecharge(t, events)
    ensures var t := Step(s, e); var u := Run(t, events);
      && Good(u) && Runnable(u.tasks, i) && Runnable(t.tasks, i)
      && Counter(u, i) == t.tasks[i].task.priority - Charged(t, events, i) >= 0
  {
    var t := Step(s, e);
    StepKeeps(s, e);
    FirstCharge(s, e, i);
    ChargesUntil(t, events, i);
  }

  lemma FirstCharge(s: Sched, e: Event, i: nat)
    requires Good(s) && Possible(s, e) && Recharges(s, e) && Counter(Before(s, e), i) == 0
    requires Runnable(Step(s, e).tasks, i)
    ensures Counter(Step(s, e), i) == Step(s, e).tasks[i].task.priority
  {
    var b, t := Before(s, e), Step(s, e);
    BeforeKeeps(s, e);
    ScheduleTasks(b);
    assert Rescheduled(b.tasks[i].task, t.tasks[i].task, b.jiffies, true);
  }

  lemma LastCharge(u: Sched, f: Event, i: nat)
    requires Good(u) && Possible(u, f) && Recharges(u, f) && Runnable(u.tasks, i) && Runnable(Before(u, f).tasks, i)
    requires Counter(u, i) >= 0
    ensures Counter(u, i) == if Charges(u, f, i) then 1 else 0
  {
    BeforeKeeps(u, f);
    var b := Before(u, f);
    ExhaustedMeans(b);
    assert Runnable(RousedAll(b.tasks, b.jiffies), i);
  }
}
