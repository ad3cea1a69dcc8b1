/** Where the counters of kernel/sched.c overflow: a priority above 2^30, which any task can give itself, is enough. */
module Overflow {
  import opened Common
  import opened Scheduler

  /** A run from the boot to `t`, with no priority above `p`. */
  ghost predicate Reached(t: Sched, p: int) {
    exists events :: Runs(Boot(), events) && AllCapped(Boot(), events, p) && Run(Boot(), events) == t
  }

  lemma {:induction false} OneMore(s: Sched, events: seq<Event>, e: Event, p: int)
    requires Shape(s) && Runs(s, events) && AllCapped(s, events, p)
    requires Possible(Run(s, events), e) && Capped(Step(Run(s, events), e), p)
    ensures Runs(s, events + [e]) && AllCapped(s, events + [e], p) && Run(s, events + [e]) == Step(Run(s, events), e)
    decreases |events|
  {
    if events == [] {
      assert events + [e] == [e] && [e][1..] == [];
    } else {
      assert (events + [e])[1..] == events[1..] + [e];
      OneMore(Step(s, events[0]), events[1..], e, p);
    }
  }

  lemma Further(t: Sched, e: Event, u: Sched, p: int)
    requires Reached(t, p) && Shape(t) && Possible(t, e) && Step(t, e) == u && Capped(u, p)
    ensures Reached(u, p)
  {
    var events :| Runs(Boot(), events) && AllCapped(Boot(), events, p) && Run(Boot(), events) == t;
    OneMore(Boot(), events, e, p);
    assert Runs(Boot(), events + [e]);
  }

  // ---------------------------------------------------------------------------------------------------------
  // schedule, where at most one task can run and nothing is pending

  predicate Quiet(tasks: seq<Slot>) {
    forall i :: 0 <= i < |tasks| && tasks[i].Taken? ==> tasks[i].task.alarm == 0 && tasks[i].task.signal == {}
  }

  ghost predicate Only(tasks: seq<Slot>, n: nat) {
    forall i {:trigger Runnable(tasks, i)} :: Runnable(tasks, i) ==> i == n
  }

  lemma PicksOnly(s: Sched, n: nat)
    requires Shape(s) && Quiet(s.tasks) && Runnable(s.tasks, n) && Only(s.tasks, n) && s.tasks[n].task.counter > 0
    ensures Schedule(s) == s.(current := n)
  {
    assert RousedAll(s.tasks, s.jiffies) == s.tasks;
    ScanIsBest(s.tasks);
  }

  lemma PicksNone(s: Sched, n: nat)
    requires Shape(s) && Quiet(s.tasks) && Only(s.tasks, n) && (Runnable(s.tasks, n) ==> s.tasks[n].task.counter < 0)
    ensures Schedule(s) == s.(current := 0)
  {
    assert RousedAll(s.tasks, s.jiffies) == s.tasks;
    ScanIsBest(s.tasks);
  }

  lemma RechargesOnly(s: Sched, n: nat)
    requires Shape(s) && Quiet(s.tasks) && Runnable(s.tasks, n) && Only(s.tasks, n) && s.tasks[n].task.counter == 0
    requires 0 < s.tasks[n].task.priority <= MOST
    ensures Schedule(s) == s.(tasks := Recharged(s.tasks), current := n)
  {
    assert RousedAll(s.tasks, s.jiffies) == s.tasks;
    ScanIsBest(s.tasks);
    var r := Recharged(s.tasks);
    ScanIsBest(r);
    assert Runnable(r, n);
    forall i {:trigger Runnable(r, i)} | Runnable(r, i) ensures i == n { assert Runnable(s.tasks, i); }
  }

  // ---------------------------------------------------------------------------------------------------------
  // Three tasks

  const INIT: Slot := Taken(Task(Running, 15, 15, {}, 0, 0, -1))

  function First(state: State, counter: int, priority: int): Slot {
    Taken(Task(state, counter, priority, {}, 0, 1, 0))
  }

  /** Task 0, and the first tasks forked. */
  function Table(one: Slot, two: Slot): (s: seq<Slot>)
    ensures |s| == NR_TASKS && s[0] == INIT && s[1] == one && s[2] == two
    ensures forall i :: 3 <= i < NR_TASKS ==> s[i] == Free
  {
    seq(NR_TASKS, i => if i == 0 then INIT else if i == 1 then one else if i == 2 then two else Free)
  }

  const SECOND: Slot := Taken(Task(Running, 1, 1, {}, 0, 2, 1))

  lemma FirstFork(p: int)
    requires p >= 15
    ensures Reached(Sched(Table(First(Running, 15, 15), Free), 1, 0, 1), p)
  {
    var s := Boot();
    assert Runs(s, []) && AllCapped(s, [], p) && Run(s, []) == s;
    var t := Sched(Table(First(Running, 15, 15), Free), 0, 0, 1);
    assert !Live(s.tasks, 1);
    assert FreshPid(s.tasks, 0) == 1 && EmptySlot(s.tasks, 1) == 1;
    assert Step(s, Fork(true)).tasks == t.tasks;
    Further(s, Fork(true), t, p);
    assert Runnable(t.tasks, 1);
    PicksOnly(t, 1);
    Further(t, Yield, t.(current := 1), p);
  }

  lemma Nicer(one: Slot, two: Slot, lastPid: int, increment: int, u: Slot, p: int)
    requires Reached(Sched(Table(one, two), 1, 0, lastPid), p) && one.Taken? && u == Taken(Niced(one.task, increment))
    requires p >= 15 && u.task.priority <= p && (two.Taken? ==> two.task.priority <= p)
    ensures Reached(Sched(Table(u, two), 1, 0, lastPid), p)
  {
    var s, t := Sched(Table(one, two), 1, 0, lastPid), Sched(Table(u, two), 1, 0, lastPid);
    assert Step(s, Nice(increment)).tasks == t.tasks;
    Further(s, Nice(increment), t, p);
  }

  lemma ForkAgain(p: int)
    requires Reached(Sched(Table(First(Running, 15, 1), Free), 1, 0, 1), p) && p >= 15
    ensures Reached(Sched(Table(First(Running, 15, 1), SECOND), 1, 0, 2), p)
  {
    var s := Sched(Table(First(Running, 15, 1), Free), 1, 0, 1);
    var t := Sched(Table(First(Running, 15, 1), SECOND), 1, 0, 2);
    assert !Live(s.tasks, 2);
    assert FreshPid(s.tasks, 1) == 2;
    assert s.tasks[1].Taken? && EmptySlot(s.tasks, 1) == 2;
    assert Step(s, Fork(true)).tasks == t.tasks;
    Further(s, Fork(true), t, p);
  }

  lemma SecondFork(p: int)
    requires 15 <= p <= MOST
    ensures Reached(Sched(Table(First(Running, 15, p), SECOND), 1, 0, 2), p)
  {
    FirstFork(p);
    Nicer(First(Running, 15, 15), Free, 1, 14, First(Running, 15, 1), p);
    ForkAgain(p);
    Nicer(First(Running, 15, 1), SECOND, 2, 1 - p, First(Running, 15, p), p);
  }

  /** Task 1 sleeps with priority `p`; every tick, the second task uses up its counter and all are recharged. */
  function Climbing(p: int, c: int, jiffies: int): Sched {
    Sched(Table(First(Uninterruptible, c, p), SECOND), 2, jiffies, 2)
  }

  lemma FallsAsleep(p: int)
    requires 15 <= p <= MOST
    ensures Reached(Climbing(p, 15, 0), p)
  {
    SecondFork(p);
    var s := Sched(Table(First(Running, 15, p), SECOND), 1, 0, 2);
    var b := Sched(Table(First(Uninterruptible, 15, p), SECOND), 1, 0, 2);
    assert Before(s, Sleep(false)).tasks == b.tasks;
    assert Runnable(b.tasks, 2) && Only(b.tasks, 2);
    PicksOnly(b, 2);
    Further(s, Sleep(false), Climbing(p, 15, 0), p);
  }

  const SPENT: Slot := Taken(Task(Running, 0, 1, {}, 0, 2, 1))

  lemma RechargedTable(p: int, c: int, d: int)
    requires d == Long(c / 2 + p)
    ensures Recharged(Table(First(Uninterruptible, c, p), SPENT)) == Table(First(Uninterruptible, d, p), SECOND)
  {
  }

  lemma OneTick(p: int, c: int, d: int, jiffies: int)
    requires 15 <= p <= MOST && Reached(Climbing(p, c, jiffies), p) && d == Long(c / 2 + p)
    ensures Reached(Climbing(p, d, jiffies + 1), p)
  {
    var s, t := Climbing(p, c, jiffies), Climbing(p, d, jiffies + 1);
    var b := Before(s, Timer(true));
    assert b.tasks == Table(First(Uninterruptible, c, p), SPENT);
    assert Runnable(b.tasks, 2) && Only(b.tasks, 2);
    RechargesOnly(b, 2);
    RechargedTable(p, c, d);
    Further(s, Timer(true), t, p);
  }

  /** The distance to 2 * p - 1 is halved. */
  lemma Climbs(p: int, c: int)
    requires SAFE < p <= MOST && 0 <= c <= MOST
    ensures var d := Long(c / 2 + p); d >= 0 ==> d <= MOST && 0 <= 2 * p - 1 - d < 2 * p - 1 - c
  {
  }

  /** With a priority above 2^30 the counter of a sleeper grows until it wraps around. */
  lemma {:induction false} Wraps(p: int, c: int, jiffies: int) returns (d: int, at: int)
    requires SAFE < p <= MOST && 0 <= c <= MOST && Reached(Climbing(p, c, jiffies), p)
    ensures d < 0 && Reached(Climbing(p, d, at), p)
    decreases 2 * p - 1 - c
  {
    Climbs(p, c);
    d, at := Long(c / 2 + p), jiffies + 1;
    OneTick(p, c, d, jiffies);
    if d >= 0 {
      d, at := Wraps(p, d, at);
    }
  }

  /** If this is a run in which no priority passes `p`, no counter is negative at its end. */
  ghost predicate StaysPositive(events: seq<Event>, p: int) {
    Runs(Boot(), events) && AllCapped(Boot(), events, p) ==> NoneNegative(Run(Boot(), events).tasks)
  }

  /** 2^30 is the exact bound: no counter is negative in any run in which no priority passes `p` if and only if `p` is
      at most 2^30. */
  lemma HalfIsExact(p: int)
    requires 15 <= p <= MOST
    ensures p <= SAFE <==> forall events :: StaysPositive(events, p)
  {
    if p <= SAFE {
      forall events ensures StaysPositive(events, p) { UpToHalf(events, p); }
    } else {
      var events := TurnsNegative(p);
      assert !StaysPositive(events, p);
    }
  }

  lemma UpToHalf(events: seq<Event>, p: int)
    requires p <= SAFE
    ensures StaysPositive(events, p)
  {
    if Runs(Boot(), events) && AllCapped(Boot(), events, p) {
      BootIsGood();
      CappedLess(Boot(), events, p, SAFE);
      FairInEveryRun(Boot(), events);
    }
  }

  lemma TurnsNegative(p: int) returns (events: seq<Event>)
    requires SAFE < p <= MOST
    ensures Runs(Boot(), events) && AllCapped(Boot(), events, p) && !NoneNegative(Run(Boot(), events).tasks)
  {
    FallsAsleep(p);
    var d, at := Wraps(p, 15, 0);
    events :| Runs(Boot(), events) && AllCapped(Boot(), events, p) && Run(Boot(), events) == Climbing(p, d, at);
    assert Run(Boot(), events).tasks[1].task.counter < 0;
  }

  lemma {:induction false} CappedLess(s: Sched, events: seq<Event>, p: int, q: int)
    requires Shape(s) && Runs(s, events) && AllCapped(s, events, p) && p <= q
    ensures AllCapped(s, events, q)
    decreases |events|
  {
    if events != [] { CappedLess(Step(s, events[0]), events[1..], p, q); }
  }

  lemma WokenUp(p: int, d: int, at: int)
    requires 15 <= p && Reached(Climbing(p, d, at), p)
    ensures Reached(Sched(Table(First(Running, d, p), SECOND), 2, at, 2), p)
  {
    var s, u := Climbing(p, d, at), Sched(Table(First(Running, d, p), SECOND), 2, at, 2);
    assert Step(s, Wake(1)).tasks == u.tasks;
    Further(s, Wake(1), u, p);
  }

  const ASLEEP: Slot := Taken(Task(Uninterruptible, 1, 1, {}, 0, 2, 1))

  /** Task 1 can run and nobody else; its counter is negative. */
  function Passed(p: int, d: int, at: int): Sched {
    Sched(Table(First(Running, d, p), ASLEEP), 0, at, 2)
  }

  lemma PassedOn(p: int, d: int, at: int)
    requires 15 <= p && d < 0 && Reached(Sched(Table(First(Running, d, p), SECOND), 2, at, 2), p)
    ensures Reached(Passed(p, d, at), p)
  {
    var u, b := Sched(Table(First(Running, d, p), SECOND), 2, at, 2), Passed(p, d, at).(current := 2);
    assert Before(u, Sleep(false)).tasks == b.tasks;
    PicksNone(b, 1);
    Further(u, Sleep(false), Passed(p, d, at), p);
  }

  /** For every priority above 2^30 there is a run to a state in which one task can run and schedule still runs task 0,
      now and every time it is called again. */
  lemma NeverChosen(p: int) returns (t: Sched)
    requires SAFE < p <= MOST
    ensures Reached(t, p) && Shape(t) && Runnable(t.tasks, 1) && t.current == 0
    ensures Possible(t, Yield) && Step(t, Yield) == t
  {
    FallsAsleep(p);
    var d, at := Wraps(p, 15, 0);
    WokenUp(p, d, at);
    PassedOn(p, d, at);
    StaysOut(p, d, at);
    t := Passed(p, d, at);
  }

  lemma StaysOut(p: int, d: int, at: int)
    requires d < 0
    ensures var t := Passed(p, d, at);
      Shape(t) && t.current == 0 && Runnable(t.tasks, 1) && Possible(t, Yield) && Step(t, Yield) == t
  {
    PicksNone(Passed(p, d, at), 1);
  }
}
