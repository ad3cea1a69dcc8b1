/** Whole runs of the memory manager: forks, faults, stores and exits of up to 64 tasks, each with its own 64 MB
  of linear addresses (16 directory entries, kernel/fork.c copy_mem). */
module MemoryRuns {
  import opened Memory

  const TASKS: nat := 64
  const SPAN: nat := 16 // directory entries of one task

  /** Within one task's addresses a counted frame is mapped at most once. */
  ghost predicate Spread(s: Mm)
    requires Shape(s)
  {
    forall d, i, e, j {:trigger Entry(s, d, i), Entry(s, e, j)} ::
      (2 <= d < ENTRIES && 2 <= e < ENTRIES && d / SPAN == e / SPAN && 0 <= i < ENTRIES && 0 <= j < ENTRIES
       && Entry(s, d, i).present && Entry(s, e, j).present
       && Entry(s, d, i).frame == Entry(s, e, j).frame >= LOW) ==> (d == e && i == j)
  }

  /** The pages the first fork copies are kernel pages. */
  ghost predicate KernelPages(s: Mm)
    requires Shape(s)
  {
    forall i :: 0 <= i < LOW_COPY ==> Entry(s, 0, i).frame < LOW
  }

  ghost predicate Ok(s: Mm) { Inv(s) && Spread(s) && KernelPages(s) }

  ghost predicate Empty(s: Mm, p: nat)
    requires Shape(s) && p < TASKS
  {
    forall d :: SPAN * p <= d < SPAN * p + SPAN ==> !s.dir[d].present
  }

  // ---------------------------------------------------------------------------------------------------------
  // Counts stay small: mem_map's 16 bits never overflow

  lemma {:induction false} OnePerTask(refs: set<Ref>, n: nat)
    requires forall r :: r in refs ==> r.Pte? && r.d / SPAN < n
    requires forall r, q :: r in refs && q in refs && r.d / SPAN == q.d / SPAN ==> r == q
    ensures |refs| <= n
  {
    if refs != {} {
      var last := set r | r in refs && r.d / SPAN == n - 1;
      if last == {} {
        var q :| q in refs;
        assert n > 0;
        forall r | r in refs ensures r.d / SPAN < n - 1 { assert r !in last; }
        OnePerTask(refs, n - 1);
      } else {
        var r :| r in last;
        forall q | q in refs - {r} ensures q.d / SPAN < n - 1 { }
        OnePerTask(refs - {r}, n - 1);
      }
    }
  }

  lemma CountsFit(s: Mm)
    requires Ok(s)
    ensures forall k :: 0 <= k < PAGES ==> s.map_[k] <= TASKS
  {
    forall k | 0 <= k < PAGES ensures s.map_[k] <= TASKS {
      var f := LOW + k;
      var users := Users(s, f);
      assert s.map_[f - LOW] == |users|;
      if r :| r in users && !r.Pte? {
        assert Sole(s, r);
        assert users == {r};
      } else {
        forall r, q | r in users && q in users && r.d / SPAN == q.d / SPAN ensures r == q {
          assert Entry(s, r.d, r.i).frame == Entry(s, q.d, q.i).frame;
        }
        OnePerTask(users, TASKS);
      }
    }
  }

  // ---------------------------------------------------------------------------------------------------------
  // Spread is kept

  lemma SpreadSubset(s: Mm, t: Mm)
    requires Shape(s) && Shape(t) && Spread(s)
    requires forall d, i {:trigger Entry(t, d, i)} :: 2 <= d < ENTRIES && 0 <= i < ENTRIES && Entry(t, d, i).present ==>
      Entry(s, d, i).present && Entry(s, d, i).frame == Entry(t, d, i).frame
    ensures Spread(t)
  {
  }

  lemma SpreadAfterOne(s: Mm, t: Mm, d: nat, i: nat)
    requires Shape(s) && Spread(s) && Inv(t) && 2 <= d < ENTRIES && i < ENTRIES
    requires ElseKept(s, t, d, i)
      && (Entry(t, d, i) == Entry(s, d, i) || (Entry(t, d, i).present && Entry(t, d, i).write))
    ensures Spread(t)
  {
    forall e, j, e', j' | 2 <= e < ENTRIES && 2 <= e' < ENTRIES && e / SPAN == e' / SPAN && 0 <= j < ENTRIES
      && 0 <= j' < ENTRIES
      && Entry(t, e, j).present && Entry(t, e', j').present && Entry(t, e, j).frame == Entry(t, e', j').frame >= LOW
      ensures e == e' && j == j'
    {
      if Entry(t, d, i) == Entry(s, d, i) {
        assert Entry(t, e, j) == Entry(s, e, j) && Entry(t, e', j') == Entry(s, e', j');
      } else {
        assert Sole(t, Pte(d, i));
        assert Target(t, Pte(e, j)) == Target(t, Pte(e', j'));
        if (e, j) != (d, i) && (e', j') != (d, i) {
          assert Entry(t, e, j) == Entry(s, e, j) && Entry(t, e', j') == Entry(s, e', j');
        }
      }
    }
  }

  /** Where the pages of a fork come from and go to. */
  predicate ForkArgs(parent: nat, child: nat, n: nat) {
    && parent < TASKS && 1 <= child < TASKS && parent != child && n <= SPAN && (parent == 0 ==> n <= 1)
  }

  function CopyCount(parent: nat): nat { if parent == 0 then LOW_COPY else ENTRIES }

  /** Where a user entry after a copy came from. */
  lemma CopyOrigin(s: Mm, t: Mm, parent: nat, child: nat, m: nat, d: nat, i: nat) returns (o: nat)
    requires Ok(s) && ForkArgs(parent, child, m) && Empty(s, child) && Shape(t)
    requires CopiedEntries(s, t, SPAN * parent, SPAN * child, 0, m, CopyCount(parent))
    requires 2 <= d < ENTRIES && i < ENTRIES && Entry(t, d, i).present && Entry(t, d, i).frame >= LOW
    ensures 2 <= o < ENTRIES && Entry(s, o, i).present && Entry(s, o, i).frame == Entry(t, d, i).frame
    ensures if d / SPAN == child then o - SPAN * parent == d - SPAN * child && o / SPAN == parent else o == d
  {
    var from, to := SPAN * parent, SPAN * child;
    if d / SPAN == child {
      assert !s.dir[d].present;
      o := from + (d - to);
      assert Entry(s, d, i) == ZERO;
    } else {
      o := d;
    }
  }

  lemma SpreadAfterCopy(s: Mm, t: Mm, parent: nat, child: nat, m: nat)
    requires Ok(s) && ForkArgs(parent, child, m) && Empty(s, child)
    requires Shape(t) && Copied(s, t, SPAN * parent, SPAN * child, 0, m, CopyCount(parent))
    ensures Spread(t)
  {
    forall d, i, e, j | 2 <= d < ENTRIES && 2 <= e < ENTRIES && d / SPAN == e / SPAN && 0 <= i < ENTRIES
      && 0 <= j < ENTRIES
      && Entry(t, d, i).present && Entry(t, e, j).present && Entry(t, d, i).frame == Entry(t, e, j).frame >= LOW
      ensures d == e && i == j
    {
      var d' := CopyOrigin(s, t, parent, child, m, d, i);
      var e' := CopyOrigin(s, t, parent, child, m, e, j);
      assert Entry(s, d', i).frame == Entry(s, e', j).frame;
    }
  }

  // ---------------------------------------------------------------------------------------------------------
  // copy_mem

  /** copy_mem: share the parent's pages, or take back what was shared when memory runs out. */
  function CopyMem(s: Mm, parent: nat, child: nat, n: nat): (r: (Mm, bool))
    requires Ok(s) && ForkArgs(parent, child, n) && Empty(s, child)
    ensures Shape(r.0)
  {
    var (t, m) := CopyTables(s, SPAN * parent, SPAN * child, 0, n, CopyCount(parent));
    if m == n then (t, true) else
    CopyTablesKeeps(s, SPAN * parent, SPAN * child, 0, n, CopyCount(parent));
    (FreeTables(t, SPAN * child, n), false)
  }

  /** The counts are determined by what refers to what. */
  lemma SameTargetsSameCounts(s: Mm, t: Mm)
    requires Inv(s) && Inv(t) && forall q :: IsRef(q) ==> Target(t, q) == Target(s, q)
    ensures t.map_ == s.map_
  {
    forall k | 0 <= k < PAGES ensures t.map_[k] == s.map_[k] {
      var f: int := LOW + k;
      assert Users(t, f) == Users(s, f);
      assert t.map_[f - LOW] == |Users(t, f)| && s.map_[f - LOW] == |Users(s, f)|;
    }
  }

  /** User entries differ in write bits at most, and everyone sees what they saw. */
  ghost predicate OnlyWriteBits(s: Mm, t: Mm)
    requires Shape(s) && Shape(t)
  {
    forall d, i {:trigger Entry(t, d, i)} :: 2 <= d < ENTRIES && 0 <= i < ENTRIES ==>
      && (Entry(t, d, i) == Entry(s, d, i) || Entry(t, d, i) == Shared(Entry(s, d, i)))
      && View(t, d, i) == View(s, d, i)
  }

  lemma RolledBack(s: Mm, u: Mm, t: Mm, from: nat, to: nat, m: nat, n: nat, nr: nat)
    requires Inv(s) && Inv(u) && Inv(t) && m <= n && 2 <= to && from + n <= ENTRIES && to + n <= ENTRIES
    requires Copied(s, u, from, to, 0, m, nr) && OthersKept(u, t, to, to + n) && t.held == s.held
    requires forall d :: to <= d < to + n ==> !s.dir[d].present
    requires forall d :: 0 <= d < ENTRIES ==> if to <= d < to + n then !t.dir[d].present else t.dir[d] == u.dir[d]
    ensures OnlyWriteBits(s, t)
    ensures forall q :: IsRef(q) ==> Target(t, q) == Target(s, q)
  {
    forall d, i {:trigger Entry(t, d, i)} | 2 <= d < ENTRIES && 0 <= i < ENTRIES
      ensures Entry(t, d, i) == Entry(s, d, i) || Entry(t, d, i) == Shared(Entry(s, d, i))
      ensures View(t, d, i) == View(s, d, i)
    {
      if to <= d < to + n {
        assert !t.dir[d].present && !s.dir[d].present;
      } else {
        assert Entry(t, d, i) == Entry(u, d, i);
      }
    }
    forall q | IsRef(q) ensures Target(t, q) == Target(s, q) {
      match q
      case Pde(d) => assert to <= d < to + n ==> !s.dir[d].present;
      case Pte(d, i) => assert Entry(t, d, i).present == Entry(s, d, i).present;
      case Held(f) =>
    }
  }

  /** A failed fork takes everything back: every count, the empty child, and what everyone sees. */
  lemma FailedForkRollsBack(s: Mm, parent: nat, child: nat, n: nat)
    requires Ok(s) && ForkArgs(parent, child, n) && Empty(s, child) && !CopyMem(s, parent, child, n).1
    ensures var t := CopyMem(s, parent, child, n).0;
      && Ok(t) && t.map_ == s.map_ && t.held == s.held && Empty(t, child)
      && (forall d :: 0 <= d < ENTRIES && d / SPAN != child ==> t.dir[d] == s.dir[d])
      && OnlyWriteBits(s, t)
  {
    var from, to, nr := SPAN * parent, SPAN * child, CopyCount(parent);
    CopyTablesKeeps(s, from, to, 0, n, nr);
    var u, m := CopyTables(s, from, to, 0, n, nr).0, CopyTables(s, from, to, 0, n, nr).1;
    FreeTablesKeeps(u, to, n);
    var t := FreeTables(u, to, n);
    RolledBack(s, u, t, from, to, m, n, nr);
    assert CopyMem(s, parent, child, n) == (t, false);
    SameTargetsSameCounts(s, t);
    SpreadSubset(s, t);
    KernelKept(s, t);
  }

  lemma KernelKept(s: Mm, t: Mm)
    requires Inv(s) && Shape(t) && KernelPages(s) && t.dir[0] == s.dir[0] && forall f :: 0 <= f < LOW ==>
      t.mem[f] == s.mem[f]
    ensures KernelPages(t)
  {
    forall i | 0 <= i < LOW_COPY ensures Entry(t, 0, i).frame < LOW {
      assert Entry(t, 0, i) == Entry(s, 0, i);
    }
  }

  /** Entry (d, i) of `t` maps what entry (o, i) of `s` mapped: nothing, or the same frame with the same words. The
      kernel writes its own pages, so of frames below LOW only the place is compared. */
  ghost predicate SamePage(s: Mm, o: nat, t: Mm, d: nat, i: nat)
    requires Shape(s) && Shape(t) && o < ENTRIES && d < ENTRIES && i < ENTRIES
  {
    var was, now := Entry(s, o, i), Entry(t, d, i);
    && now.present == was.present
    && (was.present ==> now.frame == was.frame && (was.frame >= LOW ==> t.mem[now.frame] == s.mem[was.frame]))
  }

  /** The first `nr` pages of each of `n` directory entries from `to` on are those that were at `from`. */
  ghost predicate SameRange(s: Mm, from: nat, t: Mm, to: nat, n: nat, nr: nat)
    requires Shape(s) && Shape(t) && from + n <= ENTRIES && to + n <= ENTRIES && nr <= ENTRIES
  {
    forall e, d, i {:trigger SamePage(s, e, t, d, i)} :: from <= e < from + n && d - to == e - from && 0 <= i < nr ==>
      SamePage(s, e, t, d, i)
  }

  /** Nobody but task `p` sees a difference. */
  ghost predicate SameViews(s: Mm, t: Mm, p: nat)
    requires Shape(s) && Shape(t)
  {
    forall d, i {:trigger SamePage(s, d, t, d, i)} :: 2 <= d < ENTRIES && 0 <= i < ENTRIES && d / SPAN != p ==>
      SamePage(s, d, t, d, i)
  }

  lemma CopiedViews(s: Mm, t: Mm, from: nat, to: nat, n: nat, nr: nat)
    requires Inv(s) && Shape(t) && 2 <= to && from + n <= ENTRIES && to + n <= ENTRIES
      && (from + n <= to || to + n <= from)
    requires Copied(s, t, from, to, 0, n, nr) && ForkRange(s, from, to, n, nr)
    ensures forall d, i {:trigger View(t, d, i)} :: to <= d < to + n && 0 <= i < nr ==>
      View(t, d, i) == View(s, from + (d - to), i) && !Entry(t, d, i).write
    ensures forall d, i {:trigger View(t, d, i)} :: 2 <= d < ENTRIES && 0 <= i < ENTRIES && !(to <= d < to + n) ==>
      View(t, d, i) == View(s, d, i)
    ensures forall d, i {:trigger SamePage(s, d, t, d, i)} ::
      2 <= d < ENTRIES && 0 <= i < ENTRIES && !(to <= d < to + n) ==>
      SamePage(s, d, t, d, i)
    ensures SameRange(s, from, t, to, n, nr)
  {
    forall d, i {:trigger View(t, d, i)} | to <= d < to + n && 0 <= i < nr
      ensures View(t, d, i) == View(s, from + (d - to), i) && !Entry(t, d, i).write
    {
      var e := from + (d - to);
      assert Entry(t, d, i) == ReadOnly(Entry(s, e, i));
      if Entry(s, e, i).present && e < 2 { assert Entry(s, e, i).frame < LOW; }
    }
    forall e, d, i {:trigger SamePage(s, e, t, d, i)} | from <= e < from + n && d - to == e - from && 0 <= i < nr
      ensures SamePage(s, e, t, d, i)
    {
      assert Entry(t, d, i) == ReadOnly(Entry(s, e, i));
      if Entry(s, e, i).present && e < 2 { assert Entry(s, e, i).frame < LOW; }
    }
    forall d, i {:trigger SamePage(s, d, t, d, i)} | 2 <= d < ENTRIES && 0 <= i < ENTRIES && !(to <= d < to + n)
      ensures SamePage(s, d, t, d, i)
    {
      assert Entry(t, d, i) == Entry(s, d, i) || Entry(t, d, i) == Shared(Entry(s, d, i));
    }
    forall d, i {:trigger View(t, d, i)} | 2 <= d < ENTRIES && 0 <= i < ENTRIES && !(to <= d < to + n)
      ensures View(t, d, i) == View(s, d, i)
    {
      assert Entry(t, d, i) == Entry(s, d, i) || Entry(t, d, i) == Shared(Entry(s, d, i));
    }
  }

  ghost predicate Lent(s: Mm, e: nat, t: Mm, d: nat, i: nat)
    requires Shape(s) && Shape(t) && e < ENTRIES && d < ENTRIES && i < ENTRIES
  {
    && CanRead(t, d, i) == CanRead(s, e, i)
    && (Entry(s, e, i).present ==> Entry(t, d, i) == Entry(s, e, i).(write := false))
  }

  /** The child's entries are the parent's without the write bit, and can be read where those could; the parent's have
      lost it too, where the frame is counted. */
  ghost predicate Protected(s: Mm, from: nat, t: Mm, to: nat, n: nat, nr: nat)
    requires Shape(s) && Shape(t) && from + n <= ENTRIES && to + n <= ENTRIES && nr <= ENTRIES
  {
    && (forall e, d, i {:trigger Lent(s, e, t, d, i)} :: from <= e < from + n && d - to == e - from && 0 <= i < nr ==>
      Lent(s, e, t, d, i))
    && (forall e, i {:trigger Entry(t, e, i)} :: from <= e < from + n && 0 <= i < nr ==>
      Entry(t, e, i) ==
        if Entry(s, e, i).present && Entry(s, e, i).frame >= LOW then Entry(s, e, i).(write := false)
          else Entry(s, e, i))
  }

  lemma CopiedProtected(s: Mm, t: Mm, from: nat, to: nat, n: nat, nr: nat)
    requires Inv(s) && Shape(t) && 2 <= to && from + n <= ENTRIES && to + n <= ENTRIES
    requires from + n <= to || to + n <= from
    requires Copied(s, t, from, to, 0, n, nr) && ForkRange(s, from, to, n, nr)
    ensures Protected(s, from, t, to, n, nr)
  {
    forall e, d, i {:trigger Lent(s, e, t, d, i)} | from <= e < from + n && d - to == e - from && 0 <= i < nr
      ensures Lent(s, e, t, d, i)
    {
      assert Entry(t, d, i) == ReadOnly(Entry(s, e, i));
      Readable(s, e, i);
      Readable(t, d, i);
    }
  }

  lemma Readable(s: Mm, d: nat, i: nat)
    requires Inv(s) && d < ENTRIES && i < ENTRIES
    ensures CanRead(s, d, i) == Entry(s, d, i).present
  {
    assert Entry(s, d, i).present ==> Entry(s, d, i).user;
  }

  /** After a fork the child sees exactly what the parent sees, and nobody's view has changed. */
  lemma ForkSharesView(s: Mm, parent: nat, child: nat, n: nat)
    requires Ok(s) && ForkArgs(parent, child, n) && Empty(s, child) && CopyMem(s, parent, child, n).1
    ensures var t := CopyMem(s, parent, child, n).0;
      && Ok(t) && t.held == s.held
      && (forall d, i {:trigger View(t, d, i)} ::
        SPAN * child <= d < SPAN * child + n && 0 <= i < (if parent == 0 then 160 else 1024) ==>
        View(t, d, i) == View(s, SPAN * parent + (d - SPAN * child), i) && !Entry(t, d, i).write)
      && (forall d, i {:trigger View(t, d, i)} :: 2 <= d < ENTRIES && 0 <= i < ENTRIES && d / SPAN != child ==>
        View(t, d, i) == View(s, d, i))
      && SameViews(s, t, child)
      && SameRange(s, SPAN * parent, t, SPAN * child, n, CopyCount(parent))
      && Protected(s, SPAN * parent, t, SPAN * child, n, CopyCount(parent))
  {
    var from, to, nr := SPAN * parent, SPAN * child, CopyCount(parent);
    CopyTablesKeeps(s, from, to, 0, n, nr);
    var t := CopyMem(s, parent, child, n).0;
    SpreadAfterCopy(s, t, parent, child, n);
    KernelKept(s, t);
    CopiedViews(s, t, from, to, n, nr);
    CopiedProtected(s, t, from, to, n, nr);
    assert forall d :: to <= d < to + n ==> d / SPAN == child;
  }

  // ---------------------------------------------------------------------------------------------------------
  // Runs

  datatype Event =
    | Fork(parent: nat, child: nat, n: nat) // copy_mem
    | Absent(task: nat, k: nat, i: nat) // a page-not-present fault
    | Store(task: nat, k: nat, i: nat, off: nat, v: Word) // a store, faulting when the page is protected
    | Exit(task: nat) // do_exit
    | Grab // the kernel takes a page for itself
    | Put(task: nat, k: nat, i: nat, f: Frame) // maps it for a task, as exec does with the argument pages
    | Drop(f: Frame) // or gives it back
    | KernelStore(f: Frame, off: nat, v: Word) // the kernel, or task 0, writes its own memory

  /** Directory entry `k` of a task. */
  function At(task: nat, k: nat): (d: nat)
    requires 1 <= task < TASKS && k < SPAN
    ensures SPAN <= d < ENTRIES && d / SPAN == task
  {
    SPAN * task + k
  }

  /** A page the kernel uses for itself, other than its own two page tables. */
  predicate KernelData(s: Mm, f: Frame)
    requires Shape(s)
  {
    f in s.held || (f < LOW && forall d :: 0 <= d < 2 && s.dir[d].present ==> s.dir[d].frame != f)
  }

  predicate Enabled(s: Mm, e: Event)
    requires Shape(s)
  {
    match e
    case Fork(parent, child, n) =>
      ForkArgs(parent, child, n) && forall d :: SPAN * child <= d < SPAN * child + SPAN ==> !s.dir[d].present
    case Absent(task, k, i) => 1 <= task < TASKS && k < SPAN && i < ENTRIES && !Entry(s, At(task, k), i).present
    case Store(task, k, i, off, v) =>
      1 <= task < TASKS && k < SPAN && i < ENTRIES && off < ENTRIES && Entry(s, At(task, k), i).present
    case Exit(task) => 1 <= task < TASKS
    case Grab => true
    case Put(task, k, i, f) =>
      1 <= task < TASKS && k < SPAN && i < ENTRIES && !Entry(s, At(task, k), i).present && f in s.held
    case Drop(f) => f in s.held
    case KernelStore(f, off, v) => off < ENTRIES && KernelData(s, f)
  }

  /** The task whose view an event may change; TASKS when none. */
  function Actor(e: Event): nat {
    match e
    case Fork(_, child, _) => child
    case Absent(task, _, _) => task
    case Store(task, _, _, _, _) => task
    case Exit(task) => task
    case Grab => TASKS
    case Put(task, _, _, _) => task
    case Drop(_) => TASKS
    case KernelStore(_, _, _) => TASKS
  }

  function ExitSpace(s: Mm, task: nat): (t: Mm)
    requires Inv(s) && 1 <= task < TASKS
    ensures Shape(t)
  {
    FreeTables(s, SPAN * task, SPAN)
  }

  function AbsentStep(s: Mm, d: nat, i: nat): (t: Mm)
    requires Inv(s) && SPAN <= d < ENTRIES && i < ENTRIES && !Entry(s, d, i).present
    ensures Shape(t)
  {
    NoPageKeeps(s, d, i);
    if NoPage(s, d, i).1 then NoPage(s, d, i).0 else ExitSpace(NoPage(s, d, i).0, d / SPAN)
  }

  function StoreStep(s: Mm, d: nat, i: nat, off: nat, v: Word): (t: Mm)
    requires Inv(s) && SPAN <= d < ENTRIES && i < ENTRIES && off < ENTRIES && Entry(s, d, i).present
    ensures Shape(t)
  {
    WriteIsIsolated(s, d, i, off, v);
    if WriteWord(s, d, i, off, v).1 then WriteWord(s, d, i, off, v).0
      else ExitSpace(WriteWord(s, d, i, off, v).0, d / SPAN)
  }

  function DropStep(s: Mm, f: Frame): (t: Mm)
    requires Inv(s) && f in s.held
    ensures Shape(t)
  {
    assert s.map_[f - LOW] > 0 by { CountOfUsed(s, Held(f)); }
    FreePage(s, f).(held := s.held - {f})
  }

  /** One event; a fault that finds no memory ends the task, as do_exit does. */
  function Step(s: Mm, e: Event): (t: Mm)
    requires Ok(s)
    ensures Shape(t)
  {
    if !Enabled(s, e) then s else
    match e
    case Fork(parent, child, n) => CopyMem(s, parent, child, n).0
    case Absent(task, k, i) => AbsentStep(s, At(task, k), i)
    case Store(task, k, i, off, v) => StoreStep(s, At(task, k), i, off, v)
    case Exit(task) => ExitSpace(s, task)
    case Grab => GetFreePage(s).0
    case Put(task, k, i, f) => PutPage(s, At(task, k), i, f).0
    case Drop(f) => DropStep(s, f)
    case KernelStore(f, off, v) => s.(mem := s.mem[f := s.mem[f][off := v]])
  }

  lemma ExitKeeps(s: Mm, task: nat)
    requires Ok(s) && 1 <= task < TASKS
    ensures var t := ExitSpace(s, task); Ok(t) && SameViews(s, t, task) && Empty(t, task) && t.held == s.held
  {
    var t := ExitSpace(s, task);
    FreeTablesKeeps(s, SPAN * task, SPAN);
    KernelKept(s, t);
    forall d, i {:trigger SamePage(s, d, t, d, i)} | 2 <= d < ENTRIES && 0 <= i < ENTRIES && d / SPAN != task
      ensures SamePage(s, d, t, d, i)
    {
      assert Entry(t, d, i) == Entry(s, d, i);
    }
    forall d, i | 2 <= d < ENTRIES && 0 <= i < ENTRIES && Entry(t, d, i).present
      ensures Entry(s, d, i).present && Entry(s, d, i).frame == Entry(t, d, i).frame
    {
      assert d / SPAN != task;
      assert Entry(t, d, i) == Entry(s, d, i);
    }
    SpreadSubset(s, t);
  }

  lemma OneEntryKeeps(s: Mm, t: Mm, d: nat, i: nat)
    requires Ok(s) && Inv(t) && SPAN <= d < ENTRIES && i < ENTRIES && t.dir[0] == s.dir[0] && ElseKept(s, t, d, i)
    requires Entry(t, d, i) == Entry(s, d, i) || (Entry(t, d, i).present && Entry(t, d, i).write)
    ensures Ok(t) && SameViews(s, t, d / SPAN)
  {
    SpreadAfterOne(s, t, d, i);
    KernelKept(s, t);
    forall e, j {:trigger SamePage(s, e, t, e, j)} | 2 <= e < ENTRIES && 0 <= j < ENTRIES && e / SPAN != d / SPAN
      ensures SamePage(s, e, t, e, j)
    {
      assert Entry(t, e, j) == Entry(s, e, j);
    }
  }

  lemma GrabKeeps(s: Mm)
    requires Ok(s)
    ensures var t := GetFreePage(s).0; Ok(t) && SameViews(s, t, TASKS)
  {
    var (t, f) := GetFreePage(s);
    GetFreePageKeeps(s);
    if f != 0 { PagesInUse(s, f); }
    SpreadSubset(s, t);
    KernelKept(s, t);
  }

  lemma DropKeeps(s: Mm, f: Frame)
    requires Ok(s) && f in s.held
    ensures var t := DropStep(s, f); Ok(t) && SameViews(s, t, TASKS)
  {
    var t := DropStep(s, f);
    assert forall d, i :: 0 <= d < ENTRIES && 0 <= i < ENTRIES ==> Entry(t, d, i) == Entry(s, d, i);
    assert forall q :: IsRef(q) && q != Held(f) ==> Target(t, q) == Target(s, q);
    OneChange(s, t, Held(f));
    SpreadSubset(s, t);
    KernelKept(s, t);
  }

  lemma ForkKeeps(s: Mm, parent: nat, child: nat, n: nat)
    requires Ok(s) && ForkArgs(parent, child, n) && Empty(s, child)
    ensures var t := CopyMem(s, parent, child, n).0; Ok(t) && SameViews(s, t, child)
  {
    var (t, ok) := CopyMem(s, parent, child, n);
    if ok {
      ForkSharesView(s, parent, child, n);
    } else {
      FailedForkRollsBack(s, parent, child, n);
      forall d, i {:trigger SamePage(s, d, t, d, i)} | 2 <= d < ENTRIES && 0 <= i < ENTRIES
        ensures SamePage(s, d, t, d, i)
      {
        assert Entry(t, d, i) == Entry(s, d, i) || Entry(t, d, i) == Shared(Entry(s, d, i));
        assert View(t, d, i) == View(s, d, i);
      }
    }
  }

  lemma AbsentKeeps(s: Mm, d: nat, i: nat)
    requires Ok(s) && SPAN <= d < ENTRIES && i < ENTRIES && !Entry(s, d, i).present
    ensures var t := AbsentStep(s, d, i); Ok(t) && SameViews(s, t, d / SPAN)
  {
    var t := NoPage(s, d, i).0;
    NoPageKeeps(s, d, i);
    OneEntryKeeps(s, t, d, i);
    if !NoPage(s, d, i).1 {
      ExitKeeps(t, d / SPAN);
      SameViewsTrans(s, t, ExitSpace(t, d / SPAN), d / SPAN);
    }
  }

  lemma StoreEventKeeps(s: Mm, d: nat, i: nat, off: nat, v: Word)
    requires Ok(s) && SPAN <= d < ENTRIES && i < ENTRIES && off < ENTRIES && Entry(s, d, i).present
    ensures var t := StoreStep(s, d, i, off, v); Ok(t) && SameViews(s, t, d / SPAN)
  {
    WriteIsIsolated(s, d, i, off, v);
    if WriteWord(s, d, i, off, v).1 {
      OneEntryKeeps(s, WriteWord(s, d, i, off, v).0, d, i);
    } else {
      ExitKeeps(s, d / SPAN);
    }
  }

  lemma SamePageTrans(s: Mm, o: nat, t: Mm, u: Mm, d: nat, i: nat)
    requires Shape(s) && Shape(t) && Shape(u) && o < ENTRIES && d < ENTRIES && i < ENTRIES
    requires SamePage(s, o, t, d, i) && SamePage(t, d, u, d, i)
    ensures SamePage(s, o, u, d, i)
  {
  }

  lemma SameViewsTrans(s: Mm, t: Mm, u: Mm, p: nat)
    requires Shape(s) && Shape(t) && Shape(u) && SameViews(s, t, p) && SameViews(t, u, p)
    ensures SameViews(s, u, p)
  {
    forall d, i {:trigger SamePage(s, d, u, d, i)} | 2 <= d < ENTRIES && 0 <= i < ENTRIES && d / SPAN != p
      ensures SamePage(s, d, u, d, i)
    {
      SamePageTrans(s, d, t, u, d, i);
    }
  }

  lemma PutKeeps(s: Mm, d: nat, i: nat, f: Frame)
    requires Ok(s) && SPAN <= d < ENTRIES && i < ENTRIES && !Entry(s, d, i).present && f in s.held
    ensures var t := PutPage(s, d, i, f).0; Ok(t) && SameViews(s, t, d / SPAN)
  {
    PutPageKeeps(s, d, i, f);
    OneEntryKeeps(s, PutPage(s, d, i, f).0, d, i);
  }

  lemma KernelStoreKeeps(s: Mm, f: Frame, off: nat, v: Word)
    requires Ok(s) && off < ENTRIES && KernelData(s, f)
    ensures var t := s.(mem := s.mem[f := s.mem[f][off := v]]); Ok(t) && SameViews(s, t, TASKS)
  {
    var t := s.(mem := s.mem[f := s.mem[f][off := v]]);
    assert f in s.held ==> Sole(s, Held(f)) && Target(s, Held(f)) == f;
    forall d | 0 <= d < ENTRIES && s.dir[d].present ensures s.dir[d].frame != f {
      assert d >= 2 ==> Target(s, Pde(d)) == s.dir[d].frame;
    }
    StoreKeeps(s, f, s.mem[f][off := v]);
    SpreadSubset(s, t);
    forall d, i {:trigger SamePage(s, d, t, d, i)} | 2 <= d < ENTRIES && 0 <= i < ENTRIES
      ensures SamePage(s, d, t, d, i)
    {
      assert Entry(s, d, i).present ==> Target(s, Pte(d, i)) == Entry(s, d, i).frame;
    }
  }

  /** Every step keeps the invariant and leaves what all other tasks map and see alone. */
  lemma StepKeeps(s: Mm, e: Event)
    requires Ok(s)
    ensures Ok(Step(s, e)) && SameViews(s, Step(s, e), Actor(e))
  {
    if !Enabled(s, e) {
    } else if e.Fork? {
      ForkKeeps(s, e.parent, e.child, e.n);
    } else if Actor(e) < TASKS {
      TaskStepKeeps(s, e);
    } else {
      KernelStepKeeps(s, e);
    }
  }

  lemma TaskStepKeeps(s: Mm, e: Event)
    requires Ok(s) && Enabled(s, e) && (e.Absent? || e.Store? || e.Exit? || e.Put?)
    ensures Ok(Step(s, e)) && SameViews(s, Step(s, e), Actor(e))
  {
    match e
    case Absent(task, k, i) => AbsentKeeps(s, At(task, k), i);
    case Store(task, k, i, off, v) => StoreEventKeeps(s, At(task, k), i, off, v);
    case Exit(task) => ExitKeeps(s, task);
    case Put(task, k, i, f) => PutKeeps(s, At(task, k), i, f);
  }

  lemma KernelStepKeeps(s: Mm, e: Event)
    requires Ok(s) && Enabled(s, e) && (e.Grab? || e.Drop? || e.KernelStore?)
    ensures Ok(Step(s, e)) && SameViews(s, Step(s, e), Actor(e))
  {
    match e
    case Grab => GrabKeeps(s);
    case Drop(f) => DropKeeps(s, f);
    case KernelStore(f, off, v) => KernelStoreKeeps(s, f, off, v);
  }

  function Run(s: Mm, events: seq<Event>): (t: Mm)
    requires Ok(s)
    ensures Ok(t)
    decreases |events|
  {
    if events == [] then s else
    StepKeeps(s, events[0]);
    Run(Step(s, events[0]), events[1..])
  }

  /** In every state of every run the counts are exact and fit mem_map's 16 bits. */
  lemma CountsExactInEveryRun(s: Mm, events: seq<Event>)
    requires Ok(s)
    ensures var t := Run(s, events);
      forall f :: LOW <= f < FRAMES ==> t.map_[f - LOW] == |Users(t, f)| <= TASKS
  {
    CountsFit(Run(s, events));
  }

  /** In every state of every run a task can read every page it has, and write those whose write bit is set. */
  lemma AccessInEveryRun(s: Mm, events: seq<Event>)
    requires Ok(s)
    ensures var t := Run(s, events);
      forall d, i {:trigger Entry(t, d, i)} :: 2 <= d < ENTRIES && 0 <= i < ENTRIES && Entry(t, d, i).present ==>
        CanRead(t, d, i) && (CanWrite(t, d, i) <==> Entry(t, d, i).write)
  {
  }

  /** Whatever the kernel and the other tasks do, what task `p` maps stays where it was, and what it sees in counted
      frames as it was. */
  lemma {:induction false} IsolationInEveryRun(s: Mm, events: seq<Event>, p: nat)
    requires Ok(s) && 1 <= p < TASKS && forall e :: e in events ==> Actor(e) != p
    ensures SameRange(s, SPAN * p, Run(s, events), SPAN * p, SPAN, ENTRIES)
    decreases |events|
  {
    if events != [] {
      var s1 := Step(s, events[0]);
      StepKeeps(s, events[0]);
      ViewsOfTask(s, s1, Actor(events[0]), p);
      IsolationInEveryRun(s1, events[1..], p);
      SameRangeTrans(s, SPAN * p, s1, Run(s1, events[1..]), SPAN * p, SPAN, ENTRIES);
    }
  }

  lemma ViewsOfTask(s: Mm, t: Mm, a: nat, p: nat)
    requires Shape(s) && Shape(t) && SameViews(s, t, a) && 1 <= p < TASKS && a != p
    ensures SameRange(s, SPAN * p, t, SPAN * p, SPAN, ENTRIES)
  {
    forall e, d, i {:trigger SamePage(s, e, t, d, i)} | SPAN * p <= e < SPAN * p + SPAN && d == e && 0 <= i < ENTRIES
      ensures SamePage(s, e, t, d, i)
    {
      assert e / SPAN == p;
      assert SamePage(s, d, t, d, i);
    }
  }

  lemma SameRangeTrans(s: Mm, from: nat, t: Mm, u: Mm, to: nat, n: nat, nr: nat)
    requires Shape(s) && Shape(t) && Shape(u) && from + n <= ENTRIES && to + n <= ENTRIES && nr <= ENTRIES
    requires SameRange(s, from, t, to, n, nr) && SameRange(t, to, u, to, n, nr)
    ensures SameRange(s, from, u, to, n, nr)
  {
    forall e, d, i {:trigger SamePage(s, e, u, d, i)} | from <= e < from + n && d - to == e - from && 0 <= i < nr
      ensures SamePage(s, e, u, d, i)
    {
      SamePageTrans(s, e, t, u, d, i);
    }
  }

  /** A forked child keeps the parent's pages of the moment of the fork, whatever everyone else does afterwards; after
      the first fork these are the kernel's first pages. */
  lemma ChildKeepsSnapshot(s: Mm, parent: nat, child: nat, n: nat, later: seq<Event>)
    requires Ok(s) && Enabled(s, Fork(parent, child, n)) && CopyMem(s, parent, child, n).1
    requires forall e :: e in later ==> Actor(e) != child
    ensures SameRange(s, SPAN * parent, Run(s, [Fork(parent, child, n)] + later), SPAN * child, n, CopyCount(parent))
  {
    var fork := Fork(parent, child, n);
    ForkSharesView(s, parent, child, n);
    StepKeeps(s, fork);
    RunOne(s, fork, later);
    IsolationInEveryRun(Step(s, fork), later, child);
    SameRangeLess(Step(s, fork), Run(Step(s, fork), later), SPAN * child, n, CopyCount(parent));
    SameRangeTrans(s, SPAN * parent, Step(s, fork), Run(Step(s, fork), later), SPAN * child, n, CopyCount(parent));
  }

  lemma RunOne(s: Mm, e: Event, later: seq<Event>)
    requires Ok(s) && Ok(Step(s, e))
    ensures Run(s, [e] + later) == Run(Step(s, e), later)
  {
    assert ([e] + later)[1..] == later;
  }

  lemma SameRangeLess(s: Mm, t: Mm, d: nat, n: nat, nr: nat)
    requires Shape(s) && Shape(t) && d + SPAN <= ENTRIES && n <= SPAN && nr <= ENTRIES
    requires SameRange(s, d, t, d, SPAN, ENTRIES)
    ensures SameRange(s, d, t, d, n, nr)
  {
  }

  /** The kernel's table for 4 MB of physical memory from frame `base`. */
  function Identity(base: nat): (t: seq<Word>)
    requires base + ENTRIES <= FRAMES
    ensures |t| == ENTRIES && forall i :: 0 <= i < ENTRIES ==> t[i] == Mapped(base + i)
  {
    seq(ENTRIES, i requires 0 <= i < ENTRIES => Mapped(base + i))
  }

  function BootFrames(): (m: seq<seq<Word>>)
    ensures |m| == FRAMES
    ensures forall f :: 0 <= f < FRAMES ==>
      m[f] == if f == 1 then Identity(0) else if f == 2 then Identity(ENTRIES) else Blank()
  {
    seq(FRAMES, f => if f == 1 then Identity(0) else if f == 2 then Identity(ENTRIES) else Blank())
  }

  /** Memory as it is when the first task starts: the kernel's two tables map physical memory, nothing is in use. */
  function Boot(): Mm {
    Mm(seq(PAGES, k => 0), Blank()[0 := Mapped(1)][1 := Mapped(2)], BootFrames(), {})
  }

  lemma BootIsOk()
    ensures Ok(Boot())
  {
    var s := Boot();
    assert Shape(s);
    assert forall d, i :: 2 <= d < ENTRIES && 0 <= i < ENTRIES ==> Entry(s, d, i) == ZERO;
    forall i | 0 <= i < LOW_COPY ensures Entry(s, 0, i).frame < LOW { assert s.mem[1] == Identity(0); }
    forall f: int | LOW <= f < FRAMES ensures s.map_[f - LOW] == |Users(s, f)| {
      forall r | IsRef(r) ensures Target(s, r) == -1 { }
      assert Users(s, f) == {};
    }
  }
}
