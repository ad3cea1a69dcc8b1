/** The table of expiring keys of kernel/sys.c: sys_keyset, sys_keyclear and the timer's funkcija, and which key a file
  is encrypted and decrypted with. Time is jiffies/HZ; a key ends with its terminating zero, so is a plain sequence. */
module Keys {
  import opened Bytes
  import opened Zones
  import Cipher
  import CryptFiles
  import opened Common

  const NR_TASKS: nat := 64
  const SLOTS: nat := 8
  const LONGEST: nat := 512
  const PROCESS_SECONDS: int := 45
  const GLOBAL_SECONDS: int := 120
  const ERANGE: int := 34
  const ENOTPOWOFTWO: int := 40

  /** The module's statics: per task its slot or -1 (nizProcesIDova); per slot its deadline or -1 (nizProcesVremena),
      whether it is free (nizSlobodnih) and its key (nizProcesa); the earliest deadline or -1 (prviSledeciBrojac); the
      global key and its deadline or -1 (brojacGlobal). */
  datatype Table = Table(slot: seq<int>, until: seq<int>, free: seq<bool>, key: seq<seq<int>>, next: int,
    globalKey: seq<int>, globalUntil: int)

  predicate Shape(k: Table) {
    && |k.slot| == NR_TASKS && |k.until| == |k.free| == |k.key| == SLOTS
    && (forall i :: 0 <= i < NR_TASKS ==> -1 <= k.slot[i] < SLOTS)
  }

  predicate Mapped(k: Table, i: int)
    requires Shape(k)
  {
    0 <= i < NR_TASKS && k.slot[i] != -1
  }

  /** Task `i`'s own key and deadline. */
  function KeyAt(k: Table, i: nat): seq<int>
    requires Shape(k) && Mapped(k, i)
  {
    k.key[k.slot[i]]
  }

  function UntilAt(k: Table, i: nat): int
    requires Shape(k) && Mapped(k, i)
  {
    k.until[k.slot[i]]
  }

  /** No two tasks share a slot, and a slot is free exactly when no task has it. */
  ghost predicate Slots(k: Table)
    requires Shape(k)
  {
    && (forall i, j {:trigger Mapped(k, i), Mapped(k, j)} :: Mapped(k, i) && Mapped(k, j) && i != j ==>
      k.slot[i] != k.slot[j])
    && (forall i {:trigger Mapped(k, i)} :: Mapped(k, i) ==> !k.free[k.slot[i]])
    && (forall s {:trigger Used(k, s)} :: 0 <= s < SLOTS && !k.free[s] ==> Used(k, s))
  }

  ghost predicate Used(k: Table, s: nat)
    requires Shape(k)
  {
    exists i {:trigger Mapped(k, i)} :: Mapped(k, i) && k.slot[i] == s
  }

  /** Every task's key is there and has a deadline that a later renewal cannot undercut. */
  ghost predicate Filled(k: Table, now: int)
    requires Shape(k)
  {
    forall i {:trigger Mapped(k, i)} :: Mapped(k, i) ==>
      KeyAt(k, i) != [] && 0 <= UntilAt(k, i) <= now + PROCESS_SECONDS
  }

  /** The cached deadline is no later than any task's, and there is one while any task has a key. */
  ghost predicate Bound(k: Table)
    requires Shape(k)
  {
    forall i {:trigger Mapped(k, i)} :: Mapped(k, i) ==> k.next != -1 && k.next <= UntilAt(k, i)
  }

  ghost predicate Rest(k: Table, now: int) {
    && Shape(k) && 0 <= now && -1 <= k.next && Slots(k) && Filled(k, now)
    && (k.globalKey == [] <==> k.globalUntil == -1) && -1 <= k.globalUntil
  }

  /** The invariant, at time `now`. */
  ghost predicate Inv(k: Table, now: int) {
    Rest(k, now) && Bound(k)
  }

  /** The table as first compiled. */
  function Start(): Table {
    Table(seq(NR_TASKS, i => -1), seq(SLOTS, s => -1), seq(SLOTS, s => true), seq(SLOTS, s => []), -1, [], -1)
  }

  lemma StartIsOk()
    ensures Inv(Start(), 0)
  {
  }

  // ---------------------------------------------------------------------------------------------------------
  // The test on the length of a key

  /** C's &. */
  function And(a: nat, b: nat): nat {
    if a == 0 || b == 0 then 0
    else (if a % 2 == 1 && b % 2 == 1 then 1 else 0) + 2 * And(a / 2, b / 2)
  }

  predicate Accepted(i: nat) {
    i <= LONGEST && i != 0 && And(i, i - 1) == 0
  }

  function Pow2(e: nat): (p: nat)
    ensures p > 0
  {
    if e == 0 then 1 else 2 * Pow2(e - 1)
  }

  lemma {:induction false} OnlyPowers(i: nat) returns (e: nat)
    requires i > 0 && And(i, i - 1) == 0
    ensures i == Pow2(e)
  {
    if i == 1 {
      e := 0;
    } else {
      assert i % 2 == 0 by {
        if i % 2 == 1 { assert And(i / 2, (i - 1) / 2) == 0; AndSelf(i / 2); }
      }
      assert (i - 1) / 2 == i / 2 - 1;
      e := OnlyPowers(i / 2);
      e := e + 1;
    }
  }

  lemma {:induction false} AndSelf(a: nat)
    ensures And(a, a) == a
  {
    if a > 0 { AndSelf(a / 2); }
  }

  lemma {:induction false} PowersGrow(d: nat, e: nat)
    requires d <= e
    ensures Pow2(d) <= Pow2(e)
  {
    if d < e { PowersGrow(d, e - 1); }
  }

  lemma NotOne(i: nat, q: nat)
    requires i > 1
    ensures i * q != 1
  {
    if q > 1 { assert i * q > i; }
  }

  lemma OddTimesOdd(i: nat, q: nat)
    requires i % 2 == 1 && i * q % 2 == 0
    ensures q % 2 == 0
  {
    var m, r := i / 2, q / 2;
    assert q % 2 == 1 ==> i * q == (2 * m + 1) * (2 * r + 1) == 2 * (2 * m * r + m + r) + 1;
  }

  lemma {:induction false} DivisorOfPower(i: nat, q: nat, e: nat)
    requires i > 0 && i * q == Pow2(e)
    ensures And(i, i - 1) == 0
    decreases e
  {
    if i > 1 {
      assert e > 0 by { NotOne(i, q); }
      var h := Pow2(e - 1);
      if i % 2 == 0 {
        assert 2 * (i / 2 * q) == 2 * h by { assert i / 2 * 2 * q == i * q; }
        DivisorOfPower(i / 2, q, e - 1);
        assert (i - 1) / 2 == i / 2 - 1;
      } else {
        var r := q / 2;
        OddTimesOdd(i, q);
        assert 2 * (i * r) == i * q == 2 * h;
        DivisorOfPower(i, r, e - 1);
      }
    }
  }

  /** The bit test lets through exactly the lengths up to 512 that divide a block. */
  lemma AcceptedDivides(i: nat)
    ensures Accepted(i) <==> 0 < i <= LONGEST && BLOCK % i == 0
  {
    if Accepted(i) {
      AcceptedOnes(i);
    } else if 0 < i <= LONGEST && BLOCK % i == 0 {
      DivisorsAccepted(i);
    }
  }

  lemma AcceptedOnes(i: nat)
    requires Accepted(i)
    ensures 0 < i <= LONGEST && BLOCK % i == 0
  {
    var e := OnlyPowers(i);
    TenthPower();
    if e >= 10 { PowersGrow(10, e); }
    SmallPower(e);
  }

  lemma DivisorsAccepted(i: nat)
    requires 0 < i <= LONGEST && BLOCK % i == 0
    ensures Accepted(i)
  {
    TenthPower();
    assert i * (BLOCK / i) == BLOCK;
    DivisorOfPower(i, BLOCK / i, 10);
  }

  lemma TenthPower()
    ensures Pow2(10) == 1024
  {
    FirstPowers();
  }

  lemma SmallPower(e: nat)
    requires e < 10
    ensures BLOCK % Pow2(e) == 0
  {
    FirstPowers();
  }

  lemma FirstPowers()
    ensures Pow2(0) == 1 && Pow2(1) == 2 && Pow2(2) == 4 && Pow2(3) == 8 && Pow2(4) == 16 && Pow2(5) == 32
    ensures Pow2(6) == 64 && Pow2(7) == 128 && Pow2(8) == 256 && Pow2(9) == 512 && Pow2(10) == 1024
  {
  }

  // ---------------------------------------------------------------------------------------------------------
  // The operations

  /** The last free slot below `j`, or -1. */
  function LastFree(free: seq<bool>, j: nat): (s: int)
    requires j <= |free|
    ensures -1 <= s < j && (s != -1 ==> free[s]) && forall r :: s < r < j ==> !free[r]
  {
    if j == 0 then -1 else if free[j - 1] then j - 1 else LastFree(free, j - 1)
  }

  /** sys_keyset asks for a slot only when one is left; it panics otherwise. */
  predicate Room(k: Table, mode: int, task: nat)
    requires Shape(k) && task < NR_TASKS
  {
    mode == 1 && k.slot[task] == -1 ==> LastFree(k.free, SLOTS) != -1
  }

  /** The second half of sys_keyset, for a key that passed the tests. */
  function PutKey(k: Table, task: nat, str: seq<int>, now: int): (t: Table)
    requires Shape(k) && task < NR_TASKS && Room(k, 1, task)
    ensures Shape(t)
  {
    var end := now + PROCESS_SECONDS;
    if k.slot[task] != -1 then
      k.(key := k.key[k.slot[task] := str], until := k.until[k.slot[task] := end])
    else
      var s := LastFree(k.free, SLOTS);
      k.(slot := k.slot[task := s], until := k.until[s := end], free := k.free[s := false], key := k.key[s := str],
         next := if k.next == -1 || k.next > end then end else k.next)
  }

  function Set(k: Table, mode: int, task: nat, str: seq<int>, now: int): (r: (Table, int))
    requires Shape(k) && task < NR_TASKS && Room(k, mode, task)
    ensures Shape(r.0)
  {
    if mode != 0 && mode != 1 then (k, -ERANGE)
    else if !Accepted(|str|) then (k, -ENOTPOWOFTWO)
    else if mode == 0 then (k.(globalKey := str, globalUntil := now + GLOBAL_SECONDS), 0)
    else (PutKey(k, task, str, now), 0)
  }

  /** sys_keyset refuses a wrong mode, then a length that does not divide a block, and changes nothing then. */
  lemma SetRefuses(k: Table, mode: int, task: nat, str: seq<int>, now: int)
    requires Shape(k) && task < NR_TASKS && Room(k, mode, task)
    ensures var r := Set(k, mode, task, str, now);
      && (r.1 == 0 <==> (mode == 0 || mode == 1) && 0 < |str| <= LONGEST && BLOCK % |str| == 0)
      && (r.1 != 0 ==> r.0 == k && r.1 == if mode == 0 || mode == 1 then -40 else -34)
  {
    AcceptedDivides(|str|);
  }

  /** What sys_keyclear and the timer do to the slot of a task. */
  function Release(k: Table, task: nat): (t: Table)
    requires Shape(k) && task < NR_TASKS && k.slot[task] != -1
    ensures Shape(t)
  {
    var s := k.slot[task];
    k.(slot := k.slot[task := -1], until := k.until[s := -1], free := k.free[s := true], key := k.key[s := []])
  }

  function Clear(k: Table, mode: int, task: nat): (r: (Table, int))
    requires Shape(k) && task < NR_TASKS
    ensures Shape(r.0)
  {
    if mode != 0 && mode != 1 then (k, -ERANGE)
    else if mode == 0 then (k.(globalKey := [], globalUntil := -1), 0)
    else if k.slot[task] == -1 then (k, 0)
    else (Release(k, task), 0)
  }

  /** One round of funkcija's loop. */
  function Visit(k: Table, i: nat, now: int): (t: Table)
    requires Shape(k) && i < NR_TASKS
    ensures Shape(t)
  {
    if k.slot[i] == -1 then k
    else if k.until[k.slot[i]] <= now then Release(k, i)
    else
      var end := k.until[k.slot[i]];
      if end != -1 && (end < k.next || k.next == -1) then k.(next := end) else k
  }

  function Sweep(k: Table, i: nat, now: int): (t: Table)
    requires Shape(k) && i <= NR_TASKS
    ensures Shape(t)
    decreases NR_TASKS - i
  {
    if i == NR_TASKS then k else Sweep(Visit(k, i, now), i + 1, now)
  }

  /** funkcija, called on every tick of the timer. */
  function Tick(k: Table, now: int): (t: Table)
    requires Shape(k)
    ensures Shape(t)
  {
    var k1 := if k.globalUntil <= now && k.globalUntil != -1 then k.(globalKey := [], globalUntil := -1) else k;
    if k1.next > now || k1.next == -1 then k1 else Sweep(k1.(next := -1), 0, now)
  }

  // ---------------------------------------------------------------------------------------------------------
  // What the table stands for: every live key with its own deadline

  datatype Entry = Empty | Held(key: seq<int>, until: int)
  datatype Live = Live(tasks: seq<Entry>, global: Entry)

  function EntryOf(k: Table, i: nat): Entry
    requires Shape(k)
  {
    if Mapped(k, i) then Held(KeyAt(k, i), UntilAt(k, i)) else Empty
  }

  ghost function View(k: Table): (v: Live)
    requires Shape(k)
    ensures |v.tasks| == NR_TASKS && forall i :: 0 <= i < NR_TASKS ==> v.tasks[i] == EntryOf(k, i)
  {
    Live(seq(NR_TASKS, i requires 0 <= i => EntryOf(k, i)), if k.globalKey == [] then Empty
      else Held(k.globalKey, k.globalUntil))
  }

  /** A key is dropped at its deadline. */
  function Kept(e: Entry, now: int): Entry {
    if e.Held? && e.until > now then e else Empty
  }

  ghost function KeptAll(s: seq<Entry>, now: int): (t: seq<Entry>)
    ensures |t| == |s| && forall i :: 0 <= i < |s| ==> t[i] == Kept(s[i], now)
  {
    seq(|s|, i requires 0 <= i < |s| => Kept(s[i], now))
  }

  datatype Event = SetKey(mode: int, task: nat, str: seq<int>) | ClearKey(mode: int, task: nat) | TimerTick

  /** The operations on a plain list of keys, one place a task. */
  ghost function Plain(v: Live, e: Event, now: int): (w: Live)
    requires |v.tasks| == NR_TASKS && (!e.TimerTick? ==> e.task < NR_TASKS)
    ensures |w.tasks| == NR_TASKS
  {
    match e
    case SetKey(mode, task, str) =>
      if !Accepted(|str|) then v
      else if mode == 0 then v.(global := Held(str, now + GLOBAL_SECONDS))
      else if mode == 1 then v.(tasks := v.tasks[task := Held(str, now + PROCESS_SECONDS)])
      else v
    case ClearKey(mode, task) =>
      if mode == 0 then v.(global := Empty)
      else if mode == 1 then v.(tasks := v.tasks[task := Empty])
      else v
    case TimerTick => Live(KeptAll(v.tasks, now), Kept(v.global, now))
  }

  /** The other fields say nothing about the slots. */
  lemma SameSlots(k: Table, t: Table, was: int, now: int)
    requires Shape(k) && Slots(k) && Filled(k, was) && was <= now
    requires t.slot == k.slot && t.until == k.until && t.free == k.free && t.key == k.key
    ensures Shape(t) && Slots(t) && Filled(t, now) && View(t).tasks == View(k).tasks
    ensures forall i {:trigger Mapped(t, i)} :: Mapped(t, i) == Mapped(k, i)
  {
    forall i {:trigger Mapped(t, i)} ensures Mapped(t, i) == Mapped(k, i) { }
    forall s {:trigger Used(t, s)} | 0 <= s < SLOTS && !t.free[s] ensures Used(t, s) {
      assert Used(k, s);
      var i :| Mapped(k, i) && k.slot[i] == s;
      assert Mapped(t, i);
    }
    assert View(t).tasks == View(k).tasks;
  }

  /** `t` differs from `k` in what task `task` holds only. */
  ghost predicate OthersAlike(k: Table, t: Table, task: nat)
    requires Shape(k) && Shape(t)
  {
    forall i {:trigger Mapped(t, i)} {:trigger Alike(k, t, i)} :: 0 <= i < NR_TASKS && i != task ==> Alike(k, t, i)
  }

  ghost predicate Alike(k: Table, t: Table, i: nat)
    requires Shape(k) && Shape(t) && i < NR_TASKS
  {
    t.slot[i] == k.slot[i] && EntryOf(t, i) == EntryOf(k, i) && Mapped(t, i) == Mapped(k, i)
  }

  lemma PutAlike(k: Table, task: nat, str: seq<int>, now: int)
    requires Shape(k) && Slots(k) && task < NR_TASKS && Room(k, 1, task)
    ensures var t := PutKey(k, task, str, now);
      && OthersAlike(k, t, task) && Mapped(t, task) && EntryOf(t, task) == Held(str, now + PROCESS_SECONDS)
  {
    var t := PutKey(k, task, str, now);
    assert Mapped(t, task);
    forall i {:trigger Alike(k, t, i)} | 0 <= i < NR_TASKS && i != task
      ensures Alike(k, t, i)
    {
      assert Mapped(k, i) ==> !k.free[k.slot[i]];
      assert Mapped(k, task) && Mapped(k, i) ==> k.slot[i] != k.slot[task];
    }
  }

  lemma PutSlots(k: Table, task: nat, str: seq<int>, now: int)
    requires Shape(k) && Slots(k) && task < NR_TASKS && Room(k, 1, task)
    ensures Slots(PutKey(k, task, str, now))
  {
    var t := PutKey(k, task, str, now);
    PutAlike(k, task, str, now);
    assert k.slot[task] != -1 ==> Mapped(k, task) && !k.free[k.slot[task]];
    forall i, j | Mapped(t, i) && Mapped(t, j) && i != j ensures t.slot[i] != t.slot[j] {
      assert i != task ==> Alike(k, t, i) && Mapped(k, i) && !k.free[k.slot[i]];
      assert j != task ==> Alike(k, t, j) && Mapped(k, j) && !k.free[k.slot[j]];
    }
    forall i | Mapped(t, i) ensures !t.free[t.slot[i]] {
      assert i != task ==> Alike(k, t, i) && Mapped(k, i) && !k.free[k.slot[i]];
    }
    forall s {:trigger Used(t, s)} | 0 <= s < SLOTS && !t.free[s] ensures Used(t, s) {
      assert Mapped(t, task);
      if s != t.slot[task] {
        assert Used(k, s);
        var i :| Mapped(k, i) && k.slot[i] == s;
        assert Mapped(t, i);
      }
    }
  }

  lemma PutKeeps(k: Table, task: nat, str: seq<int>, was: int, now: int)
    requires Inv(k, was) && was <= now && task < NR_TASKS && Room(k, 1, task) && str != []
    ensures Inv(PutKey(k, task, str, now), now)
    ensures View(PutKey(k, task, str, now))
      == View(k).(tasks := View(k).tasks[task := Held(str, now + PROCESS_SECONDS)])
  {
    var t := PutKey(k, task, str, now);
    PutAlike(k, task, str, now);
    PutSlots(k, task, str, now);
    assert Mapped(k, task) ==> k.next <= UntilAt(k, task);
    forall i {:trigger Mapped(t, i)} | Mapped(t, i)
      ensures KeyAt(t, i) != [] && 0 <= UntilAt(t, i) <= now + PROCESS_SECONDS && t.next != -1
        && t.next <= UntilAt(t, i)
    {
      if i != task {
        assert EntryOf(t, i) == EntryOf(k, i) && Mapped(k, i);
      }
    }
    assert View(t).tasks == View(k).tasks[task := Held(str, now + PROCESS_SECONDS)];
  }

  lemma ReleaseAlike(k: Table, task: nat)
    requires Shape(k) && Slots(k) && Mapped(k, task)
    ensures OthersAlike(k, Release(k, task), task) && !Mapped(Release(k, task), task)
  {
    var t := Release(k, task);
    forall i {:trigger Alike(k, t, i)} | 0 <= i < NR_TASKS && i != task
      ensures Alike(k, t, i)
    {
      assert Mapped(k, i) ==> k.slot[i] != k.slot[task];
    }
  }

  lemma ReleaseSlots(k: Table, task: nat)
    requires Shape(k) && Slots(k) && Mapped(k, task)
    ensures Slots(Release(k, task))
  {
    var t := Release(k, task);
    ReleaseAlike(k, task);
    forall s {:trigger Used(t, s)} | 0 <= s < SLOTS && !t.free[s] ensures Used(t, s) {
      assert Used(k, s);
      var i :| Mapped(k, i) && k.slot[i] == s;
      assert Mapped(t, i);
    }
  }

  lemma ReleaseKeeps(k: Table, task: nat, now: int)
    requires Rest(k, now) && Mapped(k, task)
    ensures Rest(Release(k, task), now) && (Bound(k) ==> Bound(Release(k, task)))
    ensures View(Release(k, task)) == View(k).(tasks := View(k).tasks[task := Empty])
  {
    var t := Release(k, task);
    ReleaseAlike(k, task);
    ReleaseSlots(k, task);
    forall i {:trigger Mapped(t, i)} | Mapped(t, i)
      ensures i != task && Mapped(k, i) && EntryOf(t, i) == EntryOf(k, i)
    {
    }
    assert View(t).tasks == View(k).tasks[task := Empty];
  }

  /** The sweep has passed the tasks below `i`: `next` bounds theirs, and none of them is overdue. */
  ghost predicate Swept(k: Table, i: nat, now: int)
    requires Shape(k) && i <= NR_TASKS
  {
    forall j {:trigger Mapped(k, j)} :: j < i && Mapped(k, j) ==>
      k.next != -1 && k.next <= UntilAt(k, j) && UntilAt(k, j) > now
  }

  /** What the sweep does from task `i` on. */
  ghost predicate SweptTo(k: Table, t: Table, i: nat, now: int)
    requires Shape(k) && Shape(t)
  {
    && View(t).global == View(k).global
    && forall j {:trigger View(t).tasks[j]} :: 0 <= j < NR_TASKS ==>
      View(t).tasks[j] == if j < i then View(k).tasks[j] else Kept(View(k).tasks[j], now)
  }

  lemma VisitKeeps(k: Table, i: nat, now: int)
    requires Rest(k, now) && i < NR_TASKS && Swept(k, i, now)
    ensures var t := Visit(k, i, now);
      && Rest(t, now) && Swept(t, i + 1, now)
        && View(t) == View(k).(tasks := View(k).tasks[i := Kept(View(k).tasks[i], now)])
  {
    var t := Visit(k, i, now);
    if Mapped(k, i) && UntilAt(k, i) <= now {
      ReleaseKeeps(k, i, now);
      ReleaseAlike(k, i);
    } else {
      SameSlots(k, t, now, now);
    }
  }

  lemma {:induction false} SweepKeeps(k: Table, i: nat, now: int)
    requires Rest(k, now) && i <= NR_TASKS && Swept(k, i, now)
    ensures Inv(Sweep(k, i, now), now) && SweptTo(k, Sweep(k, i, now), i, now)
    decreases NR_TASKS - i
  {
    if i < NR_TASKS {
      VisitKeeps(k, i, now);
      SweepKeeps(Visit(k, i, now), i + 1, now);
    }
  }

  /** After a tick exactly the keys with a deadline ahead are left: none past its deadline survives and none is cleared
      before it, although most ticks only look at one cached number. */
  lemma TickKeeps(k: Table, was: int, now: int)
    requires Inv(k, was) && was <= now
    ensures Inv(Tick(k, now), now) && View(Tick(k, now)) == Plain(View(k), TimerTick, now)
  {
    var k1 := if k.globalUntil <= now && k.globalUntil != -1 then k.(globalKey := [], globalUntil := -1) else k;
    SameSlots(k, k1, was, now);
    if k1.next > now || k1.next == -1 {
      forall i | 0 <= i < NR_TASKS ensures View(k).tasks[i] == Kept(View(k).tasks[i], now) {
        assert Mapped(k, i) ==> k.next != -1 && k.next <= UntilAt(k, i);
      }
      assert View(k1).tasks == KeptAll(View(k).tasks, now);
    } else {
      var k2 := k1.(next := -1);
      SameSlots(k, k2, was, now);
      SweepKeeps(k2, 0, now);
      assert View(Tick(k, now)).tasks == KeptAll(View(k).tasks, now);
    }
  }

  // ---------------------------------------------------------------------------------------------------------
  // Runs

  ghost predicate Possible(k: Table, e: Event)
    requires Shape(k)
  {
    match e
    case SetKey(mode, task, _) => task < NR_TASKS && Room(k, mode, task)
    case ClearKey(_, task) => task < NR_TASKS
    case TimerTick => true
  }

  ghost function Step(k: Table, e: Event, now: int): (t: Table)
    requires Shape(k) && Possible(k, e)
    ensures Shape(t)
  {
    match e
    case SetKey(mode, task, str) => Set(k, mode, task, str, now).0
    case ClearKey(mode, task) => Clear(k, mode, task).0
    case TimerTick => Tick(k, now)
  }

  lemma StepKeeps(k: Table, e: Event, was: int, now: int)
    requires Inv(k, was) && was <= now && Possible(k, e)
    ensures Inv(Step(k, e, now), now) && View(Step(k, e, now)) == Plain(View(k), e, now)
  {
    match e
    case SetKey(mode, task, str) =>
      if mode == 1 && Accepted(|str|) {
        PutKeeps(k, task, str, was, now);
      } else {
        SameSlots(k, Set(k, mode, task, str, now).0, was, now);
      }
    case ClearKey(mode, task) =>
      SameSlots(k, Clear(k, 0, task).0, was, now);
      SameSlots(k, k, was, now);
      if mode == 1 {
        if Mapped(k, task) {
          ReleaseKeeps(k, task, now);
        } else {
          assert View(k).tasks[task := Empty] == View(k).tasks;
        }
      }
    case TimerTick => TickKeeps(k, was, now);
  }

  /** Events with the time of each. */
  ghost predicate Fits(e: Event) {
    e.TimerTick? || e.task < NR_TASKS
  }

  ghost predicate Runs(k: Table, events: seq<(Event, int)>, was: int)
    requires Shape(k)
    decreases |events|
  {
    events == [] ||
      (was <= events[0].1 && Possible(k, events[0].0)
        && Runs(Step(k, events[0].0, events[0].1), events[1..], events[0].1))
  }

  ghost function Run(k: Table, events: seq<(Event, int)>, was: int): (t: Table)
    requires Shape(k) && Runs(k, events, was)
    ensures Shape(t)
    decreases |events|
  {
    if events == [] then k else Run(Step(k, events[0].0, events[0].1), events[1..], events[0].1)
  }

  ghost function PlainRun(v: Live, events: seq<(Event, int)>): Live
    requires |v.tasks| == NR_TASKS && forall i :: 0 <= i < |events| ==> Fits(events[i].0)
    decreases |events|
  {
    if events == [] then v else
    assert Fits(events[0].0);
    PlainRun(Plain(v, events[0].0, events[0].1), events[1..])
  }

  ghost function LastTime(events: seq<(Event, int)>, was: int): int {
    if events == [] then was else events[|events| - 1].1
  }

  /** Over any run the slots and the cached deadline act as one plain map of keys, each with its own deadline. */
  lemma {:induction false} TableIsPlainMap(k: Table, events: seq<(Event, int)>, was: int)
    requires Inv(k, was) && Runs(k, events, was)
    ensures forall i :: 0 <= i < |events| ==> Fits(events[i].0)
    ensures Inv(Run(k, events, was), LastTime(events, was))
    ensures View(Run(k, events, was)) == PlainRun(View(k), events)
    decreases |events|
  {
    if events != [] {
      var (e, now) := events[0];
      StepKeeps(k, e, was, now);
      TableIsPlainMap(Step(k, e, now), events[1..], now);
      assert LastTime(events[1..], now) == LastTime(events, was);
    }
  }

  /** A key set by a task for itself lasts 45 seconds and the global one 120; the ticks before leave it, the first one
      from then on takes it away. */
  lemma KeysLast(k: Table, mode: int, task: nat, str: seq<int>, was: int, begin: int, now: int)
    requires Inv(k, was) && was <= begin <= now && task < NR_TASKS && Room(k, mode, task) && 0 <= mode <= 1
    requires 0 < |str| <= 512 && 1024 % |str| == 0
    ensures var u := View(Tick(Set(k, mode, task, str, begin).0, now));
      && (mode == 1 ==> u.tasks[task] == if now < begin + 45 then Held(str, begin + 45) else Empty)
      && (mode == 0 ==> u.global == if now < begin + 120 then Held(str, begin + 120) else Empty)
      && forall i :: 0 <= i < 64 && !(mode == 1 && i == task) ==>
        u.tasks[i] == var e := View(k).tasks[i]; if e.Held? && e.until > now then e else Empty
  {
    AcceptedDivides(|str|);
    StepKeeps(k, SetKey(mode, task, str), was, begin);
    TickKeeps(Set(k, mode, task, str, begin).0, begin, now);
  }

  /** sys_keyclear takes away the global key or the task's own, at once, and nothing else. */
  lemma ClearTakes(k: Table, mode: int, task: nat, was: int, now: int)
    requires Inv(k, was) && was <= now && task < NR_TASKS
    ensures var r := Clear(k, mode, task); var u, v := View(r.0), View(k);
      && r.1 == (if 0 <= mode <= 1 then 0 else -34)
      && u.global == (if mode == 0 then Empty else v.global)
      && forall i :: 0 <= i < 64 ==> u.tasks[i] == if mode == 1 && i == task then Empty else v.tasks[i]
  {
    StepKeeps(k, ClearKey(mode, task), was, now);
  }

  // ---------------------------------------------------------------------------------------------------------
  // When a slot is left

  /** The slots of the tasks below `n` that have one. */
  ghost function Taken(k: Table, n: nat): set<int>
    requires Shape(k) && n <= NR_TASKS
  {
    if n == 0 then {} else if Mapped(k, n - 1) then Taken(k, n - 1) + {k.slot[n - 1]} else Taken(k, n - 1)
  }

  /** How many of the tasks below `n` hold a key. */
  ghost function Holders(v: Live, n: nat): nat
    requires n <= |v.tasks|
  {
    if n == 0 then 0 else Holders(v, n - 1) + if v.tasks[n - 1].Held? then 1 else 0
  }

  lemma {:induction false} OneSlotEach(k: Table, n: nat)
    requires Shape(k) && Slots(k) && n <= NR_TASKS
    ensures |Taken(k, n)| == Holders(View(k), n)
    ensures forall s :: s in Taken(k, n) <==>
      exists i {:trigger Mapped(k, i)} :: i < n && Mapped(k, i) && k.slot[i] == s
  {
    if n > 0 {
      OneSlotEach(k, n - 1);
      assert View(k).tasks[n - 1].Held? == Mapped(k, n - 1);
    }
  }

  ghost function Upto(n: nat): (s: set<int>)
    ensures |s| == n && forall x :: x in s <==> 0 <= x < n
  {
    if n == 0 then {} else Upto(n - 1) + {n - 1}
  }

  /** A task without a key finds a slot if and only if fewer than eight tasks hold keys. */
  lemma RoomMeansFewerThanEight(k: Table, now: int, task: nat)
    requires Inv(k, now) && task < NR_TASKS && !Mapped(k, task)
    ensures Room(k, 1, task) <==> Holders(View(k), NR_TASKS) < SLOTS
  {
    OneSlotEach(k, NR_TASKS);
    var taken, all := Taken(k, NR_TASKS), Upto(SLOTS);
    forall s ensures s in taken <==> 0 <= s < SLOTS && !k.free[s] {
      if 0 <= s < SLOTS && !k.free[s] { assert Used(k, s); }
    }
    SubsetSize(taken, all);
    if Room(k, 1, task) {
      assert LastFree(k.free, SLOTS) !in taken;
    } else {
      assert taken == all;
    }
  }

  // ---------------------------------------------------------------------------------------------------------
  // Which key a file is encrypted and decrypted with

  /** C's %. */
  function Rem(a: int, b: int): int
    requires b > 0
  {
    if a >= 0 then a % b else -((-a) % b)
  }

  /** hashString, from a power `deg` of 37. */
  function HashFrom(str: seq<int>, hash: int, deg: int): int {
    if str == [] then hash
    else HashFrom(str[1..], Rem(hash + str[0] * deg, 1050737), Rem(deg * 37, 1050737))
  }

  function Hash(str: seq<int>): int { HashFrom(str, 0, 37) }

  /** The string's characters as the digits of a number to the base 37, the first one the lowest. */
  function Digits37(str: seq<int>): int {
    if str == [] then 0 else str[0] + 37 * Digits37(str[1..])
  }

  /** `a` and `b` leave the same remainder. */
  ghost predicate Same(a: int, b: int) { exists q: int :: a == b + 1050737 * q }

  lemma RemIs(a: int)
    ensures Same(Rem(a, 1050737), a) && -1050737 < Rem(a, 1050737) < 1050737 && (a >= 0 ==> Rem(a, 1050737) >= 0)
  {
    var q := if a >= 0 then -(a / 1050737) else (-a) / 1050737;
    assert Rem(a, 1050737) == a + 1050737 * q;
  }

  lemma {:induction false} HashFromIs(str: seq<int>, hash: int, deg: int)
    requires -1050737 < hash < 1050737
    ensures var h := HashFrom(str, hash, deg); Same(h, hash + deg * Digits37(str)) && -1050737 < h < 1050737
    decreases |str|
  {
    if str == [] {
      assert hash == hash + deg * 0 + 1050737 * 0;
    } else {
      var c, r := str[0], str[1..];
      var h1, d1 := Rem(hash + c * deg, 1050737), Rem(deg * 37, 1050737);
      RemIs(hash + c * deg);
      RemIs(deg * 37);
      HashFromIs(r, h1, d1);
      HashStep(HashFrom(str, hash, deg), hash, deg, c, h1, d1, Digits37(r));
    }
  }

  lemma {:induction false} HashNotNegative(str: seq<int>, hash: int, deg: int)
    requires hash >= 0 && deg >= 0 && forall i :: 0 <= i < |str| ==> str[i] >= 0
    ensures HashFrom(str, hash, deg) >= 0
    decreases |str|
  {
    if str != [] {
      assert str[0] * deg >= 0;
      RemIs(hash + str[0] * deg);
      RemIs(deg * 37);
      HashNotNegative(str[1..], Rem(hash + str[0] * deg, 1050737), Rem(deg * 37, 1050737));
    }
  }

  lemma HashStep(h: int, hash: int, deg: int, c: int, h1: int, d1: int, d: int)
    requires Same(h1, hash + c * deg) && Same(d1, deg * 37) && Same(h, h1 + d1 * d)
    ensures Same(h, hash + deg * (c + 37 * d))
  {
    var a: int :| h1 == hash + c * deg + 1050737 * a;
    var b: int :| d1 == deg * 37 + 1050737 * b;
    var q: int :| h == h1 + d1 * d + 1050737 * q;
    assert d1 * d == deg * 37 * d + 1050737 * (b * d);
    assert deg * (c + 37 * d) == c * deg + deg * 37 * d;
    assert h == hash + deg * (c + 37 * d) + 1050737 * (a + b * d + q);
  }

  /** hashString of a key without characters above 127 is 37 times its number to the base 37, modulo 1050737; whatever
      the characters, it leaves the same remainder. */
  lemma HashIs(str: seq<int>)
    ensures Same(Hash(str), 37 * Digits37(str)) && -1050737 < Hash(str) < 1050737
    ensures (forall i :: 0 <= i < |str| ==> str[i] >= 0) ==> Hash(str) == 37 * Digits37(str) % 1050737
  {
    HashFromIs(str, 0, 37);
    var n := 37 * Digits37(str);
    assert 0 + n == n;
    if forall i :: 0 <= i < |str| ==> str[i] >= 0 {
      HashNotNegative(str, 0, 37);
      SameRemainder(Hash(str), n);
    }
  }

  lemma SameRemainder(h: int, n: int)
    requires Same(h, n) && 0 <= h < 1050737
    ensures h == n % 1050737
  {
    var q: int :| h == n + 1050737 * q;
    assert n == h + 1050737 * -q;
  }

  /** get_hash_for_current_key */
  function CurrentHash(k: Table, task: nat): int
    requires Shape(k) && task < NR_TASKS
  {
    if k.slot[task] == -1 then (if k.globalKey != [] then Hash(k.globalKey) else -1) else Hash(k.key[k.slot[task]])
  }

  /** The key encryWithInode uses; [] when it returns -EKEYNOTFOUND. */
  function EncryKey(k: Table, task: nat): seq<int>
    requires Shape(k) && task < NR_TASKS
  {
    if k.slot[task] != -1 then k.key[k.slot[task]] else k.globalKey
  }

  /** The key decryWithInode uses for a file marked with `hash`; [] when it returns -EKEYNOTFOUND. */
  function DecryKey(k: Table, task: nat, hash: int): seq<int>
    requires Shape(k) && task < NR_TASKS
  {
    if Hash(k.globalKey) == hash then k.globalKey
    else if k.slot[task] != -1 && Hash(k.key[k.slot[task]]) == hash then k.key[k.slot[task]]
    else []
  }

  /** The global key is not the task's own but has the same hash. */
  predicate Shadowed(k: Table, task: nat)
    requires Shape(k) && task < NR_TASKS
  {
    k.slot[task] != -1 && k.globalKey != k.key[k.slot[task]] && Hash(k.globalKey) == Hash(k.key[k.slot[task]])
  }

  /** Decryption picks the key of the encryption if and only if the global key does not shadow the task's own. */
  lemma DecryPicksEncryKey(k: Table, task: nat, now: int)
    requires Inv(k, now) && task < NR_TASKS
    ensures DecryKey(k, task, CurrentHash(k, task)) == EncryKey(k, task) <==> !Shadowed(k, task)
  {
  }

  const OWN: seq<int> := [90, 65] // "ZA"
  const SHADOW: seq<int> := [53, 66] // "5B"

  lemma SameHash()
    ensures Hash(OWN) == Hash(SHADOW)
  {
    assert OWN[1..] == [65] && SHADOW[1..] == [66] && |OWN[1..][1..]| == |SHADOW[1..][1..]| == 0;
    assert HashFrom(OWN, 0, 37) == HashFrom(OWN[1..], 3330, 1369) == HashFrom([], 92315, Rem(1369 * 37, 1050737));
    assert HashFrom(SHADOW, 0, 37) == HashFrom(SHADOW[1..], 1961, 1369) == HashFrom([], 92315, Rem(1369 * 37, 1050737));
  }

  /** A task sets its own key and then some task a global one: from now on files that the first task encrypts are
      decrypted with the global key. */
  lemma KeyIsShadowed() returns (k: Table)
    ensures var events := [(SetKey(1, 0, OWN), 0), (SetKey(0, 0, SHADOW), 0)];
      Runs(Start(), events, 0) && k == Run(Start(), events, 0) && Inv(k, 0)
    ensures Shadowed(k, 0) && EncryKey(k, 0) == OWN && DecryKey(k, 0, CurrentHash(k, 0)) == SHADOW
  {
    var s := Start();
    StartIsOk();
    AcceptedDivides(2);
    SameHash();
    var e, f := SetKey(1, 0, OWN), SetKey(0, 0, SHADOW);
    var events := [(e, 0), (f, 0)];
    assert s.free[SLOTS - 1] && Room(s, 1, 0);
    var s1 := Step(s, e, 0);
    StepKeeps(s, e, 0, 0);
    StepKeeps(s1, f, 0, 0);
    k := Step(s1, f, 0);
    var rest := events[1..];
    assert rest == [(f, 0)];
    assert Run(s, events, 0) == Run(s1, rest, 0) == k;
  }

  /** And that does not bring them back. */
  lemma ShadowedBlockIsLost(x: seq<byte>)
    requires |x| == BLOCK && x[0] != x[1]
    ensures CryptFiles.Divides(OWN) && CryptFiles.Divides(SHADOW)
    ensures CryptFiles.Crypt(CryptFiles.Crypt(x, OWN, true), SHADOW, false)[0] == x[1]
  {
    Cipher.OrderSorts(OWN);
    Cipher.OrderSorts(SHADOW);
    var p, q := Cipher.Order(OWN), Cipher.Order(SHADOW);
    assert OWN[p[0]] <= OWN[p[1]] && p[0] != p[1] && SHADOW[q[0]] <= SHADOW[q[1]] && q[0] != q[1];
    assert p[0] == 1 && q[0] == 0;
    assert Cipher.Source(OWN, 512, 0) == Cipher.Cell(0, p[0], 2) == 1;
    assert Cipher.Target(SHADOW, 512, 0) == Cipher.Cell(Cipher.Find(q, 0), 0, 512) == 0;
  }

  /** Every key that is held fills whole rows of a block. */
  ghost predicate KeysDivide(v: Live) {
    (v.global.Held? ==> Accepted(|v.global.key|)) && forall i :: 0 <= i < |v.tasks| && v.tasks[i].Held? ==>
      Accepted(|v.tasks[i].key|)
  }

  lemma KeysStayAccepted(v: Live, e: Event, now: int)
    requires |v.tasks| == NR_TASKS && Fits(e) && KeysDivide(v)
    ensures KeysDivide(Plain(v, e, now))
  {
  }

  lemma {:induction false} OnlyAcceptedKeys(v: Live, events: seq<(Event, int)>)
    requires |v.tasks| == NR_TASKS && (forall i :: 0 <= i < |events| ==> Fits(events[i].0)) && KeysDivide(v)
    ensures KeysDivide(PlainRun(v, events))
    decreases |events|
  {
    if events != [] {
      KeysStayAccepted(v, events[0].0, events[0].1);
      OnlyAcceptedKeys(Plain(v, events[0].0, events[0].1), events[1..]);
    }
  }

  lemma AcceptedFits(key: seq<int>)
    ensures Accepted(|key|) ==> CryptFiles.Divides(key)
  {
    AcceptedDivides(|key|);
    var n := |key|;
    if n > 0 { assert BLOCK == BLOCK / n * n + BLOCK % n; }
  }

  /** A file encrypted by a task and then decrypted by it, with the table as it was, comes back byte for byte; so does
      everything else on the disk. */
  lemma EncryptedFileComesBack(k: Table, task: nat, now: int, s: Fs, n: nat, block: int)
    requires Inv(k, now) && KeysDivide(View(k)) && task < NR_TASKS && EncryKey(k, task) != []
    requires !Shadowed(k, task)
    requires Zones.Inv(s) && n < |s.inodes| && block / BLOCK < MAX_BLOCKS
    ensures var key := EncryKey(k, task); var key' := DecryKey(k, task, CurrentHash(k, task));
      && CryptFiles.Divides(key) && CryptFiles.Divides(key')
      && CryptFiles.CryptFile(CryptFiles.CryptFile(s, n, block, key, true), n, block, key', false) == s
  {
    var key := EncryKey(k, task);
    DecryPicksEncryKey(k, task, now);
    assert Mapped(k, task) ==> View(k).tasks[task].Held?;
    AcceptedFits(key);
    CryptFiles.FileRestored(s, n, block, key, true);
  }
}
