/** Runs of the buffer cache from the boot: when it is transparent, and two in which it is not. */
module CacheRuns {
  import opened Bytes
  import opened CacheSteps

  /** From the boot on, as long as no block is read, filled or discarded in flight, an up-to-date buffer holds what was
      stored last in its block, or what the disk had at the start. */
  lemma TransparentFromBoot(buffers: nat, processes: nat, disk: map<Key, seq<byte>>, events: seq<Event>)
    requires Runs(Boot(buffers, processes, disk), events) && AllCalm(Boot(buffers, processes, disk), events)
    ensures var s := Boot(buffers, processes, disk); var t := Run(s, events);
      forall p :: 0 <= p < |t.procs| && t.procs[p].Holding? ==>
        && t.procs[p].b < |t.bufs|
        && var f := t.bufs[t.procs[p].b];
        f.uptodate ==> f.data == OnDisk(StoredRun(disk, s, events), t.procs[p].key)
  {
    BootIsOk(buffers, processes, disk);
    BootIsCoherent(buffers, processes, disk);
    CacheIsTransparent(Boot(buffers, processes, disk), events, disk);
  }

  /** While a process is inside sync_dev no other one goes on. A kernel process that holds several buffers is several
      processes here; alone in the kernel, they are such a run. */
  ghost predicate OneAtATime(s: Sys, events: seq<Event>)
    requires Runs(s, events)
    decreases |events|
  {
    events == [] || (Unmixed(s, events[0]) && OneAtATime(Step(s, events[0]), events[1..]))
  }

  ghost predicate Unmixed(s: Sys, e: Event) {
    e.Act? ==> forall q :: 0 <= q < |s.procs| && s.procs[q].Syncing? ==> q == e.p
  }

  lemma UnmixedIsCalm(s: Sys, e: Event)
    requires Inv(s) && Possible(s, e) && Unmixed(s, e)
    ensures Calm(s, e)
  {
    if e.Act? && Exposed(e.a) {
      forall b | 0 <= b < |s.bufs| ensures s.bufs[b].queued { assert !s.bufs[b].queued ==> Owned(s, b); }
    }
  }

  /** Such a run never meets a block in flight, so for it the cache is transparent without condition. */
  lemma {:induction false} AloneIsCalm(s: Sys, events: seq<Event>)
    requires Inv(s) && Runs(s, events) && OneAtATime(s, events)
    ensures AllCalm(s, events)
    decreases |events|
  {
    if events != [] {
      StepKeeps(s, events[0]);
      UnmixedIsCalm(s, events[0]);
      AloneIsCalm(Step(s, events[0]), events[1..]);
    }
  }

  // ---------------------------------------------------------------------------------------------------------
  // Steps of a run

  /** A run from `s` of the given end, and what has been stored by then. */
  ghost predicate Leads(s: Sys, mem: map<Key, seq<byte>>, t: Sys, now: map<Key, seq<byte>>) {
    exists events :: Runs(s, events) && Run(s, events) == t && StoredRun(mem, s, events) == now
  }

  lemma Longer(s: Sys, mem: map<Key, seq<byte>>, t: Sys, now: map<Key, seq<byte>>, e: Event)
    requires Leads(s, mem, t, now) && Possible(t, e)
    ensures Leads(s, mem, Step(t, e), Stored(now, t, e))
  {
    var events :| Runs(s, events) && Run(s, events) == t && StoredRun(mem, s, events) == now;
    OneMore(s, events, mem, e);
    assert Runs(s, events + [e]);
  }

  /** Process `p` can have the clean unused buffer `b` for a block that is in no buffer. */
  predicate CanTake(t: Sys, p: nat, b: nat, key: Key) {
    && p < |t.procs| && t.procs[p].Idle? && key.dev != 0 && b < |t.bufs|
    && t.bufs[b].count == 0 && t.bufs[b].queued && !t.bufs[b].dirty && FindBuffer(t.bufs, key) == -1
  }

  function TakenFor(t: Sys, p: nat, b: nat, key: Key): Sys
    requires CanTake(t, p, b, key)
  {
    Set(Put(t, b, Buf(key, 1, true, false, false, t.bufs[b].data)), p, Holding(key, b))
  }

  /** getblk, by process `p`, when its scan comes to buffer `b`. */
  lemma Take(s: Sys, m: map<Key, seq<byte>>, t: Sys, n: map<Key, seq<byte>>, p: nat, b: nat, key: Key)
    requires Leads(s, m, t, n) && CanTake(t, p, b, key)
    ensures Leads(s, m, TakenFor(t, p, b, key), n)
  {
    Longer(s, m, t, n, Act(p, Call(key)));
    var t1 := Set(t, p, Start(key));
    Longer(s, m, t1, n, Act(p, Find(b)));
    var t2 := Set(t, p, Scanning(key, b));
    assert Step(t1, Act(p, Find(b))) == t2;
    Longer(s, m, t2, n, Act(p, Grab(-1)));
    var t3 := Set(Put(t, b, t.bufs[b].(count := 1, queued := false)), p, Syncing(key, b, |t.bufs|));
    assert Step(t2, Act(p, Grab(-1))) == t3;
    assert FindBuffer(t3.bufs, key) == -1;
    Longer(s, m, t3, n, Act(p, Finish));
    assert Step(t3, Act(p, Finish)) == TakenFor(t, p, b, key);
  }

  /** brelse */
  lemma LetGo(s: Sys, m: map<Key, seq<byte>>, t: Sys, n: map<Key, seq<byte>>, p: nat, b: nat)
    requires Leads(s, m, t, n) && p < |t.procs| && t.procs[p].Holding? && t.procs[p].b == b < |t.bufs|
    requires t.bufs[b].count > 0
    ensures Leads(s, m, Set(Put(t, b, t.bufs[b].(count := t.bufs[b].count - 1)), p, Idle), n)
  {
    var key := t.procs[p].key;
    Longer(s, m, t, n, Act(p, Release));
    var t1 := Set(t, p, Releasing(key, b));
    Longer(s, m, t1, n, Act(p, CacheSteps.Drop));
    assert Step(t1, Act(p, CacheSteps.Drop)) == Set(Put(t, b, t.bufs[b].(count := t.bufs[b].count - 1)), p, Idle);
  }

  /** bread and brelse */
  lemma Visit(s: Sys, m: map<Key, seq<byte>>, t: Sys, n: map<Key, seq<byte>>, p: nat, b: nat, key: Key)
    requires Leads(s, m, t, n) && CanTake(t, p, b, key)
    ensures Leads(s, m, Put(t, b, Buf(key, 0, true, true, false, OnDisk(t.disk, key))), n)
  {
    Take(s, m, t, n, p, b, key);
    var t1 := TakenFor(t, p, b, key);
    Longer(s, m, t1, n, Act(p, ReadIn));
    var t2 := Step(t1, Act(p, ReadIn));
    LetGo(s, m, t2, n, p, b);
    assert Set(Put(t2, b, t2.bufs[b].(count := 0)), p, Idle)
      == Put(t, b, Buf(key, 0, true, true, false, OnDisk(t.disk, key)));
  }

  /** bread, a store, and brelse */
  lemma Write(s: Sys, m: map<Key, seq<byte>>, t: Sys, n: map<Key, seq<byte>>, p: nat, b: nat, key: Key, data: seq<byte>)
    requires Leads(s, m, t, n) && CanTake(t, p, b, key)
    ensures Leads(s, m, Put(t, b, Buf(key, 0, true, true, true, data)), n[key := data])
  {
    Take(s, m, t, n, p, b, key);
    var t1 := TakenFor(t, p, b, key);
    Longer(s, m, t1, n, Act(p, ReadIn));
    var t2 := Step(t1, Act(p, ReadIn));
    Longer(s, m, t2, n, Act(p, CacheSteps.Store(data)));
    var t3 := Step(t2, Act(p, CacheSteps.Store(data)));
    LetGo(s, m, t3, n[key := data], p, b);
    assert Set(Put(t3, b, t3.bufs[b].(count := 0)), p, Idle) == Put(t, b, Buf(key, 0, true, true, true, data));
  }

  // ---------------------------------------------------------------------------------------------------------
  // Two runs from the boot that break the condition

  const FIRST: Key := Key(1, 7)
  const WANTED: Key := Key(1, 5)
  const OTHER: Key := Key(1, 6)
  const THIRD: Key := Key(1, 8)
  const FOURTH: Key := Key(1, 9)
  const OLD: seq<byte> := [7]
  const NEW: seq<byte> := [9]

  const HELD: Buf := Buf(WANTED, 1, false, true, true, OLD)
  const BEFORE: Sys := Sys(
    [Buf(FIRST, 0, true, true, true, OLD), Buf(WANTED, 0, true, true, true, OLD), Buf(THIRD, 0, true, true, false, [])],
    [Idle, Idle], map[])
  const AMIDST: Sys := Sys(
    [Buf(FIRST, 0, true, true, false, OLD), HELD, Buf(THIRD, 0, true, true, false, [])],
    [Syncing(OTHER, 1, 1), Idle], map[FIRST := OLD])

  function Written2(): map<Key, seq<byte>> { map[WANTED := OLD, FIRST := OLD] }

  /** Process 0 fills three buffers. The free list then runs from buffer 1, dirty with block 5, over 2 to 0, dirty with
      block 7 of the same device. */
  lemma FillUp()
    ensures Leads(Boot(3, 2, map[]), map[], BEFORE, Written2())
  {
    var s: Sys, m: map<Key, seq<byte>> := Boot(3, 2, map[]), map[];
    assert Runs(s, []) && Run(s, []) == s && StoredRun(m, s, []) == m;
    Visit(s, m, s, m, 0, 0, FOURTH);
    var t1 := Put(s, 0, Buf(FOURTH, 0, true, true, false, []));
    Write(s, m, t1, m, 0, 1, WANTED, OLD);
    var t2 := Put(t1, 1, Buf(WANTED, 0, true, true, true, OLD));
    var n := m[WANTED := OLD];
    Visit(s, m, t2, n, 0, 2, THIRD);
    var t3 := Put(t2, 2, Buf(THIRD, 0, true, true, false, []));
    Write(s, m, t3, n, 0, 0, FIRST, OLD);
    assert Put(t3, 0, Buf(FIRST, 0, true, true, true, OLD)) == BEFORE;
    assert n[FIRST := OLD] == Written2();
  }

  /** Process 0 takes buffer 1 for block 6. Its sync_dev has the write of buffer 0 under way, and sleeps before it can
      queue that of buffer 1. */
  lemma Evict(s: Sys, m: map<Key, seq<byte>>, n: map<Key, seq<byte>>)
    requires Leads(s, m, BEFORE, n)
    ensures Leads(s, m, AMIDST, n)
  {
    Longer(s, m, BEFORE, n, Act(0, Call(OTHER)));
    var t1 := Set(BEFORE, 0, Start(OTHER));
    Longer(s, m, t1, n, Act(0, Find(1)));
    var t2 := Set(BEFORE, 0, Scanning(OTHER, 1));
    assert Step(t1, Act(0, Find(1))) == t2;
    Longer(s, m, t2, n, Act(0, Grab(-1)));
    var t3 := Set(Put(BEFORE, 1, HELD), 0, Syncing(OTHER, 1, 0));
    assert Step(t2, Act(0, Grab(-1))) == t3;
    Longer(s, m, t3, n, Act(0, SyncNext));
    assert Step(t3, Act(0, SyncNext)) == AMIDST;
  }

  /** Without the condition on reads the cache is not transparent: process 1 asks for block 5 while process 0 has its
      dirty buffer off the queues, does not find it, takes another buffer and reads the block as it was before the
      write. */
  lemma StaleReadWithoutTheCondition() returns (t: Sys)
    ensures Leads(Boot(3, 2, map[]), map[], t, Written2())
    ensures t.procs == [Syncing(OTHER, 1, 1), Holding(WANTED, 2)] && |t.bufs| == 3
    ensures t.bufs[2].uptodate && t.bufs[2].key == WANTED && t.bufs[2].data != OnDisk(Written2(), WANTED)
  {
    var s: Sys, m: map<Key, seq<byte>>, n := Boot(3, 2, map[]), map[], Written2();
    FillUp();
    Evict(s, m, n);
    assert FindBuffer(AMIDST.bufs, WANTED) == -1;
    Take(s, m, AMIDST, n, 1, 2, WANTED);
    var t1 := TakenFor(AMIDST, 1, 2, WANTED);
    Longer(s, m, t1, n, Act(1, ReadIn));
    t := Step(t1, Act(1, ReadIn));
  }

  const WRITTEN_ON: Sys := Sys(
    [Buf(FIRST, 0, true, true, false, OLD), HELD, Buf(WANTED, 0, true, true, false, NEW)],
    [Syncing(OTHER, 1, 1), Idle], map[FIRST := OLD, WANTED := NEW])
  const OVERWRITTEN: Sys := Sys(
    [Buf(FIRST, 0, true, true, false, OLD), Buf(OTHER, 1, true, false, false, OLD),
      Buf(WANTED, 0, true, true, false, NEW)],
    [Holding(OTHER, 1), Idle], map[FIRST := OLD, WANTED := OLD])

  /** In that state block 5 is freed and handed out again; process 1 fills it, and the new contents go to the disk. */
  lemma FillAgain(s: Sys, m: map<Key, seq<byte>>, n: map<Key, seq<byte>>)
    requires Leads(s, m, AMIDST, n)
    ensures Leads(s, m, WRITTEN_ON, n[WANTED := NEW])
  {
    assert FindBuffer(AMIDST.bufs, WANTED) == -1;
    Take(s, m, AMIDST, n, 1, 2, WANTED);
    var t1 := TakenFor(AMIDST, 1, 2, WANTED);
    Longer(s, m, t1, n, Act(1, Fill(NEW)));
    var t2 := Put(t1, 2, Buf(WANTED, 1, true, true, true, NEW));
    assert Step(t1, Act(1, Fill(NEW))) == t2;
    Longer(s, m, t2, n[WANTED := NEW], WriteBack(2));
    var t3 := Step(t2, WriteBack(2));
    LetGo(s, m, t3, n[WANTED := NEW], 1, 2);
    assert Set(Put(t3, 2, t3.bufs[2].(count := 0)), 1, Idle) == WRITTEN_ON;
  }

  /** Process 0 goes on, writes its old contents of block 5 over them, and has its buffer for block 6. */
  lemma WriteLate(s: Sys, m: map<Key, seq<byte>>, n: map<Key, seq<byte>>)
    requires Leads(s, m, WRITTEN_ON, n)
    ensures Leads(s, m, OVERWRITTEN, n)
  {
    Longer(s, m, WRITTEN_ON, n, Act(0, SyncNext));
    var t1 := Step(WRITTEN_ON, Act(0, SyncNext));
    Longer(s, m, t1, n, Act(0, SyncNext));
    var t2 := Step(t1, Act(0, SyncNext));
    assert t2.bufs == t1.bufs && t2.procs[0] == Syncing(OTHER, 1, 3);
    assert FindBuffer(t2.bufs, OTHER) == -1;
    Longer(s, m, t2, n, Act(0, Finish));
    assert Step(t2, Act(0, Finish)) == OVERWRITTEN;
  }

  /** Nor without the condition on fills: the new contents of block 5 are lost once their buffer is used for another
      block, and the next read finds the old ones. */
  lemma LostFillWithoutTheCondition() returns (t: Sys)
    ensures Leads(Boot(3, 2, map[]), map[], t, Written2()[WANTED := NEW])
    ensures t.procs == [Holding(OTHER, 1), Holding(WANTED, 0)] && |t.bufs| == 3
    ensures t.bufs[0].uptodate && t.bufs[0].key == WANTED && t.bufs[0].data == OLD != NEW
  {
    var s: Sys, m: map<Key, seq<byte>>, n := Boot(3, 2, map[]), map[], Written2()[WANTED := NEW];
    FillUp();
    Evict(s, m, Written2());
    FillAgain(s, m, Written2());
    WriteLate(s, m, n);
    Visit(s, m, OVERWRITTEN, n, 1, 0, THIRD);
    var t1 := Put(OVERWRITTEN, 0, Buf(THIRD, 0, true, true, false, []));
    Visit(s, m, t1, n, 1, 2, FOURTH);
    var t2 := Put(t1, 2, Buf(FOURTH, 0, true, true, false, []));
    Take(s, m, t2, n, 1, 0, WANTED);
    var t3 := TakenFor(t2, 1, 0, WANTED);
    Longer(s, m, t3, n, Act(1, ReadIn));
    t := Step(t3, Act(1, ReadIn));
  }
}
