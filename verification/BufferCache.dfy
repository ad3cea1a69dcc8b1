/** getblk of fs/buffer.c when nothing makes it sleep: what it does to the buffers, and that it is one of the runs of
  the step machine in CacheSteps. */
module BufferCache {
  import opened Bytes
  import opened CacheSteps
  import opened Common
  import opened BufferLists

  /** The place on the free list, from `k` on, of the first buffer nobody uses. */
  function Victim(bufs: seq<Buf>, ring: seq<nat>, k: nat): (r: nat)
    requires k <= |ring| && forall j :: 0 <= j < |ring| ==> ring[j] < |bufs|
    ensures k <= r <= |ring| && (r < |ring| ==> bufs[ring[r]].count == 0)
    ensures forall j :: k <= j < r ==> bufs[ring[j]].count != 0
    decreases |ring| - k
  {
    if k == |ring| || bufs[ring[k]].count == 0 then k else Victim(bufs, ring, k + 1)
  }

  /** sync_dev, from buffer `i` on. */
  function Synced(s: Sys, dev: nat, i: nat): (t: Sys)
    requires i <= |s.bufs|
    ensures |t.bufs| == |s.bufs| && t.procs == s.procs
    ensures forall j :: 0 <= j < |s.bufs| ==> t.bufs[j].count == s.bufs[j].count
    decreases |s.bufs| - i
  {
    if i == |s.bufs| then s
    else Synced(if s.bufs[i].key.dev == dev then Written(s, i) else s, dev, i + 1)
  }

  function Counted1(f: Buf): Buf { f.(count := f.count + 1) }

  /** Buffer `v`, taken off the queues and, if dirty, written out with all of its device. */
  function Taken(s: Sys, v: nat): (t: Sys)
    requires v < |s.bufs|
    ensures |t.bufs| == |s.bufs| && t.procs == s.procs && t.bufs[v].count == 1
  {
    var s1 := Put(s, v, s.bufs[v].(count := 1, queued := false));
    if s.bufs[v].dirty then Synced(s1, s1.bufs[v].key.dev, 0) else s1
  }

  /** What Finish leaves of its buffer: `ok` when no other one has the block. */
  function Assigned(f: Buf, key: Key, ok: bool): Buf {
    if ok then f.(key := key, queued := true, dirty := false, uptodate := false)
    else f.(key := NO_KEY, count := 0, queued := true, dirty := false, uptodate := false)
  }

  datatype Got = Got(s: Sys, ring: seq<nat>, b: int)

  /** getblk; -1 when no buffer is to be had and it would go to sleep. */
  function GetBlk(s: Sys, ring: seq<nat>, key: Key): (g: Got)
    requires forall j :: 0 <= j < |ring| ==> ring[j] < |s.bufs|
    ensures |g.s.bufs| == |s.bufs| && forall j :: 0 <= j < |g.ring| ==> g.ring[j] < |s.bufs|
    ensures -1 <= g.b < |s.bufs| && g.s.procs == s.procs && (g.b >= 0 ==> g.s.bufs[g.b].count > 0)
  {
    var f := FindBuffer(s.bufs, key);
    if f >= 0 then Got(Put(s, f, Counted1(s.bufs[f])), ring, f)
    else
      var k := Victim(s.bufs, ring, 0);
      if k == |ring| then Got(s, ring, -1)
      else
        var v := ring[k];
        var t := Taken(s, v);
        Got(Put(t, v, t.bufs[v].(key := key, queued := true, dirty := false, uptodate := false)),
          Without(ring, k) + [v], v)
  }

  /** The rest of bread: the buffers, and the buffer returned or -1. */
  function BRead(g: Got, readable: bool): (r: (Sys, int))
    requires -1 <= g.b < |g.s.bufs| && (g.b >= 0 ==> g.s.bufs[g.b].count > 0)
  {
    if g.b < 0 || g.s.bufs[g.b].uptodate then (g.s, g.b) else
    var f := g.s.bufs[g.b];
    if readable then (Put(g.s, g.b, f.(data := OnDisk(g.s.disk, f.key), uptodate := true, dirty := false)), g.b)
    else (Put(g.s, g.b, f.(count := f.count - 1)), -1)
  }

  // ---------------------------------------------------------------------------------------------------------
  // What one call does

  /** Buffer `j` has to be written out with its device. */
  predicate Unwritten(s: Sys, dev: nat, j: nat) {
    j < |s.bufs| && s.bufs[j].dirty && s.bufs[j].key.dev == dev
  }

  /** No block has two such buffers. */
  ghost predicate Apart(s: Sys, dev: nat) {
    forall a: nat, b: nat {:trigger Unwritten(s, dev, a), Unwritten(s, dev, b)} ::
      a < b && Unwritten(s, dev, a) && Unwritten(s, dev, b) ==> s.bufs[a].key != s.bufs[b].key
  }

  /** The dirty buffers of one device, from buffer `i` on, have been written to the disk and are clean; the others, and
      the rest of the disk, are as they were. */
  ghost predicate WrittenOut(s: Sys, t: Sys, dev: nat, i: nat) {
    && |t.bufs| == |s.bufs| && t.procs == s.procs
    && (forall j: nat {:trigger t.bufs[j]} :: j < |s.bufs| ==>
      t.bufs[j] == if i <= j && Unwritten(s, dev, j) then s.bufs[j].(dirty := false, uptodate := true) else s.bufs[j])
    && (forall j: nat {:trigger Unwritten(s, dev, j)} :: i <= j && Unwritten(s, dev, j) ==>
      s.bufs[j].key in t.disk && t.disk[s.bufs[j].key] == s.bufs[j].data)
    && (forall k {:trigger k in t.disk} :: (forall j: nat :: i <= j && Unwritten(s, dev, j) ==> s.bufs[j].key != k) ==>
      (k in t.disk <==> k in s.disk) && (k in s.disk ==> t.disk[k] == s.disk[k]))
  }

  /** sync_dev writes out exactly the dirty buffers of its device. */
  lemma {:induction false} SyncedMeans(s: Sys, dev: nat, i: nat) returns (t: Sys)
    requires i <= |s.bufs| && Apart(s, dev)
    ensures t == Synced(s, dev, i) && WrittenOut(s, t, dev, i)
    decreases |s.bufs| - i
  {
    if i == |s.bufs| {
      t := s;
      NoneWritten(s, dev);
    } else {
      var s1 := WrittenApart(s, dev, i);
      t := SyncedMeans(s1, dev, i + 1);
      OneWritten(s, s1, t, dev, i);
    }
  }

  lemma NoneWritten(s: Sys, dev: nat)
    ensures WrittenOut(s, s, dev, |s.bufs|)
  {
  }

  /** Buffer `i` need no longer be written out, and the others are as they were in this. */
  ghost predicate OneLess(s: Sys, s1: Sys, dev: nat, i: nat) {
    forall j: nat {:trigger Unwritten(s1, dev, j)} {:trigger Unwritten(s, dev, j)} ::
      Unwritten(s1, dev, j) <==> Unwritten(s, dev, j) && j != i
  }

  lemma WrittenApart(s: Sys, dev: nat, i: nat) returns (s1: Sys)
    requires i < |s.bufs| && Apart(s, dev)
    ensures s1 == (if s.bufs[i].key.dev == dev then Written(s, i) else s) && Apart(s1, dev)
    ensures |s1.bufs| == |s.bufs| && Synced(s, dev, i) == Synced(s1, dev, i + 1)
    ensures OneLess(s, s1, dev, i)
  {
    s1 := if s.bufs[i].key.dev == dev then Written(s, i) else s;
    forall j: nat ensures Unwritten(s1, dev, j) <==> Unwritten(s, dev, j) && j != i {
      if j < |s.bufs| && j != i { assert s1.bufs[j] == s.bufs[j]; }
    }
  }

  lemma OneWritten(s: Sys, s1: Sys, t: Sys, dev: nat, i: nat)
    requires i < |s.bufs| && Apart(s, dev) && s1 == if s.bufs[i].key.dev == dev then Written(s, i) else s
    requires OneLess(s, s1, dev, i)
    requires WrittenOut(s1, t, dev, i + 1)
    ensures WrittenOut(s, t, dev, i)
  {
    forall j: nat {:trigger Unwritten(s, dev, j)} | i <= j && Unwritten(s, dev, j)
      ensures s.bufs[j].key in t.disk && t.disk[s.bufs[j].key] == s.bufs[j].data
    {
      if j == i {
        assert s.bufs[i].key in s1.disk && s1.disk[s.bufs[i].key] == s.bufs[i].data;
        forall l: nat | i + 1 <= l && Unwritten(s1, dev, l) ensures s1.bufs[l].key != s.bufs[i].key {
          assert Unwritten(s, dev, l);
        }
      } else {
        assert Unwritten(s1, dev, j);
      }
    }
    forall k {:trigger k in t.disk} | forall j: nat :: i <= j && Unwritten(s, dev, j) ==> s.bufs[j].key != k
      ensures (k in t.disk <==> k in s.disk) && (k in s.disk ==> t.disk[k] == s.disk[k])
    {
      assert Unwritten(s, dev, i) ==> s.bufs[i].key != k;
      forall j: nat | i + 1 <= j && Unwritten(s1, dev, j) ensures s1.bufs[j].key != k { assert Unwritten(s, dev, j); }
    }
  }

  /** A buffer on the queues has the block. */
  predicate Has(s: Sys, b: nat, key: Key) { b < |s.bufs| && s.bufs[b].queued && s.bufs[b].key == key }

  /** getblk with the block in buffer `f`: one user more, and nothing else. */
  lemma GetBlkHits(s: Sys, ring: seq<nat>, key: Key, f: nat)
    requires OneBuffer(s) && key.dev != 0 && Has(s, f, key) && forall j :: 0 <= j < |ring| ==> ring[j] < |s.bufs|
    ensures GetBlk(s, ring, key) == Got(s.(bufs := s.bufs[f := s.bufs[f].(count := s.bufs[f].count + 1)]), ring, f)
  {
    assert FindBuffer(s.bufs, key) == f;
  }

  /** getblk with the block in none, and none unused: it would sleep, and has done nothing. */
  lemma GetBlkStarves(s: Sys, ring: seq<nat>, key: Key)
    requires (forall b: nat :: !Has(s, b, key)) && forall j :: 0 <= j < |ring| ==> ring[j] < |s.bufs|
    requires forall j :: 0 <= j < |ring| ==> s.bufs[ring[j]].count != 0
    ensures GetBlk(s, ring, key) == Got(s, ring, -1)
  {
    var f := FindBuffer(s.bufs, key);
    if f >= 0 { assert Has(s, f, key); }
  }

  /** Buffer `v` has been given to the block `key`, clean and out of date, with one user. If it was dirty, all of its
      device that was dirty has been written out first; nothing else has changed. */
  ghost predicate Reassigned(s: Sys, t: Sys, v: nat, key: Key)
    requires v < |s.bufs|
  {
    && |t.bufs| == |s.bufs| && t.procs == s.procs && t.bufs[v] == Buf(key, 1, true, false, false, s.bufs[v].data)
    && (forall j: nat {:trigger t.bufs[j]} :: j < |s.bufs| && j != v ==>
      t.bufs[j] == if s.bufs[v].dirty && Unwritten(s, s.bufs[v].key.dev, j)
        then s.bufs[j].(dirty := false, uptodate := true) else s.bufs[j])
    && (!s.bufs[v].dirty ==> t.disk == s.disk)
    && (s.bufs[v].dirty ==> forall j: nat {:trigger Unwritten(s, s.bufs[v].key.dev, j)} ::
      Unwritten(s, s.bufs[v].key.dev, j) ==> s.bufs[j].key in t.disk && t.disk[s.bufs[j].key] == s.bufs[j].data)
    && (forall k {:trigger k in t.disk} ::
      (forall j: nat :: Unwritten(s, s.bufs[v].key.dev, j) ==> s.bufs[j].key != k) ==>
        (k in t.disk <==> k in s.disk) && (k in s.disk ==> t.disk[k] == s.disk[k]))
  }

  /** getblk with the block in none: it takes the first unused buffer of the free list, which goes to its end. */
  lemma GetBlkMisses(s: Sys, ring: seq<nat>, key: Key, k: nat)
    requires (forall b: nat :: !Has(s, b, key)) && forall j :: 0 <= j < |ring| ==> ring[j] < |s.bufs|
    requires k < |ring| && s.bufs[ring[k]].count == 0 && forall j :: 0 <= j < k ==> s.bufs[ring[j]].count != 0
    requires Apart(s, s.bufs[ring[k]].key.dev)
    ensures var g := GetBlk(s, ring, key);
      && g.b == ring[k] && g.ring == ring[..k] + ring[k + 1..] + [ring[k]] && Reassigned(s, g.s, ring[k], key)
  {
    var f, v := FindBuffer(s.bufs, key), ring[k];
    if f >= 0 { assert Has(s, f, key); }
    assert Victim(s.bufs, ring, 0) == k;
    var s1 := Put(s, v, s.bufs[v].(count := 1, queued := false));
    var dev := s.bufs[v].key.dev;
    assert forall j: nat {:trigger Unwritten(s1, dev, j)} :: Unwritten(s1, dev, j) <==> Unwritten(s, dev, j);
    var t := SyncedMeans(s1, dev, 0);
    TakenMeans(s, s1, Taken(s, v), v, key);
  }

  lemma TakenMeans(s: Sys, s1: Sys, t: Sys, v: nat, key: Key)
    requires v < |s.bufs| && s1 == Put(s, v, s.bufs[v].(count := 1, queued := false))
    requires forall j: nat {:trigger Unwritten(s1, s.bufs[v].key.dev, j)} ::
      Unwritten(s1, s.bufs[v].key.dev, j) <==> Unwritten(s, s.bufs[v].key.dev, j)
    requires if s.bufs[v].dirty then WrittenOut(s1, t, s.bufs[v].key.dev, 0) else t == s1
    ensures |t.bufs| == |s.bufs|
    ensures Reassigned(s, Put(t, v, t.bufs[v].(key := key, queued := true, dirty := false, uptodate := false)), v, key)
  {
    var dev := s.bufs[v].key.dev;
    if s.bufs[v].dirty {
      forall j: nat {:trigger Unwritten(s, dev, j)} | Unwritten(s, dev, j)
        ensures s.bufs[j].key in t.disk && t.disk[s.bufs[j].key] == s.bufs[j].data { assert Unwritten(s1, dev, j); }
      forall k {:trigger k in t.disk} | forall j: nat :: Unwritten(s, dev, j) ==> s.bufs[j].key != k
        ensures (k in t.disk <==> k in s.disk) && (k in s.disk ==> t.disk[k] == s.disk[k])
      {
        forall j: nat | Unwritten(s1, dev, j) ensures s1.bufs[j].key != k { assert Unwritten(s, dev, j); }
      }
    }
  }

  /** What bread adds: a block that is out of date is read into the buffer, or, if it cannot be read, the buffer is let
      go of again. */
  lemma BReadMeans(g: Got, readable: bool)
    requires 0 <= g.b < |g.s.bufs| && g.s.bufs[g.b].count > 0
    ensures var f, r := g.s.bufs[g.b], BRead(g, readable);
      && (f.uptodate ==> r == (g.s, g.b))
      && (!f.uptodate && readable ==> r.1 == g.b && r.0 == g.s.(bufs := g.s.bufs[g.b :=
        Buf(f.key, f.count, f.queued, true, false, if f.key in g.s.disk then g.s.disk[f.key] else [])]))
      && (!f.uptodate && !readable ==> r.1 == -1 && r.0 == g.s.(bufs := g.s.bufs[g.b := f.(count := f.count - 1)]))
  {
  }

  // ---------------------------------------------------------------------------------------------------------
  // It is a run of the step machine

  predicate QuietEvent(e: Event) { e.Act? && !Exposed(e.a) && !e.a.Store? }

  ghost predicate Reach(s: Sys, t: Sys) {
    exists events :: Runs(s, events) && Run(s, events) == t && forall i :: 0 <= i < |events| ==> QuietEvent(events[i])
  }

  lemma ReachSelf(s: Sys)
    ensures Reach(s, s)
  {
    assert Runs(s, []) && Run(s, []) == s;
  }

  lemma ReachMore(s: Sys, t: Sys, e: Event)
    requires Reach(s, t) && Possible(t, e) && QuietEvent(e)
    ensures Reach(s, Step(t, e))
  {
    var events :| Runs(s, events) && Run(s, events) == t && forall i :: 0 <= i < |events| ==> QuietEvent(events[i]);
    OneMore(s, events, map[], e);
    var longer := events + [e];
    assert Runs(s, longer) && Run(s, longer) == Step(t, e) && forall i :: 0 <= i < |longer| ==> QuietEvent(longer[i]);
  }

  /** A quiet run keeps the invariants and stores nothing. */
  lemma {:induction false} QuietRun(s: Sys, events: seq<Event>, mem: map<Key, seq<byte>>)
    requires Inv(s) && Coherent(s, mem) && Runs(s, events) && forall i :: 0 <= i < |events| ==> QuietEvent(events[i])
    ensures Inv(Run(s, events)) && Coherent(Run(s, events), mem)
    decreases |events|
  {
    if events != [] {
      assert QuietEvent(events[0]);
      StepKeeps(s, events[0]);
      StepCoherent(s, events[0], mem);
      QuietRun(Step(s, events[0]), events[1..], mem);
    }
  }

  lemma {:induction false} SyncIsRun(s0: Sys, s: Sys, p: nat, key: Key, v: nat, i: nat)
    requires p < |s.procs| && v < |s.bufs| && i <= |s.bufs|
    requires Reach(s0, Set(s, p, Syncing(key, v, i)))
    ensures Reach(s0, Set(Synced(s, s.bufs[v].key.dev, i), p, Syncing(key, v, |s.bufs|)))
    decreases |s.bufs| - i
  {
    if i < |s.bufs| {
      var t := Set(s, p, Syncing(key, v, i));
      var dev := s.bufs[v].key.dev;
      var s1 := if s.bufs[i].key.dev == dev then Written(s, i) else s;
      ReachMore(s0, t, Act(p, SyncNext));
      assert Step(t, Act(p, SyncNext)) == Set(s1, p, Syncing(key, v, i + 1));
      SyncIsRun(s0, s1, p, key, v, i + 1);
    }
  }

  /** Writing out changes neither keys nor places. */
  lemma {:induction false} SyncedKeys(s: Sys, dev: nat, i: nat)
    requires i <= |s.bufs|
    ensures var t := Synced(s, dev, i);
      forall j :: 0 <= j < |s.bufs| ==>
        && t.bufs[j].key == s.bufs[j].key && t.bufs[j].queued == s.bufs[j].queued
        && t.bufs[j].count == s.bufs[j].count && t.bufs[j].data == s.bufs[j].data
    decreases |s.bufs| - i
  {
    if i < |s.bufs| {
      SyncedKeys(if s.bufs[i].key.dev == dev then Written(s, i) else s, dev, i + 1);
    }
  }

  lemma TakenKeys(s: Sys, v: nat)
    requires v < |s.bufs|
    ensures var t := Taken(s, v);
      && !t.bufs[v].queued && t.bufs[v].count == 1 && t.bufs[v].data == s.bufs[v].data
      && forall j :: 0 <= j < |s.bufs| ==> t.bufs[j].key == s.bufs[j].key && (t.bufs[j].queued ==> s.bufs[j].queued)
  {
    var s1 := Put(s, v, s.bufs[v].(count := 1, queued := false));
    SyncedKeys(s1, s1.bufs[v].key.dev, 0);
  }

  lemma TakenIsRun(s: Sys, p: nat, key: Key, v: nat)
    requires p < |s.procs| && v < |s.bufs| && s.bufs[v].count == 0
    ensures Reach(Set(s, p, Scanning(key, v)), Set(Taken(s, v), p, Syncing(key, v, |s.bufs|)))
  {
    var s0 := Set(s, p, Scanning(key, v));
    ReachSelf(s0);
    ReachMore(s0, s0, Act(p, Grab(-1)));
    var s1 := Put(s, v, s.bufs[v].(count := 1, queued := false));
    if s.bufs[v].dirty {
      assert Step(s0, Act(p, Grab(-1))) == Set(s1, p, Syncing(key, v, 0));
      SyncIsRun(s0, s1, p, key, v, 0);
    } else {
      assert Step(s0, Act(p, Grab(-1))) == Set(s1, p, Syncing(key, v, |s.bufs|));
    }
  }

  lemma ReachTrans(s: Sys, t: Sys, u: Sys)
    requires Reach(s, t) && Reach(t, u)
    ensures Reach(s, u)
  {
    var events :| Runs(t, events) && Run(t, events) == u && forall i :: 0 <= i < |events| ==> QuietEvent(events[i]);
    Follow(s, t, events);
  }

  lemma {:induction false} Follow(s: Sys, t: Sys, events: seq<Event>)
    requires Reach(s, t) && Runs(t, events) && forall i :: 0 <= i < |events| ==> QuietEvent(events[i])
    ensures Reach(s, Run(t, events))
    decreases |events|
  {
    if events != [] {
      assert QuietEvent(events[0]);
      ReachMore(s, t, events[0]);
      Follow(s, Step(t, events[0]), events[1..]);
    }
  }

  lemma HitIsARun(s: Sys, p: nat, key: Key)
    requires p < |s.procs| && s.procs[p] == Start(key) && FindBuffer(s.bufs, key) >= 0
    ensures var f := FindBuffer(s.bufs, key); Reach(s, Set(Put(s, f, Counted1(s.bufs[f])), p, Holding(key, f)))
  {
    var f := FindBuffer(s.bufs, key);
    ReachSelf(s);
    ReachMore(s, s, Act(p, Find(-1)));
    var s2 := Set(Put(s, f, Counted1(s.bufs[f])), p, Waiting(key, f));
    assert Step(s, Act(p, Find(-1))) == s2;
    ReachMore(s, s2, Act(p, Recheck));
    assert Step(s2, Act(p, Recheck)) == Set(Put(s, f, Counted1(s.bufs[f])), p, Holding(key, f));
  }

  lemma FinishIsStep(s: Sys, p: nat, key: Key, v: nat)
    requires p < |s.procs| && v < |s.bufs| && s.procs[p] == Syncing(key, v, |s.bufs|)
    ensures Possible(s, Act(p, Finish))
    ensures var ok := FindBuffer(s.bufs, key) == -1;
      Step(s, Act(p, Finish)) ==
        Set(Put(s, v, Assigned(s.bufs[v], key, ok)), p, if ok then Holding(key, v) else Start(key))
  {
  }

  lemma MissIsARun(s: Sys, p: nat, key: Key, v: nat)
    requires p < |s.procs| && s.procs[p] == Start(key) && FindBuffer(s.bufs, key) == -1
    requires v < |s.bufs| && s.bufs[v].count == 0
    ensures var t := Taken(s, v);
      Reach(s, Set(Put(t, v, t.bufs[v].(key := key, queued := true, dirty := false, uptodate := false)), p,
        Holding(key, v)))
  {
    ReachSelf(s);
    ReachMore(s, s, Act(p, Find(v)));
    assert Step(s, Act(p, Find(v))) == Set(s, p, Scanning(key, v));
    TakenIsRun(s, p, key, v);
    var t := Taken(s, v);
    var s3 := Set(t, p, Syncing(key, v, |s.bufs|));
    ReachTrans(s, Set(s, p, Scanning(key, v)), s3);
    TakenKeys(s, v);
    assert FindBuffer(t.bufs, key) == -1;
    FinishIsStep(s3, p, key, v);
    ReachMore(s, s3, Act(p, Finish));
  }

  /** The buffers do not depend on where the processes are. */
  lemma {:induction false} SyncedOf(s: Sys, p: nat, c: Process, dev: nat, i: nat)
    requires p < |s.procs| && i <= |s.bufs|
    ensures Synced(Set(s, p, c), dev, i) == Set(Synced(s, dev, i), p, c)
    decreases |s.bufs| - i
  {
    if i < |s.bufs| {
      var s1 := if s.bufs[i].key.dev == dev then Written(s, i) else s;
      SyncedOf(s1, p, c, dev, i + 1);
    }
  }

  lemma TakenOf(s: Sys, p: nat, c: Process, v: nat)
    requires p < |s.procs| && v < |s.bufs|
    ensures Taken(Set(s, p, c), v) == Set(Taken(s, v), p, c)
  {
    var s1 := Put(s, v, s.bufs[v].(count := 1, queued := false));
    SyncedOf(s1, p, c, s1.bufs[v].key.dev, 0);
  }

  /** What getblk does when it need not sleep is what an idle process of the step machine can do, ending with the buffer
      in its hands. */
  lemma GetBlkIsARun(s: Sys, ring: seq<nat>, p: nat, key: Key)
    requires p < |s.procs| && s.procs[p] == Idle && key.dev != 0
    requires forall j :: 0 <= j < |ring| ==> ring[j] < |s.bufs|
    requires GetBlk(s, ring, key).b >= 0
    ensures var g := GetBlk(s, ring, key); Reach(s, Set(g.s, p, Holding(key, g.b)))
  {
    ReachSelf(s);
    ReachMore(s, s, Act(p, Call(key)));
    var s1 := Set(s, p, Start(key));
    if FindBuffer(s.bufs, key) >= 0 {
      HitIsARun(s1, p, key);
      var f := FindBuffer(s.bufs, key);
      ReachTrans(s, s1, Set(Put(s1, f, Counted1(s.bufs[f])), p, Holding(key, f)));
      assert Set(Put(s1, f, Counted1(s.bufs[f])), p, Holding(key, f))
        == Set(Put(s, f, Counted1(s.bufs[f])), p, Holding(key, f));
    } else {
      var v := ring[Victim(s.bufs, ring, 0)];
      MissIsARun(s1, p, key, v);
      TakenOf(s, p, Start(key), v);
      var t := Taken(s, v);
      var f := t.bufs[v].(key := key, queued := true, dirty := false, uptodate := false);
      ReachTrans(s, s1, Set(Put(Set(t, p, Start(key)), v, f), p, Holding(key, v)));
      assert Set(Put(Set(t, p, Start(key)), v, f), p, Holding(key, v)) == Set(Put(t, v, f), p, Holding(key, v));
    }
  }

  // ---------------------------------------------------------------------------------------------------------
  // Transparency when calls run one at a time

  /** One whole call of getblk, or one use of a buffer that is held. */
  datatype Op = Get(p: nat, key: Key) | Use(p: nat, a: Action)

  datatype Cache = Cache(s: Sys, ring: seq<nat>)

  ghost predicate Ready(c: Cache, op: Op) {
    && (forall j :: 0 <= j < |c.ring| ==> c.ring[j] < |c.s.bufs|)
    && match op
       case Get(p, key) => p < |c.s.procs| && c.s.procs[p] == Idle && key.dev != 0 && GetBlk(c.s, c.ring, key).b >= 0
       case Use(p, a) => (Exposed(a) || a.Store? || a.Release? || a.Drop?) && Possible(c.s, Act(p, a))
  }

  ghost function Apply(c: Cache, op: Op): (d: Cache)
    requires Ready(c, op)
  {
    match op
    case Get(p, key) =>
      var g := GetBlk(c.s, c.ring, key);
      Cache(Set(g.s, p, Holding(key, g.b)), g.ring)
    case Use(p, a) => Cache(Step(c.s, Act(p, a)), c.ring)
  }

  function StoredBy(mem: map<Key, seq<byte>>, c: Cache, op: Op): map<Key, seq<byte>> {
    if op.Get? || op.p >= |c.s.procs| || !c.s.procs[op.p].Holding? then mem
    else if op.a.Store? || op.a.Fill? then mem[c.s.procs[op.p].key := op.a.data]
    else if op.a.Discard? then mem[c.s.procs[op.p].key := OnDisk(c.s.disk, c.s.procs[op.p].key)]
    else mem
  }

  /** No process is inside sync_dev. */
  ghost predicate Settled(s: Sys) {
    forall p :: 0 <= p < |s.procs| ==> !s.procs[p].Syncing?
  }

  lemma ApplyKeeps(c: Cache, op: Op, mem: map<Key, seq<byte>>)
    requires Inv(c.s) && Coherent(c.s, mem) && Settled(c.s) && Ready(c, op)
    ensures var d := Apply(c, op); Inv(d.s) && Coherent(d.s, StoredBy(mem, c, op)) && Settled(d.s)
  {
    match op
    case Get(p, key) =>
      GetBlkIsARun(c.s, c.ring, p, key);
      var t := Apply(c, op).s;
      var events :| Runs(c.s, events) && Run(c.s, events) == t && forall i :: 0 <= i < |events| ==>
        QuietEvent(events[i]);
      QuietRun(c.s, events, mem);
    case Use(p, a) =>
      StepKeeps(c.s, Act(p, a));
      SettledIsCalm(c.s, Act(p, a));
      StepCoherent(c.s, Act(p, a), mem);
  }

  lemma SettledIsCalm(s: Sys, e: Event)
    requires Inv(s) && Settled(s) && Possible(s, e)
    ensures Calm(s, e)
  {
    forall b | 0 <= b < |s.bufs| ensures s.bufs[b].queued {
      assert !s.bufs[b].queued ==> Owned(s, b);
    }
  }

  ghost predicate Works(c: Cache, ops: seq<Op>)
    decreases |ops|
  {
    ops == [] || (Ready(c, ops[0]) && Works(Apply(c, ops[0]), ops[1..]))
  }

  ghost function ApplyAll(c: Cache, ops: seq<Op>): Cache
    requires Works(c, ops)
    decreases |ops|
  {
    if ops == [] then c else ApplyAll(Apply(c, ops[0]), ops[1..])
  }

  ghost function StoredByAll(mem: map<Key, seq<byte>>, c: Cache, ops: seq<Op>): map<Key, seq<byte>>
    requires Works(c, ops)
    decreases |ops|
  {
    if ops == [] then mem else StoredByAll(StoredBy(mem, c, ops[0]), Apply(c, ops[0]), ops[1..])
  }

  /** As long as calls of getblk run through without sleeping, whatever blocks are evicted in between, a process that
      holds an up-to-date buffer has in it what was stored last in its block, or what the disk had if nothing was. */
  lemma {:induction false} TransparentWithoutSleeping(c: Cache, ops: seq<Op>, mem: map<Key, seq<byte>>)
    requires Inv(c.s) && Coherent(c.s, mem) && Settled(c.s) && Works(c, ops)
    ensures var d := ApplyAll(c, ops);
      && Inv(d.s) && Coherent(d.s, StoredByAll(mem, c, ops))
      && forall p :: 0 <= p < |d.s.procs| && d.s.procs[p].Holding? ==>
        d.s.procs[p].b < |d.s.bufs| &&
        (d.s.bufs[d.s.procs[p].b].uptodate ==>
          d.s.bufs[d.s.procs[p].b].data == OnDisk(StoredByAll(mem, c, ops), d.s.procs[p].key))
    decreases |ops|
  {
    if ops == [] {
      CacheIsTransparent(c.s, [], mem);
    } else {
      ApplyKeeps(c, ops[0], mem);
      TransparentWithoutSleeping(Apply(c, ops[0]), ops[1..], StoredBy(mem, c, ops[0]));
    }
  }

  // ---------------------------------------------------------------------------------------------------------
  // What one call keeps, whoever has the buffers

  /** Between calls that do not sleep every buffer is on the queues, and no block is in two. */
  ghost predicate Whole(s: Sys) {
    OneBuffer(s) && forall b {:trigger s.bufs[b].queued} :: 0 <= b < |s.bufs| ==> s.bufs[b].queued
  }

  lemma {:induction false} SyncedCoherent(s: Sys, dev: nat, i: nat, mem: map<Key, seq<byte>>)
    requires i <= |s.bufs| && Coherent(s, mem)
    ensures Coherent(Synced(s, dev, i), mem)
    decreases |s.bufs| - i
  {
    if i < |s.bufs| {
      WrittenCoherent(s, i, mem);
      SyncedCoherent(if s.bufs[i].key.dev == dev then Written(s, i) else s, dev, i + 1, mem);
    }
  }

  /** sync_dev leaves no buffer of the device dirty. */
  lemma {:induction false} SyncedClean(s: Sys, dev: nat, i: nat, b: nat)
    requires i <= |s.bufs| && b < |s.bufs| && s.bufs[b].key.dev == dev && (b < i ==> !s.bufs[b].dirty)
    ensures !Synced(s, dev, i).bufs[b].dirty
    decreases |s.bufs| - i
  {
    if i < |s.bufs| { SyncedClean(if s.bufs[i].key.dev == dev then Written(s, i) else s, dev, i + 1, b); }
  }

  /** A buffer taken off the queues takes nothing with it. */
  lemma TakenCoherent(s: Sys, v: nat, mem: map<Key, seq<byte>>)
    requires v < |s.bufs| && Coherent(s, mem)
    ensures Coherent(Taken(s, v), mem) && !Taken(s, v).bufs[v].dirty
  {
    var s1 := Put(s, v, s.bufs[v].(count := 1, queued := false));
    LessCoherent(s, s1, mem);
    if s.bufs[v].dirty {
      SyncedCoherent(s1, s1.bufs[v].key.dev, 0, mem);
      SyncedClean(s1, s1.bufs[v].key.dev, 0, v);
    }
  }

  lemma GetBlkWhole(s: Sys, ring: seq<nat>, key: Key)
    requires Whole(s) && forall j :: 0 <= j < |ring| ==> ring[j] < |s.bufs|
    ensures var g := GetBlk(s, ring, key); Whole(g.s) && (g.b >= 0 ==> g.s.bufs[g.b].key == key)
  {
    if FindBuffer(s.bufs, key) < 0 && Victim(s.bufs, ring, 0) < |ring| {
      var v := ring[Victim(s.bufs, ring, 0)];
      var t := Taken(s, v);
      TakenQueues(s, v);
      var g := GetBlk(s, ring, key);
      assert g.s == Put(t, v, t.bufs[v].(key := key, queued := true, dirty := false, uptodate := false));
    }
  }

  lemma TakenQueues(s: Sys, v: nat)
    requires v < |s.bufs|
    ensures var t := Taken(s, v);
      forall j :: 0 <= j < |s.bufs| && j != v ==> t.bufs[j].key == s.bufs[j].key && t.bufs[j].queued == s.bufs[j].queued
  {
    var s1 := Put(s, v, s.bufs[v].(count := 1, queued := false));
    SyncedKeys(s1, s1.bufs[v].key.dev, 0);
  }

  /** getblk loses nothing that has been stored. */
  lemma GetBlkCoherent(s: Sys, ring: seq<nat>, key: Key, mem: map<Key, seq<byte>>)
    requires Coherent(s, mem) && forall j :: 0 <= j < |ring| ==> ring[j] < |s.bufs|
    ensures Coherent(GetBlk(s, ring, key).s, mem)
  {
    var f, k := FindBuffer(s.bufs, key), Victim(s.bufs, ring, 0);
    if f >= 0 {
      LessCoherent(s, Put(s, f, Counted1(s.bufs[f])), mem);
    } else if k < |ring| {
      var v := ring[k];
      TakenCoherent(s, v, mem);
      TakenKeys(s, v);
      var t := Taken(s, v);
      LessCoherent(t, Put(t, v, t.bufs[v].(key := key, queued := true, dirty := false, uptodate := false)), mem);
    }
  }

  /** The buffers are coherent, and the one returned has what was stored last in the block. */
  ghost predicate Reads(r: (Sys, int), key: Key, mem: map<Key, seq<byte>>) {
    Coherent(r.0, mem) && (r.1 >= 0 ==> r.1 < |r.0.bufs| && r.0.bufs[r.1].data == OnDisk(mem, key))
  }

  lemma ReadsKey(s: Sys, ring: seq<nat>, key: Key, readable: bool)
    requires Whole(s) && forall j :: 0 <= j < |ring| ==> ring[j] < |s.bufs|
    ensures var (t, b) := BRead(GetBlk(s, ring, key), readable);
      b >= 0 ==> b < |t.bufs| && t.bufs[b].key == key && t.bufs[b].uptodate
  {
    GetBlkWhole(s, ring, key);
  }

  /** bread returns an up-to-date buffer of the block, with what has been stored last in it, or what the disk had. */
  lemma BReadReturns(s: Sys, ring: seq<nat>, key: Key, readable: bool, mem: map<Key, seq<byte>>)
    requires Whole(s) && Coherent(s, mem) && key.dev != 0 && forall j :: 0 <= j < |ring| ==> ring[j] < |s.bufs|
    ensures Reads(BRead(GetBlk(s, ring, key), readable), key, mem)
  {
    var g := GetBlk(s, ring, key);
    GetBlkWhole(s, ring, key);
    GetBlkCoherent(s, ring, key, mem);
    if g.b >= 0 { BReadRest(g, key, readable, mem); }
  }

  lemma BReadRest(g: Got, key: Key, readable: bool, mem: map<Key, seq<byte>>)
    requires Whole(g.s) && Coherent(g.s, mem) && key.dev != 0 && 0 <= g.b < |g.s.bufs| && g.s.bufs[g.b].key == key
    requires g.s.bufs[g.b].count > 0
    ensures Reads(BRead(g, readable), key, mem)
  {
    var s, f := g.s, g.s.bufs[g.b];
    assert f.queued;
    if f.uptodate {
      assert Current(f);
    } else if readable {
      forall a | 0 <= a < |s.bufs| && s.bufs[a].dirty ensures s.bufs[a].key != key { assert Current(s.bufs[a]); }
      ContentsCoherent(s, BRead(g, readable).0, g.b, mem, mem);
    } else {
      LessCoherent(s, BRead(g, readable).0, mem);
    }
  }

  /** A store into an up-to-date buffer, with its dirty mark. */
  lemma StoreCoherent(s: Sys, b: nat, data: seq<byte>, mem: map<Key, seq<byte>>)
    requires Whole(s) && Coherent(s, mem) && b < |s.bufs| && s.bufs[b].uptodate && s.bufs[b].key.dev != 0
    ensures Coherent(Put(s, b, s.bufs[b].(data := data, dirty := true)), mem[s.bufs[b].key := data])
  {
    assert s.bufs[b].queued && Current(s.bufs[b]);
    ContentsCoherent(s, Put(s, b, s.bufs[b].(data := data, dirty := true)), b, mem, mem[s.bufs[b].key := data]);
  }
}
