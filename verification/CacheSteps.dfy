/** The buffer cache of fs/buffer.c with many processes in it: getblk, get_hash_table, brelse and bread cut at every
  place where they may sleep. Between two such places a process runs alone. */
module CacheSteps {
  import opened Bytes

  /** A device and a block number; device 0 is none. */
  datatype Key = Key(dev: nat, block: nat)

  const NO_KEY: Key := Key(0, 0)

  /** `queued` is whether the buffer is on the free list, and on its hash chain if it has a device. */
  datatype Buf = Buf(key: Key, count: nat, queued: bool, uptodate: bool, dirty: bool, data: seq<byte>)

  /** Where a process is: at the top of getblk, asleep on a buffer it found by its hash, giving back one that turned out
      wrong, asleep on a free one, asleep until some buffer is released, inside sync_dev at buffer `i` with a buffer it
      has taken off the queues, holding a buffer, or asleep inside brelse. */
  datatype Process =
    | Idle
    | Start(key: Key)
    | Waiting(key: Key, b: nat)
    | Rejecting(key: Key, b: nat)
    | Scanning(key: Key, b: nat)
    | Starved(key: Key)
    | Syncing(key: Key, b: nat, i: nat)
    | Holding(key: Key, b: nat)
    | Releasing(key: Key, b: nat)

  datatype Sys = Sys(bufs: seq<Buf>, procs: seq<Process>, disk: map<Key, seq<byte>>)

  /** What a process does between two sleeps. Fill is new_block's use of a buffer, Discard that of free_block, which
      also stops at a Miss, where get_hash_table finds nothing. `next` is the buffer a scan of the free list comes to,
      -1 for none. */
  datatype Action =
    | Call(key: Key)
    | Find(next: int)
    | Recheck
    | Reject
    | Grab(next: int)
    | SyncNext
    | Finish
    | Retry
    | ReadIn
    | Store(data: seq<byte>)
    | Fill(data: seq<byte>)
    | Discard
    | Miss
    | Release
    | Drop

  /** A step of process `p`, or a sys_sync writing buffer `i`. */
  datatype Event = Act(p: nat, a: Action) | WriteBack(i: nat)

  function OnDisk(disk: map<Key, seq<byte>>, key: Key): seq<byte> {
    if key in disk then disk[key] else []
  }

  /** find_buffer: the queued buffer of a block, or -1. */
  function FindFrom(bufs: seq<Buf>, key: Key, i: nat): (r: int)
    requires i <= |bufs|
    ensures r == -1 || (i <= r < |bufs| && bufs[r].queued && bufs[r].key == key)
    ensures r == -1 ==> forall j :: i <= j < |bufs| ==> !(bufs[j].queued && bufs[j].key == key)
    decreases |bufs| - i
  {
    if i == |bufs| then -1 else if bufs[i].queued && bufs[i].key == key then i else FindFrom(bufs, key, i + 1)
  }

  function FindBuffer(bufs: seq<Buf>, key: Key): int { FindFrom(bufs, key, 0) }

  /** Whether the process has the buffer counted. */
  predicate Refers(c: Process, b: nat) {
    (c.Waiting? || c.Rejecting? || c.Syncing? || c.Holding? || c.Releasing?) && c.b == b
  }

  predicate Able(s: Sys, c: Process, a: Action) {
    match a
    case Call(key) => c.Idle? && key.dev != 0
    case Find(next) => c.Start? && Lands(s, next)
    case Recheck => c.Waiting? && c.b < |s.bufs|
    case Reject => c.Rejecting? && c.b < |s.bufs| && s.bufs[c.b].count > 0
    case Grab(next) => c.Scanning? && c.b < |s.bufs| && Lands(s, next)
    case SyncNext => c.Syncing? && c.b < |s.bufs| && c.i < |s.bufs|
    case Finish => c.Syncing? && c.b < |s.bufs| && c.i == |s.bufs|
    case Retry => c.Starved?
    case ReadIn => c.Holding? && c.b < |s.bufs| && !s.bufs[c.b].uptodate
    case Store(_) => c.Holding? && c.b < |s.bufs| && s.bufs[c.b].uptodate
    case Fill(_) => c.Holding? && c.b < |s.bufs| && s.bufs[c.b].count == 1
    case Discard => c.Holding? && c.b < |s.bufs| && s.bufs[c.b].count == 1
    case Miss => c.Start? && FindBuffer(s.bufs, c.key) == -1
    case Release => c.Holding?
    case Drop => c.Releasing? && c.b < |s.bufs| && s.bufs[c.b].count > 0
  }

  predicate Possible(s: Sys, e: Event) {
    match e
    case Act(p, a) => p < |s.procs| && Able(s, s.procs[p], a)
    case WriteBack(i) => i < |s.bufs|
  }

  /** A scan of the free list stops at a buffer nobody uses, or at none. */
  predicate Lands(s: Sys, next: int) {
    next == -1 || (0 <= next < |s.bufs| && s.bufs[next].count == 0)
  }

  function Set(s: Sys, p: nat, c: Process): Sys
    requires p < |s.procs|
  {
    s.(procs := s.procs[p := c])
  }

  function Put(s: Sys, b: nat, f: Buf): Sys
    requires b < |s.bufs|
  {
    s.(bufs := s.bufs[b := f])
  }

  function ScanOn(s: Sys, p: nat, key: Key, next: int): Sys
    requires p < |s.procs| && Lands(s, next)
  {
    Set(s, p, if next == -1 then Starved(key) else Scanning(key, next))
  }

  /** ll_rw_block(WRITE, ..) and the wait for it. */
  function Written(s: Sys, i: nat): Sys
    requires i < |s.bufs|
  {
    var f := s.bufs[i];
    if f.dirty then Put(s, i, f.(dirty := false, uptodate := true)).(disk := s.disk[f.key := f.data]) else s
  }

  /** One action of process `p`, which is at `c`. */
  function Acted(s: Sys, p: nat, c: Process, a: Action): Sys
    requires p < |s.procs| && Able(s, c, a)
  {
    match a
    case Call(key) => Set(s, p, Start(key))
    case Find(next) =>
      var b := FindBuffer(s.bufs, c.key);
      if b >= 0 then Set(Put(s, b, s.bufs[b].(count := s.bufs[b].count + 1)), p, Waiting(c.key, b))
        else ScanOn(s, p, c.key, next)
    case Recheck => Set(s, p, if s.bufs[c.b].key == c.key then Holding(c.key, c.b) else Rejecting(c.key, c.b))
    case Reject => Set(Put(s, c.b, s.bufs[c.b].(count := s.bufs[c.b].count - 1)), p, Start(c.key))
    case Grab(next) =>
      var f := s.bufs[c.b];
      if f.count != 0 then ScanOn(s, p, c.key, next)
      else Set(Put(s, c.b, f.(count := 1, queued := false)), p, Syncing(c.key, c.b, if f.dirty then 0 else |s.bufs|))
    case SyncNext =>
      var s1 := if s.bufs[c.i].key.dev == s.bufs[c.b].key.dev then Written(s, c.i) else s;
      Set(s1, p, Syncing(c.key, c.b, c.i + 1))
    case Finish =>
      var f := s.bufs[c.b];
      if FindBuffer(s.bufs, c.key) >= 0
      then Set(Put(s, c.b, f.(key := NO_KEY, count := 0, queued := true, dirty := false, uptodate := false)), p,
        Start(c.key))
      else Set(Put(s, c.b, f.(key := c.key, queued := true, dirty := false, uptodate := false)), p, Holding(c.key, c.b))
    case Retry => Set(s, p, Start(c.key))
    case ReadIn => Put(s, c.b, s.bufs[c.b].(data := OnDisk(s.disk, s.bufs[c.b].key), uptodate := true, dirty := false))
    case Store(data) => Put(s, c.b, s.bufs[c.b].(data := data, dirty := true))
    case Fill(data) => Put(s, c.b, s.bufs[c.b].(data := data, uptodate := true, dirty := true))
    case Discard => Put(s, c.b, s.bufs[c.b].(dirty := false, uptodate := false))
    case Miss => Set(s, p, Idle)
    case Release => Set(s, p, Releasing(c.key, c.b))
    case Drop => Set(Put(s, c.b, s.bufs[c.b].(count := s.bufs[c.b].count - 1)), p, Idle)
  }

  function Step(s: Sys, e: Event): Sys
    requires Possible(s, e)
  {
    match e
    case Act(p, a) => Acted(s, p, s.procs[p], a)
    case WriteBack(i) => Written(s, i)
  }

  // ---------------------------------------------------------------------------------------------------------
  // One buffer a block, and no buffer reassigned while it is held

  function One(c: Process, b: nat): nat { if Refers(c, b) then 1 else 0 }

  /** How many processes have the buffer counted. */
  function Refs(procs: seq<Process>, b: nat): nat {
    if procs == [] then 0 else One(procs[0], b) + Refs(procs[1..], b)
  }

  lemma {:induction false} RefsSet(procs: seq<Process>, p: nat, c: Process, b: nat)
    requires p < |procs|
    ensures Refs(procs[p := c], b) == Refs(procs, b) + One(c, b) - One(procs[p], b)
  {
    var q := procs[p := c];
    if p == 0 {
      assert q[1..] == procs[1..];
    } else {
      assert q[1..] == procs[1..][p - 1 := c];
      RefsSet(procs[1..], p - 1, c, b);
    }
  }

  lemma {:induction false} RefsSome(procs: seq<Process>, p: nat, b: nat)
    requires p < |procs| && Refers(procs[p], b)
    ensures Refs(procs, b) > 0
    ensures forall q :: 0 <= q < |procs| && q != p && Refers(procs[q], b) ==> Refs(procs, b) > 1
  {
    RefsSet(procs, p, Idle, b);
    forall q | 0 <= q < |procs| && q != p && Refers(procs[q], b) ensures Refs(procs, b) > 1 {
      RefsSet(procs[p := Idle], q, Idle, b);
    }
  }

  /** A buffer's count is the number of processes that refer to it. */
  ghost predicate Counted(s: Sys) {
    forall b {:trigger s.bufs[b]} :: 0 <= b < |s.bufs| ==> s.bufs[b].count == Refs(s.procs, b)
  }

  /** No two queued buffers carry the same block. */
  ghost predicate OneBuffer(s: Sys) {
    forall a, b :: 0 <= a < b < |s.bufs| && s.bufs[a].queued && s.bufs[b].queued && s.bufs[a].key.dev != 0
      ==> s.bufs[a].key != s.bufs[b].key
  }

  /** What holds of a process: a buffer it refers to is there, queued and still the one it asked for, unless it took the
      buffer off the queues itself. */
  ghost predicate Sound(s: Sys, c: Process) {
    match c
    case Idle => true
    case Start(key) => key.dev != 0
    case Waiting(key, b) => key.dev != 0 && b < |s.bufs| && s.bufs[b].queued && s.bufs[b].key == key
    case Rejecting(_, _) => false
    case Scanning(key, b) => key.dev != 0 && b < |s.bufs|
    case Starved(key) => key.dev != 0
    case Syncing(key, b, i) => key.dev != 0 && b < |s.bufs| && i <= |s.bufs| && !s.bufs[b].queued
      && s.bufs[b].count == 1 && (s.bufs[b].dirty ==> i <= b)
    case Holding(key, b) => key.dev != 0 && b < |s.bufs| && s.bufs[b].queued && s.bufs[b].key == key
    case Releasing(key, b) => key.dev != 0 && b < |s.bufs| && s.bufs[b].queued && s.bufs[b].key == key
  }

  /** A buffer off the queues belongs to a process inside sync_dev. */
  ghost predicate Owned(s: Sys, b: nat) {
    exists p :: 0 <= p < |s.procs| && s.procs[p].Syncing? && s.procs[p].b == b
  }

  ghost predicate Inv(s: Sys) {
    && Counted(s) && OneBuffer(s)
    && (forall p :: 0 <= p < |s.procs| ==> Sound(s, s.procs[p]))
    && (forall b {:trigger s.bufs[b].queued} :: 0 <= b < |s.bufs| && !s.bufs[b].queued ==> Owned(s, b))
  }

  function Boot(buffers: nat, processes: nat, disk: map<Key, seq<byte>>): Sys {
    Sys(seq(buffers, i => Buf(NO_KEY, 0, true, false, false, [])), seq(processes, p => Idle), disk)
  }

  lemma {:induction false} NoRefs(procs: seq<Process>, b: nat)
    requires forall p :: 0 <= p < |procs| ==> procs[p] == Idle
    ensures Refs(procs, b) == 0
  {
    if procs != [] { NoRefs(procs[1..], b); }
  }

  lemma BootIsOk(buffers: nat, processes: nat, disk: map<Key, seq<byte>>)
    ensures Inv(Boot(buffers, processes, disk))
  {
    var s := Boot(buffers, processes, disk);
    forall b {:trigger s.bufs[b]} | 0 <= b < |s.bufs|
      ensures s.bufs[b].count == Refs(s.procs, b) { NoRefs(s.procs, b); }
  }

  /** The one buffer whose count a process at `c` may change. */
  function Its(c: Process): nat {
    if c.Idle? || c.Start? || c.Starved? then 0 else c.b
  }

  /** A step that moves one process and changes the count of one buffer, as the process comes to refer to it or ceases
      to. */
  ghost predicate CountsMove(s: Sys, t: Sys, p: nat, b: nat)
    requires p < |s.procs|
  {
    && |t.bufs| == |s.bufs| && |t.procs| == |s.procs| && t.procs == s.procs[p := t.procs[p]]
    && (forall a {:trigger t.bufs[a]} :: 0 <= a < |s.bufs| && a != b ==> t.bufs[a].count == s.bufs[a].count)
    && (forall a: nat {:trigger Refers(t.procs[p], a)} :: a != b ==> Refers(t.procs[p], a) == Refers(s.procs[p], a))
    && (b < |s.bufs| ==> t.bufs[b].count == s.bufs[b].count + One(t.procs[p], b) - One(s.procs[p], b))
  }

  lemma CountedKept(s: Sys, t: Sys, p: nat, b: nat)
    requires Counted(s) && p < |s.procs| && CountsMove(s, t, p, b)
    ensures Counted(t)
  {
    forall a {:trigger t.bufs[a]} | 0 <= a < |t.bufs| ensures t.bufs[a].count == Refs(t.procs, a) {
      RefsSet(s.procs, p, t.procs[p], a);
    }
  }

  predicate Simple(a: Action) { !a.Find? && !a.Grab? && !a.Finish? && !a.SyncNext? }

  lemma SimpleCounted(s: Sys, p: nat, a: Action)
    requires Inv(s) && Possible(s, Act(p, a)) && Simple(a)
    ensures Counted(Acted(s, p, s.procs[p], a))
  {
    var t := Acted(s, p, s.procs[p], a);
    assert Sound(s, s.procs[p]);
    CountedKept(s, t, p, Its(s.procs[p]));
  }

  lemma FindCounted(s: Sys, p: nat, next: int)
    requires Inv(s) && Possible(s, Act(p, Find(next)))
    ensures Counted(Acted(s, p, s.procs[p], Find(next)))
  {
    var t := Acted(s, p, s.procs[p], Find(next));
    CountedKept(s, t, p, Its(t.procs[p]));
  }

  lemma GrabCounted(s: Sys, p: nat, next: int)
    requires Inv(s) && Possible(s, Act(p, Grab(next)))
    ensures Counted(Acted(s, p, s.procs[p], Grab(next)))
  {
    var t := Acted(s, p, s.procs[p], Grab(next));
    CountedKept(s, t, p, Its(s.procs[p]));
  }

  lemma SyncCounted(s: Sys, p: nat, a: Action)
    requires Inv(s) && Possible(s, Act(p, a)) && (a.Finish? || a.SyncNext?)
    ensures Counted(Acted(s, p, s.procs[p], a))
  {
    var t := Acted(s, p, s.procs[p], a);
    assert Sound(s, s.procs[p]);
    CountedKept(s, t, p, Its(s.procs[p]));
  }

  lemma StepCounted(s: Sys, e: Event)
    requires Inv(s) && Possible(s, e)
    ensures Counted(Step(s, e))
  {
    if e.Act? {
      if Simple(e.a) {
        SimpleCounted(s, e.p, e.a);
      } else if e.a.Find? {
        FindCounted(s, e.p, e.a.next);
      } else if e.a.Grab? {
        GrabCounted(s, e.p, e.a.next);
      } else {
        SyncCounted(s, e.p, e.a);
      }
    }
  }

  /** Only Finish gives a buffer a key; all other steps leave keys alone, and put nothing on the queues. */
  ghost predicate KeysKept(s: Sys, t: Sys) {
    |t.bufs| == |s.bufs| &&
    forall b {:trigger t.bufs[b]} :: 0 <= b < |s.bufs| ==>
      t.bufs[b].key == s.bufs[b].key && (t.bufs[b].queued ==> s.bufs[b].queued)
  }

  lemma StepKeys(s: Sys, e: Event)
    requires Possible(s, e) && !(e.Act? && e.a.Finish?)
    ensures KeysKept(s, Step(s, e))
  {
    match e
    case WriteBack(i) =>
    case Act(p, a) => if a.SyncNext? { assert KeysKept(s, Written(s, s.procs[p].i)); } else { ActKeys(s, p, a); }
  }

  lemma ActKeys(s: Sys, p: nat, a: Action)
    requires Possible(s, Act(p, a)) && !a.Finish? && !a.SyncNext?
    ensures KeysKept(s, Acted(s, p, s.procs[p], a))
  {
  }

  lemma FinishOneBuffer(s: Sys, p: nat)
    requires Inv(s) && Possible(s, Act(p, Finish))
    ensures OneBuffer(Acted(s, p, s.procs[p], Finish))
  {
  }

  lemma StepOneBuffer(s: Sys, e: Event)
    requires Inv(s) && Possible(s, e)
    ensures OneBuffer(Step(s, e))
  {
    if e.Act? && e.a.Finish? {
      FinishOneBuffer(s, e.p);
    } else {
      StepKeys(s, e);
    }
  }

  /** What a step leaves alone of a buffer that some other process refers to. */
  ghost predicate OtherKept(s: Sys, t: Sys, b: nat) {
    b < |s.bufs| && |t.bufs| == |s.bufs| && t.bufs[b].key == s.bufs[b].key && t.bufs[b].queued == s.bufs[b].queued
      && (!s.bufs[b].queued ==> t.bufs[b].count == s.bufs[b].count && (t.bufs[b].dirty ==> s.bufs[b].dirty))
  }

  /** A held buffer keeps its block and its place whatever another process does. */
  lemma HeldIsKept(s: Sys, e: Event, q: nat)
    requires Inv(s) && Possible(s, e) && q < |s.procs| && (e.Act? ==> e.p != q) && Refers(s.procs[q], Its(s.procs[q]))
    ensures OtherKept(s, Step(s, e), Its(s.procs[q]))
  {
    var b := Its(s.procs[q]);
    assert Sound(s, s.procs[q]);
    RefsSome(s.procs, q, b);
    assert s.bufs[b].count == Refs(s.procs, b);
    if e.Act? {
      assert Sound(s, s.procs[e.p]);
      ActKeepsOther(s, e.p, e.a, b);
    }
  }

  lemma ActKeepsOther(s: Sys, p: nat, a: Action, b: nat)
    requires Possible(s, Act(p, a)) && Sound(s, s.procs[p]) && b < |s.bufs|
    requires s.bufs[b].count > if Refers(s.procs[p], b) then 1 else 0
    ensures OtherKept(s, Acted(s, p, s.procs[p], a), b)
  {
  }

  lemma ActorSound(s: Sys, p: nat, a: Action)
    requires Inv(s) && Possible(s, Act(p, a))
    ensures var t := Acted(s, p, s.procs[p], a); |t.procs| == |s.procs| && Sound(t, t.procs[p])
  {
    assert Sound(s, s.procs[p]);
    NextSound(s, p, a);
  }

  lemma NextSound(s: Sys, p: nat, a: Action)
    requires Possible(s, Act(p, a)) && Sound(s, s.procs[p])
    ensures var t := Acted(s, p, s.procs[p], a); |t.procs| == |s.procs| && Sound(t, t.procs[p])
  {
  }

  lemma StepShape(s: Sys, e: Event)
    requires Possible(s, e)
    ensures var t := Step(s, e);
      && |t.bufs| == |s.bufs| && |t.procs| == |s.procs|
      && forall q :: 0 <= q < |s.procs| && (e.Act? ==> e.p != q) ==> t.procs[q] == s.procs[q]
  {
  }

  lemma StepSound(s: Sys, e: Event, q: nat)
    requires Inv(s) && Possible(s, e) && q < |s.procs|
    ensures |Step(s, e).procs| == |s.procs| && Sound(Step(s, e), Step(s, e).procs[q])
  {
    var c := s.procs[q];
    assert Sound(s, c);
    StepShape(s, e);
    if e.Act? && e.p == q {
      ActorSound(s, q, e.a);
    } else if Refers(c, Its(c)) {
      HeldIsKept(s, e, q);
    }
  }

  lemma StepOwned(s: Sys, e: Event, b: nat)
    requires Inv(s) && Possible(s, e) && b < |s.bufs| == |Step(s, e).bufs| && !Step(s, e).bufs[b].queued
    ensures Owned(Step(s, e), b)
  {
    if s.bufs[b].queued {
      TakenOff(s, e, b);
    } else {
      assert Owned(s, b);
      var p :| 0 <= p < |s.procs| && s.procs[p].Syncing? && s.procs[p].b == b;
      OwnerStays(s, e, b, p);
    }
  }

  lemma TakenOff(s: Sys, e: Event, b: nat)
    requires Possible(s, e) && b < |s.bufs| == |Step(s, e).bufs| && s.bufs[b].queued && !Step(s, e).bufs[b].queued
    ensures Owned(Step(s, e), b)
  {
    assert e.Act? && e.a.Grab? && s.procs[e.p].b == b;
    assert Step(s, e).procs[e.p].Syncing?;
  }

  lemma OwnerStays(s: Sys, e: Event, b: nat, p: nat)
    requires Possible(s, e) && b < |s.bufs| == |Step(s, e).bufs| && !Step(s, e).bufs[b].queued
    requires p < |s.procs| && s.procs[p].Syncing? && s.procs[p].b == b
    ensures Owned(Step(s, e), b)
  {
    var t := Step(s, e);
    StepShape(s, e);
    assert t.procs[p].Syncing? && t.procs[p].b == b;
  }

  lemma StepKeeps(s: Sys, e: Event)
    requires Inv(s) && Possible(s, e)
    ensures Inv(Step(s, e))
  {
    var t := Step(s, e);
    StepCounted(s, e);
    StepOneBuffer(s, e);
    forall q | 0 <= q < |t.procs| ensures Sound(t, t.procs[q]) { StepSound(s, e, q); }
    forall b {:trigger t.bufs[b].queued} | 0 <= b < |t.bufs| && !t.bufs[b].queued
      ensures Owned(t, b) { StepOwned(s, e, b); }
  }

  ghost predicate Runs(s: Sys, events: seq<Event>)
    decreases |events|
  {
    events == [] || (Possible(s, events[0]) && Runs(Step(s, events[0]), events[1..]))
  }

  ghost function Run(s: Sys, events: seq<Event>): Sys
    requires Runs(s, events)
    decreases |events|
  {
    if events == [] then s else Run(Step(s, events[0]), events[1..])
  }

  /** However processes are interleaved at their sleeps: no two queued buffers carry the same block; a buffer's count is
      the number of processes that have it; a process that holds a buffer, or sleeps on one it has found, finds it on
      the queues and still carrying the block it asked for; and so the second check in get_hash_table never fails. */
  lemma {:induction false} UniqueInEveryRun(s: Sys, events: seq<Event>)
    requires Inv(s) && Runs(s, events)
    ensures var t := Run(s, events);
      && Inv(t) && OneBuffer(t) && Counted(t)
      && (forall p :: 0 <= p < |t.procs| && (t.procs[p].Holding? || t.procs[p].Waiting? || t.procs[p].Releasing?) ==>
        t.procs[p].b < |t.bufs| && t.bufs[t.procs[p].b].queued && t.bufs[t.procs[p].b].key == t.procs[p].key)
      && (forall p :: 0 <= p < |t.procs| ==> !t.procs[p].Rejecting?)
    decreases |events|
  {
    if events != [] {
      StepKeeps(s, events[0]);
      UniqueInEveryRun(Step(s, events[0]), events[1..]);
    } else {
      forall p | 0 <= p < |s.procs| ensures Sound(s, s.procs[p]) { }
    }
  }

  // ---------------------------------------------------------------------------------------------------------
  // What a read returns

  /** What has last been stored in each block through the cache, after a step; a block that is discarded goes back to
      what the disk has. */
  function Stored(mem: map<Key, seq<byte>>, s: Sys, e: Event): map<Key, seq<byte>>
    requires Possible(s, e)
  {
    if e.Act? && e.a.Store? then mem[s.procs[e.p].key := e.a.data]
    else if e.Act? && e.a.Fill? then mem[s.procs[e.p].key := e.a.data]
    else if e.Act? && e.a.Discard? then mem[s.procs[e.p].key := OnDisk(s.disk, s.procs[e.p].key)]
    else mem
  }

  /** The buffer has the contents of its block: on the queues and up to date, or off them and waiting to be written. */
  predicate Current(f: Buf) {
    f.key.dev != 0 && f.uptodate && (f.queued || f.dirty)
  }

  /** Current buffers hold what was stored last, no two of them for one block, and so does the disk where no dirty
      buffer overrides it. */
  ghost predicate Coherent(s: Sys, mem: map<Key, seq<byte>>) {
    && (forall b {:trigger s.bufs[b]} :: 0 <= b < |s.bufs| && s.bufs[b].dirty ==> Current(s.bufs[b]))
    && (forall b {:trigger Current(s.bufs[b])} :: 0 <= b < |s.bufs| && Current(s.bufs[b]) ==>
      s.bufs[b].data == OnDisk(mem, s.bufs[b].key))
    && (forall a, b {:trigger Current(s.bufs[a]), Current(s.bufs[b])} ::
      0 <= a < b < |s.bufs| && Current(s.bufs[a]) && Current(s.bufs[b]) ==> s.bufs[a].key != s.bufs[b].key)
    && (forall key: Key {:trigger Dirty(s, key)} {:trigger OnDisk(s.disk, key)} :: key.dev != 0 && !Dirty(s, key) ==>
      OnDisk(s.disk, key) == OnDisk(mem, key))
  }

  ghost predicate Dirty(s: Sys, key: Key) {
    exists b :: 0 <= b < |s.bufs| && s.bufs[b].dirty && s.bufs[b].key == key
  }

  /** A dirty buffer of the block is off the queues, in the hands of a process inside sync_dev. */
  ghost predicate InFlight(s: Sys, key: Key) {
    exists b :: 0 <= b < |s.bufs| && !s.bufs[b].queued && s.bufs[b].dirty && s.bufs[b].key == key
  }

  predicate Exposed(a: Action) { a.ReadIn? || a.Fill? || a.Discard? }

  /** The step does not read, fill or discard a block that is in flight. */
  ghost predicate Calm(s: Sys, e: Event)
    requires Possible(s, e)
  {
    e.Act? && Exposed(e.a) ==> !InFlight(s, s.procs[e.p].key)
  }

  /** At the start what is stored is what the disk has. */
  lemma BootIsCoherent(buffers: nat, processes: nat, disk: map<Key, seq<byte>>)
    ensures Coherent(Boot(buffers, processes, disk), disk)
  {
  }

  /** No contents have come, and none that are not on the disk have gone. */
  ghost predicate NoMore(s: Sys, t: Sys) {
    && |t.bufs| == |s.bufs| && t.disk == s.disk
    && forall b {:trigger t.bufs[b]} {:trigger s.bufs[b]} :: 0 <= b < |s.bufs| ==> Less(s.bufs[b], t.bufs[b])
  }

  ghost predicate Less(f: Buf, g: Buf) {
    && g.dirty == f.dirty && (f.dirty && Current(f) ==> g.key == f.key && Current(g))
    && (Current(g) ==> Current(f) && g.key == f.key && g.data == f.data)
  }

  lemma LessCoherent(s: Sys, t: Sys, mem: map<Key, seq<byte>>)
    requires Coherent(s, mem) && NoMore(s, t)
    ensures Coherent(t, mem)
  {
    forall key: Key {:trigger Dirty(t, key)} ensures Dirty(s, key) ==> Dirty(t, key) {
      if Dirty(s, key) {
        var b :| 0 <= b < |s.bufs| && s.bufs[b].dirty && s.bufs[b].key == key;
        assert Current(s.bufs[b]) && t.bufs[b].dirty;
      }
    }
  }

  /** Buffer `b` now has `data`, and is the one current buffer of its block. */
  lemma ContentsCoherent(s: Sys, t: Sys, b: nat, mem: map<Key, seq<byte>>, mem': map<Key, seq<byte>>)
    requires Coherent(s, mem) && b < |s.bufs| == |t.bufs| && t.disk == s.disk && t.bufs == s.bufs[b := t.bufs[b]]
    requires Current(t.bufs[b]) && t.bufs[b].key == s.bufs[b].key && t.bufs[b].data == OnDisk(mem', t.bufs[b].key)
    requires s.bufs[b].dirty ==> t.bufs[b].dirty
    requires forall a :: 0 <= a < |s.bufs| && a != b && Current(s.bufs[a]) ==> s.bufs[a].key != s.bufs[b].key
    requires forall key: Key :: key != s.bufs[b].key ==> OnDisk(mem', key) == OnDisk(mem, key)
    requires t.bufs[b].dirty || OnDisk(s.disk, s.bufs[b].key) == OnDisk(mem', s.bufs[b].key)
    ensures Coherent(t, mem')
  {
    assert t.bufs[b].dirty ==> Dirty(t, s.bufs[b].key);
    forall key: Key {:trigger Dirty(t, key)} | key != s.bufs[b].key ensures Dirty(s, key) ==> Dirty(t, key) {
      if Dirty(s, key) {
        var a :| 0 <= a < |s.bufs| && s.bufs[a].dirty && s.bufs[a].key == key;
        assert t.bufs[a].dirty;
      }
    }
  }

  lemma WrittenCoherent(s: Sys, i: nat, mem: map<Key, seq<byte>>)
    requires Coherent(s, mem) && i < |s.bufs|
    ensures Coherent(Written(s, i), mem)
  {
    var t := Written(s, i);
    var f := s.bufs[i];
    if f.dirty {
      assert Current(f);
      forall key: Key {:trigger Dirty(t, key)} | key != f.key ensures Dirty(s, key) ==> Dirty(t, key) {
        if Dirty(s, key) {
          var a :| 0 <= a < |s.bufs| && s.bufs[a].dirty && s.bufs[a].key == key;
          assert t.bufs[a].dirty;
        }
      }
    }
  }

  /** The only current buffer of a block a process holds is the one it holds, unless one is in flight. */
  lemma OnlyHeld(s: Sys, p: nat, mem: map<Key, seq<byte>>)
    requires Inv(s) && Coherent(s, mem) && p < |s.procs| && s.procs[p].Holding?
    requires !InFlight(s, s.procs[p].key) || s.bufs[s.procs[p].b].uptodate
    ensures var b := s.procs[p].b;
      && b < |s.bufs| && s.bufs[b].queued && s.bufs[b].key == s.procs[p].key && s.bufs[b].key.dev != 0
      && forall a :: 0 <= a < |s.bufs| && a != b && Current(s.bufs[a]) ==> s.bufs[a].key != s.bufs[b].key
  {
    assert Sound(s, s.procs[p]);
    var b := s.procs[p].b;
    forall a | 0 <= a < |s.bufs| && a != b && Current(s.bufs[a]) ensures s.bufs[a].key != s.bufs[b].key {
      if s.bufs[b].uptodate { assert Current(s.bufs[b]); }
    }
  }

  /** Reading a block in gives what was stored last if and only if nothing newer than the disk is in flight. */
  lemma ReadIsFresh(s: Sys, p: nat, mem: map<Key, seq<byte>>)
    requires Inv(s) && Coherent(s, mem) && Possible(s, Act(p, ReadIn))
    ensures Step(s, Act(p, ReadIn)).bufs[s.procs[p].b].data == OnDisk(mem, s.procs[p].key) <==>
      forall b {:trigger s.bufs[b]} :: 0 <= b < |s.bufs| && !s.bufs[b].queued && s.bufs[b].dirty
        && s.bufs[b].key == s.procs[p].key
        ==> s.bufs[b].data == OnDisk(s.disk, s.procs[p].key)
  {
    var key := s.procs[p].key;
    assert Sound(s, s.procs[p]);
    if Dirty(s, key) {
      var b :| 0 <= b < |s.bufs| && s.bufs[b].dirty && s.bufs[b].key == key;
      assert Current(s.bufs[b]);
      assert b != s.procs[p].b && !s.bufs[b].queued;
    }
  }

  lemma FinishCoherent(s: Sys, p: nat, mem: map<Key, seq<byte>>)
    requires Inv(s) && Coherent(s, mem) && Possible(s, Act(p, Finish))
    ensures Coherent(Acted(s, p, s.procs[p], Finish), mem)
  {
    assert Sound(s, s.procs[p]);
    assert !s.bufs[s.procs[p].b].dirty;
    LessCoherent(s, Acted(s, p, s.procs[p], Finish), mem);
  }

  predicate Touches(a: Action) { a.ReadIn? || a.Store? || a.Fill? || a.Discard? || a.Finish? || a.SyncNext? }

  lemma QuietCoherent(s: Sys, p: nat, a: Action, mem: map<Key, seq<byte>>)
    requires Inv(s) && Coherent(s, mem) && Possible(s, Act(p, a)) && !Touches(a)
    ensures Coherent(Acted(s, p, s.procs[p], a), mem)
  {
    LessCoherent(s, Acted(s, p, s.procs[p], a), mem);
  }

  lemma SyncNextCoherent(s: Sys, p: nat, mem: map<Key, seq<byte>>)
    requires Inv(s) && Coherent(s, mem) && Possible(s, Act(p, SyncNext))
    ensures Coherent(Acted(s, p, s.procs[p], SyncNext), mem)
  {
    var c := s.procs[p];
    WrittenCoherent(s, c.i, mem);
    var s1 := if s.bufs[c.i].key.dev == s.bufs[c.b].key.dev then Written(s, c.i) else s;
    LessCoherent(s1, Acted(s, p, c, SyncNext), mem);
  }

  lemma HeldCoherent(s: Sys, p: nat, a: Action, mem: map<Key, seq<byte>>)
    requires Inv(s) && Coherent(s, mem) && Possible(s, Act(p, a)) && Calm(s, Act(p, a))
      && (a.ReadIn? || a.Store? || a.Fill?)
    ensures Coherent(Acted(s, p, s.procs[p], a), Stored(mem, s, Act(p, a)))
  {
    OnlyHeld(s, p, mem);
    if a.ReadIn? { ReadIsFresh(s, p, mem); }
    ContentsCoherent(s, Acted(s, p, s.procs[p], a), s.procs[p].b, mem, Stored(mem, s, Act(p, a)));
  }

  lemma DiscardCoherent(s: Sys, p: nat, mem: map<Key, seq<byte>>)
    requires Inv(s) && Coherent(s, mem) && Possible(s, Act(p, Discard)) && Calm(s, Act(p, Discard))
    ensures Coherent(Acted(s, p, s.procs[p], Discard), Stored(mem, s, Act(p, Discard)))
  {
    OnlyHeld(s, p, mem);
    var key, t := s.procs[p].key, Acted(s, p, s.procs[p], Discard);
    forall k: Key {:trigger Dirty(t, k)} | k != key ensures Dirty(s, k) ==> Dirty(t, k) {
      if Dirty(s, k) {
        var a :| 0 <= a < |s.bufs| && s.bufs[a].dirty && s.bufs[a].key == k;
        assert t.bufs[a].dirty;
      }
    }
  }

  lemma StepCoherent(s: Sys, e: Event, mem: map<Key, seq<byte>>)
    requires Inv(s) && Coherent(s, mem) && Possible(s, e) && Calm(s, e)
    ensures Coherent(Step(s, e), Stored(mem, s, e))
  {
    if e.WriteBack? {
      WrittenCoherent(s, e.i, mem);
    } else if !Touches(e.a) {
      QuietCoherent(s, e.p, e.a, mem);
    } else if e.a.Finish? {
      FinishCoherent(s, e.p, mem);
    } else if e.a.SyncNext? {
      SyncNextCoherent(s, e.p, mem);
    } else if e.a.Discard? {
      DiscardCoherent(s, e.p, mem);
    } else {
      HeldCoherent(s, e.p, e.a, mem);
    }
  }

  ghost predicate AllCalm(s: Sys, events: seq<Event>)
    requires Runs(s, events)
    decreases |events|
  {
    events == [] || (Calm(s, events[0]) && AllCalm(Step(s, events[0]), events[1..]))
  }

  ghost function StoredRun(mem: map<Key, seq<byte>>, s: Sys, events: seq<Event>): map<Key, seq<byte>>
    requires Runs(s, events)
    decreases |events|
  {
    if events == [] then mem else StoredRun(Stored(mem, s, events[0]), Step(s, events[0]), events[1..])
  }

  /** As long as no block is read, filled or discarded while a dirty buffer of it is in flight, the cache is
      transparent: a process that holds an up-to-date buffer has what was last stored in its block, across any
      evictions. */
  lemma {:induction false} CacheIsTransparent(s: Sys, events: seq<Event>, mem: map<Key, seq<byte>>)
    requires Inv(s) && Coherent(s, mem) && Runs(s, events) && AllCalm(s, events)
    ensures var t := Run(s, events);
      && Inv(t) && Coherent(t, StoredRun(mem, s, events))
      && forall p :: 0 <= p < |t.procs| && t.procs[p].Holding? ==>
        t.procs[p].b < |t.bufs| &&
        (t.bufs[t.procs[p].b].uptodate ==>
          t.bufs[t.procs[p].b].data == OnDisk(StoredRun(mem, s, events), t.procs[p].key))
    decreases |events|
  {
    if events != [] {
      StepKeeps(s, events[0]);
      StepCoherent(s, events[0], mem);
      CacheIsTransparent(Step(s, events[0]), events[1..], Stored(mem, s, events[0]));
    } else {
      forall p | 0 <= p < |s.procs| && s.procs[p].Holding?
        ensures s.procs[p].b < |s.bufs|
        ensures s.bufs[s.procs[p].b].uptodate ==> s.bufs[s.procs[p].b].data == OnDisk(mem, s.procs[p].key)
      {
        assert Sound(s, s.procs[p]);
        assert s.bufs[s.procs[p].b].uptodate ==> Current(s.bufs[s.procs[p].b]);
      }
    }
  }

  /** A run one step longer. */
  lemma {:induction false} OneMore(s: Sys, events: seq<Event>, mem: map<Key, seq<byte>>, e: Event)
    requires Runs(s, events) && Possible(Run(s, events), e)
    ensures Runs(s, events + [e]) && Run(s, events + [e]) == Step(Run(s, events), e)
    ensures StoredRun(mem, s, events + [e]) == Stored(StoredRun(mem, s, events), Run(s, events), e)
    decreases |events|
  {
    if events == [] {
      assert events + [e] == [e] && [e][1..] == [];
    } else {
      assert (events + [e])[1..] == events[1..] + [e];
      OneMore(Step(s, events[0]), events[1..], Stored(mem, s, events[0]), e);
    }
  }
}
