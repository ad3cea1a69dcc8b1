/** sleep_on and wake_up of kernel/sched.c: the list of sleepers that only exists in the saved `tmp` of each of them.
  A task's sleep_on is two steps, up to its call of schedule and from its return; anything may happen between. */
module SleepChain {
  const NULL: int := -1

  /** A task inside sleep_on: the queue it waits on and its saved tmp. `since` numbers the calls in order; it is here
      for the proofs only. */
  datatype Frame = Frame(queue: nat, tmp: int, since: nat)

  /** The head of each queue that has one, the tasks inside sleep_on, the tasks whose state is not running. */
  datatype Waits = Waits(head: map<nat, nat>, inside: map<nat, Frame>, asleep: set<nat>, calls: nat)

  datatype Event = SleepOn(t: nat, q: nat) | WakeUp(q: nat) | Resume(t: nat)

  /** A running task other than task 0 calls sleep_on; a task that runs again inside sleep_on finishes it. */
  predicate Possible(w: Waits, e: Event) {
    match e
    case SleepOn(t, q) => t != 0 && t !in w.inside && t !in w.asleep
    case WakeUp(q) => true
    case Resume(t) => t in w.inside && t !in w.asleep
  }

  function Head(w: Waits, q: nat): int {
    if q in w.head then w.head[q] else NULL
  }

  /** state = 0 */
  function Woken(w: Waits, t: int): Waits {
    if t >= 0 then w.(asleep := w.asleep - {t}) else w
  }

  function Step(w: Waits, e: Event): Waits
    requires Possible(w, e)
  {
    match e
    case SleepOn(t, q) =>
      w.(inside := w.inside[t := Frame(q, Head(w, q), w.calls)], head := w.head[q := t], asleep := w.asleep + {t},
        calls := w.calls + 1)
    case WakeUp(q) => Woken(w, Head(w, q)).(head := w.head - {q})
    case Resume(t) => Woken(w, w.inside[t].tmp).(inside := w.inside - {t})
  }

  // ---------------------------------------------------------------------------------------------------------
  // Every sleeper is held by exactly one link

  datatype Link = FromQueue(q: nat) | FromTask(t: nat)

  /** The task a link points to. */
  function To(w: Waits, l: Link): int {
    match l
    case FromQueue(q) => Head(w, q)
    case FromTask(t) => if t in w.inside then w.inside[t].tmp else NULL
  }

  function QueueOf(w: Waits, l: Link): nat {
    match l
    case FromQueue(q) => q
    case FromTask(t) => if t in w.inside then w.inside[t].queue else 0
  }

  ghost predicate Held(w: Waits, u: nat) {
    exists l :: To(w, l) == u
  }

  /** A link leads to a task that sleeps on the same queue. */
  ghost predicate LinkOk(w: Waits, l: Link) {
    To(w, l) >= -1 && (To(w, l) >= 0 ==>
      To(w, l) in w.asleep && To(w, l) in w.inside && w.inside[To(w, l)].queue == QueueOf(w, l))
  }

  /** The one a task holds went to sleep before it. */
  ghost predicate Older(w: Waits) {
    forall t {:trigger t in w.inside} :: t in w.inside ==>
      w.inside[t].since < w.calls &&
      (w.inside[t].tmp >= 0 ==> w.inside[t].tmp in w.inside && w.inside[w.inside[t].tmp].since < w.inside[t].since)
  }

  /** No task hangs on two links. */
  ghost predicate OneLink(w: Waits) {
    forall l, m {:trigger To(w, l), To(w, m)} :: To(w, l) >= 0 && To(w, l) == To(w, m) ==> l == m
  }

  ghost predicate Inv(w: Waits) {
    && (forall l {:trigger LinkOk(w, l)} {:trigger To(w, l)} :: LinkOk(w, l))
    && (forall t :: t in w.asleep ==> t in w.inside)
    && Older(w) && OneLink(w)
    && (forall u :: u in w.asleep ==> Held(w, u))
  }

  function Start(): Waits { Waits(map[], map[], {}, 0) }

  lemma StartIsOk()
    ensures Inv(Start())
  {
  }

  /** What the links are after a step. */
  function ToAfter(w: Waits, e: Event, l: Link): int {
    match e
    case SleepOn(t, q) => if l == FromQueue(q) then t else if l == FromTask(t) then Head(w, q) else To(w, l)
    case WakeUp(q) => if l == FromQueue(q) then NULL else To(w, l)
    case Resume(t) => if l == FromTask(t) then NULL else To(w, l)
  }

  lemma LinksAfter(w: Waits, e: Event)
    requires Possible(w, e)
    ensures forall l :: To(Step(w, e), l) == ToAfter(w, e, l)
  {
  }

  lemma LinkKept(w: Waits, e: Event, l: Link)
    requires Inv(w) && Possible(w, e)
    ensures LinkOk(Step(w, e), l)
  {
    LinksAfter(w, e);
    assert LinkOk(w, l);
    match e
    case SleepOn(t, q) =>
      assert LinkOk(w, FromQueue(q));
    case WakeUp(q) =>
      assert To(w, FromQueue(q)) >= 0 && To(w, l) == To(w, FromQueue(q)) ==> l == FromQueue(q);
    case Resume(t) =>
      assert To(w, FromTask(t)) >= 0 && To(w, l) == To(w, FromTask(t)) ==> l == FromTask(t);
  }

  lemma OlderKept(w: Waits, e: Event)
    requires Inv(w) && Possible(w, e)
    ensures Older(Step(w, e))
  {
    var v := Step(w, e);
    forall t {:trigger t in v.inside} | t in v.inside
      ensures v.inside[t].since < v.calls
      ensures v.inside[t].tmp >= 0 ==>
        v.inside[t].tmp in v.inside && v.inside[v.inside[t].tmp].since < v.inside[t].since
    {
      if e.SleepOn? && t == e.t {
        assert LinkOk(w, FromQueue(e.q));
      } else {
        assert LinkOk(w, FromTask(t)) && To(w, FromTask(t)) == w.inside[t].tmp;
      }
    }
  }

  lemma OneLinkKept(w: Waits, e: Event)
    requires Inv(w) && Possible(w, e)
    ensures OneLink(Step(w, e))
  {
    var v := Step(w, e);
    LinksAfter(w, e);
    forall l, m {:trigger To(v, l), To(v, m)} | To(v, l) >= 0 && To(v, l) == To(v, m) ensures l == m {
      assert LinkOk(w, l) && LinkOk(w, m);
      if e.SleepOn? {
        var h := FromQueue(e.q);
        assert To(w, h) >= 0 && To(w, l) == To(w, h) ==> l == h;
        assert To(w, h) >= 0 && To(w, m) == To(w, h) ==> m == h;
      } else {
        assert To(w, l) == To(v, l) && To(w, m) == To(v, m);
      }
    }
  }

  lemma HeldKept(w: Waits, e: Event, u: nat)
    requires Inv(w) && Possible(w, e) && u in Step(w, e).asleep
    ensures u in Step(w, e).inside && Held(Step(w, e), u)
  {
    var v := Step(w, e);
    LinksAfter(w, e);
    if e.SleepOn? && u == e.t {
      assert To(v, FromQueue(e.q)) == u;
    } else {
      assert Held(w, u);
      var l :| To(w, l) == u;
      if e.SleepOn? && l == FromQueue(e.q) {
        assert To(v, FromTask(e.t)) == u;
      } else {
        assert To(v, l) == u;
      }
    }
  }

  lemma StepKeeps(w: Waits, e: Event)
    requires Inv(w) && Possible(w, e)
    ensures Inv(Step(w, e))
  {
    var v := Step(w, e);
    forall l {:trigger LinkOk(v, l)} {:trigger To(v, l)} ensures LinkOk(v, l) { LinkKept(w, e, l); }
    OlderKept(w, e);
    OneLinkKept(w, e);
    forall u | u in v.asleep ensures u in v.inside && Held(v, u) { HeldKept(w, e, u); }
  }

  predicate Runs(w: Waits, events: seq<Event>)
    decreases |events|
  {
    events == [] || (Possible(w, events[0]) && Runs(Step(w, events[0]), events[1..]))
  }

  function Run(w: Waits, events: seq<Event>): Waits
    requires Runs(w, events)
    decreases |events|
  {
    if events == [] then w else Run(Step(w, events[0]), events[1..])
  }

  /** No lost sleeper: in every run, a task sleeps if and only if it is the head of exactly one queue or the saved tmp
      of exactly one task inside sleep_on. */
  lemma {:induction false} NoLostSleeper(w: Waits, events: seq<Event>)
    requires Inv(w) && Runs(w, events)
    ensures var v := Run(w, events);
      && Inv(v)
      && (forall u: nat :: u in v.asleep <==> Held(v, u))
      && (forall l, m :: To(v, l) >= 0 && To(v, l) == To(v, m) ==> l == m)
    decreases |events|
  {
    if events != [] {
      StepKeeps(w, events[0]);
      NoLostSleeper(Step(w, events[0]), events[1..]);
    }
  }

  // ---------------------------------------------------------------------------------------------------------
  // The chain below a task

  /** Task `r` has been woken but has not yet run on inside sleep_on; `u` sleeps `d` links below it. */
  predicate Pending(w: Waits, r: nat, d: nat, u: nat) {
    r in w.inside && r !in w.asleep && d > 0 && u in w.asleep && Down(w, r, d, u)
  }

  /** `u` is `d` links below `t`. */
  predicate Down(w: Waits, t: nat, d: nat, u: nat)
    decreases d
  {
    if d == 0 then t == u else t in w.inside && w.inside[t].tmp >= 0 && Down(w, w.inside[t].tmp, d - 1, u)
  }

  /** The links below a task do not change while none of the tasks on the way runs on. */
  lemma {:induction false} DownKept(w: Waits, e: Event, t: nat, d: nat, u: nat)
    requires Inv(w) && Possible(w, e) && Down(w, t, d, u) && t in w.inside
    requires e.Resume? ==> e.t != t
    ensures Down(Step(w, e), t, d, u)
    decreases d
  {
    if d > 0 {
      var n := w.inside[t].tmp;
      assert To(w, FromTask(t)) == n;
      DownKept(w, e, n, d - 1, u);
    }
  }

  /** A link can only be cut by the task it hangs on. */
  lemma OnlyHolderWakes(w: Waits, e: Event, t: nat, u: nat)
    requires Inv(w) && Possible(w, e) && t in w.inside && w.inside[t].tmp == u && e != Resume(t)
    ensures u in Step(w, e).asleep
  {
    assert To(w, FromTask(t)) == u;
    if e.WakeUp? {
      assert To(w, FromQueue(e.q)) != u;
    } else if e.Resume? {
      assert To(w, FromTask(e.t)) != u;
    }
  }

  lemma {:induction false} LastLink(w: Waits, t: nat, d: nat, u: nat) returns (p: nat)
    requires Inv(w) && d > 0 && Down(w, t, d, u)
    ensures p in w.inside && w.inside[p].tmp == u && (d == 1 ==> p == t) && (d > 1 ==> p in w.asleep)
    decreases d
  {
    var n := w.inside[t].tmp;
    assert To(w, FromTask(t)) == n;
    if d == 1 {
      p := t;
    } else {
      p := LastLink(w, n, d - 1, u);
    }
  }

  /** Once its chain has been cut off from the queue, nothing but the awake task at the top of it brings a sleeper
      nearer, or takes it farther away: whoever else sleeps, wakes or runs on, it stays `d` links below. */
  lemma PendingStep(w: Waits, e: Event, r: nat, d: nat, u: nat)
    requires Inv(w) && Possible(w, e) && Pending(w, r, d, u)
    ensures e != Resume(r) ==> Pending(Step(w, e), r, d, u)
    ensures e == Resume(r) ==> To(w, FromTask(r)) >= 0
    ensures e == Resume(r) && d > 1 ==> Pending(Step(w, e), To(w, FromTask(r)), d - 1, u)
    ensures e == Resume(r) && d == 1 ==> u !in Step(w, e).asleep
  {
    var p := LastLink(w, r, d, u);
    var n := w.inside[r].tmp;
    assert To(w, FromTask(r)) == n;
    if e != Resume(r) {
      DownKept(w, e, r, d, u);
      OnlyHolderWakes(w, e, p, u);
    } else if d > 1 {
      DownKept(w, e, n, d - 1, u);
      assert p != r;
      OnlyHolderWakes(w, e, p, u);
    }
  }

  /** How often, in a run, the task on top of the chain runs on; when it does the next one becomes the top. */
  function TopRuns(w: Waits, events: seq<Event>, r: int): nat
    requires Runs(w, events)
    decreases |events|
  {
    if events == [] then 0
    else if r >= 0 && events[0] == Resume(r) then 1 + TopRuns(Step(w, events[0]), events[1..], To(w, FromTask(r)))
    else TopRuns(Step(w, events[0]), events[1..], r)
  }

  /** In some state of the run `u` is awake. */
  predicate Wakes(w: Waits, events: seq<Event>, u: nat)
    requires Runs(w, events)
    decreases |events|
  {
    u !in w.asleep || (events != [] && Wakes(Step(w, events[0]), events[1..], u))
  }

  /** However the run is interleaved with other sleeps, wakings and resumptions, a sleeper `d` links below an awake task
      is awake by the time the top of its chain has run `d` times, and not before. */
  lemma {:induction false} WokenWithinDepth(w: Waits, events: seq<Event>, r: nat, d: nat, u: nat)
    requires Inv(w) && Runs(w, events) && Pending(w, r, d, u)
    ensures Wakes(w, events, u) <==> TopRuns(w, events, r) >= d
    decreases |events|
  {
    if events != [] {
      var e := events[0];
      StepKeeps(w, e);
      PendingStep(w, e, r, d, u);
      if e != Resume(r) {
        WokenWithinDepth(Step(w, e), events[1..], r, d, u);
      } else if d > 1 {
        WokenWithinDepth(Step(w, e), events[1..], To(w, FromTask(r)), d - 1, u);
      }
    }
  }

  /** wake_up frees the whole queue: its head is awake, and every task that hung below it now hangs below an awake
      task. */
  lemma WakeUpFrees(w: Waits, q: nat, d: nat, u: nat)
    requires Inv(w) && q in w.head && u in w.asleep && Down(w, w.head[q], d, u)
    ensures var v := Step(w, WakeUp(q));
      && Inv(v) && Head(v, q) == NULL
      && (if d == 0 then u == w.head[q] && u !in v.asleep else Pending(v, w.head[q], d, u))
  {
    var h := w.head[q];
    assert To(w, FromQueue(q)) == h;
    StepKeeps(w, WakeUp(q));
    DownKept(w, WakeUp(q), h, d, u);
    if d > 0 {
      var p := LastLink(w, h, d, u);
      OnlyHolderWakes(w, WakeUp(q), p, u);
    }
  }

  /** Above every sleeper there is the head of its queue, or an awake task that is about to pass the wake-up on. */
  lemma {:induction false} EverySleeperHasATop(w: Waits, u: nat) returns (r: nat, d: nat)
    requires Inv(w) && u in w.asleep
    ensures Pending(w, r, d, u) || (w.inside[u].queue in w.head && w.head[w.inside[u].queue] == r && Down(w, r, d, u))
    decreases w.calls - w.inside[u].since
  {
    assert Held(w, u);
    var l :| To(w, l) == u;
    if l.FromQueue? {
      r, d := u, 0;
    } else if l.t !in w.asleep {
      r, d := l.t, 1;
      assert Down(w, u, 0, u);
    } else {
      r, d := EverySleeperHasATop(w, l.t);
      DownMore(w, r, d, l.t, u);
      d := d + 1;
    }
  }

  lemma {:induction false} DownMore(w: Waits, t: nat, d: nat, p: nat, u: nat)
    requires Down(w, t, d, p) && p in w.inside && w.inside[p].tmp == u
    ensures Down(w, t, d + 1, u)
    decreases d
  {
    if d == 0 {
      assert Down(w, u, 0, u);
    } else {
      DownMore(w, w.inside[t].tmp, d - 1, p, u);
    }
  }

  // ---------------------------------------------------------------------------------------------------------
  // One wake_up and the whole chain, run in order

  /** The woken tasks run one after the other: the one on top, then the one below it, and so on. */
  function RunDown(w: Waits, t: int, d: nat): seq<Event>
    decreases d
  {
    if d == 0 || t < 0 || !Possible(w, Resume(t)) then []
    else [Resume(t)] + RunDown(Step(w, Resume(t)), To(w, FromTask(t)), d - 1)
  }

  lemma {:induction false} RunDownWakes(w: Waits, r: nat, d: nat, u: nat)
    requires Inv(w) && Pending(w, r, d, u)
    ensures var es := RunDown(w, r, d);
      |es| == d && Runs(w, es) && Inv(Run(w, es)) && u !in Run(w, es).asleep
    decreases d
  {
    var e := Resume(r);
    PendingStep(w, e, r, d, u);
    StepKeeps(w, e);
    var n := To(w, FromTask(r));
    var rest := RunDown(Step(w, e), n, d - 1);
    assert RunDown(w, r, d) == [e] + rest && ([e] + rest)[1..] == rest;
    if d > 1 {
      RunDownWakes(Step(w, e), n, d - 1, u);
    }
  }

  /** One wake_up, and then each woken task running on in turn, wakes the task at depth `d` of the queue in exactly `d`
      further steps. */
  lemma OneWakeUpWakesTheChain(w: Waits, q: nat, d: nat, u: nat)
    requires Inv(w) && q in w.head && u in w.asleep && Down(w, w.head[q], d, u)
    ensures var v := Step(w, WakeUp(q)); var es := RunDown(v, w.head[q], d);
      |es| == d && Runs(v, es) && u !in Run(v, es).asleep
  {
    WakeUpFrees(w, q, d, u);
    if d > 0 {
      RunDownWakes(Step(w, WakeUp(q)), w.head[q], d, u);
    }
  }
}
