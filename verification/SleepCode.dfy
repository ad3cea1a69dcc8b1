/** sleep_on and wake_up of kernel/sched.c as they run on the queue heads, the saved `tmp` of each task and the task
  states. sleep_on is its two halves, before and after its call of schedule. */
module SleepCode {
  import opened SleepChain

  class Queues {
    const head: array<int> // *p of each queue, a task or NULL
    const tmp: array<int> // the local variable of each task's sleep_on
    const asleep: array<bool> // state != 0
    ghost var inside: map<nat, Frame>
    ghost var calls: nat

    ghost predicate Valid()
      reads this, head, tmp, asleep
    {
      && head != tmp && tmp.Length == asleep.Length
      && (forall q :: 0 <= q < head.Length ==> -1 <= head[q] < tmp.Length)
      && (forall t :: t in inside ==> t < tmp.Length && tmp[t] == inside[t].tmp && -1 <= tmp[t] < tmp.Length)
    }

    ghost function W(): Waits
      requires Valid()
      reads this, head, tmp, asleep
    {
      var heads := map q: nat | q < head.Length && head[q] != NULL :: head[q] as nat;
      Waits(heads, inside, (set t: nat | t < asleep.Length && asleep[t]), calls)
    }

    constructor (queues: nat, tasks: nat)
      ensures Valid() && W() == Start() && fresh(head) && fresh(tmp) && fresh(asleep)
      ensures head.Length == queues && tmp.Length == tasks
    {
      head := new int[queues](q => NULL);
      tmp := new int[tasks](t => NULL);
      asleep := new bool[tasks](t => false);
      inside, calls := map[], 0;
    }

    /** sleep_on, up to its call of schedule. */
    method FallAsleep(t: nat, q: nat)
      requires Valid() && t < tmp.Length && q < head.Length && Possible(W(), SleepOn(t, q))
      modifies this, head, tmp, asleep
      ensures Valid() && W() == Step(old(W()), SleepOn(t, q))
    {
      ghost var v := Step(W(), SleepOn(t, q));
      inside := inside[t := Frame(q, head[q], calls)];
      calls := calls + 1;
      tmp[t] := head[q];
      head[q] := t;
      asleep[t] := true;
      assert W().head == v.head && W().asleep == v.asleep;
    }

    /** sleep_on, from the return of schedule: "if (tmp) tmp->state = 0". */
    method RunOn(t: nat)
      requires Valid() && t < tmp.Length && Possible(W(), Resume(t))
      modifies this, asleep
      ensures Valid() && W() == Step(old(W()), Resume(t))
    {
      ghost var v := Step(W(), Resume(t));
      if tmp[t] != NULL {
        asleep[tmp[t]] := false;
      }
      inside := inside - {t};
      assert W().head == v.head && W().asleep == v.asleep;
    }

    method WakeUp(q: nat)
      requires Valid() && q < head.Length
      modifies head, asleep
      ensures Valid() && W() == Step(old(W()), SleepChain.WakeUp(q))
    {
      ghost var v := Step(W(), SleepChain.WakeUp(q));
      if head[q] != NULL {
        asleep[head[q]] := false;
        head[q] := NULL;
      }
      assert W().head == v.head && W().asleep == v.asleep;
    }
  }
}
