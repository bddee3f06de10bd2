/**
 yield, sleep, wakeup (kernel/yield/Yield.c, kernel/yield/Thread.c), the futex calls
 (kernel/system/Futex.c) and the list side of fork and exit, on one hart.  The clock is
 an argument: its value at each look.
 */
module Scheduler {
  import opened Schedule
  import opened FutexTable

  datatype State = Unused | Sleeping | Runnable | Running
  datatype Thread = Thread(state: State, chan: int, awake: nat)

  /** All threads the scheduler knows: the queue, and the current thread (-1 for none). */
  function All(q: Lists, cur: int): seq<int> { Queue(q) + if cur == -1 then [] else [cur] }

  ghost function Places(q: Lists, cur: int): multiset<int> { multiset(All(q, cur)) }

  predicate InUse(threads: seq<Thread>, t: int) { 0 <= t < |threads| && threads[t].state != Unused }

  /** Every thread in use is the current one or on exactly one list, once. */
  ghost predicate Placed(q: Lists, cur: int, threads: seq<Thread>) {
    PointOk(q) && forall t :: Places(q, cur)[t] == if InUse(threads, t) then 1 else 0
  }

  ghost predicate HasSlot(slots: seq<Slot>, t: int) {
    exists i :: 0 <= i < |slots| && slots[i].valid && slots[i].thread == t
  }

  /** No thread holds two slots, and slots are held by threads in use. */
  ghost predicate SlotsOk(slots: seq<Slot>, threads: seq<Thread>) {
    && |slots| == FUTEX_COUNT
    && (forall i :: 0 <= i < |slots| && slots[i].valid ==> InUse(threads, slots[i].thread))
    && (forall i, j :: 0 <= i < j < |slots| && slots[i].valid && slots[j].valid ==> slots[i].thread != slots[j].thread)
  }

  /** A sleeping thread sleeps on a channel or holds a futex slot: somebody can wake it. */
  ghost predicate Accounted(slots: seq<Slot>, threads: seq<Thread>) {
    forall t :: 0 <= t < |threads| && threads[t].state == Sleeping ==> threads[t].chan != 0 || HasSlot(slots, t)
  }

  ghost predicate OneRunning(cur: int, threads: seq<Thread>) {
    forall t :: 0 <= t < |threads| && threads[t].state == Running ==> t == cur
  }

  /** Between two steps: also while the current thread is about to give up the hart. */
  ghost predicate Base(q: Lists, cur: int, threads: seq<Thread>, slots: seq<Slot>) {
    && Placed(q, cur, threads) && SlotsOk(slots, threads) && Accounted(slots, threads) && OneRunning(cur, threads)
    && cur >= -1
  }

  predicate Eligible(th: Thread, now: int) { th.state == Runnable && th.awake <= now }

  ghost predicate Monotone(clock: nat -> int) {
    forall i: nat, j: nat :: i <= j ==> clock(i) <= clock(j)
  }

  predicate EligibleAt(threads: seq<Thread>, t: int, now: int) { 0 <= t < |threads| && Eligible(threads[t], now) }

  /** A thread after wakeup on a channel. */
  function WokenOn(th: Thread, chan: int): Thread {
    if th.state == Sleeping && th.chan == chan then th.(state := Runnable) else th
  }

  /** yield first makes a running current thread runnable. */
  function Prepared(threads: seq<Thread>, cur: int): (r: seq<Thread>)
    ensures |r| == |threads|
  {
    if 0 <= cur < |threads| && threads[cur].state == Running then threads[cur := threads[cur].(state := Runnable)]
    else threads
  }

  /** The thread that the m-th look finds. */
  ghost function Look(all: seq<int>, m: nat): int {
    if m >= 1 && all != [] then Rotate(all, m - 1)[0] else -1
  }

  /** The looks before the n-th found nobody eligible. */
  ghost predicate Passed(threads: seq<Thread>, all: seq<int>, clock: nat -> int, n: nat) {
    forall m :: 1 <= m < n ==> !EligibleAt(threads, Look(all, m), clock(m))
  }

  /** futexClear's slots. */
  function Cleared(slots: seq<Slot>, t: int): (r: seq<Slot>)
    ensures |r| == |slots|
    ensures forall i :: 0 <= i < |slots| ==>
              r[i] == if slots[i].valid && slots[i].thread == t then slots[i].(valid := false) else slots[i]
  {
    seq(|slots|, i requires 0 <= i < |slots| => if slots[i].valid && slots[i].thread == t then slots[i].(valid := false)
                                                else slots[i])
  }

  lemma PreparedBase(q: Lists, cur: int, threads: seq<Thread>, slots: seq<Slot>)
    requires Base(q, cur, threads, slots)
    ensures Base(q, cur, Prepared(threads, cur), slots)
    ensures forall t :: 0 <= t < |threads| ==> Prepared(threads, cur)[t].state != Running
  {
    hide Queue;
  }

  lemma ChosenAccounted(threads: seq<Thread>, slots: seq<Slot>, t: int)
    requires SlotsOk(slots, threads) && Accounted(slots, threads) && 0 <= t < |threads|
    ensures SlotsOk(Cleared(slots, t), threads[t := Thread(Running, 0, 0)])
    ensures Accounted(Cleared(slots, t), threads[t := Thread(Running, 0, 0)]) && !HasSlot(Cleared(slots, t), t)
  {
    var th, sl := threads[t := Thread(Running, 0, 0)], Cleared(slots, t);
    forall u | 0 <= u < |th| && th[u].state == Sleeping ensures th[u].chan != 0 || HasSlot(sl, u) {
      assert threads[u].state == Sleeping;
      if HasSlot(slots, u) {
        var i :| 0 <= i < |slots| && slots[i].valid && slots[i].thread == u;
        assert sl[i].valid && sl[i].thread == u;
      }
    }
  }

  /** The chosen thread runs: it has no slot and no channel any more. */
  lemma ChosenBase(q: Lists, cur: int, q': Lists, t: int, threads: seq<Thread>, slots: seq<Slot>)
    requires Base(q, cur, threads, slots) && PointOk(q') && multiset([t] + Queue(q')) == Places(q, cur)
    requires forall u :: 0 <= u < |threads| ==> threads[u].state != Running
    ensures InUse(threads, t)
    ensures Base(q', t, threads[t := Thread(Running, 0, 0)], Cleared(slots, t)) && !HasSlot(Cleared(slots, t), t)
  {
    hide Queue, HasSlot, SlotsOk, Accounted;
    assert t in multiset([t] + Queue(q'));
    assert Places(q, cur)[t] >= 1;
    assert t != -1 ==> Places(q', t) == multiset([t] + Queue(q'));
    ChosenAccounted(threads, slots, t);
  }

  // ---------- waking futex waiters ----------

  /** One of the first k slots is released and names thread t. */
  ghost predicate Freed(slots: seq<Slot>, addr: int, n: int, k: nat, t: int)
    requires k <= |slots|
  {
    exists i :: 0 <= i < k && Released(slots, addr, n, i) && slots[i].thread == t
  }

  /** The threads after the first k slots have been gone through. */
  ghost predicate WokenThreads(slots: seq<Slot>, threads: seq<Thread>, threads': seq<Thread>, addr: int, n: int, k: nat)
    requires k <= |slots|
  {
    && |threads'| == |threads|
    && forall t :: 0 <= t < |threads| ==>
         threads'[t] == if Freed(slots, addr, n, k, t) then threads[t].(state := Runnable) else threads[t]
  }

  /** Freeing the released slots, and moving others to another address, keeps every sleeper accounted for. */
  lemma WokenBase(q: Lists, cur: int, threads: seq<Thread>, threads': seq<Thread>, slots: seq<Slot>, slots': seq<Slot>,
                  addr: int, n: int)
    requires Base(q, cur, threads, slots) && WokenThreads(slots, threads, threads', addr, n, |slots|)
    requires |slots'| == |slots|
    requires forall i :: 0 <= i < |slots| ==>
               && slots'[i].thread == slots[i].thread
               && (slots'[i].valid <==> slots[i].valid && !Released(slots, addr, n, i))
    ensures Base(q, cur, threads', slots')
  {
    hide Queue, Released;
    forall t | 0 <= t < |threads| ensures threads'[t].state != Unused <==> threads[t].state != Unused {
      if Freed(slots, addr, n, |slots|, t) {
        var i :| 0 <= i < |slots| && Released(slots, addr, n, i) && slots[i].thread == t;
        ReleasedValid(slots, addr, n, i);
      }
    }
    forall t | 0 <= t < |threads| && threads'[t].state == Sleeping ensures threads'[t].chan != 0 || HasSlot(slots', t) {
      if HasSlot(slots, t) {
        var i :| 0 <= i < |slots| && slots[i].valid && slots[i].thread == t;
        assert slots'[i].thread == t && slots'[i].valid;
      }
    }
  }

  lemma ReleasedValid(slots: seq<Slot>, addr: int, n: int, i: int)
    requires 0 <= i < |slots| && Released(slots, addr, n, i)
    ensures slots[i].valid
  {
  }

  lemma NoSlotAfter(slots: seq<Slot>, slots': seq<Slot>, t: int)
    requires !HasSlot(slots, t) && |slots'| == |slots|
    requires forall i :: 0 <= i < |slots| ==>
               slots'[i].thread == slots[i].thread && (slots'[i].valid ==> slots[i].valid)
    ensures !HasSlot(slots', t)
  {
  }

  lemma InAll(q: Lists, cur: int, threads: seq<Thread>, t: int)
    requires Placed(q, cur, threads) && t in All(q, cur)
    ensures InUse(threads, t)
  {
    assert Places(q, cur)[t] >= 1;
  }

  /** n turns have been added to the record. */
  ghost predicate Recorded(past: seq<Lists>, events: seq<Event>, past': seq<Lists>, events': seq<Event>, n: nat) {
    && past <= past' && events <= events' && |past'| == |past| + n && |events'| == |events| + n
    && forall k :: |events| <= k < |events'| ==> events'[k].Turn?
  }

  class Kernel {
    var q: Lists
    var cur: int
    var threads: seq<Thread>
    var slots: seq<Slot>
    ghost var past: seq<Lists>
    ghost var events: seq<Event>

    /** What has happened to the lists since the start. */
    ghost predicate Logged()
      reads this
    {
      Run(past, events) && past[|events|] == q
    }

    ghost predicate Held()
      reads this
    {
      Base(q, cur, threads, slots) && Logged()
    }

    /** While the current thread runs it sleeps on nothing and holds no futex slot. */
    ghost predicate Valid()
      reads this
    {
      && Held()
      && (cur != -1 ==>
            InUse(threads, cur) && threads[cur].state == Running && threads[cur].chan == 0 && !HasSlot(slots, cur))
    }

    /** n threads, none in use. */
    constructor (n: nat)
      ensures Valid() && cur == -1 && |threads| == n && Queue(q) == []
      ensures forall t :: 0 <= t < n ==> threads[t] == Thread(Unused, 0, 0)
      ensures forall i :: 0 <= i < |slots| ==> !slots[i].valid
    {
      q, cur := Lists([], [], 0), -1;
      threads := seq(n, t => Thread(Unused, 0, 0));
      slots := seq(FUTEX_COUNT, i => Slot(0, 0, false));
      past, events := [Lists([], [], 0)], [];
    }

    /** One look at the lists: the thread in hand goes to the end, the first of the queue is taken. */
    method Turn(thread: int) returns (first: int)
      requires PointOk(q) && Logged() && (thread != -1 || Queue(q) != [])
      modifies this`q, this`past, this`events
      ensures PointOk(q) && [first] + Queue(q) == Queue(old(q)) + if thread == -1 then [] else [thread]
      ensures Logged() && past == old(past) + [q]
      ensures events == old(events) + [Event.Turn(if thread == -1 then [] else [thread])]
    {
      ghost var q0 := q;
      if thread != -1 {
        QueuePutBack(q, thread);
        q := PutBack(q, thread);
      }
      QueueChangeOver(q);
      q := ChangeOver(q);
      QueueTakeFirst(q);
      first := ListAt(q, q.point)[0];
      q := TakeFirst(q);
      Log(Event.Turn(if thread == -1 then [] else [thread]), q0);
    }

    /** One more event in the record. */
    ghost method Log(e: Event, q0: Lists)
      requires Run(past, events) && past[|events|] == q0 && PointOk(q) && Happens(q0, e, q)
      modifies this`past, this`events
      ensures Logged() && past == old(past) + [q] && events == old(events) + [e]
    {
      hide Happens;
      past, events := past + [q], events + [e];
    }

    /** No starvation in any run of the kernel: since any moment at which x was at place p of the queue, unless x was
        taken off, there were no more turns than threads before it then and threads forked meanwhile. */
    lemma NobodyStarves(i: int, p: int, x: int)
      requires Logged() && 0 <= i < |past| && 0 <= p < |Queue(past[i])| && Queue(past[i])[p] == x
      requires Waits(past[i..], events[i..], x)
      ensures Turns(events[i..]) <= p + Forks(events[i..])
    {
      hide Queue, Happens, Waits;
      forall k | 0 <= k < |events[i..]| ensures Happens(past[i..][k], events[i..][k], past[i..][k + 1]) {
        assert Happens(past[i + k], events[i + k], past[i + k + 1]);
      }
      ExaminedInTime(past[i..], events[i..], p, x);
    }

    /** yield.  If some thread x becomes eligible, at the latest at look K, the loop ends: with the first thread in
        queue order that is eligible when it is looked at. */
    method Yield(clock: nat -> int, ghost x: int, ghost K: nat) returns (n: nat)
      requires Held() && Monotone(clock) && x in All(q, cur) && InUse(threads, x)
      requires threads[x].awake <= clock(K) && Prepared(threads, cur)[x].state == Runnable
      modifies this
      ensures Valid() && |threads| == |old(threads)| && n >= 1
      ensures var all := All(old(q), old(cur)); Rotate(all, n - 1) == [cur] + Queue(q)
      ensures Passed(Prepared(old(threads), old(cur)), All(old(q), old(cur)), clock, n)
      ensures InUse(old(threads), cur) && old(threads)[cur].awake <= clock(n)
      ensures old(threads)[cur].state == Runnable || (cur == old(cur) && old(threads)[cur].state == Running)
      ensures forall m :: 1 <= m < n ==>
                var u := Look(All(old(q), old(cur)), m);
                && InUse(old(threads), u)
                && (Prepared(old(threads), old(cur))[u].state != Runnable || old(threads)[u].awake > clock(m))
      ensures threads == Prepared(old(threads), old(cur))[cur := Thread(Running, 0, 0)]
      ensures slots == Cleared(old(slots), cur)
      ensures Recorded(old(past), old(events), past, events, n)
    {
      hide Queue, SlotsOk, Accounted, Placed, Rotate, Run, Recorded;
      ghost var q0, cur0 := q, cur;
      PreparedBase(q, cur, threads, slots);
      CurrentInUse(q, cur, threads);
      if cur != -1 && threads[cur].state == Running {
        threads := threads[cur := threads[cur].(state := Runnable)];
      }
      var thread;
      thread, n := Choose(clock, x, K);
      PassedThreads(q0, cur0, old(threads), clock, n);
      RotateSame(All(q0, cur0), n - 1);
      ChosenBase(q0, cur0, q, thread, threads, slots);
      FutexClear(thread);
      threads := threads[thread := Thread(Running, 0, 0)];
      cur := thread;
    }

    /** The loop of yield. */
    method Choose(clock: nat -> int, ghost x: int, ghost K: nat) returns (thread: int, n: nat)
      requires Placed(q, cur, threads) && Monotone(clock) && x in All(q, cur) && EligibleAt(threads, x, clock(K))
      requires Logged()
      modifies this`q, this`past, this`events
      ensures PointOk(q) && n >= 1 && Rotate(All(old(q), cur), n - 1) == [thread] + Queue(q)
      ensures Passed(threads, All(old(q), cur), clock, n) && EligibleAt(threads, thread, clock(n))
      ensures Logged() && Recorded(old(past), old(events), past, events, n)
    {
      hide Queue, Placed, Rotate, Run;
      ghost var all, q0 := All(q, cur), q;
      PlacedPoint(q, cur, threads);
      ghost var pos :| 0 <= pos < |all| && all[pos] == x;
      var count := 0;
      thread := cur;
      n := 0;
      CurrentInUse(q, cur, threads);
      while count == 0 || thread == -1 || threads[thread].state != Runnable || threads[thread].awake > clock(n)
        invariant PointOk(q) && 0 <= pos < |all| && (thread == -1 || InUse(threads, thread))
        invariant n == 0 ==> count == 0 && q == q0 && thread == cur && all[pos] == x
        invariant n > 0 ==>
                    && count == 1 && InUse(threads, thread) && Rotate(all, n - 1) == [thread] + Queue(q)
                    && Rotate(all, n - 1)[pos] == x
        invariant Passed(threads, all, clock, n)
        invariant Logged() && Recorded(old(past), old(events), past, events, n)
        decreases if n < K then K - n else 0, n == 0, pos
      {
        NextLook(all, n, thread, Queue(q), pos);
        LookInUse(q0, cur, threads, n);
        assert n >= K && n > 0 ==> pos != 0 by { assert clock(K) <= clock(if n < K then K else n); }
        thread := Turn(thread);
        count := 1;
        if n > 0 {
          pos := if pos == 0 then |all| - 1 else pos - 1;
        }
        n := n + 1;
      }
    }

    /** fork, once thread t is set up: it is runnable and at the end of list 0. */
    method Fork(t: int)
      requires Valid() && 0 <= t < |threads| && threads[t].state == Unused
      modifies this`threads, this`q, this`past, this`events
      ensures Valid() && q == Forked(old(q), t) && threads == old(threads)[t := Thread(Runnable, 0, 0)]
      ensures past == old(past) + [q] && events == old(events) + [Event.Fork(t)]
    {
      hide Queue, Placed, HasSlot, Run;
      ghost var q0 := q;
      PlacedPoint(q, cur, threads);
      ForkPlaced(q, cur, threads, t);
      threads := threads[t := Thread(Runnable, 0, 0)];
      q := Forked(q, t);
      Log(Event.Fork(t), q0);
    }

    /** threadFree and threadDestroy of the current thread. */
    method Exit()
      requires Valid() && cur != -1
      modifies this`threads, this`cur
      ensures Valid() && cur == -1 && threads == old(threads)[old(cur) := old(threads)[old(cur)].(state := Unused)]
    {
      hide Queue, Placed;
      ExitPlaced(q, cur, threads);
      assert forall i :: 0 <= i < |slots| && slots[i].valid ==> slots[i].thread != cur;
      threads := threads[cur := threads[cur].(state := Unused)];
      cur := -1;
    }

    /** sleep, up to giving up the hart. */
    method Sleep(chan: int)
      requires Valid() && cur != -1 && chan != 0
      modifies this`threads
      ensures Held() && threads == old(threads)[cur := Thread(Sleeping, chan, old(threads)[cur].awake)]
    {
      hide Queue;
      threads := threads[cur := threads[cur].(chan := chan, state := Sleeping)];
    }

    /** wakeup: every thread that sleeps on the channel. */
    method Wakeup(chan: int)
      requires Held() && chan != 0
      modifies this`threads
      ensures Held() && |threads| == |old(threads)|
      ensures forall t :: 0 <= t < |threads| ==>
                threads[t] == WokenOn(old(threads)[t], chan)
      ensures old(Valid()) ==> Valid()
    {
      hide Queue;
      var t := 0;
      while t < |threads|
        invariant 0 <= t <= |threads| == |old(threads)|
        invariant forall u :: 0 <= u < t ==>
                    threads[u] == WokenOn(old(threads)[u], chan)
        invariant forall u :: t <= u < |threads| ==> threads[u] == old(threads)[u]
      {
        if threads[t].state == Sleeping && threads[t].chan == chan {
          threads := threads[t := threads[t].(state := Runnable)];
        }
        t := t + 1;
      }
    }

    /** futexWait, up to the yield: the current thread takes the first free slot; without a time limit it sleeps. */
    method FutexWait(addr: int, limit: int) returns (ok: bool, i: int)
      requires Valid() && cur != -1
      modifies this`slots, this`threads
      ensures Held() && ok == exists j :: 0 <= j < |slots| && !old(slots)[j].valid
      ensures !ok ==> slots == old(slots) && threads == old(threads)
      ensures ok ==>
                && 0 <= i < |slots| && !old(slots)[i].valid && (forall j :: 0 <= j < i ==> old(slots)[j].valid)
                && slots == old(slots)[i := Slot(addr, cur, true)]
                && threads == old(threads)[cur := if limit >= 0 then old(threads)[cur].(awake := limit)
                                                  else old(threads)[cur].(state := Sleeping)]
    {
      hide Queue;
      i := 0;
      while i < |slots|
        invariant 0 <= i <= |slots| && unchanged(this) && forall j :: 0 <= j < i ==> slots[j].valid
      {
        if !slots[i].valid {
          assert forall j :: 0 <= j < |slots| && slots[j].valid ==> slots[j].thread != cur;
          Park(i, addr, limit);
          return true, i;
        }
        i := i + 1;
      }
      ok := false;
    }

    method Park(i: int, addr: int, limit: int)
      requires Valid() && cur != -1 && 0 <= i < |slots| && !slots[i].valid
      modifies this`slots, this`threads
      ensures Held() && slots == old(slots)[i := Slot(addr, cur, true)]
      ensures threads == old(threads)[cur := if limit >= 0 then old(threads)[cur].(awake := limit)
                                             else old(threads)[cur].(state := Sleeping)]
    {
      hide Queue;
      ghost var slots0 := slots;
      slots := slots[i := Slot(addr, cur, true)];
      threads := threads[cur := if limit >= 0 then threads[cur].(awake := limit) else threads[cur].(state := Sleeping)];
      assert slots[i].valid && slots[i].thread == cur;
      forall t | 0 <= t < |threads| && threads[t].state == Sleeping && t != cur
        ensures threads[t].chan != 0 || HasSlot(slots, t)
      {
        if HasSlot(slots0, t) {
          var j :| 0 <= j < |slots0| && slots0[j].valid && slots0[j].thread == t;
          assert slots[j] == slots0[j];
        }
      }
    }

    /** The first loop of futexWake and futexRequeue. */
    method Release(addr: int, n: int)
      requires |slots| == FUTEX_COUNT && forall i :: 0 <= i < |slots| && slots[i].valid ==>
                 0 <= slots[i].thread < |threads|
      modifies this`slots, this`threads
      ensures WokenSlots(old(slots), slots, addr, n)
      ensures WokenThreads(old(slots), old(threads), threads, addr, n, |old(slots)|)
    {
      hide Count;
      ghost var s0, th0 := slots, threads;
      var i, left := 0, n;
      NoCount(s0, addr);
      while i < FUTEX_COUNT && left != 0
        invariant 0 <= i <= |slots| == |s0| && left == n - Count(s0, addr, i) && (n >= 0 ==> left >= 0)
        invariant forall j :: 0 <= j < i ==>
                    slots[j] == if Released(s0, addr, n, j) then s0[j].(valid := false) else s0[j]
        invariant forall j :: i <= j < |slots| ==> slots[j] == s0[j]
        invariant WokenThreads(s0, th0, threads, addr, n, i)
      {
        NextCount(s0, addr, i);
        NextFreed(s0, th0, threads, addr, n, i);
        if slots[i].valid && slots[i].addr == addr {
          threads := threads[slots[i].thread := threads[slots[i].thread].(state := Runnable)];
          slots := slots[i := slots[i].(valid := false)];
          left := left - 1;
        }
        i := i + 1;
      }
      RestStays(s0, th0, threads, addr, n, i);
    }

    /** futexWake */
    method FutexWake(addr: int, n: int)
      requires Valid()
      modifies this`slots, this`threads
      ensures Valid() && WokenSlots(old(slots), slots, addr, n)
      ensures WokenThreads(old(slots), old(threads), threads, addr, n, |old(slots)|)
      ensures Waiters(slots, addr) == Waiters(old(slots), addr) - ToRelease(n, Waiters(old(slots), addr))
    {
      hide Queue, Released, Placed, Accounted;
      ghost var s0, th0 := slots, threads;
      Release(addr, n);
      AllReleasedValid(s0, addr, n);
      WokenBase(q, cur, th0, threads, s0, slots, addr, n);
      WokenCount(s0, slots, addr, n, addr, |s0|);
      if cur != -1 {
        NoSlotAfter(s0, slots, cur);
        CurrentStays(s0, th0, threads, addr, n, cur);
      }
    }

    /** futexRequeue */
    method FutexRequeue(addr: int, n: int, to: int)
      requires Valid()
      modifies this`slots, this`threads
      ensures Valid() && RequeuedSlots(old(slots), slots, addr, n, to)
      ensures WokenThreads(old(slots), old(threads), threads, addr, n, |old(slots)|)
      ensures to != addr ==>
                && Waiters(slots, addr) == 0
                && var left := Waiters(old(slots), addr) - ToRelease(n, Waiters(old(slots), addr));
                   Waiters(slots, to) == Waiters(old(slots), to) + left
    {
      hide Queue, Released, Placed, Accounted;
      ghost var s0, th0 := slots, threads;
      Release(addr, n);
      ghost var s1, th1 := slots, threads;
      AllReleasedValid(s0, addr, n);
      var i := 0;
      while i < FUTEX_COUNT
        invariant 0 <= i <= |slots| == |s1| && threads == th1
        invariant forall j :: 0 <= j < i ==>
                    slots[j] == if s1[j].valid && s1[j].addr == addr then s1[j].(addr := to) else s1[j]
        invariant forall j :: i <= j < |slots| ==> slots[j] == s1[j]
      {
        if slots[i].valid && slots[i].addr == addr {
          slots := slots[i := slots[i].(addr := to)];
        }
        i := i + 1;
      }
      WokenBase(q, cur, th0, threads, s0, slots, addr, n);
      if to != addr {
        RequeuedCount(s0, slots, addr, n, to, |s0|);
      }
      if cur != -1 {
        NoSlotAfter(s0, slots, cur);
        CurrentStays(s0, th0, threads, addr, n, cur);
      }
    }

    /** futexClear */
    method FutexClear(t: int)
      modifies this`slots
      ensures slots == Cleared(old(slots), t)
    {
      var i := 0;
      while i < |slots|
        invariant 0 <= i <= |slots| == |old(slots)|
        invariant forall j :: 0 <= j < i ==> slots[j] == Cleared(old(slots), t)[j]
        invariant forall j :: i <= j < |slots| ==> slots[j] == old(slots)[j]
      {
        if slots[i].valid && slots[i].thread == t {
          slots := slots[i := slots[i].(valid := false)];
        }
        i := i + 1;
      }
    }
  }

  lemma PlacedPoint(q: Lists, cur: int, threads: seq<Thread>)
    requires Placed(q, cur, threads)
    ensures PointOk(q)
  {
  }

  /** A look turns the queue by one place; the first look only takes the current thread in. */
  lemma NextLook(all: seq<int>, n: nat, thread: int, queue: seq<int>, pos: int)
    requires 0 <= pos < |all|
    requires n == 0 ==> all == queue + if thread == -1 then [] else [thread]
    requires n > 0 ==> Rotate(all, n - 1) == [thread] + queue && thread != -1
    ensures thread != -1 || queue != []
    ensures Rotate(all, n) == queue + if thread == -1 then [] else [thread]
    ensures n == 0 ==> Rotate(all, n)[pos] == all[pos]
    ensures n > 0 ==> Rotate(all, n)[if pos == 0 then |all| - 1 else pos - 1] == Rotate(all, n - 1)[pos]
  {
  }

  lemma CurrentInUse(q: Lists, cur: int, threads: seq<Thread>)
    requires Placed(q, cur, threads)
    ensures cur != -1 ==> InUse(threads, cur)
  {
    hide Queue;
    if cur != -1 {
      assert All(q, cur)[|All(q, cur)| - 1] == cur;
      InAll(q, cur, threads, cur);
    }
  }

  /** The threads that were looked at and passed. */
  lemma PassedThreads(q: Lists, cur: int, threads: seq<Thread>, clock: nat -> int, n: nat)
    requires Placed(q, cur, threads) && All(q, cur) != [] && Passed(Prepared(threads, cur), All(q, cur), clock, n)
    ensures forall m :: 1 <= m < n ==>
              var u := Look(All(q, cur), m);
              InUse(threads, u) && (Prepared(threads, cur)[u].state != Runnable || threads[u].awake > clock(m))
  {
    hide Queue, Placed, Rotate;
    forall m | 1 <= m < n
      ensures var u := Look(All(q, cur), m);
              InUse(threads, u) && (Prepared(threads, cur)[u].state != Runnable || threads[u].awake > clock(m))
    {
      LookInUse(q, cur, threads, m - 1);
      assert !EligibleAt(Prepared(threads, cur), Look(All(q, cur), m), clock(m));
    }
  }

  lemma LookInUse(q: Lists, cur: int, threads: seq<Thread>, n: nat)
    requires Placed(q, cur, threads) && All(q, cur) != []
    ensures Rotate(All(q, cur), n) != [] && InUse(threads, Rotate(All(q, cur), n)[0])
  {
    hide Queue;
    var all := All(q, cur);
    RotateSame(all, n);
    var t := Rotate(all, n)[0];
    assert t in multiset(Rotate(all, n));
    InAll(q, cur, threads, t);
  }

  lemma Inserted(a: seq<int>, k: int, t: int)
    requires 0 <= k <= |a|
    ensures multiset(a[..k] + [t] + a[k..]) == multiset(a) + multiset{t}
  {
    assert a == a[..k] + a[k..];
  }

  lemma PlacesForked(q: Lists, cur: int, t: int)
    requires PointOk(q)
    ensures Places(Forked(q, t), cur) == Places(q, cur) + multiset{t}
  {
    hide Queue;
    QueueForked(q, t);
    var a, b := Queue(q), Queue(Forked(q, t));
    var k :| 0 <= k <= |a| && b == a[..k] + [t] + a[k..];
    Inserted(a, k, t);
    var c := if cur == -1 then [] else [cur];
    assert Places(Forked(q, t), cur) == multiset(b) + multiset(c);
  }

  lemma ForkPlaced(q: Lists, cur: int, threads: seq<Thread>, t: int)
    requires Placed(q, cur, threads) && 0 <= t < |threads| && threads[t].state == Unused
    ensures Placed(Forked(q, t), cur, threads[t := Thread(Runnable, 0, 0)])
  {
    hide Places;
    PlacesForked(q, cur, t);
  }

  lemma PlacesExit(q: Lists, cur: int)
    requires cur != -1
    ensures Places(q, cur) == Places(q, -1) + multiset{cur}
  {
    hide Queue;
    assert All(q, -1) == Queue(q);
  }

  lemma ExitPlaced(q: Lists, cur: int, threads: seq<Thread>)
    requires Placed(q, cur, threads) && 0 <= cur < |threads|
    ensures Placed(q, -1, threads[cur := threads[cur].(state := Unused)])
  {
    hide Places;
    PlacesExit(q, cur);
    var th := threads[cur := threads[cur].(state := Unused)];
    forall t ensures Places(q, -1)[t] == if InUse(th, t) then 1 else 0 {
      assert Places(q, cur)[t] == if InUse(threads, t) then 1 else 0;
    }
  }

  lemma NoCount(slots: seq<Slot>, addr: int)
    ensures Count(slots, addr, 0) == 0
  {
  }

  lemma NextCount(slots: seq<Slot>, addr: int, i: nat)
    requires i < |slots|
    ensures Count(slots, addr, i + 1) == Count(slots, addr, i) + if WaitsOn(slots[i], addr) then 1 else 0
  {
  }

  lemma NextFreed(slots: seq<Slot>, threads: seq<Thread>, th: seq<Thread>, addr: int, n: int, i: nat)
    requires i < |slots| && WokenThreads(slots, threads, th, addr, n, i)
    requires slots[i].valid ==> 0 <= slots[i].thread < |threads|
    ensures var u := slots[i].thread;
            WokenThreads(slots, threads, if Released(slots, addr, n, i) then th[u := th[u].(state := Runnable)] else th,
                         addr, n, i + 1)
  {
    hide Count;
    forall t
      ensures Freed(slots, addr, n, i + 1, t) <==>
              Freed(slots, addr, n, i, t) || (Released(slots, addr, n, i) && slots[i].thread == t)
    {
    }
  }

  /** Once the count is used up, the slots behind are not released. */
  lemma RestStays(slots: seq<Slot>, threads: seq<Thread>, th: seq<Thread>, addr: int, n: int, i: nat)
    requires i <= |slots| && WokenThreads(slots, threads, th, addr, n, i)
    requires i == |slots| || n == Count(slots, addr, i)
    ensures forall j :: i <= j < |slots| ==> !Released(slots, addr, n, j)
    ensures WokenThreads(slots, threads, th, addr, n, |slots|)
  {
    hide Count;
    forall j | i <= j < |slots| ensures !Released(slots, addr, n, j) {
      CountMonotone(slots, addr, i, j);
    }
    forall t ensures Freed(slots, addr, n, i, t) <==> Freed(slots, addr, n, |slots|, t) {
    }
  }

  lemma AllReleasedValid(slots: seq<Slot>, addr: int, n: int)
    ensures forall i :: 0 <= i < |slots| && Released(slots, addr, n, i) ==> slots[i].valid && slots[i].addr == addr
  {
  }

  lemma CurrentStays(slots: seq<Slot>, threads: seq<Thread>, threads': seq<Thread>, addr: int, n: int, t: int)
    requires WokenThreads(slots, threads, threads', addr, n, |slots|) && !HasSlot(slots, t) && 0 <= t < |threads|
    ensures threads'[t] == threads[t]
  {
    AllReleasedValid(slots, addr, n);
  }
}
