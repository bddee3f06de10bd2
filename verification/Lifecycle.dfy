/**
 Process and thread slots, process ids and zombies (kernel/yield/Process.c,
 kernel/yield/Thread.c) as values.
 */
module Lifecycle {
  import opened Sequences

  const SLOTS: nat := 1024
  const ID_STEP: nat := 2048            // 1 << (1 + LOG_PROCESS_NUM)
  const ID_LIMIT: nat := 0x1_0000_0000
  const ID_ROUNDS: nat := 0x20_0000     // ID_LIMIT / ID_STEP

  // ---------- process ids ----------

  /** generateProcessId: the n-th id, for slot p. */
  function IdOf(n: nat, p: nat): nat { (n * ID_STEP + p) % ID_LIMIT }

  lemma IdValue(n: nat, p: nat)
    requires p < SLOTS
    ensures IdOf(n, p) == n % ID_ROUNDS * ID_STEP + p
  {
    var a, b := n / ID_ROUNDS, n % ID_ROUNDS;
    assert n * ID_STEP + p == a * ID_LIMIT + (b * ID_STEP + p);
    assert b * ID_STEP + p < ID_LIMIT;
  }

  /** An id names its slot; two ids are the same exactly when the slots are and the counter has come round between
      them. */
  lemma IdsEqual(n: nat, p: nat, m: nat, q: nat)
    requires p < SLOTS && q < SLOTS
    ensures IdOf(n, p) % SLOTS == p
    ensures IdOf(n, p) == IdOf(m, q) <==> p == q && n % ID_ROUNDS == m % ID_ROUNDS
    ensures IdOf(n, p) == 0 <==> p == 0 && n % ID_ROUNDS == 0
  {
    IdValue(n, p);
    IdValue(m, q);
    assert n % ID_ROUNDS * ID_STEP == n % ID_ROUNDS * 2 * SLOTS;
  }

  // ---------- a free and a used list ----------

  /** Every slot is on exactly one of the two lists, once; the used list has those in use. */
  ghost predicate Partition(free: seq<int>, used: seq<int>, inUse: seq<bool>) {
    && Distinct(free) && Distinct(used)
    && (forall x :: x in free <==> 0 <= x < |inUse| && !inUse[x])
    && (forall x :: x in used <==> 0 <= x < |inUse| && inUse[x])
  }

  lemma TakeSlot(free: seq<int>, used: seq<int>, inUse: seq<bool>)
    requires Partition(free, used, inUse) && free != []
    ensures 0 <= free[0] < |inUse| && !inUse[free[0]] && Partition(free[1..], [free[0]] + used, inUse[free[0] := true])
  {
    var x := free[0];
    assert x in free;
    assert x !in free[1..];
    forall y ensures y in free[1..] <==> y in free && y != x {
      if y in free && y != x {
        var i :| 0 <= i < |free| && free[i] == y;
        assert free[1..][i - 1] == y;
      }
    }
  }

  function Index(l: seq<int>, x: int): (i: int)
    requires x in l
    ensures 0 <= i < |l| && l[i] == x
  {
    if l[0] == x then 0 else 1 + Index(l[1..], x)
  }

  lemma GiveSlot(free: seq<int>, used: seq<int>, inUse: seq<bool>, i: int)
    requires Partition(free, used, inUse) && 0 <= i < |used|
    ensures 0 <= used[i] < |inUse| && Partition([used[i]] + free, Without(used, i), inUse[used[i] := false])
  {
    assert used[i] in used;
    WithoutIs(used, i);
  }

  // ---------- processes ----------

  datatype State = Unused | Alive | Zombie
  datatype Proc = Proc(state: State, pid: nat, parent: nat, threads: nat, ret: int)

  /** A thread asleep in wait for one child, or for any with target -1. */
  datatype Wait = Awake | WaitsFor(target: int)
  datatype Thread = Thread(used: bool, proc: int, wait: Wait, ret: int)

  function UsedProcs(procs: seq<Proc>): (r: seq<bool>)
    ensures |r| == |procs| && forall p :: 0 <= p < |r| ==> r[p] == (procs[p].state != Unused)
  {
    seq(|procs|, p requires 0 <= p < |procs| => procs[p].state != Unused)
  }

  function UsedThreads(threads: seq<Thread>): (r: seq<bool>)
    ensures |r| == |threads| && forall t :: 0 <= t < |r| ==> r[t] == threads[t].used
  {
    seq(|threads|, t requires 0 <= t < |threads| => threads[t].used)
  }

  predicate BelongsTo(threads: seq<Thread>, t: int, p: int) {
    0 <= t < |threads| && threads[t].used && threads[t].proc == p
  }

  ghost function ThreadsOf(threads: seq<Thread>, p: int): set<int> {
    set t | 0 <= t < |threads| && BelongsTo(threads, t, p)
  }

  /** threadCount is the number of live threads; a process is alive exactly while it has one. */
  ghost predicate Counted(procs: seq<Proc>, threads: seq<Thread>) {
    && (forall p :: 0 <= p < |procs| ==>
          procs[p].threads == |ThreadsOf(threads, p)| && (procs[p].state == Alive <==> procs[p].threads > 0))
    && (forall t :: 0 <= t < |threads| && threads[t].used ==> 0 <= threads[t].proc < |procs|)
  }

  predicate Reapable(child: Proc, parent: nat, target: int) {
    child.state == Zombie && child.parent == parent && (target == -1 || child.pid == target % ID_LIMIT)
  }

  /** Nobody sleeps in wait while a child it waits for is a zombie, in a process whose id is not 0. */
  ghost predicate NobodyStranded(procs: seq<Proc>, threads: seq<Thread>) {
    forall t, c :: 0 <= t < |threads| && 0 <= c < |procs| && Waiting(procs, threads[t]) ==>
      !Reapable(procs[c], procs[threads[t].proc].pid, threads[t].wait.target)
  }

  predicate Waiting(procs: seq<Proc>, th: Thread) {
    th.used && th.wait.WaitsFor? && 0 <= th.proc < |procs| && procs[th.proc].pid > 0
  }

  /** Lives are numbered by the counter of generateProcessId.  `born` gives the slot of each, `life` the last life of
      each slot, and `freed` records the lives processFree has run for. */
  ghost predicate Lives(procs: seq<Proc>, life: seq<nat>, born: map<nat, nat>, freed: multiset<nat>, next: nat) {
    && |procs| == |life| == SLOTS
    && (forall n :: n in born <==> 1 <= n <= next)
    && (forall n :: n in born ==> born[n] < SLOTS && n <= life[born[n]])
    && (forall p :: 0 <= p < SLOTS && life[p] > 0 ==> life[p] in born && born[life[p]] == p)
    && (forall p :: 0 <= p < SLOTS && procs[p].state != Unused ==> life[p] > 0 && procs[p].pid == IdOf(life[p], p))
    && (forall n :: n in freed ==> n in born)
    && (forall n :: n in born ==> freed[n] == if Holds(procs, life, born[n], n) && procs[born[n]].state == Alive then 0
                                              else 1)
  }

  /** Slot p holds the process of life n, alive or as a zombie. */
  predicate Holds(procs: seq<Proc>, life: seq<nat>, p: nat, n: nat) {
    p < |procs| && p < |life| && procs[p].state != Unused && life[p] == n
  }

  /** pid2Process, called by the process in slot `me`: the slot with that id, or -1. */
  function Resolve(procs: seq<Proc>, x: nat, me: int): (p: int)
    requires |procs| == SLOTS
    ensures x != 0 && p != -1 ==> 0 <= p < SLOTS && procs[p].pid == x && procs[p].state != Unused
  {
    var p := x % SLOTS;
    if x == 0 then me else if procs[p].state == Unused || procs[p].pid != x then -1 else p
  }

  /** The id of life n, at any time after it was issued: it resolves to the slot it was issued for, exactly while this
      slot holds that life or one whose number differs by a multiple of 2^21. */
  lemma ResolveIff(procs: seq<Proc>, life: seq<nat>, born: map<nat, nat>, freed: multiset<nat>, next: nat, n: nat,
                   me: int)
    requires Lives(procs, life, born, freed, next) && n in born
    ensures var p, x := born[n], IdOf(n, born[n]);
            && (x == 0 <==> p == 0 && n % ID_ROUNDS == 0)
            && (x != 0 ==>
                  Resolve(procs, x, me) ==
                  if procs[p].state != Unused && life[p] % ID_ROUNDS == n % ID_ROUNDS then p else -1)
  {
    var p := born[n];
    IdsEqual(n, p, life[p], p);
  }

  /** Within 2^21 processes an id resolves exactly while the process it was issued to is alive or a zombie, and to no
      other process. */
  lemma ResolvesToItsLife(procs: seq<Proc>, life: seq<nat>, born: map<nat, nat>, freed: multiset<nat>, next: nat,
                          n: nat, me: int)
    requires Lives(procs, life, born, freed, next) && n in born && next - n < ID_ROUNDS && IdOf(n, born[n]) != 0
    ensures Resolve(procs, IdOf(n, born[n]), me) == if Holds(procs, life, born[n], n) then born[n] else -1
  {
    hide IdOf, Resolve;
    ResolveIff(procs, life, born, freed, next, n, me);
    var m := life[born[n]];
    if m % ID_ROUNDS == n % ID_ROUNDS {
      SameRound(n, m);
    }
  }

  lemma SameRound(n: nat, m: nat)
    requires n <= m < n + ID_ROUNDS && n % ID_ROUNDS == m % ID_ROUNDS
    ensures n == m
  {
    assert m - n == (m / ID_ROUNDS - n / ID_ROUNDS) * ID_ROUNDS;
  }

  /** Afterwards it may be another: 2^21 processes later the same slot gets the same id again. */
  lemma IdComesAgain(n: nat, p: nat)
    requires p < SLOTS
    ensures IdOf(n + ID_ROUNDS, p) == IdOf(n, p)
  {
    IdsEqual(n + ID_ROUNDS, p, n, p);
    assert (n + ID_ROUNDS) % ID_ROUNDS == n % ID_ROUNDS;
  }

  // ---------- threads come and go ----------

  lemma ThreadsAdded(threads: seq<Thread>, t: int, th: Thread, p: int)
    requires 0 <= t < |threads| && !threads[t].used && th.used
    ensures var s, s' := ThreadsOf(threads, p), ThreadsOf(threads[t := th], p);
            s' == (if th.proc == p then s + {t} else s) && t !in s
  {
    var threads' := threads[t := th];
    forall u ensures u in ThreadsOf(threads', p) <==> u in ThreadsOf(threads, p) || (u == t && th.proc == p) {
      assert BelongsTo(threads', u, p) <==> if u == t then th.proc == p else BelongsTo(threads, u, p);
    }
  }

  lemma ThreadsRemoved(threads: seq<Thread>, t: int, p: int)
    requires 0 <= t < |threads| && threads[t].used
    ensures var s, s' := ThreadsOf(threads, p), ThreadsOf(threads[t := threads[t].(used := false)], p);
            s' == s - {t} && (t in s <==> threads[t].proc == p)
  {
    var threads' := threads[t := threads[t].(used := false)];
    forall u ensures u in ThreadsOf(threads', p) <==> u in ThreadsOf(threads, p) && u != t {
      assert BelongsTo(threads', u, p) <==> u != t && BelongsTo(threads, u, p);
    }
  }

  /** Waking threads moves none of them. */
  lemma ThreadsSame(threads: seq<Thread>, threads': seq<Thread>, p: int)
    requires |threads'| == |threads| && forall t :: 0 <= t < |threads| ==>
               threads'[t].used == threads[t].used && threads'[t].proc == threads[t].proc
    ensures ThreadsOf(threads', p) == ThreadsOf(threads, p)
  {
    forall u ensures u in ThreadsOf(threads', p) <==> u in ThreadsOf(threads, p) {
      assert BelongsTo(threads', u, p) <==> BelongsTo(threads, u, p);
    }
  }

  /** A process that is not alive has no threads. */
  lemma NoThreads(procs: seq<Proc>, threads: seq<Thread>, p: int, t: int)
    requires Counted(procs, threads) && 0 <= p < |procs| && procs[p].state != Alive && 0 <= t < |threads|
    requires threads[t].used
    ensures threads[t].proc != p
  {
    assert BelongsTo(threads, t, p) ==> t in ThreadsOf(threads, p);
  }

  lemma SpawnCounted(procs: seq<Proc>, threads: seq<Thread>, p: int, t: int, x: nat, parent: nat)
    requires Counted(procs, threads) && 0 <= p < |procs| && procs[p].state == Unused && 0 <= t < |threads|
    requires !threads[t].used
    ensures Counted(procs[p := Proc(Alive, x, parent, 1, 0)], threads[t := Thread(true, p, Awake, 0)])
  {
    hide ThreadsOf;
    var procs', threads' := procs[p := Proc(Alive, x, parent, 1, 0)], threads[t := Thread(true, p, Awake, 0)];
    forall q | 0 <= q < |procs| ensures procs'[q].threads == |ThreadsOf(threads', q)| {
      ThreadsAdded(threads, t, Thread(true, p, Awake, 0), q);
    }
  }

  lemma AddCounted(procs: seq<Proc>, threads: seq<Thread>, p: int, t: int)
    requires Counted(procs, threads) && 0 <= p < |procs| && procs[p].state == Alive && 0 <= t < |threads|
    requires !threads[t].used
    ensures Counted(procs[p := procs[p].(threads := procs[p].threads + 1)], threads[t := Thread(true, p, Awake, 0)])
  {
    hide ThreadsOf;
    var procs' := procs[p := procs[p].(threads := procs[p].threads + 1)];
    var threads' := threads[t := Thread(true, p, Awake, 0)];
    forall q | 0 <= q < |procs| ensures procs'[q].threads == |ThreadsOf(threads', q)| {
      ThreadsAdded(threads, t, Thread(true, p, Awake, 0), q);
    }
  }

  /** One thread less; the last one takes the process with it. */
  lemma FreeCounted(procs: seq<Proc>, threads: seq<Thread>, t: int)
    requires Counted(procs, threads) && 0 <= t < |threads| && threads[t].used
    ensures var p := threads[t].proc;
            && 0 <= p < |procs| && procs[p].state == Alive && procs[p].threads > 0
            && var q := procs[p].(threads := procs[p].threads - 1);
               Counted(procs[p := if q.threads == 0 then q.(state := Zombie, ret := threads[t].ret) else q],
                       threads[t := threads[t].(used := false)])
  {
    hide ThreadsOf;
    var p := threads[t].proc;
    ThreadsRemoved(threads, t, p);
    var threads' := threads[t := threads[t].(used := false)];
    forall q | 0 <= q < |procs|
      ensures |ThreadsOf(threads', q)| == if q == p then procs[p].threads - 1 else procs[q].threads
    {
      ThreadsRemoved(threads, t, q);
    }
  }

  // ---------- lives ----------

  lemma SpawnLives(procs: seq<Proc>, life: seq<nat>, born: map<nat, nat>, freed: multiset<nat>, next: nat, p: int,
                   parent: nat)
    requires Lives(procs, life, born, freed, next) && 0 <= p < SLOTS && procs[p].state == Unused
    ensures Lives(procs[p := Proc(Alive, IdOf(next + 1, p), parent, 1, 0)], life[p := next + 1], born[next + 1 := p],
                  freed, next + 1)
  {
    hide IdOf;
  }

  /** processFree runs for a process that is alive: for the first time in its life. */
  lemma ZombieLives(procs: seq<Proc>, life: seq<nat>, born: map<nat, nat>, freed: multiset<nat>, next: nat, p: int,
                    q: Proc)
    requires Lives(procs, life, born, freed, next) && 0 <= p < SLOTS && procs[p].state == Alive
    requires q.state == Zombie && q.pid == procs[p].pid
    ensures freed[life[p]] == 0 && Lives(procs[p := q], life, born, freed + multiset{life[p]}, next)
  {
    hide IdOf;
    assert Holds(procs, life, born[life[p]], life[p]);
  }

  /** Changes that leave ids and states alone, or free a slot for reuse. */
  lemma SameLives(procs: seq<Proc>, life: seq<nat>, born: map<nat, nat>, freed: multiset<nat>, next: nat, p: int,
                  q: Proc)
    requires Lives(procs, life, born, freed, next) && 0 <= p < SLOTS && q.pid == procs[p].pid
    requires q.state == procs[p].state || (q.state == Unused && procs[p].state == Zombie)
    ensures Lives(procs[p := q], life, born, freed, next)
  {
    hide IdOf;
  }

  lemma InSlots(procs: seq<Proc>, life: seq<nat>, born: map<nat, nat>, freed: multiset<nat>, next: nat)
    requires Lives(procs, life, born, freed, next)
    ensures |procs| == |life| == SLOTS
    ensures forall p :: 0 <= p < SLOTS && procs[p].state != Unused ==> procs[p].pid % SLOTS == p
  {
    forall p | 0 <= p < SLOTS && procs[p].state != Unused ensures procs[p].pid % SLOTS == p {
      IdsEqual(life[p], p, life[p], p);
    }
  }

  lemma SpawnStranded(procs: seq<Proc>, threads: seq<Thread>, p: int, t: int, x: nat, parent: nat)
    requires Counted(procs, threads) && NobodyStranded(procs, threads)
    requires 0 <= p < |procs| && procs[p].state == Unused && 0 <= t < |threads| && !threads[t].used
    ensures NobodyStranded(procs[p := Proc(Alive, x, parent, 1, 0)], threads[t := Thread(true, p, Awake, 0)])
  {
    hide Counted;
    forall u | 0 <= u < |threads| && threads[u].used ensures threads[u].proc != p {
      NoThreads(procs, threads, p, u);
    }
  }

  lemma WokenCounted(procs: seq<Proc>, threads: seq<Thread>, threads': seq<Thread>)
    requires Counted(procs, threads) && |threads'| == |threads|
    requires forall t :: 0 <= t < |threads| ==>
               threads'[t].used == threads[t].used && threads'[t].proc == threads[t].proc
    ensures Counted(procs, threads')
  {
    hide ThreadsOf;
    forall p | 0 <= p < |procs| ensures ThreadsOf(threads', p) == ThreadsOf(threads, p) {
      ThreadsSame(threads, threads', p);
    }
  }

  /** When p becomes a zombie, the waiters of its parent are awake: the parent is found if it has any. */
  lemma ZombieStranded(procs: seq<Proc>, threads: seq<Thread>, t: int, p: int, q: Proc, life: seq<nat>,
                       born: map<nat, nat>, freed: multiset<nat>, next: nat, threads': seq<Thread>, parent: int)
    requires 0 <= p < |procs| && |procs| == SLOTS && 0 <= t < |threads|
    requires Counted(procs, threads) && NobodyStranded(procs, threads) && Lives(procs[p := q], life, born, freed, next)
    requires q.pid == procs[p].pid && q.parent == procs[p].parent
    requires procs[p].state == Alive && q.state == Zombie && |threads'| == |threads|
    requires parent == if q.parent > 0 then Resolve(procs[p := q], q.parent, p) else -1
    requires forall u :: 0 <= u < |threads| && threads'[u].used ==>
               && threads[u].used && threads'[u].proc == threads[u].proc
               && threads'[u].wait == (if threads[u].wait.WaitsFor? && threads[u].proc == parent then Awake
                                       else threads[u].wait)
    ensures NobodyStranded(procs[p := q], threads')
  {
    hide ThreadsOf;
    InSlots(procs[p := q], life, born, freed, next);
    var procs' := procs[p := q];
    forall u, c | 0 <= u < |threads| && 0 <= c < |procs| && Waiting(procs', threads'[u])
      ensures !Reapable(procs'[c], procs'[threads'[u].proc].pid, threads'[u].wait.target)
    {
      var r := threads[u].proc;
      assert !Reapable(procs[c], procs[r].pid, threads[u].wait.target);
      RunningProc(procs, threads, u);
      assert procs'[r].state != Unused && procs'[r].pid % SLOTS == r;
    }
  }

  lemma RunningProc(procs: seq<Proc>, threads: seq<Thread>, t: int)
    requires Counted(procs, threads) && 0 <= t < |threads| && threads[t].used
    ensures 0 <= threads[t].proc < |procs| && procs[threads[t].proc].state == Alive
  {
    assert BelongsTo(threads, t, threads[t].proc);
    assert t in ThreadsOf(threads, threads[t].proc);
  }

  lemma ReapCounted(procs: seq<Proc>, threads: seq<Thread>, c: int)
    requires Counted(procs, threads) && 0 <= c < |procs| && procs[c].state == Zombie
    ensures Counted(procs[c := procs[c].(state := Unused)], threads)
  {
    hide ThreadsOf;
  }

  lemma ReapStranded(procs: seq<Proc>, threads: seq<Thread>, c: int)
    requires NobodyStranded(procs, threads) && 0 <= c < |procs|
    ensures NobodyStranded(procs[c := procs[c].(state := Unused)], threads)
  {
  }

  /** A thread that has found no zombie may sleep. */
  lemma SleepStranded(procs: seq<Proc>, threads: seq<Thread>, t: int, target: int)
    requires NobodyStranded(procs, threads) && 0 <= t < |threads| && 0 <= threads[t].proc < |procs|
    requires forall c :: 0 <= c < |procs| ==> !Reapable(procs[c], procs[threads[t].proc].pid, target)
    ensures NobodyStranded(procs, threads[t := threads[t].(wait := WaitsFor(target))])
  {
  }
}
