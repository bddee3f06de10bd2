/**
 Process and thread allocation, thread exit, processFree's hand-over to the parent, and
 wait (kernel/yield/Process.c, kernel/yield/Thread.c).  A result `ok == false` stands
 for panic().
 */
module Processes {
  import opened Sequences
  import opened Lifecycle

  /** What one pass of wait comes to. */
  datatype WaitResult = Reaped(pid: nat, ret: int) | Refused | NoChild | Sleeps

  /** The threads after wakeup on process p's channel. */
  function Woken(threads: seq<Thread>, p: int): (r: seq<Thread>)
    ensures |r| == |threads| && forall t :: 0 <= t < |r| ==>
              r[t] == if threads[t].wait.WaitsFor? && threads[t].proc == p then threads[t].(wait := Awake)
                      else threads[t]
  {
    seq(|threads|, t requires 0 <= t < |threads| =>
      if threads[t].wait.WaitsFor? && threads[t].proc == p then threads[t].(wait := Awake) else threads[t])
  }

  /** A process with one thread less; without any it is a zombie with the thread's return value. */
  function Lessened(q: Proc, ret: int): Proc {
    if q.threads == 1 then q.(threads := 0, state := Zombie, ret := ret)
    else if q.threads > 1 then q.(threads := q.threads - 1)
    else q
  }

  /** The threads after zombie p has told its parent: the waiters of the parent, if it is still there, are awake. */
  function Told(procs: seq<Proc>, threads: seq<Thread>, p: int): seq<Thread>
    requires 0 <= p < |procs| == SLOTS
  {
    var parent := if procs[p].parent > 0 then Resolve(procs, procs[p].parent, p) else -1;
    if parent == -1 then threads else Woken(threads, parent)
  }

  /** Some child that is asked for is a zombie. */
  ghost predicate AnyReapable(procs: seq<Proc>, me: nat, target: int) {
    exists d :: 0 <= d < |procs| && Reapable(procs[d], me, target)
  }

  ghost predicate HasChild(procs: seq<Proc>, me: nat) {
    exists d :: 0 <= d < |procs| && procs[d].state != Unused && procs[d].parent == me
  }

  /** c is the first of them in the order of the used list. */
  ghost predicate FirstReapable(procs: seq<Proc>, used: seq<int>, me: nat, target: int, c: int) {
    && 0 <= c < |procs| && Reapable(procs[c], me, target)
    && exists i :: 0 <= i < |used| && used[i] == c && NoneBefore(procs, used, me, target, i)
  }

  ghost predicate NoneBefore(procs: seq<Proc>, used: seq<int>, me: nat, target: int, i: int) {
    forall k :: 0 <= k < i && k < |used| ==> !(0 <= used[k] < |procs| && Reapable(procs[used[k]], me, target))
  }

  class ProcessTable {
    var procs: seq<Proc>
    var threads: seq<Thread>
    var freeProcs: seq<int>
    var usedProcs: seq<int>
    var freeThreads: seq<int>
    var usedThreads: seq<int>
    var next: nat
    ghost var life: seq<nat>
    ghost var born: map<nat, nat>
    ghost var freed: multiset<nat>

    ghost predicate Valid()
      reads this
    {
      && Partition(freeProcs, usedProcs, UsedProcs(procs)) && Partition(freeThreads, usedThreads, UsedThreads(threads))
      && Counted(procs, threads) && NobodyStranded(procs, threads) && Lives(procs, life, born, freed, next)
    }

    /** processInit and threadInit: all slots free, lowest first. */
    constructor ()
      ensures Valid() && next == 0 && |threads| == |procs| == |freeProcs| == |freeThreads| == SLOTS
      ensures usedProcs == usedThreads == []
      ensures forall p :: 0 <= p < SLOTS ==> procs[p].state == Unused && freeProcs[p] == p
      ensures forall t :: 0 <= t < SLOTS ==> !threads[t].used && freeThreads[t] == t
    {
      procs := seq(SLOTS, p => Proc(Unused, 0, 0, 0, 0));
      threads := seq(SLOTS, t => Thread(false, 0, Awake, 0));
      freeProcs, freeThreads := seq(SLOTS, p => p), seq(SLOTS, t => t);
      usedProcs, usedThreads := [], [];
      next, life, born, freed := 0, seq(SLOTS, p => 0), map[], multiset{};
      new;
      forall x ensures x in freeProcs <==> 0 <= x < SLOTS {
        assert 0 <= x < SLOTS ==> freeProcs[x] == x;
      }
      forall p | 0 <= p < SLOTS ensures ThreadsOf(threads, p) == {} {
      }
    }

    /** The first free thread slot is taken and set up as th. */
    method TakeThread(th: Thread) returns (t: int)
      requires Partition(freeThreads, usedThreads, UsedThreads(threads)) && freeThreads != [] && th.used
      modifies this`freeThreads, this`usedThreads, this`threads
      ensures Partition(freeThreads, usedThreads, UsedThreads(threads)) && t == old(freeThreads)[0]
      ensures 0 <= t < |old(threads)| && !old(threads)[t].used && threads == old(threads)[t := th]
      ensures freeThreads == old(freeThreads)[1..] && usedThreads == [t] + old(usedThreads)
    {
      hide Partition;
      TakeSlot(freeThreads, usedThreads, UsedThreads(threads));
      ghost var used := UsedThreads(threads);
      t := freeThreads[0];
      freeThreads, usedThreads := freeThreads[1..], [t] + usedThreads;
      threads := threads[t := th];
      assert UsedThreads(threads) == used[t := true];
    }

    /** Thread slot t goes back to the head of the free list. */
    method GiveThread(t: int)
      requires Partition(freeThreads, usedThreads, UsedThreads(threads)) && 0 <= t < |threads| && threads[t].used
      modifies this`freeThreads, this`usedThreads, this`threads
      ensures Partition(freeThreads, usedThreads, UsedThreads(threads)) && freeThreads == [t] + old(freeThreads)
      ensures threads == old(threads)[t := old(threads)[t].(used := false)]
    {
      hide Distinct;
      assert t in usedThreads;
      var i := Index(usedThreads, t);
      GiveSlot(freeThreads, usedThreads, UsedThreads(threads), i);
      ghost var used := UsedThreads(threads);
      usedThreads := Without(usedThreads, i);
      freeThreads := [t] + freeThreads;
      threads := threads[t := threads[t].(used := false)];
      assert UsedThreads(threads) == used[t := false];
    }

    /** mainThreadAlloc with processAlloc: a new process with one thread. */
    method Spawn(parent: nat) returns (ok: bool, t: int, p: int)
      requires Valid()
      modifies this
      ensures ok == (old(freeThreads) != [] && old(freeProcs) != [])
      ensures ok ==> p == old(freeProcs)[0] && freeProcs == old(freeProcs)[1..] && usedProcs == [p] + old(usedProcs)
      ensures ok ==>
                && t == old(freeThreads)[0] && freeThreads == old(freeThreads)[1..]
                && usedThreads == [t] + old(usedThreads)
      ensures ok ==>
                && 0 <= p < |old(procs)| && 0 <= t < |old(threads)| && old(procs)[p].state == Unused
                && !old(threads)[t].used
      ensures ok ==> procs == old(procs)[p := Proc(Alive, IdOf(old(next) + 1, p), parent, 1, 0)]
      ensures ok ==> threads == old(threads)[t := Thread(true, p, Awake, 0)]
      ensures ok ==>
                && next == old(next) + 1 && |life| == |old(life)| == SLOTS && life == old(life)[p := next]
                && born == old(born)[next := p]
      ensures ok ==> Valid() && freed == old(freed)
    {
      hide Partition, Counted, NobodyStranded, Lives, IdOf;
      InSlots(procs, life, born, freed, next);
      t, p := -1, -1;
      if freeThreads == [] || freeProcs == [] {
        return false, t, p;
      }
      ghost var threads0 := threads;
      TakeSlot(freeProcs, usedProcs, UsedProcs(procs));
      p := freeProcs[0];
      t := TakeThread(Thread(true, p, Awake, 0));
      var x := IdOf(next + 1, p);
      SpawnCounted(procs, threads0, p, t, x, parent);
      SpawnLives(procs, life, born, freed, next, p, parent);
      SpawnStranded(procs, threads0, p, t, x, parent);
      freeProcs, usedProcs := freeProcs[1..], [p] + usedProcs;
      next := next + 1;
      life, born := life[p := next], born[next := p];
      ghost var used := UsedProcs(procs);
      procs := procs[p := Proc(Alive, x, parent, 1, 0)];
      assert UsedProcs(procs) == used[p := true];
      ok := true;
    }

    /** threadAlloc: another thread of a process that is alive. */
    method AddThread(p: int) returns (ok: bool, t: int)
      requires Valid() && 0 <= p < |procs| && procs[p].state == Alive
      modifies this
      ensures ok == (old(freeThreads) != [])
      ensures ok ==>
                && t == old(freeThreads)[0] && freeThreads == old(freeThreads)[1..]
                && usedThreads == [t] + old(usedThreads)
      ensures ok ==>
                && 0 <= t < |old(threads)| && !old(threads)[t].used
                && threads == old(threads)[t := Thread(true, p, Awake, 0)]
      ensures ok ==> procs == old(procs)[p := old(procs)[p].(threads := old(procs)[p].threads + 1)]
      ensures !ok ==> threads == old(threads) && procs == old(procs)
      ensures Valid() && life == old(life) && born == old(born) && next == old(next) && freed == old(freed)
    {
      hide Partition, Counted, Lives;
      InSlots(procs, life, born, freed, next);
      t := -1;
      ok := freeThreads != [];
      if ok {
        ghost var threads0, used := threads, UsedProcs(procs);
        t := TakeThread(Thread(true, p, Awake, 0));
        AddCounted(procs, threads0, p, t);
        SameLives(procs, life, born, freed, next, p, procs[p].(threads := procs[p].threads + 1));
        procs := procs[p := procs[p].(threads := procs[p].threads + 1)];
        assert UsedProcs(procs) == used;
      }
    }

    /** wakeup on a process's channel. */
    method Wakeup(p: int)
      modifies this`threads
      ensures threads == Woken(old(threads), p)
    {
      var t := 0;
      while t < |threads|
        invariant 0 <= t <= |threads| == |old(threads)|
        invariant forall u :: 0 <= u < t ==> threads[u] == Woken(old(threads), p)[u]
        invariant forall u :: t <= u < |threads| ==> threads[u] == old(threads)[u]
      {
        if threads[t].wait.WaitsFor? && threads[t].proc == p {
          threads := threads[t := threads[t].(wait := Awake)];
        }
        t := t + 1;
      }
    }

    /** threadFree: with its last thread the process becomes a zombie and its parent's waiters wake up. */
    method ThreadFree(t: int) returns (last: bool)
      requires Valid() && 0 <= t < |threads| && threads[t].used
      modifies this
      ensures freeThreads == [t] + old(freeThreads) && freeProcs == old(freeProcs) && usedProcs == old(usedProcs)
      ensures var p := old(threads)[t].proc;
              && 0 <= p < |old(procs)| == |old(life)| == SLOTS && last == (old(procs)[p].threads == 1)
              && procs == old(procs)[p := Lessened(old(procs)[p], old(threads)[t].ret)]
              && threads == (if last then Told(procs, old(threads)[t := old(threads)[t].(used := false)], p)
                             else old(threads)[t := old(threads)[t].(used := false)])
              && freed == (if last then old(freed) + multiset{old(life)[p]} else old(freed))
              && (last ==> old(freed)[old(life)[p]] == 0)
      ensures Valid() && life == old(life) && born == old(born) && next == old(next)
    {
      hide Counted, Partition, Lives, Resolve;
      ghost var procs0, threads0 := procs, threads;
      InSlots(procs, life, born, freed, next);
      FreeCounted(procs, threads, t);
      var p := threads[t].proc;
      ghost var used := UsedProcs(procs);
      var q := procs[p].(threads := procs[p].threads - 1);
      last := q.threads == 0;
      if last {
        q := q.(state := Zombie, ret := threads[t].ret);
        ZombieLives(procs, life, born, freed, next, p, q);
        freed := freed + multiset{life[p]};
      } else {
        SameLives(procs, life, born, freed, next, p, q);
      }
      procs := procs[p := q];
      GiveThread(t);
      assert UsedProcs(procs) == used;
      if last {
        ToldIs(procs0, threads0, t, p, q, life, born, freed, next);
        Tell(p);
      }
    }

    /** The end of processFree: the parent, if it can still be found, is woken. */
    method Tell(p: int)
      requires 0 <= p < |procs| == SLOTS
      modifies this`threads
      ensures threads == Told(procs, old(threads), p)
    {
      if procs[p].parent > 0 {
        var parent := Resolve(procs, procs[p].parent, p);
        if parent != -1 {
          Wakeup(parent);
        }
      }
    }

    /** One pass of wait over the used processes.  The first zombie child that is asked for is reaped: its slot goes
        back, so no other call can find it again. */
    method WaitOnce(t: int, target: int, nohang: bool, copied: bool) returns (r: WaitResult, ghost c: int)
      requires Valid() && 0 <= t < |threads| && threads[t].used && threads[t].wait == Awake
      modifies this
      ensures |threads| == |old(threads)| && |procs| == |old(procs)| && 0 <= old(threads)[t].proc < |old(procs)|
      ensures life == old(life) && born == old(born) && next == old(next) && freed == old(freed)
      ensures var me := old(procs)[old(threads)[t].proc].pid;
              && (r.Reaped? <==> AnyReapable(old(procs), me, target) && copied)
              && (r == Refused <==> if AnyReapable(old(procs), me, target) then !copied else nohang)
              && (r == NoChild <==> !AnyReapable(old(procs), me, target) && !nohang && !HasChild(old(procs), me))
              && (r == Sleeps <==> !AnyReapable(old(procs), me, target) && !nohang && HasChild(old(procs), me))
      ensures r.Reaped? ==>
                && FirstReapable(old(procs), old(usedProcs), old(procs)[old(threads)[t].proc].pid, target, c)
                && r == Reaped(old(procs)[c].pid, old(procs)[c].ret)
                && procs == old(procs)[c := old(procs)[c].(state := Unused)] && freeProcs == [c] + old(freeProcs)
      ensures !r.Reaped? ==> procs == old(procs) && freeProcs == old(freeProcs) && usedProcs == old(usedProcs)
      ensures threads ==
              if r == Sleeps then old(threads)[t := old(threads)[t].(wait := WaitsFor(target))] else old(threads)
      ensures Valid()
    {
      hide Counted, Lives, Distinct, NobodyStranded;
      RunningProc(procs, threads, t);
      c := -1;
      var me := procs[threads[t].proc].pid;
      var have, i := false, 0;
      ghost var child := 0;
      while i < |usedProcs|
        invariant 0 <= i <= |usedProcs| && unchanged(this)
        invariant forall k :: 0 <= k < i ==> !Reapable(procs[Slot(procs, usedProcs[k])], me, target)
        invariant have ==> 0 <= child < |procs| && procs[child].state != Unused && procs[child].parent == me
        invariant !have ==> forall k :: 0 <= k < i ==> procs[Slot(procs, usedProcs[k])].parent != me
      {
        var np := usedProcs[i];
        assert np in usedProcs;
        if procs[np].parent == me {
          have := true;
          child := np;
          if (target == -1 || procs[np].pid == target % ID_LIMIT) && procs[np].state == Zombie {
            c := np;
            if !copied {
              return Refused, c;
            }
            r := Reaped(procs[np].pid, procs[np].ret);
            assert NoneBefore(procs, usedProcs, me, target, i);
            Reap(i);
            return;
          }
        }
        i := i + 1;
      }
      AllSeen(procs, freeProcs, usedProcs);
      if nohang {
        return Refused, c;
      }
      if !have {
        return NoChild, c;
      }
      SleepStranded(procs, threads, t, target);
      ghost var threads0 := threads;
      threads := threads[t := threads[t].(wait := WaitsFor(target))];
      WokenCounted(procs, threads0, threads);
      assert UsedThreads(threads) == UsedThreads(threads0);
      r := Sleeps;
    }

    method Reap(i: int)
      requires Valid() && 0 <= i < |usedProcs| && 0 <= usedProcs[i] < |procs| && procs[usedProcs[i]].state == Zombie
      modifies this`procs, this`freeProcs, this`usedProcs
      ensures var c := old(usedProcs)[i];
              procs == old(procs)[c := old(procs)[c].(state := Unused)] && freeProcs == [c] + old(freeProcs)
      ensures Valid()
    {
      hide Counted, Lives, Distinct, NobodyStranded;
      var c := usedProcs[i];
      GiveSlot(freeProcs, usedProcs, UsedProcs(procs), i);
      ReapCounted(procs, threads, c);
      ReapStranded(procs, threads, c);
      InSlots(procs, life, born, freed, next);
      SameLives(procs, life, born, freed, next, c, procs[c].(state := Unused));
      ghost var used := UsedProcs(procs);
      procs := procs[c := procs[c].(state := Unused)];
      usedProcs := Without(usedProcs, i);
      freeProcs := [c] + freeProcs;
      assert UsedProcs(procs) == used[c := false];
    }
  }

  /** After a zombie has told its parent nobody is stranded. */
  lemma ToldIs(procs: seq<Proc>, threads: seq<Thread>, t: int, p: int, q: Proc, life: seq<nat>, born: map<nat, nat>,
               freed: multiset<nat>, next: nat)
    requires 0 <= p < |procs| == SLOTS && 0 <= t < |threads|
    requires Counted(procs, threads) && NobodyStranded(procs, threads)
    requires Lives(procs[p := q], life, born, freed, next) && q.pid == procs[p].pid && q.parent == procs[p].parent
    requires procs[p].state == Alive && q.state == Zombie
    ensures var th := threads[t := threads[t].(used := false)];
            var th' := Told(procs[p := q], th, p);
            && |th'| == |th| && UsedThreads(th') == UsedThreads(th) && NobodyStranded(procs[p := q], th')
            && (Counted(procs[p := q], th) ==> Counted(procs[p := q], th'))
  {
    hide Counted, NobodyStranded, Lives, Resolve;
    var th := threads[t := threads[t].(used := false)];
    var th' := Told(procs[p := q], th, p);
    assert UsedThreads(th') == UsedThreads(th);
    var parent := if q.parent > 0 then Resolve(procs[p := q], q.parent, p) else -1;
    if parent == -1 {
      RunningAbove(procs, threads);
    }
    ZombieStranded(procs, threads, t, p, q, life, born, freed, next, th', parent);
    if Counted(procs[p := q], th) {
      WokenCounted(procs[p := q], th, th');
    }
  }

  /** Threads in use belong to a process. */
  lemma RunningAbove(procs: seq<Proc>, threads: seq<Thread>)
    requires Counted(procs, threads)
    ensures forall u :: 0 <= u < |threads| && threads[u].used ==> threads[u].proc != -1
  {
  }

  /** Why NobodyStranded excepts processes with id 0: their children tell nobody, and the waiter sleeps on. */
  lemma ZeroIdStrands(procs: seq<Proc>, threads: seq<Thread>, p: int, c: int, t: int)
    requires 0 <= p < |procs| == SLOTS && 0 <= c < |procs| && 0 <= t < |threads| && procs[p].pid == 0
    requires threads[t].used && threads[t].proc == p && threads[t].wait == WaitsFor(-1)
    requires procs[c].state == Zombie && procs[c].parent == procs[p].pid
    ensures var after := Told(procs, threads, c)[t];
            after.wait == WaitsFor(-1) && Reapable(procs[c], procs[p].pid, after.wait.target)
  {
  }

  function Slot(procs: seq<Proc>, p: int): (r: int)
    requires |procs| > 0
    ensures 0 <= r < |procs| && (0 <= p < |procs| ==> r == p)
  {
    if 0 <= p < |procs| then p else 0
  }

  /** A full pass has seen every process in use. */
  lemma AllSeen(procs: seq<Proc>, free: seq<int>, used: seq<int>)
    requires Partition(free, used, UsedProcs(procs)) && |procs| > 0
    ensures forall d :: 0 <= d < |procs| && procs[d].state != Unused ==>
              exists k :: 0 <= k < |used| && Slot(procs, used[k]) == d
  {
    forall d | 0 <= d < |procs| && procs[d].state != Unused
      ensures exists k :: 0 <= k < |used| && Slot(procs, used[k]) == d
    {
      assert d in used;
      var k :| 0 <= k < |used| && used[k] == d;
      assert Slot(procs, used[k]) == d;
    }
  }
}
