/**
 kernel/system/Signal.c and syscallSignalReturn (kernel/trap/Syscall.c): the list
 operations and search loops, each proved to be a step of SignalState.  A result
 `ok == false` stands for panic() or a failed assertion.
 */
module Signals {
  import opened SignalState

  /** How handleSignal ends: the thread is destroyed, nothing is due, or a handler starts. */
  datatype Outcome = Killed | Idle | Entered(i: int)

  /** A Discard step of a signal that has no handler. */
  ghost predicate Dropped(s: Sys, op: Op, handlers: seq<nat>) {
    && op.Discard? && 0 <= op.t < |s.threads| && 0 <= op.i < |s.threads[op.t].waiting|
    && var g := s.threads[op.t].waiting[op.i].signal; 1 <= g <= |handlers| && handlers[g - 1] == 0
  }

  // ---------- what handleSignal comes to ----------

  /** A context the scan does not pass: its handler runs, its number is too large for the masks, or it is due and has a
      handler. */
  predicate StopsAt(th: Thread, handlers: seq<nat>, c: Context) {
    || c.phase.Started? || c.signal > MASK_BITS
    || (c.signal !in th.blocked && c.signal !in th.processing &&
        1 <= c.signal <= |handlers| && handlers[c.signal - 1] != 0)
  }

  /** j is the first of them, or the length of the list. */
  ghost predicate IsStop(th: Thread, handlers: seq<nat>, j: int) {
    && 0 <= j <= |th.waiting|
    && (forall i :: 0 <= i < j ==> !StopsAt(th, handlers, th.waiting[i]))
    && (j < |th.waiting| ==> StopsAt(th, handlers, th.waiting[j]))
  }

  /** The contexts that are blocked or whose signal is being handled. */
  function HeldBack(th: Thread, w: seq<Context>): (r: seq<Context>)
    ensures forall i :: 0 <= i < |r| ==> r[i] in w && (r[i].signal in th.blocked || r[i].signal in th.processing)
  {
    if w == [] then []
    else
      var c := w[|w| - 1];
      HeldBack(th, w[..|w| - 1]) + if c.signal in th.blocked || c.signal in th.processing then [c] else []
  }

  /** Before the stop what is held back stays and the rest is dropped; a due signal at the stop is started. */
  ghost predicate Settled(th: Thread, th': Thread, j: int, entered: bool)
    requires 0 <= j <= |th.waiting|
  {
    var kept := HeldBack(th, th.waiting[..j]);
    if entered then
      j < |th.waiting| && th'.waiting == kept + [th.waiting[j].(phase := Started(th.tf))] + th.waiting[j + 1..]
    else th'.waiting == kept + th.waiting[j..]
  }

  /** What handleSignal does to a thread that is not killed: it stops at the first context it cannot pass, with a panic
      for a number too large, and enters the handler exactly if that context is due. */
  ghost predicate Handled(th: Thread, th': Thread, handlers: seq<nat>, ok: bool, out: Outcome, j: int) {
    && IsStop(th, handlers, j) && |handlers| >= MASK_BITS
    && if j == |th.waiting| || th.waiting[j].phase.Started? then ok && out == Idle && Settled(th, th', j, false)
       else if th.waiting[j].signal > MASK_BITS then !ok && Settled(th, th', j, false)
       else
         && ok && out == Entered(|HeldBack(th, th.waiting[..j])|) && Settled(th, th', j, true)
         && var g := th.waiting[j].signal;
            && 1 <= g && handlers[g - 1] != 0 && g !in th.blocked && g !in th.processing
            && th'.processing == th.processing + {g} && EntersHandler(th.tf, th'.tf, handlers[g - 1])
  }

  /** While the scan goes on. */
  ghost predicate Scanned(th: Thread, th': Thread, handlers: seq<nat>, m: int) {
    && 0 <= m <= |th.waiting| && th' == th.(waiting := HeldBack(th, th.waiting[..m]) + th.waiting[m..])
    && forall i :: 0 <= i < m ==> !StopsAt(th, handlers, th.waiting[i])
  }

  lemma ScanStart(th: Thread, handlers: seq<nat>)
    ensures Scanned(th, th, handlers, 0)
  {
    assert HeldBack(th, th.waiting[..0]) + th.waiting[0..] == th.waiting;
  }

  /** Contexts that are held back are passed. */
  lemma {:induction false} PassHeld(th: Thread, handlers: seq<nat>, m: int, n: int)
    requires 0 <= m <= n <= |th.waiting|
    requires forall i :: m <= i < n ==> Held(th, th.waiting[i]) && th.waiting[i].signal <= MASK_BITS
    ensures HeldBack(th, th.waiting[..n]) == HeldBack(th, th.waiting[..m]) + th.waiting[m..n]
    ensures forall i :: m <= i < n ==> !StopsAt(th, handlers, th.waiting[i])
    decreases n - m
  {
    if m < n {
      PassHeld(th, handlers, m, n - 1);
      assert th.waiting[..n][..n - 1] == th.waiting[..n - 1];
      assert th.waiting[m..n] == th.waiting[m..n - 1] + [th.waiting[n - 1]];
    } else {
      assert th.waiting[m..n] == [];
    }
  }

  /** Where the first context not held back stands in the list that the scan began with. */
  lemma ScanTo(th: Thread, th': Thread, handlers: seq<nat>, m: int, i: int) returns (n: int)
    requires Scanned(th, th', handlers, m) && 0 <= i <= |th'.waiting|
    requires forall j :: 0 <= j < i ==> Held(th', th'.waiting[j]) && th'.waiting[j].signal <= MASK_BITS
    requires i < |th'.waiting| ==> !Held(th', th'.waiting[i]) || th'.waiting[i].signal > MASK_BITS
    ensures m <= n <= |th.waiting| && Scanned(th, th', handlers, n) && i == |HeldBack(th, th.waiting[..n])|
    ensures i < |th'.waiting| ==> n < |th.waiting| && th'.waiting[i] == th.waiting[n]
  {
    var kept := HeldBack(th, th.waiting[..m]);
    assert forall j :: 0 <= j < |kept| ==> th'.waiting[j] == kept[j];
    KeptPending(th, handlers, m);
    n := m + i - |kept|;
    forall j | m <= j < n ensures Held(th, th.waiting[j]) && th.waiting[j].signal <= MASK_BITS {
      assert th'.waiting[|kept| + j - m] == th.waiting[j];
    }
    PassHeld(th, handlers, m, n);
    assert th.waiting[m..] == th.waiting[m..n] + th.waiting[n..];
    assert kept + th.waiting[m..] == kept + th.waiting[m..n] + th.waiting[n..];
  }

  lemma KeptPending(th: Thread, handlers: seq<nat>, m: int)
    requires 0 <= m <= |th.waiting| && forall i :: 0 <= i < m ==> !StopsAt(th, handlers, th.waiting[i])
    ensures var kept := HeldBack(th, th.waiting[..m]);
            forall j :: 0 <= j < |kept| ==> Held(th, kept[j]) && kept[j].signal <= MASK_BITS
  {
    var kept := HeldBack(th, th.waiting[..m]);
    forall j | 0 <= j < |kept| ensures Held(th, kept[j]) && kept[j].signal <= MASK_BITS {
      assert kept[j] in th.waiting[..m];
      var i :| 0 <= i < m && th.waiting[..m][i] == kept[j];
    }
  }

  /** A due signal without a handler is dropped. */
  lemma ScanDrop(th: Thread, th': Thread, th2: Thread, handlers: seq<nat>, n: int)
    requires Scanned(th, th', handlers, n) && n < |th.waiting| && !StopsAt(th, handlers, th.waiting[n])
    requires !Held(th, th.waiting[n])
    requires var i := |HeldBack(th, th.waiting[..n])|;
             i < |th'.waiting| && th2 == th'.(waiting := Removed(th'.waiting, i))
    ensures Scanned(th, th2, handlers, n + 1)
  {
    var kept := HeldBack(th, th.waiting[..n]);
    assert th.waiting[..n + 1][..n] == th.waiting[..n];
    assert HeldBack(th, th.waiting[..n + 1]) == kept;
    assert (kept + th.waiting[n..])[..|kept|] == kept;
    assert (kept + th.waiting[n..])[|kept| + 1..] == th.waiting[n + 1..];
  }

  lemma ScanEnter(th: Thread, th': Thread, th2: Thread, handlers: seq<nat>, n: int, handler: nat)
    requires Scanned(th, th', handlers, n) && n < |th.waiting| && StopsAt(th, handlers, th.waiting[n])
    requires !th.waiting[n].phase.Started? && 1 <= th.waiting[n].signal <= MASK_BITS <= |handlers|
    requires handler == handlers[th.waiting[n].signal - 1] && !Held(th, th.waiting[n])
    requires var i := |HeldBack(th, th.waiting[..n])|; i < |th'.waiting| && th2 == Delivered(th', i, handler)
    ensures Handled(th, th2, handlers, true, Entered(|HeldBack(th, th.waiting[..n])|), n)
  {
    hide HandlerFrame, EntersHandler;
    HandlerFrameEnters(th.tf, handler);
    var kept := HeldBack(th, th.waiting[..n]);
    assert th2.waiting == kept + [th.waiting[n].(phase := Started(th.tf))] + th.waiting[n + 1..];
    assert th2.waiting[|kept|] == th.waiting[n].(phase := Started(th.tf));
  }

  /** What the search found, in terms of the list that the scan began with. */
  lemma Seen(th: Thread, th': Thread, handlers: seq<nat>, m: int, ok: bool, i: int) returns (n: int)
    requires Scanned(th, th', handlers, m) && |handlers| >= MASK_BITS && Signals(th')
    requires ok && i == -1 ==>
               forall j :: 0 <= j < |th'.waiting| ==> Held(th', th'.waiting[j]) && th'.waiting[j].signal <= MASK_BITS
    requires ok && i != -1 ==>
               && First(th', i) && (th'.waiting[i].phase.Started? || th'.waiting[i].signal <= MASK_BITS)
               && forall j :: 0 <= j < i ==> th'.waiting[j].signal <= MASK_BITS
    requires !ok ==>
               && 0 <= i < |th'.waiting| && th'.waiting[i].phase.Pending? && th'.waiting[i].signal > MASK_BITS
               && forall j :: 0 <= j < i ==> Held(th', th'.waiting[j]) && th'.waiting[j].signal <= MASK_BITS
    ensures Scanned(th, th', handlers, n)
    ensures ok && i == -1 ==> n == |th.waiting|
    ensures i != -1 || !ok ==>
              && 0 <= n < |th.waiting| && 0 <= i < |th'.waiting| && th'.waiting[i] == th.waiting[n]
              && i == |HeldBack(th, th.waiting[..n])|
              && (StopsAt(th, handlers, th.waiting[n]) <==>
                  !ok || th.waiting[n].phase.Started? || handlers[th.waiting[n].signal - 1] != 0)
    ensures !ok || i == -1 || th.waiting[n].phase.Started? ==> Handled(th, th', handlers, ok, Idle, n)
  {
    n := ScanTo(th, th', handlers, m, if ok && i == -1 then |th'.waiting| else i);
  }

  lemma InvSignals(s: Sys, t: int)
    requires Inv(s) && 0 <= t < |s.threads|
    ensures Signals(s.threads[t])
  {
  }

  /** A run of discards of signals without handler from s to s', with one delivery at its end or none. */
  ghost predicate Dropping(states: seq<Sys>, ops: seq<Op>, s: Sys, s': Sys, t: int, handlers: seq<nat>, entered: bool) {
    && Steps(states, ops) && states[0] == s && states[|ops|] == s' && (entered ==> ops != [])
    && forall k :: 0 <= k < |ops| ==>
         && ops[k].t == t
         && if entered && k == |ops| - 1 then ops[k].Deliver? else Dropped(states[k], ops[k], handlers)
  }

  lemma NoSteps(s: Sys, t: int, handlers: seq<nat>)
    ensures Dropping([s], [], s, s, t, handlers, false)
  {
  }

  lemma DropMore(states: seq<Sys>, ops: seq<Op>, s: Sys, s1: Sys, s2: Sys, t: int, i: int, handlers: seq<nat>)
    requires Dropping(states, ops, s, s1, t, handlers, false) && Inv(s1) && Enabled(s1, Discard(t, i))
    requires s2 == Apply(s1, Discard(t, i)) && Dropped(s1, Discard(t, i), handlers)
    ensures Dropping(states + [s2], ops + [Discard(t, i)], s, s2, t, handlers, false)
  {
    hide Inv, Enabled, Apply;
    MoreSteps(states, ops, Discard(t, i));
  }

  lemma EnterLast(states: seq<Sys>, ops: seq<Op>, s: Sys, s1: Sys, s2: Sys, t: int, i: int, handlers: seq<nat>)
    requires Dropping(states, ops, s, s1, t, handlers, false) && Inv(s1) && 0 <= t < |s1.threads|
    requires 0 <= i < |s1.threads[t].waiting| && 1 <= s1.threads[t].waiting[i].signal <= |handlers|
    requires var op := Deliver(t, i, handlers[s1.threads[t].waiting[i].signal - 1]);
             Enabled(s1, op) && s2 == Apply(s1, op)
    ensures var op := Deliver(t, i, handlers[s1.threads[t].waiting[i].signal - 1]);
            Dropping(states + [s2], ops + [op], s, s2, t, handlers, true)
  {
    hide Inv, Enabled, Apply;
    MoreSteps(states, ops, Deliver(t, i, handlers[s1.threads[t].waiting[i].signal - 1]));
  }

  lemma MoreSteps(states: seq<Sys>, ops: seq<Op>, op: Op)
    requires Steps(states, ops) && Inv(states[|ops|]) && Enabled(states[|ops|], op)
    ensures Steps(states + [Apply(states[|ops|], op)], ops + [op])
  {
    hide Inv, Enabled, Apply;
  }

  class SignalSystem {
    var free: seq<int>
    var threads: seq<Thread>
    ghost var place: seq<int>

    ghost function S(): Sys
      reads this
    {
      Sys(free, threads, place)
    }

    ghost predicate Valid()
      reads this
    {
      Inv(S())
    }

    /** signalInit, with n threads whose masks are empty. */
    constructor (n: nat, tf: Trapframe)
      ensures Valid() && |threads| == n && |place| == |free| == CONTEXTS
      ensures forall t :: 0 <= t < n ==> threads[t] == Thread([], {}, {}, false, tf)
    {
      free := seq(CONTEXTS, i => CONTEXTS - 1 - i);
      threads := seq(n, t => Thread([], {}, {}, false, tf));
      place := seq(CONTEXTS, c => -1);
      new;
      BootInv(S());
    }

    /** signalSend to a thread that exists; with no context left it panics. */
    method SignalSend(t: int, sig: int) returns (ok: bool)
      requires Valid() && 0 <= t < |threads| && sig >= 1
      modifies this
      ensures Valid() && ok == (old(free) != [])
      ensures if ok then S() == Apply(old(S()), Send(t, sig)) else S() == old(S())
    {
      ok := free != [];
      if ok {
        StepInv(S(), Send(t, sig));
        FreeHead(S());
        var c := free[0];
        free := free[1..];
        place := place[c := t];
        var th := threads[t];
        if sig == SIGKILL {
          th := th.(killed := true);
        }
        threads := threads[t := th.(waiting := [Context(c, sig, Pending)] + th.waiting)];
      }
    }

    /** signProccessMask: 0 adds, 1 takes away, 2 replaces. */
    method SignProcessMask(t: int, how: int, newSet: set<int>) returns (r: int)
      requires Valid() && 0 <= t < |threads|
      modifies this
      ensures Valid() && r == if 0 <= how <= 2 then 0 else -1
      ensures r == 0 ==>
                S() == Apply(old(S()), Mask(t, if how == 0 then old(threads)[t].blocked + newSet
                                               else if how == 1 then old(threads)[t].blocked - newSet else newSet))
      ensures r == -1 ==> S() == old(S())
    {
      if how < 0 || how > 2 {
        return -1;
      }
      var b := threads[t].blocked;
      var m := if how == 0 then b + newSet else if how == 1 then b - newSet else newSet;
      StepInv(S(), Mask(t, m));
      threads := threads[t := threads[t].(blocked := m)];
      r := 0;
    }

    /** getFirstSignalContext; a pending signal above 64 that it meets is a panic. */
    method GetFirst(t: int) returns (ok: bool, i: int)
      requires 0 <= t < |threads|
      ensures ok && i == -1 ==>
                forall j :: 0 <= j < |threads[t].waiting| ==>
                  Held(threads[t], threads[t].waiting[j]) && threads[t].waiting[j].signal <= MASK_BITS
      ensures ok && i != -1 ==>
                && First(threads[t], i)
                && (threads[t].waiting[i].phase.Started? || threads[t].waiting[i].signal <= MASK_BITS)
                && forall j :: 0 <= j < i ==> threads[t].waiting[j].signal <= MASK_BITS
      ensures !ok ==>
                && 0 <= i < |threads[t].waiting| && threads[t].waiting[i].phase.Pending?
                && threads[t].waiting[i].signal > MASK_BITS
                && forall j :: 0 <= j < i ==>
                     Held(threads[t], threads[t].waiting[j]) && threads[t].waiting[j].signal <= MASK_BITS
    {
      var th := threads[t];
      i := 0;
      while i < |th.waiting|
        invariant 0 <= i <= |th.waiting|
        invariant forall j :: 0 <= j < i ==> Held(th, th.waiting[j]) && th.waiting[j].signal <= MASK_BITS
      {
        var c := th.waiting[i];
        if !c.phase.Started? && c.signal > MASK_BITS {
          return false, i;
        }
        if !c.phase.Started? && (c.signal in th.blocked || c.signal in th.processing) {
          i := i + 1;
          continue;
        }
        return true, i;
      }
      return true, -1;
    }

    /** getHandlingSignal; no running handler is an assertion failure. */
    method GetHandling(t: int) returns (ok: bool, i: int)
      requires 0 <= t < |threads|
      ensures ok ==> Innermost(threads[t], i)
      ensures !ok <==> forall j :: 0 <= j < |threads[t].waiting| ==> threads[t].waiting[j].phase.Pending?
    {
      i := 0;
      while i < |threads[t].waiting|
        invariant 0 <= i <= |threads[t].waiting| && forall j :: 0 <= j < i ==> threads[t].waiting[j].phase.Pending?
      {
        if threads[t].waiting[i].phase.Started? {
          return true, i;
        }
        i := i + 1;
      }
      ok := false;
    }

    method SignalFinish(t: int, i: int)
      requires Conserved(S()) && 0 <= t < |threads| && 0 <= i < |threads[t].waiting|
      modifies this
      ensures 0 <= old(threads)[t].waiting[i].id < |old(place)| && S() == Finished(old(S()), t, i) && Conserved(S())
    {
      hide Conserved;
      WaitingIn(S(), t, i);
      FinishConserved(S(), t, i);
      var th := threads[t];
      var c := th.waiting[i].id;
      threads := threads[t := th.(waiting := Removed(th.waiting, i))];
      free := [c] + free;
      place := place[c := -1];
    }

    /** A due signal without a handler: its context is freed and nothing else of the thread changes. */
    method Drop(t: int, i: int)
      requires Valid() && 0 <= t < |threads| && Enabled(S(), Discard(t, i))
      modifies this
      ensures Valid() && S() == Apply(old(S()), Discard(t, i)) && |threads| == |old(threads)|
      ensures forall u :: 0 <= u < |threads| && u != t ==> threads[u] == old(threads)[u]
      ensures 0 <= i < |old(threads)[t].waiting|
      ensures threads[t] == old(threads)[t].(waiting := Removed(old(threads)[t].waiting, i))
      ensures |threads[t].waiting| < |old(threads)[t].waiting|
      ensures Stack(threads[t].waiting) == Stack(old(threads)[t].waiting)
    {
      hide Conserved, Nested, Stack, First;
      FirstInRange(threads[t], i);
      StepInv(S(), Discard(t, i));
      SignalFinish(t, i);
    }

    /** A due signal with a handler: the interrupted frame is saved in the context and the handler's frame put in. */
    method Enter(t: int, i: int, handler: nat)
      requires Valid() && 0 <= t < |threads| && Enabled(S(), Deliver(t, i, handler))
      modifies this`threads
      ensures Valid() && S() == Apply(old(S()), Deliver(t, i, handler)) && 0 <= i < |old(threads)[t].waiting|
      ensures threads == old(threads)[t := Delivered(old(threads)[t], i, handler)]
      ensures Stack(threads[t].waiting) == [threads[t].waiting[i]] + Stack(old(threads)[t].waiting)
    {
      hide Conserved, Nested, Stack, First, HandlerFrame;
      FirstInRange(threads[t], i);
      StepInv(S(), Deliver(t, i, handler));
      threads := threads[t := Delivered(threads[t], i, handler)];
    }

    /** handleSignal, with the handlers of the thread's process: signals without one are dropped, the first with one
        is entered.  It is a run of Discard steps, with one Deliver step at the end when a handler is entered. */
    method HandleSignal(t: int, handlers: seq<nat>)
      returns (ok: bool, out: Outcome, ghost states: seq<Sys>, ghost ops: seq<Op>, ghost stop: int)
      requires Valid() && 0 <= t < |threads| && |handlers| >= MASK_BITS
      modifies this
      ensures Valid() && |threads| == |old(threads)|
      ensures forall u :: 0 <= u < |threads| && u != t ==> threads[u] == old(threads)[u]
      ensures ok && out == Killed <==> old(threads)[t].killed
      ensures ok && out == Killed ==> S() == old(S())
      ensures !old(threads)[t].killed ==> Handled(old(threads)[t], threads[t], handlers, ok, out, stop)
      ensures Dropping(states, ops, old(S()), S(), t, handlers, ok && out.Entered?)
      ensures !(ok && out.Entered?) ==>
                Stack(threads[t].waiting) == Stack(old(threads)[t].waiting) && threads[t].tf == old(threads)[t].tf
      ensures ok && out.Entered? ==>
                && 0 <= out.i < |threads[t].waiting| && ops[|ops| - 1].i == out.i
                && Stack(threads[t].waiting) == [threads[t].waiting[out.i]] + Stack(old(threads)[t].waiting)
    {
      hide Conserved, Nested, Stack, First, HandlerFrame, Apply, Scanned, Handled, IsStop, HeldBack, Dropping, Inv;
      ghost var s := S();
      states, ops, stop := [s], [], 0;
      ScanStart(threads[t], handlers);
      NoSteps(s, t, handlers);
      while true
        invariant Dropping(states, ops, s, S(), t, handlers, false)
        invariant Valid() && |threads| == |s.threads|
        invariant forall u :: 0 <= u < |threads| && u != t ==> threads[u] == s.threads[u]
        invariant Stack(threads[t].waiting) == Stack(s.threads[t].waiting)
        invariant threads[t] == s.threads[t].(waiting := threads[t].waiting) && (threads[t].killed ==> S() == s)
        invariant Scanned(s.threads[t], threads[t], handlers, stop)
        decreases |threads[t].waiting|
      {
        if threads[t].killed {
          return true, Killed, states, ops, stop;
        }
        var i;
        ok, i := GetFirst(t);
        InvSignals(S(), t);
        stop := Seen(s.threads[t], threads[t], handlers, stop, ok, i);
        if !ok || i == -1 {
          return ok, Idle, states, ops, stop;
        }
        FirstInRange(threads[t], i);
        var c := threads[t].waiting[i];
        if c.phase.Started? {
          return true, Idle, states, ops, stop;
        }
        ghost var s1 := S();
        FirstIsDue(threads[t], i);
        if handlers[c.signal - 1] == 0 {
          Drop(t, i);
          ScanDrop(s.threads[t], s1.threads[t], threads[t], handlers, stop);
          DropMore(states, ops, s, s1, S(), t, i, handlers);
          stop := stop + 1;
          states, ops := states + [S()], ops + [Discard(t, i)];
        } else {
          Enter(t, i, handlers[c.signal - 1]);
          ScanEnter(s.threads[t], s1.threads[t], threads[t], handlers, stop, handlers[c.signal - 1]);
          EnterLast(states, ops, s, s1, S(), t, i, handlers);
          states, ops := states + [S()], ops + [Deliver(t, i, handlers[c.signal - 1])];
          return true, Entered(i), states, ops, stop;
        }
      }
    }

    /** syscallSignalReturn */
    method SignalReturn(t: int) returns (ok: bool)
      requires Valid() && 0 <= t < |threads|
      modifies this
      ensures Valid() && ok == (Stack(old(threads)[t].waiting) != [])
      ensures !ok ==> S() == old(S())
      ensures ok ==> exists i :: Innermost(old(threads)[t], i) && S() == Apply(old(S()), Return(t, i))
      ensures ok ==> Stack(old(threads)[t].waiting)[0].phase == Started(threads[t].tf)
      ensures ok ==> Stack(threads[t].waiting) == Stack(old(threads)[t].waiting)[1..]
    {
      hide Conserved, Nested, Stack;
      var i;
      ok, i := GetHandling(t);
      if !ok {
        StackPending(threads[t].waiting);
        return;
      }
      StackTop(threads[t].waiting, i);
      ghost var s := S();
      StepInv(s, Return(t, i));
      ReturnConserved(s, t, i);
      var th := threads[t];
      var c := th.waiting[i];
      th := th.(tf := c.phase.saved, processing := th.processing - {c.signal});
      SetThreadConserved(s, t, th);
      threads := threads[t := th];
      SignalFinish(t, i);
    }

    /** The loop of threadFree that gives every context of a dying thread back. */
    method FreeContexts(t: int)
      requires Valid() && 0 <= t < |threads|
      modifies this
      ensures Conserved(S()) && threads == old(threads)[t := old(threads)[t].(waiting := [])]
    {
      hide Conserved, Nested;
      while threads[t].waiting != []
        invariant Conserved(S()) && |threads| == |old(threads)|
        invariant threads == old(threads)[t := old(threads)[t].(waiting := threads[t].waiting)]
        decreases |threads[t].waiting|
      {
        SignalFinish(t, 0);
      }
    }
  }

  /** A context that is due and pending is neither blocked nor being handled. */
  lemma FirstIsDue(th: Thread, i: int)
    requires First(th, i) && th.waiting[i].phase.Pending?
    ensures th.waiting[i].signal !in th.blocked && th.waiting[i].signal !in th.processing
  {
  }

  lemma BootInv(s: Sys)
    requires |s.free| == |s.place|
    requires (forall c :: 0 <= c < |s.place| ==> s.place[c] == -1 && s.free[c] == |s.place| - 1 - c)
    requires forall t :: 0 <= t < |s.threads| ==> s.threads[t].waiting == [] && s.threads[t].processing == {}
    ensures Inv(s)
  {
    forall c | 0 <= c < |s.place| ensures Listed(s, c) {
      assert s.free[|s.place| - 1 - c] == c;
    }
  }
}
