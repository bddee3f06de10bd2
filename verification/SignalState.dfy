/**
 Signal delivery and return (kernel/system/Signal.c, syscallSignalReturn in
 kernel/trap/Syscall.c) as steps on values.  Each thread has a list of contexts,
 pending ones and those whose handler is running, with the trapframe to go back to.
 */
module SignalState {

  const CONTEXTS: nat := 4096
  const SIGKILL: nat := 9
  const MASK_BITS: nat := 64
  const PAGE_SIZE: nat := 4096
  const WORD: nat := 0x1_0000_0000_0000_0000
  const TRAMPOLINE_BASE: nat := 0x3f_ffff_e000
  const SIGNAL_TRAMPOLINE_BASE: nat := TRAMPOLINE_BASE - PAGE_SIZE

  datatype Trapframe = Trapframe(epc: nat, sp: nat, ra: nat, others: seq<nat>)
  datatype Phase = Pending | Started(saved: Trapframe)
  datatype Context = Context(id: int, signal: int, phase: Phase)
  datatype Thread = Thread(waiting: seq<Context>, blocked: set<int>, processing: set<int>, killed: bool, tf: Trapframe)

  /** `place` says where each context is: -1 for the free list, else the thread. */
  datatype Sys = Sys(free: seq<int>, threads: seq<Thread>, place: seq<int>)

  // ---------- the lists of contexts ----------

  function Ids(w: seq<Context>): (r: seq<int>)
    ensures |r| == |w| && forall i :: 0 <= i < |w| ==> r[i] == w[i].id
  {
    seq(|w|, i requires 0 <= i < |w| => w[i].id)
  }

  /** List -1 is the free list, list t the one of thread t. */
  function List(s: Sys, p: int): seq<int>
    requires -1 <= p < |s.threads|
  {
    if p == -1 then s.free else Ids(s.threads[p].waiting)
  }

  ghost predicate ListOk(l: seq<int>, place: seq<int>, p: int) {
    && (forall i :: 0 <= i < |l| ==> 0 <= l[i] < |place| && place[l[i]] == p)
    && (forall i, j :: 0 <= i < j < |l| ==> l[i] != l[j])
  }

  /** Every context is on the list its place names. */
  ghost predicate Listed(s: Sys, c: int)
    requires 0 <= c < |s.place|
  {
    -1 <= s.place[c] < |s.threads| && c in List(s, s.place[c])
  }

  /** Every context is on exactly one list, once. */
  ghost predicate Conserved(s: Sys) {
    && (forall p :: -1 <= p < |s.threads| ==> ListOk(List(s, p), s.place, p))
    && (forall c :: 0 <= c < |s.place| ==> Listed(s, c))
  }

  /** The i-th context of list p goes to the head of list q. */
  lemma Moved(s: Sys, s': Sys, p: int, i: int, q: int)
    requires Conserved(s) && |s'.threads| == |s.threads| && -1 <= p < |s.threads| && -1 <= q < |s.threads| && p != q
    requires 0 <= i < |List(s, p)| && s'.place == s.place[List(s, p)[i] := q]
    requires List(s', p) == List(s, p)[..i] + List(s, p)[i + 1..] && List(s', q) == [List(s, p)[i]] + List(s, q)
    requires forall r :: -1 <= r < |s.threads| && r != p && r != q ==> List(s', r) == List(s, r)
    ensures Conserved(s')
  {
    hide List;
    var c := List(s, p)[i];
    forall r | -1 <= r < |s.threads| ensures ListOk(List(s', r), s'.place, r) {
      assert ListOk(List(s, r), s.place, r) && ListOk(List(s, p), s.place, p);
      MovedList(s.place, List(s, p), List(s, r), i, p, q, r);
    }
    forall d | 0 <= d < |s.place| ensures Listed(s', d) {
      assert Listed(s, d);
      assert ListOk(List(s, p), s.place, p);
      if d != c && s.place[d] == p {
        StillIn(List(s, p), i, d);
      }
    }
  }

  lemma StillIn(l: seq<int>, i: int, d: int)
    requires 0 <= i < |l| && d in l && d != l[i]
    ensures d in l[..i] + l[i + 1..]
  {
    var j :| 0 <= j < |l| && l[j] == d;
    assert j < i ==> l[..i][j] == d;
    assert j > i ==> l[i + 1..][j - i - 1] == d;
  }

  lemma MovedList(place: seq<int>, lp: seq<int>, lr: seq<int>, i: int, p: int, q: int, r: int)
    requires ListOk(lp, place, p) && ListOk(lr, place, r) && 0 <= i < |lp| && (r == p ==> lr == lp) && p != q
    ensures var l := if r == p then lp[..i] + lp[i + 1..] else if r == q then [lp[i]] + lr else lr;
            ListOk(l, place[lp[i] := q], r)
  {
    var l := if r == p then lp[..i] + lp[i + 1..] else if r == q then [lp[i]] + lr else lr;
    assert r == p ==> forall k :: 0 <= k < |l| ==> l[k] == lp[if k < i then k else k + 1];
    assert r == q ==> forall k :: 1 <= k < |l| ==> l[k] == lr[k - 1];
    assert r != p ==> lp[i] !in lr;
  }

  /** Steps that leave every context on its list. */
  lemma SameLists(s: Sys, s': Sys)
    requires Conserved(s) && |s'.threads| == |s.threads| && s'.place == s.place
    requires forall r :: -1 <= r < |s.threads| ==> List(s', r) == List(s, r)
    ensures Conserved(s')
  {
    hide List;
    forall c | 0 <= c < |s.place| ensures Listed(s', c) {
      assert Listed(s, c);
    }
  }

  // ---------- the handler stack ----------

  /** The started contexts, front to back: the running handlers, innermost first. */
  function Stack(w: seq<Context>): seq<Context> {
    if w == [] then []
    else if w[0].phase.Started? then [w[0]] + Stack(w[1..])
    else Stack(w[1..])
  }

  lemma {:induction false} StackStarted(w: seq<Context>)
    ensures forall i :: 0 <= i < |Stack(w)| ==> Stack(w)[i].phase.Started? && Stack(w)[i] in w
  {
    if w != [] {
      StackStarted(w[1..]);
    }
  }

  lemma {:induction false} StackSplit(a: seq<Context>, b: seq<Context>)
    ensures Stack(a + b) == Stack(a) + Stack(b)
  {
    if a != [] {
      StackSplit(a[1..], b);
      assert (a + b)[1..] == a[1..] + b;
    } else {
      assert a + b == b;
    }
  }

  lemma {:induction false} StackPending(w: seq<Context>)
    requires forall i :: 0 <= i < |w| ==> w[i].phase.Pending?
    ensures Stack(w) == []
  {
    if w != [] {
      StackPending(w[1..]);
    }
  }

  /** With only pending contexts before it, the i-th one alone decides the top of the stack. */
  lemma StackTop(w: seq<Context>, i: int)
    requires 0 <= i < |w| && forall j :: 0 <= j < i ==> w[j].phase.Pending?
    ensures Stack(w) == (if w[i].phase.Started? then [w[i]] else []) + Stack(w[i + 1..])
  {
    StackPending(w[..i]);
    StackSplit(w[..i], w[i..]);
    assert w == w[..i] + w[i..] && w[i..][1..] == w[i + 1..];
  }

  ghost predicate OnStack(k: seq<Context>, g: int) {
    exists i :: 0 <= i < |k| && k[i].signal == g
  }

  /** `processing` holds exactly the signals whose handler is running, each of them once. */
  ghost predicate Nested(th: Thread) {
    var k := Stack(th.waiting);
    && (forall g :: g in th.processing <==> OnStack(k, g))
    && (forall i, j :: 0 <= i < j < |k| ==> k[i].signal != k[j].signal)
  }

  ghost predicate Signals(th: Thread) {
    forall i :: 0 <= i < |th.waiting| ==> th.waiting[i].signal >= 1
  }

  ghost predicate Inv(s: Sys) {
    Conserved(s) && forall t :: 0 <= t < |s.threads| ==> Nested(s.threads[t]) && Signals(s.threads[t])
  }

  // ---------- the steps ----------

  predicate Held(th: Thread, c: Context) {
    c.phase.Pending? && (c.signal in th.blocked || c.signal in th.processing)
  }

  /** What getFirstSignalContext finds: the first context that is started or may be delivered. */
  ghost predicate First(th: Thread, i: int) {
    0 <= i < |th.waiting| && !Held(th, th.waiting[i]) && forall j :: 0 <= j < i ==> Held(th, th.waiting[j])
  }

  /** What getHandlingSignal finds. */
  ghost predicate Innermost(th: Thread, i: int) {
    0 <= i < |th.waiting| && th.waiting[i].phase.Started? && forall j :: 0 <= j < i ==> th.waiting[j].phase.Pending?
  }

  function SentTo(s: Sys, t: int, sig: int): Sys
    requires 0 <= t < |s.threads| && s.free != [] && 0 <= s.free[0] < |s.place|
  {
    var c, th := s.free[0], s.threads[t];
    Sys(s.free[1..],
        s.threads[t := th.(waiting := [Context(c, sig, Pending)] + th.waiting, killed := th.killed || sig == SIGKILL)],
        s.place[c := t])
  }

  /** The frame the handler starts with: a stack page of its own below the old stack. */
  function HandlerFrame(tf: Trapframe, handler: nat): Trapframe {
    var sp := (tf.sp + WORD - PAGE_SIZE) % WORD;
    tf.(sp := sp - sp % PAGE_SIZE, ra := SIGNAL_TRAMPOLINE_BASE, epc := handler)
  }

  /** The program goes on at the handler, on a page boundary at least a page below its stack pointer, and returns to the
      trampoline; every other register is as it was. */
  predicate EntersHandler(tf: Trapframe, tf': Trapframe, handler: nat) {
    && tf'.epc == handler && tf'.ra == 0x3f_ffff_d000 && tf'.others == tf.others && tf'.sp % 4096 == 0
    && (4096 <= tf.sp < WORD ==> tf'.sp <= tf.sp - 4096 < tf'.sp + 4096)
    && (tf.sp < 4096 ==> tf'.sp == WORD - 4096)
  }

  lemma HandlerFrameEnters(tf: Trapframe, handler: nat)
    ensures EntersHandler(tf, HandlerFrame(tf, handler), handler)
  {
    if tf.sp < 4096 {
      assert (tf.sp + WORD - PAGE_SIZE) % WORD == tf.sp + WORD - PAGE_SIZE;
      assert (tf.sp + WORD - PAGE_SIZE) / PAGE_SIZE == WORD / PAGE_SIZE - 1;
    } else if tf.sp < WORD {
      assert (tf.sp + WORD - PAGE_SIZE) % WORD == tf.sp - PAGE_SIZE;
    }
  }

  function Delivered(th: Thread, i: int, handler: nat): Thread
    requires 0 <= i < |th.waiting|
  {
    th.(waiting := th.waiting[i := th.waiting[i].(phase := Started(th.tf))],
        processing := th.processing + {th.waiting[i].signal}, tf := HandlerFrame(th.tf, handler))
  }

  function Removed(w: seq<Context>, i: int): seq<Context>
    requires 0 <= i < |w|
  {
    w[..i] + w[i + 1..]
  }

  /** signalFinish: the context goes back to the head of the free list. */
  function Finished(s: Sys, t: int, i: int): Sys
    requires 0 <= t < |s.threads| && 0 <= i < |s.threads[t].waiting| && 0 <= s.threads[t].waiting[i].id < |s.place|
  {
    var th := s.threads[t];
    var c := th.waiting[i].id;
    Sys([c] + s.free, s.threads[t := th.(waiting := Removed(th.waiting, i))], s.place[c := -1])
  }

  /** syscallSignalReturn: the saved frame comes back and the context is finished. */
  function Returned(s: Sys, t: int, i: int): Sys
    requires 0 <= t < |s.threads| && 0 <= i < |s.threads[t].waiting| && 0 <= s.threads[t].waiting[i].id < |s.place|
    requires s.threads[t].waiting[i].phase.Started?
  {
    var th := s.threads[t];
    var c := th.waiting[i];
    Finished(s.(threads := s.threads[t := th.(tf := c.phase.saved, processing := th.processing - {c.signal})]), t, i)
  }

  datatype Op =
    | Send(t: int, sig: int)
    | Mask(t: int, blocked: set<int>)
    | Run(t: int, tf: Trapframe)
    | Deliver(t: int, i: int, handler: nat)
    | Discard(t: int, i: int)
    | Return(t: int, i: int)

  ghost predicate Enabled(s: Sys, op: Op) {
    && 0 <= op.t < |s.threads|
    && match op
       case Send(t, sig) => s.free != [] && sig >= 1
       case Mask(t, blocked) => true
       case Run(t, tf) => true
       case Deliver(t, i, handler) =>
         First(s.threads[t], i) && s.threads[t].waiting[i].phase.Pending? && s.threads[t].waiting[i].signal <= MASK_BITS
       case Discard(t, i) => First(s.threads[t], i) && s.threads[t].waiting[i].phase.Pending?
       case Return(t, i) => Innermost(s.threads[t], i)
  }

  ghost function Apply(s: Sys, op: Op): Sys
    requires Inv(s) && Enabled(s, op)
  {
    var th := s.threads[op.t];
    assert ListOk(List(s, -1), s.place, -1);
    match op
    case Send(t, sig) => SentTo(s, t, sig)
    case Mask(t, blocked) => s.(threads := s.threads[t := th.(blocked := blocked)])
    case Run(t, tf) => s.(threads := s.threads[t := th.(tf := tf)])
    case Deliver(t, i, handler) => s.(threads := s.threads[t := Delivered(th, i, handler)])
    case Discard(t, i) => assert ListOk(List(s, t), s.place, t); Finished(s, t, i)
    case Return(t, i) => assert ListOk(List(s, t), s.place, t); Returned(s, t, i)
  }

  // ---------- every step keeps the invariant ----------

  lemma NestedPush(th: Thread, c: Context, killed: bool)
    requires Nested(th) && c.phase.Pending?
    ensures Nested(th.(waiting := [c] + th.waiting, killed := killed)) && Stack([c] + th.waiting) == Stack(th.waiting)
  {
    assert ([c] + th.waiting)[1..] == th.waiting;
  }

  /** A delivery puts its context on top of the stack. */
  lemma NestedDeliver(th: Thread, i: int, handler: nat)
    requires Nested(th) && First(th, i) && th.waiting[i].phase.Pending?
    ensures var th' := Delivered(th, i, handler);
            Nested(th') && Stack(th'.waiting) == [th.waiting[i].(phase := Started(th.tf))] + Stack(th.waiting)
  {
    hide Stack;
    var th' := Delivered(th, i, handler);
    var w, w', k := th.waiting, th'.waiting, Stack(th.waiting);
    StackTop(w, i);
    StackTop(w', i);
    assert w'[i + 1..] == w[i + 1..];
    var k' := Stack(w');
    assert k' == [w'[i]] + k;
    assert !OnStack(k, w[i].signal);
    forall g ensures g in th'.processing <==> OnStack(k', g) {
      if OnStack(k, g) {
        var j :| 0 <= j < |k| && k[j].signal == g;
        assert k'[j + 1].signal == g;
      }
      assert k'[0].signal == w[i].signal;
    }
    assert forall j :: 0 <= j < |k| ==> k[j].signal != w[i].signal;
  }

  lemma RemovedStack(w: seq<Context>, i: int)
    requires 0 <= i < |w| && forall j :: 0 <= j < i ==> w[j].phase.Pending?
    ensures Stack(Removed(w, i)) == Stack(w[i + 1..])
  {
    StackPending(w[..i]);
    StackSplit(w[..i], w[i + 1..]);
  }

  /** Discarding a pending context leaves the stack alone. */
  lemma NestedDiscard(th: Thread, i: int)
    requires Nested(th) && First(th, i) && th.waiting[i].phase.Pending?
    ensures Nested(th.(waiting := Removed(th.waiting, i))) && Stack(Removed(th.waiting, i)) == Stack(th.waiting)
  {
    hide Stack;
    RemovedStack(th.waiting, i);
    StackTop(th.waiting, i);
    assert Stack(th.waiting) == Stack(th.waiting[i + 1..]);
  }

  /** A return takes the top of the stack off. */
  lemma NestedReturn(th: Thread, i: int, tf: Trapframe)
    requires Nested(th) && Innermost(th, i)
    ensures var th' := th.(waiting := Removed(th.waiting, i), processing := th.processing - {th.waiting[i].signal},
                           tf := tf);
            Nested(th') && Stack(th.waiting) == [th.waiting[i]] + Stack(th'.waiting)
  {
    hide Stack;
    RemovedStack(th.waiting, i);
    StackTop(th.waiting, i);
    var k, k' := Stack(th.waiting), Stack(Removed(th.waiting, i));
    assert forall j :: 0 <= j < |k'| ==> k'[j] == k[j + 1];
    forall g ensures OnStack(k', g) <==> OnStack(k, g) && g != th.waiting[i].signal {
      if OnStack(k, g) && g != th.waiting[i].signal {
        var j :| 0 <= j < |k| && k[j].signal == g;
        assert k'[j - 1].signal == g;
      }
      if OnStack(k', g) {
        var j :| 0 <= j < |k'| && k'[j].signal == g;
        assert k[j + 1].signal == g && k[0].signal != k[j + 1].signal;
      }
    }
  }

  lemma FreeHead(s: Sys)
    requires Conserved(s) && s.free != []
    ensures 0 <= s.free[0] < |s.place|
  {
    assert ListOk(List(s, -1), s.place, -1);
  }

  lemma WaitingIn(s: Sys, t: int, i: int)
    requires Conserved(s) && 0 <= t < |s.threads| && 0 <= i < |s.threads[t].waiting|
    ensures 0 <= s.threads[t].waiting[i].id < |s.place|
  {
    assert ListOk(List(s, t), s.place, t);
  }

  lemma SendConserved(s: Sys, t: int, sig: int)
    requires Conserved(s) && 0 <= t < |s.threads| && s.free != []
    ensures 0 <= s.free[0] < |s.place| && Conserved(SentTo(s, t, sig))
  {
    hide Conserved, Ids;
    FreeHead(s);
    var s' := SentTo(s, t, sig);
    assert List(s', t) == [s.free[0]] + List(s, t);
    assert s.free[..0] + s.free[1..] == s.free[1..];
    Moved(s, s', -1, 0, t);
  }

  lemma FinishConserved(s: Sys, t: int, i: int)
    requires Conserved(s) && 0 <= t < |s.threads| && 0 <= i < |s.threads[t].waiting|
    ensures 0 <= s.threads[t].waiting[i].id < |s.place| && Conserved(Finished(s, t, i))
  {
    hide Conserved, Ids;
    WaitingIn(s, t, i);
    var s' := Finished(s, t, i);
    assert List(s', t) == List(s, t)[..i] + List(s, t)[i + 1..];
    Moved(s, s', t, i, -1);
  }

  lemma SetThreadConserved(s: Sys, t: int, th: Thread)
    requires Conserved(s) && 0 <= t < |s.threads| && Ids(th.waiting) == Ids(s.threads[t].waiting)
    ensures Conserved(s.(threads := s.threads[t := th]))
  {
    SameLists(s, s.(threads := s.threads[t := th]));
  }

  /** What one step does to one thread: the stack grows by the frame it interrupts, shrinks to the frame it
      restores, or stays. */
  ghost predicate StackMoves(th: Thread, th': Thread, op: Op) {
    match op
    case Deliver(_, i, handler) =>
      && 0 <= i < |th.waiting| && th'.tf == HandlerFrame(th.tf, handler)
      && Stack(th'.waiting) == [Context(th.waiting[i].id, th.waiting[i].signal, Started(th.tf))] + Stack(th.waiting)
    case Return(_, i) =>
      && Stack(th.waiting) != [] && Stack(th.waiting)[0].phase == Started(th'.tf)
      && Stack(th'.waiting) == Stack(th.waiting)[1..]
    case Run(_, tf) => th'.tf == tf && Stack(th'.waiting) == Stack(th.waiting)
    case _ => th'.tf == th.tf && Stack(th'.waiting) == Stack(th.waiting)
  }

  lemma ThreadStep(s: Sys, op: Op)
    requires Inv(s) && Enabled(s, op)
    ensures var th' := Apply(s, op).threads[op.t];
            Nested(th') && Signals(th') && StackMoves(s.threads[op.t], th', op)
  {
    hide Conserved, Nested, Stack;
    var th := s.threads[op.t];
    assert Nested(th) && Signals(th);
    match op
    case Send(t, sig) => NestedPush(th, Context(s.free[0], sig, Pending), th.killed || sig == SIGKILL);
    case Mask(t, blocked) => NestedSame(th, th.(blocked := blocked));
    case Run(t, tf) => NestedSame(th, th.(tf := tf));
    case Deliver(t, i, handler) => NestedDeliver(th, i, handler);
    case Discard(t, i) => NestedDiscard(th, i);
    case Return(t, i) => NestedReturn(th, i, th.waiting[i].phase.saved);
  }

  lemma NestedSame(th: Thread, th': Thread)
    requires Nested(th) && th'.waiting == th.waiting && th'.processing == th.processing
    ensures Nested(th')
  {
  }

  lemma StepConserved(s: Sys, op: Op)
    requires Inv(s) && Enabled(s, op)
    ensures Conserved(Apply(s, op))
  {
    hide Conserved, Nested, Stack, Signals, First, Innermost;
    var th := s.threads[op.t];
    match op
    case Send(t, sig) => SendConserved(s, t, sig);
    case Mask(t, blocked) => SetThreadConserved(s, t, th.(blocked := blocked));
    case Run(t, tf) => SetThreadConserved(s, t, th.(tf := tf));
    case Deliver(t, i, handler) => DeliverConserved(s, t, i, handler);
    case Discard(t, i) => FirstInRange(th, i); FinishConserved(s, t, i);
    case Return(t, i) => ReturnConserved(s, t, i);
  }

  lemma FirstInRange(th: Thread, i: int)
    requires First(th, i)
    ensures 0 <= i < |th.waiting|
  {
  }

  lemma DeliverConserved(s: Sys, t: int, i: int, handler: nat)
    requires Conserved(s) && 0 <= t < |s.threads| && First(s.threads[t], i)
    ensures 0 <= i < |s.threads[t].waiting|
    ensures Conserved(s.(threads := s.threads[t := Delivered(s.threads[t], i, handler)]))
  {
    hide Conserved;
    SetThreadConserved(s, t, Delivered(s.threads[t], i, handler));
  }

  lemma ReturnConserved(s: Sys, t: int, i: int)
    requires Conserved(s) && 0 <= t < |s.threads| && Innermost(s.threads[t], i)
    ensures 0 <= i < |s.threads[t].waiting| && s.threads[t].waiting[i].phase.Started?
    ensures 0 <= s.threads[t].waiting[i].id < |s.place| && Conserved(Returned(s, t, i))
  {
    hide Conserved;
    var th := s.threads[t];
    var th1 := th.(tf := th.waiting[i].phase.saved, processing := th.processing - {th.waiting[i].signal});
    SetThreadConserved(s, t, th1);
    FinishConserved(s.(threads := s.threads[t := th1]), t, i);
  }

  lemma StepOthers(s: Sys, op: Op)
    requires Inv(s) && Enabled(s, op)
    ensures |Apply(s, op).threads| == |s.threads|
    ensures forall u :: 0 <= u < |s.threads| && u != op.t ==> Apply(s, op).threads[u] == s.threads[u]
  {
    hide Nested, Stack, Signals, Delivered;
  }

  lemma StepInv(s: Sys, op: Op)
    requires Inv(s) && Enabled(s, op)
    ensures Inv(Apply(s, op)) && StackMoves(s.threads[op.t], Apply(s, op).threads[op.t], op)
    ensures |Apply(s, op).threads| == |s.threads|
    ensures forall u :: 0 <= u < |s.threads| && u != op.t ==> Apply(s, op).threads[u] == s.threads[u]
  {
    hide Conserved, Nested, Signals, StackMoves, Apply;
    StepOthers(s, op);
    ThreadStep(s, op);
    StepConserved(s, op);
  }

  // ---------- runs ----------

  ghost predicate Steps(states: seq<Sys>, ops: seq<Op>) {
    && |states| == |ops| + 1
    && forall i :: 0 <= i < |ops| ==>
         Inv(states[i]) && Enabled(states[i], ops[i]) && states[i + 1] == Apply(states[i], ops[i])
  }

  ghost function StackOf(s: Sys, t: int): seq<Context>
    requires 0 <= t < |s.threads|
  {
    Stack(s.threads[t].waiting)
  }

  ghost predicate SameThreads(states: seq<Sys>, t: int) {
    forall i :: 0 <= i < |states| ==> 0 <= t < |states[i].threads|
  }

  /** While the stack of thread t stays above a given part, that part does not change. */
  lemma {:induction false} Deeper(states: seq<Sys>, ops: seq<Op>, t: int, base: seq<Context>, n: nat)
    requires Steps(states, ops) && SameThreads(states, t) && n <= |ops|
    requires |base| <= |StackOf(states[0], t)| && StackOf(states[0], t)[|StackOf(states[0], t)| - |base|..] == base
    requires forall i :: 0 <= i <= n ==> |StackOf(states[i], t)| >= |base|
    ensures StackOf(states[n], t)[|StackOf(states[n], t)| - |base|..] == base
  {
    hide Inv, Enabled, Apply, Stack;
    if n > 0 {
      Deeper(states, ops, t, base, n - 1);
      assert states[n] == states[n - 1 + 1];
      StepInv(states[n - 1], ops[n - 1]);
    }
  }

  /** Nesting: a delivery to thread t, then any run in which its handler stays on the stack, then the return that
      ends that handler, gives the thread back exactly the trapframe it had. */
  lemma ReturnRestores(states: seq<Sys>, ops: seq<Op>, t: int)
    requires |ops| >= 2 && Steps(states, ops) && SameThreads(states, t)
    requires ops[0].Deliver? && ops[0].t == t && ops[|ops| - 1].Return? && ops[|ops| - 1].t == t
    requires forall i :: 1 <= i < |ops| ==> |StackOf(states[i], t)| > |StackOf(states[0], t)|
    requires |StackOf(states[|ops| - 1], t)| == |StackOf(states[0], t)| + 1
    ensures states[|ops|].threads[t].tf == states[0].threads[t].tf
    ensures StackOf(states[|ops|], t) == StackOf(states[0], t)
  {
    hide Inv, Enabled, Apply, Stack;
    var n := |ops|;
    StepInv(states[0], ops[0]);
    assert states[1] == states[0 + 1];
    var base := StackOf(states[1], t);
    assert StackMoves(states[0].threads[t], states[1].threads[t], ops[0]);
    assert |base| == |StackOf(states[0], t)| + 1;
    Deeper(states[1..], ops[1..], t, base, n - 2);
    assert states[1..][n - 2] == states[n - 1];
    assert StackOf(states[n - 1], t) == base;
    StepInv(states[n - 1], ops[n - 1]);
    assert states[n] == states[n - 1 + 1];
    assert StackMoves(states[n - 1].threads[t], states[n].threads[t], ops[n - 1]);
  }

  // ---------- reuse of a thread slot ----------

  /** threadFree empties the list and threadSetup clears neither `blocked` nor `processing`: the next thread in the slot
      starts in order exactly when no handler was running in the last one, and it starts by holding back exactly the
      signals that the last one had blocked or was handling. */
  lemma ReuseIff(th: Thread)
    requires Nested(th)
    ensures Nested(th.(waiting := [])) <==> Stack(th.waiting) == []
    ensures forall c, g :: Held(th.(waiting := []), Context(c, g, Pending)) <==>
                           g in th.blocked || OnStack(Stack(th.waiting), g)
  {
    hide Stack;
    var k := Stack(th.waiting);
    StackPending([]);
    if k != [] {
      assert OnStack(k, k[0].signal);
      assert !OnStack(Stack([]), k[0].signal);
    }
  }

  /** A thread that dies inside its handler for signal 2 with signal 3 blocked leaves the slot with both held back,
      signal 2 for good. */
  lemma ReuseExample(tf: Trapframe)
    ensures var th := Thread([Context(0, 2, Started(tf))], {3}, {2}, false, tf);
            && Nested(th) && !Nested(th.(waiting := []))
            && Held(th.(waiting := []), Context(0, 2, Pending)) && Held(th.(waiting := []), Context(0, 3, Pending))
  {
    var c := Context(0, 2, Started(tf));
    var th := Thread([c], {3}, {2}, false, tf);
    assert [c][1..] == [] && Stack([c]) == [c];
    assert OnStack([c], 2) by { assert [c][0].signal == 2; }
    ReuseIff(th);
  }
}
