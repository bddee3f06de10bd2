/**
 Runs.  Whatever sequence of user stores, kernel copies, forks and exits follows,
 every process shows exactly its own writes over what it showed at the start, or
 over what its parent showed at the fork: demand paging, sharing and copy-on-write
 are invisible.  The one exception are writes of the kernel to read-only pages.
 */
module Isolation {
  import opened Bytes
  import opened PageEntry
  import opened Tables
  import opened Frames
  import opened Segments
  import opened AddressSpace
  import opened Memory
  import opened Fork
  import opened Teardown

  datatype Proc = Proc(root: int, segs: seq<Segment>)

  datatype Op =
    | Store(pid: int, va: int, value: Byte)
    | Out(pid: int, dst: int, data: seq<Byte>)
    | Set(pid: int, dst: int, value: Byte, len: int)
    | In(pid: int, src: int, len: int)
    | Clone(pid: int, child: int)
    | Exit(pid: int)

  /** The addresses lie in user space. */
  predicate Fits(op: Op) {
    match op
    case Store(_, va, _) => 0 <= va < USER_TOP
    case Out(_, dst, data) => 0 <= dst && dst + |data| <= USER_TOP
    case Set(_, dst, _, len) => 0 <= dst && 0 <= len && dst + len <= USER_TOP
    case In(_, src, len) => 0 <= src && 0 <= len && src + len <= USER_TOP
    case Clone(_, _) => true
    case Exit(_) => true
  }

  // ---------- the reference: private memory ----------

  function Fill(value: Byte, len: int): seq<Byte> {
    seq<Byte>(if len < 0 then 0 else len, i => value)
  }

  /** What one operation does to page q of process pid, if memory were private: a store to a page without write
      permission is refused. */
  function Effect(op: Op, pid: int, q: int, v: View): View {
    if op.pid != pid then v
    else match op
      case Store(_, va, value) => if v.Present? && !v.rights.write then v else Overlay(v, q, va, [value])
      case Out(_, dst, data) => Overlay(v, q, dst, data)
      case Set(_, dst, value, len) => Overlay(v, q, dst, Fill(value, len))
      case In(_, _, _) => v
      case Clone(_, _) => v
      case Exit(_) => v
  }

  /** The process whose memory pid had before the operation. */
  function Source(op: Op, pid: int): int {
    if op.Clone? && op.child == pid then op.pid else pid
  }

  ghost function See(s: Phys, procs: map<int, Proc>, pid: int, q: int): View {
    if pid in procs then Logical(s, procs[pid].segs, procs[pid].root, q) else Absent
  }

  ghost function Replay(ops: seq<Op>, pid: int, q: int, s: Phys, procs: map<int, Proc>): View {
    if ops == [] then See(s, procs, pid, q)
    else
      var op := ops[|ops| - 1];
      Effect(op, pid, q, Replay(ops[..|ops| - 1], Source(op, pid), q, s, procs))
  }

  // ---------- runs ----------

  function Alive(op: Op, live: set<int>): set<int> {
    if op.Clone? then live + {op.child} else if op.Exit? then live - {op.pid} else live
  }

  function Live(ops: seq<Op>, live: set<int>): set<int> {
    if ops == [] then live else Alive(ops[|ops| - 1], Live(ops[..|ops| - 1], live))
  }

  /** Processes act while they live, and a child gets a number that is not in use. */
  predicate MayHappen(op: Op, live: set<int>) {
    Fits(op) && op.pid in live && (op.Clone? ==> op.child !in live)
  }

  predicate Possible(ops: seq<Op>, live: set<int>) {
    forall i :: 0 <= i < |ops| ==> MayHappen(ops[i], Live(ops[..i], live))
  }

  /** Every process has an address space of its own and the segments of a program. */
  ghost predicate Programs(s: Phys, procs: map<int, Proc>) {
    && (forall pid :: pid in procs ==> ProgramOk(s, procs[pid]))
    && (forall a, b :: a in procs && b in procs && procs[a].root == procs[b].root ==> a == b)
  }

  ghost predicate ProgramOk(s: Phys, proc: Proc) {
    IsRoot(s.tb, proc.root) && AllWritable(proc.segs) && Disjoint(proc.segs)
  }

  /** The pages the kernel writes by copyout and memsetOut. */
  predicate Writes(op: Op, q: int) {
    match op
    case Out(_, dst, data) => Touches(dst, |data|, q)
    case Set(_, dst, _, len) => Touches(dst, len, q)
    case _ => false
  }

  predicate Touches(dst: int, len: int, q: int) {
    dst < (q + 1) * 4096 && q * 4096 < dst + len
  }

  predicate Writable(v: View) {
    v.Absent? || v.rights.write
  }

  /** The kernel writes no page that its process may not write. */
  ghost predicate Permitted(ops: seq<Op>, s: Phys, procs: map<int, Proc>) {
    forall i, q :: 0 <= i < |ops| && IsPage(q) && Writes(ops[i], q) ==>
      Writable(Replay(ops[..i], ops[i].pid, q, s, procs))
  }

  /** The shared pages of a forked process are set up apart. */
  predicate Tracked(op: Op, pid: int, q: int) {
    !IsShared(q) || Source(op, pid) == pid
  }

  predicate TrackedAll(ops: seq<Op>, pid: int, q: int) {
    !IsShared(q) || forall i :: 0 <= i < |ops| ==> Source(ops[i], pid) == pid
  }

  /** What stops the kernel in an operation, short of running out of frames. */
  ghost predicate StuckAt(s: Phys, proc: Proc, op: Op) {
    match op
    case Store(_, va, _) => !Lookup(s.tb, proc.root, va / 4096).valid && Unbuildable(proc.segs, va)
    case Out(_, dst, data) => exists a :: dst <= a < dst + |data| && CannotReach(s, proc.segs, proc.root, a)
    case Set(_, dst, _, len) => exists a :: dst <= a < dst + len && CannotReach(s, proc.segs, proc.root, a)
    case In(_, src, len) => exists a :: src <= a < src + len && CannotReach(s, proc.segs, proc.root, a)
    case Clone(_, _) => false
    case Exit(_) => false
  }

  // ---------- one operation ----------

  /** What every process sees after one operation. */
  ghost predicate Stepped(s: Phys, s': Phys, procs: map<int, Proc>, procs': map<int, Proc>, op: Op) {
    forall pid, q :: pid in procs' && IsPage(q) && Tracked(op, pid, q) ==>
      See(s', procs', pid, q) == Effect(op, pid, q, See(s, procs, Source(op, pid), q))
  }

  ghost predicate WritesPermitted(s: Phys, procs: map<int, Proc>, op: Op) {
    forall q :: IsPage(q) && Writes(op, q) ==> Writable(See(s, procs, op.pid, q))
  }

  lemma SameProgram(s: Phys, s': Phys, procs: map<int, Proc>)
    requires Programs(s, procs) && forall r :: IsRoot(s'.tb, r) <==> IsRoot(s.tb, r)
    ensures Programs(s', procs)
  {
  }

  /** A write nobody else sees. */
  lemma SteppedCopy(s: Phys, s': Phys, procs: map<int, Proc>, op: Op, dst: int, data: seq<Byte>)
    requires Inv(s) && Programs(s, procs) && op.pid in procs && !op.Clone?
    requires Copied(s, s', procs[op.pid].segs, procs[op.pid].root, dst, data) && Isolated(s, s', procs[op.pid].root)
    requires forall q :: IsPage(q) && FullPage(See(s, procs, op.pid, q)) ==>
               Effect(op, op.pid, q, See(s, procs, op.pid, q)) == Overlay(See(s, procs, op.pid, q), q, dst, data)
    ensures Stepped(s, s', procs, procs, op)
  {
    hide Inv, Lookup, Resident, Lazy, Overlay, IsRoot, Echo, AllWritable, Disjoint;
    forall pid, q | pid in procs && IsPage(q)
      ensures See(s', procs, pid, q) == Effect(op, pid, q, See(s, procs, pid, q))
    {
      assert ProgramOk(s, procs[pid]);
      LogicalFull(s, procs[pid].segs, procs[pid].root, q);
    }
  }

  /** Writing where it is permitted changes no read-only page. */
  lemma PermittedHarmless(s: Phys, procs: map<int, Proc>, op: Op, dst: int, data: seq<Byte>)
    requires Inv(s) && UserInv(s) && Programs(s, procs) && op.pid in procs && WritesPermitted(s, procs, op)
    requires forall q :: IsPage(q) && Touches(dst, |data|, q) ==> Writes(op, q)
    ensures AllHarmless(s, procs[op.pid].root, dst, data)
  {
    hide Inv, Lookup, IsRoot, Overlay, AllWritable, Disjoint, FrameBytes;
    var root := procs[op.pid].root;
    assert ProgramOk(s, procs[op.pid]);
    forall p | IsPage(p) && ReadOnly(Lookup(s.tb, root, p)) ensures Harmless(s, root, p, dst, data) {
      assert LeafOk(s, root, p);
      assert !Touches(dst, |data|, p);
      ResidentFull(s, root, p);
      OverlayUntouched(Resident(s, root, p), p, dst, data);
    }
  }

  lemma OverlayUntouched(v: View, p: int, dst: int, data: seq<Byte>)
    requires FullPage(v) && (data == [] || !Touches(dst, |data|, p))
    ensures Overlay(v, p, dst, data) == v
  {
    if v.Present? {
      assert Overlay(v, p, dst, data).bytes == v.bytes;
    }
  }

  lemma ReadingIsHarmless(s: Phys, root: int, src: int)
    requires Inv(s) && IsRoot(s.tb, root)
    ensures AllHarmless(s, root, src, [])
  {
    hide Inv, Lookup, IsRoot, Overlay, Resident;
    forall p | IsPage(p) ensures Overlay(Resident(s, root, p), p, src, []) == Resident(s, root, p) {
      ResidentFull(s, root, p);
      OverlayUntouched(Resident(s, root, p), p, src, []);
    }
  }

  /** What one operation leads to. */
  ghost predicate Outcome(s: Phys, s': Phys, procs: map<int, Proc>, procs': map<int, Proc>, op: Op, ok: bool) {
    if ok then
      && Inv(s') && UserInv(s') && Programs(s', procs') && procs'.Keys == Alive(op, procs.Keys)
      && (WritesPermitted(s, procs, op) ==> Stepped(s, s', procs, procs', op))
    else
      && procs' == procs && op.pid in procs
      && (s'.free == [] || StuckAt(s', procs[op.pid], op))
  }

  ghost predicate MayStep(s: Phys, procs: map<int, Proc>, op: Op) {
    Inv(s) && UserInv(s) && Programs(s, procs) && MayHappen(op, procs.Keys)
  }

  method StepStore(mm: MemoryManager, op: Op, procs: map<int, Proc>) returns (ok: bool)
    requires MayStep(mm.S(), procs, op) && op.Store?
    modifies mm
    ensures Outcome(old(mm.S()), mm.S(), procs, procs, op, ok)
  {
    hide Inv, UserInv, Lookup, Resident, Lazy, Overlay, Copied, IsRoot, Unbuildable, AllWritable, Disjoint, Isolated;
    ghost var s := mm.S();
    var proc := procs[op.pid];
    assert ProgramOk(s, proc);
    var result := mm.UserStore(proc.root, op.va, op.value, proc.segs);
    ok := result != Stopped;
    if result == Done {
      CopiedRoots(s, mm.S(), procs, op.pid, op.va, [op.value]);
      SteppedStore(s, mm.S(), procs, op);
    } else if result == Refused {
      SteppedRefused(s, procs, op);
    }
  }

  lemma CopiedRoots(s: Phys, s': Phys, procs: map<int, Proc>, pid: int, dst: int, data: seq<Byte>)
    requires Programs(s, procs) && pid in procs && Copied(s, s', procs[pid].segs, procs[pid].root, dst, data)
    ensures Programs(s', procs)
  {
    hide IsRoot, Lookup, Logical, Echo, Overlay, AllWritable, Disjoint;
    SameProgram(s, s', procs);
  }

  /** A store that was done was to a page that may be written. */
  lemma SteppedStore(s: Phys, s': Phys, procs: map<int, Proc>, op: Op)
    requires Inv(s) && UserInv(s) && Programs(s, procs) && op.Store? && op.pid in procs && 0 <= op.va < USER_TOP
    requires var proc := procs[op.pid];
             && !ReadOnly(Lookup(s.tb, proc.root, op.va / 4096))
             && Copied(s, s', proc.segs, proc.root, op.va, [op.value]) && Isolated(s, s', proc.root)
    ensures Stepped(s, s', procs, procs, op)
  {
    hide Inv, Lookup, Overlay, IsRoot, Copied, Isolated, Disjoint, AllWritable, FrameBytes;
    var proc := procs[op.pid];
    assert ProgramOk(s, proc);
    forall q | IsPage(q) && FullPage(See(s, procs, op.pid, q))
      ensures Effect(op, op.pid, q, See(s, procs, op.pid, q)) == Overlay(See(s, procs, op.pid, q), q, op.va, [op.value])
    {
      if q == op.va / 4096 {
        WritableHere(s, proc, q);
      } else {
        OverlayUntouched(See(s, procs, op.pid, q), q, op.va, [op.value]);
      }
    }
    SteppedCopy(s, s', procs, op, op.va, [op.value]);
  }

  lemma WritableHere(s: Phys, proc: Proc, q: int)
    requires UserInv(s) && ProgramOk(s, proc) && IsPage(q) && !IsShared(q) && !ReadOnly(Lookup(s.tb, proc.root, q))
    ensures Writable(Logical(s, proc.segs, proc.root, q))
  {
    hide Lookup, IsRoot, FrameBytes, Disjoint, PageImage, PagePerm, Touched, Target;
    assert LeafOk(s, proc.root, q);
    if Touched(proc.segs, q) {
      TouchedIsWritable(proc.segs, q);
    }
  }

  lemma SteppedRefused(s: Phys, procs: map<int, Proc>, op: Op)
    requires Inv(s) && UserInv(s) && Programs(s, procs) && op.Store? && op.pid in procs && 0 <= op.va < USER_TOP
    requires ReadOnly(Lookup(s.tb, procs[op.pid].root, op.va / 4096))
    ensures Stepped(s, s, procs, procs, op)
  {
    hide Inv, Lookup, Overlay, IsRoot, Disjoint, AllWritable, FrameBytes;
    var proc := procs[op.pid];
    assert ProgramOk(s, proc);
    forall q | IsPage(q) ensures Effect(op, op.pid, q, See(s, procs, op.pid, q)) == See(s, procs, op.pid, q) {
      LogicalFull(s, proc.segs, proc.root, q);
      if q == op.va / 4096 {
        assert LeafOk(s, proc.root, q);
      } else {
        OverlayUntouched(See(s, procs, op.pid, q), q, op.va, [op.value]);
      }
    }
  }

  method StepWrite(mm: MemoryManager, op: Op, procs: map<int, Proc>) returns (ok: bool)
    requires MayStep(mm.S(), procs, op) && (op.Out? || op.Set?)
    modifies mm
    ensures Outcome(old(mm.S()), mm.S(), procs, procs, op, ok)
  {
    hide Inv, UserInv, Lookup, Overlay, Copied, IsRoot, CannotReach, AllWritable, Disjoint, Isolated, Logical,
         AllHarmless;
    ghost var s := mm.S();
    var proc := procs[op.pid];
    assert ProgramOk(s, proc);
    ghost var data := if op.Out? then op.data else Fill(op.value, op.len);
    if op.Out? {
      ok := mm.CopyOut(proc.root, op.dst, op.data, proc.segs);
    } else {
      ok := mm.MemsetOut(proc.root, op.dst, op.value, op.len, proc.segs);
      assert seq<Byte>(op.len, i => op.value) == data;
    }
    if ok {
      CopiedRoots(s, mm.S(), procs, op.pid, op.dst, data);
      if WritesPermitted(s, procs, op) {
        PermittedHarmless(s, procs, op, op.dst, data);
        SteppedCopy(s, mm.S(), procs, op, op.dst, data);
      }
    }
  }

  method StepRead(mm: MemoryManager, op: Op, procs: map<int, Proc>) returns (ok: bool, data: seq<Byte>)
    requires MayStep(mm.S(), procs, op) && op.In?
    modifies mm
    ensures Outcome(old(mm.S()), mm.S(), procs, procs, op, ok)
    ensures ok ==> ReadOf(old(mm.S()), procs, op, data)
  {
    hide Inv, UserInv, Lookup, Overlay, Copied, IsRoot, CannotReach, AllWritable, Disjoint, Isolated, Logical,
         AllHarmless;
    ghost var s := mm.S();
    var proc := procs[op.pid];
    assert ProgramOk(s, proc);
    ok, data := mm.CopyIn(proc.root, op.src, op.len, proc.segs);
    if ok {
      CopiedRoots(s, mm.S(), procs, op.pid, op.src, []);
      ReadingIsHarmless(s, proc.root, op.src);
      IsolatedIff(s, mm.S(), proc.segs, proc.root, op.src, []);
      OverlayNone(op.src);
      SteppedCopy(s, mm.S(), procs, op, op.src, []);
    }
  }

  lemma OverlayNone(dst: int)
    ensures forall q, v :: FullPage(v) ==> Overlay(v, q, dst, []) == v
  {
    forall q, v | FullPage(v) ensures Overlay(v, q, dst, []) == v {
      OverlayNothing(v, q, dst);
    }
  }

  method StepClone(mm: MemoryManager, op: Op, procs: map<int, Proc>) returns (ok: bool, procs': map<int, Proc>)
    requires MayStep(mm.S(), procs, op) && op.Clone?
    modifies mm
    ensures Outcome(old(mm.S()), mm.S(), procs, procs', op, ok)
  {
    hide Inv, UserInv, Lookup, IsRoot, Logical, AllWritable, Disjoint;
    var proc := procs[op.pid];
    assert ProgramOk(mm.S(), proc);
    var child, childSegs;
    ok, child, childSegs := CloneSpace(mm, proc.root, proc.segs);
    procs' := if ok then procs[op.child := Proc(child, childSegs)] else procs;
    if ok {
      assert procs'.Keys == Alive(op, procs.Keys);
      forall pid | pid in procs ensures ProgramOk(mm.S(), procs[pid]) {
        assert ProgramOk(old(mm.S()), procs[pid]);
        assert IsPage(0);
        assert Logical(mm.S(), [], procs[pid].root, 0) == Logical(old(mm.S()), [], procs[pid].root, 0);
      }
    }
  }

  method StepExit(mm: MemoryManager, op: Op, procs: map<int, Proc>) returns (procs': map<int, Proc>)
    requires MayStep(mm.S(), procs, op) && op.Exit?
    modifies mm
    ensures Outcome(old(mm.S()), mm.S(), procs, procs', op, true)
  {
    hide Inv, Lookup, IsRoot, AllWritable, Disjoint, LeafOk, TornDown, Resident, Lazy;
    ghost var s := mm.S();
    var proc := procs[op.pid];
    assert ProgramOk(s, proc);
    PgdirFree(mm, proc.root);
    TornDownUser(s, mm.S(), proc.root);
    procs' := procs - {op.pid};
    assert procs'.Keys == Alive(op, procs.Keys);
    forall pid | pid in procs' ensures ProgramOk(mm.S(), procs'[pid]) {
      assert ProgramOk(s, procs[pid]);
    }
  }

  /** The bytes a copyin brings. */
  ghost predicate ReadOf(s: Phys, procs: map<int, Proc>, op: Op, data: seq<Byte>) {
    op.In? ==> |data| == op.len && forall j :: 0 <= j < op.len ==>
      data[j] == ByteIn(See(s, procs, op.pid, (op.src + j) / 4096), (op.src + j) % 4096)
  }

  method Step(mm: MemoryManager, op: Op, procs: map<int, Proc>)
    returns (ok: bool, procs': map<int, Proc>, data: seq<Byte>)
    requires MayStep(mm.S(), procs, op)
    modifies mm
    ensures Outcome(old(mm.S()), mm.S(), procs, procs', op, ok)
    ensures ok ==> ReadOf(old(mm.S()), procs, op, data)
  {
    hide MayStep, Outcome;
    ok, procs', data := true, procs, [];
    match op {
      case Store(_, _, _) => ok := StepStore(mm, op, procs);
      case Out(_, _, _) => ok := StepWrite(mm, op, procs);
      case Set(_, _, _, _) => ok := StepWrite(mm, op, procs);
      case In(_, _, _) => ok, data := StepRead(mm, op, procs);
      case Clone(_, _) => ok, procs' := StepClone(mm, op, procs);
      case Exit(_) => procs' := StepExit(mm, op, procs);
    }
  }

  // ---------- every run ----------

  /** What every process sees after a run. */
  ghost predicate Replayed(s: Phys, s': Phys, procs: map<int, Proc>, procs': map<int, Proc>, ops: seq<Op>) {
    forall pid, q :: pid in procs' && IsPage(q) && TrackedAll(ops, pid, q) ==>
      See(s', procs', pid, q) == Replay(ops, pid, q, s, procs)
  }

  lemma ReplayedStep(s: Phys, s1: Phys, s2: Phys, procs: map<int, Proc>, procs1: map<int, Proc>, procs2: map<int, Proc>,
                     ops: seq<Op>, op: Op)
    requires Replayed(s, s1, procs, procs1, ops) && Stepped(s1, s2, procs1, procs2, op)
    requires op.pid in procs1 && procs2.Keys == Alive(op, procs1.Keys)
    ensures Replayed(s, s2, procs, procs2, ops + [op])
  {
    hide See, Effect, Replay, IsShared;
    forall pid, q | pid in procs2 && IsPage(q) && TrackedAll(ops + [op], pid, q)
      ensures See(s2, procs2, pid, q) == Replay(ops + [op], pid, q, s, procs)
    {
      ReplayLast(ops, op, pid, q, s, procs);
      assert (ops + [op])[|ops|] == op;
      forall i | 0 <= i < |ops| && IsShared(q) ensures Source(ops[i], pid) == pid {
        assert (ops + [op])[i] == ops[i];
      }
      assert Source(op, pid) in procs1;
    }
  }

  lemma ReplayLast(ops: seq<Op>, op: Op, pid: int, q: int, s: Phys, procs: map<int, Proc>)
    ensures Replay(ops + [op], pid, q, s, procs) == Effect(op, pid, q, Replay(ops, Source(op, pid), q, s, procs))
  {
    hide See, Effect, Source;
    assert (ops + [op])[..|ops|] == ops;
  }

  /** The permission a run has, for its next operation. */
  lemma PermittedNext(s: Phys, s1: Phys, procs: map<int, Proc>, procs1: map<int, Proc>, ops: seq<Op>, i: int)
    requires 0 <= i < |ops| && Permitted(ops, s, procs) && Replayed(s, s1, procs, procs1, ops[..i])
    requires ops[i].pid in procs1 && Fits(ops[i])
    ensures WritesPermitted(s1, procs1, ops[i])
  {
    hide See, Replay, Writable;
    forall q | IsPage(q) && Writes(ops[i], q) ensures Writable(See(s1, procs1, ops[i].pid, q)) {
      assert !IsShared(q);
    }
  }

  /** What the copyins of a run bring: the bytes at that point of the replay. */
  ghost predicate ReadsOf(ops: seq<Op>, s: Phys, procs: map<int, Proc>, got: seq<seq<Byte>>) {
    |got| == |ops| && forall i :: 0 <= i < |ops| ==> ReadAt(ops, s, procs, i, got[i])
  }

  ghost predicate ReadAt(ops: seq<Op>, s: Phys, procs: map<int, Proc>, i: int, data: seq<Byte>)
    requires 0 <= i < |ops|
  {
    var op := ops[i];
    op.In? ==> |data| == op.len && forall j :: 0 <= j < op.len ==>
      data[j] == ByteIn(Replay(ops[..i], op.pid, (op.src + j) / 4096, s, procs), (op.src + j) % 4096)
  }

  lemma ReadNow(s: Phys, s1: Phys, procs: map<int, Proc>, procs1: map<int, Proc>, ops: seq<Op>, i: int, data: seq<Byte>)
    requires 0 <= i < |ops| && Replayed(s, s1, procs, procs1, ops[..i])
    requires ops[i].pid in procs1 && Fits(ops[i]) && ReadOf(s1, procs1, ops[i], data)
    ensures ReadAt(ops, s, procs, i, data)
  {
    hide See, Replay;
    var op := ops[i];
    if op.In? {
      forall j | 0 <= j < op.len
        ensures data[j] == ByteIn(Replay(ops[..i], op.pid, (op.src + j) / 4096, s, procs), (op.src + j) % 4096)
      {
        assert IsPage((op.src + j) / 4096) && !IsShared((op.src + j) / 4096);
      }
    }
  }

  /** Copy-on-write isolation over every run of stores, copies, forks and exits of any processes. */
  method Run(mm: MemoryManager, ops: seq<Op>, start: map<int, Proc>)
    returns (ok: bool, procs: map<int, Proc>, got: seq<seq<Byte>>, n: nat)
    requires Inv(mm.S()) && UserInv(mm.S()) && Programs(mm.S(), start) && Possible(ops, start.Keys)
    modifies mm
    ensures n <= |ops| && procs.Keys == Live(ops[..n], start.Keys)
    ensures ok ==> n == |ops| && Inv(mm.S()) && UserInv(mm.S()) && Programs(mm.S(), procs)
    ensures ok && Permitted(ops, old(mm.S()), start) ==>
              Replayed(old(mm.S()), mm.S(), start, procs, ops) && ReadsOf(ops, old(mm.S()), start, got)
    ensures !ok ==> n < |ops| && ops[n].pid in procs && (mm.free == [] || StuckAt(mm.S(), procs[ops[n].pid], ops[n]))
  {
    hide Inv, UserInv, See, Replay, StuckAt, Programs, Permitted, Stepped, WritesPermitted, ReadAt, ReadOf;
    ghost var s := mm.S();
    procs, got, n := start, [], 0;
    assert Replayed(s, s, start, start, []) by { ReplayedStart(s, start); }
    while n < |ops|
      invariant n <= |ops| && procs.Keys == Live(ops[..n], start.Keys)
      invariant Inv(mm.S()) && UserInv(mm.S()) && Programs(mm.S(), procs)
      invariant |got| == n
      invariant Permitted(ops, s, start) ==> Replayed(s, mm.S(), start, procs, ops[..n])
      invariant Permitted(ops, s, start) ==> forall i :: 0 <= i < n ==> ReadAt(ops, s, start, i, got[i])
    {
      var op := ops[n];
      ghost var s1, procs1 := mm.S(), procs;
      assert ops[..n + 1] == ops[..n] + [op];
      assert MayHappen(ops[n], Live(ops[..n], start.Keys));
      var data;
      ok, procs, data := Step(mm, op, procs);
      if !ok {
        return;
      }
      got := got + [data];
      if Permitted(ops, s, start) {
        ReadNow(s, s1, start, procs1, ops, n, data);
        PermittedNext(s, s1, start, procs1, ops, n);
        ReplayedStep(s, s1, mm.S(), start, procs1, procs, ops[..n], op);
      }
      LiveLast(ops[..n], op, start.Keys);
      n := n + 1;
    }
    assert ops[..n] == ops;
    ok := true;
  }

  lemma LiveLast(ops: seq<Op>, op: Op, live: set<int>)
    ensures Live(ops + [op], live) == Alive(op, Live(ops, live))
  {
    assert (ops + [op])[..|ops|] == ops;
  }

  lemma ReplayedStart(s: Phys, procs: map<int, Proc>)
    ensures Replayed(s, s, procs, procs, [])
  {
    hide See;
  }

  // ---------- fork ----------

  /** The writes of one process, laid over v. */
  function Own(ops: seq<Op>, pid: int, q: int, v: View): View {
    if ops == [] then v else Effect(ops[|ops| - 1], pid, q, Own(ops[..|ops| - 1], pid, q, v))
  }

  /** After a fork parent and child each see their own writes over the parent's memory at the fork. */
  lemma {:induction false} ForkIsolation(before: seq<Op>, parent: int, child: int, after: seq<Op>, pid: int, q: int,
                                         s: Phys, procs: map<int, Proc>)
    requires pid == parent || pid == child
    requires forall i :: 0 <= i < |after| && after[i].Clone? ==> after[i].child != pid
    ensures Replay(before + [Clone(parent, child)] + after, pid, q, s, procs) ==
            Own(after, pid, q, Replay(before, parent, q, s, procs))
  {
    hide See;
    if after == [] {
      ReplayLast(before, Clone(parent, child), pid, q, s, procs);
      assert before + [Clone(parent, child)] + after == before + [Clone(parent, child)];
    } else {
      var k := |after| - 1;
      ForkIsolation(before, parent, child, after[..k], pid, q, s, procs);
      ReplayLast(before + [Clone(parent, child)] + after[..k], after[k], pid, q, s, procs);
      assert before + [Clone(parent, child)] + after == before + [Clone(parent, child)] + after[..k] + [after[k]];
    }
  }

  /** Operations of other processes leave a view alone. */
  lemma {:induction false} OwnOfOthers(ops: seq<Op>, pid: int, q: int, v: View)
    requires forall i :: 0 <= i < |ops| ==> ops[i].pid != pid
    ensures Own(ops, pid, q, v) == v
  {
    if ops != [] {
      OwnOfOthers(ops[..|ops| - 1], pid, q, v);
    }
  }

  // ---------- the exception ----------

  const PAGE: nat := 2

  /** The page mmap makes for PROT_READ. */
  const PROT_READ_PERM: Pte := ZERO.(user := true, read := true)

  ghost predicate NoPages(s: Phys, r: int) {
    IsRoot(s.tb, r) && forall q :: IsPage(q) ==> !Lookup(s.tb, r, q).valid
  }

  method MapReadOnly(mm: MemoryManager, a: int, b: int) returns (f: int)
    requires Inv(mm.S()) && UserInv(mm.S()) && NoPages(mm.S(), a) && NoPages(mm.S(), b) && a != b && |mm.free| >= 8
    modifies mm
    ensures Inv(mm.S()) && UserInv(mm.S()) && IsRoot(mm.tb, a) && NoPages(mm.S(), b) && |mm.free| >= 5 && mm.stale == {}
    ensures 0 <= f < FRAMES && Lookup(mm.tb, a, PAGE) == LeafEntry(BASE_PPN + f, PROT_READ_PERM)
    ensures Resident(mm.S(), a, PAGE) == Present(ZeroBytes(), RightsOf(PROT_READ_PERM))
  {
    hide Inv, Lookup, IsRoot, Resident, RightsOf;
    f := mm.free[0];
    var ok := mm.MapFresh(a, PAGE, PROT_READ_PERM);
  }

  method ShareReadOnly(mm: MemoryManager, a: int, b: int, f: int)
    requires Inv(mm.S()) && UserInv(mm.S()) && IsRoot(mm.tb, a) && NoPages(mm.S(), b) && a != b && |mm.free| >= 5
    requires 0 <= f < FRAMES && Lookup(mm.tb, a, PAGE) == LeafEntry(BASE_PPN + f, PROT_READ_PERM)
    requires Resident(mm.S(), a, PAGE) == Present(ZeroBytes(), RightsOf(PROT_READ_PERM))
    modifies mm
    ensures Inv(mm.S()) && UserInv(mm.S()) && IsRoot(mm.tb, a) && IsRoot(mm.tb, b)
    ensures ReadOnly(Lookup(mm.tb, a, PAGE)) && Lookup(mm.tb, b, PAGE) == ChildEntry(Lookup(mm.tb, a, PAGE))
    ensures Aliased(mm.S(), a, PAGE, b, PAGE) && RefAt(mm.S(), Target(Lookup(mm.tb, a, PAGE))) != 1
    ensures Resident(mm.S(), b, PAGE) == Present(ZeroBytes(), RightsOf(PROT_READ_PERM))
  {
    hide Inv, Lookup, IsRoot, FrameBytes, RightsOf, Target, StableWalk, Marked, ChildEntry;
    ghost var s := mm.S();
    var w := LeafEntry(BASE_PPN + f, PROT_READ_PERM);
    assert LeafOk(s, a, PAGE);
    ReadOnlyKept(w);
    MarkedFacts(w);
    ShareMayMap(s, a, b, PAGE, w);
    assert ChildEntry(w) == LeafEntry(BASE_PPN + f, Marked(w).(ppn := 0)) by { ChildEntryIs(w); }
    var ok := mm.PageInsert(b, PAGE, BASE_PPN + f, Marked(w).(ppn := 0));
    ShareUser(s, mm.S(), a, b, PAGE, w);
    assert LeafOk(mm.S(), a, PAGE);
    assert SameContents(s, mm.S(), b, PAGE);
    CountOneIsSole(mm.S(), a, PAGE);
  }

  lemma ChildEntryIs(w: Pte)
    ensures ChildEntry(w) == LeafEntry(w.ppn, Marked(w).(ppn := 0))
  {
  }

  /** Two processes with one read-only page, as mmap with PROT_READ and fork leave them, and a copyout to it in one of
      them: the other process sees it. */
  method ReadOnlyShare() returns (mm: MemoryManager, a: int, b: int, ghost before: Phys)
    ensures fresh(mm) && Inv(before) && UserInv(before) && IsRoot(before.tb, a) && IsRoot(before.tb, b) && a != b
    ensures ReadOnly(Lookup(before.tb, a, PAGE)) && Lookup(before.tb, b, PAGE) == ChildEntry(Lookup(before.tb, a, PAGE))
    ensures RefAt(before, Target(Lookup(before.tb, a, PAGE))) != 1
    ensures Copied(before, mm.S(), [], a, PAGE * 4096, [1]) && Resident(mm.S(), b, PAGE) != Resident(before, b, PAGE)
  {
    hide Inv, UserInv, Lookup, IsRoot, Resident, ChildEntry, NewSpace, Copied, AllHarmless, Isolated, Target, RightsOf;
    mm := new MemoryManager(0);
    ghost var s0 := mm.S();
    NoRoots(s0);
    var ok, f;
    ok, a := mm.AllocPgdir();
    ghost var s1 := mm.S();
    ok, b := mm.AllocPgdir();
    TwoSpaces(s0, s1, mm.S(), a, b);
    f := MapReadOnly(mm, a, b);
    ShareReadOnly(mm, a, b, f);
    before := mm.S();
    ok := mm.CopyOut(a, PAGE * 4096, [1], []);
    EchoHere(before, mm.S(), a, b);
  }

  lemma NoRoots(s: Phys)
    requires s.stale == {} && s.tb == Tables(map[], map[])
    ensures UserInv(s)
  {
  }

  lemma TwoSpaces(s0: Phys, s1: Phys, s2: Phys, a: int, b: int)
    requires NewSpace(s0, s1, a) && NewSpace(s1, s2, b)
    ensures NoPages(s2, a) && NoPages(s2, b) && a != b
  {
    hide Lookup, Resident;
    assert IsPage(0);
  }

  lemma EchoHere(s: Phys, s': Phys, a: int, b: int)
    requires UserInv(s) && IsRoot(s.tb, a) && IsRoot(s.tb, b) && a != b && Aliased(s, a, PAGE, b, PAGE)
    requires Resident(s, b, PAGE).Present? && Resident(s, b, PAGE).bytes == ZeroBytes()
    requires Copied(s, s', [], a, PAGE * 4096, [1])
    ensures Resident(s', b, PAGE) != Resident(s, b, PAGE)
  {
    hide Lookup, Resident, IsRoot, Logical, Aliased, Twin, UserInv;
    TwinIs(s, a, PAGE, b, PAGE);
    assert Overlay(Resident(s, b, PAGE), PAGE, PAGE * 4096, [1]).bytes[0] == 1;
    assert ZeroBytes()[0] == 0;
  }
}
