/**
 Open files, descriptors and pipe ends (kernel/fs/File.c, kernel/fs/Pipe.c,
 kernel/fs/Sysfile.c) as values.  A reference to a file is a descriptor slot naming it
 or one that the kernel holds itself: inside a system call, or for a mounted image.
 */
module DescriptorTable {

  const NFILE: nat := 512
  const NOFILE: nat := 1024
  const MAX_PIPE: nat := 128

  datatype Kind = NoKind | PipeEnd(pipe: int, writable: bool) | Other
  datatype File = File(ref: nat, kind: Kind)

  /** `held` counts the references outside the descriptor slots; `readers` and `writers` name the file of each pipe
      end. */
  datatype Table = Table(files: seq<File>, procs: seq<seq<int>>, bits: seq<bool>, readopen: seq<bool>,
                         writeopen: seq<bool>, held: seq<nat>, readers: seq<int>, writers: seq<int>)

  ghost predicate Shape(t: Table) {
    && |t.files| == |t.held| == NFILE
    && |t.bits| == |t.readopen| == |t.writeopen| == |t.readers| == |t.writers| == MAX_PIPE
    && (forall p :: 0 <= p < |t.procs| ==> |t.procs[p]| == NOFILE)
    && (forall p, d :: 0 <= p < |t.procs| && 0 <= d < NOFILE ==> -1 <= t.procs[p][d] < NFILE)
  }

  predicate Names(procs: seq<seq<int>>, p: int, d: int, f: int) {
    0 <= p < |procs| && 0 <= d < |procs[p]| && procs[p][d] == f
  }

  /** The descriptor slots that name file f. */
  ghost function Slots(procs: seq<seq<int>>, f: int): set<(int, int)> {
    set p, d | 0 <= p < |procs| && 0 <= d < |procs[p]| && Names(procs, p, d, f) :: (p, d)
  }

  /** Reference counts are exact. */
  ghost predicate Counted(t: Table)
    requires |t.files| == |t.held|
  {
    forall f :: 0 <= f < |t.files| ==> t.files[f].ref == |Slots(t.procs, f)| + t.held[f]
  }

  predicate IsOpen(t: Table, i: int, w: bool)
    requires 0 <= i < |t.readopen| == |t.writeopen|
  {
    if w then t.writeopen[i] else t.readopen[i]
  }

  function EndFile(t: Table, i: int, w: bool): int
    requires 0 <= i < |t.readers| == |t.writers|
  {
    if w then t.writers[i] else t.readers[i]
  }

  /** A live file of a pipe end is the one file of that open end. */
  ghost predicate FileOk(t: Table, f: int)
    requires Shape(t) && 0 <= f < NFILE
  {
    var k := t.files[f].kind;
    && (t.files[f].ref == 0 ==> k == NoKind)
    && (k.PipeEnd? ==>
          && 0 <= k.pipe < MAX_PIPE && t.bits[k.pipe] && IsOpen(t, k.pipe, k.writable)
          && EndFile(t, k.pipe, k.writable) == f)
  }

  /** A pipe in use has an open end, and an open end has its file. */
  ghost predicate PipeOk(t: Table, i: int)
    requires Shape(t) && 0 <= i < MAX_PIPE
  {
    t.bits[i] ==> (t.readopen[i] || t.writeopen[i]) && EndOk(t, i, false) && EndOk(t, i, true)
  }

  ghost predicate EndOk(t: Table, i: int, w: bool)
    requires Shape(t) && 0 <= i < MAX_PIPE
  {
    IsOpen(t, i, w) ==> 0 <= EndFile(t, i, w) < NFILE && t.files[EndFile(t, i, w)].kind == PipeEnd(i, w)
  }

  ghost predicate Inv(t: Table) {
    && Shape(t) && Counted(t) && (forall f :: 0 <= f < NFILE ==> FileOk(t, f))
    && (forall i :: 0 <= i < MAX_PIPE ==> PipeOk(t, i))
  }

  // ---------- what the invariant means ----------

  /** Some descriptor, or the kernel itself, can still reach an end of pipe i. */
  ghost predicate Reachable(t: Table, i: int, w: bool)
    requires Shape(t)
  {
    exists f :: 0 <= f < NFILE && t.files[f].kind == PipeEnd(i, w) && (t.held[f] > 0 || Slots(t.procs, f) != {})
  }

  /** A pipe end is open exactly while it can be reached, and the pipe is in use exactly while one of them can. */
  lemma PipeLifetime(t: Table, i: int)
    requires Inv(t) && 0 <= i < MAX_PIPE
    ensures forall w :: Reachable(t, i, w) <==> t.bits[i] && IsOpen(t, i, w)
    ensures t.bits[i] <==> Reachable(t, i, false) || Reachable(t, i, true)
  {
    hide Slots;
    assert PipeOk(t, i);
    forall w ensures Reachable(t, i, w) <==> t.bits[i] && IsOpen(t, i, w) {
      if Reachable(t, i, w) {
        var f :| 0 <= f < NFILE && t.files[f].kind == PipeEnd(i, w) && (t.held[f] > 0 || Slots(t.procs, f) != {});
        assert FileOk(t, f);
      }
      if t.bits[i] && IsOpen(t, i, w) {
        var f := EndFile(t, i, w);
        assert FileOk(t, f);
        assert t.files[f].ref == |Slots(t.procs, f)| + t.held[f];
      }
    }
  }

  // ---------- what the searches find ----------

  /** d is the lowest free descriptor below the limit. */
  predicate LowestFd(row: seq<int>, limit: nat, d: int) {
    0 <= d < limit <= |row| && row[d] == -1 && forall e :: 0 <= e < d ==> row[e] != -1
  }

  predicate NoFd(row: seq<int>, limit: nat) {
    forall e :: 0 <= e < limit && e < |row| ==> row[e] != -1
  }

  predicate OneFd(row: seq<int>, limit: nat) {
    forall d, e :: 0 <= d < e < limit && e < |row| ==> row[d] != -1 || row[e] != -1
  }

  /** f is the first file without references. */
  predicate FirstFile(files: seq<File>, f: int) {
    0 <= f < |files| && files[f].ref == 0 && forall g :: 0 <= g < f ==> files[g].ref > 0
  }

  predicate NoFile(files: seq<File>) {
    forall g :: 0 <= g < |files| ==> files[g].ref > 0
  }

  /** At most one file is left. */
  predicate OneFile(files: seq<File>) {
    forall f, g :: 0 <= f < g < |files| ==> files[f].ref > 0 || files[g].ref > 0
  }

  predicate LowestPipe(bits: seq<bool>, i: int) {
    0 <= i < |bits| && !bits[i] && forall j :: 0 <= j < i ==> bits[j]
  }

  // ---------- the steps ----------

  /** filealloc: file f, which was free, with one reference in the kernel's hand. */
  function Taken(t: Table, f: int): Table
    requires 0 <= f < |t.files| && f < |t.held|
  {
    t.(files := t.files[f := t.files[f].(ref := 1)], held := t.held[f := 1])
  }

  /** filedup */
  function Dupped(t: Table, f: int): Table
    requires 0 <= f < |t.files| && f < |t.held|
  {
    t.(files := t.files[f := t.files[f].(ref := t.files[f].ref + 1)], held := t.held[f := t.held[f] + 1])
  }

  function SetIn(procs: seq<seq<int>>, p: int, d: int, f: int): (r: seq<seq<int>>)
    requires 0 <= p < |procs| && 0 <= d < |procs[p]|
    ensures |r| == |procs| && (forall q :: 0 <= q < |r| ==> |r[q]| == |procs[q]|)
    ensures forall q, e, g :: Names(r, q, e, g) <==> if q == p && e == d then g == f else Names(procs, q, e, g)
  {
    var row: seq<int> := procs[p][d := f];
    procs[p := row]
  }

  /** A held reference to f moves into a free descriptor slot. */
  function Stored(t: Table, p: int, d: int, f: int): Table
    requires 0 <= p < |t.procs| && 0 <= d < |t.procs[p]| && 0 <= f < |t.held| && t.held[f] > 0
  {
    t.(procs := SetIn(t.procs, p, d, f), held := t.held[f := t.held[f] - 1])
  }

  /** The reference in a descriptor slot moves into the kernel's hand. */
  function Fetched(t: Table, p: int, d: int): Table
    requires 0 <= p < |t.procs| && 0 <= d < |t.procs[p]| && 0 <= t.procs[p][d] < |t.held|
  {
    var f := t.procs[p][d];
    t.(procs := SetIn(t.procs, p, d, -1), held := t.held[f := t.held[f] + 1])
  }

  /** pipeClose */
  function PipeClosed(t: Table, i: int, w: bool): Table
    requires 0 <= i < |t.bits| == |t.readopen| == |t.writeopen|
  {
    var t1 := if w then t.(writeopen := t.writeopen[i := false]) else t.(readopen := t.readopen[i := false]);
    if !t1.readopen[i] && !t1.writeopen[i] then t1.(bits := t1.bits[i := false]) else t1
  }

  /** fileclose of a held reference. */
  function Closed(t: Table, f: int): Table
    requires Shape(t) && 0 <= f < NFILE && t.files[f].ref > 0 && t.held[f] > 0
    requires t.files[f].kind.PipeEnd? ==> 0 <= t.files[f].kind.pipe < MAX_PIPE
  {
    var held := t.held[f := t.held[f] - 1];
    if t.files[f].ref > 1 then t.(files := t.files[f := t.files[f].(ref := t.files[f].ref - 1)], held := held)
    else
      var k := t.files[f].kind;
      var t1 := t.(files := t.files[f := File(0, NoKind)], held := held);
      if k.PipeEnd? then PipeClosed(t1, k.pipe, k.writable) else t1
  }

  /** pipeAlloc and the rest of pipeNew, on two fresh files. */
  function PipeMade(t: Table, i: int, f0: int, f1: int): Table
    requires Shape(t) && 0 <= i < MAX_PIPE && 0 <= f0 < NFILE && 0 <= f1 < NFILE
  {
    t.(bits := t.bits[i := true], readopen := t.readopen[i := true], writeopen := t.writeopen[i := true],
       files := t.files[f0 := t.files[f0].(kind := PipeEnd(i, false))][f1 := t.files[f1].(kind := PipeEnd(i, true))],
       readers := t.readers[i := f0], writers := t.writers[i := f1])
  }

  // ---------- every step keeps the invariant ----------

  lemma SlotsSet(procs: seq<seq<int>>, p: int, d: int, f: int, g: int)
    requires 0 <= p < |procs| && 0 <= d < |procs[p]| && procs[p][d] != f
    ensures var r := SetIn(procs, p, d, f);
            Slots(r, g) == if g == f then Slots(procs, g) + {(p, d)}
                           else if g == procs[p][d] then Slots(procs, g) - {(p, d)} else Slots(procs, g)
  {
    var r := SetIn(procs, p, d, f);
    var s := if g == f then Slots(procs, g) + {(p, d)}
             else if g == procs[p][d] then Slots(procs, g) - {(p, d)} else Slots(procs, g);
    forall q, e ensures (q, e) in Slots(r, g) <==> (q, e) in s {
      assert Names(r, q, e, g) <==> if q == p && e == d then g == f else Names(procs, q, e, g);
    }
  }

  /** Steps that change no pipe and no kind, and free no file. */
  lemma KindsStay(t: Table, t': Table)
    requires Inv(t) && Shape(t') && Counted(t')
    requires t'.bits == t.bits && t'.readopen == t.readopen && t'.writeopen == t.writeopen && t'.readers == t.readers
    requires t'.writers == t.writers
    requires forall f :: 0 <= f < NFILE ==>
               t'.files[f].kind == t.files[f].kind && (t'.files[f].ref == 0 ==> t.files[f].ref == 0)
    ensures Inv(t')
  {
    forall f | 0 <= f < NFILE ensures FileOk(t', f) {
      assert FileOk(t, f);
    }
    forall i | 0 <= i < MAX_PIPE ensures PipeOk(t', i) {
      assert PipeOk(t, i);
    }
  }

  lemma TakenInv(t: Table, f: int)
    requires Inv(t) && 0 <= f < NFILE && t.files[f].ref == 0
    ensures Inv(Taken(t, f)) && t.held[f] == 0 && Slots(t.procs, f) == {}
  {
    hide FileOk, PipeOk, Slots;
    assert t.files[f].ref == |Slots(t.procs, f)| + t.held[f];
    KindsStay(t, Taken(t, f));
  }

  lemma DuppedInv(t: Table, f: int)
    requires Inv(t) && 0 <= f < NFILE
    ensures Inv(Dupped(t, f))
  {
    hide FileOk, PipeOk, Slots;
    assert t.files[f].ref == |Slots(t.procs, f)| + t.held[f];
    KindsStay(t, Dupped(t, f));
  }

  lemma StoredInv(t: Table, p: int, d: int, f: int)
    requires Inv(t) && 0 <= p < |t.procs| && 0 <= d < NOFILE && t.procs[p][d] == -1 && 0 <= f < NFILE && t.held[f] > 0
    ensures Inv(Stored(t, p, d, f))
  {
    hide FileOk, PipeOk, Slots;
    var t' := Stored(t, p, d, f);
    forall g | 0 <= g < NFILE ensures t'.files[g].ref == |Slots(t'.procs, g)| + t'.held[g] {
      SlotsSet(t.procs, p, d, f, g);
      NotThere(t.procs, p, d, g);
    }
    ShapeSet(t, p, d, f);
    KindsStay(t, t');
  }

  lemma ShapeSet(t: Table, p: int, d: int, f: int)
    requires Shape(t) && 0 <= p < |t.procs| && 0 <= d < NOFILE && -1 <= f < NFILE
    ensures Shape(t.(procs := SetIn(t.procs, p, d, f)))
  {
    var r := SetIn(t.procs, p, d, f);
    forall q, e | 0 <= q < |r| && 0 <= e < NOFILE ensures -1 <= r[q][e] < NFILE {
      assert Names(r, q, e, r[q][e]);
    }
  }

  lemma NotThere(procs: seq<seq<int>>, p: int, d: int, g: int)
    requires 0 <= p < |procs| && 0 <= d < |procs[p]|
    ensures (p, d) in Slots(procs, g) <==> procs[p][d] == g
  {
    assert Names(procs, p, d, g) <==> procs[p][d] == g;
  }

  lemma FetchedInv(t: Table, p: int, d: int)
    requires Inv(t) && 0 <= p < |t.procs| && 0 <= d < NOFILE && t.procs[p][d] != -1
    ensures Inv(Fetched(t, p, d)) && t.files[t.procs[p][d]].ref > 0
  {
    hide FileOk, PipeOk, Slots;
    var f, t' := t.procs[p][d], Fetched(t, p, d);
    forall g | 0 <= g < NFILE ensures t'.files[g].ref == |Slots(t'.procs, g)| + t'.held[g] {
      SlotsSet(t.procs, p, d, -1, g);
      NotThere(t.procs, p, d, g);
    }
    NotThere(t.procs, p, d, f);
    assert t.files[f].ref == |Slots(t.procs, f)| + t.held[f];
    ShapeSet(t, p, d, -1);
    KindsStay(t, t');
  }

  lemma ClosedCounted(t: Table, f: int)
    requires Inv(t) && 0 <= f < NFILE && t.held[f] > 0
    ensures t.files[f].ref > 0 && (t.files[f].kind.PipeEnd? ==> 0 <= t.files[f].kind.pipe < MAX_PIPE)
    ensures Shape(Closed(t, f)) && Counted(Closed(t, f))
  {
    hide Slots;
    assert FileOk(t, f) && t.files[f].ref == |Slots(t.procs, f)| + t.held[f];
  }

  /** fileclose: the last reference frees the file and closes its pipe end, and the last end frees the pipe. */
  lemma ClosedInv(t: Table, f: int)
    requires Inv(t) && 0 <= f < NFILE && t.held[f] > 0
    ensures t.files[f].ref > 0 && (t.files[f].kind.PipeEnd? ==> 0 <= t.files[f].kind.pipe < MAX_PIPE)
    ensures Inv(Closed(t, f))
  {
    hide Counted;
    ClosedCounted(t, f);
    var t' := Closed(t, f);
    assert FileOk(t, f);
    forall g | 0 <= g < NFILE ensures FileOk(t', g) {
      assert FileOk(t, g);
    }
    forall i | 0 <= i < MAX_PIPE ensures PipeOk(t', i) {
      assert PipeOk(t, i);
    }
  }

  lemma PipeMadeInv(t: Table, i: int, f0: int, f1: int)
    requires Inv(t) && 0 <= i < MAX_PIPE && !t.bits[i] && 0 <= f0 < NFILE && 0 <= f1 < NFILE && f0 != f1
    requires t.files[f0].kind == NoKind && t.files[f1].kind == NoKind && t.files[f0].ref > 0 && t.files[f1].ref > 0
    ensures Inv(PipeMade(t, i, f0, f1))
  {
    var t' := PipeMade(t, i, f0, f1);
    assert Counted(t') by { hide Slots; }
    hide Counted;
    forall g | 0 <= g < NFILE ensures FileOk(t', g) {
      assert FileOk(t, g);
    }
    forall j | 0 <= j < MAX_PIPE ensures PipeOk(t', j) {
      assert PipeOk(t, j);
    }
  }

  lemma OtherInv(t: Table, f: int)
    requires Inv(t) && 0 <= f < NFILE && t.files[f].kind == NoKind && t.files[f].ref > 0
    ensures Inv(t.(files := t.files[f := t.files[f].(kind := Other)]))
  {
    hide Slots;
    var t' := t.(files := t.files[f := t.files[f].(kind := Other)]);
    forall g | 0 <= g < NFILE ensures FileOk(t', g) {
      assert FileOk(t, g);
    }
    forall i | 0 <= i < MAX_PIPE ensures PipeOk(t', i) {
      assert PipeOk(t, i);
    }
  }
}
