/**
 kernel/fs/File.c, the descriptor calls of kernel/fs/Sysfile.c, pipeNew and pipeClose of
 kernel/fs/Pipe.c, and the descriptor loops of fork and processFree.  A result
 `ok == false` stands for panic().
 */
module Descriptors {
  import opened Bitmap
  import opened DescriptorTable

  /** A file whose last reference is gone has no kind any more; the others keep theirs. */
  ghost predicate KindsOfLive(old': seq<File>, files: seq<File>) {
    |files| == |old'| && forall g :: 0 <= g < |files| ==>
      files[g].kind == if files[g].ref > 0 then old'[g].kind else NoKind
  }

  class FileTable {
    var files: seq<File>
    var procs: seq<seq<int>>
    var bits: seq<bool>
    var readopen: seq<bool>
    var writeopen: seq<bool>
    const limit: seq<nat>
    ghost var held: seq<nat>
    ghost var readers: seq<int>
    ghost var writers: seq<int>

    ghost function T(): Table
      reads this
    {
      Table(files, procs, bits, readopen, writeopen, held, readers, writers)
    }

    ghost predicate Valid()
      reads this
    {
      Inv(T()) && |limit| == |procs| && forall p :: 0 <= p < |limit| ==> limit[p] <= NOFILE
    }

    /** fileinit, with processes that have no descriptors. */
    constructor (limits: seq<nat>)
      requires forall p :: 0 <= p < |limits| ==> limits[p] <= NOFILE
      ensures Valid() && limit == limits && (forall f :: 0 <= f < NFILE ==> files[f].ref == 0 && held[f] == 0)
      ensures |procs| == |limits| && forall p, d :: 0 <= p < |procs| && 0 <= d < NOFILE ==> procs[p][d] == -1
      ensures forall i :: 0 <= i < MAX_PIPE ==> !bits[i]
    {
      limit := limits;
      files := seq(NFILE, f => File(0, NoKind));
      procs := seq(|limits|, p => seq(NOFILE, d => -1));
      bits, readopen, writeopen := seq(MAX_PIPE, i => false), seq(MAX_PIPE, i => false), seq(MAX_PIPE, i => false);
      held := seq<nat>(NFILE, f => 0);
      readers, writers := seq(MAX_PIPE, i => 0), seq(MAX_PIPE, i => 0);
      new;
      forall f | 0 <= f < NFILE ensures Slots(procs, f) == {} {
      }
    }

    /** filealloc: the first file without references, or -1. */
    method FileAlloc() returns (f: int)
      requires Valid()
      modifies this`files, this`held
      ensures Valid() && -1 <= f < NFILE
      ensures f == -1 <==> NoFile(old(files))
      ensures f == -1 ==> T() == old(T())
      ensures f != -1 ==>
                && FirstFile(old(files), f) && old(files)[f].kind == NoKind && old(held)[f] == 0
                && T() == Taken(old(T()), f)
    {
      hide Slots, PipeOk;
      f := 0;
      while f < NFILE
        invariant 0 <= f <= NFILE && unchanged(this) && forall g :: 0 <= g < f ==> files[g].ref > 0
      {
        if files[f].ref == 0 {
          assert FileOk(T(), f);
          TakenInv(T(), f);
          files := files[f := files[f].(ref := 1)];
          held := held[f := 1];
          return;
        }
        f := f + 1;
      }
      f := -1;
    }

    /** filedup */
    method FileDup(f: int) returns (ok: bool)
      requires Valid() && 0 <= f < NFILE
      modifies this`files, this`held
      ensures Valid() && ok == (old(files)[f].ref >= 1) && T() == if ok then Dupped(old(T()), f) else old(T())
    {
      hide Slots, PipeOk, FileOk;
      ok := files[f].ref >= 1;
      if ok {
        DuppedInv(T(), f);
        files := files[f := files[f].(ref := files[f].ref + 1)];
        held := held[f := held[f] + 1];
      }
    }

    /** pipeClose */
    method PipeClose(i: int, w: bool)
      requires Shape(T()) && 0 <= i < MAX_PIPE
      modifies this`readopen, this`writeopen, this`bits
      ensures T() == PipeClosed(old(T()), i, w)
    {
      if w {
        writeopen := writeopen[i := false];
      } else {
        readopen := readopen[i := false];
      }
      if !readopen[i] && !writeopen[i] {
        bits := bits[i := false];
      }
    }

    /** fileclose of a reference the caller holds. */
    method FileClose(f: int)
      requires Valid() && 0 <= f < NFILE && held[f] > 0
      modifies this`files, this`held, this`readopen, this`writeopen, this`bits
      ensures old(files)[f].ref > 0 && (old(files)[f].kind.PipeEnd? ==> 0 <= old(files)[f].kind.pipe < MAX_PIPE)
      ensures Valid() && T() == Closed(old(T()), f) && KindsOfLive(old(files), files)
    {
      hide Slots, Counted;
      ClosedInv(T(), f);
      AllKinds();
      held := held[f := held[f] - 1];
      if files[f].ref > 1 {
        files := files[f := files[f].(ref := files[f].ref - 1)];
        return;
      }
      var k := files[f].kind;
      files := files[f := File(0, NoKind)];
      if k.PipeEnd? {
        PipeClose(k.pipe, k.writable);
      }
    }

    /** The search of fdalloc: the lowest free descriptor below the process's limit, or -1. */
    method FindFd(p: int) returns (d: int)
      requires Valid() && 0 <= p < |procs|
      ensures -1 <= d < limit[p]
      ensures d == -1 <==> NoFd(procs[p], limit[p])
      ensures d != -1 ==> LowestFd(procs[p], limit[p], d)
    {
      d := 0;
      while d < limit[p]
        invariant 0 <= d <= limit[p] && forall e :: 0 <= e < d ==> procs[p][e] != -1
      {
        if procs[p][d] == -1 {
          return;
        }
        d := d + 1;
      }
      d := -1;
    }

    /** The descriptor takes over the caller's reference. */
    method SetFd(p: int, d: int, f: int)
      requires Valid() && 0 <= p < |procs| && 0 <= d < NOFILE && procs[p][d] == -1 && 0 <= f < NFILE && held[f] > 0
      modifies this`procs, this`held
      ensures Valid() && procs == SetIn(old(procs), p, d, f) && held == old(held)[f := old(held)[f] - 1]
    {
      hide Slots, PipeOk, FileOk, Counted;
      StoredInv(T(), p, d, f);
      procs := SetIn(procs, p, d, f);
      held := held[f := held[f] - 1];
    }

    /** The reference leaves the descriptor. */
    method TakeFd(p: int, d: int) returns (f: int)
      requires Valid() && 0 <= p < |procs| && 0 <= d < NOFILE && procs[p][d] != -1
      modifies this`procs, this`held
      ensures Valid() && f == old(procs)[p][d] && 0 <= f < NFILE && files[f].ref > 0
      ensures procs == SetIn(old(procs), p, d, -1) && held == old(held)[f := old(held)[f] + 1]
    {
      hide Slots, PipeOk, FileOk, Counted;
      FetchedInv(T(), p, d);
      f := procs[p][d];
      procs := SetIn(procs, p, d, -1);
      held := held[f := held[f] + 1];
    }

    /** Descriptor d is closed. */
    method DropFd(p: int, d: int)
      requires Valid() && 0 <= p < |procs| && 0 <= d < NOFILE && procs[p][d] != -1
      modifies this
      ensures Valid() && held == old(held) && KindsOfLive(old(files), files) && procs == SetIn(old(procs), p, d, -1)
      ensures var f := old(procs)[p][d];
              && 0 <= f < NFILE && files[f].ref == old(files)[f].ref - 1
              && forall g :: 0 <= g < NFILE && g != f ==> files[g] == old(files)[g]
    {
      hide Slots, PipeOk, FileOk, Counted, SetIn;
      ghost var held0 := held;
      var f := TakeFd(p, d);
      FileClose(f);
      assert held == held0;
    }

    /** filedup of a file in use, and the new reference into descriptor d of process q. */
    method Share(q: int, d: int, f: int)
      requires Valid() && 0 <= q < |procs| && 0 <= d < NOFILE && procs[q][d] == -1 && 0 <= f < NFILE
      requires files[f].ref >= 1
      modifies this`files, this`procs, this`held
      ensures Valid() && held == old(held) && procs == SetIn(old(procs), q, d, f) && files == Dupped(old(T()), f).files
      ensures KindsOfLive(old(files), files)
    {
      hide Slots, PipeOk, FileOk, Counted, SetIn;
      AllKinds();
      var ok := FileDup(f);
      SetFd(q, d, f);
      assert held == old(held);
    }

    /** syscallDup: the lowest free descriptor names the same file. */
    method SyscallDup(p: int, fd: int) returns (r: int)
      requires Valid() && 0 <= p < |procs|
      modifies this`files, this`procs, this`held
      ensures Valid() && held == old(held)
      ensures r == if !(0 <= fd < NOFILE && old(procs)[p][fd] != -1) then -1
                   else if NoFd(old(procs)[p], limit[p]) then -24 else r
      ensures r >= 0 <==> 0 <= fd < NOFILE && old(procs)[p][fd] != -1 && !NoFd(old(procs)[p], limit[p])
      ensures r < 0 ==> T() == old(T())
      ensures r >= 0 ==> LowestFd(old(procs)[p], limit[p], r) && procs == SetIn(old(procs), p, r, old(procs)[p][fd])
      ensures r >= 0 ==> files == Dupped(old(T()), old(procs)[p][fd]).files
    {
      hide Slots, PipeOk, FileOk, Counted;
      if fd < 0 || fd >= NOFILE || procs[p][fd] == -1 {
        return -1;
      }
      var f := procs[p][fd];
      r := FindFd(p);
      if r < 0 {
        return -24;
      }
      Alive(p, fd);
      Share(p, r, f);
    }

    /** A file that a descriptor names has references. */
    lemma Alive(p: int, d: int)
      requires Valid() && 0 <= p < |procs| && 0 <= d < NOFILE && procs[p][d] != -1
      ensures 0 <= procs[p][d] < NFILE && files[procs[p][d]].ref >= 1
    {
      FetchedInv(T(), p, d);
    }

    /** syscallDupAndSet.  It panics exactly when a descriptor that is its file's only reference is set onto itself. */
    method SyscallDupAndSet(p: int, fd: int, fdnew: int) returns (ok: bool, r: int)
      requires Valid() && 0 <= p < |procs|
      modifies this
      ensures !ok <==> fd == fdnew && 0 <= fd < NOFILE && old(procs)[p][fd] != -1
                       && old(files)[old(procs)[p][fd]].ref == 1
      ensures ok ==> Valid() && held == old(held) && KindsOfLive(old(files), files)
      ensures ok ==> r == if 0 <= fd < NOFILE && old(procs)[p][fd] != -1 && 0 <= fdnew < NOFILE then fdnew else -1
      ensures ok && r >= 0 ==> procs == SetIn(old(procs), p, fdnew, old(procs)[p][fd])
      ensures ok && r < 0 ==> T() == old(T())
    {
      hide Slots, PipeOk, FileOk, Counted;
      ghost var procs0, held0, files0 := procs, held, files;
      AllKinds();
      if fd < 0 || fd >= NOFILE || procs[p][fd] == -1 {
        return true, -1;
      }
      var f := procs[p][fd];
      if fdnew < 0 || fdnew >= NOFILE {
        return true, -1;
      }
      if procs[p][fdnew] != -1 {
        DropFd(p, fdnew);
      }
      if fd != fdnew {
        Alive(p, fd);
      }
      ok := FileDup(f);
      if !ok {
        return false, -1;
      }
      SetFd(p, fdnew, f);
      assert held == held0;
      SetTwice(procs0, p, fdnew, -1, f);
      r := fdnew;
    }

    lemma AllKinds()
      requires Valid()
      ensures KindsOfLive(files, files)
    {
      forall g | 0 <= g < NFILE ensures files[g].ref == 0 ==> files[g].kind == NoKind {
        assert FileOk(T(), g);
      }
    }

    /** syscallClose */
    method SyscallClose(p: int, fd: int) returns (r: int)
      requires Valid() && 0 <= p < |procs|
      modifies this
      ensures Valid() && held == old(held) && KindsOfLive(old(files), files)
      ensures r == if 0 <= fd < NOFILE && old(procs)[p][fd] != -1 then 0 else -1
      ensures r == 0 ==> procs == SetIn(old(procs), p, fd, -1)
      ensures r == -1 ==> T() == old(T())
    {
      hide Slots, PipeOk, FileOk, Counted;
      AllKinds();
      if fd < 0 || fd >= NOFILE || procs[p][fd] == -1 {
        return -1;
      }
      DropFd(p, fd);
      r := 0;
    }

    /** The caller's own file becomes an ordinary one. */
    method SetKind(f: int)
      requires Valid() && 0 <= f < NFILE && files[f].kind == NoKind && files[f].ref > 0
      modifies this`files
      ensures Valid() && files == old(files)[f := File(old(files)[f].ref, Other)]
    {
      hide Slots;
      OtherInv(T(), f);
      files := files[f := files[f].(kind := Other)];
    }

    /** syscallOpen's part: a file of its own kind in the lowest free descriptor. */
    method Open(p: int) returns (r: int, ghost f: int)
      requires Valid() && 0 <= p < |procs|
      modifies this
      ensures Valid() && held == old(held)
      ensures r < 0 <==> NoFile(old(files)) || NoFd(old(procs)[p], limit[p])
      ensures r < 0 ==> r == -24 && procs == old(procs) && files == old(files)
      ensures r >= 0 ==>
                && LowestFd(old(procs)[p], limit[p], r) && FirstFile(old(files), f) && 0 <= f < NFILE
                && procs == SetIn(old(procs), p, r, f) && files == old(files)[f := File(1, Other)]
    {
      hide Slots, PipeOk, Counted, FileOk;
      ghost var held0, files0 := held, files;
      var file := FileAlloc();
      f := file;
      if file == -1 {
        return -24, f;
      }
      r := FindFd(p);
      if r < 0 {
        FileClose(file);
        assert files == files0 && held == held0;
        return -24, f;
      }
      SetKind(file);
      SetFd(p, r, file);
      assert held == held0 && files == files0[f := File(1, Other)];
    }

    /** The two filealloc calls of pipeNew: both files, or none. */
    method TwoFiles() returns (f0: int, f1: int)
      requires Valid()
      modifies this
      ensures Valid() && (f0 == -1 <==> OneFile(old(files)))
      ensures f0 == -1 ==> T() == old(T())
      ensures f0 != -1 ==>
                && FirstFile(old(files), f0) && 0 <= f0 < f1 < NFILE && FirstFile(Taken(old(T()), f0).files, f1)
                && old(held)[f0] == 0 && old(held)[f1] == 0 && T() == Taken(Taken(old(T()), f0), f1)
                && old(files)[f0] == File(0, NoKind) && old(files)[f1] == File(0, NoKind)
    {
      hide Slots, PipeOk, Counted, FileOk;
      ghost var t := T();
      f1 := -1;
      f0 := FileAlloc();
      if f0 == -1 {
        return;
      }
      f1 := FileAlloc();
      if f1 == -1 {
        FileClose(f0);
        assert held == t.held && files == t.files;
        return -1, -1;
      }
      assert t.files[f0].ref == 0 && t.files[f1].ref == 0;
    }

    /** pipeNew: two files, one for each end of a new pipe.  Without a free pipe it panics. */
    method PipeNew() returns (ok: bool, f0: int, f1: int, ghost i: int)
      requires Valid()
      modifies this
      ensures Valid() && procs == old(procs)
      ensures ok <==> OneFile(old(files)) || !AllSet(old(bits))
      ensures ok ==> (f0 == -1 <==> OneFile(old(files)))
      ensures ok && f0 == -1 ==> T() == old(T())
      ensures ok && f0 != -1 ==>
                && FirstFile(old(files), f0) && 0 <= f0 < f1 < NFILE && FirstFile(Taken(old(T()), f0).files, f1)
                && old(held)[f0] == 0 && old(held)[f1] == 0 && LowestPipe(old(bits), i) && i < MAX_PIPE
                && T() == PipeMade(Taken(Taken(old(T()), f0), f1), i, f0, f1)
                && old(files)[f0] == File(0, NoKind) && old(files)[f1] == File(0, NoKind)
    {
      hide Slots, PipeOk, Counted, FileOk, FirstFile, OneFile;
      i := 0;
      f0, f1 := TwoFiles();
      if f0 == -1 {
        return true, -1, -1, i;
      }
      var b := FirstClear(bits, 2);
      if b == -1 {
        return false, -1, -1, i;
      }
      assert forall j :: 0 <= j < b ==> bits[..b][j];
      i := b;
      PipeMadeInv(T(), i, f0, f1);
      bits, readopen, writeopen := bits[b := true], readopen[b := true], writeopen[b := true];
      files := files[f0 := files[f0].(kind := PipeEnd(b, false))][f1 := files[f1].(kind := PipeEnd(b, true))];
      readers, writers := readers[b := f0], writers[b := f1];
      ok := true;
    }

    /** The two fdalloc calls of syscallPipe: both descriptors, or none. */
    method TwoFds(p: int, f0: int, f1: int) returns (fd0: int, fd1: int)
      requires Valid() && 0 <= p < |procs| && 0 <= f0 < NFILE && 0 <= f1 < NFILE && f0 != f1
      requires held[f0] == held[f1] == 1
      modifies this`procs, this`held
      ensures Valid() && (fd1 >= 0 <==> !OneFd(old(procs)[p], limit[p]))
      ensures fd1 < 0 ==> procs == old(procs) && held == old(held)
      ensures fd1 >= 0 ==>
                && LowestFd(old(procs)[p], limit[p], fd0) && 0 <= fd0 < fd1 < NOFILE
                && procs == SetIn(SetIn(old(procs), p, fd0, f0), p, fd1, f1) && held == old(held)[f0 := 0][f1 := 0]
                && LowestFd(SetIn(old(procs), p, fd0, f0)[p], limit[p], fd1) && old(procs)[p][fd1] == -1
    {
      hide Slots, PipeOk, Counted, FileOk;
      ghost var procs0, held0 := procs, held;
      fd1 := -1;
      fd0 := FindFd(p);
      if fd0 >= 0 {
        SetFd(p, fd0, f0);
        fd1 := FindFd(p);
        if fd1 >= 0 {
          assert procs0[p][fd1] == -1;
          SetFd(p, fd1, f1);
        } else {
          var g := TakeFd(p, fd0);
          SetTwice(procs0, p, fd0, f0, -1);
          SetBack(procs0, p, fd0);
          assert held == held0;
        }
      }
    }

    /** Both files of a new pipe closed again: files, pipes and counts are what they were before pipeNew. */
    method ClosePipe(ghost t: Table, i: int, f0: int, f1: int)
      requires Valid() && Inv(t) && 0 <= f0 < NFILE && 0 <= f1 < NFILE && f0 != f1 && 0 <= i < MAX_PIPE && !t.bits[i]
      requires t.files[f0] == File(0, NoKind) && t.files[f1] == File(0, NoKind) && t.held[f0] == t.held[f1] == 0
      requires T() == PipeMade(Taken(Taken(t, f0), f1), i, f0, f1)
      modifies this`files, this`held, this`readopen, this`writeopen, this`bits
      ensures Valid() && files == t.files && held == t.held && bits == t.bits
    {
      hide Slots, PipeOk, Counted, FileOk;
      FileClose(f0);
      FileClose(f1);
      assert files == t.files && held == t.held && bits == t.bits;
    }

    /** syscallPipe; `delivered` says whether the two numbers could be copied out to the caller. */
    method SyscallPipe(p: int, delivered: bool) returns (ok: bool, fd0: int, fd1: int, ghost i: int)
      requires Valid() && 0 <= p < |procs|
      modifies this
      ensures Valid()
      ensures ok <==> OneFile(old(files)) || !AllSet(old(bits))
      ensures ok ==>
                held == old(held) && (fd0 < 0 <==> OneFile(old(files)) || OneFd(old(procs)[p], limit[p]) || !delivered)
      ensures ok && fd0 < 0 ==> procs == old(procs) && files == old(files) && bits == old(bits)
      ensures ok && fd0 >= 0 ==>
                && LowestFd(old(procs)[p], limit[p], fd0) && fd0 < fd1 && LowestPipe(old(bits), i)
                && bits == old(bits)[i := true]
                && exists f0, f1 ::
                     && FirstFile(old(files), f0) && 0 <= f0 < f1 < |old(files)|
                     && FirstFile(old(files)[f0 := File(1, NoKind)], f1)
                     && LowestFd(SetIn(old(procs), p, fd0, f0)[p], limit[p], fd1)
                     && procs == SetIn(SetIn(old(procs), p, fd0, f0), p, fd1, f1)
                     && files == old(files)[f0 := File(1, PipeEnd(i, false))][f1 := File(1, PipeEnd(i, true))]
    {
      hide Slots, PipeOk, Counted, FileOk, NoFile, OneFile, LowestPipe, FirstFile, LowestFd, OneFd;
      ghost var t := T();
      var f0, f1;
      ok, f0, f1, i := PipeNew();
      fd0, fd1 := -1, -1;
      if !ok || f0 == -1 {
        return;
      }
      ghost var t1 := T();
      PipeIsFree(t.bits, i);
      var pipe := files[f0].kind.pipe;
      fd0, fd1 := TwoFds(p, f0, f1);
      if fd1 >= 0 && delivered {
        MadeAs(t, i, f0, f1);
        return;
      }
      if fd1 >= 0 {
        LowestIsFree(t.procs, p, limit[p], fd0);
        SetAside(t.procs, p, fd0, f0, fd1, f1);
        var g := TakeFd(p, fd0);
        g := TakeFd(p, fd1);
      }
      assert procs == t.procs && held == t1.held;
      ClosePipe(t, pipe, f0, f1);
      fd0, fd1 := -1, -1;
    }

    /** The loop of processFork over the descriptors; child is a process without descriptors. */
    method ForkDescriptors(p: int, child: int)
      requires Valid() && 0 <= p < |procs| && 0 <= child < |procs| && p != child
      requires forall d :: 0 <= d < NOFILE ==> procs[child][d] == -1
      modifies this`files, this`procs, this`held
      ensures Valid() && held == old(held) && KindsOfLive(old(files), files)
      ensures procs == CopiedTo(old(procs), p, child, limit[child])
    {
      hide Slots, PipeOk, Counted, FileOk, CopiedTo, SetIn, KindsOfLive;
      ghost var procs0, held0, files0 := procs, held, files;
      AllKinds();
      assert CopiedTo(procs, p, child, 0) == procs by { CopyNone(procs, p, child); }
      var d := 0;
      while d < limit[child]
        invariant 0 <= d <= limit[child] && Valid() && held == held0 && KindsOfLive(files0, files)
        invariant |procs| == |procs0|
        invariant procs == CopiedTo(procs0, p, child, d)
      {
        var f := procs[p][d];
        CopyOne(procs0, p, child, d);
        if f != -1 {
          Alive(p, d);
          ghost var files1 := files;
          Share(child, d, f);
          LiveTwice(files0, files1, files);
        }
        d := d + 1;
      }
    }

    /** The loop of processFree over the descriptors. */
    method FreeDescriptors(p: int)
      requires Valid() && 0 <= p < |procs|
      modifies this
      ensures Valid() && held == old(held) && KindsOfLive(old(files), files)
      ensures procs == old(procs)[p := seq(NOFILE, d => -1)]
    {
      hide Slots, PipeOk, Counted, FileOk;
      ghost var procs0, held0, files0 := procs, held, files;
      AllKinds();
      assert seq(0, e => -1) + procs0[p][0..] == procs0[p];
      var d := 0;
      while d < NOFILE
        invariant 0 <= d <= NOFILE && Valid() && held == held0 && KindsOfLive(files0, files) && |procs| == |procs0|
        invariant procs == procs0[p := seq(d, e => -1) + procs0[p][d..]]
      {
        FreeOne(procs0, p, d);
        if procs[p][d] != -1 {
          ghost var files1 := files;
          DropFd(p, d);
          LiveTwice(files0, files1, files);
        }
        d := d + 1;
      }
      assert seq(NOFILE, e => -1) + procs0[p][NOFILE..] == seq(NOFILE, e => -1);
    }

    /** fcntl's dup: with no free descriptor the reference it takes is never given back. */
    method FcntlDup(p: int, fd: int) returns (r: int)
      requires Valid() && 0 <= p < |procs| && 0 <= fd < NOFILE && procs[p][fd] != -1
      modifies this`files, this`procs, this`held
      ensures Valid() && files == Dupped(old(T()), old(procs)[p][fd]).files && -1 <= r < limit[p]
      ensures r >= 0 ==>
                && held == old(held) && LowestFd(old(procs)[p], limit[p], r)
                && procs == SetIn(old(procs), p, r, old(procs)[p][fd])
      ensures r == -1 ==>
                procs == old(procs) && held == old(held)[old(procs)[p][fd] := old(held)[old(procs)[p][fd]] + 1]
      ensures r == -1 <==> NoFd(old(procs)[p], limit[p])
    {
      hide Slots, PipeOk, Counted, FileOk;
      var f := procs[p][fd];
      Alive(p, fd);
      r := FindFd(p);
      var ok := FileDup(f);
      if r >= 0 {
        SetFd(p, r, f);
      }
    }
  }

  /** dup3 of a descriptor onto itself, on a file opened once: the panic. */
  method DupOntoItself() returns (ft: FileTable, fd: int, ok: bool)
    ensures fresh(ft) && fd >= 0 && !ok
  {
    ft := new FileTable([1]);
    ghost var f;
    assert ft.procs[0][0] == -1 && ft.files[0].ref == 0;
    fd, f := ft.Open(0);
    var r;
    ok, r := ft.SyscallDupAndSet(0, fd, fd);
  }

  lemma MadeAs(t: Table, i: int, f0: int, f1: int)
    requires Shape(t) && 0 <= i < MAX_PIPE && 0 <= f0 < NFILE && 0 <= f1 < NFILE && f0 != f1
    requires t.files[f0] == File(0, NoKind) && t.files[f1] == File(0, NoKind)
    ensures Taken(t, f0).files == t.files[f0 := File(1, NoKind)]
    ensures var t' := PipeMade(Taken(Taken(t, f0), f1), i, f0, f1);
            && t'.files == t.files[f0 := File(1, PipeEnd(i, false))][f1 := File(1, PipeEnd(i, true))]
            && t'.bits == t.bits[i := true]
  {
  }

  lemma LowestIsFree(procs: seq<seq<int>>, p: int, limit: nat, d: int)
    requires 0 <= p < |procs| && LowestFd(procs[p], limit, d)
    ensures 0 <= d < |procs[p]| && procs[p][d] == -1
  {
  }

  lemma PipeIsFree(bits: seq<bool>, i: int)
    requires LowestPipe(bits, i)
    ensures 0 <= i < |bits| && !bits[i]
  {
  }

  /** Both descriptors taken back. */
  lemma SetAside(procs: seq<seq<int>>, p: int, d: int, f: int, e: int, g: int)
    requires 0 <= p < |procs| && 0 <= d < |procs[p]| && 0 <= e < |procs[p]| && d != e && procs[p][d] == -1
    requires procs[p][e] == -1
    ensures var r := SetIn(SetIn(procs, p, d, f), p, e, g);
            && r[p][d] == f && r[p][e] == g && SetIn(SetIn(r, p, d, -1), p, e, -1) == procs
            && SetIn(r, p, d, -1)[p][e] == g
  {
    assert procs[p][d := f][e := g][d := -1][e := -1] == procs[p];
  }

  lemma SetTwice(procs: seq<seq<int>>, p: int, d: int, f: int, g: int)
    requires 0 <= p < |procs| && 0 <= d < |procs[p]|
    ensures SetIn(SetIn(procs, p, d, f), p, d, g) == SetIn(procs, p, d, g)
  {
    assert procs[p][d := f][d := g] == procs[p][d := g];
  }

  lemma SetBack(procs: seq<seq<int>>, p: int, d: int)
    requires 0 <= p < |procs| && 0 <= d < |procs[p]| && procs[p][d] == -1
    ensures SetIn(procs, p, d, -1) == procs
  {
    assert procs[p][d := -1] == procs[p];
  }

  /** The child has the parent's first d descriptors. */
  function CopiedTo(procs: seq<seq<int>>, p: int, child: int, d: int): seq<seq<int>>
    requires 0 <= p < |procs| && 0 <= child < |procs| && 0 <= d <= |procs[p]| == |procs[child]|
  {
    procs[child := procs[p][..d] + procs[child][d..]]
  }

  lemma CopyNone(procs: seq<seq<int>>, p: int, child: int)
    requires 0 <= p < |procs| && 0 <= child < |procs| && |procs[p]| == |procs[child]|
    ensures CopiedTo(procs, p, child, 0) == procs
  {
    assert procs[p][..0] + procs[child][0..] == procs[child];
  }

  lemma CopyOne(procs: seq<seq<int>>, p: int, child: int, d: int)
    requires 0 <= p < |procs| && 0 <= child < |procs| && p != child && 0 <= d < |procs[p]| == |procs[child]|
    requires procs[child][d] == -1
    ensures var r := CopiedTo(procs, p, child, d);
            && |r| == |procs| && r[p] == procs[p] && |r[child]| == |procs[child]| && r[child][d] == -1
            && SetIn(r, child, d, procs[p][d]) == CopiedTo(procs, p, child, d + 1)
            && (procs[p][d] == -1 ==> r == CopiedTo(procs, p, child, d + 1))
  {
    var row, next := procs[p][..d] + procs[child][d..], procs[p][..d + 1] + procs[child][d + 1..];
    assert row[d := procs[p][d]] == next;
    assert procs[p][d] == -1 ==> row == next;
  }

  lemma FreeOne(procs: seq<seq<int>>, p: int, d: int)
    requires 0 <= p < |procs| && 0 <= d < |procs[p]|
    ensures var r := procs[p := seq(d, e => -1) + procs[p][d..]];
            && |r[p]| == |procs[p]| && r[p][d] == procs[p][d]
            && SetIn(r, p, d, -1) == procs[p := seq(d + 1, e => -1) + procs[p][d + 1..]]
            && (procs[p][d] == -1 ==> r == procs[p := seq(d + 1, e => -1) + procs[p][d + 1..]])
  {
    var row, next := seq(d, e => -1) + procs[p][d..], seq(d + 1, e => -1) + procs[p][d + 1..];
    assert row[d := -1] == next;
    assert procs[p][d] == -1 ==> row == next;
  }

  lemma LiveTwice(a: seq<File>, b: seq<File>, c: seq<File>)
    requires KindsOfLive(a, b) && KindsOfLive(b, c) && forall g :: 0 <= g < |c| ==> (c[g].ref > 0 ==> b[g].ref > 0)
    ensures KindsOfLive(a, c)
  {
  }
}
