/**
 Demand paging: the segment list of a process (kernel/trap/Exec.c) and the page
 that pageout builds from it (kernel/memory/Page.c).  Loading a page late gives
 the bytes the whole program image has there, in whatever order the list stands.
 */
module Segments {
  import opened Bytes
  import opened PageEntry

  /** ProcessSegmentMap; `file` is what the source file holds, `flags` the permission bits. */
  datatype Segment = Segment(va: nat, len: nat, fileOffset: nat, file: seq<Byte>, zero: bool, flags: Pte)

  function Min(a: int, b: int): int { if a <= b then a else b }
  function Max(a: int, b: int): int { if a >= b then a else b }

  /** eread of n bytes at off: what the file has there, which may be fewer. */
  function ReadFile(file: seq<Byte>, off: nat, n: nat): (r: seq<Byte>)
    ensures |r| <= n
  {
    if off > |file| then [] else file[off..Min(off + n, |file|)]
  }

  predicate Overlaps(g: Segment, page: nat) {
    Max(g.va, page * 4096) < Min(g.va + g.len, (page + 1) * 4096)
  }

  predicate Covers(g: Segment, a: nat) {
    g.va <= a < g.va + g.len
  }

  // ---------- what pageout computes ----------

  /** One turn of pageout's loop on the page's bytes. */
  function LoadSegment(g: Segment, page: nat, b: seq<Byte>): (r: seq<Byte>)
    requires |b| == PAGE_SIZE
    ensures |r| == PAGE_SIZE
  {
    if Overlaps(g, page) && !g.zero then
      var start := Max(g.va, page * 4096);
      var finish := Min(g.va + g.len, (page + 1) * 4096);
      Patch(b, start - page * 4096, ReadFile(g.file, g.fileOffset + start - g.va, finish - start))
    else b
  }

  function LoadAll(segs: seq<Segment>, page: nat, b: seq<Byte>): (r: seq<Byte>)
    requires |b| == PAGE_SIZE
    ensures |r| == PAGE_SIZE
  {
    if segs == [] then b else LoadAll(segs[1..], page, LoadSegment(segs[0], page, b))
  }

  /** The page built from nothing. */
  function PageImage(segs: seq<Segment>, page: nat): (r: seq<Byte>)
    ensures |r| == PAGE_SIZE
  {
    LoadAll(segs, page, ZeroBytes())
  }

  function Or(a: Pte, b: Pte): Pte {
    Pte(a.valid || b.valid, a.read || b.read, a.write || b.write, a.exec || b.exec, a.user || b.user,
        a.global || b.global, a.accessed || b.accessed, a.dirty || b.dirty, a.cow || b.cow, a.soft || b.soft, 0, 0)
  }

  function PagePerm(segs: seq<Segment>, page: nat): (p: Pte)
    ensures p.ppn == 0 && p.high == 0
  {
    if segs == [] then ZERO
    else Or(if Overlaps(segs[0], page) then segs[0].flags else ZERO, PagePerm(segs[1..], page))
  }

  predicate Touched(segs: seq<Segment>, page: nat) {
    exists i :: 0 <= i < |segs| && Overlaps(segs[i], page)
  }

  /** Some segment that touches the page has the flag. */
  predicate Granted(segs: seq<Segment>, page: nat, has: Pte -> bool) {
    exists i :: 0 <= i < |segs| && Overlaps(segs[i], page) && has(segs[i].flags)
  }

  lemma {:induction false} PermHas(segs: seq<Segment>, page: nat, has: Pte -> bool)
    requires !has(ZERO) && forall a, b :: has(Or(a, b)) <==> has(a) || has(b)
    ensures has(PagePerm(segs, page)) <==> Granted(segs, page, has)
  {
    hide Or, Overlaps;
    if segs != [] {
      PermHas(segs[1..], page, has);
      assert forall i :: 0 < i < |segs| ==> segs[i] == segs[1..][i - 1];
      if Granted(segs[1..], page, has) {
        var i :| 0 <= i < |segs[1..]| && Overlaps(segs[1..][i], page) && has(segs[1..][i].flags);
        assert segs[i + 1] == segs[1..][i];
      }
    }
  }

  /** The permissions of a page are exactly those that some segment on it has. */
  ghost predicate JoinsFlags(segs: seq<Segment>, page: nat, p: Pte) {
    && (p.read <==> Granted(segs, page, (w: Pte) => w.read)) && (p.write <==> Granted(segs, page, (w: Pte) => w.write))
    && (p.exec <==> Granted(segs, page, (w: Pte) => w.exec)) && (p.user <==> Granted(segs, page, (w: Pte) => w.user))
    && (p.valid <==> Granted(segs, page, (w: Pte) => w.valid)) && (p.cow <==> Granted(segs, page, (w: Pte) => w.cow))
    && (p.accessed <==> Granted(segs, page, (w: Pte) => w.accessed))
    && (p.dirty <==> Granted(segs, page, (w: Pte) => w.dirty))
  }

  lemma PagePermIff(segs: seq<Segment>, page: nat)
    ensures JoinsFlags(segs, page, PagePerm(segs, page))
  {
    hide PagePerm, Granted;
    PermHas(segs, page, (w: Pte) => w.read);
    PermHas(segs, page, (w: Pte) => w.write);
    PermHas(segs, page, (w: Pte) => w.exec);
    PermHas(segs, page, (w: Pte) => w.user);
    PermHas(segs, page, (w: Pte) => w.valid);
    PermHas(segs, page, (w: Pte) => w.cow);
    PermHas(segs, page, (w: Pte) => w.accessed);
    PermHas(segs, page, (w: Pte) => w.dirty);
  }

  lemma {:induction false} LoadAllAppend(a: seq<Segment>, g: Segment, page: nat, b: seq<Byte>)
    requires |b| == PAGE_SIZE
    ensures LoadAll(a + [g], page, b) == LoadSegment(g, page, LoadAll(a, page, b))
  {
    if a == [] {
      assert a + [g] == [g];
      assert LoadAll([g], page, b) == LoadAll([g][1..], page, LoadSegment(g, page, b));
    } else {
      assert (a + [g])[1..] == a[1..] + [g];
      LoadAllAppend(a[1..], g, page, LoadSegment(a[0], page, b));
    }
  }

  lemma {:induction false} LoadAllUntouched(segs: seq<Segment>, page: nat, b: seq<Byte>)
    requires |b| == PAGE_SIZE && !Touched(segs, page)
    ensures LoadAll(segs, page, b) == b
  {
    if segs != [] {
      assert !Overlaps(segs[0], page);
      assert forall i :: 0 <= i < |segs[1..]| ==> segs[1..][i] == segs[i + 1];
      LoadAllUntouched(segs[1..], page, b);
    }
  }

  lemma TouchedAppend(a: seq<Segment>, g: Segment, page: nat)
    ensures Touched(a + [g], page) <==> Touched(a, page) || Overlaps(g, page)
  {
    assert (a + [g])[|a|] == g;
    assert forall i :: 0 <= i < |a| ==> (a + [g])[i] == a[i];
  }

  lemma LoadSegmentCases(g: Segment, page: nat, b: seq<Byte>)
    requires |b| == PAGE_SIZE
    ensures var start, finish := Max(g.va, page * 4096), Min(g.va + g.len, (page + 1) * 4096);
            && (start < finish <==> Overlaps(g, page))
            && LoadSegment(g, page, b) ==
            if start < finish && !g.zero then
              Patch(b, start - page * 4096, ReadFile(g.file, g.fileOffset + start - g.va, finish - start))
            else b
  {
    hide Patch, ReadFile;
  }

  lemma NoPerm(page: nat)
    ensures PagePerm([], page) == ZERO && !Touched([], page)
  {
  }

  lemma {:induction false} OrZero(segs: seq<Segment>, page: nat)
    ensures Or(PagePerm(segs, page), ZERO) == PagePerm(segs, page)
  {
  }

  /** Every segment grants write access, as exec makes them. */
  predicate AllWritable(segs: seq<Segment>) {
    forall i :: 0 <= i < |segs| ==> segs[i].flags.write
  }

  lemma {:induction false} TouchedIsWritable(segs: seq<Segment>, page: nat)
    requires AllWritable(segs) && Touched(segs, page)
    ensures PagePerm(segs, page).write
  {
    if !Overlaps(segs[0], page) {
      var i :| 0 <= i < |segs| && Overlaps(segs[i], page);
      assert segs[1..][i - 1] == segs[i];
      TouchedIsWritable(segs[1..], page);
    }
  }

  // ---------- the eager image ----------

  function SegmentByte(g: Segment, a: nat): Byte
    requires Covers(g, a)
  {
    var o := g.fileOffset + a - g.va;
    if !g.zero && o < |g.file| then g.file[o] else 0
  }

  /** The byte a program sees at address a when everything is loaded at once. */
  function EagerByte(segs: seq<Segment>, a: nat): Byte {
    if segs == [] then 0
    else if Covers(segs[0], a) then SegmentByte(segs[0], a)
    else EagerByte(segs[1..], a)
  }

  ghost predicate Disjoint(segs: seq<Segment>) {
    forall i, j, a :: 0 <= i < j < |segs| && Covers(segs[i], a) ==> !Covers(segs[j], a)
  }

  ghost predicate Uncovered(segs: seq<Segment>, a: nat) {
    forall i :: 0 <= i < |segs| ==> !Covers(segs[i], a)
  }

  lemma LoadSegmentByte(g: Segment, page: nat, b: seq<Byte>, o: nat)
    requires |b| == PAGE_SIZE && o < PAGE_SIZE
    requires Covers(g, page * 4096 + o) ==> b[o] == 0
    ensures LoadSegment(g, page, b)[o] ==
            if Covers(g, page * 4096 + o) then SegmentByte(g, page * 4096 + o) else b[o]
  {
  }

  lemma {:induction false} LoadAllByte(segs: seq<Segment>, page: nat, b: seq<Byte>, o: nat)
    requires |b| == PAGE_SIZE && o < PAGE_SIZE && Disjoint(segs)
    requires Uncovered(segs, page * 4096 + o) || b[o] == 0
    ensures LoadAll(segs, page, b)[o] ==
            if Uncovered(segs, page * 4096 + o) then b[o] else EagerByte(segs, page * 4096 + o)
  {
    var a := page * 4096 + o;
    if segs != [] {
      var rest := segs[1..];
      LoadSegmentByte(segs[0], page, b, o);
      assert Disjoint(rest) by {
        forall i, j, x: nat | 0 <= i < j < |rest| && Covers(rest[i], x) ensures !Covers(rest[j], x) {
          assert rest[i] == segs[i + 1] && rest[j] == segs[j + 1];
        }
      }
      assert Covers(segs[0], a) ==> Uncovered(rest, a) by {
        assert forall i :: 0 <= i < |rest| ==> rest[i] == segs[i + 1];
      }
      assert Uncovered(segs, a) <==> !Covers(segs[0], a) && Uncovered(rest, a) by {
        assert forall i :: 0 < i < |segs| ==> segs[i] == rest[i - 1];
      }
      LoadAllByte(rest, page, LoadSegment(segs[0], page, b), o);
    }
  }

  lemma {:induction false} UncoveredIsZero(segs: seq<Segment>, a: nat)
    requires Uncovered(segs, a)
    ensures EagerByte(segs, a) == 0
  {
    if segs != [] {
      UncoveredIsZero(segs[1..], a);
    }
  }

  /** Lazy loading agrees with eager loading, byte for byte. */
  lemma LazyIsEager(segs: seq<Segment>, page: nat, o: nat)
    requires Disjoint(segs) && o < PAGE_SIZE
    ensures PageImage(segs, page)[o] == EagerByte(segs, page * 4096 + o)
  {
    LoadAllByte(segs, page, ZeroBytes(), o);
    if Uncovered(segs, page * 4096 + o) {
      UncoveredIsZero(segs, page * 4096 + o);
    }
  }

  // ---------- the order of the list does not matter ----------

  function Reverse(segs: seq<Segment>): (r: seq<Segment>)
    ensures |r| == |segs|
    ensures forall i :: 0 <= i < |segs| ==> r[i] == segs[|segs| - 1 - i]
  {
    if segs == [] then [] else Reverse(segs[1..]) + [segs[0]]
  }

  lemma {:induction false} EagerIs(segs: seq<Segment>, i: nat, a: nat)
    requires Disjoint(segs) && i < |segs| && Covers(segs[i], a)
    ensures EagerByte(segs, a) == SegmentByte(segs[i], a)
  {
    if i > 0 {
      var rest := segs[1..];
      assert Disjoint(rest) by {
        forall k, j, x: nat | 0 <= k < j < |rest| && Covers(rest[k], x) ensures !Covers(rest[j], x) {
          assert rest[k] == segs[k + 1] && rest[j] == segs[j + 1];
        }
      }
      EagerIs(rest, i - 1, a);
    }
  }

  lemma ReverseEager(segs: seq<Segment>, a: nat)
    requires Disjoint(segs)
    ensures Disjoint(Reverse(segs)) && EagerByte(Reverse(segs), a) == EagerByte(segs, a)
  {
    var r := Reverse(segs);
    var n := |segs|;
    assert forall i :: 0 <= i < n ==> segs[i] == r[n - 1 - i];
    if i :| 0 <= i < n && Covers(segs[i], a) {
      EagerIs(segs, i, a);
      EagerIs(r, n - 1 - i, a);
    } else {
      UncoveredIsZero(segs, a);
      UncoveredIsZero(r, a);
    }
  }

  lemma {:induction false} PagePermAppend(a: seq<Segment>, g: Segment, page: nat)
    ensures PagePerm(a + [g], page) == Or(PagePerm(a, page), if Overlaps(g, page) then g.flags else ZERO)
  {
    if a == [] {
      assert a + [g] == [g];
    } else {
      assert (a + [g])[1..] == a[1..] + [g];
      PagePermAppend(a[1..], g, page);
    }
  }

  lemma {:induction false} ReversePerm(segs: seq<Segment>, page: nat)
    ensures PagePerm(Reverse(segs), page) == PagePerm(segs, page)
  {
    if segs != [] {
      ReversePerm(segs[1..], page);
      PagePermAppend(Reverse(segs[1..]), segs[0], page);
    }
  }

  /** A child's reversed list gives the same pages with the same permissions. */
  lemma ReverseSamePages(segs: seq<Segment>, page: nat)
    requires Disjoint(segs)
    ensures PageImage(Reverse(segs), page) == PageImage(segs, page)
    ensures PagePerm(Reverse(segs), page) == PagePerm(segs, page)
    ensures Touched(Reverse(segs), page) <==> Touched(segs, page)
  {
    var r := Reverse(segs);
    forall o: nat | o < PAGE_SIZE ensures PageImage(r, page)[o] == PageImage(segs, page)[o] {
      ReverseEager(segs, page * 4096 + o);
      LazyIsEager(segs, page, o);
      LazyIsEager(r, page, o);
    }
    ReversePerm(segs, page);
    assert forall i :: 0 <= i < |segs| ==> segs[i] == r[|segs| - 1 - i];
  }

  /** processFork's loop over the parent's list: each copy goes to the child's head. */
  method ForkSegments(segs: seq<Segment>) returns (child: seq<Segment>)
    ensures child == Reverse(segs)
  {
    child := [];
    for i := 0 to |segs|
      invariant child == Reverse(segs[..i])
    {
      child := [segs[i]] + child;
      ReversePush(segs[..i], segs[i]);
      assert segs[..i + 1] == segs[..i] + [segs[i]];
    }
    assert segs[..|segs|] == segs;
  }

  lemma {:induction false} ReversePush(a: seq<Segment>, g: Segment)
    ensures Reverse(a + [g]) == [g] + Reverse(a)
  {
    if a != [] {
      assert (a + [g])[1..] == a[1..] + [g];
      ReversePush(a[1..], g);
    }
  }

  // ---------- the segments of an executable ----------

  /** A program header. */
  datatype Header = Header(load: bool, vaddr: nat, memsz: nat, filesz: nat, offset: nat)

  const RWX: Pte := ZERO.(read := true, write := true, exec := true)
  const RW: Pte := ZERO.(read := true, write := true)

  function SegmentsOf(h: Header, file: seq<Byte>, base: nat): (r: seq<Segment>)
    requires h.filesz <= h.memsz
  {
    (if h.memsz > h.filesz then [Segment(h.vaddr + h.filesz + base, h.memsz - h.filesz, 0, [], true, RW)] else [])
    + (if h.filesz > 0 then [Segment(h.vaddr + base, h.filesz, h.offset, file, false, RWX)] else [])
  }

  /** What one header adds to the list. */
  function Own(h: Header, file: seq<Byte>, base: nat): seq<Segment>
    requires h.load ==> h.filesz <= h.memsz
  {
    if h.load then SegmentsOf(h, file, base) else []
  }

  predicate WellSized(hs: seq<Header>) {
    forall i :: 0 <= i < |hs| && hs[i].load ==> hs[i].filesz <= hs[i].memsz
  }

  function ProgramSegments(hs: seq<Header>, file: seq<Byte>, base: nat): seq<Segment>
    requires WellSized(hs)
  {
    if hs == [] then []
    else
      var rest := hs[..|hs| - 1];
      var h := hs[|hs| - 1];
      Own(h, file, base) + ProgramSegments(rest, file, base)
  }

  /** One turn of exec's loop. */
  method LoadHeader(segs: seq<Segment>, h: Header, file: seq<Byte>, base: nat) returns (ok: bool, r: seq<Segment>)
    ensures ok <==> (h.load ==> h.filesz <= h.memsz)
    ensures ok ==> r == Own(h, file, base) + segs
  {
    r := segs;
    if h.load {
      if h.memsz < h.filesz {
        return false, segs;
      }
      if h.filesz > 0 {
        r := [Segment(h.vaddr + base, h.filesz, h.offset, file, false, RWX)] + r;
      }
      if h.memsz > h.filesz {
        r := [Segment(h.vaddr + h.filesz + base, h.memsz - h.filesz, 0, [], true, RW)] + r;
      }
    }
    ok := true;
  }

  /** The PT_LOAD loop of exec: newest segment first; a header with memsz < filesz is an error. */
  method LoadProgram(hs: seq<Header>, file: seq<Byte>, base: nat) returns (ok: bool, segs: seq<Segment>)
    ensures ok <==> WellSized(hs)
    ensures ok ==> segs == ProgramSegments(hs, file, base)
  {
    hide ProgramSegments, Own;
    segs := [];
    NoHeaders(file, base);
    for i := 0 to |hs|
      invariant WellSized(hs[..i]) && segs == ProgramSegments(hs[..i], file, base)
    {
      ok, segs := LoadHeader(segs, hs[i], file, base);
      if !ok {
        return;
      }
      ProgramStep(hs, file, base, i);
    }
    assert hs[..|hs|] == hs;
    ok := true;
  }

  lemma NoHeaders(file: seq<Byte>, base: nat)
    ensures ProgramSegments([], file, base) == []
  {
  }

  lemma ProgramStep(hs: seq<Header>, file: seq<Byte>, base: nat, i: nat)
    requires i < |hs| && WellSized(hs[..i]) && (hs[i].load ==> hs[i].filesz <= hs[i].memsz)
    ensures WellSized(hs[..i + 1])
    ensures ProgramSegments(hs[..i + 1], file, base) == Own(hs[i], file, base) + ProgramSegments(hs[..i], file, base)
  {
    assert hs[..i + 1][..i] == hs[..i];
  }

  predicate InProgram(h: Header, base: nat, a: nat) {
    h.load && h.vaddr + base <= a < h.vaddr + base + h.memsz
  }

  /** Program headers that load to disjoint address ranges. */
  ghost predicate DisjointHeaders(hs: seq<Header>, base: nat) {
    forall i, j, a :: 0 <= i < j < |hs| && InProgram(hs[i], base, a) ==> !InProgram(hs[j], base, a)
  }

  /** The ELF image: file bytes, then zeros up to memsz. */
  function ElfByte(hs: seq<Header>, file: seq<Byte>, base: nat, a: nat): Byte
  {
    if hs == [] then 0
    else
      var h := hs[|hs| - 1];
      if InProgram(h, base, a) then
        var o := a - h.vaddr - base;
        if o < h.filesz && h.offset + o < |file| then file[h.offset + o] else 0
      else ElfByte(hs[..|hs| - 1], file, base, a)
  }

  lemma EagerAppend(x: seq<Segment>, y: seq<Segment>, a: nat)
    ensures EagerByte(x + y, a) == if Uncovered(x, a) then EagerByte(y, a) else EagerByte(x, a)
  {
    if x == [] {
      assert x + y == y;
    } else {
      assert (x + y)[1..] == x[1..] + y;
      EagerAppend(x[1..], y, a);
      assert Uncovered(x, a) <==> !Covers(x[0], a) && Uncovered(x[1..], a) by {
        assert forall i :: 0 < i < |x| ==> x[i] == x[1..][i - 1];
      }
    }
  }

  /** The segment list of a loaded program is its ELF image. */
  lemma {:induction false} SegmentsAreElf(hs: seq<Header>, file: seq<Byte>, base: nat, a: nat)
    requires WellSized(hs)
    ensures EagerByte(ProgramSegments(hs, file, base), a) == ElfByte(hs, file, base, a)
  {
    hide SegmentsOf, Uncovered, Own, Covers, SegmentByte, ProgramSegments;
    if hs == [] {
      NoHeaders(file, base);
    } else {
      var n := |hs| - 1;
      assert hs[..n + 1] == hs;
      SegmentsAreElf(hs[..n], file, base, a);
      ProgramStep(hs, file, base, n);
      ElfStep(hs, file, base, a);
    }
  }

  /** The segments of the last header lie over the others. */
  lemma ElfStep(hs: seq<Header>, file: seq<Byte>, base: nat, a: nat)
    requires WellSized(hs) && hs != []
    requires var rest := hs[..|hs| - 1];
             EagerByte(ProgramSegments(rest, file, base), a) == ElfByte(rest, file, base, a)
    ensures var rest := hs[..|hs| - 1];
            EagerByte(Own(hs[|hs| - 1], file, base) + ProgramSegments(rest, file, base), a) ==
            ElfByte(hs, file, base, a)
  {
    hide SegmentsOf, EagerByte, Uncovered, Own, Covers, SegmentByte, ProgramSegments;
    EagerAppend(Own(hs[|hs| - 1], file, base), ProgramSegments(hs[..|hs| - 1], file, base), a);
    OwnByte(hs[|hs| - 1], file, base, a);
  }

  lemma OwnByte(h: Header, file: seq<Byte>, base: nat, a: nat)
    requires h.load ==> h.filesz <= h.memsz
    ensures var own := Own(h, file, base);
            && (Uncovered(own, a) <==> !InProgram(h, base, a))
            && (InProgram(h, base, a) ==>
                  var o := a - h.vaddr - base;
                  EagerByte(own, a) == if o < h.filesz && h.offset + o < |file| then file[h.offset + o] else 0)
  {
    if h.load {
      var own := Own(h, file, base);
      if h.filesz > 0 {
        assert own[|own| - 1] == Segment(h.vaddr + base, h.filesz, h.offset, file, false, RWX);
      }
      if h.memsz > h.filesz {
        assert own[0] == Segment(h.vaddr + h.filesz + base, h.memsz - h.filesz, 0, [], true, RW);
      }
      assert |own| == 2 ==> own[1..] == [own[1]];
    }
  }

  /** Headers with disjoint ranges give disjoint segments, so every page of a
      program is built correctly however late it is touched. */
  lemma {:induction false} ProgramDisjoint(hs: seq<Header>, file: seq<Byte>, base: nat)
    requires WellSized(hs) && DisjointHeaders(hs, base)
    ensures Disjoint(ProgramSegments(hs, file, base))
    ensures forall k, a ::
              0 <= k < |ProgramSegments(hs, file, base)| && Covers(ProgramSegments(hs, file, base)[k], a) ==>
              exists i :: 0 <= i < |hs| && InProgram(hs[i], base, a)
  {
    if hs != [] {
      var n := |hs| - 1;
      var rest := hs[..n];
      ProgramDisjoint(rest, file, base);
      var own := Own(hs[n], file, base);
      OwnDisjoint(hs[n], file, base);
      hide Own, Covers, InProgram;
      var earlier := ProgramSegments(rest, file, base);
      var all := ProgramSegments(hs, file, base);
      assert all == own + earlier;
      assert forall k :: 0 <= k < n ==> rest[k] == hs[k];
      assert forall k :: |own| <= k < |all| ==> all[k] == earlier[k - |own|];
      forall i, j, a: nat | 0 <= i < j < |all| && Covers(all[i], a) ensures !Covers(all[j], a) {
        if i < |own| <= j {
          assert InProgram(hs[n], base, a);
        }
      }
      forall k, a: nat | 0 <= k < |all| && Covers(all[k], a)
        ensures exists i :: 0 <= i < |hs| && InProgram(hs[i], base, a)
      {
        if k < |own| {
          assert InProgram(hs[n], base, a);
        } else {
          var i :| 0 <= i < |rest| && InProgram(rest[i], base, a);
          assert hs[i] == rest[i];
        }
      }
    }
  }

  lemma OwnDisjoint(h: Header, file: seq<Byte>, base: nat)
    requires h.load ==> h.filesz <= h.memsz
    ensures Disjoint(Own(h, file, base))
    ensures forall k, a :: 0 <= k < |Own(h, file, base)| && Covers(Own(h, file, base)[k], a) ==> InProgram(h, base, a)
  {
  }

  lemma PagesOfAProgram(hs: seq<Header>, file: seq<Byte>, base: nat, page: nat, o: nat)
    requires WellSized(hs) && DisjointHeaders(hs, base) && o < PAGE_SIZE
    ensures PageImage(ProgramSegments(hs, file, base), page)[o] == ElfByte(hs, file, base, page * 4096 + o)
    ensures PageImage(Reverse(ProgramSegments(hs, file, base)), page)[o] == ElfByte(hs, file, base, page * 4096 + o)
  {
    var segs := ProgramSegments(hs, file, base);
    ProgramDisjoint(hs, file, base);
    LazyIsEager(segs, page, o);
    SegmentsAreElf(hs, file, base, page * 4096 + o);
    ReverseSamePages(segs, page);
  }

  /** Address a belongs to the file part of a header. */
  predicate InFile(h: Header, base: nat, a: nat) {
    h.load && h.vaddr + base <= a < h.vaddr + base + h.filesz
  }

  /** Some byte of the page belongs to the file part of the header, or to the header at all. */
  ghost predicate FileOn(h: Header, base: nat, page: nat) {
    exists a: nat :: a / 4096 == page && InFile(h, base, a)
  }

  ghost predicate ProgramOn(h: Header, base: nat, page: nat) {
    exists a: nat :: a / 4096 == page && InProgram(h, base, a)
  }

  /** The rights of a program's pages: readable and writable where any header reaches, and executable where the file
      part of one does. */
  lemma ProgramRights(hs: seq<Header>, file: seq<Byte>, base: nat, page: nat)
    requires WellSized(hs)
    ensures var p := PagePerm(ProgramSegments(hs, file, base), page);
            && (p.exec <==> exists i :: 0 <= i < |hs| && FileOn(hs[i], base, page))
            && (p.read <==> exists i :: 0 <= i < |hs| && ProgramOn(hs[i], base, page))
            && (p.write <==> p.read)
  {
    hide PagePerm, ProgramSegments, Granted, FileOn, ProgramOn;
    PagePermIff(ProgramSegments(hs, file, base), page);
    ProgramGrants(hs, file, base, page);
  }

  lemma {:induction false} ProgramGrants(hs: seq<Header>, file: seq<Byte>, base: nat, page: nat)
    requires WellSized(hs)
    ensures var segs := ProgramSegments(hs, file, base);
            && (Granted(segs, page, (w: Pte) => w.exec) <==> exists i :: 0 <= i < |hs| && FileOn(hs[i], base, page))
            && (Granted(segs, page, (w: Pte) => w.read) <==> exists i :: 0 <= i < |hs| && ProgramOn(hs[i], base, page))
            && (Granted(segs, page, (w: Pte) => w.write) <==> Granted(segs, page, (w: Pte) => w.read))
  {
    hide ProgramSegments, FileOn, ProgramOn, Own;
    if hs == [] {
      NoHeaders(file, base);
    } else {
      var n := |hs| - 1;
      assert hs[..n + 1] == hs;
      ProgramGrants(hs[..n], file, base, page);
      ProgramStep(hs, file, base, n);
      var own, rest := Own(hs[n], file, base), ProgramSegments(hs[..n], file, base);
      OwnGrants(hs[n], file, base, page);
      GrantedAppend(own, rest, page, (w: Pte) => w.exec);
      GrantedAppend(own, rest, page, (w: Pte) => w.read);
      GrantedAppend(own, rest, page, (w: Pte) => w.write);
      OneMore(hs, base, page);
    }
  }

  lemma OneMore(hs: seq<Header>, base: nat, page: nat)
    requires hs != []
    ensures var rest := hs[..|hs| - 1];
            && ((exists i :: 0 <= i < |hs| && FileOn(hs[i], base, page)) <==>
                FileOn(hs[|hs| - 1], base, page) || exists i :: 0 <= i < |rest| && FileOn(rest[i], base, page))
            && ((exists i :: 0 <= i < |hs| && ProgramOn(hs[i], base, page)) <==>
                ProgramOn(hs[|hs| - 1], base, page) || exists i :: 0 <= i < |rest| && ProgramOn(rest[i], base, page))
  {
    hide FileOn, ProgramOn;
    var rest := hs[..|hs| - 1];
    assert forall i :: 0 <= i < |rest| ==> rest[i] == hs[i];
  }

  lemma GrantedAppend(x: seq<Segment>, y: seq<Segment>, page: nat, has: Pte -> bool)
    ensures Granted(x + y, page, has) <==> Granted(x, page, has) || Granted(y, page, has)
  {
    hide Overlaps;
    if Granted(x, page, has) {
      var i :| 0 <= i < |x| && Overlaps(x[i], page) && has(x[i].flags);
      assert (x + y)[i] == x[i];
    }
    if Granted(y, page, has) {
      var i :| 0 <= i < |y| && Overlaps(y[i], page) && has(y[i].flags);
      assert (x + y)[|x| + i] == y[i];
    }
  }

  lemma OwnGrants(h: Header, file: seq<Byte>, base: nat, page: nat)
    requires h.load ==> h.filesz <= h.memsz
    ensures var own := Own(h, file, base);
            && (Granted(own, page, (w: Pte) => w.exec) <==> FileOn(h, base, page))
            && (Granted(own, page, (w: Pte) => w.read) <==> ProgramOn(h, base, page))
            && (Granted(own, page, (w: Pte) => w.write) <==> Granted(own, page, (w: Pte) => w.read))
  {
    hide FileOn, ProgramOn, Overlaps;
    var own := Own(h, file, base);
    if h.load {
      var f := Segment(h.vaddr + base, h.filesz, h.offset, file, false, RWX);
      var z := Segment(h.vaddr + h.filesz + base, h.memsz - h.filesz, 0, [], true, RW);
      FilePart(h, f, base, page);
      ZeroPart(h, f, z, base, page);
      assert h.filesz > 0 ==> own[|own| - 1] == f;
      assert h.memsz > h.filesz ==> own[0] == z;
    } else {
      NothingOn(h, base, page);
    }
  }

  lemma NothingOn(h: Header, base: nat, page: nat)
    ensures !h.load ==> !FileOn(h, base, page) && !ProgramOn(h, base, page)
  {
  }

  lemma FilePart(h: Header, f: Segment, base: nat, page: nat)
    requires h.load && f.va == h.vaddr + base && f.len == h.filesz
    ensures (FileOn(h, base, page) <==> Overlaps(f, page)) && (f.len == 0 ==> !Overlaps(f, page))
  {
    if Overlaps(f, page) {
      var a := Max(f.va, page * 4096);
      assert a / 4096 == page && InFile(h, base, a);
    }
  }

  lemma ZeroPart(h: Header, f: Segment, z: Segment, base: nat, page: nat)
    requires h.load && h.filesz <= h.memsz && f.va == h.vaddr + base && f.len == h.filesz
    requires z.va == h.vaddr + h.filesz + base && z.len == h.memsz - h.filesz
    ensures ProgramOn(h, base, page) <==> Overlaps(f, page) || Overlaps(z, page)
    ensures z.len == 0 ==> !Overlaps(z, page)
  {
    if Overlaps(f, page) {
      var a := Max(f.va, page * 4096);
      assert a / 4096 == page && InProgram(h, base, a);
    }
    if Overlaps(z, page) {
      var a := Max(z.va, page * 4096);
      assert a / 4096 == page && InProgram(h, base, a);
    }
  }
}
