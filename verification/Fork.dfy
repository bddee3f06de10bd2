/**
 processFork (kernel/yield/Clone.c): the three nested loops that share every page
 of the parent with the child, copy-on-write.  Afterwards the child sees what the
 parent saw, the parent sees what it saw before, and no page is writable in two
 places.
 */
module Fork {
  import opened Sequences
  import opened Bytes
  import opened PageEntry
  import opened Tables
  import opened Frames
  import opened Segments
  import opened AddressSpace
  import opened Memory

  /** Pages the loops copy: all but the two trampoline pages. */
  ghost predicate Forks(s: Phys, parent: int, q: int) {
    Lookup(s.tb, parent, q).valid && q != TRAMPOLINE_PAGE && q != TRAMPOLINE_PAGE + 1
  }

  /** pa2[k] |= PTE_COW and pa2[k] &= ~PTE_WRITE, for a writable entry. */
  function Marked(w: Pte): Pte {
    if w.write then w.(cow := true, write := false) else w
  }

  function ChildEntry(w: Pte): Pte {
    LeafEntry(w.ppn, Marked(w).(ppn := 0))
  }

  lemma MarkedFacts(w: Pte)
    ensures Target(Marked(w)) == Target(w) && Marked(w).valid == w.valid && !Marked(w).write
    ensures RightsOf(Marked(w)) == RightsOf(w) && Marked(w).user == w.user
    ensures w.write || w.cow ==> Marked(w).cow
    ensures w.valid ==> Target(ChildEntry(w)) == Target(w)
    ensures ChildEntry(w).valid && !ChildEntry(w).write && ChildEntry(w).cow == Marked(w).cow
    ensures RightsOf(ChildEntry(w)) == RightsOf(w) && ChildEntry(w).user == w.user
  {
    var m := Marked(w);
    assert m.ppn == w.ppn && m.valid == w.valid && m.read == w.read && m.exec == w.exec && m.user == w.user;
    ChildFacts(w.ppn, m);
  }

  lemma ChildFacts(ppn: nat, m: Pte)
    requires m.ppn == ppn
    ensures var c := LeafEntry(ppn, m.(ppn := 0));
            && c.valid && c.ppn == ppn && c.write == m.write && c.cow == m.cow && c.read == m.read
            && c.exec == m.exec && c.user == m.user
  {
  }

  /** The tables after the pages below n have been shared. */
  ghost predicate Mapping(s0: Phys, s: Phys, parent: int, child: int, n: int) {
    forall r, q :: IsRoot(s0.tb, r) && IsPage(q) ==>
      Lookup(s.tb, r, q) ==
      if q < n && Forks(s0, parent, q) && r == parent then Marked(Lookup(s0.tb, parent, q))
      else if q < n && Forks(s0, parent, q) && r == child then ChildEntry(Lookup(s0.tb, parent, q))
      else Lookup(s0.tb, r, q)
  }

  ghost predicate ForkState(s0: Phys, s: Phys, parent: int, child: int, n: int) {
    && Inv(s) && UserInv(s) && s.held == s0.held
    && (forall r :: IsRoot(s.tb, r) <==> IsRoot(s0.tb, r))
    && Mapping(s0, s, parent, child, n)
    && (forall r, q :: IsRoot(s0.tb, r) && IsPage(q) ==> SameContents(s0, s, r, q))
  }

  /** The tables on the parent's paths have not moved. */
  ghost predicate Stable(s: Phys, s': Phys, parent: int) {
    forall q :: IsPage(q) ==> StableWalk(s.tb, s'.tb, parent, q)
  }

  ghost predicate CanFork(s: Phys, parent: int, child: int) {
    && Inv(s) && UserInv(s) && IsRoot(s.tb, parent) && IsRoot(s.tb, child) && parent != child
    && (forall q :: IsPage(q) && Lookup(s.tb, child, q).valid ==> IsShared(q))
  }

  // ---------- one page ----------

  lemma MarkLeaf(s: Phys, parent: int, q: int)
    requires Inv(s) && UserInv(s) && IsRoot(s.tb, parent) && IsPage(q) && Lookup(s.tb, parent, q).valid
    ensures var w, sl := Lookup(s.tb, parent, q), LeafSlot(s.tb, parent, q);
            && LeafLevel(s, sl) && sl !in s.stale && Walk0(s.tb, parent, q) != -1
            && Inv(PutLeaf(s, sl, Marked(w))) && Remapped(s, PutLeaf(s, sl, Marked(w)), parent, q, Marked(w))
  {
    hide Inv, Remapped, PutLeaf, Lookup, Sole;
    var w := Lookup(s.tb, parent, q);
    assert LeafOk(s, parent, q);
    MarkedFacts(w);
    ReflagInv(s, parent, q, Marked(w));
  }

  lemma MarkUser(s: Phys, s1: Phys, parent: int, q: int)
    requires Inv(s) && UserInv(s) && IsRoot(s.tb, parent) && IsPage(q) && Lookup(s.tb, parent, q).valid
    requires Remapped(s, s1, parent, q, Marked(Lookup(s.tb, parent, q)))
    ensures UserInv(s1)
  {
    hide Inv, Lookup, Target, Marked, StableWalk, IsRoot;
    var w := Lookup(s.tb, parent, q);
    MarkedFacts(w);
    assert LeafOk(s, parent, q);
    forall r', q' | IsRoot(s1.tb, r') && IsPage(q')
      ensures Target(Lookup(s1.tb, r', q')) == Target(Lookup(s.tb, r', q'))
    {
    }
    forall r, p | IsRoot(s1.tb, r) && IsPage(p) ensures LeafOk(s1, r, p) {
      assert LeafOk(s, r, p);
    }
  }

  /** Mapping the shared frame in the child keeps every writable page private. */
  lemma ShareUser(s1: Phys, s2: Phys, parent: int, child: int, q: int, w: Pte)
    requires Inv(s1) && UserInv(s1) && IsRoot(s1.tb, parent) && IsRoot(s1.tb, child) && IsPage(q) && parent != child
    requires w.valid && Lookup(s1.tb, parent, q) == Marked(w)
    requires Remapped(s1, s2, child, q, ChildEntry(w))
    requires ChildFollows(s1, parent, child)
    ensures UserInv(s2)
  {
    hide Inv, Lookup, Target, Marked, StableWalk, IsRoot, ChildEntry;
    MarkedFacts(w);
    assert LeafOk(s1, parent, q);
    forall r, p | IsRoot(s2.tb, r) && IsPage(p) ensures LeafOk(s2, r, p) {
      assert LeafOk(s1, r, p);
      if r == child && Lookup(s2.tb, child, p).valid && !IsShared(p) {
        ShareOnce(s1, s2, parent, child, q, w, p);
      }
    }
  }

  /** The user pages the child has so far have the parent's frames at the same places. */
  ghost predicate ChildFollows(s: Phys, parent: int, child: int) {
    forall p :: IsPage(p) && !IsShared(p) && Lookup(s.tb, child, p).valid ==>
      Lookup(s.tb, parent, p).valid && Target(Lookup(s.tb, child, p)) == Target(Lookup(s.tb, parent, p))
  }

  lemma ShareOnce(s1: Phys, s2: Phys, parent: int, child: int, q: int, w: Pte, p: int)
    requires UserInv(s1) && IsRoot(s1.tb, parent) && IsRoot(s1.tb, child) && IsPage(q) && parent != child
    requires w.valid && Lookup(s1.tb, parent, q) == Marked(w)
    requires Remapped(s1, s2, child, q, ChildEntry(w)) && ChildFollows(s1, parent, child)
    requires IsPage(p) && !IsShared(p) && Lookup(s2.tb, child, p).valid
    ensures Once(s2, child, p)
  {
    hide Lookup, Target, Marked, StableWalk, IsRoot, ChildEntry, SameContents, Sole, IsShared;
    MarkedFacts(w);
    forall p' | IsPage(p') && Target(Lookup(s2.tb, child, p')) == Target(Lookup(s2.tb, child, p)) ensures p' == p {
      InvalidTarget(Lookup(s2.tb, child, p'));
      assert LeafOk(s1, parent, p) && LeafOk(s1, parent, p') && LeafOk(s1, child, p) && LeafOk(s1, child, p');
      assert LeafOk(s1, parent, q);
    }
  }

  /** The parent's marks leave it so. */
  lemma ForkFollows(s0: Phys, s: Phys, s1: Phys, parent: int, child: int, n: int)
    requires CanFork(s0, parent, child) && ForkState(s0, s, parent, child, n) && IsPage(n)
    requires Remapped(s, s1, parent, n, Marked(Lookup(s.tb, parent, n))) && Lookup(s.tb, parent, n).valid
    ensures ChildFollows(s1, parent, child)
  {
    hide Inv, UserInv, Lookup, Target, Marked, ChildEntry, IsRoot, SameContents, StableWalk, IsShared;
    MarkedFacts(Lookup(s.tb, parent, n));
    forall p | IsPage(p) && !IsShared(p) && Lookup(s1.tb, child, p).valid
      ensures Lookup(s1.tb, parent, p).valid && Target(Lookup(s1.tb, child, p)) == Target(Lookup(s1.tb, parent, p))
    {
      MarkedFacts(Lookup(s0.tb, parent, p));
    }
  }

  lemma ShareMayMap(s: Phys, parent: int, child: int, q: int, w: Pte)
    requires Inv(s) && IsRoot(s.tb, parent) && IsRoot(s.tb, child) && parent != child && IsPage(q)
    requires w.valid && Lookup(s.tb, parent, q) == Marked(w) && Target(w) != -1
    ensures MayMap(s, child, q, Target(ChildEntry(w)))
  {
    hide Inv, Lookup, Marked, ChildEntry, LeafSlot, Walk0, IsRoot, Refs;
    MarkedFacts(w);
    MappedFrame(s, parent, q);
    if Target(Lookup(s.tb, child, q)) == Target(w) {
      MappedFrame(s, child, q);
      TwoSlots(s, parent, child, q);
      TwoReferences(s, Target(w), LeafSlot(s.tb, parent, q), LeafSlot(s.tb, child, q));
    }
  }

  lemma TwoReferences(s: Phys, f: int, a: Slot, b: Slot)
    requires Inv(s) && 0 <= f < FRAMES && a != b && a in Refs(s.tb, f) && b in Refs(s.tb, f)
    ensures RefAt(s, f) >= 2
  {
    hide Linked, Forest, Refs;
    assert {a, b} <= Refs(s.tb, f);
    SetSize({a, b}, Refs(s.tb, f));
    assert |{a, b}| == 2;
  }

  lemma TwoSlots(s: Phys, parent: int, child: int, q: int)
    requires Inv(s) && IsRoot(s.tb, parent) && IsRoot(s.tb, child) && parent != child && IsPage(q)
    requires Walk0(s.tb, parent, q) != -1
    ensures LeafSlot(s.tb, parent, q) != LeafSlot(s.tb, child, q)
  {
    if LeafSlot(s.tb, parent, q) == LeafSlot(s.tb, child, q) {
      LeafSlotInjective(s.tb, parent, q, child, q);
    }
  }

  lemma ForkStep(s0: Phys, s: Phys, s1: Phys, s2: Phys, parent: int, child: int, n: int)
    requires CanFork(s0, parent, child) && ForkState(s0, s, parent, child, n) && IsPage(n) && Forks(s0, parent, n)
    requires Remapped(s, s1, parent, n, Marked(Lookup(s0.tb, parent, n))) && Inv(s1)
    requires Remapped(s1, s2, child, n, ChildEntry(Lookup(s0.tb, parent, n))) && Inv(s2) && UserInv(s2)
    ensures ForkState(s0, s2, parent, child, n + 1) && Stable(s, s2, parent)
  {
    hide Inv, UserInv, Lookup, Target, Marked, ChildEntry, IsRoot, FrameAt;
    MarkedFacts(Lookup(s0.tb, parent, n));
    forall r, q | IsRoot(s0.tb, r) && IsPage(q) ensures SameContents(s0, s2, r, q) {
      assert SameContents(s0, s, r, q) && SameContents(s, s1, r, q) && SameContents(s1, s2, r, q);
      assert SameContents(s0, s, parent, n) && SameContents(s, s1, parent, n);
    }
    forall q | IsPage(q) ensures StableWalk(s.tb, s2.tb, parent, q) {
      assert StableWalk(s.tb, s1.tb, parent, q) && StableWalk(s1.tb, s2.tb, parent, q);
    }
  }

  lemma ForkSkip(s0: Phys, s: Phys, parent: int, child: int, n: int, m: int)
    requires ForkState(s0, s, parent, child, n) && n <= m
    requires forall q :: IsPage(q) && n <= q < m ==> !Forks(s0, parent, q)
    ensures ForkState(s0, s, parent, child, m)
  {
    hide Inv, UserInv, Lookup, Marked, ChildEntry, IsRoot, SameContents, StableWalk;
  }

  // ---------- the loops ----------

  /** The innermost loop: the 512 leaves of one level-0 table, pages b * 512 and up. */
  method ForkLeaves(mm: MemoryManager, ghost s0: Phys, parent: int, child: int, b: int, t0: int) returns (ok: bool)
    requires CanFork(s0, parent, child) && 0 <= b < 262144 && ForkState(s0, mm.S(), parent, child, b * 512)
    requires t0 != -1 && forall q :: b * 512 <= q < b * 512 + 512 ==> Walk0(mm.tb, parent, q) == t0
    modifies mm
    ensures ok ==> ForkState(s0, mm.S(), parent, child, (b + 1) * 512) && Stable(old(mm.S()), mm.S(), parent)
    ensures !ok ==> mm.free == []
  {
    hide Inv, Lookup, Remapped, Marked, PutEntry, Mapping, Walk0, Walk1, IsRoot, Sole, SameContents;
    ghost var sE := mm.S();
    for k := 0 to 512
      invariant ForkState(s0, mm.S(), parent, child, b * 512 + k) && Stable(sE, mm.S(), parent)
    {
      var n := b * 512 + k;
      ghost var s := mm.S();
      ghost var w := Lookup(s.tb, parent, n);
      assert StableWalk(sE.tb, s.tb, parent, n);
      LeafHere(s0, s, parent, child, n, t0);
      var entry := mm.mem[t0][k];
      if !entry.valid || n == TRAMPOLINE_PAGE || n == TRAMPOLINE_PAGE + 1 {
        ForkSkip(s0, s, parent, child, n, n + 1);
        continue;
      }
      MarkLeaf(s, parent, n);
      mm.mem := mm.mem[t0 := mm.mem[t0][k := Marked(entry)]];
      mm.tb := SetLeaf(mm.tb, LeafSlot(s.tb, parent, n), Marked(w));
      ghost var s1 := mm.S();
      assert s1 == PutLeaf(s, LeafSlot(s.tb, parent, n), Marked(w)) by { PutEntryIs(s.mem, t0, k, Marked(w)); }
      RemappedFacts(s, s1, parent, n, Marked(w));
      MarkUser(s, s1, parent, n);
      assert LeafOk(s, parent, n);
      ShareMayMap(s1, parent, child, n, w);
      ok := mm.PageInsert(child, n, entry.ppn, Marked(entry).(ppn := 0));
      if !ok {
        return;
      }
      ForkFollows(s0, s, s1, parent, child, n);
      ShareUser(s1, mm.S(), parent, child, n, w);
      ForkStep(s0, s, s1, mm.S(), parent, child, n);
    }
    ok := true;
  }

  lemma PutEntryIs(mem: seq<Frame>, t: int, k: int, w: Pte)
    requires 0 <= t < |mem| && 0 <= k < |mem[t]|
    ensures PutEntry(mem, Slot(t, k), w) == mem[t := mem[t][k := w]]
  {
  }

  /** Page n of the parent, not yet shared, is what the cached table pointer shows. */
  lemma LeafHere(s0: Phys, s: Phys, parent: int, child: int, n: int, t0: int)
    requires CanFork(s0, parent, child) && ForkState(s0, s, parent, child, n) && IsPage(n)
    requires Walk0(s.tb, parent, n) == t0 && t0 != -1
    ensures LeafSlot(s.tb, parent, n) == Slot(t0, n % 512)
    ensures 0 <= t0 < |s.mem| && |s.mem[t0]| == 512 && s.mem[t0][n % 512] == Lookup(s.tb, parent, n)
    ensures Lookup(s.tb, parent, n) == Lookup(s0.tb, parent, n)
    ensures IsRoot(s.tb, parent) && IsRoot(s.tb, child)
  {
    hide Inv, Marked, ChildEntry, Sole, SameContents;
    InvWalk(s, parent, n);
    LeafNotStale(s, LeafSlot(s.tb, parent, n));
    SlotFacts(s, LeafSlot(s.tb, parent, n));
  }

  /** The middle loop: the 512 entries of one level-1 table, pages i * 262144 and up. */
  method ForkTable(mm: MemoryManager, ghost s0: Phys, parent: int, child: int, i: int, t1: int) returns (ok: bool)
    requires CanFork(s0, parent, child) && 0 <= i < 512 && ForkState(s0, mm.S(), parent, child, i * 262144)
    requires t1 != -1 && Walk1(mm.tb, parent, i * 262144) == t1
    modifies mm
    ensures ok ==> ForkState(s0, mm.S(), parent, child, (i + 1) * 262144)
    ensures !ok ==> mm.free == []
  {
    hide Inv, ForkState, CanFork, Walk0, Walk1;
    for j := 0 to 512
      invariant ForkState(s0, mm.S(), parent, child, (i * 512 + j) * 512)
      invariant Walk1(mm.tb, parent, i * 262144) == t1
    {
      var b := i * 512 + j;
      MiddleHere(s0, mm.S(), parent, child, b, t1);
      var entry := mm.mem[t1][j];
      if !entry.valid {
        ForkSkip(s0, mm.S(), parent, child, b * 512, (b + 1) * 512);
        continue;
      }
      ghost var s := mm.S();
      ok := ForkLeaves(mm, s0, parent, child, b, Target(entry));
      if !ok {
        return;
      }
      assert StableWalk(s.tb, mm.tb, parent, i * 262144);
    }
    ok := true;
  }

  lemma MiddleHere(s0: Phys, s: Phys, parent: int, child: int, b: int, t1: int)
    requires CanFork(s0, parent, child) && 0 <= b < 262144 && ForkState(s0, s, parent, child, b * 512)
    requires t1 != -1 && Walk1(s.tb, parent, b / 512 * 262144) == t1
    ensures 0 <= t1 < |s.mem| && |s.mem[t1]| == 512
    ensures var entry := s.mem[t1][b % 512];
            && (!entry.valid ==> forall q :: IsPage(q) && b * 512 <= q < (b + 1) * 512 ==> !Forks(s0, parent, q))
            && (entry.valid ==> Target(entry) != -1
                                && forall q :: b * 512 <= q < b * 512 + 512 ==> Walk0(s.tb, parent, q) == Target(entry))
  {
    hide Inv, Marked, ChildEntry, Sole, SameContents, LeafOk;
    var q0 := b * 512;
    assert q0 / 262144 == b / 512 && q0 / 512 % 512 == b % 512;
    InvWalk(s, parent, q0);
    SlotFacts(s, Slot(t1, b % 512));
    forall q | b * 512 <= q < b * 512 + 512
      ensures Walk0(s.tb, parent, q) == Target(s.mem[t1][b % 512])
    {
      assert q / 512 == b && q / 262144 == b / 512;
    }
    forall q | IsPage(q) && b * 512 <= q < b * 512 + 512 && !s.mem[t1][b % 512].valid ensures !Forks(s0, parent, q) {
      assert q / 512 == b;
      InvWalk(s, parent, q);
    }
  }

  /** The outer loop over the root. */
  method ForkPages(mm: MemoryManager, parent: int, child: int) returns (ok: bool)
    requires CanFork(mm.S(), parent, child)
    modifies mm
    ensures ok ==> ForkState(old(mm.S()), mm.S(), parent, child, PAGES)
    ensures !ok ==> mm.free == []
  {
    hide Inv, ForkState, CanFork, Walk0, Walk1;
    ghost var s0 := mm.S();
    ForkStart(s0, parent, child);
    for i := 0 to 512
      invariant ForkState(s0, mm.S(), parent, child, i * 262144)
    {
      RootHere(s0, mm.S(), parent, child, i);
      var entry := mm.mem[parent][i];
      if !entry.valid {
        ForkSkip(s0, mm.S(), parent, child, i * 262144, (i + 1) * 262144);
        continue;
      }
      ok := ForkTable(mm, s0, parent, child, i, Target(entry));
      if !ok {
        return;
      }
    }
    ok := true;
  }

  lemma ForkStart(s0: Phys, parent: int, child: int)
    requires CanFork(s0, parent, child)
    ensures ForkState(s0, s0, parent, child, 0)
  {
    hide Inv, UserInv, Lookup;
  }

  lemma RootHere(s0: Phys, s: Phys, parent: int, child: int, i: int)
    requires CanFork(s0, parent, child) && 0 <= i < 512 && ForkState(s0, s, parent, child, i * 262144)
    ensures 0 <= parent < |s.mem| && |s.mem[parent]| == 512
    ensures var entry := s.mem[parent][i];
            && (!entry.valid ==> forall q :: IsPage(q) && i * 262144 <= q < (i + 1) * 262144 ==> !Forks(s0, parent, q))
            && (entry.valid ==> Target(entry) != -1 && Walk1(s.tb, parent, i * 262144) == Target(entry))
  {
    hide Inv, Marked, ChildEntry, Sole, SameContents, LeafOk;
    InvWalk(s, parent, i * 262144);
    SlotFacts(s, Slot(parent, i));
    forall q | IsPage(q) && i * 262144 <= q < (i + 1) * 262144 && !s.mem[parent][i].valid
      ensures !Forks(s0, parent, q)
    {
      assert q / 262144 == i;
      InvWalk(s, parent, q);
    }
  }

  // ---------- what the processes see ----------

  /** After the loops the child's private pages show what the parent's showed,
      and nobody else's view has changed. */
  lemma ForkViews(s0: Phys, s: Phys, parent: int, child: int)
    requires CanFork(s0, parent, child) && ForkState(s0, s, parent, child, PAGES)
    ensures forall r, q :: IsRoot(s0.tb, r) && r != child && IsPage(q) ==>
              Resident(s, r, q) == Resident(s0, r, q) && Lookup(s.tb, r, q).valid == Lookup(s0.tb, r, q).valid
    ensures forall q :: IsPage(q) && !IsShared(q) ==>
              && Resident(s, child, q) == Resident(s0, parent, q)
              && Lookup(s.tb, child, q).valid == Lookup(s0.tb, parent, q).valid
  {
    hide Inv, Lookup, Marked, ChildEntry, FrameBytes, IsRoot, Target, RightsOf, Sole;
    forall r, q | IsRoot(s0.tb, r) && r != child && IsPage(q)
      ensures Resident(s, r, q) == Resident(s0, r, q) && Lookup(s.tb, r, q).valid == Lookup(s0.tb, r, q).valid
    {
      MarkedFacts(Lookup(s0.tb, parent, q));
      assert SameContents(s0, s, r, q);
    }
    forall q | IsPage(q) && !IsShared(q)
      ensures Resident(s, child, q) == Resident(s0, parent, q)
      ensures Lookup(s.tb, child, q).valid == Lookup(s0.tb, parent, q).valid
    {
      MarkedFacts(Lookup(s0.tb, parent, q));
      assert SameContents(s0, s, child, q);
      assert LeafOk(s0, parent, q) && LeafOk(s0, child, q);
      InvalidTarget(Lookup(s0.tb, parent, q));
      InvalidTarget(Lookup(s0.tb, child, q));
    }
  }

  lemma InvalidTarget(w: Pte)
    ensures !w.valid ==> Target(w) == -1
  {
  }

  /** Fork as the two processes see it. */
  ghost predicate Forked(s0: Phys, s: Phys, parent: int, child: int, segs: seq<Segment>, childSegs: seq<Segment>) {
    && (forall r :: IsRoot(s.tb, r) <==> IsRoot(s0.tb, r))
    && (forall q :: IsPage(q) && !IsShared(q) ==> Logical(s, childSegs, child, q) == Logical(s0, segs, parent, q))
    && (forall r, q, any :: IsRoot(s0.tb, r) && r != child && IsPage(q) ==>
         Logical(s, any, r, q) == Logical(s0, any, r, q))
  }

  /** The address-space part of processFork. */
  method ProcessFork(mm: MemoryManager, parent: int, child: int, segs: seq<Segment>)
    returns (ok: bool, childSegs: seq<Segment>)
    requires CanFork(mm.S(), parent, child) && Disjoint(segs) && AllWritable(segs)
    modifies mm
    ensures AllWritable(childSegs) && Disjoint(childSegs)
    ensures ok ==> Inv(mm.S()) && UserInv(mm.S()) && Forked(old(mm.S()), mm.S(), parent, child, segs, childSegs)
    ensures !ok ==> mm.free == []
  {
    childSegs := ForkSegments(segs);
    ReverseEager(segs, 0);
    ok := ForkPages(mm, parent, child);
    if ok {
      ForkLogical(old(mm.S()), mm.S(), parent, child, segs);
    }
  }

  lemma ForkLogical(s0: Phys, s: Phys, parent: int, child: int, segs: seq<Segment>)
    requires CanFork(s0, parent, child) && ForkState(s0, s, parent, child, PAGES) && Disjoint(segs)
    ensures Forked(s0, s, parent, child, segs, Reverse(segs))
  {
    hide Inv, Lookup, Resident, IsRoot, Sole, PageImage, PagePerm, Touched, Mapping, SameContents, LeafOk, Disjoint;
    ForkViews(s0, s, parent, child);
    forall q | IsPage(q) && !IsShared(q) ensures Logical(s, Reverse(segs), child, q) == Logical(s0, segs, parent, q) {
      ReverseSamePages(segs, q);
    }
  }

  /** fork shares a read-only page as it is, without a mark: both processes have the frame and neither knows. */
  lemma ForkSharesReadOnly(s0: Phys, s: Phys, parent: int, child: int, q: int)
    requires CanFork(s0, parent, child) && ForkState(s0, s, parent, child, PAGES)
    requires IsPage(q) && !IsShared(q) && ReadOnly(Lookup(s0.tb, parent, q))
    ensures ReadOnly(Lookup(s.tb, parent, q)) && ReadOnly(Lookup(s.tb, child, q)) && Aliased(s, parent, q, child, q)
    ensures RefAt(s, Target(Lookup(s.tb, parent, q))) != 1
  {
    hide Inv, Lookup, Marked, ChildEntry, IsRoot, Target, SameContents;
    MarkedFacts(Lookup(s0.tb, parent, q));
    ReadOnlyKept(Lookup(s0.tb, parent, q));
    assert LeafOk(s, parent, q) && LeafOk(s, child, q);
    CountOneIsSole(s, parent, q);
  }

  lemma ReadOnlyKept(w: Pte)
    requires ReadOnly(w)
    ensures Marked(w) == w && ReadOnly(ChildEntry(w))
  {
  }

  /** clone without CLONE_VM, as far as memory goes: a new address space, then the loops of processFork. */
  method CloneSpace(mm: MemoryManager, parent: int, segs: seq<Segment>)
    returns (ok: bool, child: int, childSegs: seq<Segment>)
    requires Inv(mm.S()) && UserInv(mm.S()) && IsRoot(mm.tb, parent) && Disjoint(segs) && AllWritable(segs)
    modifies mm
    ensures ok ==> Inv(mm.S()) && UserInv(mm.S()) && !IsRoot(old(mm.tb), child) && IsRoot(mm.tb, child)
    ensures ok ==> AllWritable(childSegs) && Disjoint(childSegs)
    ensures ok ==> forall q :: IsPage(q) && !IsShared(q) ==>
                     Logical(mm.S(), childSegs, child, q) == Logical(old(mm.S()), segs, parent, q)
    ensures ok ==> forall r, q, any :: IsRoot(old(mm.tb), r) && IsPage(q) ==>
                     IsRoot(mm.tb, r) && Logical(mm.S(), any, r, q) == Logical(old(mm.S()), any, r, q)
    ensures !ok ==> mm.free == []
  {
    hide Inv, UserInv, Lookup, IsRoot, Resident, Lazy, Disjoint, AllWritable;
    childSegs := [];
    ok, child := mm.AllocPgdir();
    if ok {
      ghost var s1 := mm.S();
      NewSpaceCanFork(old(mm.S()), s1, parent, child);
      ok, childSegs := ProcessFork(mm, parent, child, segs);
    }
  }

  lemma NewSpaceCanFork(s: Phys, s1: Phys, parent: int, child: int)
    requires Inv(s1) && UserInv(s1) && IsRoot(s.tb, parent) && NewSpace(s, s1, child)
    ensures CanFork(s1, parent, child)
  {
    hide Inv, UserInv, Lookup, Resident;
    assert IsPage(0);
  }
}
