/**
 Physical memory with its page descriptors: frame contents, reference counts and
 the free list, together with the page tables stored in it.  The invariant is
 frame conservation: a reference count is the number of table slots that refer
 to the frame, plus one for a root, plus what the kernel itself holds.
 */
module Frames {
  import opened Bytes
  import opened PageEntry
  import opened Tables

  /** `held` counts references from outside the modelled tables (kernel image,
      kernel page directory); `stale` are interior slots of a directory that is
      being torn down whose table is already gone. */
  datatype Phys = Phys(mem: seq<Frame>, refs: seq<int>, free: seq<int>, held: seq<nat>,
                       tb: Tables, stale: set<Slot>)

  ghost predicate Shape(s: Phys) {
    && |s.mem| == |s.refs| == |s.held| == FRAMES
    && (forall f :: 0 <= f < FRAMES ==> IsFrame(s.mem[f]))
    && (forall i :: 0 <= i < |s.free| ==> 0 <= s.free[i] < FRAMES)
    && (forall i, j :: 0 <= i < j < |s.free| ==> s.free[i] != s.free[j])
  }

  /** The graph of slots is what memory holds. */
  ghost predicate Linked(s: Phys)
    requires Shape(s) && Forest(s.tb)
  {
    && (forall sl :: sl in s.stale ==> sl in s.tb.ent && s.tb.dir[sl.t].level > 0 && s.tb.ent[sl] == ZERO)
    && (forall sl :: sl in s.tb.ent && sl !in s.stale ==> EntryAt(s.mem, sl) == s.tb.ent[sl])
  }

  ghost function EntryAt(mem: seq<Frame>, sl: Slot): Pte {
    if 0 <= sl.t < |mem| && 0 <= sl.i < |mem[sl.t]| then mem[sl.t][sl.i] else ZERO
  }

  ghost function FrameAt(s: Phys, f: int): Frame {
    if 0 <= f < |s.mem| then s.mem[f] else []
  }

  ghost function RefAt(s: Phys, f: int): int {
    if 0 <= f < |s.refs| then s.refs[f] else 0
  }

  ghost function RootCount(tb: Tables, f: int): nat {
    if IsRoot(tb, f) then 1 else 0
  }

  ghost predicate Counted(s: Phys)
    requires Shape(s)
  {
    && (forall f :: 0 <= f < FRAMES ==> s.refs[f] == |Refs(s.tb, f)| + RootCount(s.tb, f) + s.held[f])
    && (forall f :: f in s.free ==> s.refs[f] == 0)
    && (forall t :: t in s.tb.dir && 0 <= t < FRAMES ==> s.held[t] == 0)
  }

  ghost predicate Inv(s: Phys) {
    Shape(s) && Forest(s.tb) && Linked(s) && Counted(s)
  }

  /** A frame nobody refers to: neither a table nor mapped anywhere. */
  lemma ZeroRefs(s: Phys, f: int)
    requires Inv(s) && 0 <= f < FRAMES && s.refs[f] == 0
    ensures Refs(s.tb, f) == {} && f !in s.tb.dir && s.held[f] == 0
  {
    forall t | t in s.tb.dir ensures t != f {
      TableRefs(s, t);
    }
  }

  /** A table has exactly one reference from the tables and the roots together. */
  lemma TableRefs(s: Phys, t: int)
    requires Inv(s) && t in s.tb.dir
    ensures IsRoot(s.tb, t) ==> Refs(s.tb, t) == {}
    ensures !IsRoot(s.tb, t) ==> Refs(s.tb, t) == {s.tb.dir[t].up}
    ensures 0 <= t < FRAMES && s.refs[t] == 1 && s.held[t] == 0
  {
    assert NodeOk(s.tb, t);
    forall sl | sl in Refs(s.tb, t) ensures s.tb.dir[t].level < 2 && sl == s.tb.dir[t].up {
      assert EntryOk(s.tb, sl);
    }
    if s.tb.dir[t].level < 2 {
      assert s.tb.dir[t].up in Refs(s.tb, t);
      assert Refs(s.tb, t) == {s.tb.dir[t].up};
    } else {
      assert Refs(s.tb, t) == {};
    }
  }

  /** What reading a slot of a table in memory gives. */
  lemma SlotFacts(s: Phys, sl: Slot)
    requires Inv(s) && sl in s.tb.ent && sl !in s.stale
    ensures |s.mem| == |s.refs| == |s.held| == FRAMES && 0 <= sl.t < FRAMES && 0 <= sl.i < WORDS
    ensures sl.t in s.tb.dir && 0 <= s.tb.dir[sl.t].level <= 2
    ensures |s.mem[sl.t]| == WORDS && s.mem[sl.t][sl.i] == s.tb.ent[sl]
    ensures s.tb.dir[sl.t].level > 0 && s.tb.ent[sl] != ZERO ==> Target(s.tb.ent[sl]) != -1
  {
    assert NodeOk(s.tb, sl.t);
    assert EntryOk(s.tb, sl);
    assert EntryAt(s.mem, sl) == s.tb.ent[sl];
    assert -1 in s.tb.dir ==> NodeOk(s.tb, -1);
  }

  // ---------- pageAlloc ----------

  ghost function Alloc(s: Phys): Phys
    requires s.free != [] && 0 <= s.free[0] < |s.mem|
  {
    Phys(s.mem[s.free[0] := ZeroFrame()], s.refs, s.free[1..], s.held, s.tb, s.stale)
  }

  lemma AllocInv(s: Phys)
    requires Inv(s) && s.free != []
    ensures Inv(Alloc(s)) && s.free[0] !in Alloc(s).free && s.refs[s.free[0]] == 0
    ensures s.free[0] !in s.tb.dir && Refs(s.tb, s.free[0]) == {} && s.held[s.free[0]] == 0
  {
    assert s.free[0] in s.free;
    ZeroRefs(s, s.free[0]);
    PopInv(s);
    WriteInv(s.(free := s.free[1..]), s.free[0], ZeroFrame());
  }

  lemma PopInv(s: Phys)
    requires Inv(s) && s.free != []
    ensures Inv(s.(free := s.free[1..]))
  {
    var s' := s.(free := s.free[1..]);
    assert forall g :: g in s'.free ==> g in s.free;
    assert forall sl :: sl in s.tb.ent ==> EntryAt(s'.mem, sl) == EntryAt(s.mem, sl);
  }

  /** Writing a frame that is no table disturbs no table. */
  lemma WriteInv(s: Phys, f: int, c: Frame)
    requires Inv(s) && 0 <= f < FRAMES && f !in s.tb.dir && IsFrame(c)
    ensures Inv(s.(mem := s.mem[f := c]))
  {
    hide Refs, RootCount, NodeOk, EntryOk;
    var s' := s.(mem := s.mem[f := c]);
    assert Shape(s');
    forall sl | sl in s.tb.ent && sl !in s.stale ensures EntryAt(s'.mem, sl) == s.tb.ent[sl] {
      assert EntryAt(s.mem, sl) == s.tb.ent[sl];
    }
  }

  // ---------- pageWalk with create ----------

  ghost function PutEntry(mem: seq<Frame>, sl: Slot, w: Pte): seq<Frame>
    requires 0 <= sl.t < |mem| && 0 <= sl.i < |mem[sl.t]|
  {
    mem[sl.t := mem[sl.t][sl.i := w]]
  }

  ghost function GrowTable(s: Phys, sl: Slot, f: int): Phys
    requires Inv(s) && sl in s.tb.ent && 0 <= f < FRAMES
  {
    assert NodeOk(s.tb, sl.t);
    Phys(PutEntry(s.mem, sl, TableEntry(f)), s.refs[f := s.refs[f] + 1], s.free, s.held,
         Grow(s.tb, sl, f), s.stale)
  }

  lemma PutEntryFrame(mem: seq<Frame>, sl: Slot, w: Pte)
    requires 0 <= sl.t < |mem| && 0 <= sl.i < |mem[sl.t]|
    ensures var mem' := PutEntry(mem, sl, w);
            && |mem'| == |mem| && (forall f :: 0 <= f < |mem| ==> |mem'[f]| == |mem[f]|)
            && (forall f :: 0 <= f < |mem| && f != sl.t ==> mem'[f] == mem[f])
            && (forall x :: EntryAt(mem', x) == if x == sl then w else EntryAt(mem, x))
  {
  }

  lemma GrowTableInv(s: Phys, sl: Slot, f: int)
    requires Inv(s) && sl in s.tb.ent && sl !in s.stale && s.tb.dir[sl.t].level > 0 && s.tb.ent[sl] == ZERO
    requires 0 <= f < FRAMES && s.refs[f] == 0 && f !in s.free && s.mem[f] == ZeroFrame()
    ensures Inv(GrowTable(s, sl, f))
  {
    ZeroRefs(s, f);
    GrowForest(s.tb, sl, f);
    GrowTableLinked(s, sl, f);
    GrowTableCounted(s, sl, f);
  }

  lemma GrowTableLinked(s: Phys, sl: Slot, f: int)
    requires Inv(s) && sl in s.tb.ent && sl !in s.stale && s.tb.dir[sl.t].level > 0 && s.tb.ent[sl] == ZERO
    requires 0 <= f < FRAMES && f !in s.tb.dir && s.mem[f] == ZeroFrame()
    requires Forest(GrowTable(s, sl, f).tb)
    ensures Shape(GrowTable(s, sl, f)) && Linked(GrowTable(s, sl, f))
  {
    hide Counted, PutEntry, NodeOk, EntryOk;
    var s' := GrowTable(s, sl, f);
    SlotFacts(s, sl);
    PutEntryFrame(s.mem, sl, TableEntry(f));
    forall x | x in s'.tb.ent && x !in s'.stale ensures EntryAt(s'.mem, x) == s'.tb.ent[x] {
      assert x in s.tb.ent ==> EntryAt(s.mem, x) == s.tb.ent[x];
      assert x !in s.tb.ent ==> x.t == f;
    }
  }

  lemma GrowTableCounted(s: Phys, sl: Slot, f: int)
    requires Inv(s) && sl in s.tb.ent && s.tb.dir[sl.t].level > 0 && s.tb.ent[sl] == ZERO
    requires 0 <= f < FRAMES && f !in s.tb.dir && s.refs[f] == 0 && Refs(s.tb, f) == {} && f !in s.free
    requires |s.held| == FRAMES && s.held[f] == 0
    requires Shape(GrowTable(s, sl, f))
    ensures Counted(GrowTable(s, sl, f))
  {
    hide Linked, Refs, EntryOk, PutEntry;
    var s' := GrowTable(s, sl, f);
    assert NodeOk(s.tb, sl.t);
    forall g | 0 <= g < FRAMES
      ensures s'.refs[g] == |Refs(s'.tb, g)| + RootCount(s'.tb, g) + s'.held[g]
    {
      GrowRefs(s.tb, sl, f, g);
    }
  }

  /** What growing tables leaves alone: every mapping, and every frame that is
      neither free nor a table. */
  ghost predicate Kept(s: Phys, s': Phys) {
    && s'.held == s.held && s'.stale == s.stale
    && (forall t :: t in s.tb.dir ==> t in s'.tb.dir && s'.tb.dir[t] == s.tb.dir[t])
    && (forall t :: t in s'.tb.dir && t !in s.tb.dir ==> t in s.free && s'.tb.dir[t].level < 2)
    && (forall f :: f in s'.free ==> f in s.free)
    && (forall f :: 0 <= f < FRAMES && f !in s.free && f !in s.tb.dir ==>
          FrameAt(s', f) == FrameAt(s, f) && RefAt(s', f) == RefAt(s, f))
    && (forall r, q :: IsRoot(s.tb, r) && IsPage(q) ==> SameWalk(s.tb, s'.tb, r, q))
  }

  ghost predicate SameWalk(tb: Tables, tb': Tables, r: int, q: int) {
    Lookup(tb', r, q) == Lookup(tb, r, q) && StableWalk(tb, tb', r, q)
  }

  /** The tables on the path to a page stay where they are. */
  ghost predicate StableWalk(tb: Tables, tb': Tables, r: int, q: int) {
    && (Walk1(tb, r, q) != -1 ==> Walk1(tb', r, q) == Walk1(tb, r, q))
    && (Walk0(tb, r, q) != -1 ==> Walk0(tb', r, q) == Walk0(tb, r, q))
  }

  lemma KeptReflexive(s: Phys)
    requires Inv(s)
    ensures Kept(s, s)
  {
  }

  lemma KeptTransitive(s: Phys, s1: Phys, s2: Phys)
    requires Inv(s) && Inv(s1) && Inv(s2) && Kept(s, s1) && Kept(s1, s2)
    ensures Kept(s, s2)
  {
    forall r, q | IsRoot(s.tb, r) && IsPage(q) ensures SameWalk(s.tb, s2.tb, r, q) {
      assert IsRoot(s1.tb, r);
      assert SameWalk(s.tb, s1.tb, r, q) && SameWalk(s1.tb, s2.tb, r, q);
    }
    assert forall f :: 0 <= f < FRAMES && f !in s.free && f !in s.tb.dir ==> f !in s1.free && f !in s1.tb.dir;
  }

  /** One step of pageWalk that has to create a table. */
  lemma NewTable(s: Phys, sl: Slot)
    requires Inv(s) && s.free != []
    requires sl in s.tb.ent && sl !in s.stale && s.tb.dir[sl.t].level > 0 && s.tb.ent[sl] == ZERO
    ensures 0 <= s.free[0] < FRAMES && |s.mem| == FRAMES && s.free[0] != sl.t
    ensures Inv(Alloc(s)) && Inv(GrowTable(Alloc(s), sl, s.free[0]))
    ensures Kept(s, GrowTable(Alloc(s), sl, s.free[0]))
    ensures sl in GrowTable(Alloc(s), sl, s.free[0]).tb.ent
    ensures Target(GrowTable(Alloc(s), sl, s.free[0]).tb.ent[sl]) == s.free[0]
  {
    hide Forest, Linked, Counted, Kept;
    var f := s.free[0];
    SlotFacts(s, sl);
    AllocInv(s);
    GrowTableInv(Alloc(s), sl, f);
    NewTableKept(s, sl);
  }

  lemma NewTableKept(s: Phys, sl: Slot)
    requires Inv(s) && s.free != [] && Inv(Alloc(s))
    requires sl in s.tb.ent && sl !in s.stale && s.tb.dir[sl.t].level > 0 && s.tb.ent[sl] == ZERO
    requires Inv(GrowTable(Alloc(s), sl, s.free[0]))
    requires s.free[0] !in s.tb.dir && Refs(s.tb, s.free[0]) == {}
    ensures Kept(s, GrowTable(Alloc(s), sl, s.free[0]))
  {
    hide Counted, Forest, Linked, IsRoot, SameWalk, PutEntry;
    var f := s.free[0];
    assert f in s.free;
    SlotFacts(s, sl);
    PutEntryFrame(Alloc(s).mem, sl, TableEntry(f));
    NewTableWalks(s, sl);
  }

  lemma NewTableWalks(s: Phys, sl: Slot)
    requires Inv(s) && s.free != [] && 0 <= s.free[0] < FRAMES
    requires sl in s.tb.ent && sl.t in s.tb.dir && s.tb.dir[sl.t].level > 0 && s.tb.ent[sl] == ZERO
    requires s.free[0] !in s.tb.dir && Refs(s.tb, s.free[0]) == {}
    ensures forall r, q :: IsRoot(s.tb, r) && IsPage(q) ==> SameWalk(s.tb, Grow(s.tb, sl, s.free[0]), r, q)
  {
    hide Counted, Linked, Forest, Grow;
    forall r, q | IsRoot(s.tb, r) && IsPage(q) ensures SameWalk(s.tb, Grow(s.tb, sl, s.free[0]), r, q) {
      GrowLookup(s.tb, sl, s.free[0], r, q);
    }
  }

  lemma InvWalk(s: Phys, root: int, p: int)
    requires Inv(s) && IsRoot(s.tb, root) && IsPage(p)
    ensures Slot(root, p / 262144) in s.tb.ent && s.tb.dir[root].level == 2
    ensures var t1 := Walk1(s.tb, root, p);
            t1 != -1 ==> t1 in s.tb.dir && s.tb.dir[t1].level == 1 && Slot(t1, p / 512 % 512) in s.tb.ent
    ensures var t0 := Walk0(s.tb, root, p);
            t0 != -1 ==> Walk1(s.tb, root, p) != -1 && LeafLevel(s, LeafSlot(s.tb, root, p))
    ensures Walk0(s.tb, root, p) == -1 ==> Lookup(s.tb, root, p) == ZERO
  {
    WalkFacts(s.tb, root, p);
    assert -1 in s.tb.dir ==> NodeOk(s.tb, -1);
  }

  /** The slots a walk to page p reads are live. */
  ghost predicate PathLive(s: Phys, root: int, p: int) {
    && Slot(root, p / 262144) !in s.stale
    && Slot(Walk1(s.tb, root, p), p / 512 % 512) !in s.stale
  }

  // ---------- leaves ----------

  ghost function PutLeaf(s: Phys, sl: Slot, w: Pte): Phys
    requires Inv(s) && sl in s.tb.ent
  {
    assert NodeOk(s.tb, sl.t);
    Phys(PutEntry(s.mem, sl, w), s.refs, s.free, s.held, SetLeaf(s.tb, sl, w), s.stale)
  }

  ghost predicate LeafLevel(s: Phys, sl: Slot) {
    sl in s.tb.ent && sl.t in s.tb.dir && s.tb.dir[sl.t].level == 0
  }

  /** Replacing the entry of a leaf moves one reference from its old frame to its new one. */
  lemma PutLeafInv(s: Phys, sl: Slot, w: Pte, s': Phys)
    requires Inv(s) && LeafLevel(s, sl) && Target(w) !in s.tb.dir
    requires s' == PutLeaf(s, sl, w).(refs := s'.refs, free := s'.free)
    requires |s'.refs| == FRAMES
    requires forall g :: 0 <= g < FRAMES ==>
               s'.refs[g] == s.refs[g] - Hit(s.tb.ent[sl], g) + Hit(w, g)
    requires Shape(s'.(mem := s.mem))
    requires forall g :: g in s'.free ==> s'.refs[g] == 0
    ensures Inv(s')
  {
    SetLeafForest(s.tb, sl, w);
    PutLeafLinked(s, sl, w, s');
    PutLeafCounted(s, sl, w, s');
  }

  lemma PutLeafLinked(s: Phys, sl: Slot, w: Pte, s': Phys)
    requires Inv(s) && LeafLevel(s, sl)
    requires s' == PutLeaf(s, sl, w).(refs := s'.refs, free := s'.free)
    requires Forest(s'.tb) && Shape(s'.(mem := s.mem))
    ensures Shape(s') && Linked(s')
  {
    hide Counted, PutEntry, NodeOk, EntryOk;
    LeafNotStale(s, sl);
    SlotFacts(s, sl);
    PutEntryFrame(s.mem, sl, w);
    forall x | x in s'.tb.ent && x !in s'.stale ensures EntryAt(s'.mem, x) == s'.tb.ent[x] {
      assert x in s.tb.ent && EntryAt(s.mem, x) == s.tb.ent[x];
    }
  }

  lemma PutLeafCounted(s: Phys, sl: Slot, w: Pte, s': Phys)
    requires Inv(s) && LeafLevel(s, sl)
    requires s' == PutLeaf(s, sl, w).(refs := s'.refs, free := s'.free)
    requires |s'.refs| == FRAMES && Shape(s')
    requires forall g :: 0 <= g < FRAMES ==>
               s'.refs[g] == s.refs[g] - Hit(s.tb.ent[sl], g) + Hit(w, g)
    requires forall g :: g in s'.free ==> s'.refs[g] == 0
    ensures Counted(s')
  {
    forall g | 0 <= g < FRAMES
      ensures s'.refs[g] == |Refs(s'.tb, g)| + RootCount(s'.tb, g) + s'.held[g]
    {
      MovedReference(s.tb, sl, w, g);
      assert IsRoot(s.tb, g) == IsRoot(s'.tb, g);
    }
  }

  function Hit(w: Pte, g: int): nat { if Target(w) == g then 1 else 0 }

  lemma MovedReference(tb: Tables, sl: Slot, w: Pte, g: int)
    requires sl in tb.ent && g != -1
    ensures |Refs(SetLeaf(tb, sl, w), g)| == |Refs(tb, g)| - Hit(tb.ent[sl], g) + Hit(w, g)
  {
    SetLeafRefs(tb, sl, w, g);
    CountMoved(Refs(tb, g), Refs(SetLeaf(tb, sl, w), g), sl, Target(tb.ent[sl]) == g, Target(w) == g);
  }

  lemma CountMoved(a: set<Slot>, b: set<Slot>, x: Slot, was: bool, now: bool)
    requires b == a - {x} + (if now then {x} else {})
    requires x in a <==> was
    ensures |b| == |a| - (if was then 1 else 0) + (if now then 1 else 0)
  {
    var c := a - {x};
    assert a == if was then c + {x} else c;
    assert b == if now then c + {x} else c;
  }

  /** The frame behind a mapped page is counted, so neither free nor a table. */
  lemma MappedFrame(s: Phys, r: int, q: int)
    requires Inv(s) && IsRoot(s.tb, r) && IsPage(q) && Target(Lookup(s.tb, r, q)) != -1
    ensures var f := Target(Lookup(s.tb, r, q));
            && f !in s.free && f !in s.tb.dir && s.refs[f] >= 1 + s.held[f]
            && LeafSlot(s.tb, r, q) in Refs(s.tb, f) && Walk0(s.tb, r, q) != -1
  {
    hide Linked, NodeOk;
    InvWalk(s, r, q);
    var sl := LeafSlot(s.tb, r, q);
    assert sl in s.tb.ent && EntryOk(s.tb, sl);
    assert sl in Refs(s.tb, Target(Lookup(s.tb, r, q)));
  }

  // ---------- pageRemove ----------

  ghost function Unmap(s: Phys, sl: Slot): Phys
    requires Inv(s) && sl in s.tb.ent && Target(s.tb.ent[sl]) != -1
  {
    var f := Target(s.tb.ent[sl]);
    var p := PutLeaf(s, sl, ZERO);
    Phys(p.mem, s.refs[f := s.refs[f] - 1], if s.refs[f] == 1 then [f] + s.free else s.free,
         s.held, p.tb, s.stale)
  }

  lemma UnmapInv(s: Phys, sl: Slot)
    requires Inv(s) && LeafLevel(s, sl) && Target(s.tb.ent[sl]) != -1
    ensures Inv(Unmap(s, sl))
  {
    var f := Target(s.tb.ent[sl]);
    var s' := Unmap(s, sl);
    UnmapLists(s, sl);
    NoTableBelowZero(s);
    hide Shape, Counted, Forest, Linked;
    PutLeafInv(s, sl, ZERO, s');
  }

  lemma UnmapLists(s: Phys, sl: Slot)
    requires Inv(s) && LeafLevel(s, sl) && Target(s.tb.ent[sl]) != -1
    ensures var f, s' := Target(s.tb.ent[sl]), Unmap(s, sl);
            && |s.refs| == |s'.refs| == FRAMES && Shape(s'.(mem := s.mem))
            && (forall g :: 0 <= g < FRAMES ==> s'.refs[g] == s.refs[g] - Hit(s.tb.ent[sl], g) + Hit(ZERO, g))
            && (forall g :: g in s'.free ==> 0 <= g < FRAMES && s'.refs[g] == 0)
  {
    hide Forest, Linked, PutLeaf;
    var f := Target(s.tb.ent[sl]);
    assert sl in Refs(s.tb, f);
    assert f !in s.free;
    assert forall g :: g in Unmap(s, sl).free ==> g == f || g in s.free;
  }

  // ---------- pageInsert ----------

  ghost function MapLeaf(s: Phys, sl: Slot, w: Pte): Phys
    requires Inv(s) && sl in s.tb.ent
  {
    var f := Target(w);
    var p := PutLeaf(s, sl, w);
    Phys(p.mem, if f == -1 then s.refs else s.refs[f := s.refs[f] + 1], s.free, s.held, p.tb, s.stale)
  }

  lemma MapLeafInv(s: Phys, sl: Slot, w: Pte)
    requires Inv(s) && LeafLevel(s, sl) && Target(s.tb.ent[sl]) == -1
    requires Target(w) != -1 ==> Target(w) !in s.free && Target(w) !in s.tb.dir
    ensures Inv(MapLeaf(s, sl, w))
  {
    hide Shape, Counted, Linked, Forest;
    NoTableBelowZero(s);
    MapLeafLists(s, sl, w);
    PutLeafInv(s, sl, w, MapLeaf(s, sl, w));
  }

  lemma MapLeafLists(s: Phys, sl: Slot, w: Pte)
    requires Inv(s) && LeafLevel(s, sl) && Target(s.tb.ent[sl]) == -1
    requires Target(w) != -1 ==> Target(w) !in s.free
    ensures var s' := MapLeaf(s, sl, w);
            && |s.refs| == |s'.refs| == FRAMES && Shape(s'.(mem := s.mem))
            && (forall g :: 0 <= g < FRAMES ==> s'.refs[g] == s.refs[g] - Hit(s.tb.ent[sl], g) + Hit(w, g))
            && (forall g :: g in s'.free ==> 0 <= g < FRAMES && s'.refs[g] == 0)
  {
    hide Forest, Linked, PutLeaf;
  }

  /** Exactly one page of one address space is remapped, and no frame that is
      mapped afterwards changes its contents. */
  ghost predicate Remapped(s: Phys, s': Phys, root: int, p: int, w: Pte) {
    && s'.held == s.held && s'.stale == s.stale
    && (forall r :: IsRoot(s'.tb, r) <==> IsRoot(s.tb, r))
    && (forall r, q :: IsRoot(s.tb, r) && IsPage(q) ==>
          Lookup(s'.tb, r, q) == if r == root && q == p then w else Lookup(s.tb, r, q))
    && (forall r, q :: IsRoot(s.tb, r) && IsPage(q) ==> SameContents(s, s', r, q) && StableWalk(s.tb, s'.tb, r, q))
  }

  ghost predicate SameContents(s: Phys, s': Phys, r: int, q: int) {
    var f := Target(Lookup(s'.tb, r, q));
    f != -1 ==> FrameAt(s', f) == FrameAt(s, f)
  }

  lemma PutLeafRemapped(s: Phys, root: int, p: int, w: Pte, s': Phys)
    requires Inv(s) && Inv(s') && IsRoot(s.tb, root) && IsPage(p) && Walk0(s.tb, root, p) != -1
    requires Target(w) !in s.tb.dir
    requires LeafLevel(s, LeafSlot(s.tb, root, p))
    requires s' == PutLeaf(s, LeafSlot(s.tb, root, p), w).(refs := s'.refs, free := s'.free)
    ensures Remapped(s, s', root, p, w)
  {
    var sl := LeafSlot(s.tb, root, p);
    hide Counted, Linked, PutEntry, NodeOk, EntryOk;
    LeafNotStale(s, sl);
    SlotFacts(s, sl);
    PutEntryFrame(s.mem, sl, w);
    assert forall r :: IsRoot(s'.tb, r) <==> IsRoot(s.tb, r);
    forall r, q | IsRoot(s.tb, r) && IsPage(q)
      ensures Lookup(s'.tb, r, q) == if r == root && q == p then w else Lookup(s.tb, r, q)
      ensures SameContents(s, s', r, q) && StableWalk(s.tb, s'.tb, r, q)
    {
      SetLeafLookup(s.tb, root, p, w, r, q);
      if Target(Lookup(s'.tb, r, q)) != -1 {
        MappedFrame(s', r, q);
      }
    }
  }

  lemma UnmapRemapped(s: Phys, root: int, p: int)
    requires Inv(s) && IsRoot(s.tb, root) && IsPage(p) && Target(Lookup(s.tb, root, p)) != -1
    ensures var sl := LeafSlot(s.tb, root, p);
            && LeafLevel(s, sl) && Inv(Unmap(s, sl)) && Remapped(s, Unmap(s, sl), root, p, ZERO)
  {
    hide Counted, Linked, Forest, Remapped;
    MappedFrame(s, root, p);
    InvWalk(s, root, p);
    UnmapInv(s, LeafSlot(s.tb, root, p));
    NoTableBelowZero(s);
    PutLeafRemapped(s, root, p, ZERO, Unmap(s, LeafSlot(s.tb, root, p)));
  }

  lemma NoTableBelowZero(s: Phys)
    requires Inv(s)
    ensures -1 !in s.tb.dir
  {
    assert -1 in s.tb.dir ==> NodeOk(s.tb, -1);
  }

  lemma MapLeafRemapped(s: Phys, root: int, p: int, w: Pte)
    requires Inv(s) && IsRoot(s.tb, root) && IsPage(p) && Walk0(s.tb, root, p) != -1
    requires Target(Lookup(s.tb, root, p)) == -1
    requires Target(w) != -1 ==> Target(w) !in s.free && Target(w) !in s.tb.dir
    ensures var sl := LeafSlot(s.tb, root, p);
            && LeafLevel(s, sl) && Inv(MapLeaf(s, sl, w)) && Remapped(s, MapLeaf(s, sl, w), root, p, w)
  {
    hide Counted, Linked, Forest, Remapped;
    InvWalk(s, root, p);
    MapLeafInv(s, LeafSlot(s.tb, root, p), w);
    NoTableBelowZero(s);
    PutLeafRemapped(s, root, p, w, MapLeaf(s, LeafSlot(s.tb, root, p), w));
  }

  /** Remapping, then growing tables, then remapping the same page again. */
  lemma RemapChain(s: Phys, s1: Phys, s2: Phys, s3: Phys, root: int, p: int, w1: Pte, w: Pte)
    requires Inv(s) && Inv(s1) && Inv(s2) && Inv(s3) && IsRoot(s.tb, root) && IsPage(p)
    requires Remapped(s, s1, root, p, w1) && Kept(s1, s2) && Remapped(s2, s3, root, p, w)
    requires Target(w) != -1 ==>
               Target(w) !in s1.free && Target(w) !in s1.tb.dir && FrameAt(s1, Target(w)) == FrameAt(s, Target(w))
    ensures Remapped(s, s3, root, p, w)
  {
    hide Counted, Linked, Forest;
    forall r ensures IsRoot(s3.tb, r) <==> IsRoot(s.tb, r) {
      assert IsRoot(s2.tb, r) <==> IsRoot(s1.tb, r);
    }
    forall r, q | IsRoot(s.tb, r) && IsPage(q)
      ensures Lookup(s3.tb, r, q) == if r == root && q == p then w else Lookup(s.tb, r, q)
      ensures SameContents(s, s3, r, q) && StableWalk(s.tb, s3.tb, r, q)
    {
      assert SameWalk(s1.tb, s2.tb, r, q);
      assert SameContents(s2, s3, r, q) && SameContents(s, s1, r, q);
      assert StableWalk(s2.tb, s3.tb, r, q) && StableWalk(s.tb, s1.tb, r, q);
      var f := Target(Lookup(s3.tb, r, q));
      if f != -1 && !(r == root && q == p) {
        MappedFrame(s1, r, q);
      }
    }
  }

  lemma KeptRoots(s: Phys, s': Phys)
    requires Inv(s) && Inv(s') && Kept(s, s')
    ensures forall r :: IsRoot(s'.tb, r) <==> IsRoot(s.tb, r)
    ensures s'.stale == s.stale && s'.held == s.held
    ensures forall r, q :: IsRoot(s.tb, r) && IsPage(q) ==> SameWalk(s.tb, s'.tb, r, q)
  {
  }

  lemma LeafNotStale(s: Phys, sl: Slot)
    requires Inv(s) && LeafLevel(s, sl)
    ensures sl !in s.stale
  {
  }

  /** PA2PTE(pa) | perm | PTE_ACCESSED | PTE_DIRTY | PTE_VALID */
  function LeafEntry(ppn: nat, perm: Pte): Pte {
    perm.(ppn := ppn, valid := true, accessed := true, dirty := true)
  }

  /** The word pageInsert stores: the page number and the bits given, with the accessed, dirty and valid bits set. */
  lemma InsertedWord(ppn: nat, perm: Perm, k: nat)
    requires k < 10 && perm.high == 0 && ppn < 0x1000_0000_0000
    ensures var w := Encode(LeafEntry(ppn, perm));
            && Pte2Pa(w) == ppn * 4096 && w < PPN_FIELD
            && (Bit(w, k) <==> k == 0 || k == 6 || k == 7 || Bit(Encode(perm), k))
  {
    hide Bit, Encode, Pte2Pa;
    FlagPositions(LeafEntry(ppn, perm));
    FlagPositions(perm);
    MacrosSplitTheWord(LeafEntry(ppn, perm));
    NoHighBits(LeafEntry(ppn, perm));
  }

  lemma NoHighBits(p: Pte)
    requires InRange(p) && p.high == 0
    ensures Encode(p) < PPN_FIELD
  {
    hide Number;
    FlagNumber(p);
  }

  /** The frame is in use as neither a table nor free memory. */
  ghost predicate InHand(s: Phys, f: int) {
    f != -1 ==> 0 <= f < FRAMES && f !in s.free && f !in s.tb.dir
  }

  /** The frame may be mapped at page p: unmapping what is there now does not free it. */
  ghost predicate MayMap(s: Phys, root: int, p: int, f: int) {
    InHand(s, f) && (f != -1 && Target(Lookup(s.tb, root, p)) == f ==> RefAt(s, f) > 1)
  }

  /** Unmapping the last reference of a frame puts it on the free list. */
  lemma UnmapLast(s: Phys, root: int, p: int, f: int)
    requires Inv(s) && IsRoot(s.tb, root) && IsPage(p) && f != -1 && InHand(s, f) && !MayMap(s, root, p, f)
    ensures Target(Lookup(s.tb, root, p)) == f && Walk0(s.tb, root, p) != -1
    ensures var sl := LeafSlot(s.tb, root, p);
            && LeafLevel(s, sl) && Inv(Unmap(s, sl)) && Remapped(s, Unmap(s, sl), root, p, ZERO)
            && f in Unmap(s, sl).free
  {
    hide Linked, Forest, Remapped;
    MappedFrame(s, root, p);
    UnmapRemapped(s, root, p);
  }

  /** Mapping a frame that is on the free list ends the invariant. */
  lemma MapFree(s: Phys, root: int, p: int, w: Pte)
    requires Inv(s) && IsRoot(s.tb, root) && IsPage(p) && Walk0(s.tb, root, p) != -1
    requires Target(w) in s.free && LeafSlot(s.tb, root, p) in s.tb.ent
    ensures var s' := MapLeaf(s, LeafSlot(s.tb, root, p), w);
            !Inv(s') && Lookup(s'.tb, root, p) == w && Target(w) in s'.free
  {
    hide Linked, PutEntry, NodeOk, EntryOk;
    ZeroRefs(s, Target(w));
    SetLeafLookup(s.tb, root, p, w, root, p);
  }

  lemma UnmapKeeps(s: Phys, root: int, p: int, f: int)
    requires Inv(s) && IsRoot(s.tb, root) && IsPage(p) && Target(Lookup(s.tb, root, p)) != -1
    requires LeafLevel(s, LeafSlot(s.tb, root, p))
    requires MayMap(s, root, p, f) && f != -1
    ensures var s' := Unmap(s, LeafSlot(s.tb, root, p));
            f !in s'.free && f !in s'.tb.dir && FrameAt(s', f) == FrameAt(s, f)
  {
    hide Counted, Linked, Forest, PutEntry;
    LeafNotStale(s, LeafSlot(s.tb, root, p));
    SlotFacts(s, LeafSlot(s.tb, root, p));
    PutEntryFrame(s.mem, LeafSlot(s.tb, root, p), ZERO);
  }

  lemma RemappedReflexive(s: Phys, root: int, p: int)
    requires Inv(s)
    ensures Remapped(s, s, root, p, Lookup(s.tb, root, p))
  {
  }

  lemma KeptFrame(s: Phys, s': Phys, f: int)
    requires Inv(s) && Inv(s') && Kept(s, s') && 0 <= f < FRAMES && f !in s.free && f !in s.tb.dir
    ensures f !in s'.free && f !in s'.tb.dir && FrameAt(s', f) == FrameAt(s, f) && RefAt(s', f) == RefAt(s, f)
  {
  }

  lemma RemappedFacts(s: Phys, s': Phys, root: int, p: int, w: Pte)
    requires Inv(s) && Inv(s') && Remapped(s, s', root, p, w) && IsRoot(s.tb, root) && IsPage(p)
    ensures s'.held == s.held && s'.stale == s.stale
    ensures forall r :: IsRoot(s'.tb, r) <==> IsRoot(s.tb, r)
    ensures Lookup(s'.tb, root, p) == w
  {
  }

  lemma StaysWalked(s: Phys, s': Phys, root: int, p: int, w: Pte)
    requires Remapped(s, s', root, p, w) && IsRoot(s.tb, root) && IsPage(p) && Walk0(s.tb, root, p) != -1
    ensures Walk0(s'.tb, root, p) != -1
  {
    hide Lookup, Walk0, Walk1, SameContents;
  }

  lemma NotMayMap(s: Phys, root: int, p: int, f: int)
    requires InHand(s, f) && !MayMap(s, root, p, f)
    ensures f != -1
  {
  }

  lemma NoTable(s: Phys, root: int, p: int)
    requires Inv(s) && Walk0(s.tb, root, p) == -1
    ensures !Lookup(s.tb, root, p).valid
  {
    NoTableBelowZero(s);
  }

  lemma LookupIsLeaf(tb: Tables, root: int, p: int)
    ensures LeafSlot(tb, root, p) in tb.ent ==> Lookup(tb, root, p) == tb.ent[LeafSlot(tb, root, p)]
  {
  }

  lemma KeptLookup(s: Phys, s': Phys, root: int, p: int)
    requires Inv(s) && Inv(s') && Kept(s, s') && IsRoot(s.tb, root) && IsPage(p)
    ensures Lookup(s'.tb, root, p) == Lookup(s.tb, root, p)
  {
    assert SameWalk(s.tb, s'.tb, root, p);
  }

  lemma UnmapLeaf(s: Phys, root: int, p: int, f: int)
    requires Inv(s) && IsRoot(s.tb, root) && IsPage(p) && Target(Lookup(s.tb, root, p)) != -1
    requires MayMap(s, root, p, f)
    ensures var sl := LeafSlot(s.tb, root, p);
            && LeafLevel(s, sl) && Inv(Unmap(s, sl)) && Remapped(s, Unmap(s, sl), root, p, ZERO)
            && (f != -1 ==> f !in Unmap(s, sl).free && f !in Unmap(s, sl).tb.dir
                            && FrameAt(Unmap(s, sl), f) == FrameAt(s, f))
  {
    hide Counted, Linked, Forest, Remapped, Unmap;
    UnmapRemapped(s, root, p);
    if f != -1 { UnmapKeeps(s, root, p, f); }
  }

  // ---------- allocPgdir and boot ----------

  ghost function AddRoot(s: Phys, f: int): Phys
    requires 0 <= f < |s.refs|
  {
    Phys(s.mem, s.refs[f := s.refs[f] + 1], s.free, s.held, NewRoot(s.tb, f), s.stale)
  }

  lemma AddRootInv(s: Phys, f: int)
    requires Inv(s) && 0 <= f < FRAMES && s.refs[f] == 0 && f !in s.free && s.mem[f] == ZeroFrame()
    ensures Inv(AddRoot(s, f)) && IsRoot(AddRoot(s, f).tb, f)
  {
    ZeroRefs(s, f);
    NewRootForest(s.tb, f);
    AddRootLinked(s, f);
    AddRootCounted(s, f);
  }

  lemma AddRootLinked(s: Phys, f: int)
    requires Inv(s) && 0 <= f < FRAMES && f !in s.tb.dir && s.mem[f] == ZeroFrame() && Forest(NewRoot(s.tb, f))
    ensures Shape(AddRoot(s, f)) && Linked(AddRoot(s, f))
  {
    hide Counted, NodeOk, EntryOk;
    var s' := AddRoot(s, f);
    forall x | x in s'.tb.ent && x !in s'.stale ensures EntryAt(s'.mem, x) == s'.tb.ent[x] {
      assert x in s.tb.ent ==> EntryAt(s.mem, x) == s.tb.ent[x];
      assert x !in s.tb.ent ==> x.t == f;
    }
  }

  lemma AddRootCounted(s: Phys, f: int)
    requires Inv(s) && 0 <= f < FRAMES && f !in s.tb.dir && s.refs[f] == 0 && f !in s.free && Refs(s.tb, f) == {}
    requires s.held[f] == 0 && Shape(AddRoot(s, f))
    ensures Counted(AddRoot(s, f))
  {
    hide Linked, Refs, NodeOk, EntryOk;
    var s' := AddRoot(s, f);
    forall g | 0 <= g < FRAMES ensures s'.refs[g] == |Refs(s'.tb, g)| + RootCount(s'.tb, g) + s'.held[g] {
      NewRootRefs(s.tb, f, g);
    }
  }

  /** Memory after initFreePages: the kernel image holds the frames below n, the rest is free. */
  lemma BootInv(s: Phys, n: nat)
    requires n <= FRAMES && Shape(s) && s.tb == Tables(map[], map[]) && s.stale == {}
    requires forall f :: 0 <= f < FRAMES ==> s.refs[f] == s.held[f] == if f < n then 1 else 0
    requires forall f :: f in s.free ==> n <= f < FRAMES
    ensures Inv(s)
  {
    forall f | 0 <= f < FRAMES ensures Refs(s.tb, f) == {} {
    }
  }
}
