/**
 The set of all three-level page tables, as a graph of slots.  `dir` records for
 every frame that is a table which address space it belongs to, its level, the
 prefix of the page numbers below it and the slot that points to it; `ent` gives
 the entry in every slot of every table.  The invariant says that this graph is
 a forest: no table is shared and every table hangs under its own slot.
 */
module Tables {
  import opened PageEntry

  const FRAMES: nat := 65536             // PHYSICAL_PAGE_NUM
  const BASE_PPN: nat := 0x80000         // PHYSICAL_ADDRESS_BASE >> PAGE_SHIFT
  const PAGES: nat := 0x800_0000         // 2^27 page numbers in 39 bits of address

  datatype Slot = Slot(t: int, i: int)
  datatype Node = Node(root: int, level: int, prefix: int, up: Slot)
  datatype Tables = Tables(dir: map<int, Node>, ent: map<Slot, Pte>)

  /** The frame an entry refers to; -1 when it is not valid or lies outside RAM. */
  function Target(p: Pte): (f: int)
    ensures f == -1 || 0 <= f < FRAMES
  {
    if p.valid && BASE_PPN <= p.ppn < BASE_PPN + FRAMES then p.ppn - BASE_PPN else -1
  }

  /** page2pte(pp) | PTE_VALID */
  function TableEntry(f: int): (p: Pte)
    requires 0 <= f < FRAMES
    ensures Target(p) == f && p != ZERO && InRange(p)
  {
    ZERO.(valid := true, ppn := BASE_PPN + f)
  }

  /** An entry that the hardware follows to a next table: valid, neither readable nor writable nor executable, with the
      reserved bits clear. */
  predicate IsPointer(p: Pte) { p.valid && !p.read && !p.write && !p.exec && p.high == 0 }

  // ---------- the forest ----------

  ghost predicate NodeOk(tb: Tables, t: int)
    requires t in tb.dir
  {
    var n := tb.dir[t];
    && 0 <= t < FRAMES
    && 0 <= n.level <= 2
    && 0 <= n.prefix
    && IsRoot(tb, n.root)
    && (n.level == 2 ==> n.root == t && n.prefix == 0)
    && (n.level < 2 ==>
          && n.up in tb.ent && n.up.t in tb.dir && 0 <= n.up.i < WORDS
          && tb.dir[n.up.t].level == n.level + 1
          && tb.dir[n.up.t].root == n.root
          && n.prefix == tb.dir[n.up.t].prefix * 512 + n.up.i
          && Target(tb.ent[n.up]) == t)
  }

  ghost predicate IsRoot(tb: Tables, r: int) {
    r in tb.dir && tb.dir[r].level == 2 && tb.dir[r].root == r
  }

  ghost predicate EntryOk(tb: Tables, sl: Slot)
    requires sl in tb.ent && sl.t in tb.dir
  {
    var c := Target(tb.ent[sl]);
    if tb.dir[sl.t].level == 0 then
      c !in tb.dir
    else
      tb.ent[sl] == ZERO || (IsPointer(tb.ent[sl]) && c in tb.dir && tb.dir[c].level < 2 && tb.dir[c].up == sl)
  }

  ghost predicate Forest(tb: Tables) {
    && (forall sl :: sl in tb.ent <==> sl.t in tb.dir && 0 <= sl.i < WORDS)
    && (forall t :: t in tb.dir ==> NodeOk(tb, t))
    && (forall sl :: sl in tb.ent ==> EntryOk(tb, sl))
  }

  /** The slots that refer to frame f. */
  ghost function Refs(tb: Tables, f: int): set<Slot> {
    set sl | sl in tb.ent && Target(tb.ent[sl]) == f
  }

  lemma Unreferenced(tb: Tables, f: int)
    requires Refs(tb, f) == {}
    ensures forall sl :: sl in tb.ent ==> Target(tb.ent[sl]) != f
  {
    assert forall sl :: sl in tb.ent ==> (Target(tb.ent[sl]) == f <==> sl in Refs(tb, f));
  }

  // ---------- the walk ----------

  /** The level-1 table on the path to page p, or -1. */
  ghost function Walk1(tb: Tables, root: int, p: int): int {
    var sl := Slot(root, p / 262144);
    if sl in tb.ent then Target(tb.ent[sl]) else -1
  }

  /** The level-0 table on the path to page p, or -1. */
  ghost function Walk0(tb: Tables, root: int, p: int): int {
    var sl := Slot(Walk1(tb, root, p), p / 512 % 512);
    if sl in tb.ent then Target(tb.ent[sl]) else -1
  }

  ghost function LeafSlot(tb: Tables, root: int, p: int): Slot {
    Slot(Walk0(tb, root, p), p % 512)
  }

  /** What the tables say about page p of the address space `root`. */
  ghost function Lookup(tb: Tables, root: int, p: int): Pte {
    var sl := LeafSlot(tb, root, p);
    if sl in tb.ent then tb.ent[sl] else ZERO
  }

  predicate IsPage(p: int) { 0 <= p < PAGES }

  lemma WalkFacts(tb: Tables, root: int, p: int)
    requires Forest(tb) && IsRoot(tb, root) && IsPage(p)
    ensures Slot(root, p / 262144) in tb.ent
    ensures var t1 := Walk1(tb, root, p);
            t1 != -1 ==>
              && t1 in tb.dir && tb.dir[t1].level == 1 && tb.dir[t1].root == root
              && tb.dir[t1].prefix == p / 262144 && tb.dir[t1].up == Slot(root, p / 262144)
              && Slot(t1, p / 512 % 512) in tb.ent
    ensures var t1, t0 := Walk1(tb, root, p), Walk0(tb, root, p);
            t0 != -1 ==>
              && t1 != -1 && t0 in tb.dir && tb.dir[t0].level == 0 && tb.dir[t0].root == root
              && tb.dir[t0].prefix == p / 512 && tb.dir[t0].up == Slot(t1, p / 512 % 512)
              && LeafSlot(tb, root, p) in tb.ent
  {
    assert 0 <= p / 262144 < 512;
    assert Slot(root, p / 262144) in tb.ent;
    var t1 := Walk1(tb, root, p);
    if t1 != -1 {
      assert EntryOk(tb, Slot(root, p / 262144));
      assert NodeOk(tb, t1);
      assert Slot(t1, p / 512 % 512) in tb.ent;
      var t0 := Walk0(tb, root, p);
      if t0 != -1 {
        assert EntryOk(tb, Slot(t1, p / 512 % 512));
        assert NodeOk(tb, t0);
        assert p / 512 == p / 262144 * 512 + p / 512 % 512;
        assert LeafSlot(tb, root, p) in tb.ent;
      }
    } else {
      assert -1 in tb.dir ==> NodeOk(tb, -1);
    }
  }

  /** Distinct pages, of one address space or of two, never share a leaf slot. */
  lemma LeafSlotInjective(tb: Tables, r: int, p: int, r': int, p': int)
    requires Forest(tb) && IsRoot(tb, r) && IsPage(p) && IsRoot(tb, r') && IsPage(p')
    requires LeafSlot(tb, r, p) == LeafSlot(tb, r', p') && Walk0(tb, r, p) != -1
    ensures r == r' && p == p'
  {
    WalkFacts(tb, r, p);
    WalkFacts(tb, r', p');
    assert p == p / 512 * 512 + p % 512;
    assert p' == p' / 512 * 512 + p' % 512;
  }

  /** Every valid slot of a level-0 table is the leaf slot of exactly one page. */
  lemma LeafSlotOnto(tb: Tables, sl: Slot) returns (r: int, p: int)
    requires Forest(tb) && sl in tb.ent && tb.dir[sl.t].level == 0
    ensures IsRoot(tb, r) && r == tb.dir[sl.t].root && LeafSlot(tb, r, p) == sl && Walk0(tb, r, p) == sl.t
    ensures IsPage(p) && p == tb.dir[sl.t].prefix * 512 + sl.i
  {
    assert NodeOk(tb, sl.t);
    var up0 := tb.dir[sl.t].up;
    assert NodeOk(tb, up0.t);
    var up1 := tb.dir[up0.t].up;
    assert NodeOk(tb, up1.t);
    r := tb.dir[sl.t].root;
    p := tb.dir[sl.t].prefix * 512 + sl.i;
    assert tb.dir[up0.t].prefix == up1.i;
    assert p == (up1.i * 512 + up0.i) * 512 + sl.i;
    assert p / 512 == up1.i * 512 + up0.i && p % 512 == sl.i;
    assert p / 262144 == up1.i && p / 512 % 512 == up0.i;
  }

  // ---------- changing a leaf ----------

  ghost function SetLeaf(tb: Tables, sl: Slot, w: Pte): Tables {
    tb.(ent := tb.ent[sl := w])
  }

  lemma SetLeafForest(tb: Tables, sl: Slot, w: Pte)
    requires Forest(tb) && sl in tb.ent && tb.dir[sl.t].level == 0 && Target(w) !in tb.dir
    ensures Forest(SetLeaf(tb, sl, w))
  {
    var tb' := SetLeaf(tb, sl, w);
    forall t | t in tb'.dir ensures NodeOk(tb', t) {
      assert NodeOk(tb, t);
      assert NodeOk(tb, tb.dir[t].root);
    }
    forall s | s in tb'.ent ensures EntryOk(tb', s) {
      assert EntryOk(tb, s);
    }
  }

  lemma SetLeafRefs(tb: Tables, sl: Slot, w: Pte, f: int)
    requires sl in tb.ent
    ensures Refs(SetLeaf(tb, sl, w), f) == Refs(tb, f) - {sl} + (if Target(w) == f then {sl} else {})
  {
  }

  /** The tree refines a map: writing one leaf updates one key. */
  lemma SetLeafLookup(tb: Tables, root: int, p: int, w: Pte, r: int, q: int)
    requires Forest(tb) && IsRoot(tb, root) && IsPage(p) && Walk0(tb, root, p) != -1
    requires Target(w) !in tb.dir
    requires IsRoot(tb, r) && IsPage(q)
    ensures var tb' := SetLeaf(tb, LeafSlot(tb, root, p), w);
            && Walk1(tb', r, q) == Walk1(tb, r, q) && Walk0(tb', r, q) == Walk0(tb, r, q)
            && Lookup(tb', r, q) == if r == root && q == p then w else Lookup(tb, r, q)
  {
    WalkFacts(tb, root, p);
    WalkFacts(tb, r, q);
    if LeafSlot(tb, r, q) == LeafSlot(tb, root, p) {
      LeafSlotInjective(tb, root, p, r, q);
    }
  }

  // ---------- adding a table ----------

  ghost function ZeroSlots(f: int): map<Slot, Pte> {
    map i | 0 <= i < WORDS :: Slot(f, i) := ZERO
  }

  /** A fresh table f hung under the empty interior slot sl. */
  ghost function Grow(tb: Tables, sl: Slot, f: int): Tables
    requires sl in tb.ent && sl.t in tb.dir && 0 <= f < FRAMES
  {
    var n := tb.dir[sl.t];
    Tables(tb.dir[f := Node(n.root, n.level - 1, n.prefix * 512 + sl.i, sl)],
           (tb.ent + ZeroSlots(f))[sl := TableEntry(f)])
  }

  lemma GrowForest(tb: Tables, sl: Slot, f: int)
    requires Forest(tb) && sl in tb.ent && tb.dir[sl.t].level > 0 && tb.ent[sl] == ZERO
    requires 0 <= f < FRAMES && f !in tb.dir && Refs(tb, f) == {}
    ensures Forest(Grow(tb, sl, f))
  {
    hide NodeOk, EntryOk;
    var tb' := Grow(tb, sl, f);
    forall t | t in tb'.dir ensures NodeOk(tb', t) {
      GrowNode(tb, sl, f, t);
    }
    forall s | s in tb'.ent ensures EntryOk(tb', s) {
      GrowEntry(tb, sl, f, s);
    }
  }

  lemma GrowNode(tb: Tables, sl: Slot, f: int, t: int)
    requires Forest(tb) && sl in tb.ent && tb.dir[sl.t].level > 0 && tb.ent[sl] == ZERO
    requires 0 <= f < FRAMES && f !in tb.dir && (t in tb.dir || t == f)
    ensures NodeOk(Grow(tb, sl, f), t)
  {
    hide EntryOk;
    assert NodeOk(tb, sl.t);
    assert t in tb.dir ==> NodeOk(tb, t) && NodeOk(tb, tb.dir[t].root);
  }

  lemma GrowEntry(tb: Tables, sl: Slot, f: int, s: Slot)
    requires Forest(tb) && sl in tb.ent && tb.dir[sl.t].level > 0 && tb.ent[sl] == ZERO
    requires 0 <= f < FRAMES && f !in tb.dir && Refs(tb, f) == {} && s in Grow(tb, sl, f).ent
    ensures s.t in Grow(tb, sl, f).dir && EntryOk(Grow(tb, sl, f), s)
  {
    hide NodeOk;
    LevelAtMostTwo(tb, sl.t);
    Unreferenced(tb, f);
    assert s in tb.ent ==> EntryOk(tb, s);
    assert s !in tb.ent ==> s.t == f;
  }

  lemma LevelAtMostTwo(tb: Tables, t: int)
    requires Forest(tb) && t in tb.dir
    ensures 0 <= t < FRAMES && 0 <= tb.dir[t].level <= 2 && -1 !in tb.dir
  {
    assert NodeOk(tb, t);
    assert -1 in tb.dir ==> NodeOk(tb, -1);
  }

  lemma GrowRefs(tb: Tables, sl: Slot, f: int, g: int)
    requires Forest(tb) && sl in tb.ent && tb.ent[sl] == ZERO
    requires 0 <= f < FRAMES && f !in tb.dir && Refs(tb, f) == {} && g != -1
    ensures Refs(Grow(tb, sl, f), g) == if g == f then {sl} else Refs(tb, g)
  {
    Unreferenced(tb, f);
  }

  /** Growing a table changes what no page maps to. */
  lemma GrowLookup(tb: Tables, sl: Slot, f: int, r: int, q: int)
    requires Forest(tb) && sl in tb.ent && tb.dir[sl.t].level > 0 && tb.ent[sl] == ZERO
    requires 0 <= f < FRAMES && f !in tb.dir && Refs(tb, f) == {}
    requires IsRoot(tb, r) && IsPage(q)
    ensures var tb' := Grow(tb, sl, f);
            && IsRoot(tb', r)
            && Lookup(tb', r, q) == Lookup(tb, r, q)
            && (Walk1(tb, r, q) != -1 ==> Walk1(tb', r, q) == Walk1(tb, r, q))
            && (Walk0(tb, r, q) != -1 ==> Walk0(tb', r, q) == Walk0(tb, r, q))
  {
    GrowWalk1(tb, sl, f, r, q);
    GrowWalk0(tb, sl, f, r, q);
  }

  lemma GrowWalk1(tb: Tables, sl: Slot, f: int, r: int, q: int)
    requires Forest(tb) && sl in tb.ent && tb.dir[sl.t].level > 0 && tb.ent[sl] == ZERO
    requires 0 <= f < FRAMES && f !in tb.dir
    requires IsRoot(tb, r) && IsPage(q)
    ensures var t1, t1' := Walk1(tb, r, q), Walk1(Grow(tb, sl, f), r, q);
            t1' == t1 || (t1 == -1 && t1' == f && sl == Slot(r, q / 262144))
  {
    WalkFacts(tb, r, q);
  }

  lemma GrowWalk0(tb: Tables, sl: Slot, f: int, r: int, q: int)
    requires Forest(tb) && sl in tb.ent && tb.dir[sl.t].level > 0 && tb.ent[sl] == ZERO
    requires 0 <= f < FRAMES && f !in tb.dir
    requires IsRoot(tb, r) && IsPage(q)
    ensures var t0, t0' := Walk0(tb, r, q), Walk0(Grow(tb, sl, f), r, q);
            t0' == t0 || (t0 == -1 && t0' == f)
  {
    WalkFacts(tb, r, q);
    GrowWalk1(tb, sl, f, r, q);
    assert Grow(tb, sl, f).ent[Slot(f, q / 512 % 512)] == ZERO;
    assert -1 in tb.dir ==> NodeOk(tb, -1);
  }

  /** An address space that has no table but its root. */
  ghost function NewRoot(tb: Tables, f: int): Tables {
    Tables(tb.dir[f := Node(f, 2, 0, Slot(f, 0))], tb.ent + ZeroSlots(f))
  }

  lemma NewRootForest(tb: Tables, f: int)
    requires Forest(tb) && 0 <= f < FRAMES && f !in tb.dir && Refs(tb, f) == {}
    ensures Forest(NewRoot(tb, f)) && IsRoot(NewRoot(tb, f), f)
  {
    var tb' := NewRoot(tb, f);
    Unreferenced(tb, f);
    forall t | t in tb'.dir ensures NodeOk(tb', t) {
      if t in tb.dir { assert NodeOk(tb, t); }
    }
    forall s | s in tb'.ent ensures EntryOk(tb', s) {
      if s in tb.ent { assert EntryOk(tb, s); }
    }
  }

  lemma NewRootRefs(tb: Tables, f: int, g: int)
    requires Forest(tb) && f !in tb.dir && g != -1
    ensures Refs(NewRoot(tb, f), g) == Refs(tb, g)
  {
  }

  lemma NewRootLookup(tb: Tables, f: int, r: int, q: int)
    requires Forest(tb) && 0 <= f < FRAMES && f !in tb.dir && IsPage(q)
    ensures IsRoot(tb, r) ==> IsRoot(NewRoot(tb, f), r) && Lookup(NewRoot(tb, f), r, q) == Lookup(tb, r, q)
    ensures Lookup(NewRoot(tb, f), f, q) == ZERO
  {
    var tb' := NewRoot(tb, f);
    assert -1 in tb.dir ==> NodeOk(tb, -1);
    assert tb'.ent[Slot(f, q / 262144)] == ZERO;
    assert Walk1(tb', f, q) == -1 && Walk0(tb', f, q) == -1;
    if IsRoot(tb, r) {
      WalkFacts(tb, r, q);
    }
  }
}
