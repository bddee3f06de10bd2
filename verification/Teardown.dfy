/**
 pgdirFree (kernel/memory/Page.c): the destruction of one address space.  It gives
 back exactly this directory's references, frees each of its tables once, leaks no
 frame, and disturbs no other address space.
 */
module Teardown {
  import opened Bytes
  import opened PageEntry
  import opened Tables
  import opened Frames
  import opened AddressSpace
  import opened Memory

  // ---------- dropping one table ----------

  ghost function Without(tb: Tables, t: int): Tables
    requires t in tb.dir
  {
    var rest := map sl | sl in tb.ent && sl.t != t :: tb.ent[sl];
    Tables(tb.dir - {t}, if tb.dir[t].level == 2 then rest else rest[tb.dir[t].up := ZERO])
  }

  ghost predicate Bare(tb: Tables, t: int) {
    forall sl :: sl in tb.ent && sl.t == t ==> Target(tb.ent[sl]) == -1
  }

  lemma WithoutForest(tb: Tables, t: int)
    requires Forest(tb) && t in tb.dir && Bare(tb, t)
    requires tb.dir[t].level == 2 ==> forall c :: c in tb.dir && c != t ==> tb.dir[c].root != t
    ensures Forest(Without(tb, t))
  {
    hide NodeOk, EntryOk;
    var tb' := Without(tb, t);
    WithoutDomain(tb, t);
    forall c | c in tb'.dir ensures NodeOk(tb', c) {
      WithoutNode(tb, t, c);
    }
    forall sl | sl in tb'.ent ensures EntryOk(tb', sl) {
      WithoutEntry(tb, t, sl);
    }
  }

  lemma WithoutDomain(tb: Tables, t: int)
    requires Forest(tb) && t in tb.dir
    ensures forall sl :: sl in Without(tb, t).ent <==> sl in tb.ent && sl.t != t
    ensures forall sl :: sl in Without(tb, t).ent ==>
              Without(tb, t).ent[sl] == if tb.dir[t].level < 2 && sl == tb.dir[t].up then ZERO else tb.ent[sl]
    ensures tb.dir[t].level < 2 ==> tb.dir[t].up in tb.ent && Target(tb.ent[tb.dir[t].up]) == t && tb.dir[t].up.t != t
  {
    assert NodeOk(tb, t);
  }

  lemma WithoutEntry(tb: Tables, t: int, sl: Slot)
    requires Forest(tb) && t in tb.dir && Bare(tb, t) && sl in tb.ent && sl.t != t
    ensures sl in Without(tb, t).ent && sl.t in Without(tb, t).dir && EntryOk(Without(tb, t), sl)
  {
    hide NodeOk, Without;
    WithoutDomain(tb, t);
    LevelAtMostTwo(tb, t);
    WithoutDir(tb, t);
    assert EntryOk(tb, sl);
    ZeroTarget();
  }

  lemma WithoutDir(tb: Tables, t: int)
    requires t in tb.dir
    ensures Without(tb, t).dir == tb.dir - {t}
  {
  }

  lemma WithoutNode(tb: Tables, t: int, c: int)
    requires Forest(tb) && t in tb.dir && c in tb.dir && c != t && Bare(tb, t)
    requires tb.dir[t].level == 2 ==> tb.dir[c].root != t
    ensures NodeOk(Without(tb, t), c)
  {
    hide EntryOk;
    assert NodeOk(tb, t) && NodeOk(tb, c) && NodeOk(tb, tb.dir[c].root);
    assert tb.dir[c].level < 2 ==> tb.dir[c].up.t != t;
    assert tb.dir[c].level < 2 && tb.dir[t].level < 2 ==> tb.dir[c].up != tb.dir[t].up;
  }

  lemma WithoutRefs(tb: Tables, t: int, g: int)
    requires Forest(tb) && t in tb.dir && Bare(tb, t) && g != -1
    ensures Refs(Without(tb, t), g) == if g == t then {} else Refs(tb, g)
  {
    assert NodeOk(tb, t);
    forall sl | sl in Refs(tb, t) ensures tb.dir[t].level < 2 && sl == tb.dir[t].up {
      assert EntryOk(tb, sl);
    }
  }

  /** paDecreaseRef on a table: it goes to the free list, its slot becomes stale. */
  ghost function Drop(s: Phys, t: int, mem: seq<Frame>): Phys
    requires t in s.tb.dir && 0 <= t < |s.refs|
  {
    var own := set sl | sl in s.stale && sl.t != t;
    Phys(mem, s.refs[t := s.refs[t] - 1], [t] + s.free, s.held, Without(s.tb, t),
         if s.tb.dir[t].level == 2 then own else own + {s.tb.dir[t].up})
  }

  ghost predicate CanDrop(s: Phys, t: int) {
    && Inv(s) && t in s.tb.dir && Bare(s.tb, t)
    && (s.tb.dir[t].level == 2 ==> forall c :: c in s.tb.dir && c != t ==> s.tb.dir[c].root != t)
  }

  lemma DropInv(s: Phys, t: int, mem: seq<Frame>)
    requires CanDrop(s, t) && 0 <= t < |s.refs| == FRAMES
    requires |mem| == FRAMES && (forall f :: 0 <= f < FRAMES ==> IsFrame(mem[f]))
    requires forall f :: 0 <= f < FRAMES && f != t ==> mem[f] == FrameAt(s, f)
    ensures Inv(Drop(s, t, mem))
  {
    WithoutForest(s.tb, t);
    TableRefs(s, t);
    DropShape(s, t, mem);
    DropLinked(s, t, mem);
    DropCounted(s, t, mem);
  }

  lemma DropShape(s: Phys, t: int, mem: seq<Frame>)
    requires CanDrop(s, t) && 0 <= t < |s.refs| == FRAMES && s.refs[t] == 1
    requires |mem| == FRAMES && (forall f :: 0 <= f < FRAMES ==> IsFrame(mem[f]))
    ensures Shape(Drop(s, t, mem)) && t !in s.free
  {
    hide Linked, Forest, Bare, Without;
  }

  lemma DropLinked(s: Phys, t: int, mem: seq<Frame>)
    requires CanDrop(s, t) && 0 <= t < |s.refs| == FRAMES
    requires Shape(Drop(s, t, mem)) && Forest(Without(s.tb, t))
    requires forall f :: 0 <= f < FRAMES && f != t ==> mem[f] == FrameAt(s, f)
    ensures Linked(Drop(s, t, mem))
  {
    hide Counted, Bare, EntryOk, NodeOk;
    var s' := Drop(s, t, mem);
    UpOf(s, t);
    forall sl | sl in s'.tb.ent && sl !in s'.stale ensures EntryAt(s'.mem, sl) == s'.tb.ent[sl] {
      assert sl in s.tb.ent && sl !in s.stale;
      SlotFacts(s, sl);
    }
  }

  lemma UpOf(s: Phys, t: int)
    requires Inv(s) && t in s.tb.dir
    ensures s.tb.dir[t].level < 2 ==>
              var u := s.tb.dir[t].up;
              u in s.tb.ent && u.t != t && u.t in s.tb.dir && s.tb.dir[u.t].level == s.tb.dir[t].level + 1
              && s.tb.dir[t].level >= 0
    ensures 0 <= s.tb.dir[t].level <= 2
  {
    assert NodeOk(s.tb, t);
  }

  lemma DropCounted(s: Phys, t: int, mem: seq<Frame>)
    requires CanDrop(s, t) && 0 <= t < |s.refs| == FRAMES && s.refs[t] == 1 && |s.held| == FRAMES && s.held[t] == 0
    requires Shape(Drop(s, t, mem)) && t !in s.free
    ensures Counted(Drop(s, t, mem))
  {
    hide Linked, EntryOk, Refs, Bare, NodeOk;
    var s' := Drop(s, t, mem);
    forall g | 0 <= g < FRAMES ensures s'.refs[g] == |Refs(s'.tb, g)| + RootCount(s'.tb, g) + s'.held[g] {
      WithoutRefs(s.tb, t, g);
      TableCount(s, t);
    }
  }

  lemma TableCount(s: Phys, t: int)
    requires Inv(s) && t in s.tb.dir
    ensures IsRoot(s.tb, t) <==> s.tb.dir[t].level == 2
  {
    assert NodeOk(s.tb, t);
  }

  // ---------- the state between the steps ----------

  ghost predicate OwnTable(s: Phys, root: int, t: int) {
    t in s.tb.dir && s.tb.dir[t].root == root
  }

  ghost predicate TearingTables(s0: Phys, s: Phys, root: int) {
    && (forall t :: t in s.tb.dir ==> t in s0.tb.dir && s.tb.dir[t] == s0.tb.dir[t])
    && (forall t :: t in s0.tb.dir && !OwnTable(s0, root, t) ==> t in s.tb.dir)
    && (forall t :: t in s0.tb.dir && t !in s.tb.dir ==> t in s.free)
    && (forall sl :: sl in s.tb.ent && !OwnTable(s, root, sl.t) ==> sl in s0.tb.ent && s.tb.ent[sl] == s0.tb.ent[sl])
    && (forall sl :: sl in s.stale ==> OwnTable(s, root, sl.t))
  }

  ghost predicate TearingFrames(s0: Phys, s: Phys, root: int) {
    && s.held == s0.held
    && (forall f :: f in s0.free ==> f in s.free)
    && (forall f :: 0 <= f < FRAMES && RefAt(s0, f) > 0 && RefAt(s, f) == 0 ==> f in s.free)
    && (forall f :: 0 <= f < FRAMES && !OwnTable(s0, root, f) ==> FrameAt(s, f) == FrameAt(s0, f))
  }

  ghost predicate Tearing(s0: Phys, s: Phys, root: int) {
    Inv(s) && TearingTables(s0, s, root) && TearingFrames(s0, s, root)
  }

  lemma TearStart(s: Phys, root: int)
    requires Inv(s) && s.stale == {}
    ensures Tearing(s, s, root)
  {
    hide Counted, Linked;
  }

  lemma TearLeaf(s0: Phys, s: Phys, root: int, sl: Slot)
    requires Tearing(s0, s, root) && LeafLevel(s, sl) && OwnTable(s, root, sl.t) && Target(s.tb.ent[sl]) != -1
    ensures Tearing(s0, Unmap(s, sl), root)
  {
    hide Inv, PutEntry;
    UnmapInv(s, sl);
    LeafNotStale(s, sl);
    SlotFacts(s, sl);
    TearLeafTables(s0, s, root, sl);
    TearLeafFrames(s0, s, root, sl);
  }

  lemma TearLeafTables(s0: Phys, s: Phys, root: int, sl: Slot)
    requires Inv(s) && TearingTables(s0, s, root) && sl in s.tb.ent && OwnTable(s, root, sl.t)
    requires Target(s.tb.ent[sl]) != -1
    ensures TearingTables(s0, Unmap(s, sl), root)
  {
    hide Inv, PutEntry;
  }

  lemma TearLeafFrames(s0: Phys, s: Phys, root: int, sl: Slot)
    requires Inv(s) && TearingTables(s0, s, root) && TearingFrames(s0, s, root) && sl in s.tb.ent && sl !in s.stale
    requires OwnTable(s, root, sl.t) && Target(s.tb.ent[sl]) != -1
    ensures TearingFrames(s0, Unmap(s, sl), root)
  {
    hide Inv, PutEntry, SetLeaf;
    SlotFacts(s, sl);
    PutEntryFrame(s.mem, sl, ZERO);
    var s' := Unmap(s, sl);
    assert OwnTable(s0, root, sl.t);
    forall f | 0 <= f < FRAMES && !OwnTable(s0, root, f) ensures FrameAt(s', f) == FrameAt(s0, f) {
      assert f != sl.t;
      assert FrameAt(s, f) == FrameAt(s0, f);
    }
  }

  lemma TearTable(s0: Phys, s: Phys, root: int, t: int, mem: seq<Frame>)
    requires Tearing(s0, s, root) && CanDrop(s, t) && OwnTable(s, root, t)
    requires |mem| == FRAMES && (forall f :: 0 <= f < FRAMES ==> IsFrame(mem[f]))
    requires forall f :: 0 <= f < FRAMES && f != t ==> mem[f] == FrameAt(s, f)
    ensures 0 <= t < |s.refs| == FRAMES && s.refs[t] == 1 && Tearing(s0, Drop(s, t, mem), root)
  {
    hide Inv, Bare, Without;
    InvShape(s);
    TableRefs(s, t);
    DropInv(s, t, mem);
    TearTableTables(s0, s, root, t, mem);
    assert OwnTable(s0, root, t);
  }

  lemma InvShape(s: Phys)
    requires Inv(s)
    ensures |s.mem| == |s.refs| == |s.held| == FRAMES && forall f :: 0 <= f < FRAMES ==> IsFrame(s.mem[f])
  {
  }

  lemma TearTableTables(s0: Phys, s: Phys, root: int, t: int, mem: seq<Frame>)
    requires Inv(s) && TearingTables(s0, s, root) && OwnTable(s, root, t) && 0 <= t < |s.refs|
    ensures TearingTables(s0, Drop(s, t, mem), root)
  {
    hide Inv;
    UpIsOwn(s, t);
    SlotTables(s);
  }

  lemma SlotTables(s: Phys)
    requires Inv(s)
    ensures forall sl :: sl in s.tb.ent ==> sl.t in s.tb.dir
  {
  }

  lemma UpIsOwn(s: Phys, t: int)
    requires Inv(s) && t in s.tb.dir
    ensures s.tb.dir[t].level < 2 ==>
              var u := s.tb.dir[t].up; u in s.tb.ent && OwnTable(s, s.tb.dir[t].root, u.t) && u.t != t
    ensures 0 <= t < FRAMES && s.tb.dir[t].level <= 2
  {
    assert NodeOk(s.tb, t);
  }

  // ---------- the loops ----------

  /** The path from the root to table t0 under slots i and j is intact. */
  ghost predicate Path(s: Phys, root: int, i: int, t1: int, j: int, t0: int) {
    && Slot(root, i) in s.tb.ent && Slot(root, i) !in s.stale && Target(s.tb.ent[Slot(root, i)]) == t1 && t1 != -1
    && Slot(t1, j) in s.tb.ent && Slot(t1, j) !in s.stale && Target(s.tb.ent[Slot(t1, j)]) == t0 && t0 != -1
  }

  lemma PathWalk(s: Phys, root: int, i: int, t1: int, j: int, t0: int, k: int)
    requires Inv(s) && IsRoot(s.tb, root) && 0 <= i < 512 && 0 <= j < 512 && 0 <= k < 512 && Path(s, root, i, t1, j, t0)
    ensures var p := (i * 512 + j) * 512 + k;
            && IsPage(p) && PathLive(s, root, p) && Walk0(s.tb, root, p) == t0 && LeafSlot(s.tb, root, p) == Slot(t0, k)
            && LeafLevel(s, Slot(t0, k)) && OwnTable(s, root, t0) && Lookup(s.tb, root, p) == s.tb.ent[Slot(t0, k)]
  {
    hide Counted, Linked, NodeOk, EntryOk, Shape;
    var p := (i * 512 + j) * 512 + k;
    assert p / 512 == i * 512 + j && p % 512 == k && p / 262144 == i && p / 512 % 512 == j;
    InvWalk(s, root, p);
    WalkFacts(s.tb, root, p);
  }

  /** The innermost loop: every leaf of table t0 is unmapped. */
  method FreeLeaves(mm: MemoryManager, ghost s0: Phys, root: int, i: int, ghost t1: int, j: int, t0: int)
    requires Tearing(s0, mm.S(), root) && IsRoot(mm.tb, root) && 0 <= i < 512 && 0 <= j < 512
    requires Path(mm.S(), root, i, t1, j, t0)
    modifies mm
    ensures Tearing(s0, mm.S(), root) && mm.tb.dir == old(mm.tb.dir) && mm.stale == old(mm.stale)
    ensures forall sl: Slot :: sl.t != t0 ==> (sl in mm.tb.ent <==> sl in old(mm.tb.ent))
    ensures forall sl: Slot :: sl.t != t0 && sl in mm.tb.ent ==> mm.tb.ent[sl] == old(mm.tb.ent[sl])
    ensures forall k :: 0 <= k < 512 ==> Slot(t0, k) in mm.tb.ent && Target(mm.tb.ent[Slot(t0, k)]) == -1
  {
    hide Inv, TearingTables, TearingFrames, Remapped, Lookup, Walk0, LeafSlot, IsRoot, PathLive, PutEntry;
    for k := 0 to 512
      invariant Tearing(s0, mm.S(), root) && IsRoot(mm.tb, root) && Path(mm.S(), root, i, t1, j, t0)
      invariant mm.tb.dir == old(mm.tb.dir) && mm.stale == old(mm.stale)
      invariant forall sl: Slot :: sl.t != t0 ==> (sl in mm.tb.ent <==> sl in old(mm.tb.ent))
      invariant forall sl: Slot :: sl.t != t0 && sl in mm.tb.ent ==> mm.tb.ent[sl] == old(mm.tb.ent[sl])
      invariant forall k' :: 0 <= k' < k ==> Slot(t0, k') in mm.tb.ent && Target(mm.tb.ent[Slot(t0, k')]) == -1
    {
      ghost var s := mm.S();
      var p := (i * 512 + j) * 512 + k;
      PathWalk(s, root, i, t1, j, t0, k);
      LeafNotStale(s, Slot(t0, k));
      SlotFacts(s, Slot(t0, k));
      NotOnPath(s, root, i, t1, j, t0);
      if mm.mem[t0][k].valid {
        if Target(s.tb.ent[Slot(t0, k)]) != -1 { TearLeaf(s0, s, root, Slot(t0, k)); }
        var r := mm.PageRemove(root, p);
        RootKept(s, mm.S(), root);
      }
    }
  }

  lemma NotOnPath(s: Phys, root: int, i: int, t1: int, j: int, t0: int)
    requires Inv(s) && IsRoot(s.tb, root) && 0 <= i < 512 && 0 <= j < 512 && Path(s, root, i, t1, j, t0)
    ensures t0 != root && t0 != t1
  {
    PathWalk(s, root, i, t1, j, t0, 0);
    WalkFacts(s.tb, root, (i * 512 + j) * 512);
  }

  lemma RootKept(s: Phys, s': Phys, root: int)
    requires s'.tb.dir == s.tb.dir && IsRoot(s.tb, root)
    ensures IsRoot(s'.tb, root)
  {
  }

  /** paDecreaseRef on a table, after the stray store pa2[j] = 0 into it (clear == -1: no such store).
      Its assertion that the count is now zero never fires. */
  method ReleaseTable(mm: MemoryManager, ghost s0: Phys, ghost root: int, t: int, clear: int)
    requires Tearing(s0, mm.S(), root) && CanDrop(mm.S(), t) && OwnTable(mm.S(), root, t) && -1 <= clear < 512
    modifies mm
    ensures Tearing(s0, mm.S(), root) && mm.tb == Without(old(mm.tb), t)
    ensures forall sl :: sl in mm.stale <==>
              (sl in old(mm.stale) && sl.t != t) || (old(mm.tb.dir)[t].level != 2 && sl == old(mm.tb.dir)[t].up)
  {
    hide Inv, TearingTables, TearingFrames, CanDrop, Without;
    ghost var s := mm.S();
    InvShape(s);
    UpIsOwn(s, t);
    if clear != -1 {
      mm.mem := mm.mem[t := mm.mem[t][clear := ZERO]];
    }
    TearTable(s0, s, root, t, mm.mem);
    mm.refs := mm.refs[t := mm.refs[t] - 1];
    assert mm.refs[t] == 0;
    mm.free := [t] + mm.free;
    ghost var n := Drop(s, t, mm.mem);
    mm.tb, mm.stale := n.tb, n.stale;
    assert mm.S() == n;
  }

  /** The interior slots already gone: of the root below i, of the current level-1 table below j. */
  ghost predicate StaleBelow(s: Phys, root: int, i: int, t1: int, j: int) {
    forall sl :: sl in s.stale ==> (sl.t == root && 0 <= sl.i < i) || (sl.t == t1 && 0 <= sl.i < j)
  }

  ghost predicate SameRootEntries(tb: Tables, tb': Tables, root: int, except: int) {
    forall x :: 0 <= x < 512 && x != except ==>
      Slot(root, x) in tb.ent && Slot(root, x) in tb'.ent && tb'.ent[Slot(root, x)] == tb.ent[Slot(root, x)]
  }

  /** The middle loop: every table under t1, then t1 itself. */
  method FreeTable(mm: MemoryManager, ghost s0: Phys, root: int, i: int, t1: int)
    requires Tearing(s0, mm.S(), root) && IsRoot(mm.tb, root) && 0 <= i < 512
    requires Slot(root, i) in mm.tb.ent && Target(mm.tb.ent[Slot(root, i)]) == t1 && t1 != -1
    requires StaleBelow(mm.S(), root, i, root, 0)
    modifies mm
    ensures Tearing(s0, mm.S(), root) && IsRoot(mm.tb, root)
    ensures SameRootEntries(old(mm.tb), mm.tb, root, i)
    ensures Slot(root, i) in mm.tb.ent && mm.tb.ent[Slot(root, i)] == ZERO
    ensures StaleBelow(mm.S(), root, i + 1, root, 0)
  {
    hide Inv, TearingTables, TearingFrames, CanDrop, Without, Bare;
    Middle(mm.S(), root, i, t1);
    for j := 0 to 512
      invariant Tearing(s0, mm.S(), root) && IsRoot(mm.tb, root) && StaleBelow(mm.S(), root, i, t1, j)
      invariant SameRootEntries(old(mm.tb), mm.tb, root, -1)
      invariant Slot(root, i) in mm.tb.ent && Target(mm.tb.ent[Slot(root, i)]) == t1
      invariant forall x :: 0 <= x < j ==> Slot(t1, x) in mm.tb.ent && mm.tb.ent[Slot(t1, x)] == ZERO
    {
      ghost var s := mm.S();
      Middle(s, root, i, t1);
      SlotFacts(s, Slot(t1, j));
      var entry := mm.mem[t1][j];
      if !entry.valid {
        continue;
      }
      var t0 := Target(entry);
      NotOnPath(s, root, i, t1, j, t0);
      FreeLeaves(mm, s0, root, i, t1, j, t0);
      ghost var s1 := mm.S();
      EmptyLeaf(s1, root, i, t1, j, t0);
      ReleaseTable(mm, s0, root, t0, j);
      AfterDrop(s1, root, t0, mm.tb);
    }
    ghost var s2 := mm.S();
    EmptyMiddle(s2, root, i, t1);
    ReleaseTable(mm, s0, root, t1, -1);
    AfterDrop(s2, root, t1, mm.tb);
  }

  lemma Middle(s: Phys, root: int, i: int, t1: int)
    requires Inv(s) && IsRoot(s.tb, root) && 0 <= i < 512 && Slot(root, i) in s.tb.ent
    requires Target(s.tb.ent[Slot(root, i)]) == t1 && t1 != -1
    ensures OwnTable(s, root, t1) && s.tb.dir[t1].level == 1 && s.tb.dir[t1].up == Slot(root, i) && t1 != root
    ensures forall j :: 0 <= j < 512 ==> Slot(t1, j) in s.tb.ent
    ensures forall j :: 0 <= j < 512 ==> Slot(root, j) in s.tb.ent
  {
    assert EntryOk(s.tb, Slot(root, i));
    assert NodeOk(s.tb, t1);
  }

  lemma EmptyLeaf(s: Phys, root: int, i: int, t1: int, j: int, t0: int)
    requires Inv(s) && IsRoot(s.tb, root) && 0 <= i < 512 && 0 <= j < 512 && Path(s, root, i, t1, j, t0)
    requires forall k :: 0 <= k < 512 ==> Slot(t0, k) in s.tb.ent && Target(s.tb.ent[Slot(t0, k)]) == -1
    ensures CanDrop(s, t0) && OwnTable(s, root, t0) && s.tb.dir[t0].level == 0 && s.tb.dir[t0].up == Slot(t1, j)
  {
    hide Counted, Linked, NodeOk, Shape;
    PathWalk(s, root, i, t1, j, t0, 0);
    assert EntryOk(s.tb, Slot(t1, j));
    forall sl | sl in s.tb.ent && sl.t == t0 ensures Target(s.tb.ent[sl]) == -1 {
      assert sl == Slot(t0, sl.i);
    }
  }

  lemma EmptyMiddle(s: Phys, root: int, i: int, t1: int)
    requires Inv(s) && IsRoot(s.tb, root) && 0 <= i < 512 && Slot(root, i) in s.tb.ent
    requires Target(s.tb.ent[Slot(root, i)]) == t1 && t1 != -1
    requires forall x :: 0 <= x < 512 ==> Slot(t1, x) in s.tb.ent && s.tb.ent[Slot(t1, x)] == ZERO
    ensures CanDrop(s, t1) && OwnTable(s, root, t1) && s.tb.dir[t1].level == 1 && s.tb.dir[t1].up == Slot(root, i)
  {
    Middle(s, root, i, t1);
    hide Counted, Linked, NodeOk, EntryOk;
    forall sl | sl in s.tb.ent && sl.t == t1 ensures Target(s.tb.ent[sl]) == -1 {
      assert sl == Slot(t1, sl.i);
    }
  }

  /** The entries after a table is gone. */
  lemma AfterDrop(s: Phys, root: int, t: int, tb': Tables)
    requires Inv(s) && OwnTable(s, root, t) && s.tb.dir[t].level < 2 && tb' == Without(s.tb, t) && IsRoot(s.tb, root)
    ensures IsRoot(tb', root)
    ensures forall sl :: sl in s.tb.ent && sl.t != t ==>
              sl in tb'.ent && tb'.ent[sl] == if sl == s.tb.dir[t].up then ZERO else s.tb.ent[sl]
  {
    hide Inv;
    UpIsOwn(s, t);
  }

  // ---------- the whole directory ----------

  /** The address space `root` is gone; everything else is as before. */
  ghost predicate TornDown(s0: Phys, s: Phys, root: int) {
    && s.held == s0.held && s.stale == {}
    && (forall t :: t in s.tb.dir <==> t in s0.tb.dir && s0.tb.dir[t].root != root)
    && (forall t :: t in s.tb.dir ==> s.tb.dir[t] == s0.tb.dir[t])
    && (forall sl :: sl in s.tb.ent ==> sl in s0.tb.ent && s.tb.ent[sl] == s0.tb.ent[sl])
    && (forall t :: OwnTable(s0, root, t) ==> t in s.free)
    && TearingFrames(s0, s, root)
  }

  method PgdirFree(mm: MemoryManager, root: int)
    requires Inv(mm.S()) && IsRoot(mm.tb, root) && mm.stale == {}
    modifies mm
    ensures Inv(mm.S()) && TornDown(old(mm.S()), mm.S(), root)
  {
    hide Inv, TearingTables, TearingFrames, CanDrop, Without, TornDown;
    ghost var s0 := mm.S();
    TearStart(s0, root);
    for i := 0 to 512
      invariant Tearing(s0, mm.S(), root) && IsRoot(mm.tb, root) && StaleBelow(mm.S(), root, i, root, 0)
      invariant forall x :: 0 <= x < i ==> Slot(root, x) in mm.tb.ent && mm.tb.ent[Slot(root, x)] == ZERO
    {
      RootSlots(mm.S(), root);
      SlotFacts(mm.S(), Slot(root, i));
      var entry := mm.mem[root][i];
      if !entry.valid {
        continue;
      }
      FreeTable(mm, s0, root, i, Target(entry));
    }
    ghost var s1 := mm.S();
    EmptyRoot(s1, root);
    ReleaseTable(mm, s0, root, root, -1);
    AllGone(s0, s1, mm.S(), root);
  }

  lemma RootSlots(s: Phys, root: int)
    requires Inv(s) && IsRoot(s.tb, root)
    ensures forall x :: 0 <= x < 512 ==> Slot(root, x) in s.tb.ent
    ensures s.tb.dir[root].level == 2
  {
  }

  lemma EmptyRoot(s: Phys, root: int)
    requires Inv(s) && IsRoot(s.tb, root)
    requires forall x :: 0 <= x < 512 ==> Slot(root, x) in s.tb.ent && s.tb.ent[Slot(root, x)] == ZERO
    ensures CanDrop(s, root) && OwnTable(s, root, root) && s.tb.dir[root].level == 2
    ensures forall c :: c in s.tb.dir && c != root ==> s.tb.dir[c].root != root
  {
    hide Counted, Linked, EntryOk;
    forall sl | sl in s.tb.ent && sl.t == root ensures Target(s.tb.ent[sl]) == -1 {
      assert sl == Slot(root, sl.i);
    }
    forall c | c in s.tb.dir && c != root ensures s.tb.dir[c].root != root {
      assert NodeOk(s.tb, c);
      if s.tb.dir[c].level == 0 {
        assert NodeOk(s.tb, s.tb.dir[c].up.t);
      }
    }
  }

  lemma AllGone(s0: Phys, s1: Phys, s: Phys, root: int)
    requires Inv(s0) && IsRoot(s0.tb, root) && Inv(s1) && TearingTables(s0, s1, root) && Tearing(s0, s, root)
    requires root in s1.tb.dir && s1.tb.dir[root].level == 2 && s.tb == Without(s1.tb, root)
    requires forall c :: c in s1.tb.dir && c != root ==> s1.tb.dir[c].root != root
    requires forall sl :: sl in s.stale <==> sl in s1.stale && sl.t != root
    ensures TornDown(s0, s, root)
  {
    hide Inv;
    SlotTables(s1);
  }

  // ---------- what it means ----------

  /** The references the directory holds on a frame. */
  ghost function OwnRefs(s: Phys, root: int, f: int): set<Slot> {
    set sl | sl in Refs(s.tb, f) && OwnTable(s, root, sl.t)
  }

  /** Conservation: a mapped frame loses exactly the references of this directory,
      and is on the free list, once, when none is left. */
  lemma TornDownCounts(s0: Phys, s: Phys, root: int, f: int)
    requires Inv(s0) && Inv(s) && TornDown(s0, s, root) && 0 <= f < FRAMES && f !in s0.tb.dir
    ensures RefAt(s, f) == RefAt(s0, f) - |OwnRefs(s0, root, f)|
    ensures RefAt(s0, f) > 0 && RefAt(s, f) == 0 ==> f in s.free
    ensures forall i, j :: 0 <= i < j < |s.free| ==> s.free[i] != s.free[j]
  {
    hide Linked, NodeOk, EntryOk, Refs, OwnRefs;
    TornDownRefs(s0, s, root, f);
    SplitCount(Refs(s0.tb, f), OwnRefs(s0, root, f));
  }

  lemma TornDownRefs(s0: Phys, s: Phys, root: int, f: int)
    requires Inv(s0) && Inv(s) && TornDown(s0, s, root) && f != -1
    ensures Refs(s.tb, f) == Refs(s0.tb, f) - OwnRefs(s0, root, f) && OwnRefs(s0, root, f) <= Refs(s0.tb, f)
  {
    SlotDomain(s);
    SlotDomain(s0);
    hide Inv;
  }

  lemma SplitCount(a: set<Slot>, b: set<Slot>)
    requires b <= a
    ensures |a - b| == |a| - |b|
  {
    assert a == (a - b) + b;
  }

  /** No other address space notices. */
  lemma TornDownLookup(s0: Phys, s: Phys, root: int, r: int, q: int)
    requires Inv(s0) && Inv(s) && TornDown(s0, s, root) && IsRoot(s0.tb, r) && r != root && IsPage(q)
    ensures IsRoot(s.tb, r) && Lookup(s.tb, r, q) == Lookup(s0.tb, r, q)
    ensures Target(Lookup(s.tb, r, q)) != -1 ==>
              FrameAt(s, Target(Lookup(s.tb, r, q))) == FrameAt(s0, Target(Lookup(s0.tb, r, q)))
  {
    hide Linked, Counted, NodeOk, EntryOk;
    assert IsRoot(s.tb, r);
    WalkFacts(s0.tb, r, q);
    WalkFacts(s.tb, r, q);
    SlotDomain(s);
    NoTableBelowZero(s);
    NoTableBelowZero(s0);
    if Target(Lookup(s.tb, r, q)) != -1 {
      MappedFrame(s0, r, q);
    }
  }

  /** The others keep what they see and stay private. */
  lemma TornDownUser(s0: Phys, s: Phys, root: int)
    requires Inv(s0) && Inv(s) && UserInv(s0) && IsRoot(s0.tb, root) && TornDown(s0, s, root)
    ensures UserInv(s)
    ensures forall r :: IsRoot(s.tb, r) <==> IsRoot(s0.tb, r) && r != root
    ensures forall r, q :: IsRoot(s.tb, r) && IsPage(q) ==>
              Lookup(s.tb, r, q) == Lookup(s0.tb, r, q) && Resident(s, r, q) == Resident(s0, r, q)
  {
    hide Inv, Lookup, Target, FrameBytes, RightsOf, TearingFrames, OwnTable;
    TornDownRoots(s0, s, root);
    forall r, q | IsRoot(s.tb, r) && IsPage(q)
      ensures Lookup(s.tb, r, q) == Lookup(s0.tb, r, q) && Resident(s, r, q) == Resident(s0, r, q)
    {
      TornDownLookup(s0, s, root, r, q);
    }
    forall r, q | IsRoot(s.tb, r) && IsPage(q) ensures LeafOk(s, r, q) {
      assert LeafOk(s0, r, q);
    }
  }

  lemma TornDownRoots(s0: Phys, s: Phys, root: int)
    requires Inv(s0) && IsRoot(s0.tb, root) && TornDown(s0, s, root)
    ensures forall r :: IsRoot(s.tb, r) <==> IsRoot(s0.tb, r) && r != root
  {
    hide Linked, Counted, Shape, EntryOk, TearingFrames;
  }

  lemma SlotDomain(s: Phys)
    requires Inv(s)
    ensures forall sl :: sl in s.tb.ent <==> sl.t in s.tb.dir && 0 <= sl.i < 512
  {
  }
}
