/**
 kernel/memory/Page.c: allocation, walking, mapping and unmapping of pages, on
 one physical memory shared by all address spaces.  A result `ok == false`
 stands for panic(): the kernel stops there.
 */
module Memory {
  import opened Bytes
  import opened PageEntry
  import opened Tables
  import opened Frames
  import opened Segments
  import opened AddressSpace

  /** What a store page fault leads to. */
  datatype Fault = Retry | Signal | Panic

  /** What becomes of a user store: it is done, answered with SIGSEGV, or the kernel stops. */
  datatype StoreResult = Done | Refused | Stopped

  /** The hardware's test for a user store. */
  predicate MayStore(w: Pte) { w.valid && w.user && w.write }

  class MemoryManager {
    var mem: seq<Frame>
    var refs: seq<int>
    var free: seq<int>
    ghost var held: seq<nat>
    ghost var tb: Tables
    ghost var stale: set<Slot>

    ghost function S(): Phys
      reads this
    {
      Phys(mem, refs, free, held, tb, stale)
    }

    /** initFreePages: frames below n belong to the kernel image. */
    constructor (n: nat)
      requires n <= FRAMES
      ensures Inv(S()) && stale == {} && tb == Tables(map[], map[]) && |free| == FRAMES - n
      ensures forall f :: 0 <= f < FRAMES ==> HeldAt(S(), f) == if f < n then 1 else 0
    {
      mem := seq(FRAMES, i => ZeroFrame());
      refs := seq(FRAMES, i => if i < n then 1 else 0);
      free := [];
      held := seq<nat>(FRAMES, i => if i < n then 1 else 0);
      tb, stale := Tables(map[], map[]), {};
      new;
      for i := n to FRAMES
        modifies this`free
        invariant |free| == i - n && forall k :: 0 <= k < |free| ==> free[k] == i - 1 - k
      {
        free := [i] + free;
      }
      BootInv(S(), n);
    }

    method PageAlloc() returns (ok: bool, f: int)
      requires Inv(S())
      modifies this
      ensures Inv(S())
      ensures ok == (old(free) != [])
      ensures !ok ==> S() == old(S())
      ensures ok ==> f == old(free)[0] && S() == Alloc(old(S()))
    {
      if free == [] {
        return false, 0;
      }
      AllocInv(S());
      f := free[0];
      free := free[1..];
      mem := mem[f := ZeroFrame()];
      ok := true;
    }

    /** One level of pageWalk: the table below slot i of table t, created on demand. */
    method TableBelow(t: int, i: int, create: bool) returns (ok: bool, c: int)
      requires Inv(S()) && Slot(t, i) in tb.ent && tb.dir[t].level > 0 && Slot(t, i) !in stale
      modifies this
      ensures Inv(S()) && Kept(old(S()), S())
      ensures !create ==> ok && S() == old(S())
      ensures ok ==> Slot(t, i) in tb.ent && c == Target(tb.ent[Slot(t, i)])
      ensures ok && create ==> c != -1
      ensures !ok ==> free == []
      ensures |free| >= |old(free)| - 1
      ensures old(Target(tb.ent[Slot(t, i)])) != -1 ==> ok && S() == old(S())
    {
      hide Inv, Kept;
      ghost var s := S();
      ghost var sl := Slot(t, i);
      SlotFacts(s, sl);
      KeptReflexive(s);
      if mem[t][i] == ZERO {
        if !create {
          return true, -1;
        }
        if s.free != [] { NewTable(s, sl); }
        var f;
        ok, f := PageAlloc();
        if !ok {
          return false, -1;
        }
        mem := mem[t := mem[t][i := TableEntry(f)]];
        refs := refs[f := refs[f] + 1];
        tb := Grow(tb, sl, f);
        assert S() == GrowTable(Alloc(s), sl, f);
        return true, f;
      }
      return true, Target(mem[t][i]);
    }

    method PageWalk(root: int, p: int, create: bool) returns (ok: bool, t: int)
      requires Inv(S()) && IsRoot(tb, root) && IsPage(p) && PathLive(S(), root, p) && (create ==> stale == {})
      modifies this
      ensures Inv(S()) && Kept(old(S()), S())
      ensures !create ==> ok && S() == old(S())
      ensures ok ==> t == Walk0(tb, root, p)
      ensures ok && create ==> t != -1
      ensures !ok ==> free == []
      ensures |free| >= |old(free)| - 2
      ensures old(Walk0(tb, root, p)) != -1 ==> ok && S() == old(S())
    {
      hide Inv, Kept;
      ghost var s := S();
      InvWalk(s, root, p);
      ok, t := TableBelow(root, p / 262144, create);
      if !ok || t == -1 {
        return;
      }
      ghost var s1 := S();
      KeptRoots(s, s1);
      InvWalk(s1, root, p);
      ok, t := TableBelow(t, p / 512 % 512, create);
      KeptTransitive(s, s1, S());
      KeptRoots(s1, S());
    }

    /** The entry for page p, with its slot; `found` is false when no table or no valid entry is there. */
    method PageLookup(root: int, p: int) returns (found: bool, t: int, entry: Pte)
      requires Inv(S()) && IsRoot(tb, root) && IsPage(p) && PathLive(S(), root, p)
      modifies this
      ensures S() == old(S())
      ensures found == Lookup(tb, root, p).valid
      ensures found ==> t == Walk0(tb, root, p) && t != -1 && entry == Lookup(tb, root, p)
    {
      hide Inv, Kept;
      InvWalk(S(), root, p);
      var ok;
      ok, t := PageWalk(root, p, false);
      if t == -1 {
        return false, -1, ZERO;
      }
      LeafNotStale(S(), LeafSlot(tb, root, p));
      SlotFacts(S(), LeafSlot(tb, root, p));
      entry := mem[t][p % 512];
      found := entry.valid;
    }

    method PageFree(f: int)
      requires 0 <= f < |refs|
      modifies this`free
      ensures free == if refs[f] == 0 then [f] + old(free) else old(free)
    {
      if refs[f] > 0 {
        return;
      }
      if refs[f] == 0 {
        free := [f] + free;
      }
    }

    /** Unmaps a mapped page; a page outside RAM is left alone with result -1. */
    method PageRemove(root: int, p: int) returns (r: int)
      requires Inv(S()) && IsRoot(tb, root) && IsPage(p) && PathLive(S(), root, p)
      requires Lookup(tb, root, p).valid
      modifies this
      ensures Inv(S())
      ensures r == if Target(old(Lookup(tb, root, p))) == -1 then -1 else 0
      ensures r == -1 ==> S() == old(S())
      ensures r == 0 ==> S() == Unmap(old(S()), old(LeafSlot(tb, root, p))) && Remapped(old(S()), S(), root, p, ZERO)
    {
      hide Inv, Kept, Remapped;
      ghost var s := S();
      InvWalk(s, root, p);
      var found, t, entry := PageLookup(root, p);
      var f := Target(entry);
      if f == -1 {
        return -1;
      }
      UnmapRemapped(s, root, p);
      ghost var sl := LeafSlot(tb, root, p);
      LeafNotStale(s, sl);
      SlotFacts(s, sl);
      refs := refs[f := refs[f] - 1];
      PageFree(f);
      mem := mem[t := mem[t][p % 512 := ZERO]];
      tb := SetLeaf(tb, sl, ZERO);
      assert S() == Unmap(s, sl);
      return 0;
    }

    /** The first half of pageInsert: whatever is mapped at page p goes away. */
    method Vacate(root: int, p: int, ghost f: int)
      requires Inv(S()) && IsRoot(tb, root) && IsPage(p) && stale == {} && InHand(S(), f)
      modifies this
      ensures Inv(S()) && IsRoot(tb, root) && Target(Lookup(tb, root, p)) == -1
      ensures Remapped(old(S()), S(), root, p, Lookup(tb, root, p)) && stale == {} && held == old(held)
      ensures f != -1 && MayMap(old(S()), root, p, f) ==>
                f !in free && f !in tb.dir && FrameAt(S(), f) == FrameAt(old(S()), f)
      ensures !MayMap(old(S()), root, p, f) ==> f in free && Walk0(tb, root, p) != -1
      ensures |free| >= |old(free)|
    {
      hide Inv, Kept, Remapped, Lookup;
      ghost var s := S();
      InvWalk(s, root, p);
      RemappedReflexive(s, root, p);
      var walked, t := PageWalk(root, p, false);
      if t != -1 {
        LeafNotStale(s, LeafSlot(tb, root, p));
        SlotFacts(s, LeafSlot(tb, root, p));
        LookupIsLeaf(tb, root, p);
        if mem[t][p % 512].valid {
          if !MayMap(s, root, p, f) {
            UnmapLast(s, root, p, f);
          } else if Target(Lookup(tb, root, p)) != -1 {
            UnmapLeaf(s, root, p, f);
          }
          var r := PageRemove(root, p);
          if r == 0 {
            RemappedFacts(s, S(), root, p, ZERO);
            StaysWalked(s, S(), root, p, ZERO);
          }
        }
      }
    }

    /** Maps page p of `root` to page number `ppn` with permissions `perm`.  Mapping a frame again where it has its only
        reference frees it first, and it stays on the free list. */
    method PageInsert(root: int, p: int, ppn: nat, perm: Perm) returns (ok: bool)
      requires Inv(S()) && IsRoot(tb, root) && IsPage(p) && stale == {}
      requires InHand(S(), Target(LeafEntry(ppn, perm)))
      modifies this
      ensures Inv(S()) <==> MayMap(old(S()), root, p, Target(LeafEntry(ppn, perm)))
      ensures held == old(held) && stale == {} && |free| >= |old(free)| - 2
      ensures ok && Inv(S()) ==> Remapped(old(S()), S(), root, p, LeafEntry(ppn, perm))
      ensures !ok ==> free == []
      ensures !Inv(S()) ==> ok && Lookup(tb, root, p) == LeafEntry(ppn, perm) && Target(Lookup(tb, root, p)) in free
    {
      hide Inv, Kept, Remapped, Lookup, SameWalk, LeafEntry, MayMap;
      ghost var s := S();
      var w := LeafEntry(ppn, perm);
      var f := Target(w);
      Vacate(root, p, f);
      ghost var s1 := S();
      var t;
      ok, t := PageWalk(root, p, true);
      ghost var s2 := S();
      KeptRoots(s1, s2);
      if !ok {
        return;
      }
      ghost var sl := LeafSlot(tb, root, p);
      if MayMap(s, root, p, f) {
        if f != -1 {
          KeptFrame(s1, s2, f);
        }
        KeptLookup(s1, s2, root, p);
        MapLeafRemapped(s2, root, p, w);
      } else {
        NotMayMap(s, root, p, f);
        InvWalk(s2, root, p);
        MapFree(s2, root, p, w);
      }
      InvWalk(s2, root, p);
      LeafNotStale(s2, sl);
      SlotFacts(s2, sl);
      mem := mem[t := mem[t][p % 512 := w]];
      if f != -1 {
        refs := refs[f := refs[f] + 1];
      }
      tb := SetLeaf(tb, sl, w);
      assert S() == MapLeaf(s2, sl, w);
      if MayMap(s, root, p, f) {
        RemappedFacts(s2, S(), root, p, w);
        RemapChain(s, s1, s2, S(), root, p, Lookup(s1.tb, root, p), w);
      }
    }

    /** allocPgdir: an address space with no pages. */
    method AllocPgdir() returns (ok: bool, root: int)
      requires Inv(S()) && UserInv(S())
      modifies this
      ensures ok ==> Inv(S()) && UserInv(S()) && NewSpace(old(S()), S(), root)
      ensures ok ==> |free| == |old(free)| - 1
      ensures !ok ==> free == [] && S() == old(S())
    {
      hide Inv, UserInv, Lookup, Drawn, Resident, IsRoot, NewSpace, NewRoot, ZeroFrame, FrameBytes;
      ghost var s := S();
      if s.free != [] {
        DrawFrame(s, ZeroFrame());
        DrawnZero(s);
      }
      ZeroFrameFacts();
      ok, root := PageAlloc();
      if ok {
        ghost var s1 := S();
        AddRootInv(s1, root);
        AddRootUser(s1, root);
        refs := refs[root := refs[root] + 1];
        tb := NewRoot(tb, root);
        assert S() == AddRoot(s1, root);
        NewSpaceFrom(s, s1, S(), root);
      }
    }

    // ---------- copy on write ----------

    /** Gives page p a private, writable copy of the frame it shares. */
    method CowHandler(root: int, p: int) returns (ok: bool, f: int)
      requires Inv(S()) && UserInv(S()) && IsRoot(tb, root) && IsPage(p) && !IsShared(p)
      requires Lookup(tb, root, p).valid
      modifies this
      ensures ok ==> Inv(S()) && UserInv(S()) && SameElsewhere(old(S()), S(), root, p)
      ensures ok ==> Resident(S(), root, p) == Resident(old(S()), root, p)
      ensures ok ==> Lookup(tb, root, p).valid && Lookup(tb, root, p).write && f == Target(Lookup(tb, root, p))
      ensures ok ==> old(Lookup(tb, root, p)).cow && !Lookup(tb, root, p).cow
      ensures !ok ==> free == [] || !old(Lookup(tb, root, p)).cow
    {
      hide Inv, Lookup, Remapped, FrameBytes, Target, Drawn, IsRoot, Sole;
      ghost var s := S();
      assert LeafOk(s, root, p);
      var found, t, entry := PageLookup(root, p);
      if !entry.cow {
        return false, 0;
      }
      LookupFrame(s, root, p);
      var g := Target(entry);
      if s.free != [] {
        DrawFrame(s, s.mem[g]);
        DrawnCopy(s, g);
      }
      ok, f := PageAlloc();
      if !ok {
        return;
      }
      mem := mem[f := mem[g]];
      ghost var s1 := S();
      assert s1 == Drawn(s, s.mem[g]);
      var perm := entry.(ppn := 0, write := true, cow := false);
      FreshMayMap(s1, root, p, f, perm);
      ok := PageInsert(root, p, BASE_PPN + f, perm);
      if ok {
        MapPrivate(s1, S(), root, p, LeafEntry(BASE_PPN + f, perm));
        RemappedFacts(s1, S(), root, p, LeafEntry(BASE_PPN + f, perm));
        SameElsewhereFrom(s, s1, S(), root, p);
        assert Resident(s, root, p) == Present(FrameBytes(s.mem[g]), RightsOf(entry));
      }
    }

    // ---------- demand paging ----------

    /** pageout's loop: the page's bytes and permissions from the segments that touch it; f is -1 when none does. */
    method BuildPage(page: int, segs: seq<Segment>) returns (ok: bool, f: int, perm: Pte)
      requires Inv(S()) && UserInv(S()) && page >= 0
      modifies this
      ensures ok && f == -1 ==> S() == old(S()) && !Touched(segs, page)
      ensures ok && f != -1 ==>
                && old(free) != [] && f == old(free)[0] && 0 <= f < |mem| == |old(mem)| && IsFrame(mem[f])
                && S() == Drawn(old(S()), mem[f])
                && FrameBytes(mem[f]) == PageImage(segs, page) && Touched(segs, page)
      ensures ok ==> perm == PagePerm(segs, page) && JoinsFlags(segs, page, perm)
      ensures !ok ==> free == []
    {
      hide Inv, UserInv, FrameBytes, LoadAll, PagePerm, LoadSegment, Drawn, Or, ReadFile, Poke, Touched, Overlaps,
           JoinsFlags;
      ghost var s := S();
      if s.free != [] {
        DrawInv(s, ZeroFrame());
      }
      ZeroFrameFacts();
      f, perm := -1, ZERO;
      NoPerm(page);
      LoadAllUntouched([], page, ZeroBytes());
      assert segs[..0] == [];
      for i := 0 to |segs|
        invariant f == -1 ==> S() == s && !Touched(segs[..i], page)
        invariant f != -1 ==>
                    && s.free != [] && f == s.free[0] && 0 <= f < |mem| == |s.mem| && IsFrame(mem[f])
                    && S() == Drawn(s, mem[f])
                    && FrameBytes(mem[f]) == LoadAll(segs[..i], page, ZeroBytes()) && Touched(segs[..i], page)
        invariant perm == PagePerm(segs[..i], page)
      {
        var g := segs[i];
        assert segs[..i + 1] == segs[..i] + [g];
        LoadAllAppend(segs[..i], g, page, ZeroBytes());
        PagePermAppend(segs[..i], g, page);
        TouchedAppend(segs[..i], g, page);
        if f == -1 { LoadAllUntouched(segs[..i], page, ZeroBytes()); }
        var start := Max(g.va, page * 4096);
        var finish := Min(g.va + g.len, (page + 1) * 4096);
        LoadSegmentCases(g, page, LoadAll(segs[..i], page, ZeroBytes()));
        if start < finish {
          if f == -1 {
            ok, f := PageAlloc();
            if !ok {
              return;
            }
            DrawnZero(s);
          }
          if !g.zero {
            var data := ReadFile(g.file, g.fileOffset + start - g.va, finish - start);
            PokeBytes(mem[f], start - page * 4096, data);
            DrawnAgain(s, mem[f], Poke(mem[f], start - page * 4096, data));
            mem := mem[f := Poke(mem[f], start - page * 4096, data)];
          }
          perm := Or(perm, g.flags);
        } else {
          OrZero(segs[..i], page);
        }
      }
      assert segs[..|segs|] == segs;
      PagePermIff(segs, page);
      ok := true;
    }

    /** Brings in the page of address va; a page it cannot build is a panic. */
    method Pageout(root: int, va: int, segs: seq<Segment>) returns (ok: bool, f: int)
      requires Inv(S()) && UserInv(S()) && IsRoot(tb, root) && 0 <= va < USER_TOP && AllWritable(segs)
      requires !Lookup(tb, root, va / 4096).valid
      modifies this
      ensures ok ==> Inv(S()) && UserInv(S()) && SameElsewhere(old(S()), S(), root, va / 4096)
      ensures ok ==> Lookup(tb, root, va / 4096).valid && Lookup(tb, root, va / 4096).write
      ensures ok ==> f == Target(Lookup(tb, root, va / 4096)) && Resident(S(), root, va / 4096) == Lazy(segs, va / 4096)
      ensures ok ==> PagedIn(segs, va / 4096, Lookup(tb, root, va / 4096))
      ensures !ok ==> free == [] || (S() == old(S()) && Unbuildable(segs, va))
    {
      hide Inv, UserInv, Lookup, Remapped, FrameBytes, Resident, Target, Drawn, IsRoot, Sole, PagePerm, PageImage,
           Touched, PagedIn;
      var p := va / 4096;
      ghost var s := S();
      if va <= PAGE_SIZE {
        return false, 0;
      }
      var perm;
      if STACK_BOTTOM_PAGE * 4096 <= va < USER_TOP {
        if s.free != [] { DrawFrame(s, ZeroFrame()); }
        ZeroFrameFacts();
        ok, f := PageAlloc();
        if !ok {
          return;
        }
        assert S() == Drawn(s, ZeroFrame()) by { DrawnZero(s); }
        perm := ZERO.(user := true, read := true, write := true);
      } else {
        ok, f, perm := BuildPage(p, segs);
        if !ok || f == -1 {
          return false, 0;
        }
        DrawFrame(s, mem[f]);
        TouchedIsWritable(segs, p);
        perm := perm.(user := true);
      }
      PagedInAs(segs, p, BASE_PPN + f, perm);
      ghost var s1 := S();
      FreshMayMap(s1, root, p, f, perm);
      ok := PageInsert(root, p, BASE_PPN + f, perm);
      if ok {
        MapPrivate(s1, S(), root, p, LeafEntry(BASE_PPN + f, perm));
        RemappedFacts(s1, S(), root, p, LeafEntry(BASE_PPN + f, perm));
        SameElsewhereFrom(s, s1, S(), root, p);
      }
    }

    // ---------- the kernel's access to user memory ----------

    /** The frame behind a user address, or -1; a missing table is dereferenced and stops the kernel. */
    method Vir2Phy(root: int, va: int) returns (ok: bool, f: int, cow: bool)
      requires Inv(S()) && UserInv(S()) && IsRoot(tb, root) && 0 <= va
      modifies this
      ensures S() == old(S())
      ensures ok ==> (f != -1 <==> va < MAX_VA && Lookup(tb, root, va / 4096).valid && Lookup(tb, root, va / 4096).user)
      ensures ok && f != -1 ==> f == Target(Lookup(tb, root, va / 4096)) && cow == Lookup(tb, root, va / 4096).cow
      ensures !ok <==> va < MAX_VA && Walk0(tb, root, va / 4096) == -1
      ensures !ok ==> !Lookup(tb, root, va / 4096).valid
    {
      hide Inv, Kept, Lookup, Sole;
      if va >= MAX_VA {
        return true, -1, false;
      }
      var p := va / 4096;
      InvWalk(S(), root, p);
      assert LeafOk(S(), root, p);
      var walked, t := PageWalk(root, p, false);
      if t == -1 {
        NoTable(S(), root, p);
        return false, -1, false;
      }
      LeafNotStale(S(), LeafSlot(tb, root, p));
      SlotFacts(S(), LeafSlot(tb, root, p));
      LookupIsLeaf(tb, root, p);
      var entry := mem[t][p % 512];
      if !entry.valid || !entry.user {
        return true, -1, false;
      }
      return true, Target(entry), entry.cow;
    }

    /** The head of the loops of copyout and memsetOut: find the page, bring it in, make it private; a read-only page
        is left as it is. */
    method WritablePage(root: int, va: int, segs: seq<Segment>) returns (ok: bool, f: int)
      requires Inv(S()) && UserInv(S()) && IsRoot(tb, root) && 0 <= va < USER_TOP && AllWritable(segs)
      modifies this
      ensures ok ==> Inv(S()) && UserInv(S()) && Readied(old(S()), S(), segs, root, va / 4096)
      ensures ok ==> Lookup(tb, root, va / 4096).valid && f == Target(Lookup(tb, root, va / 4096))
      ensures ok ==>
                if ReadOnly(old(Lookup(tb, root, va / 4096))) then S() == old(S())
                else Lookup(tb, root, va / 4096).write
      ensures !ok ==> !ReadOnly(old(Lookup(tb, root, va / 4096))) && (free == [] || CannotReach(S(), segs, root, va))
    {
      hide Inv, Lookup, Sole, IsRoot, Resident, Lazy;
      var p := va / 4096;
      assert IsPage(p) && !IsShared(p);
      assert LeafOk(S(), root, p);
      var cow;
      ok, f, cow := Vir2Phy(root, va);
      if !ok {
        return;
      }
      if f == -1 {
        cow := false;
        ok, f := Pageout(root, va, segs);
        if !ok {
          return;
        }
      }
      if cow {
        ok, f := CowHandler(root, p);
      }
    }

    /** memmove into a user page. */
    method StoreChunk(root: int, p: int, f: int, off: int, chunk: seq<Byte>)
      requires Inv(S()) && UserInv(S()) && IsRoot(tb, root) && IsPage(p) && !IsShared(p)
      requires Lookup(tb, root, p).valid && f == Target(Lookup(tb, root, p))
      requires 0 <= off && off + |chunk| <= PAGE_SIZE
      modifies this`mem
      ensures Inv(S()) && UserInv(S())
      ensures old(Resident(S(), root, p)).Present? && |old(Resident(S(), root, p)).bytes| == PAGE_SIZE
      ensures forall r, q :: IsRoot(tb, r) && IsPage(q) ==>
                Resident(S(), r, q) ==
                if Target(Lookup(tb, r, q)) == f then Patched(Resident(old(S()), r, q), off, chunk)
                else Resident(old(S()), r, q)
    {
      hide Inv, Lookup, Sole, IsRoot, FrameBytes, Poke, Patch, Target, RightsOf;
      assert LeafOk(S(), root, p);
      LookupFrame(S(), root, p);
      PokeBytes(mem[f], off, chunk);
      StoreThrough(S(), root, p, Poke(mem[f], off, chunk));
      mem := mem[f := Poke(mem[f], off, chunk)];
    }

    /** Copies kernel bytes to user addresses dst.. of the address space `root`. */
    method CopyOut(root: int, dst: int, data: seq<Byte>, segs: seq<Segment>) returns (ok: bool)
      requires Inv(S()) && UserInv(S()) && IsRoot(tb, root) && AllWritable(segs)
      requires 0 <= dst && dst + |data| <= USER_TOP
      modifies this
      ensures ok ==> Inv(S()) && UserInv(S()) && Copied(old(S()), S(), segs, root, dst, data)
      ensures ok ==> (Isolated(old(S()), S(), root) <==> AllHarmless(old(S()), root, dst, data))
      ensures !ok ==> exists a :: dst <= a < dst + |data| && (free == [] || CannotReach(S(), segs, root, a))
                                  && !ReadOnly(old(Lookup(tb, root, a / 4096)))
    {
      hide Inv, UserInv, Lookup, IsRoot, Resident, Patched, Lazy, Copied, Stored, AllHarmless, Target;
      ghost var s := S();
      CopiedNothing(s, segs, root, dst);
      var i := 0;
      while i < |data|
        invariant 0 <= i <= |data|
        invariant Inv(S()) && UserInv(S()) && IsRoot(tb, root)
        invariant Copied(s, S(), segs, root, dst, data[..i])
      {
        var va := dst + i;
        ghost var s1 := S();
        var f;
        CopiedReadOnly(s, s1, segs, root, dst, data[..i], va / 4096);
        ok, f := WritablePage(root, va, segs);
        if !ok {
          return;
        }
        ghost var s2 := S();
        ReadiedRoots(s1, s2, segs, root, va / 4096);
        var n := Min(PAGE_SIZE - va % 4096, |data| - i);
        StoreChunk(root, va / 4096, f, va % 4096, data[i..i + n]);
        ReadiedThenStored(s1, s2, S(), segs, root, va / 4096, va % 4096, data[i..i + n]);
        CopiedChunk(s, s1, S(), segs, root, dst, data[..i], data[i..i + n]);
        assert data[..i] + data[i..i + n] == data[..i + n];
        i := i + n;
      }
      assert data[..i] == data;
      IsolatedIff(s, S(), segs, root, dst, data);
      ok := true;
    }

    method MemsetOut(root: int, dst: int, value: Byte, len: int, segs: seq<Segment>) returns (ok: bool)
      requires Inv(S()) && UserInv(S()) && IsRoot(tb, root) && AllWritable(segs)
      requires 0 <= dst && 0 <= len && dst + len <= USER_TOP
      modifies this
      ensures ok ==> Inv(S()) && UserInv(S()) && Copied(old(S()), S(), segs, root, dst, seq<Byte>(len, i => value))
      ensures ok ==> (Isolated(old(S()), S(), root) <==> AllHarmless(old(S()), root, dst, seq<Byte>(len, i => value)))
      ensures !ok ==> exists a :: dst <= a < dst + len && (free == [] || CannotReach(S(), segs, root, a))
                                  && !ReadOnly(old(Lookup(tb, root, a / 4096)))
    {
      hide Inv, UserInv, Lookup, IsRoot, Resident, Patched, Lazy, Copied, Stored, AllHarmless, Target;
      ghost var s := S();
      CopiedNothing(s, segs, root, dst);
      var i := 0;
      assert seq<Byte>(0, i => value) == [];
      while i < len
        invariant 0 <= i <= len
        invariant Inv(S()) && UserInv(S()) && IsRoot(tb, root)
        invariant Copied(s, S(), segs, root, dst, seq<Byte>(i, i => value))
      {
        var va := dst + i;
        ghost var s1 := S();
        var f;
        CopiedReadOnly(s, s1, segs, root, dst, seq<Byte>(i, i => value), va / 4096);
        ok, f := WritablePage(root, va, segs);
        if !ok {
          return;
        }
        ghost var s2 := S();
        ReadiedRoots(s1, s2, segs, root, va / 4096);
        var n := Min(PAGE_SIZE - va % 4096, len - i);
        StoreChunk(root, va / 4096, f, va % 4096, seq<Byte>(n, i => value));
        ReadiedThenStored(s1, s2, S(), segs, root, va / 4096, va % 4096, seq<Byte>(n, i => value));
        CopiedChunk(s, s1, S(), segs, root, dst, seq<Byte>(i, i => value), seq<Byte>(n, i => value));
        assert seq<Byte>(i, i => value) + seq<Byte>(n, i => value) == seq<Byte>(i + n, i => value);
        i := i + n;
      }
      IsolatedIff(s, S(), segs, root, dst, seq<Byte>(len, i => value));
      ok := true;
    }

    /** Copies user bytes from src.. into the kernel; bringing pages in is all it does to memory. */
    method CopyIn(root: int, src: int, len: int, segs: seq<Segment>) returns (ok: bool, data: seq<Byte>)
      requires Inv(S()) && UserInv(S()) && IsRoot(tb, root) && AllWritable(segs)
      requires 0 <= src && 0 <= len && src + len <= USER_TOP
      modifies this
      ensures ok ==> Inv(S()) && UserInv(S()) && Copied(old(S()), S(), segs, root, src, [])
      ensures ok ==> |data| == len && forall j :: 0 <= j < len ==> data[j] == UserByte(old(S()), segs, root, src + j)
      ensures !ok ==> free == [] || exists a :: src <= a < src + len && CannotReach(S(), segs, root, a)
    {
      hide Inv, UserInv, Lookup, IsRoot, Resident, Logical, Lazy, Copied, SameElsewhere, FrameBytes, Target;
      ghost var s := S();
      CopiedNothing(s, segs, root, src);
      data := [];
      while |data| < len
        invariant |data| <= len
        invariant Inv(S()) && UserInv(S()) && IsRoot(tb, root) && Copied(s, S(), segs, root, src, [])
        invariant forall j :: 0 <= j < |data| ==> data[j] == UserByte(s, segs, root, src + j)
      {
        var va := src + |data|;
        ghost var s1 := S();
        var f, cow;
        ok, f, cow := Vir2Phy(root, va);
        if !ok {
          assert CannotReach(S(), segs, root, va);
          return;
        }
        UserPage(S(), root, va / 4096);
        if f == -1 {
          ok, f := Pageout(root, va, segs);
          if !ok {
            assert free == [] || CannotReach(S(), segs, root, va);
            return;
          }
          RootStays(s1, S(), root, va / 4096);
          UserPage(S(), root, va / 4096);
        }
        CopyInStep(s, s1, S(), segs, root, va / 4096, src, f);
        var n := Min(PAGE_SIZE - va % 4096, len - |data|);
        var chunk := FrameBytes(mem[f])[va % 4096..va % 4096 + n];
        forall j | 0 <= j < n ensures chunk[j] == UserByte(s, segs, root, va + j) {
          SamePage(va, j);
        }
        data := data + chunk;
      }
      ok := true;
    }

    // ---------- protection ----------

    /** One turn of mprotect's loop.  It does not look at the copy-on-write mark or at the count: making a shared page
        writable ends its privacy. */
    method Protect(root: int, va: int, perm: Pte, segs: seq<Segment>) returns (ok: bool)
      requires Inv(S()) && UserInv(S()) && IsRoot(tb, root) && 0 <= va < USER_TOP && AllWritable(segs)
      modifies this
      ensures ok ==> Inv(S()) && SameElsewhere(old(S()), S(), root, va / 4096)
      ensures ok ==>
                var w := old(Lookup(tb, root, va / 4096));
                if w.valid then
                  && Lookup(tb, root, va / 4096) == w.(read := perm.read, write := perm.write, exec := perm.exec)
                  && Resident(old(S()), root, va / 4096).Present? && Resident(S(), root, va / 4096).Present?
                  && Resident(S(), root, va / 4096).bytes == Resident(old(S()), root, va / 4096).bytes
                  && (UserInv(S()) <==> (perm.write ==> RefAt(old(S()), Target(w)) == 1))
                else UserInv(S()) && Resident(S(), root, va / 4096) == Lazy(segs, va / 4096)
      ensures !ok ==> free == [] || (S() == old(S()) && !Lookup(tb, root, va / 4096).valid && Unbuildable(segs, va))
    {
      hide Inv, Lookup, Remapped, IsRoot, Lazy, Sole, Target, FrameBytes;
      var p := va / 4096;
      ghost var s := S();
      assert IsPage(p) && !IsShared(p);
      assert LeafOk(s, root, p);
      var found, t, entry := PageLookup(root, p);
      if !found {
        var f;
        ok, f := Pageout(root, va, segs);
        return;
      }
      var w := entry.(read := perm.read, write := perm.write, exec := perm.exec);
      SameTarget(entry, w);
      ReflagInv(s, root, p, w);
      SlotFacts(s, LeafSlot(tb, root, p));
      mem := mem[t := mem[t][p % 512 := w]];
      tb := SetLeaf(tb, LeafSlot(tb, root, p), w);
      assert S() == PutLeaf(s, LeafSlot(s.tb, root, p), w);
      ReflagPrivateIff(s, S(), root, p, w);
      RemappedFacts(s, S(), root, p, w);
      ok := true;
    }

    /** One turn of mmap's loop where no page is: a page of zeros with the rights asked for. */
    method MapFresh(root: int, p: int, perm: Perm) returns (ok: bool)
      requires Inv(S()) && UserInv(S()) && IsRoot(tb, root) && IsPage(p) && !IsShared(p) && !Lookup(tb, root, p).valid
      modifies this
      ensures ok ==> Inv(S()) && UserInv(S()) && SameElsewhere(old(S()), S(), root, p)
      ensures ok ==> Resident(S(), root, p) == Present(ZeroBytes(), RightsOf(perm.(user := true)))
      ensures ok ==>
                && old(free) != [] && 0 <= old(free)[0] < FRAMES && |free| >= |old(free)| - 3
                && Lookup(tb, root, p) == LeafEntry(BASE_PPN + old(free)[0], perm.(user := true))
      ensures !ok ==> free == [] && |old(free)| <= 3
    {
      hide Inv, UserInv, Lookup, Resident, IsRoot, RightsOf, LeafEntry;
      ok := MapZeros(root, p, perm.(user := true));
    }

    /** pageAlloc and pageInsert. */
    method MapZeros(root: int, p: int, perm: Perm) returns (ok: bool)
      requires Inv(S()) && UserInv(S()) && IsRoot(tb, root) && IsPage(p) && !IsShared(p) && !Lookup(tb, root, p).valid
      requires perm.user
      modifies this
      ensures ok ==> Inv(S()) && UserInv(S()) && SameElsewhere(old(S()), S(), root, p)
      ensures ok ==> Resident(S(), root, p) == Present(ZeroBytes(), RightsOf(perm))
      ensures ok ==>
                && old(free) != [] && 0 <= old(free)[0] < FRAMES && |free| >= |old(free)| - 3
                && Lookup(tb, root, p) == LeafEntry(BASE_PPN + old(free)[0], perm)
      ensures !ok ==> free == [] && |old(free)| <= 3
    {
      hide Inv, UserInv, Lookup, Remapped, FrameBytes, Resident, Target, Drawn, IsRoot, RightsOf, LeafEntry;
      ghost var s := S();
      if s.free != [] { DrawFrame(s, ZeroFrame()); }
      ZeroFrameFacts();
      var f;
      ok, f := PageAlloc();
      if !ok {
        return;
      }
      ghost var s1 := S();
      assert s1 == Drawn(s, ZeroFrame()) by { DrawnZero(s); }
      FreshMayMap(s1, root, p, f, perm);
      ok := PageInsert(root, p, BASE_PPN + f, perm);
      if ok {
        MapPrivate(s1, S(), root, p, LeafEntry(BASE_PPN + f, perm));
        RemappedFacts(s1, S(), root, p, LeafEntry(BASE_PPN + f, perm));
        SameElsewhereFrom(s, s1, S(), root, p);
      }
    }

    /** One turn of mmap's loop over a page that is there: its first n bytes become zeros and its rights those asked
        for.  On a read-only page the zeros show wherever the frame is shared, and write permission ends its privacy. */
    method MapOver(root: int, p: int, n: nat, perm: Pte) returns (ok: bool)
      requires Inv(S()) && UserInv(S()) && IsRoot(tb, root) && IsPage(p) && !IsShared(p) && Lookup(tb, root, p).valid
      requires n <= PAGE_SIZE
      modifies this
      ensures ok ==> Inv(S()) && Rezeroed(old(S()), S(), root, p, n, perm)
      ensures ok ==>
                var w := old(Lookup(tb, root, p));
                UserInv(S()) <==> !(perm.write && ReadOnly(w) && RefAt(old(S()), Target(w)) != 1)
      ensures !ok ==> free == []
    {
      hide Inv, Lookup, IsRoot, Sole, FrameBytes, RightsOf, Resident, Patched, Target, Remapped, Readied, Stored,
           Rezeroed;
      ghost var s := S();
      assert LeafOk(s, root, p);
      ReadiedAlready(s, [], root, p);
      var found, t, entry := PageLookup(root, p);
      var f := Target(entry);
      if entry.cow {
        ok, f := CowHandler(root, p);
        if !ok {
          return;
        }
        CowReadied(s, S(), root, p);
        RootStays(s, S(), root, p);
      }
      ghost var s1 := S();
      assert LeafOk(s1, root, p);
      CountOneIsSole(s1, root, p);
      StoreChunk(root, p, f, 0, seq<Byte>(n, i => 0));
      ghost var s2 := S();
      ReadiedThenStored(s, s1, s2, [], root, p, 0, seq<Byte>(n, i => 0));
      found, t, entry := PageLookup(root, p);
      var w := perm.(ppn := entry.ppn, valid := true, user := true);
      SameTarget(entry, w);
      ReflagInv(s2, root, p, w);
      SlotFacts(s2, LeafSlot(tb, root, p));
      mem := mem[t := mem[t][p % 512 := w]];
      tb := SetLeaf(tb, LeafSlot(tb, root, p), w);
      assert S() == PutLeaf(s2, LeafSlot(s2.tb, root, p), w);
      ReflagPrivateIff(s2, S(), root, p, w);
      RezeroedIs(s, s2, S(), root, p, n, perm);
      ok := true;
    }

    // ---------- stores by user programs ----------

    /** The store page fault of userTrap. */
    method StoreFault(root: int, va: int, segs: seq<Segment>) returns (outcome: Fault)
      requires Inv(S()) && UserInv(S()) && IsRoot(tb, root) && 0 <= va < USER_TOP && AllWritable(segs)
      requires !MayStore(Lookup(tb, root, va / 4096))
      modifies this
      ensures outcome == Signal <==> ReadOnly(old(Lookup(tb, root, va / 4096)))
      ensures outcome == Signal ==> S() == old(S())
      ensures outcome == Retry ==> Inv(S()) && UserInv(S()) && Readied(old(S()), S(), segs, root, va / 4096)
      ensures outcome == Retry ==> MayStore(Lookup(tb, root, va / 4096))
      ensures outcome == Panic ==>
                free == [] || (S() == old(S()) && !Lookup(tb, root, va / 4096).valid && Unbuildable(segs, va))
    {
      hide Inv, Lookup, Sole, IsRoot, Resident, Lazy;
      var p := va / 4096;
      assert IsPage(p) && !IsShared(p);
      assert LeafOk(S(), root, p);
      var found, t, entry := PageLookup(root, p);
      var ok, f;
      if !found {
        ok, f := Pageout(root, va, segs);
        assert ok ==> LeafOk(S(), root, p) by { if ok { RootStays(old(S()), S(), root, p); } }
      } else if entry.cow {
        ok, f := CowHandler(root, p);
        assert ok ==> LeafOk(S(), root, p);
      } else if !entry.write {
        return Signal;
      } else {
        return Panic;
      }
      outcome := if ok then Retry else Panic;
    }

    /** A user store instruction, with the fault it may take. */
    method UserStore(root: int, va: int, value: Byte, segs: seq<Segment>) returns (result: StoreResult)
      requires Inv(S()) && UserInv(S()) && IsRoot(tb, root) && 0 <= va < USER_TOP && AllWritable(segs)
      modifies this
      ensures result == Done ==> Inv(S()) && UserInv(S()) && Copied(old(S()), S(), segs, root, va, [value])
      ensures result == Done ==> Isolated(old(S()), S(), root)
      ensures result == Refused ==> S() == old(S())
      ensures result == Refused <==> ReadOnly(old(Lookup(tb, root, va / 4096)))
      ensures result == Stopped ==>
                free == [] || (S() == old(S()) && !Lookup(tb, root, va / 4096).valid && Unbuildable(segs, va))
    {
      hide Inv, Lookup, IsRoot, Resident, Patched, Lazy, Copied, SameElsewhere, Sole, Stored;
      ghost var s := S();
      var p := va / 4096;
      assert IsPage(p) && !IsShared(p);
      assert LeafOk(s, root, p);
      CopiedNothing(s, segs, root, va);
      ReadiedAlready(s, segs, root, p);
      var found, t, entry := PageLookup(root, p);
      if !found || !MayStore(entry) {
        var outcome := StoreFault(root, va, segs);
        if outcome != Retry {
          return if outcome == Signal then Refused else Stopped;
        }
        found, t, entry := PageLookup(root, p) by { ReadiedRoots(s, S(), segs, root, p); }
      }
      ghost var s1 := S();
      ReadiedRoots(s, s1, segs, root, p);
      StoreChunk(root, p, Target(entry), va % 4096, [value]);
      ReadiedThenStored(s, s1, S(), segs, root, p, va % 4096, [value]);
      StoredIsolated(s, S(), segs, root, p, va % 4096, [value]);
      CopiedChunk(s, s, S(), segs, root, va, [], [value]);
      assert [] + [value] == [value];
      result := Done;
    }
  }
}
