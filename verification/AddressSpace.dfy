/**
 What a process sees.  `Resident` is a page that is in memory, `Logical` adds the
 pages that demand paging would build; copy-on-write shows in neither.  The user
 invariant is that a writable page owns its frame alone.
 */
module AddressSpace {
  import opened Bytes
  import opened PageEntry
  import opened Tables
  import opened Frames
  import opened Segments

  const TRAMPOLINE_PAGE: nat := 0x3FFFFFE            // TRAMPOLINE_BASE >> 12, two pages
  const SIGNAL_PAGE: nat := 0x3FFFFFD                // SIGNAL_TRAMPOLINE_BASE >> 12 == USER_STACK_TOP >> 12
  const STACK_BOTTOM_PAGE: nat := 0x3FBFFFD          // USER_STACK_BOTTOM >> 12
  const USER_TOP: nat := 0x3FFFFFD000                // USER_STACK_TOP
  const MAX_VA: nat := 0x4000000000                  // MAXVA

  datatype Rights = Rights(read: bool, write: bool, exec: bool, user: bool)
  datatype View = Absent | Present(bytes: seq<Byte>, rights: Rights)

  /** The rights a program has: a copy-on-write page counts as writable. */
  function RightsOf(p: Pte): Rights {
    Rights(p.read, p.write || p.cow, p.exec, p.user)
  }

  ghost function Resident(s: Phys, r: int, q: int): View {
    var w := Lookup(s.tb, r, q);
    if Target(w) == -1 then Absent else Present(FrameBytes(FrameAt(s, Target(w))), RightsOf(w))
  }

  predicate IsStack(q: int) { STACK_BOTTOM_PAGE <= q < SIGNAL_PAGE }
  predicate IsShared(q: int) { SIGNAL_PAGE <= q <= TRAMPOLINE_PAGE + 1 }

  /** The page pageout would build. */
  ghost function Lazy(segs: seq<Segment>, q: int): View {
    if IsStack(q) then Present(ZeroBytes(), Rights(true, true, false, true))
    else if q >= 1 && Touched(segs, q) then
      Present(PageImage(segs, q), RightsOf(PagePerm(segs, q).(user := true)))
    else Absent
  }

  /** The flags of a page brought in: a stack page may be read and written, a page of the program has what its segments
      give it. */
  ghost predicate PagedIn(segs: seq<Segment>, q: nat, w: Pte) {
    && w.valid && w.user
    && if IsStack(q) then w.read && w.write && !w.exec && !w.cow
       else
         && (w.read <==> Granted(segs, q, (p: Pte) => p.read)) && (w.write <==> Granted(segs, q, (p: Pte) => p.write))
         && (w.exec <==> Granted(segs, q, (p: Pte) => p.exec)) && (w.cow <==> Granted(segs, q, (p: Pte) => p.cow))
  }

  lemma PagedInAs(segs: seq<Segment>, q: nat, ppn: nat, perm: Pte)
    requires perm == if IsStack(q) then ZERO.(user := true, read := true, write := true)
                     else PagePerm(segs, q).(user := true)
    ensures PagedIn(segs, q, LeafEntry(ppn, perm))
  {
    hide PagePerm, Granted;
    PagePermIff(segs, q);
  }

  ghost function Logical(s: Phys, segs: seq<Segment>, r: int, q: int): View {
    if Lookup(s.tb, r, q).valid then Resident(s, r, q) else Lazy(segs, q)
  }

  /** pageout panics on the lowest pages and on pages that belong to nothing. */
  ghost predicate Unbuildable(segs: seq<Segment>, va: int) {
    va <= PAGE_SIZE || Lazy(segs, va / 4096) == Absent
  }

  /** What stops the kernel at a user address, short of running out of frames: vir2phy finds no table, or the page
      is missing and cannot be built. */
  ghost predicate CannotReach(s: Phys, segs: seq<Segment>, root: int, va: int) {
    Walk0(s.tb, root, va / 4096) == -1 || (!Lookup(s.tb, root, va / 4096).valid && Unbuildable(segs, va))
  }

  // ---------- the user invariant ----------

  ghost predicate Sole(s: Phys, r: int, q: int) {
    forall r', q' :: IsRoot(s.tb, r') && IsPage(q') && Target(Lookup(s.tb, r', q')) == Target(Lookup(s.tb, r, q)) ==>
                       r' == r && q' == q
  }

  /** No other page of the same address space has the frame. */
  ghost predicate Once(s: Phys, r: int, q: int) {
    forall q' :: IsPage(q') && Target(Lookup(s.tb, r, q')) == Target(Lookup(s.tb, r, q)) ==> q' == q
  }

  /** A page nobody may write: neither writable nor copy-on-write.  mmap makes them, and fork shares their frames
      unmarked. */
  predicate ReadOnly(w: Pte) { w.valid && !w.write && !w.cow }

  ghost function HeldAt(s: Phys, f: int): nat {
    if 0 <= f < |s.held| then s.held[f] else 0
  }

  /** Kernel frames show only in the shared pages; a writable user page owns its frame alone. */
  ghost predicate LeafOk(s: Phys, r: int, q: int) {
    var w := Lookup(s.tb, r, q);
    w.valid ==>
      && Target(w) != -1
      && (HeldAt(s, Target(w)) == 0 <==> !IsShared(q))
      && (!IsShared(q) ==> w.user && Once(s, r, q) && (w.write ==> Sole(s, r, q)))
  }

  ghost predicate UserInv(s: Phys) {
    && s.stale == {}
    && forall r, q :: IsRoot(s.tb, r) && IsPage(q) ==> LeafOk(s, r, q)
  }

  ghost predicate SameElsewhere(s: Phys, s': Phys, root: int, p: int) {
    && (forall r :: IsRoot(s'.tb, r) <==> IsRoot(s.tb, r))
    && forall r, q :: IsRoot(s.tb, r) && IsPage(q) && !(r == root && q == p) ==>
         Resident(s', r, q) == Resident(s, r, q) && Lookup(s'.tb, r, q) == Lookup(s.tb, r, q)
  }

  /** Mapping a private frame at one page. */
  lemma MapPrivate(s: Phys, s': Phys, root: int, p: int, w: Pte)
    requires Inv(s) && Inv(s') && UserInv(s) && IsRoot(s.tb, root) && IsPage(p) && !IsShared(p)
    requires Remapped(s, s', root, p, w)
    requires w.valid && Target(w) != -1 && w.user
    requires RefAt(s, Target(w)) == 0
    ensures UserInv(s') && SameElsewhere(s, s', root, p)
    ensures Resident(s', root, p) == Present(FrameBytes(FrameAt(s, Target(w))), RightsOf(w))
  {
    hide Inv, Lookup, Target, RightsOf, FrameBytes, StableWalk, IsRoot;
    Unmapped(s, Target(w));
    forall r, q | IsRoot(s'.tb, r) && IsPage(q) ensures LeafOk(s', r, q) {
      assert LeafOk(s, r, q);
    }
    forall r, q | IsRoot(s.tb, r) && IsPage(q) ensures SameContents(s, s', r, q) {
    }
  }

  lemma Unmapped(s: Phys, f: int)
    requires Inv(s) && 0 <= f < FRAMES && RefAt(s, f) == 0
    ensures HeldAt(s, f) == 0
    ensures forall r, q :: IsRoot(s.tb, r) && IsPage(q) ==> Target(Lookup(s.tb, r, q)) != f
  {
    ZeroRefs(s, f);
    hide Counted, Linked, Forest, Lookup;
    forall r, q | IsRoot(s.tb, r) && IsPage(q) && Target(Lookup(s.tb, r, q)) != -1
      ensures Target(Lookup(s.tb, r, q)) != f
    {
      MappedFrame(s, r, q);
    }
  }

  /** Writing through a user page: the tables stay, and exactly the pages with its frame show it. */
  lemma StoreThrough(s: Phys, root: int, p: int, c: Frame)
    requires Inv(s) && UserInv(s) && IsRoot(s.tb, root) && IsPage(p) && !IsShared(p)
    requires Lookup(s.tb, root, p).valid && IsFrame(c)
    ensures var f := Target(Lookup(s.tb, root, p));
            && 0 <= f < |s.mem|
            && var s' := s.(mem := s.mem[f := c]);
               && Inv(s') && UserInv(s')
               && forall r, q :: IsRoot(s.tb, r) && IsPage(q) ==>
                    Resident(s', r, q) == if Target(Lookup(s.tb, r, q)) == f
                                          then Present(FrameBytes(c), RightsOf(Lookup(s.tb, r, q)))
                                          else Resident(s, r, q)
  {
    hide Linked, Forest, Counted, Lookup, IsRoot, FrameBytes, RightsOf;
    var f := Target(Lookup(s.tb, root, p));
    assert LeafOk(s, root, p);
    MappedFrame(s, root, p);
    WriteInv(s, f, c);
    var s' := s.(mem := s.mem[f := c]);
    forall r, q | IsRoot(s'.tb, r) && IsPage(q) ensures LeafOk(s', r, q) {
      assert LeafOk(s, r, q);
    }
  }

  /** Taking the first free frame and filling it with c, before it is mapped. */
  ghost function Drawn(s: Phys, c: Frame): Phys
    requires s.free != [] && 0 <= s.free[0] < |s.mem|
  {
    Phys(s.mem[s.free[0] := c], s.refs, s.free[1..], s.held, s.tb, s.stale)
  }

  lemma DrawFrame(s: Phys, c: Frame)
    requires Inv(s) && UserInv(s) && s.free != [] && IsFrame(c)
    ensures 0 <= s.free[0] < |s.mem| == |s.refs| == FRAMES
    ensures Inv(Drawn(s, c)) && UserInv(Drawn(s, c)) && Drawn(s, c).tb == s.tb
    ensures forall r, q :: IsRoot(s.tb, r) && IsPage(q) ==> Resident(Drawn(s, c), r, q) == Resident(s, r, q)
    ensures var f, s' := s.free[0], Drawn(s, c);
            RefAt(s', f) == 0 && f !in s'.free && f !in s'.tb.dir && FrameAt(s', f) == c
  {
    DrawInv(s, c);
    DrawViews(s, c);
  }

  lemma DrawInv(s: Phys, c: Frame)
    requires Inv(s) && s.free != [] && IsFrame(c)
    ensures 0 <= s.free[0] < |s.mem| == |s.refs| == FRAMES
    ensures Inv(Drawn(s, c))
    ensures var f, s' := s.free[0], Drawn(s, c);
            RefAt(s, f) == 0 && RefAt(s', f) == 0 && f !in s'.free && f !in s'.tb.dir && FrameAt(s', f) == c
  {
    AllocInv(s);
    hide Linked, Forest, Counted;
    WriteInv(Alloc(s), s.free[0], c);
    assert Alloc(s).(mem := Alloc(s).mem[s.free[0] := c]) == Drawn(s, c);
  }

  lemma DrawViews(s: Phys, c: Frame)
    requires Inv(s) && UserInv(s) && s.free != [] && 0 <= s.free[0] < |s.mem| == FRAMES && RefAt(s, s.free[0]) == 0
    ensures UserInv(Drawn(s, c))
    ensures forall r, q :: IsRoot(s.tb, r) && IsPage(q) ==> Resident(Drawn(s, c), r, q) == Resident(s, r, q)
  {
    hide Inv, FrameBytes, Lookup, Target, IsRoot;
    Unmapped(s, s.free[0]);
    forall r, q | IsRoot(s.tb, r) && IsPage(q)
      ensures Resident(Drawn(s, c), r, q) == Resident(s, r, q) && LeafOk(Drawn(s, c), r, q)
    {
      assert LeafOk(s, r, q);
    }
  }

  lemma LookupFrame(s: Phys, r: int, q: int)
    requires Inv(s) && IsRoot(s.tb, r) && IsPage(q) && Target(Lookup(s.tb, r, q)) != -1
    ensures var f := Target(Lookup(s.tb, r, q));
            && 0 <= f < |s.mem| == FRAMES && IsFrame(s.mem[f]) && f !in s.free
            && (s.free != [] ==> s.free[0] != f)
  {
    MappedFrame(s, r, q);
  }

  lemma DrawnCopy(s: Phys, g: int)
    requires s.free != [] && 0 <= s.free[0] < |s.mem| && 0 <= g < |s.mem| && g != s.free[0]
    ensures Drawn(s, s.mem[g]) == Alloc(s).(mem := Alloc(s).mem[s.free[0] := Alloc(s).mem[g]])
  {
  }

  lemma FreshMayMap(s: Phys, root: int, p: int, f: int, perm: Pte)
    requires Inv(s) && IsRoot(s.tb, root) && IsPage(p) && 0 <= f < FRAMES
    requires RefAt(s, f) == 0 && f !in s.free && f !in s.tb.dir
    ensures MayMap(s, root, p, f) && Target(LeafEntry(BASE_PPN + f, perm)) == f
    ensures LeafEntry(BASE_PPN + f, perm).valid
    ensures LeafEntry(BASE_PPN + f, perm).write == perm.write && LeafEntry(BASE_PPN + f, perm).cow == perm.cow
    ensures LeafEntry(BASE_PPN + f, perm).user == perm.user
    ensures RightsOf(LeafEntry(BASE_PPN + f, perm)) == RightsOf(perm)
  {
    Unmapped(s, f);
  }

  lemma DrawnZero(s: Phys)
    requires s.free != [] && 0 <= s.free[0] < |s.mem|
    ensures Alloc(s) == Drawn(s, ZeroFrame()) && Drawn(s, ZeroFrame()).mem[s.free[0]] == ZeroFrame()
  {
  }

  lemma DrawnAgain(s: Phys, c: Frame, d: Frame)
    requires s.free != [] && 0 <= s.free[0] < |s.mem|
    ensures var p := Drawn(s, c);
            |p.mem| == |s.mem| && p.(mem := p.mem[s.free[0] := d]) == Drawn(s, d)
  {
  }

  lemma SameElsewhereFrom(s: Phys, s1: Phys, s2: Phys, root: int, p: int)
    requires s1.tb == s.tb && SameElsewhere(s1, s2, root, p)
    requires forall r, q :: IsRoot(s.tb, r) && IsPage(q) ==> Resident(s1, r, q) == Resident(s, r, q)
    ensures SameElsewhere(s, s2, root, p)
  {
    hide Lookup, Resident, IsRoot;
  }

  // ---------- writing a range of addresses ----------

  function At(b: seq<Byte>, o: int): Byte { if 0 <= o < |b| then b[o] else 0 }

  /** Page q with `data` laid over it from address dst. */
  function Overlay(v: View, q: int, dst: int, data: seq<Byte>): View {
    if v.Absent? then Absent
    else Present(seq<Byte>(PAGE_SIZE, o => OverlayAt(v.bytes, q, dst, data, o)), v.rights)
  }

  function OverlayAt(b: seq<Byte>, q: int, dst: int, data: seq<Byte>, o: int): Byte {
    if dst <= q * 4096 + o < dst + |data| then At(data, q * 4096 + o - dst) else At(b, o)
  }

  /** The read-only page of `root` that has the frame of page q of r; -1 when there is none. */
  ghost function Twin(s: Phys, root: int, r: int, q: int): int {
    if exists p :: IsPage(p) && Aliased(s, root, p, r, q) then
      var p :| IsPage(p) && Aliased(s, root, p, r, q); p
    else -1
  }

  ghost predicate Aliased(s: Phys, root: int, p: int, r: int, q: int) {
    ReadOnly(Lookup(s.tb, root, p)) && Target(Lookup(s.tb, r, q)) == Target(Lookup(s.tb, root, p))
  }

  /** What another address space sees of a write of the kernel to `root`: copyout does not test the write bit, so a
      write to a read-only page shows in every page that shares the frame. */
  ghost function Echo(s: Phys, root: int, r: int, q: int, dst: int, data: seq<Byte>): View {
    if Twin(s, root, r, q) == -1 then Resident(s, r, q) else Overlay(Resident(s, r, q), Twin(s, root, r, q), dst, data)
  }

  /** All that is visible of a write: its bytes at their addresses in the address space `root`, and their echo through
      its read-only pages. */
  ghost predicate Copied(s: Phys, s': Phys, segs: seq<Segment>, root: int, dst: int, data: seq<Byte>) {
    && (forall r :: IsRoot(s'.tb, r) <==> IsRoot(s.tb, r))
    && (forall r, q :: IsRoot(s.tb, r) && IsPage(q) && r != root ==>
          Resident(s', r, q) == Echo(s, root, r, q, dst, data) && Lookup(s'.tb, r, q) == Lookup(s.tb, r, q))
    && (forall q :: IsPage(q) ==>
          && Logical(s', segs, root, q) == Overlay(Logical(s, segs, root, q), q, dst, data)
          && SameIfReadOnly(Lookup(s.tb, root, q), Lookup(s'.tb, root, q)))
  }

  predicate SameIfReadOnly(w: Pte, w': Pte) {
    ReadOnly(w) || ReadOnly(w') ==> w' == w
  }

  ghost predicate FullPage(v: View) {
    v.Absent? || |v.bytes| == PAGE_SIZE
  }

  lemma ResidentFull(s: Phys, r: int, q: int)
    requires Inv(s) && IsRoot(s.tb, r) && IsPage(q)
    ensures FullPage(Resident(s, r, q))
  {
    hide Inv, Lookup, IsRoot, Target, RightsOf;
    if Target(Lookup(s.tb, r, q)) != -1 {
      LookupFrame(s, r, q);
    }
  }

  lemma LogicalFull(s: Phys, segs: seq<Segment>, r: int, q: int)
    requires Inv(s) && IsRoot(s.tb, r) && IsPage(q)
    ensures FullPage(Logical(s, segs, r, q))
  {
    hide Inv, Lookup, IsRoot, Resident;
    ResidentFull(s, r, q);
  }

  lemma OverlayNothing(v: View, q: int, dst: int)
    requires FullPage(v)
    ensures Overlay(v, q, dst, []) == v
  {
    if v.Present? {
      assert Overlay(v, q, dst, []).bytes == v.bytes;
    }
  }

  lemma CopiedNothing(s: Phys, segs: seq<Segment>, root: int, dst: int)
    requires Inv(s) && IsRoot(s.tb, root)
    ensures Copied(s, s, segs, root, dst, [])
  {
    hide Inv, Lookup, Logical, Overlay, IsRoot, Resident, Twin;
    forall q | IsPage(q) ensures Logical(s, segs, root, q) == Overlay(Logical(s, segs, root, q), q, dst, []) {
      LogicalFull(s, segs, root, q);
      OverlayNothing(Logical(s, segs, root, q), q, dst);
    }
    forall r, q | IsRoot(s.tb, r) && IsPage(q) ensures Resident(s, r, q) == Echo(s, root, r, q, dst, []) {
      ResidentFull(s, r, q);
      OverlayNothing(Resident(s, r, q), Twin(s, root, r, q), dst);
    }
  }

  function Patched(v: View, off: int, chunk: seq<Byte>): View {
    if v.Present? && 0 <= off && off + |chunk| <= |v.bytes| then Present(Patch(v.bytes, off, chunk), v.rights) else v
  }

  /** The page of one chunk after the write. */
  lemma OverlayChunk(v: View, q: int, dst: int, data: seq<Byte>, chunk: seq<Byte>)
    requires FullPage(v) && q >= 0 && dst >= 0
    requires var va := dst + |data|; va / 4096 == q && va % 4096 + |chunk| <= PAGE_SIZE
    ensures Patched(Overlay(v, q, dst, data), (dst + |data|) % 4096, chunk) == Overlay(v, q, dst, data + chunk)
  {
    if v.Present? {
      var u := Overlay(v, q, dst, data);
      var w := Overlay(v, q, dst, data + chunk);
      var o := (dst + |data|) % 4096;
      assert q * 4096 + o == dst + |data|;
      assert Patch(u.bytes, o, chunk) == w.bytes;
    }
  }

  lemma OverlayOther(v: View, q: int, dst: int, data: seq<Byte>, chunk: seq<Byte>)
    requires q >= 0 && dst >= 0
    requires var va := dst + |data|; va / 4096 != q && va % 4096 + |chunk| <= PAGE_SIZE
    ensures Overlay(v, q, dst, data) == Overlay(v, q, dst, data + chunk)
  {
    if v.Present? {
      var va := dst + |data|;
      forall o | 0 <= o < PAGE_SIZE
        ensures OverlayAt(v.bytes, q, dst, data, o) == OverlayAt(v.bytes, q, dst, data + chunk, o)
      {
        assert q < va / 4096 ==> q * 4096 + o < va / 4096 * 4096 <= va;
        assert q > va / 4096 ==> q * 4096 + o >= va / 4096 * 4096 + 4096 >= va + |chunk|;
      }
      assert Overlay(v, q, dst, data).bytes == Overlay(v, q, dst, data + chunk).bytes;
    }
  }

  /** One page written: the page, and what shares its frame if it is read-only. */
  ghost predicate Stored(s: Phys, s': Phys, segs: seq<Segment>, root: int, p: int, off: int, chunk: seq<Byte>) {
    && (forall r :: IsRoot(s'.tb, r) <==> IsRoot(s.tb, r))
    && (forall r, q :: IsRoot(s.tb, r) && IsPage(q) && !(r == root && q == p) ==>
          && Lookup(s'.tb, r, q) == Lookup(s.tb, r, q)
          && Resident(s', r, q) == if Aliased(s, root, p, r, q) then Patched(Resident(s, r, q), off, chunk)
                                   else Resident(s, r, q))
    && Logical(s, segs, root, p).Present?
    && Logical(s', segs, root, p) == Patched(Logical(s, segs, root, p), off, chunk)
    && SameIfReadOnly(Lookup(s.tb, root, p), Lookup(s'.tb, root, p))
  }

  /** One turn of copyout's loop. */
  lemma CopiedChunk(s: Phys, s1: Phys, s2: Phys, segs: seq<Segment>, root: int, dst: int, data: seq<Byte>,
                    chunk: seq<Byte>)
    requires Inv(s) && UserInv(s) && UserInv(s1) && IsRoot(s.tb, root) && dst >= 0 && 0 <= dst + |data| < USER_TOP
    requires (dst + |data|) % 4096 + |chunk| <= PAGE_SIZE
    requires Copied(s, s1, segs, root, dst, data)
    requires Stored(s1, s2, segs, root, (dst + |data|) / 4096, (dst + |data|) % 4096, chunk)
    ensures Copied(s, s2, segs, root, dst, data + chunk)
  {
    hide Inv, UserInv, Lookup, IsRoot, Overlay, Resident, Logical, Patched, Aliased, Echo, ReadOnly, IsShared;
    var p := (dst + |data|) / 4096;
    assert IsPage(p);
    forall q | IsPage(q)
      ensures Logical(s2, segs, root, q) == Overlay(Logical(s, segs, root, q), q, dst, data + chunk)
      ensures SameIfReadOnly(Lookup(s.tb, root, q), Lookup(s2.tb, root, q))
    {
      OwnChunk(s, s1, s2, segs, root, dst, data, chunk, q);
    }
    forall r, q | IsRoot(s.tb, r) && IsPage(q) && r != root
      ensures Resident(s2, r, q) == Echo(s, root, r, q, dst, data + chunk)
    {
      EchoChunk(s, s1, s2, segs, root, dst, data, chunk, r, q);
    }
  }

  lemma OwnChunk(s: Phys, s1: Phys, s2: Phys, segs: seq<Segment>, root: int, dst: int, data: seq<Byte>,
                 chunk: seq<Byte>, q: int)
    requires Inv(s) && UserInv(s1) && IsRoot(s.tb, root) && dst >= 0 && 0 <= dst + |data| < USER_TOP && IsPage(q)
    requires (dst + |data|) % 4096 + |chunk| <= PAGE_SIZE
    requires Copied(s, s1, segs, root, dst, data)
    requires Stored(s1, s2, segs, root, (dst + |data|) / 4096, (dst + |data|) % 4096, chunk)
    ensures Logical(s2, segs, root, q) == Overlay(Logical(s, segs, root, q), q, dst, data + chunk)
    ensures SameIfReadOnly(Lookup(s.tb, root, q), Lookup(s2.tb, root, q))
  {
    hide Inv, Lookup, IsRoot, Overlay, Resident, Patched, Lazy, Echo, Target, Sole;
    var p := (dst + |data|) / 4096;
    LogicalFull(s, segs, root, q);
    OverlayAbsent(Logical(s, segs, root, q), q, dst, data);
    if q == p {
      OverlayChunk(Logical(s, segs, root, q), q, dst, data, chunk);
    } else {
      OverlayOther(Logical(s, segs, root, q), q, dst, data, chunk);
      assert LeafOk(s1, root, p);
    }
  }

  lemma EchoChunk(s: Phys, s1: Phys, s2: Phys, segs: seq<Segment>, root: int, dst: int, data: seq<Byte>,
                  chunk: seq<Byte>, r: int, q: int)
    requires Inv(s) && UserInv(s) && IsRoot(s.tb, root) && dst >= 0 && 0 <= dst + |data| < USER_TOP
    requires IsRoot(s.tb, r) && IsPage(q) && r != root && (dst + |data|) % 4096 + |chunk| <= PAGE_SIZE
    requires Copied(s, s1, segs, root, dst, data)
    requires Stored(s1, s2, segs, root, (dst + |data|) / 4096, (dst + |data|) % 4096, chunk)
    ensures Resident(s2, r, q) == Echo(s, root, r, q, dst, data + chunk)
  {
    hide Inv, Lookup, IsRoot, Overlay, Patched, Logical, Target, Sole, RightsOf, FrameBytes;
    var p := (dst + |data|) / 4096;
    var v := Resident(s, r, q);
    var k := Twin(s, root, r, q);
    ResidentFull(s, r, q);
    OverlayAbsent(v, k, dst, data);
    assert IsPage(p) && SameIfReadOnly(Lookup(s.tb, root, p), Lookup(s1.tb, root, p));
    assert Aliased(s1, root, p, r, q) == Aliased(s, root, p, r, q);
    if Aliased(s, root, p, r, q) {
      TwinIs(s, root, p, r, q);
      OverlayChunk(v, p, dst, data, chunk);
    } else if k != -1 {
      OverlayOther(v, k, dst, data, chunk);
    }
  }

  lemma TwinIs(s: Phys, root: int, p: int, r: int, q: int)
    requires UserInv(s) && IsRoot(s.tb, root) && IsPage(p) && !IsShared(p) && Aliased(s, root, p, r, q)
    ensures Twin(s, root, r, q) == p
  {
    hide Lookup, IsRoot, Target, Sole;
    assert LeafOk(s, root, p);
  }

  lemma CopiedReadOnly(s: Phys, s': Phys, segs: seq<Segment>, root: int, dst: int, data: seq<Byte>, q: int)
    requires Copied(s, s', segs, root, dst, data) && IsPage(q)
    ensures ReadOnly(Lookup(s.tb, root, q)) ==> ReadOnly(Lookup(s'.tb, root, q))
  {
    hide Lookup, Logical, Echo, Overlay, Resident, IsRoot;
  }

  lemma OverlayAbsent(v: View, q: int, dst: int, data: seq<Byte>)
    ensures Overlay(v, q, dst, data).Absent? <==> v.Absent?
    ensures v.Present? ==> Overlay(v, q, dst, data).rights == v.rights
  {
  }

  /** Making page p writable shows nothing. */
  ghost predicate Readied(s: Phys, s': Phys, segs: seq<Segment>, root: int, p: int) {
    SameElsewhere(s, s', root, p) && Lookup(s'.tb, root, p).valid && Resident(s', root, p) == Logical(s, segs, root, p)
  }

  lemma ReadiedRoots(s: Phys, s': Phys, segs: seq<Segment>, root: int, p: int)
    requires Readied(s, s', segs, root, p)
    ensures forall r :: IsRoot(s'.tb, r) <==> IsRoot(s.tb, r)
  {
  }

  /** Readying the page and storing through it. */
  lemma ReadiedThenStored(s: Phys, s1: Phys, s2: Phys, segs: seq<Segment>, root: int, p: int, off: int,
                          chunk: seq<Byte>)
    requires UserInv(s1) && IsRoot(s.tb, root) && IsPage(p) && !IsShared(p)
    requires Readied(s, s1, segs, root, p) && s2.tb == s1.tb
    requires if ReadOnly(Lookup(s.tb, root, p)) then s1 == s else Lookup(s1.tb, root, p).write
    requires Resident(s1, root, p).Present? && |Resident(s1, root, p).bytes| == PAGE_SIZE
    requires forall r, q :: IsRoot(s1.tb, r) && IsPage(q) ==>
               Resident(s2, r, q) == if Target(Lookup(s1.tb, r, q)) == Target(Lookup(s1.tb, root, p))
                                     then Patched(Resident(s1, r, q), off, chunk) else Resident(s1, r, q)
    ensures Stored(s, s2, segs, root, p, off, chunk)
  {
    hide Lookup, Resident, Lazy, IsRoot, Patched, Target;
    assert IsRoot(s1.tb, root);
    assert LeafOk(s1, root, p);
  }

  lemma StoredIsolated(s: Phys, s': Phys, segs: seq<Segment>, root: int, p: int, off: int, chunk: seq<Byte>)
    requires Stored(s, s', segs, root, p, off, chunk) && !ReadOnly(Lookup(s.tb, root, p))
    ensures Isolated(s, s', root)
  {
    hide Lookup, Resident, IsRoot, Patched, Target, Logical;
  }

  // ---------- reading ----------

  /** The byte a program reads at address a. */
  ghost function UserByte(s: Phys, segs: seq<Segment>, root: int, a: int): Byte {
    ByteIn(Logical(s, segs, root, a / 4096), a % 4096)
  }

  function ByteIn(v: View, o: int): Byte {
    if v.Present? then At(v.bytes, o) else 0
  }

  lemma UserPage(s: Phys, root: int, p: int)
    requires UserInv(s) && IsRoot(s.tb, root) && IsPage(p) && !IsShared(p)
    ensures Lookup(s.tb, root, p).valid ==> Lookup(s.tb, root, p).user && Target(Lookup(s.tb, root, p)) != -1
  {
    assert LeafOk(s, root, p);
  }

  lemma SamePage(va: int, j: int)
    requires 0 <= va && 0 <= j && va % 4096 + j < 4096
    ensures (va + j) / 4096 == va / 4096 && (va + j) % 4096 == va % 4096 + j
  {
  }

  /** One turn of copyin's loop: the page is resident and holds the logical bytes. */
  lemma CopyInStep(s: Phys, s1: Phys, s2: Phys, segs: seq<Segment>, root: int, p: int, src: int, f: int)
    requires Inv(s) && Inv(s2) && IsRoot(s.tb, root) && IsPage(p) && Copied(s, s1, segs, root, src, [])
    requires s2 == s1 || (SameElsewhere(s1, s2, root, p) && Resident(s2, root, p) == Lazy(segs, p)
                          && !Lookup(s1.tb, root, p).valid && Lookup(s2.tb, root, p).write)
    requires Lookup(s2.tb, root, p).valid && f == Target(Lookup(s2.tb, root, p)) && f != -1
    ensures Copied(s, s2, segs, root, src, []) && IsRoot(s2.tb, root)
    ensures 0 <= f < |s2.mem| && IsFrame(s2.mem[f])
    ensures var v := Logical(s, segs, root, p); v.Present? && v.bytes == FrameBytes(s2.mem[f])
  {
    hide Inv, Lookup, IsRoot, Lazy, Overlay, FrameBytes, Target, Echo;
    LookupFrame(s2, root, p);
    forall q | IsPage(q)
      ensures Overlay(Logical(s, segs, root, q), q, src, []) == Logical(s, segs, root, q)
      ensures Logical(s2, segs, root, q) == Logical(s, segs, root, q)
    {
      LogicalFull(s, segs, root, q);
      OverlayNothing(Logical(s, segs, root, q), q, src);
    }
  }

  lemma RootStays(s: Phys, s': Phys, root: int, p: int)
    requires IsRoot(s.tb, root) && SameElsewhere(s, s', root, p)
    ensures IsRoot(s'.tb, root)
  {
  }

  lemma ReadiedAlready(s: Phys, segs: seq<Segment>, root: int, p: int)
    ensures Lookup(s.tb, root, p).valid ==> Readied(s, s, segs, root, p)
  {
  }

  // ---------- reference counts and privacy ----------

  /** A frame the kernel does not hold is private to a page exactly when its count is one. */
  lemma CountOneIsSole(s: Phys, r: int, q: int)
    requires Inv(s) && IsRoot(s.tb, r) && IsPage(q) && Target(Lookup(s.tb, r, q)) != -1
    requires HeldAt(s, Target(Lookup(s.tb, r, q))) == 0
    ensures RefAt(s, Target(Lookup(s.tb, r, q))) == 1 <==> Sole(s, r, q)
  {
    hide Linked, NodeOk, EntryOk, Lookup, LeafSlot, Walk0;
    var f := Target(Lookup(s.tb, r, q));
    var sl := LeafSlot(s.tb, r, q);
    MappedFrame(s, r, q);
    if RefAt(s, f) == 1 {
      SingleReference(Refs(s.tb, f), sl);
      forall r', q' | IsRoot(s.tb, r') && IsPage(q') && Target(Lookup(s.tb, r', q')) == f ensures r' == r && q' == q {
        MappedFrame(s, r', q');
        LeafSlotInjective(s.tb, r, q, r', q');
      }
    }
    if Sole(s, r, q) {
      forall x | x in Refs(s.tb, f) ensures x == sl {
        LeafOfDataFrame(s, f, x);
        var r', q' := LeafSlotOnto(s.tb, x);
        LookupIsLeaf(s.tb, r', q');
      }
      assert Refs(s.tb, f) == {sl};
    }
  }

  lemma SingleReference(a: set<Slot>, x: Slot)
    requires x in a && |a| == 1
    ensures forall y :: y in a ==> y == x
  {
    forall y | y in a ensures y == x {
      SetSizeOf(a - {x});
    }
  }

  lemma SetSizeOf(a: set<Slot>)
    requires |a| == 0
    ensures a == {}
  {
  }

  lemma LeafOfDataFrame(s: Phys, f: int, x: Slot)
    requires Inv(s) && 0 <= f < FRAMES && f !in s.tb.dir && x in Refs(s.tb, f)
    ensures LeafLevel(s, x)
  {
    assert EntryOk(s.tb, x);
    assert NodeOk(s.tb, x.t);
  }

  /** No other address space sees anything of it. */
  ghost predicate Isolated(s: Phys, s': Phys, root: int) {
    forall r, q :: IsRoot(s.tb, r) && IsPage(q) && r != root ==> Resident(s', r, q) == Resident(s, r, q)
  }

  /** The page keeps its frame to itself, or the write leaves it as it is. */
  ghost predicate Harmless(s: Phys, root: int, p: int, dst: int, data: seq<Byte>) {
    RefAt(s, Target(Lookup(s.tb, root, p))) == 1 || Overlay(Resident(s, root, p), p, dst, data) == Resident(s, root, p)
  }

  ghost predicate AllHarmless(s: Phys, root: int, dst: int, data: seq<Byte>) {
    forall p :: IsPage(p) && ReadOnly(Lookup(s.tb, root, p)) ==> Harmless(s, root, p, dst, data)
  }

  /** Whether a write of the kernel stays private, for every write: exactly when each read-only page it changes has a
      frame with one reference. */
  lemma IsolatedIff(s: Phys, s': Phys, segs: seq<Segment>, root: int, dst: int, data: seq<Byte>)
    requires Inv(s) && UserInv(s) && IsRoot(s.tb, root) && 0 <= dst && dst + |data| <= USER_TOP
    requires Copied(s, s', segs, root, dst, data)
    ensures Isolated(s, s', root) <==> AllHarmless(s, root, dst, data)
  {
    hide Inv, UserInv, Lookup, Overlay, IsRoot, Target, ReadOnly, Resident, Harmless, Echo, Logical;
    if AllHarmless(s, root, dst, data) {
      forall r, q | IsRoot(s.tb, r) && IsPage(q) && r != root ensures Resident(s', r, q) == Resident(s, r, q) {
        EchoOfHarmless(s, root, r, q, dst, data);
      }
    }
    if Isolated(s, s', root) {
      forall p | IsPage(p) && ReadOnly(Lookup(s.tb, root, p)) ensures Harmless(s, root, p, dst, data) {
        EchoTells(s, s', segs, root, p, dst, data);
      }
    }
  }

  lemma EchoOfHarmless(s: Phys, root: int, r: int, q: int, dst: int, data: seq<Byte>)
    requires Inv(s) && UserInv(s) && IsRoot(s.tb, root) && IsRoot(s.tb, r) && IsPage(q) && r != root
    requires 0 <= dst && dst + |data| <= USER_TOP
    requires forall p :: IsPage(p) && ReadOnly(Lookup(s.tb, root, p)) ==> Harmless(s, root, p, dst, data)
    ensures Echo(s, root, r, q, dst, data) == Resident(s, r, q)
  {
    hide Inv, Lookup, Overlay, IsRoot, Target, FrameBytes, RightsOf;
    var k := Twin(s, root, r, q);
    if k != -1 {
      assert IsPage(k) && Aliased(s, root, k, r, q) && LeafOk(s, root, k);
      SharedFrameOverlay(s, root, k, r, q, dst, data);
      if !IsShared(k) {
        CountOneIsSole(s, root, k);
      } else {
        ResidentFull(s, r, q);
        OverlayAway(Resident(s, r, q), k, dst, data);
      }
    }
  }

  /** Two pages with one frame show the same bytes, and so do the writes to them. */
  lemma SharedFrameOverlay(s: Phys, root: int, p: int, r: int, q: int, dst: int, data: seq<Byte>)
    requires Aliased(s, root, p, r, q)
    ensures Overlay(Resident(s, root, p), p, dst, data) == Resident(s, root, p) <==>
            Overlay(Resident(s, r, q), p, dst, data) == Resident(s, r, q)
  {
    hide Lookup, Target, FrameBytes, RightsOf;
  }

  lemma OverlayAway(v: View, p: int, dst: int, data: seq<Byte>)
    requires FullPage(v) && IsShared(p) && 0 <= dst && dst + |data| <= USER_TOP
    ensures Overlay(v, p, dst, data) == v
  {
    if v.Present? {
      assert Overlay(v, p, dst, data).bytes == v.bytes;
    }
  }

  lemma EchoTells(s: Phys, s': Phys, segs: seq<Segment>, root: int, p: int, dst: int, data: seq<Byte>)
    requires Inv(s) && UserInv(s) && IsRoot(s.tb, root) && 0 <= dst && dst + |data| <= USER_TOP
    requires Copied(s, s', segs, root, dst, data) && Isolated(s, s', root)
    requires IsPage(p) && ReadOnly(Lookup(s.tb, root, p))
    ensures Harmless(s, root, p, dst, data)
  {
    hide Inv, Lookup, Overlay, IsRoot, Target, FrameBytes, RightsOf, Logical, Twin;
    assert LeafOk(s, root, p);
    if IsShared(p) {
      ResidentFull(s, root, p);
      OverlayAway(Resident(s, root, p), p, dst, data);
    } else {
      CountOneIsSole(s, root, p);
      if RefAt(s, Target(Lookup(s.tb, root, p))) != 1 {
        var r, q := Sharer(s, root, p);
        TwinIs(s, root, p, r, q);
        SharedFrameOverlay(s, root, p, r, q, dst, data);
      }
    }
  }

  lemma Sharer(s: Phys, root: int, p: int) returns (r: int, q: int)
    requires UserInv(s) && IsRoot(s.tb, root) && IsPage(p) && !IsShared(p) && ReadOnly(Lookup(s.tb, root, p))
    requires !Sole(s, root, p)
    ensures IsRoot(s.tb, r) && IsPage(q) && r != root && Aliased(s, root, p, r, q)
  {
    hide Lookup, IsRoot, Target;
    assert LeafOk(s, root, p);
    r, q :| && IsRoot(s.tb, r) && IsPage(q) && !(r == root && q == p)
            && Target(Lookup(s.tb, r, q)) == Target(Lookup(s.tb, root, p));
  }

  // ---------- changing the flags of a page ----------

  lemma SameTarget(w: Pte, w': Pte)
    requires w'.valid == w.valid && w'.ppn == w.ppn
    ensures Target(w') == Target(w)
  {
  }

  /** Another entry for the same frame. */
  lemma ReflagInv(s: Phys, root: int, q: int, w': Pte)
    requires Inv(s) && IsRoot(s.tb, root) && IsPage(q) && Target(Lookup(s.tb, root, q)) != -1
    requires Target(w') == Target(Lookup(s.tb, root, q))
    ensures var sl := LeafSlot(s.tb, root, q);
            && LeafLevel(s, sl) && sl !in s.stale && Walk0(s.tb, root, q) != -1
            && Inv(PutLeaf(s, sl, w')) && Remapped(s, PutLeaf(s, sl, w'), root, q, w')
  {
    hide Linked, Forest, Counted, Remapped, PutLeaf;
    var sl := LeafSlot(s.tb, root, q);
    MappedFrame(s, root, q);
    InvWalk(s, root, q);
    LeafNotStale(s, sl);
    var s' := PutLeaf(s, sl, w');
    PutLeafLists(s, sl, w');
    PutLeafInv(s, sl, w', s');
    PutLeafRemapped(s, root, q, w', s');
  }

  lemma PutLeafLists(s: Phys, sl: Slot, w: Pte)
    requires Inv(s) && LeafLevel(s, sl)
    ensures var s' := PutLeaf(s, sl, w);
            && s'.refs == s.refs && s'.free == s.free && s' == PutLeaf(s, sl, w).(refs := s'.refs, free := s'.free)
            && |s.refs| == FRAMES && Shape(s'.(mem := s.mem))
            && (forall g :: g in s.free ==> 0 <= g < FRAMES && s.refs[g] == 0)
  {
    hide Linked, Forest, PutEntry;
  }

  /** New flags for a user page keep every writable page private if and only if they do not make a shared frame
      writable. */
  lemma ReflagPrivateIff(s: Phys, s': Phys, root: int, p: int, w': Pte)
    requires Inv(s) && UserInv(s) && IsRoot(s.tb, root) && IsPage(p) && !IsShared(p) && Lookup(s.tb, root, p).valid
    requires Remapped(s, s', root, p, w') && w'.valid && w'.user && Target(w') == Target(Lookup(s.tb, root, p))
    ensures UserInv(s') <==> (w'.write ==> RefAt(s, Target(w')) == 1)
    ensures SameElsewhere(s, s', root, p)
    ensures Resident(s', root, p) == Present(FrameBytes(FrameAt(s, Target(w'))), RightsOf(w'))
  {
    hide Inv, Lookup, Target, FrameBytes, RightsOf, StableWalk, IsRoot;
    assert LeafOk(s, root, p);
    CountOneIsSole(s, root, p);
    forall r, q | IsRoot(s.tb, r) && IsPage(q)
      ensures SameContents(s, s', r, q) && Target(Lookup(s'.tb, r, q)) == Target(Lookup(s.tb, r, q))
    {
    }
    assert Sole(s', root, p) <==> Sole(s, root, p);
    if w'.write ==> RefAt(s, Target(w')) == 1 {
      forall r, q | IsRoot(s'.tb, r) && IsPage(q) ensures LeafOk(s', r, q) {
        assert LeafOk(s, r, q);
      }
    }
    if UserInv(s') {
      assert IsRoot(s'.tb, root) && LeafOk(s', root, p);
    }
  }

  /** The first n bytes of a page are zeros, seen also where a read-only page shares its frame; its rights are new. */
  ghost predicate Rezeroed(s: Phys, s': Phys, root: int, p: int, n: nat, perm: Pte) {
    && (forall r :: IsRoot(s'.tb, r) <==> IsRoot(s.tb, r))
    && (forall r, q :: IsRoot(s.tb, r) && IsPage(q) && !(r == root && q == p) ==>
          && Lookup(s'.tb, r, q) == Lookup(s.tb, r, q)
          && Resident(s', r, q) == if Aliased(s, root, p, r, q) then Patched(Resident(s, r, q), 0, seq<Byte>(n, i => 0))
                                   else Resident(s, r, q))
    && Resident(s, root, p).Present? && Resident(s', root, p).Present?
    && Resident(s', root, p).bytes == Patched(Resident(s, root, p), 0, seq<Byte>(n, i => 0)).bytes
    && Resident(s', root, p).rights == RightsOf(perm.(user := true))
  }

  lemma RezeroedIs(s: Phys, s1: Phys, s2: Phys, root: int, p: int, n: nat, perm: Pte)
    requires Lookup(s.tb, root, p).valid && Lookup(s1.tb, root, p).valid && Target(Lookup(s1.tb, root, p)) != -1
    requires Stored(s, s1, [], root, p, 0, seq<Byte>(n, i => 0)) && SameElsewhere(s1, s2, root, p)
    requires var w := perm.(ppn := Lookup(s1.tb, root, p).ppn, valid := true, user := true);
             Resident(s2, root, p) == Present(FrameBytes(FrameAt(s1, Target(Lookup(s1.tb, root, p)))), RightsOf(w))
    ensures Rezeroed(s, s2, root, p, n, perm)
  {
    hide Lookup, IsRoot, Patched, Target, FrameBytes, Aliased, Lazy;
  }

  lemma CowReadied(s: Phys, s': Phys, root: int, p: int)
    requires SameElsewhere(s, s', root, p) && Resident(s', root, p) == Resident(s, root, p)
    requires Lookup(s.tb, root, p).valid && Lookup(s'.tb, root, p).valid
    ensures Readied(s, s', [], root, p)
  {
    hide Lookup, Resident, IsRoot;
  }

  /** `root` is a new address space with no pages; all others look as before. */
  ghost predicate NewSpace(s: Phys, s': Phys, root: int) {
    && !IsRoot(s.tb, root) && IsRoot(s'.tb, root)
    && (forall q :: IsPage(q) ==> Lookup(s'.tb, root, q) == ZERO)
    && (forall r, q :: IsRoot(s.tb, r) && IsPage(q) ==>
          IsRoot(s'.tb, r) && Lookup(s'.tb, r, q) == Lookup(s.tb, r, q) && Resident(s', r, q) == Resident(s, r, q))
  }

  lemma NewSpaceFrom(s: Phys, s1: Phys, s2: Phys, root: int)
    requires s1.tb == s.tb && NewSpace(s1, s2, root)
    requires forall r, q :: IsRoot(s.tb, r) && IsPage(q) ==> Resident(s1, r, q) == Resident(s, r, q)
    ensures NewSpace(s, s2, root)
  {
    hide Lookup, Resident, IsRoot;
  }

  /** A new, empty address space changes nobody's view. */
  lemma AddRootUser(s: Phys, f: int)
    requires Inv(s) && UserInv(s) && 0 <= f < |s.refs| == FRAMES && s.refs[f] == 0
    ensures UserInv(AddRoot(s, f)) && NewSpace(s, AddRoot(s, f), f)
  {
    hide Linked, Counted, Forest, Lookup, FrameBytes, Target;
    ZeroRefs(s, f);
    var s' := AddRoot(s, f);
    forall r, q | IsPage(q)
      ensures IsRoot(s.tb, r) ==> IsRoot(s'.tb, r) && Lookup(s'.tb, r, q) == Lookup(s.tb, r, q)
      ensures Lookup(s'.tb, f, q) == ZERO
    {
      NewRootLookup(s.tb, f, r, q);
    }
    assert Target(ZERO) == -1 by { ZeroTarget(); }
    forall r, q | IsRoot(s'.tb, r) && IsPage(q) ensures LeafOk(s', r, q) {
      if r != f {
        assert IsRoot(s.tb, r);
        assert LeafOk(s, r, q);
      }
    }
  }

  lemma ZeroTarget()
    ensures Target(ZERO) == -1
  {
  }
}
