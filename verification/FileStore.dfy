/**
 kernel/fs/Fat.c, file operations: finding and extending a file's clusters, reading,
 writing, truncating and creating.  A result `ok == false` stands for panic().
 */
module FileStore {
  import opened Bytes
  import opened Bitmap
  import opened FatVolume
  import opened FileIndex
  import opened Files
  import opened FileModel

  /** The index blocks are used up, or file f has as many clusters as the index can take. */
  ghost predicate IndexFull(s: Store, f: int) {
    AllSet(s.ibits) || (Exists(s, f) && s.dirents[f].max >= THIRD_TOP)
  }

  ghost predicate VolumeFull(s: Store) {
    forall c :: 0 <= c < |s.vol.fat| && IsData(s.g, c) ==> s.vol.fat[c] != 0
  }

  /** What eread returns. */
  ghost function ReadResult(s: Store, f: int, off: nat, n: nat): seq<Byte>
    requires Exists(s, f)
  {
    var d := s.dirents[f];
    if d.device == ZeroDevice then seq<Byte>(n, i => 0)
    else if d.device == OsRelease then RELEASE
    else if off > d.size || off + n >= UINT_LIMIT || d.directory then []
    else Content(s, f)[off..if off + n > d.size then d.size else off + n]
  }

  /** Where eFreeInode takes the third level's word i to start. */
  function ThirdBase(i: int): int { THIRD_BOTTOM + (i - SECOND_ITEM) * ITEMS * ITEMS }

  /** What callers guarantee: offsets and lengths are 32 bits wide. */
  ghost predicate Proper(s: Store, q: Request) {
    && Exists(s, q.f)
    && match q
       case ToRead(f, off, n) => off < UINT_LIMIT && n < UINT_LIMIT
       case ToWrite(f, off, data) => off < UINT_LIMIT && |data| < UINT_LIMIT
       case ToTruncate(f) => true
       case ToCreate(f, _, _) => true
  }

  lemma ServedRead(s: Store, s': Store, f: int, off: nat, n: nat)
    requires Exists(s, f) && SameFiles(s, s') && Extended(s, s', f)
    ensures Served(s, s', ToRead(f, off, n))
  {
    hide Raw;
  }

  lemma ReadAnswered(s: Store, f: int, off: nat, n: nat)
    requires Exists(s, f)
    ensures Answered(s, [], ToRead(f, off, n), ReadResult(s, f, off, n))
  {
    hide Raw;
    var d, a := s.dirents[f], BytesThen(s, [], f, off, n);
    if !(off > d.size || off + n >= UINT_LIMIT || d.directory) {
      var b := Content(s, f)[off..if off + n > d.size then d.size else off + n];
      forall j | 0 <= j < |a| ensures a[j] == b[j] {
        NoReplay(f, off + j, CellOf(s, f, off + j));
      }
    }
  }

  lemma ServedWrite(s: Store, s': Store, f: int, off: nat, data: seq<Byte>)
    requires Exists(s, f) && WroteAt(s, s', f, off, data) && Enlarged(s, s', f, off, |data|)
    requires !Idle(CellOf(s, f, 0).meta, off, data)
    ensures Served(s, s', ToWrite(f, off, data))
  {
    hide Raw;
  }

  lemma ServedIdle(s: Store, f: int, off: nat, data: seq<Byte>)
    requires Exists(s, f) && Idle(CellOf(s, f, 0).meta, off, data)
    ensures Served(s, s, ToWrite(f, off, data))
  {
    hide Raw;
  }

  lemma ServedTruncate(s: Store, s': Store, f: int)
    requires Truncated(s, s', f)
    ensures Served(s, s', ToTruncate(f))
  {
    EmptiedRefines(s, s', f, |s.chains[f]|, s.dirents[f].(first := 0, size := 0, max := 0));
    hide Raw, Released, BlocksCleared;
  }

  lemma ServedCreate(s: Store, s': Store, f: int, readOnly: bool, directory: bool)
    requires Created(s, s', f, readOnly, directory)
    ensures Served(s, s', ToCreate(f, readOnly, directory))
  {
    hide Raw;
  }

  class FileSystem {
    const vol: Volume
    var dirents: seq<Dirent>
    var inodes: seq<seq<nat>>
    var ibits: seq<bool>
    ghost var chains: seq<seq<nat>>
    ghost var owner: map<nat, (int, int)>
    ghost var keeper: map<nat, (int, Block)>

    ghost function S(): Store
      reads this, vol
    {
      Store(vol.g, vol.V(), dirents, inodes, ibits, chains, owner, keeper)
    }

    ghost predicate Valid()
      reads this, vol
    {
      DiskOk(vol.g, vol.disk) && Inv(S())
    }

    /** n directory entries without clusters, on a mounted volume. */
    constructor (v: Volume, n: nat)
      requires v.Valid()
      ensures vol == v && Valid() && |dirents| == n && forall f :: 0 <= f < n ==> chains[f] == []
      ensures forall f :: 0 <= f < n ==>
                dirents[f] == Dirent(Ordinary, false, false, 0, 0, 0, 0, 0, seq<nat>(ITEMS, i => 0))
      ensures forall b :: 0 <= b < |ibits| ==> !ibits[b]
    {
      vol := v;
      dirents := seq(n, f => Dirent(Ordinary, false, false, 0, 0, 0, 0, 0, seq<nat>(ITEMS, i => 0)));
      inodes := seq(INODES, b => seq<nat>(ITEMS, i => 0));
      ibits := seq(INODES, b => false);
      chains := seq(n, f => []);
      owner, keeper := map[], map[];
    }

    /** inodeAlloc: the lowest free index block; with none left the scan leaves its array. */
    method InodeAlloc(ghost f: int, ghost b: Block) returns (ok: bool, x: int)
      requires Valid()
      modifies this`ibits, this`keeper
      ensures Valid() && SameFiles(old(S()), S())
      ensures !ok <==> AllSet(old(ibits))
      ensures ok ==> 0 <= x < INODES && !old(ibits)[x] && AllSet(old(ibits)[..x])
      ensures ok ==> S() == old(S()).(ibits := old(ibits)[x := true], keeper := old(keeper)[x := (f, b)])
      ensures !ok ==> S() == old(S())
    {
      x := FirstClear(ibits, 16);
      ok := x != -1;
      if ok {
        FreeIsUnreached(S(), x);
        Reserve(S(), f, b, x);
        ibits := ibits[x := true];
        keeper := keeper[x := (f, b)];
      } else {
        assert S() == old(S());
      }
    }

    method SetItem(f: int, i: int, v: nat)
      requires Valid() && Exists(S(), f) && 1 <= i < ITEMS && FreshItem(dirents[f].max, i)
      modifies this`dirents
      ensures Valid() && SameFiles(old(S()), S()) && |old(dirents)[f].item| == ITEMS
      ensures S() == PutItem(old(S()), f, i, v)
      ensures forall x :: Unreached(old(S()), x) ==> Unreached(S(), x)
    {
      hide Inv, SameFiles, InUse, PlaceOf;
      PutItemInv(S(), f, i, v);
      Shapes(S());
      ghost var s := S();
      var d := dirents[f];
      dirents := dirents[f := d.(item := d.item[i := v])];
      assert S() == PutItem(s, f, i, v);
    }

    method SetWord(y: int, j: int, v: nat)
      requires Valid() && 0 <= y < INODES && 0 <= j < ITEMS && Unused(S(), y, j)
      modifies this`inodes
      ensures Valid() && SameFiles(old(S()), S()) && |old(inodes)| == INODES && |old(inodes)[y]| == ITEMS
      ensures S() == old(S()).(inodes := PutInode(old(inodes), y, j, v))
    {
      hide Inv, SameFiles, Unused;
      PutWord(S(), y, j, v);
      Shapes(S());
      ghost var s := S();
      inodes := PutInode(inodes, y, j, v);
      assert S() == s.(inodes := inodes);
    }

    /** inodeMaxCluster++ */
    method BumpMax(f: int)
      requires Valid() && Exists(S(), f) && |dirents| == |chains| && 1 <= dirents[f].max < |chains[f]|
      requires dirents[f].max < THIRD_TOP
      requires Read(dirents[f].item, inodes, PlaceOf(dirents[f].max)) == chains[f][dirents[f].max]
      requires |ibits| == INODES && forall b :: InUse(dirents[f].max + 1, b) && !InUse(dirents[f].max, b) ==>
                 BlockKept(S(), f, b)
      modifies this`dirents
      ensures Valid() && SameFiles(old(S()), S()) && S() == NextIndexed(old(S()), f)
    {
      hide Inv, SameFiles, InUse, PlaceOf, BlockKept, Read;
      NextIndexedInv(S(), f);
      ghost var s := S();
      var d := dirents[f];
      dirents := dirents[f := d.(max := d.max + 1)];
      assert S() == NextIndexed(s, f);
    }

    /** The second level of the index takes in cluster clus at position max, in a new block ... */
    method IndexMidNew(f: int, clus: nat, i: int) returns (ok: bool)
      requires Valid() && Exists(S(), f) && |dirents| == |chains| && 1 <= dirents[f].max < |chains[f]|
      requires clus == chains[f][dirents[f].max] && PlaceOf(dirents[f].max) == Mid(i, 0) && dirents[f].max < THIRD_TOP
      modifies this
      ensures ok ==> Valid() && SameFiles(old(S()), S()) && IndexGrown(old(S()), S(), f)
      ensures !ok ==> IndexFull(S(), f)
    {
      hide Inv, SameFiles, InUse, Unused, Unreached, FreshItem, PlaceOf, VolOf, DiskOk;
      ghost var s := S();
      var pos := dirents[f].max;
      OpenPlace(pos);
      var x;
      ok, x := InodeAlloc(f, MidBlock(i));
      if !ok {
        return;
      }
      ghost var s1 := S();
      Shapes(s);
      NowUnreached(s, s1, x);
      SetItem(f, i, x);
      ghost var s2 := S();
      UnreachedIsUnused(s2, x, 0);
      SameFilesTransitive(s, s1, s2);
      SetWord(x, 0, clus);
      ghost var s3 := S();
      SameFilesTransitive(s, s2, s3);
      forall b | InUse(pos + 1, b) && !InUse(pos, b) ensures BlockKept(s3, f, b) {
        NewBlocks(pos, b);
      }
      BumpMax(f);
      SameFilesTransitive(s, s3, S());
      ok := true;
    }

    /** ... or in one it has. */
    method IndexMidFill(f: int, clus: nat, i: int, j: int)
      requires Valid() && Exists(S(), f) && |dirents| == |chains| && 1 <= dirents[f].max < |chains[f]| && j > 0
      requires clus == chains[f][dirents[f].max] && PlaceOf(dirents[f].max) == Mid(i, j) && dirents[f].max < THIRD_TOP
      modifies this
      ensures Valid() && SameFiles(old(S()), S()) && IndexGrown(old(S()), S(), f)
    {
      hide Inv, SameFiles, InUse, Unused, PlaceOf, VolOf, DiskOk;
      ghost var s := S();
      var pos := dirents[f].max;
      Shapes(s);
      OpenPlace(pos);
      Kept(s, f, MidBlock(i));
      NextIsUnused(s, f, MidBlock(i), j);
      SetWord(dirents[f].item[i], j, clus);
      ghost var s3 := S();
      NoNewBlocks(pos);
      BumpMax(f);
      SameFilesTransitive(s, s3, S());
    }

    /** The third level, first half: the block of blocks that position max goes through, with word j unused. */
    method OpenTop(f: int, i: int, j: int) returns (ok: bool)
      requires Valid() && Exists(S(), f) && |dirents| == |chains| && dirents[f].max < THIRD_TOP
      requires PlaceOf(dirents[f].max) == Low(i, j, 0)
      modifies this
      ensures ok ==> Valid() && SameFiles(old(S()), S()) && |dirents| == |old(dirents)| && |dirents[f].item| == ITEMS
      ensures ok ==> vol.V() == old(vol.V()) && chains == old(chains) && owner == old(owner) && inodes == old(inodes)
      ensures ok ==> forall e :: 0 <= e < |dirents| && e != f ==> dirents[e] == old(dirents[e])
      ensures ok ==> dirents[f] == old(dirents[f]).(item := dirents[f].item)
      ensures ok ==> var top := ItemAt(dirents[f].item, i);
                     && top < INODES == |ibits| && ibits[top] && top in keeper && keeper[top] == (f, TopBlock(i))
                     && Unused(S(), top, j)
      ensures !ok ==> AllSet(ibits)
    {
      hide Inv, SameFiles, InUse, Unused, Unreached, FreshItem, VolOf, DiskOk;
      ghost var s := S();
      Shapes(s);
      OpenPlace(dirents[f].max);
      if j == 0 {
        var t;
        ok, t := InodeAlloc(f, TopBlock(i));
        if !ok {
          return;
        }
        ghost var s1 := S();
        NowUnreached(s, s1, t);
        SetItem(f, i, t);
        SameFilesTransitive(s, s1, S());
        UnreachedIsUnused(S(), t, 0);
      } else {
        Kept(s, f, TopBlock(i));
        NextIsUnused(s, f, TopBlock(i), j);
        SameFilesReflexive(s);
      }
      ok := true;
    }

    /** The third level, second half: a new low block under word j of block top, with clus as its first word. */
    method HangLow(f: int, clus: nat, i: int, j: int, top: nat) returns (ok: bool)
      requires Valid() && Exists(S(), f) && 0 <= j < ITEMS && top < INODES == |ibits|
      requires ItemAt(dirents[f].item, i) == top
      requires ibits[top] && top in keeper && keeper[top] == (f, TopBlock(i)) && Unused(S(), top, j)
      modifies this
      ensures ok ==> Valid() && SameFiles(old(S()), S()) && dirents == old(dirents)
      ensures ok ==> vol.V() == old(vol.V()) && chains == old(chains) && owner == old(owner)
      ensures ok ==> |ibits| == INODES && BlockKept(S(), f, TopBlock(i)) && BlockKept(S(), f, LowBlock(i, j))
      ensures ok ==> Read(dirents[f].item, inodes, Low(i, j, 0)) == clus
      ensures !ok ==> AllSet(ibits)
    {
      hide Inv, SameFiles, InUse, Unused, Unreached, PlaceOf, VolOf, DiskOk;
      ghost var s1 := S();
      Shapes(s1);
      var x;
      ok, x := InodeAlloc(f, LowBlock(i, j));
      if !ok {
        return;
      }
      ghost var s2 := S();
      NowUnreached(s1, s2, x);
      StillUnused(s1, s2, top, j);
      SetWord(top, j, x);
      ghost var s3 := S();
      SameFilesTransitive(s1, s2, s3);
      WordKeepsUnreached(s2, s3, top, j, x);
      UnreachedIsUnused(s3, x, 0);
      SetWord(x, 0, clus);
      SameFilesTransitive(s1, s3, S());
      ok := true;
    }

    method IndexLowNew(f: int, clus: nat, i: int, j: int) returns (ok: bool)
      requires Valid() && Exists(S(), f) && |dirents| == |chains| && 1 <= dirents[f].max < |chains[f]|
      requires clus == chains[f][dirents[f].max] && PlaceOf(dirents[f].max) == Low(i, j, 0)
      requires dirents[f].max < THIRD_TOP
      modifies this
      ensures ok ==> Valid() && SameFiles(old(S()), S()) && IndexGrown(old(S()), S(), f)
      ensures !ok ==> IndexFull(S(), f)
    {
      hide Inv, SameFiles, InUse, Unused, Unreached, PlaceOf, VolOf, DiskOk, Read, BlockKept;
      ghost var s := S();
      var pos := dirents[f].max;
      PlaceRange(pos);
      ok := OpenTop(f, i, j);
      if !ok {
        return;
      }
      ghost var s1 := S();
      ok := HangLow(f, clus, i, j, dirents[f].item[i]);
      if !ok {
        return;
      }
      ghost var s4 := S();
      SameFilesTransitive(s, s1, s4);
      forall b | InUse(pos + 1, b) && !InUse(pos, b) ensures BlockKept(s4, f, b) {
        NewBlocks(pos, b);
      }
      BumpMax(f);
      SameFilesTransitive(s, s4, S());
      ok := true;
    }

    method IndexLowFill(f: int, clus: nat, i: int, j: int, k: int)
      requires Valid() && Exists(S(), f) && |dirents| == |chains| && 1 <= dirents[f].max < |chains[f]| && k > 0
      requires clus == chains[f][dirents[f].max] && PlaceOf(dirents[f].max) == Low(i, j, k)
      requires dirents[f].max < THIRD_TOP
      modifies this
      ensures Valid() && SameFiles(old(S()), S()) && IndexGrown(old(S()), S(), f)
    {
      hide Inv, SameFiles, InUse, Unused, PlaceOf, VolOf, DiskOk;
      ghost var s := S();
      var pos := dirents[f].max;
      Shapes(s);
      OpenPlace(pos);
      Kept(s, f, LowBlock(i, j));
      NextIsUnused(s, f, LowBlock(i, j), k);
      assert BlockKept(s, f, TopBlock(i));
      SetWord(inodes[dirents[f].item[i]][j], k, clus);
      ghost var s4 := S();
      TopStays(s, f, i, j, k, clus);
      NoNewBlocks(pos);
      BumpMax(f);
      SameFilesTransitive(s, s4, S());
    }

    /** The index takes in the next cluster of the chain: the tail of reloc_clus's loop. */
    method IndexNext(f: int, clus: nat) returns (ok: bool)
      requires Valid() && Exists(S(), f) && |dirents| == |chains| && 1 <= dirents[f].max < |chains[f]|
      requires clus == chains[f][dirents[f].max]
      modifies this
      ensures ok ==> Valid() && SameFiles(old(S()), S()) && IndexGrown(old(S()), S(), f)
      ensures !ok ==> IndexFull(S(), f)
    {
      hide Inv, SameFiles, InUse, FreshItem;
      var pos := dirents[f].max;
      ghost var s := S();
      if pos < SECOND_BOTTOM {
        OpenPlace(pos);
        SetItem(f, pos, clus);
        ghost var s1 := S();
        Shapes(s1);
        NoNewBlocks(pos);
        BumpMax(f);
        SameFilesTransitive(s, s1, S());
        ok := true;
      } else if pos < THIRD_BOTTOM {
        var i, j := SECOND_ITEM + (pos - SECOND_BOTTOM) / ITEMS, (pos - SECOND_BOTTOM) % ITEMS;
        if j == 0 {
          ok := IndexMidNew(f, clus, i);
        } else {
          IndexMidFill(f, clus, i, j);
          ok := true;
        }
      } else if pos < THIRD_TOP {
        var n := pos - THIRD_BOTTOM;
        var i, j, k := THIRD_ITEM + n / ITEMS / ITEMS, n / ITEMS % ITEMS, n % ITEMS;
        if k == 0 {
          ok := IndexLowNew(f, clus, i, j);
        } else {
          IndexLowFill(f, clus, i, j, k);
          ok := true;
        }
      } else {
        ok := false;
      }
    }

    /** eFindInode: the cursor goes to position pos of the chain. */
    method EFindInode(f: int, pos: int)
      requires Valid() && Exists(S(), f) && |chains| == |dirents| && 0 <= pos < dirents[f].max && pos < |chains[f]|
      modifies this`dirents
      ensures Valid() && SameFiles(old(S()), S()) && Extended(old(S()), S(), f)
      ensures S() == WithCursor(old(S()), f, chains[f][pos], pos)
    {
      hide Linked, BlocksOk, SameFiles, PlaceOf, Read;
      ghost var s := S();
      assert IndexOk(s, f) && ChainOk(s, f);
      var d := dirents[f];
      var cur := Read(d.item, inodes, PlaceOf(pos));
      CursorInv(s, f, cur, pos);
      dirents := dirents[f := d.(cnt := pos, cur := cur)];
      assert S() == WithCursor(s, f, cur, pos);
    }

    /** The chain's end is reached: a fresh cluster is linked behind it. */
    method AppendCluster(f: int) returns (ok: bool, c: int)
      requires Valid() && Exists(S(), f) && |chains| == |dirents| && chains[f] != []
      requires dirents[f].cur == chains[f][|chains[f]| - 1]
      modifies this, vol
      ensures ok ==> Valid() && SameFiles(old(S()), S()) && Extended(old(S()), S(), f)
      ensures ok ==> chains[f] == old(chains[f]) + [c] && dirents == old(dirents) && 0 <= c
      ensures !ok ==> VolumeFull(S())
    {
      hide Inv, VolOf, SameFiles, Entries, BytesPerClus;
      ghost var s := S();
      InvVolume(s);
      LastOfChain(s, f);
      ok, c := vol.AllocClus();
      if !ok {
        return;
      }
      GrowChainInv(s, f, c);
      Bounds(vol.g, c);
      var r := vol.WriteFat(dirents[f].cur, c);
      chains := chains[f := chains[f] + [c]];
      owner := owner[c := (f, |s.chains[f]|)];
      assert S() == GrowChain(s, f, c);
    }

    /** One turn of reloc_clus's loop: one cluster further along the chain, which is indexed on the way. */
    method Advance(f: int, alloc: bool) returns (ok: bool, atEnd: bool)
      requires Valid() && OnLastIndexed(S(), f)
      modifies this, vol
      ensures ok ==> Valid() && SameFiles(old(S()), S()) && Extended(old(S()), S(), f)
      ensures ok ==> atEnd == (!alloc && old(dirents)[f].max == |old(chains)[f]|)
      ensures ok && atEnd ==> vol.V() == old(vol.V()) && chains == old(chains) && dirents[f].cur == dirents[f].first
      ensures ok && !atEnd ==> OnLastIndexed(S(), f) && dirents[f].cnt == old(dirents)[f].cnt + 1
      ensures ok && !atEnd ==>
                if old(dirents)[f].max < |old(chains)[f]| then chains == old(chains) && vol.V() == old(vol.V())
                else |chains[f]| == |old(chains)[f]| + 1
      ensures !ok ==> IndexFull(S(), f) || (alloc && VolumeFull(S()))
    {
      hide Inv, SameFiles, VolOf, Entries, BytesPerClus;
      atEnd := false;
      ghost var s := S();
      InvVolume(s);
      SameFilesReflexive(s);
      var d := dirents[f];
      var next := vol.ReadFat(d.cur);
      NextInChain(s, f);
      if next >= EOC {
        if !alloc {
          MoveCursor(f, d.first, 0);
          return true, true;
        }
        ok, next := AppendCluster(f);
        if !ok {
          return;
        }
      }
      ghost var s1 := S();
      NextIsData(s1, f, d.max);
      MoveCursor(f, next, d.cnt + 1);
      ghost var s2 := S();
      SameFilesTransitive(s, s1, s2);
      ok := IndexNext(f, next);
      if ok {
        SameFilesTransitive(s, s2, S());
        GrownIsExtended(s2, S(), f);
      }
    }

    method MoveCursor(f: int, cur: nat, cnt: int)
      requires Valid() && Exists(S(), f) && |chains| == |dirents| && cur < EOC
      modifies this`dirents
      ensures Valid() && SameFiles(old(S()), S()) && Extended(old(S()), S(), f)
      ensures S() == WithCursor(old(S()), f, cur, cnt)
    {
      hide Inv, SameFiles;
      ghost var s := S();
      CursorInv(s, f, cur, cnt);
      dirents := dirents[f := dirents[f].(cnt := cnt, cur := cur)];
      assert S() == WithCursor(s, f, cur, cnt);
    }

    /** reloc_clus: the cursor goes to the cluster of byte off; with alloc the chain is extended to reach it,
        without it the result past the end is -1. */
    method RelocClus(f: int, off: nat, alloc: bool) returns (ok: bool, r: int)
      requires Valid() && Exists(S(), f) && dirents[f].first != 0
      modifies this, vol
      ensures ok ==> Valid() && SameFiles(old(S()), S()) && Extended(old(S()), S(), f)
      ensures ok ==> Located(old(S()), S(), f, off, alloc, r)
      ensures !ok ==> IndexFull(S(), f) || (alloc && VolumeFull(S()))
    {
      hide Inv, SameFiles, VolOf, DiskOk;
      ghost var s := S();
      Opened(s, f);
      SameFilesReflexive(s);
      var n := off / BytesPerClus(vol.g);
      r := off % BytesPerClus(vol.g);
      if n < dirents[f].max {
        EFindInode(f, n);
        return true, r;
      }
      EFindInode(f, dirents[f].max - 1);
      while n > dirents[f].cnt
        invariant Valid() && SameFiles(s, S()) && Extended(s, S(), f) && OnLastIndexed(S(), f)
        invariant dirents[f].cnt <= n
        invariant if dirents[f].cnt < |s.chains[f]| then chains == s.chains && vol.V() == s.vol
                  else alloc && |chains[f]| == dirents[f].cnt + 1
        decreases n - dirents[f].cnt
      {
        ghost var s1 := S();
        var atEnd;
        ok, atEnd := Advance(f, alloc);
        if !ok {
          return;
        }
        SameFilesTransitive(s, s1, S());
        ExtendedTransitive(s, s1, S(), f);
        if atEnd {
          return true, -1;
        }
      }
      ok := true;
    }

    /** eread: up to n bytes from off.  The zero device and the release file answer by themselves. */
    method ERead(f: int, off: nat, n: nat) returns (ok: bool, data: seq<Byte>)
      requires Valid() && Exists(S(), f) && off < UINT_LIMIT && n < UINT_LIMIT
      modifies this, vol
      ensures ok ==> Valid() && SameFiles(old(S()), S()) && Extended(old(S()), S(), f)
      ensures ok ==> chains == old(chains) && vol.V() == old(vol.V())
      ensures ok ==> data == ReadResult(old(S()), f, off, n)
      ensures !ok ==> IndexFull(S(), f)
    {
      hide Inv, SameFiles, VolOf, DiskOk, RawRange, Content;
      ghost var s := S();
      SameFilesReflexive(s);
      Shapes(s);
      var d := dirents[f];
      if d.device == ZeroDevice {
        return true, seq<Byte>(n, i => 0);
      } else if d.device == OsRelease {
        return true, RELEASE;
      }
      if off > d.size || off + n >= UINT_LIMIT || d.directory {
        return true, [];
      }
      var m := if off + n > d.size then d.size - off else n;
      data := [];
      while |data| < m
        invariant |data| <= m && Valid() && SameFiles(s, S()) && Extended(s, S(), f) && chains == s.chains
        invariant vol.V() == s.vol
        invariant data == RawRange(s, f, off, |data|)
      {
        ghost var s1 := S();
        var chunk;
        ok, chunk := ReadChunk(f, off + |data|, m - |data|);
        if !ok {
          return;
        }
        SameFilesTransitive(s, s1, S());
        ExtendedTransitive(s, s1, S(), f);
        RawRangeSame(s, s1, f, off + |data|, |chunk|);
        RawRangeAppend(s, f, off, |data|, |chunk|);
        data := data + chunk;
      }
      RawRangeContent(s, f, off, m);
      ok := true;
    }

    /** One turn of eread's loop: at most `limit` bytes from P, all of one cluster. */
    method ReadChunk(f: int, P: nat, limit: nat) returns (ok: bool, chunk: seq<Byte>)
      requires Valid() && Exists(S(), f) && P < dirents[f].size && limit > 0
      modifies this, vol
      ensures ok ==> Valid() && SameFiles(old(S()), S()) && Extended(old(S()), S(), f)
      ensures ok ==> chains == old(chains) && vol.V() == old(vol.V())
      ensures ok ==> 0 < |chunk| <= limit && chunk == RawRange(old(S()), f, P, |chunk|)
      ensures !ok ==> IndexFull(S(), f)
    {
      hide Inv, SameFiles, VolOf, DiskOk, RawRange;
      ghost var s := S();
      chunk := [];
      InsideChain(s, f, P);
      var r;
      ok, r := RelocClus(f, P, false);
      if !ok {
        return;
      }
      var b := BytesPerClus(vol.g);
      ModBound(P, b);
      var k := b - P % b;
      if limit < k {
        k := limit;
      }
      RawChunk(S(), f, P, k);
      RawRangeSame(s, S(), f, P, k);
      chunk := ReadCluster(dirents[f].cur, P % b, k);
    }

    method ReadCluster(c: int, o: int, k: int) returns (chunk: seq<Byte>)
      requires Valid() && IsData(vol.g, c) && 0 <= o && 0 <= k && o + k <= BytesPerClus(vol.g)
      ensures c < |vol.V().data| && |vol.V().data[c]| == BytesPerClus(vol.g) && chunk == vol.V().data[c][o..o + k]
    {
      chunk := vol.ReadClus(c, o, k);
    }

    /** A file without clusters gets its first one. */
    method OpenFirst(f: int) returns (ok: bool)
      requires Valid() && Exists(S(), f) && dirents[f].first == 0
      modifies this, vol
      ensures ok ==> Valid() && SameFiles(old(S()), S()) && Opening(old(S()), S(), f)
      ensures ok ==>
                |chains[f]| == 1 && dirents[f] == old(dirents)[f].(first := dirents[f].first, cur := dirents[f].first,
                                                                        cnt := 0, max := 1, item := dirents[f].item)
      ensures !ok ==> VolumeFull(S())
    {
      hide Inv, VolOf, SameFiles, Entries, BytesPerClus;
      ghost var s := S();
      InvVolume(s);
      Shapes(s);
      var c;
      ok, c := vol.AllocClus();
      if !ok {
        return;
      }
      FirstClusterInv(s, f, c);
      var d := dirents[f];
      dirents := dirents[f := Dirent(d.device, d.readOnly, d.directory, c, d.size, c, 0, 1, d.item[0 := c])];
      chains := chains[f := [c]];
      owner := owner[c := (f, 0)];
      assert S() == FirstCluster(s, f, c);
    }

    /** ewrite: data at off, extending the file as needed.  The null device swallows everything; a write past
        4 GB or to a read-only file is refused. */
    method EWrite(f: int, off: nat, data: seq<Byte>) returns (ok: bool, r: int)
      requires Valid() && Exists(S(), f) && off < UINT_LIMIT && |data| < UINT_LIMIT
      modifies this, vol
      ensures old(dirents)[f].device == NullDevice || off + |data| >= UINT_LIMIT || old(dirents)[f].readOnly ==>
                Valid() && S() == old(S())
      ensures old(dirents)[f].device == NullDevice ==> ok && r == |data|
      ensures old(dirents)[f].device != NullDevice && (off + |data| >= UINT_LIMIT || old(dirents)[f].readOnly) ==>
                ok && r == -1
      ensures ok && old(dirents)[f].device != NullDevice && off + |data| < UINT_LIMIT && !old(dirents)[f].readOnly ==>
                && Valid() && r == |data| && WroteAt(old(S()), S(), f, off, data)
                && Enlarged(old(S()), S(), f, off, |data|)
      ensures !ok ==> IndexFull(S(), f) || VolumeFull(S())
    {
      hide Inv, SameFiles, VolOf, DiskOk, WroteAt;
      ghost var s := S();
      var d := dirents[f];
      if d.device == NullDevice {
        return true, |data|;
      }
      if off + |data| >= UINT_LIMIT || d.readOnly {
        return true, -1;
      }
      SameFilesReflexive(s);
      if d.first == 0 {
        ok := OpenFirst(f);
        if !ok {
          return false, -1;
        }
      } else {
        AlreadyOpen(s, f);
      }
      ghost var s1 := S();
      ok := WriteAll(f, off, data);
      if !ok {
        return false, -1;
      }
      ghost var s2 := S();
      OpeningTransitive(s, s1, s2, f);
      SameThenWrote(s, s1, s2, f, off, data);
      if |data| > 0 && off + |data| > dirents[f].size {
        SizeInv(s2, f, off + |data|);
        dirents := dirents[f := dirents[f].(size := off + |data|)];
        assert S() == WithSize(s2, f, off + |data|);
        WroteThenSame(s, s2, S(), f, off, data);
      }
      r := |data|;
    }

    /** ewrite's loop. */
    method WriteAll(f: int, off: nat, data: seq<Byte>) returns (ok: bool)
      requires Valid() && Exists(S(), f) && dirents[f].first != 0
      modifies this, vol
      ensures ok ==> Valid() && WroteAt(old(S()), S(), f, off, data) && Opening(old(S()), S(), f)
      ensures ok && |data| > 0 ==> off + |data| <= |chains[f]| * BytesPerClus(vol.g)
      ensures !ok ==> IndexFull(S(), f) || VolumeFull(S())
    {
      hide Inv, SameFiles, VolOf, DiskOk, WroteAt, BytesPerClus;
      ghost var s := S();
      SameFilesReflexive(s);
      AlreadyOpen(s, f);
      WroteNothing(s, s, f, off);
      var tot := 0;
      while tot < |data|
        invariant 0 <= tot <= |data| && Valid() && WroteAt(s, S(), f, off, data[..tot]) && Opening(s, S(), f)
        invariant tot > 0 ==> off + tot <= |chains[f]| * BytesPerClus(vol.g)
      {
        ghost var s1 := S();
        var m;
        ok, m := WriteStep(f, off + tot, data[tot..]);
        if !ok {
          return;
        }
        assert data[tot..][..m] == data[tot..tot + m];
        OpeningTransitive(s, s1, S(), f);
        SameFilesReflexive(s1);
        WroteMore(s, s1, s1, S(), f, off, data[..tot], data[tot..tot + m]);
        assert data[..tot] + data[tot..tot + m] == data[..tot + m];
        tot := tot + m;
      }
      assert data[..tot] == data;
      ok := true;
    }

    /** One turn of ewrite's loop: the first m bytes of data, all in one cluster, go to P. */
    method WriteStep(f: int, P: nat, data: seq<Byte>) returns (ok: bool, m: nat)
      requires Valid() && Exists(S(), f) && dirents[f].first != 0 && |data| > 0
      modifies this, vol
      ensures ok ==> Valid() && 0 < m <= |data| && WroteAt(old(S()), S(), f, P, data[..m]) && Opening(old(S()), S(), f)
      ensures ok ==> P + m <= |chains[f]| * BytesPerClus(vol.g)
      ensures !ok ==> IndexFull(S(), f) || VolumeFull(S())
    {
      hide Inv, SameFiles, VolOf, DiskOk, WroteAt;
      ghost var s := S();
      m := 0;
      AlreadyOpen(s, f);
      var r;
      ok, r := RelocClus(f, P, true);
      if !ok {
        return;
      }
      ghost var s2 := S();
      OpeningExtended(s, s, s2, f);
      var b := BytesPerClus(vol.g);
      ModBound(P, b);
      m := b - P % b;
      if |data| < m {
        m := |data|;
      }
      WriteChunk(s2, f, P, data[..m]);
      ChunkFits(P, m, b, |chains[f]|);
      WriteCluster(dirents[f].cur, P % b, data[..m]);
      SameThenWrote(s, s2, S(), f, P, data[..m]);
    }

    method WriteCluster(c: int, o: int, chunk: seq<Byte>)
      requires Valid() && IsData(vol.g, c) && 0 <= o && o + |chunk| <= BytesPerClus(vol.g)
      modifies vol
      ensures DiskOk(vol.g, vol.disk) && S() == old(S()).(vol := Written(old(vol.V()), c, o, chunk))
    {
      hide IndexOk, BlocksOk, ChainOk, StoreShape, VolOf;
      vol.WriteClus(c, o, chunk);
    }

    /** inodeFree; clearing a bit that is not set is an assertion failure. */
    method InodeFree(x: int) returns (ok: bool)
      requires |ibits| == INODES && 0 <= x < INODES
      modifies this`ibits
      ensures ok == old(ibits)[x] && ibits == if ok then old(ibits)[x := false] else old(ibits)
    {
      ok := ibits[x];
      if ok {
        ibits := ibits[x := false];
      }
    }

    /** eFreeInode's loop over the second-level blocks. */
    method FreeMids(f: int) returns (ok: bool, ghost done: set<Block>)
      requires Exists(S(), f) && StoreShape(S()) && BlocksOk(S(), f)
      modifies this`ibits
      ensures ok && Clearing(old(S()), ibits, f, done) && |ibits| == INODES
      ensures forall b: Block :: b in done <==> b.MidBlock? && Frees(dirents[f].max, b)
    {
      hide BlocksOk, BlockId, Clearing, VolOf;
      ghost var s := S();
      var max, item := dirents[f].max, dirents[f].item;
      NothingCleared(s, f);
      ok, done := true, {};
      var i := SECOND_ITEM;
      while i < THIRD_ITEM && max > SECOND_BOTTOM + (i - SECOND_ITEM) * ITEMS
        invariant SECOND_ITEM <= i <= THIRD_ITEM && ok && Clearing(s, ibits, f, done) && |ibits| == INODES
        invariant forall b :: b in done <==> b.MidBlock? && SECOND_ITEM <= b.i < i
        invariant i > SECOND_ITEM ==> max > SECOND_BOTTOM + (i - 1 - SECOND_ITEM) * ITEMS
      {
        ClearOne(s, ibits, f, done, MidBlock(i));
        BlockWord(s, f, i, 0);
        ok := InodeFree(item[i]);
        done := done + {MidBlock(i)};
        i := i + 1;
      }
    }

    /** Its inner loop: the blocks below third-level word i. */
    method FreeLows(ghost s: Store, f: int, i: int, ghost before: set<Block>) returns (ok: bool, ghost done: set<Block>)
      requires Exists(s, f) && StoreShape(s) && BlocksOk(s, f) && S() == s.(ibits := ibits)
      requires THIRD_ITEM <= i < ITEMS && dirents[f].max > ThirdBase(i) && |ibits| == INODES
      requires Clearing(s, ibits, f, before)
      requires forall b: Block :: b in before && !b.MidBlock? ==> b.i < i
      modifies this`ibits
      ensures ok && Clearing(s, ibits, f, done) && |ibits| == INODES
      ensures forall b: Block :: b in done <==> b in before || (b.LowBlock? && b.i == i && Frees(dirents[f].max, b))
    {
      hide BlocksOk, BlockId, Clearing, VolOf;
      var max, item := dirents[f].max, dirents[f].item;
      ok, done := true, before;
      var j := 0;
      while j < ITEMS && max > ThirdBase(i) + j * ITEMS
        invariant 0 <= j <= ITEMS && ok && Clearing(s, ibits, f, done) && |ibits| == INODES
        invariant forall b :: b in done <==> b in before || (b.LowBlock? && b.i == i && 0 <= b.j < j)
        invariant j > 0 ==> max > ThirdBase(i) + (j - 1) * ITEMS
      {
        ClearOne(s, ibits, f, done, LowBlock(i, j));
        FreedHome(s, f, i);
        BlockWord(s, f, i, j);
        ok := InodeFree(inodes[item[i]][j]);
        done := done + {LowBlock(i, j)};
        j := j + 1;
      }
    }

    /** eFreeInode: the file's index blocks that the code finds go back, each once and none of another file. */
    method EFreeInode(f: int) returns (ok: bool)
      requires Exists(S(), f) && StoreShape(S()) && BlocksOk(S(), f)
      modifies this`ibits, this`dirents
      ensures ok && BlocksCleared(old(S()), ibits, f)
      ensures dirents == old(dirents)[f := old(dirents)[f].(max := 0)]
    {
      hide BlocksOk, BlockId, Clearing, BlocksCleared, VolOf;
      ghost var s := S();
      var max, item := dirents[f].max, dirents[f].item;
      ghost var done;
      ok, done := FreeMids(f);
      var i := THIRD_ITEM;
      while i < ITEMS && max > ThirdBase(i)
        invariant THIRD_ITEM <= i <= ITEMS && ok && Clearing(s, ibits, f, done) && |ibits| == INODES
        invariant dirents == s.dirents
        invariant forall b: Block :: b.MidBlock? ==> (b in done <==> Frees(max, b))
        invariant forall b: Block :: !b.MidBlock? ==> (b in done <==> Frees(max, b) && b.i < i)
        invariant i > THIRD_ITEM ==> max > ThirdBase(i - 1)
      {
        ok, done := FreeLows(s, f, i, done);
        ClearOne(s, ibits, f, done, TopBlock(i));
        BlockWord(s, f, i, 0);
        ok := InodeFree(item[i]);
        done := done + {TopBlock(i)};
        i := i + 1;
      }
      ClearedAll(s, ibits, f, done);
      dirents := dirents[f := dirents[f].(max := 0)];
    }

    /** etrunc */
    method ETrunc(f: int) returns (ok: bool)
      requires Valid() && Exists(S(), f)
      modifies this, vol
      ensures ok && Valid() && Truncated(old(S()), S(), f)
    {
      hide Inv, VolOf, DiskOk, Released, BlocksCleared, BlocksOk;
      ghost var s := S();
      ghost var k := 0;
      Shapes(s);
      InvVolume(s);
      ReleasedNone(s, f);
      var clus := dirents[f].first;
      while 2 <= clus < EOC
        invariant vol.Valid() && 0 <= k <= |s.chains[f]| && Released(s.vol, vol.V(), s.chains[f], k)
        invariant if k < |s.chains[f]| then clus == s.chains[f][k] else clus == 0 || clus >= EOC
        invariant dirents == s.dirents && inodes == s.inodes && ibits == s.ibits
        invariant chains == s.chains && owner == s.owner && keeper == s.keeper
        decreases |s.chains[f]| - k
      {
        StillLinked(s, vol.V(), f, k);
        var next := vol.ReadFat(clus);
        ReleaseOne(s.vol, vol.V(), s.chains[f], k);
        vol.FreeClus(clus);
        clus := next;
        k := k + 1;
      }
      if k < |s.chains[f]| {
        OnlyDataLeft(s, f, k);
      }
      dirents := dirents[f := dirents[f].(first := 0, size := 0)];
      chains := chains[f := []];
      ghost var s1 := S();
      SameIndexBlocks(s, s1, f);
      ok := EFreeInode(f);
      SameIndexCleared(s, s1, ibits, f);
      EmptiedInv(s, S(), f, |s.chains[f]|, dirents[f]);
    }

    /** ealloc, on the entry direntAlloc gave it: an empty file, or a directory of one cluster.  Clusters that the entry
        still has are not freed. */
    method EAlloc(f: int, readOnly: bool, directory: bool) returns (ok: bool)
      requires Valid() && Exists(S(), f)
      modifies this, vol
      ensures ok ==> Valid() && TailZero(S(), f) && Created(old(S()), S(), f, readOnly, directory)
      ensures ok ==> dirents[f].cur == dirents[f].first && dirents[f].cnt == 0
      ensures !directory ==> ok && forall c :: Lost(S(), c) <==> Lost(old(S()), c) || c in old(chains)[f]
      ensures !ok ==> VolumeFull(S())
    {
      hide Inv, SameFiles, VolOf, DiskOk, TailZero, BlocksOk, BlocksCleared, Lost, VolumeFull, Created;
      ghost var s := S();
      Shapes(s);
      InvVolume(s);
      var d := dirents[f];
      dirents := dirents[f := Dirent(d.device, readOnly, directory, 0, 0, 0, 0, d.max, d.item)];
      chains := chains[f := []];
      ghost var s1 := S();
      SameIndexBlocks(s, s1, f);
      ok := EFreeInode(f);
      SameIndexCleared(s, s1, ibits, f);
      ghost var s2 := S();
      ReleasedNone(s, f);
      EmptiedInv(s, s2, f, 0, dirents[f]);
      EmptiedRefines(s, s2, f, 0, dirents[f]);
      if !directory {
        EmptiedCreated(s, s2, f);
        forall c ensures Lost(S(), c) <==> Lost(s, c) || c in s.chains[f] {
          ReuseLoses(s, s2, f, dirents[f], c);
        }
      } else {
        ok := OpenFirst(f);
        if ok {
          OpenedCreated(s, s2, S(), f);
          SameTail(s2, S(), f);
        }
      }
    }

    /** Any run of eread, ewrite, etrunc and ealloc calls: every byte of every file, and every answer to a read, is what
        the same calls make of plain arrays of bytes. */
    method Run(qs: seq<Request>) returns (ok: bool, got: seq<seq<Byte>>)
      requires Valid() && forall i :: 0 <= i < |qs| ==> Proper(S(), qs[i])
      modifies this, vol
      ensures ok ==> Valid() && Replayed(old(S()), S(), qs)
      ensures ok ==> |got| == |qs| && forall i :: 0 <= i < |qs| ==> Answered(old(S()), qs[..i], qs[i], got[i])
      ensures !ok ==> VolumeFull(S()) || exists i :: 0 <= i < |qs| && IndexFull(S(), qs[i].f)
    {
      hide Inv, VolOf, DiskOk, Replay, CellOf, IndexFull, VolumeFull, Answered;
      ghost var s := S();
      got := [];
      NoCalls(s);
      assert qs[..0] == [];
      for i := 0 to |qs|
        invariant Valid() && Replayed(s, S(), qs[..i])
        invariant |got| == i && forall k :: 0 <= k < i ==> Answered(s, qs[..k], qs[k], got[k])
      {
        ghost var s1 := S();
        assert Proper(s, qs[i]);
        var data;
        ok, data := Serve(qs[i]);
        if !ok {
          return;
        }
        AnsweredLater(s, s1, qs[..i], qs[i], data);
        ReplayedMore(s, s1, S(), qs[..i], qs[i]);
        assert qs[..i + 1] == qs[..i] + [qs[i]];
        got := got + [data];
      }
      assert qs[..|qs|] == qs;
      ok := true;
    }

    method Serve(q: Request) returns (ok: bool, data: seq<Byte>)
      requires Valid() && Proper(S(), q)
      modifies this, vol
      ensures ok ==> Valid() && Served(old(S()), S(), q) && Answered(old(S()), [], q, data)
      ensures !ok ==> VolumeFull(S()) || IndexFull(S(), q.f)
    {
      hide Inv, VolOf, DiskOk, SameFiles, WroteAt, Truncated, IndexFull, VolumeFull, Served, Created, ReadResult, Raw;
      ghost var s := S();
      data := [];
      match q
      case ToRead(f, off, n) =>
        ok, data := ERead(f, off, n);
        if ok {
          ServedRead(s, S(), f, off, n);
          ReadAnswered(s, f, off, n);
        }
      case ToWrite(f, off, bytes) =>
        var r;
        ok, r := EWrite(f, off, bytes);
        if Idle(CellOf(s, f, 0).meta, off, bytes) {
          ServedIdle(s, f, off, bytes);
        } else if ok {
          ServedWrite(s, S(), f, off, bytes);
        }
      case ToTruncate(f) =>
        ok := ETrunc(f);
        ServedTruncate(s, S(), f);
      case ToCreate(f, readOnly, directory) =>
        ok := EAlloc(f, readOnly, directory);
        if ok {
          ServedCreate(s, S(), f, readOnly, directory);
        }
    }
  }

  lemma NoCalls(s: Store)
    ensures Replayed(s, s, [])
  {
  }

  lemma EmptiedCreated(s: Store, s': Store, f: int)
    requires Exists(s, f) && Exists(s', f) && Emptied(s, s', f, 0, s'.dirents[f])
    requires s'.dirents[f].device == s.dirents[f].device
    requires forall e, p: nat :: Exists(s, e) ==> Raw(s', e, p) == if e == f then 0 else Raw(s, e, p)
    ensures !s'.dirents[f].directory ==> Created(s, s', f, s'.dirents[f].readOnly, false)
  {
    hide Raw, Released, BlocksCleared;
  }

  lemma OpenedCreated(s: Store, s1: Store, s2: Store, f: int)
    requires Exists(s, f) && Exists(s1, f) && Emptied(s, s1, f, 0, s1.dirents[f])
    requires forall e, p: nat :: Exists(s, e) ==> Raw(s1, e, p) == if e == f then 0 else Raw(s, e, p)
    requires s1.dirents[f].device == s.dirents[f].device && s1.dirents[f].directory
    requires SameFiles(s1, s2) && Opening(s1, s2, f) && |s2.chains[f]| == 1
    ensures Created(s, s2, f, s1.dirents[f].readOnly, true)
  {
    hide Raw, Released, BlocksCleared;
  }
}
