/**
 Files over a FAT volume.  Each file is a chain of clusters through the FAT, an
 index that must agree with the chain, and a size; `Raw` is the file as an
 unbounded array of bytes, zero past its last cluster.
 */
module Files {
  import opened Bytes
  import opened FatVolume
  import opened FileIndex

  datatype Device = Ordinary | ZeroDevice | OsRelease | NullDevice

  /** The fields of a Dirent that reading and writing use. */
  datatype Dirent = Dirent(device: Device, readOnly: bool, directory: bool, first: nat, size: nat,
                           cur: nat, cnt: int, max: nat, item: seq<nat>)

  /** `chains` lists the clusters of each file; `owner` and `keeper` say which file
      and which position a cluster or an index block belongs to. */
  datatype Store = Store(g: Geometry, vol: Vol, dirents: seq<Dirent>, inodes: seq<seq<nat>>, ibits: seq<bool>,
                         chains: seq<seq<nat>>, owner: map<nat, (int, int)>, keeper: map<nat, (int, Block)>)

  // ---------- the invariant ----------

  ghost predicate StoreShape(s: Store) {
    && |s.chains| == |s.dirents|
    && |s.inodes| == |s.ibits| == INODES
    && (forall b :: 0 <= b < INODES ==> |s.inodes[b]| == ITEMS)
    && (forall f :: 0 <= f < |s.dirents| ==>
          |s.dirents[f].item| == ITEMS && s.dirents[f].max <= THIRD_TOP && s.dirents[f].cur < EOC)
  }

  ghost predicate Linked(fat: seq<nat>, ch: seq<nat>) {
    && (forall k :: 0 <= k < |ch| ==> 0 <= ch[k] < |fat|)
    && (forall k :: 0 <= k < |ch| - 1 ==> fat[ch[k]] == ch[k + 1])
    && (ch != [] ==> fat[ch[|ch| - 1]] >= EOC)
  }

  ghost predicate ChainOk(s: Store, f: int)
    requires 0 <= f < |s.dirents| == |s.chains|
  {
    var d, ch := s.dirents[f], s.chains[f];
    && (ch == [] <==> d.first == 0)
    && (ch == [] ==> d.max <= 1 && d.size == 0)
    && (ch != [] ==> ch[0] == d.first && 1 <= d.max <= |ch|)
    && Linked(s.vol.fat, ch)
    && (forall k :: 0 <= k < |ch| ==> IsData(s.g, ch[k]) && ch[k] in s.owner && s.owner[ch[k]] == (f, k))
    && d.size <= |ch| * BytesPerClus(s.g)
  }

  /** The index gives the pos-th cluster of the chain. */
  ghost predicate IndexOk(s: Store, f: int)
    requires 0 <= f < |s.dirents| == |s.chains|
  {
    forall pos :: 0 <= pos < s.dirents[f].max && pos < |s.chains[f]| ==>
      Read(s.dirents[f].item, s.inodes, PlaceOf(pos)) == s.chains[f][pos]
  }

  ghost predicate BlocksOk(s: Store, f: int)
    requires 0 <= f < |s.dirents| == |s.chains| && |s.ibits| == INODES
  {
    forall b :: InUse(s.dirents[f].max, b) ==> BlockKept(s, f, b)
  }

  ghost predicate BlockKept(s: Store, f: int, b: Block)
    requires 0 <= f < |s.dirents| && |s.ibits| == INODES
  {
    var id := BlockId(s.dirents[f].item, s.inodes, b);
    id < INODES && s.ibits[id] && id in s.keeper && s.keeper[id] == (f, b)
  }

  ghost predicate Inv(s: Store) {
    && VolInv(s.g, s.vol) && StoreShape(s)
    && (forall f :: 0 <= f < |s.dirents| ==> ChainOk(s, f))
    && (forall f :: 0 <= f < |s.dirents| ==> IndexOk(s, f) && BlocksOk(s, f))
  }

  // ---------- the byte view ----------

  function RawAt(data: seq<seq<Byte>>, ch: seq<nat>, size: nat, p: nat): Byte
    requires size > 0
  {
    var k, o := p / size, p % size;
    if k < |ch| && ch[k] < |data| && o < |data[ch[k]]| then data[ch[k]][o] else 0
  }

  ghost function Raw(s: Store, f: int, p: nat): Byte {
    if 0 <= f < |s.chains| && BytesPerClus(s.g) > 0 then RawAt(s.vol.data, s.chains[f], BytesPerClus(s.g), p) else 0
  }

  ghost predicate SameFiles(s: Store, s': Store) {
    && |s'.dirents| == |s.dirents| && s'.g == s.g
    && forall f, p: nat :: 0 <= f < |s.dirents| ==> Raw(s', f, p) == Raw(s, f, p)
  }

  // ---------- clusters in a chain are in use ----------

  lemma ChainUsed(s: Store, f: int, k: int)
    requires Inv(s) && 0 <= f < |s.dirents| && 0 <= k < |s.chains[f]|
    ensures s.chains[f][k] < |s.vol.fat| && s.chains[f][k] < |s.vol.data| && s.vol.fat[s.chains[f][k]] != 0
  {
    assert ChainOk(s, f);
    if k < |s.chains[f]| - 1 {
      assert IsData(s.g, s.chains[f][k + 1]);
    }
  }

  lemma FreeInNoChain(s: Store, c: int)
    requires Inv(s) && IsData(s.g, c) && s.vol.fat[c] == 0
    ensures forall f, k :: 0 <= f < |s.dirents| && 0 <= k < |s.chains[f]| ==> s.chains[f][k] != c
  {
    forall f, k | 0 <= f < |s.dirents| && 0 <= k < |s.chains[f]| ensures s.chains[f][k] != c {
      ChainUsed(s, f, k);
    }
  }

  // ---------- a chain grows by a fresh cluster ----------

  ghost function GrowChain(s: Store, f: int, c: int): Store
    requires 0 <= f < |s.chains| && |s.chains[f]| > 0 && s.chains[f][|s.chains[f]| - 1] < |s.vol.fat|
    requires 0 <= c < |s.vol.fat| && c < |s.vol.data| && c < |s.vol.used|
  {
    var ch := s.chains[f];
    var v := Allocated(s.vol, s.g, c);
    Store(s.g, Vol(v.fat[ch[|ch| - 1] := c], v.data, v.used), s.dirents, s.inodes, s.ibits,
          s.chains[f := ch + [c]], s.owner[c := (f, |ch|)], s.keeper)
  }

  lemma GrowChainOk(s: Store, f: int, c: int, e: int)
    requires Inv(s) && 0 <= f < |s.dirents| && s.chains[f] != [] && IsData(s.g, c) && s.vol.fat[c] == 0
    requires 0 <= e < |s.dirents|
    ensures s.chains[f][|s.chains[f]| - 1] < |s.vol.fat| && c < |s.vol.data|
    ensures ChainOk(GrowChain(s, f, c), e) && IndexOk(GrowChain(s, f, c), e) && BlocksOk(GrowChain(s, f, c), e)
  {
    assert ChainOk(s, f);
    GrowChainLinks(s, f, c, e);
    GrowChainIndex(s, f, c, e);
  }

  lemma GrowChainLinks(s: Store, f: int, c: int, e: int)
    requires Inv(s) && 0 <= f < |s.dirents| && s.chains[f] != [] && IsData(s.g, c) && s.vol.fat[c] == 0
    requires 0 <= e < |s.dirents| && s.chains[f][|s.chains[f]| - 1] < |s.vol.fat|
    ensures ChainOk(GrowChain(s, f, c), e)
  {
    hide IndexOk, BlocksOk;
    assert ChainOk(s, f) && ChainOk(s, e);
    FreeInNoChain(s, c);
    var last := s.chains[f][|s.chains[f]| - 1];
    assert e != f ==> forall k :: 0 <= k < |s.chains[e]| ==> s.chains[e][k] != last;
    assert forall k :: 0 <= k < |s.chains[f]| - 1 ==> s.chains[f][k] != last;
    Longer(|s.chains[f]|, BytesPerClus(s.g));
  }

  lemma GrowChainIndex(s: Store, f: int, c: int, e: int)
    requires Inv(s) && 0 <= f < |s.dirents| && s.chains[f] != [] && IsData(s.g, c)
    requires 0 <= e < |s.dirents| && s.chains[f][|s.chains[f]| - 1] < |s.vol.fat|
    requires c < |s.vol.fat| && c < |s.vol.data| && c < |s.vol.used|
    ensures IndexOk(GrowChain(s, f, c), e) && BlocksOk(GrowChain(s, f, c), e)
  {
    hide Linked, Read, PlaceOf, InUse, BlockId, VolInv;
    assert ChainOk(s, e) && IndexOk(s, e) && BlocksOk(s, e);
    var s' := GrowChain(s, f, c);
    forall b | InUse(s'.dirents[e].max, b) ensures BlockKept(s', e, b) {
      assert BlockKept(s, e, b);
    }
  }

  lemma Longer(n: nat, b: nat)
    ensures (n + 1) * b == n * b + b && n * b <= (n + 1) * b
  {
  }

  lemma GrowChainInv(s: Store, f: int, c: int)
    requires Inv(s) && 0 <= f < |s.dirents| && s.chains[f] != [] && IsData(s.g, c) && s.vol.fat[c] == 0
    ensures s.chains[f][|s.chains[f]| - 1] < |s.vol.fat|
    ensures Inv(GrowChain(s, f, c)) && SameFiles(s, GrowChain(s, f, c))
  {
    hide IndexOk, BlocksOk;
    assert ChainOk(s, f);
    AllocatedInv(s.g, s.vol, c);
    var s' := GrowChain(s, f, c);
    LinkInv(s.g, Allocated(s.vol, s.g, c), s.chains[f][|s.chains[f]| - 1], c);
    forall e | 0 <= e < |s.dirents| ensures ChainOk(s', e) && IndexOk(s', e) && BlocksOk(s', e) {
      GrowChainOk(s, f, c, e);
    }
    GrowChainRaw(s, f, c);
  }

  lemma LinkInv(g: Geometry, v: Vol, a: int, c: int)
    requires VolInv(g, v) && IsData(g, a) && IsData(g, c) && v.fat[a] != 0 && c < ENTRY_LIMIT
    ensures VolInv(g, Vol(v.fat[a := c], v.data, v.used))
  {
  }

  lemma GrowChainRaw(s: Store, f: int, c: int)
    requires Inv(s) && 0 <= f < |s.dirents| && s.chains[f] != [] && IsData(s.g, c) && s.vol.fat[c] == 0
    requires s.chains[f][|s.chains[f]| - 1] < |s.vol.fat|
    ensures SameFiles(s, GrowChain(s, f, c))
  {
    hide IndexOk, BlocksOk, ChainOk;
    FreeInNoChain(s, c);
    var s' := GrowChain(s, f, c);
    var b := BytesPerClus(s.g);
    forall e, p: nat | 0 <= e < |s.dirents| ensures Raw(s', e, p) == Raw(s, e, p) {
      if b > 0 {
        ModBound(p, b);
        var k := p / b;
        if k < |s.chains[e]| {
          assert s.chains[e][k] != c;
          assert s'.chains[e][k] == s.chains[e][k];
        }
      }
    }
  }

  lemma ModBound(p: nat, b: nat)
    requires b > 0
    ensures 0 <= p % b < b && p == p / b * b + p % b && p / b >= 0
  {
  }

  // ---------- the next cluster of a chain enters the index ----------

  ghost predicate Exists(s: Store, f: int) { 0 <= f < |s.dirents| }

  ghost function IdOf(s: Store, e: int, b: Block): nat
    requires Exists(s, e)
  {
    BlockId(s.dirents[e].item, s.inodes, b)
  }

  lemma Kept(s: Store, e: int, b: Block)
    requires Inv(s) && Exists(s, e) && InUse(s.dirents[e].max, b)
    ensures BlockKept(s, e, b)
    ensures b.LowBlock? ==> InUse(s.dirents[e].max, TopBlock(b.i)) && BlockKept(s, e, TopBlock(b.i))
  {
    assert BlocksOk(s, e);
  }

  /** No file reaches index block x. */
  ghost predicate Unreached(s: Store, x: int) {
    forall e, b :: Exists(s, e) && InUse(s.dirents[e].max, b) ==> IdOf(s, e, b) != x
  }

  lemma FreeIsUnreached(s: Store, x: int)
    requires Inv(s) && 0 <= x < INODES && !s.ibits[x]
    ensures Unreached(s, x)
  {
    forall e, b | Exists(s, e) && InUse(s.dirents[e].max, b) ensures IdOf(s, e, b) != x {
      Kept(s, e, b);
    }
  }

  /** No file's index uses word j of block y. */
  ghost predicate Unused(s: Store, y: int, j: int) {
    && (forall e, pos :: Exists(s, e) && 0 <= pos < s.dirents[e].max ==> AvoidsPlace(s, y, j, e, PlaceOf(pos)))
    && (forall e, i, k :: Exists(s, e) && InUse(s.dirents[e].max, LowBlock(i, k)) ==>
         !(IdOf(s, e, TopBlock(i)) == y && k == j))
  }

  ghost predicate AvoidsPlace(s: Store, y: int, j: int, e: int, p: Place)
    requires Exists(s, e)
  {
    match p
    case Direct(_) => true
    case Mid(i, k) => !(IdOf(s, e, MidBlock(i)) == y && k == j)
    case Low(i, k, l) => !(IdOf(s, e, TopBlock(i)) == y && k == j) && !(IdOf(s, e, LowBlock(i, k)) == y && l == j)
  }

  lemma UnreachedIsUnused(s: Store, x: int, j: int)
    requires Inv(s) && Unreached(s, x)
    ensures Unused(s, x, j)
  {
    hide PlaceOf, BlockId;
    forall e, pos | Exists(s, e) && 0 <= pos < s.dirents[e].max ensures AvoidsPlace(s, x, j, e, PlaceOf(pos)) {
      assert StoreShape(s);
      PlaceInUse(pos, s.dirents[e].max);
    }
    forall e, i, k | Exists(s, e) && InUse(s.dirents[e].max, LowBlock(i, k)) ensures IdOf(s, e, TopBlock(i)) != x {
      Kept(s, e, LowBlock(i, k));
    }
  }

  /** The word that position max needs in a block the file already has. */
  lemma NextIsUnused(s: Store, f: int, home: Block, j: int)
    requires Inv(s) && Exists(s, f) && InUse(s.dirents[f].max, home) && s.dirents[f].max < THIRD_TOP
    requires var p := PlaceOf(s.dirents[f].max);
             || (p.Mid? && home == MidBlock(p.i) && j == p.j)
             || (p.Low? && home == LowBlock(p.i, p.j) && j == p.k)
             || (p.Low? && p.k == 0 && home == TopBlock(p.i) && j == p.j)
    ensures Unused(s, IdOf(s, f, home), j)
  {
    var y, max := IdOf(s, f, home), s.dirents[f].max;
    Kept(s, f, home);
    hide BlockId;
    forall e, pos | Exists(s, e) && 0 <= pos < s.dirents[e].max ensures AvoidsPlace(s, y, j, e, PlaceOf(pos)) {
      assert StoreShape(s);
      PlaceInUse(pos, s.dirents[e].max);
      var p := PlaceOf(pos);
      if !p.Direct? { Kept(s, e, HomeOf(p)); }
      PlacesDistinct(pos, max);
      SameTop(pos, max);
    }
    forall e, i, k | Exists(s, e) && InUse(s.dirents[e].max, LowBlock(i, k))
      ensures !(IdOf(s, e, TopBlock(i)) == y && k == j)
    {
      Kept(s, e, LowBlock(i, k));
      NewBlocks(max, LowBlock(i, k));
    }
  }

  /** A position before max cannot lie in a low block that only max opens. */
  lemma SameTop(pos: int, max: int)
    requires 0 <= pos && 0 <= max < THIRD_TOP
    ensures var p, q := PlaceOf(pos), PlaceOf(max);
            pos < max && q.Low? && q.k == 0 && p.Low? ==> !(p.i == q.i && p.j == q.j)
  {
  }

  function PutInode(inodes: seq<seq<nat>>, b: int, j: int, v: nat): (r: seq<seq<nat>>)
    requires 0 <= b < |inodes| && 0 <= j < |inodes[b]|
    ensures |r| == |inodes| && forall x :: 0 <= x < |r| ==> |r[x]| == |inodes[x]|
    ensures forall x, k :: InodeAt(r, x, k) == if x == b && k == j then v else InodeAt(inodes, x, k)
  {
    var row: seq<nat> := inodes[b][j := v];
    inodes[b := row]
  }

  /** Writing an unused word. */
  lemma PutWord(s: Store, y: int, j: int, v: nat)
    requires Inv(s) && 0 <= y < INODES && 0 <= j < ITEMS && Unused(s, y, j)
    ensures var s' := s.(inodes := PutInode(s.inodes, y, j, v)); Inv(s') && SameFiles(s, s')
  {
    hide Linked, PlaceOf, InUse;
    var s' := s.(inodes := PutInode(s.inodes, y, j, v));
    forall e | Exists(s, e) ensures ChainOk(s', e) && IndexOk(s', e) && BlocksOk(s', e) {
      assert ChainOk(s, e) && IndexOk(s, e) && BlocksOk(s, e);
      forall pos | 0 <= pos < s.dirents[e].max && pos < |s.chains[e]|
        ensures Read(s'.dirents[e].item, s'.inodes, PlaceOf(pos)) == s.chains[e][pos]
      {
        assert AvoidsPlace(s, y, j, e, PlaceOf(pos));
      }
      forall b | InUse(s.dirents[e].max, b) ensures BlockKept(s', e, b) {
        assert BlockKept(s, e, b);
        assert b.LowBlock? ==> !(IdOf(s, e, TopBlock(b.i)) == y && b.j == j);
      }
    }
  }

  /** inodeAlloc's effect: bit x is set, and x is meant for block b of file f. */
  lemma Reserve(s: Store, f: int, b: Block, x: int)
    requires Inv(s) && 0 <= x < INODES && Unreached(s, x)
    ensures var s' := s.(ibits := s.ibits[x := true], keeper := s.keeper[x := (f, b)]); Inv(s') && SameFiles(s, s')
  {
    hide Linked, PlaceOf, InUse, Read, BlockId;
    var s' := s.(ibits := s.ibits[x := true], keeper := s.keeper[x := (f, b)]);
    forall e | Exists(s, e) ensures ChainOk(s', e) && IndexOk(s', e) && BlocksOk(s', e) {
      assert ChainOk(s, e) && IndexOk(s, e) && BlocksOk(s, e);
      forall c | InUse(s.dirents[e].max, c) ensures BlockKept(s', e, c) {
        assert BlockKept(s, e, c) && IdOf(s, e, c) != x;
      }
    }
  }

  ghost function PutItem(s: Store, f: int, i: int, v: nat): Store
    requires Exists(s, f) && 0 <= i < |s.dirents[f].item|
  {
    var d := s.dirents[f];
    s.(dirents := s.dirents[f := d.(item := d.item[i := v])])
  }

  /** Writing a word of the entry that no indexed position uses. */
  lemma PutItemInv(s: Store, f: int, i: int, v: nat)
    requires Inv(s) && Exists(s, f) && 1 <= i < ITEMS
    requires FreshItem(s.dirents[f].max, i)
    ensures i < |s.dirents[f].item| && Inv(PutItem(s, f, i, v)) && SameFiles(s, PutItem(s, f, i, v))
    ensures forall x :: Unreached(s, x) ==> Unreached(PutItem(s, f, i, v), x)
  {
    hide Linked, PlaceOf, InUse;
    var s' := PutItem(s, f, i, v);
    forall e | Exists(s, e) ensures ChainOk(s', e) && IndexOk(s', e) && BlocksOk(s', e) {
      assert ChainOk(s, e) && IndexOk(s, e) && BlocksOk(s, e);
      forall pos | 0 <= pos < s.dirents[e].max && pos < |s.chains[e]|
        ensures Read(s'.dirents[e].item, s'.inodes, PlaceOf(pos)) == s.chains[e][pos]
      {
      }
      forall b | InUse(s.dirents[e].max, b) ensures BlockKept(s', e, b) {
        assert BlockKept(s, e, b);
      }
    }
  }

  ghost function NextIndexed(s: Store, f: int): Store
    requires Exists(s, f)
  {
    var d := s.dirents[f];
    s.(dirents := s.dirents[f := d.(max := d.max + 1)])
  }

  /** inodeMaxCluster++, once the words are in place. */
  lemma NextIndexedInv(s: Store, f: int)
    requires Inv(s) && Exists(s, f) && 1 <= s.dirents[f].max < |s.chains[f]| && s.dirents[f].max < THIRD_TOP
    requires Read(s.dirents[f].item, s.inodes, PlaceOf(s.dirents[f].max)) == s.chains[f][s.dirents[f].max]
    requires forall b :: InUse(s.dirents[f].max + 1, b) && !InUse(s.dirents[f].max, b) ==> BlockKept(s, f, b)
    ensures Inv(NextIndexed(s, f)) && SameFiles(s, NextIndexed(s, f))
  {
    hide Linked, PlaceOf, InUse, Read, BlockId;
    var s' := NextIndexed(s, f);
    forall e | Exists(s, e) ensures ChainOk(s', e) && IndexOk(s', e) && BlocksOk(s', e) {
      assert ChainOk(s, e) && IndexOk(s, e) && BlocksOk(s, e);
      forall b | InUse(s'.dirents[e].max, b) ensures BlockKept(s', e, b) {
        assert InUse(s.dirents[e].max, b) ==> BlockKept(s, e, b);
      }
    }
  }

  /** One more position is indexed; nothing else about any file has changed. */
  ghost predicate IndexGrown(s: Store, s': Store, f: int) {
    && s'.g == s.g && s'.vol == s.vol && s'.chains == s.chains && s'.owner == s.owner && |s'.dirents| == |s.dirents|
    && (forall e :: 0 <= e < |s.dirents| && e != f ==> s'.dirents[e] == s.dirents[e])
    && (Exists(s, f) ==> s'.dirents[f] == s.dirents[f].(max := s.dirents[f].max + 1, item := s'.dirents[f].item))
  }

  lemma Shapes(s: Store)
    requires Inv(s)
    ensures StoreShape(s)
  {
  }

  lemma SameFilesTransitive(s: Store, s1: Store, s2: Store)
    requires SameFiles(s, s1) && SameFiles(s1, s2)
    ensures SameFiles(s, s2)
  {
  }

  lemma NowUnreached(s: Store, s': Store, x: int)
    requires Inv(s) && 0 <= x < |s.ibits| && !s.ibits[x]
    requires s'.dirents == s.dirents && s'.inodes == s.inodes
    ensures Unreached(s', x)
  {
    FreeIsUnreached(s, x);
  }

  lemma StillUnused(s: Store, s': Store, y: int, j: int)
    requires Unused(s, y, j) && s'.dirents == s.dirents && s'.inodes == s.inodes
    ensures Unused(s', y, j)
  {
    hide PlaceOf, InUse;
    forall e, pos | Exists(s, e) && 0 <= pos < s.dirents[e].max ensures AvoidsPlace(s', y, j, e, PlaceOf(pos)) {
      assert AvoidsPlace(s, y, j, e, PlaceOf(pos));
    }
  }

  /** Writing an unused word leaves an unreached block unreached. */
  lemma WordKeepsUnreached(s: Store, s': Store, y: int, j: int, x: nat)
    requires Inv(s) && Unused(s, y, j) && Unreached(s, x) && 0 <= y < |s.inodes| && 0 <= j < |s.inodes[y]|
    requires s' == s.(inodes := PutInode(s.inodes, y, j, x))
    ensures Unreached(s', x)
  {
    hide PlaceOf, InUse;
    forall e, b | Exists(s, e) && InUse(s.dirents[e].max, b) ensures IdOf(s', e, b) == IdOf(s, e, b) {
      if b.LowBlock? {
        assert InUse(s.dirents[e].max, LowBlock(b.i, b.j));
        assert !(IdOf(s, e, TopBlock(b.i)) == y && b.j == j);
      }
    }
  }

  lemma SameFilesReflexive(s: Store)
    ensures SameFiles(s, s)
  {
  }

  lemma PlaceRange(pos: int)
    requires 0 <= pos < THIRD_TOP
    ensures var p := PlaceOf(pos);
            p.Low? ==> THIRD_ITEM <= p.i < ITEMS && 0 <= p.j < ITEMS && 0 <= p.k < ITEMS
  {
  }

  /** Filling a word of a low block leaves the block of blocks above it as it was. */
  lemma TopStays(s: Store, f: int, i: int, j: int, k: int, v: nat)
    requires Inv(s) && Exists(s, f) && InUse(s.dirents[f].max, TopBlock(i)) && InUse(s.dirents[f].max, LowBlock(i, j))
    requires 0 <= k < ITEMS
    ensures var y := IdOf(s, f, LowBlock(i, j));
            && y < |s.inodes| && k < |s.inodes[y]|
            && var n := PutInode(s.inodes, y, k, v);
               && InodeAt(n, ItemAt(s.dirents[f].item, i), j) == y && InodeAt(n, y, k) == v
  {
    Kept(s, f, TopBlock(i));
    Kept(s, f, LowBlock(i, j));
  }

  // ---------- moving the cursor ----------

  ghost function WithCursor(s: Store, f: int, cur: nat, cnt: int): Store
    requires Exists(s, f)
  {
    s.(dirents := s.dirents[f := s.dirents[f].(cur := cur, cnt := cnt)])
  }

  lemma CursorInv(s: Store, f: int, cur: nat, cnt: int)
    requires Inv(s) && Exists(s, f) && cur < EOC
    ensures Inv(WithCursor(s, f, cur, cnt)) && SameFiles(s, WithCursor(s, f, cur, cnt))
  {
    hide Linked, PlaceOf, InUse, Read, BlockId;
    var s' := WithCursor(s, f, cur, cnt);
    forall e | Exists(s, e) ensures ChainOk(s', e) && IndexOk(s', e) && BlocksOk(s', e) {
      assert ChainOk(s, e) && IndexOk(s, e) && BlocksOk(s, e);
      forall b | InUse(s'.dirents[e].max, b) ensures BlockKept(s', e, b) {
        assert BlockKept(s, e, b);
      }
    }
  }

  // ---------- what an extension leaves alone ----------

  /** File f may have more clusters and a larger index; its size and every other file are as before. */
  ghost predicate Extended(s: Store, s': Store, f: int) {
    && s'.g == s.g && |s'.dirents| == |s.dirents| == |s.chains| == |s'.chains|
    && (forall e :: 0 <= e < |s.dirents| && e != f ==> s'.dirents[e] == s.dirents[e] && s'.chains[e] == s.chains[e])
    && (Exists(s, f) ==>
          && s.chains[f] <= s'.chains[f]
          && s'.dirents[f] == s.dirents[f].(cur := s'.dirents[f].cur, cnt := s'.dirents[f].cnt,
                                            max := s'.dirents[f].max, item := s'.dirents[f].item))
  }

  lemma ExtendedTransitive(s: Store, s1: Store, s2: Store, f: int)
    requires Extended(s, s1, f) && Extended(s1, s2, f)
    ensures Extended(s, s2, f)
  {
  }

  // ---------- writing inside one cluster ----------

  ghost predicate WroteAt(s: Store, s': Store, f: int, off: nat, data: seq<Byte>) {
    && |s'.dirents| == |s.dirents|
    && forall e, p: nat :: 0 <= e < |s.dirents| ==>
         Raw(s', e, p) == if e == f && off <= p < off + |data| then data[p - off] else Raw(s, e, p)
  }

  lemma ChunkOfFile(P: nat, m: nat, b: nat, p: nat)
    requires b > 0 && P % b + m <= b
    ensures P / b == p / b && P % b <= p % b < P % b + m <==> P <= p < P + m
    ensures P <= p < P + m ==> p % b - P % b == p - P
  {
    ModBound(P, b);
    ModBound(p, b);
    var k, l := P / b, p / b;
    if k < l {
      assert l * b >= (k + 1) * b == k * b + b;
    } else if l < k {
      assert k * b >= (l + 1) * b == l * b + b;
    }
  }

  lemma WriteChunk(s: Store, f: int, P: nat, chunk: seq<Byte>)
    requires Inv(s) && Exists(s, f) && P / BytesPerClus(s.g) < |s.chains[f]|
    requires P % BytesPerClus(s.g) + |chunk| <= BytesPerClus(s.g)
    ensures var c, o := s.chains[f][P / BytesPerClus(s.g)], P % BytesPerClus(s.g);
            var s' := s.(vol := Written(s.vol, c, o, chunk));
            IsData(s.g, c) && Inv(s') && WroteAt(s, s', f, P, chunk)
  {
    var b := BytesPerClus(s.g);
    var q := P / b;
    var c, o := s.chains[f][q], P % b;
    assert ChainOk(s, f);
    WrittenInv(s.g, s.vol, c, o, chunk);
    var s' := s.(vol := Written(s.vol, c, o, chunk));
    WriteChunkInv(s, s');
    hide IndexOk, BlocksOk, Linked;
    forall e, p: nat | 0 <= e < |s.dirents|
      ensures Raw(s', e, p) == if e == f && P <= p < P + |chunk| then chunk[p - P] else Raw(s, e, p)
    {
      assert ChainOk(s, e);
      ChunkOfFile(P, |chunk|, b, p);
      ModBound(p, b);
      var k := p / b;
      if k < |s.chains[e]| {
        assert s.chains[e][k] == c ==> e == f && k == q;
      }
    }
  }

  lemma WriteChunkInv(s: Store, s': Store)
    requires Inv(s) && s' == s.(vol := s'.vol) && s'.vol.fat == s.vol.fat && VolInv(s.g, s'.vol)
    ensures Inv(s')
  {
    hide Linked, PlaceOf, InUse, Read, BlockId;
    forall e | Exists(s, e) ensures ChainOk(s', e) && IndexOk(s', e) && BlocksOk(s', e) {
      assert ChainOk(s, e) && IndexOk(s, e) && BlocksOk(s, e);
      forall b | InUse(s'.dirents[e].max, b) ensures BlockKept(s', e, b) {
        assert BlockKept(s, e, b);
      }
    }
  }

  /** The cursor of file f stands on the cluster of byte off, or the chain was too short. */
  ghost predicate Located(s: Store, s': Store, f: int, off: nat, alloc: bool, r: int) {
    && Exists(s, f) && Exists(s', f) && |s.chains| == |s.dirents| && |s'.chains| == |s'.dirents|
    && BytesPerClus(s.g) > 0
    && var n, len, len' := off / BytesPerClus(s.g), |s.chains[f]|, |s'.chains[f]|;
       if alloc || n < len then
         && r == off % BytesPerClus(s.g) && n < len' && s'.dirents[f].cur == s'.chains[f][n]
         && len' == (if n < len then len else n + 1)
         && (n < len ==> s'.chains == s.chains && s'.vol == s.vol)
       else r == -1 && s'.dirents[f].cur == s'.dirents[f].first && s'.chains == s.chains && s'.vol == s.vol
  }

  /** The cursor stands on the last indexed cluster. */
  ghost predicate OnLastIndexed(s: Store, f: int) {
    && Exists(s, f) && |s.chains| == |s.dirents| && 1 <= s.dirents[f].max <= |s.chains[f]|
    && s.dirents[f].cnt == s.dirents[f].max - 1 && s.dirents[f].cur == s.chains[f][s.dirents[f].cnt]
  }

  lemma NextInChain(s: Store, f: int)
    requires Inv(s) && OnLastIndexed(s, f)
    ensures var d, ch := s.dirents[f], s.chains[f];
            && 0 <= d.cur < s.g.dataClusters + 2 <= |s.vol.fat| && d.cur < EOC && d.first < EOC
            && (if d.max < |ch| then s.vol.fat[d.cur] == ch[d.max] && ch[d.max] < EOC else s.vol.fat[d.cur] >= EOC)
  {
    assert ChainOk(s, f);
    hide IndexOk, BlocksOk;
    var d, ch := s.dirents[f], s.chains[f];
    assert IsData(s.g, ch[0]) && IsData(s.g, ch[d.cnt]);
    assert d.max < |ch| ==> IsData(s.g, ch[d.max]);
  }

  lemma NextIsData(s: Store, f: int, k: int)
    requires Inv(s) && Exists(s, f) && 0 <= k < |s.chains[f]|
    ensures s.chains[f][k] < EOC
  {
    assert ChainOk(s, f);
  }

  lemma GrownIsExtended(s: Store, s': Store, f: int)
    requires IndexGrown(s, s', f) && |s.chains| == |s.dirents|
    ensures Extended(s, s', f)
  {
  }

  lemma Opened(s: Store, f: int)
    requires Inv(s) && Exists(s, f) && s.dirents[f].first != 0
    ensures |s.chains| == |s.dirents| && 1 <= s.dirents[f].max <= |s.chains[f]| && BytesPerClus(s.g) > 0
  {
    assert ChainOk(s, f);
  }

  lemma InvVolume(s: Store)
    requires Inv(s)
    ensures VolInv(s.g, s.vol)
  {
  }

  lemma LastOfChain(s: Store, f: int)
    requires Inv(s) && Exists(s, f) && s.chains[f] != []
    ensures IsData(s.g, s.chains[f][|s.chains[f]| - 1])
  {
    assert ChainOk(s, f);
  }

  lemma Bounds(g: Geometry, c: int)
    requires GeometryOk(g) && IsData(g, c)
    ensures 0 <= c < ENTRY_LIMIT && c < g.dataClusters + 2 <= Entries(g)
  {
  }

  // ---------- reading ----------

  ghost function RawRange(s: Store, f: int, P: nat, m: nat): (r: seq<Byte>)
    ensures |r| == m
  {
    seq<Byte>(m, (j: nat) => Raw(s, f, P + j))
  }

  lemma RawChunk(s: Store, f: int, P: nat, m: nat)
    requires Inv(s) && Exists(s, f) && P / BytesPerClus(s.g) < |s.chains[f]|
    requires P % BytesPerClus(s.g) + m <= BytesPerClus(s.g)
    ensures var c, o := s.chains[f][P / BytesPerClus(s.g)], P % BytesPerClus(s.g);
            && IsData(s.g, c) && c < |s.vol.data| && |s.vol.data[c]| == BytesPerClus(s.g)
            && s.vol.data[c][o..o + m] == RawRange(s, f, P, m)
  {
    hide IndexOk, BlocksOk, Linked, Raw;
    var b := BytesPerClus(s.g);
    assert ChainOk(s, f);
    var c := s.chains[f][P / b];
    assert IsData(s.g, c);
    RawSlice(s, f, P, m, b, c);
  }

  lemma RawSlice(s: Store, f: int, P: nat, m: nat, b: nat, c: nat)
    requires 0 <= f < |s.chains| && b == BytesPerClus(s.g) > 0 && P / b < |s.chains[f]| && c == s.chains[f][P / b]
    requires c < |s.vol.data| && |s.vol.data[c]| == b && P % b + m <= b
    ensures s.vol.data[c][P % b..P % b + m] == RawRange(s, f, P, m)
  {
    hide BytesPerClus;
    var chunk := s.vol.data[c][P % b..P % b + m];
    forall j | 0 <= j < m ensures chunk[j] == Raw(s, f, P + j) {
      ChunkOfFile(P, m, b, P + j);
    }
  }

  lemma RawRangeSame(s: Store, s': Store, f: int, P: nat, m: nat)
    requires SameFiles(s, s') && Exists(s, f)
    ensures RawRange(s', f, P, m) == RawRange(s, f, P, m)
  {
    hide Raw;
  }

  lemma RawRangeAppend(s: Store, f: int, P: nat, m: nat, k: nat)
    ensures RawRange(s, f, P, m) + RawRange(s, f, P + m, k) == RawRange(s, f, P, m + k)
  {
    hide Raw;
  }

  lemma RawRangeContent(s: Store, f: int, off: nat, m: nat)
    requires Exists(s, f) && off + m <= s.dirents[f].size
    ensures RawRange(s, f, off, m) == Content(s, f)[off..off + m]
  {
    hide Raw;
  }

  /** A byte below the size lies in the chain. */
  lemma InsideChain(s: Store, f: int, p: nat)
    requires Inv(s) && Exists(s, f) && p < s.dirents[f].size
    ensures BytesPerClus(s.g) > 0 && p / BytesPerClus(s.g) < |s.chains[f]| && s.dirents[f].first != 0
  {
    hide IndexOk, BlocksOk, Linked;
    assert ChainOk(s, f);
    var b, n := BytesPerClus(s.g), |s.chains[f]|;
    DivBelow(p, b, n);
  }

  lemma DivBelow(p: nat, b: nat, n: nat)
    requires b > 0 && p < n * b
    ensures p / b < n
  {
    ModBound(p, b);
  }

  // ---------- the first cluster ----------

  ghost function FirstCluster(s: Store, f: int, c: nat): Store
    requires Exists(s, f) && f < |s.chains| && |s.dirents[f].item| > 0
    requires c < |s.vol.fat| && c < |s.vol.data| && c < |s.vol.used|
  {
    var d := s.dirents[f];
    Store(s.g, Allocated(s.vol, s.g, c),
          s.dirents[f := Dirent(d.device, d.readOnly, d.directory, c, d.size, c, 0, 1, d.item[0 := c])],
          s.inodes, s.ibits, s.chains[f := [c]], s.owner[c := (f, 0)], s.keeper)
  }

  lemma FirstClusterInv(s: Store, f: int, c: int)
    requires Inv(s) && Exists(s, f) && s.dirents[f].first == 0 && IsData(s.g, c) && s.vol.fat[c] == 0
    ensures |s.dirents[f].item| == ITEMS && c < |s.vol.data| && Inv(FirstCluster(s, f, c))
    ensures SameFiles(s, FirstCluster(s, f, c))
  {
    AllocatedInv(s.g, s.vol, c);
    FreeInNoChain(s, c);
    FirstClusterRaw(s, f, c);
    var s' := FirstCluster(s, f, c);
    forall e | Exists(s, e) ensures ChainOk(s', e) && IndexOk(s', e) && BlocksOk(s', e) {
      FirstClusterOk(s, f, c, e);
    }
  }

  lemma FirstClusterOk(s: Store, f: int, c: int, e: int)
    requires Inv(s) && Exists(s, f) && s.dirents[f].first == 0 && IsData(s.g, c) && s.vol.fat[c] == 0 && Exists(s, e)
    requires |s.dirents[f].item| == ITEMS && c < |s.vol.data|
    ensures ChainOk(FirstCluster(s, f, c), e) && IndexOk(FirstCluster(s, f, c), e) && BlocksOk(FirstCluster(s, f, c), e)
  {
    assert ChainOk(s, e) && IndexOk(s, e) && BlocksOk(s, e) && ChainOk(s, f);
    FreeInNoChain(s, c);
    var s' := FirstCluster(s, f, c);
    forall b | InUse(s'.dirents[e].max, b) ensures BlockKept(s', e, b) {
      assert e != f;
      assert BlockKept(s, e, b);
    }
  }

  lemma FirstClusterRaw(s: Store, f: int, c: int)
    requires Inv(s) && Exists(s, f) && s.dirents[f].first == 0 && IsData(s.g, c) && s.vol.fat[c] == 0
    requires |s.dirents[f].item| == ITEMS && c < |s.vol.data|
    ensures SameFiles(s, FirstCluster(s, f, c))
  {
    hide IndexOk, BlocksOk, Linked;
    assert ChainOk(s, f);
    FreeInNoChain(s, c);
    var s' := FirstCluster(s, f, c);
    var b := BytesPerClus(s.g);
    forall e, p: nat | 0 <= e < |s.dirents| ensures Raw(s', e, p) == Raw(s, e, p) {
      ModBound(p, b);
      if p / b < |s.chains[e]| { assert s.chains[e][p / b] != c; }
    }
  }

  // ---------- sizes ----------

  ghost function WithSize(s: Store, f: int, size: nat): Store
    requires Exists(s, f)
  {
    s.(dirents := s.dirents[f := s.dirents[f].(size := size)])
  }

  lemma SizeInv(s: Store, f: int, size: nat)
    requires Inv(s) && Exists(s, f) && s.chains[f] != [] && size <= |s.chains[f]| * BytesPerClus(s.g)
    ensures Inv(WithSize(s, f, size)) && SameFiles(s, WithSize(s, f, size))
  {
    hide Linked, PlaceOf, InUse, Read, BlockId;
    var s' := WithSize(s, f, size);
    forall e | Exists(s, e) ensures ChainOk(s', e) && IndexOk(s', e) && BlocksOk(s', e) {
      assert ChainOk(s, e) && IndexOk(s, e) && BlocksOk(s, e);
      forall b | InUse(s'.dirents[e].max, b) ensures BlockKept(s', e, b) {
        assert BlockKept(s, e, b);
      }
    }
  }

  /** The end of a chunk lies within the clusters reached. */
  lemma ChunkFits(P: nat, m: nat, b: nat, n: nat)
    requires b > 0 && P / b < n && P % b + m <= b
    ensures P + m <= n * b
  {
    ModBound(P, b);
    assert P / b * b + b == (P / b + 1) * b <= n * b;
  }

  lemma WroteNothing(s: Store, s': Store, f: int, off: nat)
    requires SameFiles(s, s')
    ensures WroteAt(s, s', f, off, [])
  {
  }

  lemma WroteMore(s: Store, s1: Store, s2: Store, s3: Store, f: int, off: nat, data: seq<Byte>, chunk: seq<Byte>)
    requires WroteAt(s, s1, f, off, data) && SameFiles(s1, s2) && WroteAt(s2, s3, f, off + |data|, chunk)
    ensures WroteAt(s, s3, f, off, data + chunk)
  {
    forall e, p: nat | 0 <= e < |s.dirents|
      ensures Raw(s3, e, p) ==
              if e == f && off <= p < off + |data + chunk| then (data + chunk)[p - off] else Raw(s, e, p)
    {
      assert Raw(s2, e, p) == Raw(s1, e, p);
    }
  }

  // ---------- what writing means for a file's contents ----------

  /** The file as its readers see it. */
  ghost function Content(s: Store, f: int): seq<Byte>
    requires Exists(s, f)
  {
    seq<Byte>(s.dirents[f].size, (p: nat) => Raw(s, f, p))
  }

  /** Past its size the file has only zeros: so for every file created here. */
  ghost predicate TailZero(s: Store, f: int) {
    Exists(s, f) && forall p: nat :: p >= s.dirents[f].size ==> Raw(s, f, p) == 0
  }

  /** An array of bytes with data laid over it from off, padded with zeros up to off. */
  function Splice(c: seq<Byte>, off: nat, data: seq<Byte>): (r: seq<Byte>)
    ensures |r| == if |data| > 0 && off + |data| > |c| then off + |data| else |c|
  {
    if |data| == 0 then c
    else
      var padded := if off > |c| then c + seq<Byte>(off - |c|, i => 0) else c;
      padded[..off] + data + (if off + |data| <= |c| then c[off + |data|..] else [])
  }

  lemma SpliceByte(c: seq<Byte>, off: nat, data: seq<Byte>, p: nat)
    requires p < |Splice(c, off, data)|
    ensures Splice(c, off, data)[p] == if off <= p < off + |data| then data[p - off] else if p < |c| then c[p] else 0
  {
  }

  /** What a write never changes in an entry. */
  predicate SameKind(d: Dirent, d': Dirent) {
    d'.device == d.device && d'.readOnly == d.readOnly && d'.directory == d.directory
  }

  ghost predicate Enlarged(s: Store, s': Store, f: int, off: nat, n: nat) {
    && Exists(s, f) && |s'.dirents| == |s.dirents|
    && s'.dirents[f].size == (if n > 0 && off + n > s.dirents[f].size then off + n else s.dirents[f].size)
    && SameKind(s.dirents[f], s'.dirents[f])
    && (forall e :: 0 <= e < |s.dirents| && e != f ==> s'.dirents[e] == s.dirents[e])
  }

  /** The store refines byte arrays: a write splices its bytes into its own file and into no other. */
  lemma WriteRefines(s: Store, s': Store, f: int, off: nat, data: seq<Byte>)
    requires WroteAt(s, s', f, off, data) && Enlarged(s, s', f, off, |data|)
    ensures TailZero(s, f) ==> Content(s', f) == Splice(Content(s, f), off, data) && TailZero(s', f)
    ensures forall e :: Exists(s, e) && e != f ==> Content(s', e) == Content(s, e)
    ensures forall e :: Exists(s, e) && e != f && TailZero(s, e) ==> TailZero(s', e)
  {
    hide Raw;
    if TailZero(s, f) {
      var c := Splice(Content(s, f), off, data);
      forall p: nat | p < |c| ensures Content(s', f)[p] == c[p] {
        SpliceByte(Content(s, f), off, data, p);
      }
    }
    forall e | Exists(s, e) && e != f ensures Content(s', e) == Content(s, e) {
      assert forall p: nat :: p < s.dirents[e].size ==> Content(s', e)[p] == Content(s, e)[p];
    }
  }

  /** File f has clusters; nothing else about sizes or other files has changed. */
  ghost predicate Opening(s: Store, s': Store, f: int) {
    && s'.g == s.g && |s'.dirents| == |s.dirents| == |s'.chains| && Exists(s, f)
    && (forall e :: 0 <= e < |s.dirents| && e != f ==> s'.dirents[e] == s.dirents[e])
    && s'.dirents[f].size == s.dirents[f].size && s'.dirents[f].first != 0 && s'.chains[f] != []
    && SameKind(s.dirents[f], s'.dirents[f])
  }

  lemma AlreadyOpen(s: Store, f: int)
    requires Inv(s) && Exists(s, f) && s.dirents[f].first != 0
    ensures Opening(s, s, f)
  {
    assert ChainOk(s, f);
  }

  lemma OpeningExtended(s: Store, s1: Store, s2: Store, f: int)
    requires Opening(s, s1, f) && Extended(s1, s2, f)
    ensures Opening(s, s2, f)
  {
  }

  lemma WroteThenSame(s: Store, s1: Store, s2: Store, f: int, off: nat, data: seq<Byte>)
    requires WroteAt(s, s1, f, off, data) && SameFiles(s1, s2)
    ensures WroteAt(s, s2, f, off, data)
  {
    hide Raw;
  }

  lemma OpeningTransitive(s: Store, s1: Store, s2: Store, f: int)
    requires Opening(s, s1, f) && Opening(s1, s2, f)
    ensures Opening(s, s2, f)
  {
  }

  lemma SameThenWrote(s: Store, s1: Store, s2: Store, f: int, off: nat, data: seq<Byte>)
    requires SameFiles(s, s1) && WroteAt(s1, s2, f, off, data)
    ensures WroteAt(s, s2, f, off, data)
  {
    hide Raw;
  }

  // ---------- giving everything back ----------

  /** Index block x is one that eFreeInode clears. */
  ghost predicate ClearedBlock(s: Store, f: int, x: int) {
    Exists(s, f) && exists b :: Frees(s.dirents[f].max, b) && IdOf(s, f, b) == x
  }

  /** The bitmap of index blocks after eFreeInode. */
  ghost predicate BlocksCleared(s: Store, ibits: seq<bool>, f: int) {
    |ibits| == |s.ibits| && forall x :: 0 <= x < |ibits| ==> (ibits[x] <==> s.ibits[x] && !ClearedBlock(s, f, x))
  }

  /** What eFreeInode has done once it is through the blocks in `done`. */
  ghost predicate Clearing(s: Store, ibits: seq<bool>, f: int, done: set<Block>) {
    && Exists(s, f) && |ibits| == |s.ibits|
    && (forall b :: b in done ==> Frees(s.dirents[f].max, b))
    && (forall x :: 0 <= x < |ibits| ==> (ibits[x] <==> s.ibits[x] && forall b :: b in done ==> IdOf(s, f, b) != x))
  }

  /** A block that is not done yet still has its bit, so inodeFree's assertion holds. */
  lemma ClearOne(s: Store, ibits: seq<bool>, f: int, done: set<Block>, b: Block)
    requires StoreShape(s) && Exists(s, f) && BlocksOk(s, f) && Clearing(s, ibits, f, done)
    requires Frees(s.dirents[f].max, b) && b !in done
    ensures var x := IdOf(s, f, b); x < INODES && ibits[x] && Clearing(s, ibits[x := false], f, done + {b})
  {
    hide Frees, InUse, BlockId;
    var max := s.dirents[f].max;
    FreesOnlyOwn(max, b);
    assert BlockKept(s, f, b);
    forall c | c in done ensures IdOf(s, f, c) != IdOf(s, f, b) {
      FreesOnlyOwn(max, c);
      assert BlockKept(s, f, c);
    }
  }

  lemma ClearedAll(s: Store, ibits: seq<bool>, f: int, done: set<Block>)
    requires Clearing(s, ibits, f, done) && forall b :: Frees(s.dirents[f].max, b) ==> b in done
    ensures BlocksCleared(s, ibits, f)
  {
    hide Frees, BlockId;
  }

  /** The volume after clusters ch[..k] are freed. */
  ghost predicate Released(v: Vol, v': Vol, ch: seq<nat>, k: int) {
    && |v'.fat| == |v.fat| && |v'.used| == |v.used| && v'.data == v.data && 0 <= k <= |ch|
    && (forall c :: 0 <= c < |v.fat| ==> v'.fat[c] == if c in ch[..k] then 0 else v.fat[c])
    && (forall c :: 0 <= c < |v.used| ==> v'.used[c] == (c !in ch[..k] && v.used[c]))
  }

  lemma ReleaseOne(v: Vol, v': Vol, ch: seq<nat>, k: int)
    requires Released(v, v', ch, k) && k < |ch| && ch[k] < |v.fat| && ch[k] < |v.used|
    ensures Released(v, Freed(v', ch[k]), ch, k + 1)
  {
    assert ch[..k + 1] == ch[..k] + [ch[k]];
  }

  /** The clusters of a chain are distinct, so a chain partly freed still leads on. */
  lemma StillLinked(s: Store, v': Vol, f: int, k: int)
    requires Inv(s) && Exists(s, f) && Released(s.vol, v', s.chains[f], k) && k < |s.chains[f]|
    ensures var ch := s.chains[f];
            && IsData(s.g, ch[k]) && 2 <= ch[k] < EOC && ch[k] < |v'.fat|
            && (if k + 1 < |ch| then v'.fat[ch[k]] == ch[k + 1] else v'.fat[ch[k]] >= EOC)
  {
    hide IndexOk, BlocksOk;
    assert ChainOk(s, f);
    var ch := s.chains[f];
    assert forall i :: 0 <= i < k ==> ch[..k][i] == ch[i] && s.owner[ch[i]] == (f, i);
    assert ch[k] !in ch[..k];
  }

  /** The file is empty, the first k of its clusters are free, the index blocks that eFreeInode finds too, and
      everything else is as it was; d is its entry now. */
  ghost predicate Emptied(s: Store, s': Store, f: int, k: int, d: Dirent) {
    && Exists(s, f) && |s.chains| == |s.dirents|
    && d.first == 0 && d.size == 0 && d.max == 0 && d.cur < EOC && d.item == s.dirents[f].item
    && s' == s.(vol := s'.vol, ibits := s'.ibits, chains := s.chains[f := []], dirents := s.dirents[f := d])
    && Released(s.vol, s'.vol, s.chains[f], k)
    && BlocksCleared(s, s'.ibits, f)
  }

  /** etrunc: all clusters of the file are free. */
  ghost predicate Truncated(s: Store, s': Store, f: int) {
    && Exists(s, f) && |s.chains| == |s.dirents|
    && Emptied(s, s', f, |s.chains[f]|, s.dirents[f].(first := 0, size := 0, max := 0))
  }

  lemma EmptiedChain(s: Store, s': Store, f: int, k: int, d: Dirent, e: int)
    requires Inv(s) && Emptied(s, s', f, k, d) && Exists(s, e)
    ensures ChainOk(s', e)
  {
    hide IndexOk, BlocksOk, BlocksCleared;
    assert ChainOk(s, f) && ChainOk(s, e);
    var ch := s.chains[f];
    if e != f {
      forall i | 0 <= i < |s.chains[e]| ensures s.chains[e][i] !in ch[..k] {
        assert s.owner[s.chains[e][i]] == (e, i);
      }
    }
  }

  lemma EmptiedIndex(s: Store, s': Store, f: int, k: int, d: Dirent, e: int)
    requires Inv(s) && Emptied(s, s', f, k, d) && Exists(s, e)
    ensures IndexOk(s', e) && BlocksOk(s', e)
  {
    hide Released, Linked, PlaceOf, Read, BlockId, VolInv, Frees;
    assert ChainOk(s, e) && IndexOk(s, e) && BlocksOk(s, e) && BlocksOk(s, f);
    forall b | InUse(s'.dirents[e].max, b) ensures BlockKept(s', e, b) {
      assert BlockKept(s, e, b);
      forall c | Frees(s.dirents[f].max, c) ensures IdOf(s, f, c) != IdOf(s, e, b) {
        FreesOnlyOwn(s.dirents[f].max, c);
        assert BlockKept(s, f, c);
      }
    }
  }

  lemma EmptiedInv(s: Store, s': Store, f: int, k: int, d: Dirent)
    requires Inv(s) && Emptied(s, s', f, k, d) && VolInv(s.g, s'.vol)
    ensures Inv(s')
  {
    hide ChainOk, IndexOk, BlocksOk, ClearedBlock, Released;
    forall e | Exists(s', e) ensures ChainOk(s', e) && IndexOk(s', e) && BlocksOk(s', e) {
      EmptiedChain(s, s', f, k, d, e);
      EmptiedIndex(s, s', f, k, d, e);
    }
  }

  /** An emptied file is the empty byte array; the other files keep their bytes. */
  lemma EmptiedRefines(s: Store, s': Store, f: int, k: int, d: Dirent)
    requires Emptied(s, s', f, k, d)
    ensures Content(s', f) == [] && TailZero(s', f)
    ensures forall e, p: nat :: Exists(s, e) ==> Raw(s', e, p) == if e == f then 0 else Raw(s, e, p)
    ensures forall e :: Exists(s, e) && e != f ==>
              Content(s', e) == Content(s, e) && (TailZero(s, e) ==> TailZero(s', e))
  {
    hide BlocksCleared;
    forall e, p: nat | Exists(s, e) ensures Raw(s', e, p) == if e == f then 0 else Raw(s, e, p) {
    }
    hide Raw;
    forall e | Exists(s, e) && e != f ensures Content(s', e) == Content(s, e) {
      assert forall p: nat :: p < s.dirents[e].size ==> Content(s', e)[p] == Content(s, e)[p];
    }
  }

  /** Nothing leaks from a file without third-level blocks: afterwards no index block is kept for it. */
  lemma TruncateFreesIndex(s: Store, s': Store, f: int, b: Block)
    requires Inv(s) && Truncated(s, s', f) && InUse(s.dirents[f].max, b)
    ensures IdOf(s, f, b) < |s'.ibits| && (!s'.ibits[IdOf(s, f, b)] <==> Frees(s.dirents[f].max, b))
  {
    hide InUse, Frees, BlockId, ChainOk, IndexOk, Released, VolInv;
    assert BlocksOk(s, f) && BlockKept(s, f, b);
    var x := IdOf(s, f, b);
    if ClearedBlock(s, f, x) {
      var c :| Frees(s.dirents[f].max, c) && IdOf(s, f, c) == x;
      FreesOnlyOwn(s.dirents[f].max, c);
      assert BlockKept(s, f, c);
      assert c == b;
    }
  }

  lemma NothingCleared(s: Store, f: int)
    requires Exists(s, f)
    ensures Clearing(s, s.ibits, f, {})
  {
  }

  /** The words the loops of eFreeInode read are the numbers of the blocks. */
  lemma BlockWord(s: Store, f: int, i: int, j: int)
    requires StoreShape(s) && Exists(s, f) && 0 <= i < ITEMS && 0 <= j < ITEMS
    ensures var item := s.dirents[f].item;
            && |item| == ITEMS && IdOf(s, f, MidBlock(i)) == item[i] && IdOf(s, f, TopBlock(i)) == item[i]
            && (item[i] < INODES ==> |s.inodes[item[i]]| == ITEMS && IdOf(s, f, LowBlock(i, j)) == s.inodes[item[i]][j])
  {
  }

  lemma FreedHome(s: Store, f: int, i: int)
    requires StoreShape(s) && Exists(s, f) && BlocksOk(s, f) && 0 <= i && Frees(s.dirents[f].max, TopBlock(i))
    ensures s.dirents[f].item[i] < INODES
  {
    assert BlockKept(s, f, TopBlock(i));
  }

  lemma ReleasedNone(s: Store, f: int)
    requires Inv(s) && Exists(s, f)
    ensures Released(s.vol, s.vol, s.chains[f], 0)
    ensures if s.chains[f] == [] then s.dirents[f].first == 0 else s.dirents[f].first == s.chains[f][0]
  {
    assert ChainOk(s, f);
  }

  lemma OnlyDataLeft(s: Store, f: int, k: int)
    requires Inv(s) && Exists(s, f) && 0 <= k < |s.chains[f]|
    ensures 2 <= s.chains[f][k] < EOC
  {
    assert ChainOk(s, f);
  }

  /** Two stores whose file f has the same index. */
  ghost predicate SameIndex(s: Store, s': Store, f: int) {
    && Exists(s, f) && Exists(s', f) && s'.ibits == s.ibits && s'.inodes == s.inodes && s'.keeper == s.keeper
    && s'.dirents[f].max == s.dirents[f].max && s'.dirents[f].item == s.dirents[f].item
  }

  lemma SameIndexBlocks(s: Store, s': Store, f: int)
    requires Inv(s) && SameIndex(s, s', f) && |s'.chains| == |s'.dirents|
    ensures BlocksOk(s', f)
  {
    hide InUse, BlockId, ChainOk, IndexOk, VolInv;
    assert BlocksOk(s, f);
    forall b | InUse(s.dirents[f].max, b) ensures BlockKept(s', f, b) {
      assert BlockKept(s, f, b);
    }
  }

  lemma SameIndexCleared(s: Store, s': Store, ibits: seq<bool>, f: int)
    requires SameIndex(s, s', f) && BlocksCleared(s', ibits, f)
    ensures BlocksCleared(s, ibits, f)
  {
    hide Frees, BlockId;
    assert forall b :: IdOf(s', f, b) == IdOf(s, f, b);
  }

  // ---------- a new file ----------

  /** Entry f is reused for an empty file; every other entry and its bytes are as they were. */
  ghost predicate Created(s: Store, s': Store, f: int, readOnly: bool, directory: bool) {
    && |s'.dirents| == |s.dirents| == |s'.chains| && Exists(s, f)
    && (forall e :: 0 <= e < |s.dirents| && e != f ==> s'.dirents[e] == s.dirents[e])
    && (forall e, p: nat :: Exists(s, e) ==> Raw(s', e, p) == if e == f then 0 else Raw(s, e, p))
    && var d := s'.dirents[f];
       && d.device == s.dirents[f].device && d.readOnly == readOnly && d.directory == directory && d.size == 0
       && (d.first == 0 <==> !directory) && |s'.chains[f]| == (if directory then 1 else 0)
  }

  lemma SameTail(s: Store, s': Store, f: int)
    requires TailZero(s, f) && SameFiles(s, s') && s'.dirents[f].size == s.dirents[f].size
    ensures TailZero(s', f)
  {
    hide Raw;
  }

  /** Cluster c is taken on the volume and belongs to no file: nothing will ever give it back. */
  ghost predicate Lost(s: Store, c: int) {
    && IsData(s.g, c) && 0 <= c < |s.vol.fat| && s.vol.fat[c] != 0
    && forall e, k :: Exists(s, e) && e < |s.chains| && 0 <= k < |s.chains[e]| ==> s.chains[e][k] != c
  }

  /** Reusing an entry whose clusters were not freed loses exactly these clusters. */
  lemma ReuseLoses(s: Store, s': Store, f: int, d: Dirent, c: int)
    requires Inv(s) && Emptied(s, s', f, 0, d)
    ensures Lost(s', c) <==> Lost(s, c) || c in s.chains[f]
  {
    hide IndexOk, BlocksOk, BlocksCleared;
    assert s.chains[f][..0] == [] && s'.vol.fat == s.vol.fat;
    if c in s.chains[f] {
      var k :| 0 <= k < |s.chains[f]| && s.chains[f][k] == c;
      ChainUsed(s, f, k);
      assert ChainOk(s, f);
      forall e, j | Exists(s', e) && 0 <= j < |s'.chains[e]| ensures s'.chains[e][j] != c {
        assert ChainOk(s, e);
      }
    } else if Lost(s', c) {
      forall e, j | Exists(s, e) && 0 <= j < |s.chains[e]| ensures s.chains[e][j] != c {
        assert e != f ==> s'.chains[e][j] == s.chains[e][j];
      }
    }
  }
}
