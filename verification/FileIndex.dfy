/**
 The in-memory cluster index of a file (include/Inode.h, kernel/fs/Fat.c): a
 directory entry holds 64 words, 8 of them cluster numbers, 16 naming blocks of 64
 cluster numbers, 40 naming blocks of 64 such blocks.
 */
module FileIndex {

  const ITEMS: nat := 64
  const INODES: nat := 1024
  const SECOND_ITEM: nat := 8
  const THIRD_ITEM: nat := 24
  const SECOND_BOTTOM: nat := 8
  const THIRD_BOTTOM: nat := 1032       // 8 + 16 * 64
  const THIRD_TOP: nat := 164872        // 1032 + 40 * 64 * 64

  /** Where the number of a cluster is kept: in the entry itself, in a block, in a block of a block. */
  datatype Place = Direct(i: int) | Mid(i: int, j: int) | Low(i: int, j: int, k: int)

  /** The index blocks a file can own. */
  datatype Block = MidBlock(i: int) | TopBlock(i: int) | LowBlock(i: int, j: int)

  function PlaceOf(pos: int): Place {
    if pos < SECOND_BOTTOM then Direct(pos)
    else if pos < THIRD_BOTTOM then Mid(SECOND_ITEM + (pos - SECOND_BOTTOM) / ITEMS, (pos - SECOND_BOTTOM) % ITEMS)
    else Low(THIRD_ITEM + (pos - THIRD_BOTTOM) / ITEMS / ITEMS, (pos - THIRD_BOTTOM) / ITEMS % ITEMS,
             (pos - THIRD_BOTTOM) % ITEMS)
  }

  /** Positions and places correspond one to one. */
  lemma PlacesDistinct(p: int, q: int)
    requires 0 <= p < THIRD_TOP && 0 <= q < THIRD_TOP
    ensures PlaceOf(p) == PlaceOf(q) ==> p == q
  {
  }

  function InodeAt(inodes: seq<seq<nat>>, b: int, j: int): nat {
    if 0 <= b < |inodes| && 0 <= j < |inodes[b]| then inodes[b][j] else 0
  }

  function ItemAt(item: seq<nat>, i: int): nat {
    if 0 <= i < |item| then item[i] else 0
  }

  /** eFindInode's lookup. */
  function Read(item: seq<nat>, inodes: seq<seq<nat>>, p: Place): nat {
    match p
    case Direct(i) => ItemAt(item, i)
    case Mid(i, j) => InodeAt(inodes, ItemAt(item, i), j)
    case Low(i, j, k) => InodeAt(inodes, InodeAt(inodes, ItemAt(item, i), j), k)
  }

  function BlockId(item: seq<nat>, inodes: seq<seq<nat>>, b: Block): nat {
    match b
    case MidBlock(i) => ItemAt(item, i)
    case TopBlock(i) => ItemAt(item, i)
    case LowBlock(i, j) => InodeAt(inodes, ItemAt(item, i), j)
  }

  /** The blocks a file with `max` indexed clusters has. */
  predicate InUse(max: int, b: Block) {
    match b
    case MidBlock(i) => SECOND_ITEM <= i < THIRD_ITEM && max > SECOND_BOTTOM + (i - SECOND_ITEM) * ITEMS
    case TopBlock(i) => THIRD_ITEM <= i < ITEMS && max > THIRD_BOTTOM + (i - THIRD_ITEM) * ITEMS * ITEMS
    case LowBlock(i, j) =>
      THIRD_ITEM <= i < ITEMS && 0 <= j < ITEMS && max > THIRD_BOTTOM + (i - THIRD_ITEM) * ITEMS * ITEMS + j * ITEMS
  }

  /** The block a place lies in, if it is not in the entry itself. */
  function HomeOf(p: Place): Block
    requires !p.Direct?
  {
    match p
    case Mid(i, _) => MidBlock(i)
    case Low(i, j, _) => LowBlock(i, j)
  }

  lemma PlaceInUse(pos: int, max: int)
    requires 0 <= pos < max <= THIRD_TOP
    ensures var p := PlaceOf(pos);
            && (p.Direct? ==> 0 <= p.i < SECOND_ITEM)
            && (p.Mid? ==> InUse(max, MidBlock(p.i)) && 0 <= p.j < ITEMS)
            && (p.Low? ==> InUse(max, TopBlock(p.i)) && InUse(max, LowBlock(p.i, p.j)) && 0 <= p.k < ITEMS)
  {
  }

  // ---------- adding a cluster ----------

  /** The blocks that position max needs and max indexed clusters did not. */
  lemma NewBlocks(max: int, b: Block)
    requires 0 <= max < THIRD_TOP
    ensures InUse(max + 1, b) && !InUse(max, b) <==>
            var p := PlaceOf(max);
            || (p.Mid? && p.j == 0 && b == MidBlock(p.i))
            || (p.Low? && p.k == 0 && b == LowBlock(p.i, p.j))
            || (p.Low? && p.k == 0 && p.j == 0 && b == TopBlock(p.i))
  {
    var p := PlaceOf(max);
    match b {
      case MidBlock(i) =>
        if InUse(max + 1, b) && !InUse(max, b) { assert max - SECOND_BOTTOM == (i - SECOND_ITEM) * ITEMS; }
      case TopBlock(i) =>
        if InUse(max + 1, b) && !InUse(max, b) { assert max - THIRD_BOTTOM == (i - THIRD_ITEM) * ITEMS * ITEMS; }
      case LowBlock(i, j) =>
        if InUse(max + 1, b) && !InUse(max, b) { assert max - THIRD_BOTTOM == ((i - THIRD_ITEM) * ITEMS + j) * ITEMS; }
    }
  }

  lemma NoNewBlocks(max: int)
    requires 0 <= max < THIRD_TOP
    requires var p := PlaceOf(max); p.Direct? || (p.Mid? && p.j > 0) || (p.Low? && p.k > 0)
    ensures forall b :: InUse(max + 1, b) ==> InUse(max, b)
  {
    forall b | InUse(max + 1, b) ensures InUse(max, b) {
      NewBlocks(max, b);
    }
  }

  /** No indexed position and no block in use goes through word i of the entry. */
  ghost predicate FreshItem(max: int, i: int) {
    && (forall pos :: 0 <= pos < max ==> PlaceOf(pos).i != i)
    && (forall b :: InUse(max, b) ==> b.i != i)
  }

  /** What position max finds: its block is there already, or its word of the entry is unused. */
  lemma OpenPlace(max: int)
    requires 0 <= max < THIRD_TOP
    ensures var p := PlaceOf(max);
            && (p.Direct? ==> p.i == max && FreshItem(max, p.i))
            && (p.Mid? && p.j > 0 ==> InUse(max, MidBlock(p.i)))
            && (p.Mid? && p.j == 0 ==> FreshItem(max, p.i))
            && (p.Low? && p.k > 0 ==> InUse(max, LowBlock(p.i, p.j)))
            && (p.Low? && p.j > 0 ==> InUse(max, TopBlock(p.i)))
            && (p.Low? && p.k > 0 ==> InUse(max, TopBlock(p.i)))
            && (p.Low? && p.k == 0 && p.j == 0 ==> FreshItem(max, p.i))
            && (p.Mid? ==> SECOND_ITEM <= p.i < THIRD_ITEM && 0 <= p.j < ITEMS)
            && (p.Low? ==> THIRD_ITEM <= p.i < ITEMS && 0 <= p.j < ITEMS && 0 <= p.k < ITEMS)
  {
  }

  // ---------- what eFreeInode frees ----------

  /** eFreeInode computes the start of the third level from the second level's item
      number, 16 blocks of 4096 clusters too high. */
  predicate Frees(max: int, b: Block) {
    match b
    case MidBlock(i) => InUse(max, b)
    case TopBlock(i) => THIRD_ITEM <= i < ITEMS && max > THIRD_BOTTOM + (i - SECOND_ITEM) * ITEMS * ITEMS
    case LowBlock(i, j) =>
      THIRD_ITEM <= i < ITEMS && 0 <= j < ITEMS && max > THIRD_BOTTOM + (i - SECOND_ITEM) * ITEMS * ITEMS + j * ITEMS
  }

  /** It never frees a block the file does not have ... */
  lemma FreesOnlyOwn(max: int, b: Block)
    requires Frees(max, b)
    ensures InUse(max, b)
    ensures b.LowBlock? ==> Frees(max, TopBlock(b.i))
  {
  }

  /** ... and it frees them all exactly when the third level is not in use. */
  lemma FreesAllIff(max: int)
    requires 0 <= max <= THIRD_TOP
    ensures (forall b :: InUse(max, b) ==> Frees(max, b)) <==> max <= THIRD_BOTTOM
  {
    if max > THIRD_BOTTOM {
      var i := THIRD_ITEM + (max - THIRD_BOTTOM - 1) / (ITEMS * ITEMS);
      assert InUse(max, TopBlock(i)) && !Frees(max, TopBlock(i));
    }
  }

  /** A file of 1033 clusters keeps its two third-level blocks. */
  lemma LeakExample()
    ensures InUse(1033, TopBlock(24)) && InUse(1033, LowBlock(24, 0))
    ensures !Frees(1033, TopBlock(24)) && !Frees(1033, LowBlock(24, 0))
  {
  }
}
