/**
 One group of the buffer cache of kernel/fs/Bio.c, as values: 16 buffers in the order
 of their last release.  A buffer is claimed by bget, locked by one caller at a time,
 and others wait for it; it may be recycled only when nobody holds or awaits it.
 */
module BufferCache {
  import opened Bytes
  import opened Sequences
  import opened BufferList

  type Data = seq<Byte>

  datatype Buf = Buf(dev: int, block: int, valid: bool, refcnt: nat, locked: bool, tid: int, data: Data)

  /** What a buffer is used for: nothing yet, a block, or one request to a device that is not cached. */
  datatype Use = Never | Block(dev: int, block: int) | Private(serial: nat)

  datatype Cache = Cache(bufs: seq<Buf>, order: seq<int>, waiters: seq<multiset<int>>, use: seq<Use>, serial: nat)

  /** Buffer x is nearer to the front than buffer y. */
  ghost predicate Before(order: seq<int>, x: int, y: int) {
    exists i, j :: 0 <= i < j < |order| && order[i] == x && order[j] == y
  }

  ghost predicate Shape(s: Cache) {
    && |s.bufs| == |s.waiters| == |s.use| == |s.order| == NBUF && IsOrder(s.order)
    && (forall b :: 0 <= b < NBUF ==> b in s.order)
  }

  /** References are the lock holder and the waiters. */
  ghost predicate Counted(s: Cache)
    requires |s.bufs| == |s.waiters|
  {
    forall b :: 0 <= b < |s.bufs| ==> s.bufs[b].refcnt == |s.waiters[b]| + (if s.bufs[b].locked then 1 else 0)
  }

  ghost predicate UseOk(b: Buf, u: Use, serial: nat) {
    && (b.valid <==> u != Never)
    && match u
       case Never => b.dev == 0 && b.block == 0 && b.refcnt == 0
       case Block(d, k) => b.dev == d && b.block == k && d >= 0
       case Private(n) => b.dev < 0 && n < serial
  }

  ghost predicate Used(s: Cache)
    requires |s.bufs| == |s.use|
  {
    && (forall b :: 0 <= b < |s.bufs| ==> UseOk(s.bufs[b], s.use[b], s.serial))
    && (forall b, c :: 0 <= b < |s.use| && 0 <= c < |s.use| && b != c && s.use[b] == s.use[c] ==> s.use[b] == Never)
  }

  /** No untouched buffer stands before the one that holds block 0 of device 0. */
  ghost predicate ZeroFirst(s: Cache)
    requires |s.use| == NBUF && IsOrder(s.order)
  {
    forall b, c :: Before(s.order, c, b) && s.use[b] == Block(0, 0) ==> s.use[c] != Never
  }

  ghost predicate Inv(s: Cache) {
    Shape(s) && Counted(s) && Used(s) && ZeroFirst(s)
  }

  // ---------- the steps ----------

  ghost predicate Matches(s: Cache, i: int, dev: int, block: int)
    requires Shape(s) && 0 <= i < NBUF
  {
    s.bufs[s.order[i]].dev == dev && s.bufs[s.order[i]].block == block
  }

  ghost predicate FirstMatch(s: Cache, i: int, dev: int, block: int)
    requires Shape(s)
  {
    dev >= 0 && 0 <= i < NBUF && Matches(s, i, dev, block) && forall j :: 0 <= j < i ==> !Matches(s, j, dev, block)
  }

  ghost predicate NoMatch(s: Cache, dev: int, block: int)
    requires Shape(s)
  {
    dev >= 0 ==> forall i :: 0 <= i < NBUF ==> !Matches(s, i, dev, block)
  }

  /** The idle buffer released longest ago. */
  ghost predicate Victim(s: Cache, i: int)
    requires Shape(s)
  {
    0 <= i < NBUF && s.bufs[s.order[i]].refcnt == 0 && forall j :: i < j < NBUF ==> s.bufs[s.order[j]].refcnt > 0
  }

  function Asked(s: Cache, dev: int, block: int): Use {
    if dev >= 0 then Block(dev, block) else Private(s.serial)
  }

  /** bread on a cached block: the caller holds the buffer, or waits for it. */
  ghost function Hit(s: Cache, b: int, tid: int, disk: int -> Data): Cache
    requires Shape(s) && 0 <= b < NBUF
  {
    var x := s.bufs[b];
    if x.locked then
      s.(bufs := s.bufs[b := x.(refcnt := x.refcnt + 1)], waiters := s.waiters[b := s.waiters[b] + multiset{tid}])
    else
      var data := if x.valid then x.data else disk(x.block);
      s.(bufs := s.bufs[b := Buf(x.dev, x.block, true, x.refcnt + 1, true, tid, data)],
         use := s.use[b := if x.valid then s.use[b] else Block(x.dev, x.block)])
  }

  /** bread on any other block: buffer b is recycled and loaded. */
  ghost function Recycle(s: Cache, b: int, tid: int, dev: int, block: int, disk: int -> Data): Cache
    requires Shape(s) && 0 <= b < NBUF
  {
    s.(bufs := s.bufs[b := Buf(dev, block, true, 1, true, tid, disk(block))],
       use := s.use[b := Asked(s, dev, block)], serial := s.serial + 1)
  }

  /** A waiter finds the lock free. */
  ghost function Wake(s: Cache, b: int, tid: int): Cache
    requires Shape(s) && 0 <= b < NBUF
  {
    s.(bufs := s.bufs[b := s.bufs[b].(locked := true, tid := tid)],
       waiters := s.waiters[b := s.waiters[b] - multiset{tid}])
  }

  /** The holder changes the data. */
  ghost function Put(s: Cache, b: int, data: Data): Cache
    requires Shape(s) && 0 <= b < NBUF
  {
    s.(bufs := s.bufs[b := s.bufs[b].(data := data)])
  }

  ghost function Front(order: seq<int>, b: int): seq<int>
    requires b in order
  {
    var k :| 0 <= k < |order| && order[k] == b;
    [b] + Without(order, k)
  }

  /** brelse: the last user moves the buffer to the front. */
  ghost function Release(s: Cache, b: int): Cache
    requires Shape(s) && 0 <= b < NBUF && s.bufs[b].refcnt > 0
  {
    s.(bufs := s.bufs[b := s.bufs[b].(refcnt := s.bufs[b].refcnt - 1, locked := false, tid := 0)],
       order := if s.bufs[b].refcnt == 1 then Front(s.order, b) else s.order)
  }

  datatype Op =
    | Get(tid: int, dev: int, block: int)
    | Resume(tid: int, b: int)
    | Change(b: int, data: Data)
    | Drop(b: int)

  ghost predicate Step(s: Cache, op: Op, s': Cache, disk: int -> Data)
    requires Shape(s)
  {
    match op
    case Get(tid, dev, block) =>
      || (exists i :: FirstMatch(s, i, dev, block) && s' == Hit(s, s.order[i], tid, disk))
      || (NoMatch(s, dev, block) && exists i :: Victim(s, i) && s' == Recycle(s, s.order[i], tid, dev, block, disk))
    case Resume(tid, b) =>
      0 <= b < NBUF && tid in s.waiters[b] && !s.bufs[b].locked && s' == Wake(s, b, tid)
    case Change(b, data) =>
      0 <= b < NBUF && s.bufs[b].locked && s' == Put(s, b, data)
    case Drop(b) =>
      0 <= b < NBUF && s.bufs[b].locked && s.bufs[b].refcnt > 0 && s' == Release(s, b)
  }

  // ---------- every step keeps the invariant ----------

  /** The first match is the one buffer that holds the block, or an untouched one if none does. */
  lemma MatchIsHolder(s: Cache, i: int, dev: int, block: int)
    requires Inv(s) && FirstMatch(s, i, dev, block)
    ensures s.use[s.order[i]] == Block(dev, block) || s.use[s.order[i]] == Never
    ensures forall c :: 0 <= c < NBUF && c != s.order[i] ==> s.use[c] != Block(dev, block)
  {
    var b := s.order[i];
    assert UseOk(s.bufs[b], s.use[b], s.serial);
    forall c | 0 <= c < NBUF && c != b ensures s.use[c] != Block(dev, block) {
      assert UseOk(s.bufs[c], s.use[c], s.serial);
      assert c in s.order;
      var j :| 0 <= j < NBUF && s.order[j] == c;
      assert Matches(s, j, dev, block) ==> Before(s.order, b, c);
    }
  }

  lemma HitInv(s: Cache, i: int, tid: int, dev: int, block: int, disk: int -> Data)
    requires Inv(s) && FirstMatch(s, i, dev, block)
    ensures Inv(Hit(s, s.order[i], tid, disk))
  {
    hide ZeroFirst;
    var b := s.order[i];
    var s' := Hit(s, b, tid, disk);
    assert UseOk(s.bufs[b], s.use[b], s.serial);
    MatchIsHolder(s, i, dev, block);
    HitZeroFirst(s, i, tid, dev, block, disk);
  }

  lemma HitZeroFirst(s: Cache, i: int, tid: int, dev: int, block: int, disk: int -> Data)
    requires Inv(s) && FirstMatch(s, i, dev, block)
    ensures ZeroFirst(Hit(s, s.order[i], tid, disk))
  {
    var s' := Hit(s, s.order[i], tid, disk);
    forall b, c | Before(s.order, c, b) && s'.use[b] == Block(0, 0) ensures s'.use[c] != Never {
      var l, j :| 0 <= l < j < |s.order| && s.order[l] == c && s.order[j] == b;
      assert UseOk(s.bufs[c], s.use[c], s.serial) && UseOk(s.bufs[b], s.use[b], s.serial);
      assert j == i ==> !Matches(s, l, dev, block);
    }
  }

  lemma RecycleInv(s: Cache, i: int, tid: int, dev: int, block: int, disk: int -> Data)
    requires Inv(s) && NoMatch(s, dev, block) && Victim(s, i)
    ensures Inv(Recycle(s, s.order[i], tid, dev, block, disk))
  {
    var b := s.order[i];
    var s' := Recycle(s, b, tid, dev, block, disk);
    forall c | 0 <= c < NBUF
      ensures c != b ==> s.use[c] != Asked(s, dev, block) && UseOk(s.bufs[c], s.use[c], s'.serial)
    {
      assert UseOk(s.bufs[c], s.use[c], s.serial);
      assert c in s.order;
      var j :| 0 <= j < NBUF && s.order[j] == c;
      assert dev >= 0 ==> !Matches(s, j, dev, block);
    }
    RecycleZeroFirst(s, i, tid, dev, block, disk);
  }

  lemma RecycleZeroFirst(s: Cache, i: int, tid: int, dev: int, block: int, disk: int -> Data)
    requires Inv(s) && NoMatch(s, dev, block) && 0 <= i < NBUF
    ensures ZeroFirst(Recycle(s, s.order[i], tid, dev, block, disk))
  {
    hide Counted;
    var s' := Recycle(s, s.order[i], tid, dev, block, disk);
    forall b, c | Before(s.order, c, b) && s'.use[b] == Block(0, 0) ensures s'.use[c] != Never {
      var l, j :| 0 <= l < j < |s.order| && s.order[l] == c && s.order[j] == b;
      assert UseOk(s.bufs[c], s.use[c], s.serial);
      assert j == i ==> !Matches(s, l, dev, block);
    }
  }

  lemma WakeInv(s: Cache, b: int, tid: int)
    requires Inv(s) && 0 <= b < NBUF && tid in s.waiters[b] && !s.bufs[b].locked
    ensures Inv(Wake(s, b, tid))
  {
    assert UseOk(s.bufs[b], s.use[b], s.serial);
  }

  lemma PutInv(s: Cache, b: int, data: Data)
    requires Inv(s) && 0 <= b < NBUF
    ensures Inv(Put(s, b, data))
  {
    assert UseOk(s.bufs[b], s.use[b], s.serial);
  }

  /** A release puts its buffer before all others and leaves their order alone. */
  lemma FrontIs(order: seq<int>, b: int)
    requires IsOrder(order) && b in order
    ensures var o := Front(order, b);
            && |o| == |order| && IsOrder(o) && o[0] == b && (forall x :: x in order ==> x in o)
            && (forall x, y :: Before(o, x, y) ==> x == b || (y != b && Before(order, x, y)))
  {
    hide Without, Before;
    var k :| 0 <= k < |order| && order[k] == b && Front(order, b) == [b] + Without(order, k);
    WithoutDistinct(order, k);
    var w, o := Without(order, k), Front(order, b);
    assert IsOrder(o) by { assert forall j :: 1 <= j < |o| ==> o[j] == w[j - 1]; }
    forall x | x in order ensures x in o {
      assert x != b ==> x in w;
    }
    forall x, y | Before(o, x, y) ensures x == b || (y != b && Before(order, x, y)) {
      FrontBefore(order, k, x, y);
    }
  }

  lemma FrontBefore(order: seq<int>, k: int, x: int, y: int)
    requires IsOrder(order) && 0 <= k < |order| && Before([order[k]] + Without(order, k), x, y)
    ensures x == order[k] || (y != order[k] && Before(order, x, y))
  {
    hide IsOrder, Without;
    var w := Without(order, k);
    var o := [order[k]] + w;
    var i, j :| 0 <= i < j < |o| && o[i] == x && o[j] == y;
    if i > 0 {
      WithoutNode(order, k, i - 1);
      WithoutNode(order, k, j - 1);
      assert o[i] == w[i - 1] && o[j] == w[j - 1];
      var i', j' := if i - 1 < k then i - 1 else i, if j - 1 < k then j - 1 else j;
      NodesDiffer(order, j', k);
      assert order[i'] == x && order[j'] == y;
    }
  }

  lemma ReleaseInv(s: Cache, b: int)
    requires Inv(s) && 0 <= b < NBUF && s.bufs[b].locked && s.bufs[b].refcnt > 0
    ensures Inv(Release(s, b))
  {
    hide Front, Before;
    FrontIs(s.order, b);
    assert UseOk(s.bufs[b], s.use[b], s.serial);
  }

  lemma StepInv(s: Cache, op: Op, s': Cache, disk: int -> Data)
    requires Inv(s) && Step(s, op, s', disk)
    ensures Inv(s')
  {
    hide Counted, Used, ZeroFirst, Hit, Recycle, Wake, Put, Release, NoMatch;
    match op
    case Get(tid, dev, block) =>
      if i :| FirstMatch(s, i, dev, block) && s' == Hit(s, s.order[i], tid, disk) {
        HitInv(s, i, tid, dev, block, disk);
      } else {
        var i :| Victim(s, i) && s' == Recycle(s, s.order[i], tid, dev, block, disk);
        RecycleInv(s, i, tid, dev, block, disk);
      }
    case Resume(tid, b) => WakeInv(s, b, tid);
    case Change(b, data) => PutInv(s, b, data);
    case Drop(b) => ReleaseInv(s, b);
  }

  // ---------- what bread returns ----------

  /** A caller of bread gets the one copy of the block: the cached data if there is any, else the disk's. */
  ghost predicate OneCopy(s: Cache, s': Cache, b: int, dev: int, block: int, disk: int -> Data)
    requires Shape(s) && Shape(s')
  {
    && 0 <= b < NBUF && s'.use[b] == Block(dev, block) && s'.bufs[b].valid && s'.bufs[b].refcnt > 0
    && (forall c :: 0 <= c < NBUF && s'.use[c] == Block(dev, block) ==> c == b)
    && (forall c :: 0 <= c < NBUF && s.use[c] == Block(dev, block) ==> c == b && s'.bufs[b].data == s.bufs[b].data)
    && ((forall c :: 0 <= c < NBUF ==> s.use[c] != Block(dev, block)) ==> s'.bufs[b].data == disk(block))
  }

  lemma HitReturns(s: Cache, i: int, tid: int, dev: int, block: int, disk: int -> Data)
    requires Inv(s) && FirstMatch(s, i, dev, block)
    ensures OneCopy(s, Hit(s, s.order[i], tid, disk), s.order[i], dev, block, disk)
  {
    MatchIsHolder(s, i, dev, block);
    var b := s.order[i];
    assert UseOk(s.bufs[b], s.use[b], s.serial);
  }

  lemma AskedIsNew(s: Cache, dev: int, block: int, c: int)
    requires Inv(s) && NoMatch(s, dev, block) && 0 <= c < NBUF
    ensures s.use[c] != Asked(s, dev, block)
  {
    assert UseOk(s.bufs[c], s.use[c], s.serial);
    assert c in s.order;
    var j :| 0 <= j < NBUF && s.order[j] == c;
    assert dev >= 0 ==> !Matches(s, j, dev, block);
  }

  lemma RecycleReturns(s: Cache, i: int, tid: int, dev: int, block: int, disk: int -> Data)
    requires Inv(s) && NoMatch(s, dev, block) && Victim(s, i) && dev >= 0
    ensures OneCopy(s, Recycle(s, s.order[i], tid, dev, block, disk), s.order[i], dev, block, disk)
  {
    forall c | 0 <= c < NBUF ensures s.use[c] != Block(dev, block) {
      AskedIsNew(s, dev, block, c);
    }
  }

  // ---------- how long a released block stays ----------

  /** Every buffer that is in use, or was released after b, serves a use in U. */
  ghost predicate Guarded(s: Cache, b: int, U: set<Use>)
    requires Shape(s)
  {
    && 0 <= b < NBUF && s.use[b] != Never && Never !in U
    && forall c :: 0 <= c < NBUF && c != b && (s.bufs[c].refcnt > 0 || Before(s.order, c, b)) ==> s.use[c] in U
  }

  ghost function UsesBut(use: seq<Use>, b: int, n: nat): set<Use>
    requires n <= |use|
  {
    set c | 0 <= c < n && c != b :: use[c]
  }

  lemma {:induction false} UsesCount(use: seq<Use>, b: int, n: nat)
    requires n <= |use| && forall c, d :: 0 <= c < n && 0 <= d < n && c != d && c != b && d != b ==> use[c] != use[d]
    ensures |UsesBut(use, b, n)| == if 0 <= b < n then n - 1 else n
  {
    if n > 0 {
      UsesCount(use, b, n - 1);
      var rest := UsesBut(use, b, n - 1);
      assert UsesBut(use, b, n) == if n - 1 == b then rest else rest + {use[n - 1]};
    }
  }

  /** A block is pushed out only when 16 other uses have come since its release. */
  lemma PushedOut(s: Cache, i: int, dev: int, block: int, U: set<Use>)
    requires Inv(s) && Victim(s, i) && NoMatch(s, dev, block) && Guarded(s, s.order[i], U)
    ensures |U + {Asked(s, dev, block)} - {s.use[s.order[i]]}| >= 16
  {
    hide Counted, ZeroFirst, NoMatch, UseOk;
    var b := s.order[i];
    var a := Asked(s, dev, block);
    forall c | 0 <= c < NBUF && c != b ensures s.use[c] in U {
      assert c in s.order;
      var j :| 0 <= j < NBUF && s.order[j] == c;
      assert j < i ==> Before(s.order, c, b);
    }
    forall c | 0 <= c < NBUF ensures s.use[c] != a {
      AskedIsNew(s, dev, block, c);
    }
    var others := UsesBut(s.use, b, NBUF);
    UsesCount(s.use, b, NBUF);
    assert a !in others && s.use[b] !in others;
    SetSize(others + {a}, U + {a} - {s.use[b]});
  }

  /** The use that a step brings, if any. */
  ghost function Brought(s: Cache, op: Op): set<Use> {
    match op
    case Get(_, dev, block) => {Asked(s, dev, block)}
    case _ => {}
  }

  lemma GuardHit(s: Cache, i: int, tid: int, dev: int, block: int, disk: int -> Data, b: int, U: set<Use>)
    requires Inv(s) && FirstMatch(s, i, dev, block) && Guarded(s, b, U)
    ensures var s' := Hit(s, s.order[i], tid, disk);
            && Shape(s') && s'.use[b] == s.use[b] && s'.bufs[b].data == s.bufs[b].data
            && Guarded(s', b, U + {Asked(s, dev, block)})
  {
    hide Before;
    MatchIsHolder(s, i, dev, block);
    assert UseOk(s.bufs[b], s.use[b], s.serial);
    assert UseOk(s.bufs[s.order[i]], s.use[s.order[i]], s.serial);
  }

  lemma GuardRecycle(s: Cache, i: int, tid: int, dev: int, block: int, disk: int -> Data, b: int, U: set<Use>)
    requires Inv(s) && NoMatch(s, dev, block) && Victim(s, i) && Guarded(s, b, U)
    requires |U + {Asked(s, dev, block)} - {s.use[b]}| < 16
    ensures var s' := Recycle(s, s.order[i], tid, dev, block, disk);
            && Shape(s') && s'.use[b] == s.use[b] && s'.bufs[b].data == s.bufs[b].data
            && Guarded(s', b, U + {Asked(s, dev, block)})
  {
    hide Before, Counted, ZeroFirst, NoMatch;
    if s.order[i] == b {
      PushedOut(s, i, dev, block, U);
    }
  }

  lemma GuardRelease(s: Cache, c: int, b: int, U: set<Use>)
    requires Inv(s) && 0 <= c < NBUF && s.bufs[c].refcnt > 0 && Guarded(s, b, U)
    ensures var s' := Release(s, c);
            Shape(s') && s'.use[b] == s.use[b] && s'.bufs[b].data == s.bufs[b].data && Guarded(s', b, U)
  {
    hide Front, Before, Counted, ZeroFirst, Used;
    FrontIs(s.order, c);
  }

  ghost predicate Untouched(op: Op, b: int) {
    op.Change? ==> op.b != b
  }

  /** One step: while fewer than 16 other uses have come, the buffer keeps its block. */
  lemma GuardStep(s: Cache, op: Op, s': Cache, disk: int -> Data, b: int, U: set<Use>)
    requires Inv(s) && Step(s, op, s', disk) && Guarded(s, b, U)
    requires |U + Brought(s, op) - {s.use[b]}| < 16
    ensures Shape(s') && s'.use[b] == s.use[b] && Guarded(s', b, U + Brought(s, op))
    ensures Untouched(op, b) ==> s'.bufs[b].data == s.bufs[b].data
  {
    hide Counted, Used, ZeroFirst, Hit, Recycle, Release, NoMatch, Before;
    match op
    case Get(tid, dev, block) =>
      if i :| FirstMatch(s, i, dev, block) && s' == Hit(s, s.order[i], tid, disk) {
        GuardHit(s, i, tid, dev, block, disk, b, U);
      } else {
        var i :| Victim(s, i) && s' == Recycle(s, s.order[i], tid, dev, block, disk);
        GuardRecycle(s, i, tid, dev, block, disk, b, U);
      }
    case Resume(tid, c) =>
      assert U + {} == U;
      GuardResume(s, c, tid, b, U);
    case Change(c, data) =>
      assert U + {} == U;
    case Drop(c) =>
      assert U + {} == U;
      GuardRelease(s, c, b, U);
  }

  lemma GuardResume(s: Cache, c: int, tid: int, b: int, U: set<Use>)
    requires Inv(s) && 0 <= c < NBUF && Guarded(s, b, U)
    ensures var s' := Wake(s, c, tid);
            Shape(s') && s'.use[b] == s.use[b] && s'.bufs[b].data == s.bufs[b].data && Guarded(s', b, U)
  {
    hide Before, Counted, ZeroFirst, Used;
  }

  ghost predicate Steps(states: seq<Cache>, ops: seq<Op>, disk: int -> Data) {
    && |states| == |ops| + 1 && (forall i :: 0 <= i < |states| ==> Shape(states[i]))
    && forall i :: 0 <= i < |ops| ==> Step(states[i], ops[i], states[i + 1], disk)
  }

  /** The uses brought by the first n steps. */
  ghost function BroughtBy(states: seq<Cache>, ops: seq<Op>, n: nat): set<Use>
    requires n <= |ops| < |states|
  {
    if n == 0 then {} else BroughtBy(states, ops, n - 1) + Brought(states[n - 1], ops[n - 1])
  }

  /** The uses of the buffers held when b is released. */
  ghost function HeldUses(s: Cache, b: int): set<Use>
    requires Shape(s)
  {
    set c | 0 <= c < NBUF && c != b && s.bufs[c].refcnt > 0 :: s.use[c]
  }

  /** After brelse has put b in front, nothing but the buffers held counts against it. */
  lemma JustReleased(s: Cache, b: int)
    requires Inv(s) && s.order[0] == b && s.use[b] != Never
    ensures Guarded(s, b, HeldUses(s, b))
  {
    assert forall c :: 0 <= c < NBUF ==> UseOk(s.bufs[c], s.use[c], s.serial);
  }

  /** Retention: over every run, a released block keeps its buffer and its data until 16 distinct other uses of
      the group have been made since, counting those already under way at the release. */
  lemma {:induction false} Retained(states: seq<Cache>, ops: seq<Op>, disk: int -> Data, b: int, n: nat)
    requires Steps(states, ops, disk) && Inv(states[0]) && states[0].order[0] == b && states[0].use[b] != Never
    requires n <= |ops|
    requires |HeldUses(states[0], b) + BroughtBy(states, ops, n) - {states[0].use[b]}| < 16
    ensures Inv(states[n]) && states[n].use[b] == states[0].use[b]
    ensures Guarded(states[n], b, HeldUses(states[0], b) + BroughtBy(states, ops, n))
    ensures (forall i :: 0 <= i < n ==> Untouched(ops[i], b)) ==> states[n].bufs[b].data == states[0].bufs[b].data
  {
    hide Inv, Guarded, HeldUses, Step;
    var U := HeldUses(states[0], b);
    if n == 0 {
      JustReleased(states[0], b);
      assert U + {} == U;
    } else {
      var V := U + BroughtBy(states, ops, n - 1);
      var W := Brought(states[n - 1], ops[n - 1]);
      assert U + BroughtBy(states, ops, n) == V + W;
      SetSize(V - {states[0].use[b]}, V + W - {states[0].use[b]});
      Retained(states, ops, disk, b, n - 1);
      assert Step(states[n - 1], ops[n - 1], states[n - 1 + 1], disk);
      StepInv(states[n - 1], ops[n - 1], states[n], disk);
      GuardStep(states[n - 1], ops[n - 1], states[n], disk, b, V);
    }
  }
}
