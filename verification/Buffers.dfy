/**
 kernel/fs/Bio.c with the sleep locks of kernel/lock/Sleeplock.c: binit, bget, bread
 and brelse on one group, the linked list updated in place.  A result `ok == false`
 stands for panic().
 */
module Buffers {
  import opened Bytes
  import opened Sequences
  import opened BufferList
  import opened BufferCache

  class Group {
    const disk: int -> Data
    var bufs: seq<Buf>
    var next: seq<int>
    var prev: seq<int>
    ghost var order: seq<int>
    ghost var waiters: seq<multiset<int>>
    ghost var use: seq<Use>
    ghost var serial: nat

    ghost function C(): Cache
      reads this
    {
      Cache(bufs, order, waiters, use, serial)
    }

    ghost predicate Valid()
      reads this
    {
      Inv(C()) && Ring(order, next, prev)
    }

    /** binit: every buffer is pushed behind the head in turn. */
    constructor (sectors: int -> Data)
      ensures Valid() && disk == sectors && forall b :: 0 <= b < NBUF ==> use[b] == Never && order[b] == NBUF - 1 - b
    {
      disk := sectors;
      bufs := seq(NBUF, b => Buf(0, 0, false, 0, false, 0, []));
      waiters := seq(NBUF, b => multiset{});
      use := seq(NBUF, b => Never);
      serial := 0;
      next, prev := seq(NBUF + 1, i => HEAD), seq(NBUF + 1, i => HEAD);
      order := [];
      new;
      ghost var s := C();
      Empty(next, prev);
      var b := 0;
      while b < NBUF
        invariant 0 <= b <= NBUF && Ring(order, next, prev) && |order| == b
        invariant forall i :: 0 <= i < b ==> order[i] == b - 1 - i
        invariant C() == s.(order := order)
      {
        hide Ring;
        InsertFront(b);
        b := b + 1;
      }
      BootInv(C());
    }

    method InsertFront(b: int)
      requires Ring(order, next, prev) && 0 <= b < NBUF && b !in order
      modifies this`next, this`prev, this`order
      ensures Ring(order, next, prev) && order == [b] + old(order)
    {
      PushFront(order, next, prev, b);
      var first := next[HEAD];
      next := next[b := first];
      prev := prev[b := HEAD];
      prev := prev[first := b];
      next := next[HEAD := b];
      order := [b] + order;
    }

    /** The first pass of bget, from the most recently released buffer on. */
    method Lookup(dev: int, block: int) returns (b: int, ghost i: int)
      requires Valid() && dev >= 0
      ensures b == HEAD ==> NoMatch(C(), dev, block)
      ensures b != HEAD ==> FirstMatch(C(), i, dev, block) && b == order[i]
    {
      hide Counted, Used, ZeroFirst, Hop;
      HopIs(order, next, prev, -1);
      b := next[HEAD];
      i := 0;
      while b != HEAD
        invariant 0 <= i <= NBUF && b == Node(order, i) && forall j :: 0 <= j < i ==> !Matches(C(), j, dev, block)
        decreases NBUF - i
      {
        if bufs[b].dev == dev && bufs[b].block == block {
          return;
        }
        HopIs(order, next, prev, i);
        b := next[b];
        i := i + 1;
      }
    }

    /** The second pass, from the least recently released buffer on. */
    method Oldest() returns (b: int, ghost i: int)
      requires Valid()
      ensures b == HEAD ==> forall c :: 0 <= c < NBUF ==> bufs[c].refcnt > 0
      ensures b != HEAD ==> Victim(C(), i) && b == order[i]
    {
      hide Counted, Used, ZeroFirst, Hop;
      HopIs(order, next, prev, NBUF - 1);
      b := prev[HEAD];
      i := NBUF - 1;
      while b != HEAD
        invariant -1 <= i < NBUF && b == Node(order, i) && forall j :: i < j < NBUF ==> bufs[order[j]].refcnt > 0
        decreases i + 1
      {
        if bufs[b].refcnt == 0 {
          return;
        }
        HopIs(order, next, prev, i - 1);
        b := prev[b];
        i := i - 1;
      }
      forall c | 0 <= c < NBUF ensures bufs[c].refcnt > 0 {
        assert c in order;
      }
    }

    /** bread: the caller holds the buffer when `got`, and otherwise waits for its lock. */
    method BRead(tid: int, dev: int, block: int) returns (ok: bool, b: int, got: bool)
      requires Valid()
      modifies this
      ensures Valid()
      ensures ok ==> 0 <= b < NBUF && Step(old(C()), Get(tid, dev, block), C(), disk)
      ensures ok ==> got == (bufs[b].locked && !old(bufs)[b].locked) && (got ==> bufs[b].tid == tid && bufs[b].valid)
      ensures ok && !got ==> tid in waiters[b]
      ensures ok && dev >= 0 ==> OneCopy(old(C()), C(), b, dev, block, disk)
      ensures !ok ==> C() == old(C()) && forall c :: 0 <= c < NBUF ==> bufs[c].refcnt > 0
    {
      hide Inv, OneCopy, Hit, Recycle;
      ghost var s := C();
      ghost var i;
      InvShape(s);
      if dev >= 0 {
        b, i := Lookup(dev, block);
        if b != HEAD {
          HitInv(s, i, tid, dev, block, disk);
          HitReturns(s, i, tid, dev, block, disk);
          got := Join(b, tid);
          return true, b, got;
        }
      }
      b, i := Oldest();
      ok := b != HEAD;
      if ok {
        RecycleInv(s, i, tid, dev, block, disk);
        if dev >= 0 {
          RecycleReturns(s, i, tid, dev, block, disk);
        }
        Reload(b, tid, dev, block);
        got := true;
      } else {
        got := false;
      }
    }

    /** A hit: one more reference, then the lock, then the data if they were never read. */
    method Join(b: int, tid: int) returns (got: bool)
      requires Shape(C()) && 0 <= b < NBUF
      modifies this`bufs, this`waiters, this`use
      ensures C() == Hit(old(C()), b, tid, disk) && got == !old(bufs)[b].locked
      ensures got ==> bufs[b].locked && bufs[b].tid == tid && bufs[b].valid
      ensures !got ==> bufs[b].locked && tid in waiters[b]
    {
      var x := bufs[b];
      x := x.(refcnt := x.refcnt + 1);
      got := !x.locked;
      if got {
        x := x.(locked := true, tid := tid);
        if !x.valid {
          x := x.(data := disk(x.block), valid := true);
          use := use[b := Block(x.dev, x.block)];
        }
      } else {
        waiters := waiters[b := waiters[b] + multiset{tid}];
      }
      bufs := bufs[b := x];
    }

    method Reload(b: int, tid: int, dev: int, block: int)
      requires Shape(C()) && 0 <= b < NBUF && Counted(C()) && bufs[b].refcnt == 0
      modifies this`bufs, this`use, this`serial
      ensures C() == Recycle(old(C()), b, tid, dev, block, disk) && !old(bufs)[b].locked
      ensures bufs[b].locked && bufs[b].tid == tid && bufs[b].valid
    {
      var x := bufs[b];
      x := x.(dev := dev, block := block, valid := false, refcnt := 1);
      x := x.(locked := true, tid := tid);
      if !x.valid {
        x := x.(data := disk(x.block), valid := true);
      }
      use := use[b := Asked(C(), dev, block)];
      serial := serial + 1;
      bufs := bufs[b := x];
    }

    /** acquiresleep after a wakeup: the waiter takes the lock if it is free and else goes back to sleep. */
    method Retry(tid: int, b: int) returns (got: bool)
      requires Valid() && 0 <= b < NBUF && tid in waiters[b]
      modifies this`bufs, this`waiters
      ensures Valid() && got == !old(bufs)[b].locked && bufs[b].valid
      ensures if got then Step(old(C()), Resume(tid, b), C(), disk) else C() == old(C())
    {
      got := !bufs[b].locked;
      assert UseOk(bufs[b], use[b], serial);
      if got {
        WakeInv(C(), b, tid);
        bufs := bufs[b := bufs[b].(locked := true, tid := tid)];
        waiters := waiters[b := waiters[b] - multiset{tid}];
      }
    }

    /** The holder stores into the buffer and calls bwrite, which sends nothing to the disk. */
    method BWrite(tid: int, b: int, data: Data) returns (ok: bool)
      requires Valid() && 0 <= b < NBUF
      modifies this`bufs
      ensures Valid() && ok == (old(bufs)[b].locked && old(bufs)[b].tid == tid)
      ensures if ok then Step(old(C()), Change(b, data), C(), disk) else C() == old(C())
    {
      ok := bufs[b].locked && bufs[b].tid == tid;
      if ok {
        PutInv(C(), b, data);
        bufs := bufs[b := bufs[b].(data := data)];
      }
    }

    /** brelse: only the holder may release; the last user moves the buffer behind the head. */
    method BRelse(tid: int, b: int) returns (ok: bool)
      requires Valid() && 0 <= b < NBUF
      modifies this`bufs, this`order, this`next, this`prev
      ensures Valid() && ok == (old(bufs)[b].locked && old(bufs)[b].tid == tid)
      ensures if ok then Step(old(C()), Drop(b), C(), disk) else C() == old(C())
      ensures ok && old(bufs)[b].refcnt == 1 ==> order[0] == b
    {
      hide Used, ZeroFirst, Ring, Front;
      ok := bufs[b].locked && bufs[b].tid == tid;
      if ok {
        ghost var s := C();
        assert bufs[b].refcnt > 0 && b in order;
        ReleaseInv(s, b);
        FrontIs(order, b);
        bufs := bufs[b := bufs[b].(locked := false, tid := 0)];
        bufs := bufs[b := bufs[b].(refcnt := bufs[b].refcnt - 1)];
        if bufs[b].refcnt == 0 {
          MoveFront(b);
        }
        assert bufs == Release(s, b).bufs;
        assert C() == Release(s, b);
      }
    }

    method MoveFront(b: int)
      requires Ring(order, next, prev) && b in order
      modifies this`order, this`next, this`prev
      ensures Ring(order, next, prev) && order == Front(old(order), b)
    {
      hide Hop, Front, Without;
      ghost var k := FrontAt(order, b);
      TakeOut(order, next, prev, k);
      WithoutDistinct(order, k);
      var after, before := next[b], prev[b];
      prev := prev[after := before];
      next := next[before := after];
      order := Without(order, k);
      InsertFront(b);
    }
  }

  lemma Empty(next: seq<int>, prev: seq<int>)
    requires |next| == |prev| == NBUF + 1 && next[HEAD] == prev[HEAD] == HEAD
    ensures Ring([], next, prev)
  {
  }

  lemma BootInv(s: Cache)
    requires |s.bufs| == |s.waiters| == |s.use| == |s.order| == NBUF
    requires forall b :: 0 <= b < NBUF ==>
               s.bufs[b] == Buf(0, 0, false, 0, false, 0, []) && s.waiters[b] == multiset{} && s.use[b] == Never
    requires forall i :: 0 <= i < NBUF ==> s.order[i] == NBUF - 1 - i
    ensures Inv(s)
  {
    forall b | 0 <= b < NBUF ensures b in s.order {
      assert s.order[NBUF - 1 - b] == b;
    }
  }

  lemma InvShape(s: Cache)
    requires Inv(s)
    ensures Shape(s) && Counted(s)
  {
  }

  lemma FrontAt(order: seq<int>, b: int) returns (k: int)
    requires b in order
    ensures 0 <= k < |order| && order[k] == b && Front(order, b) == [b] + Without(order, k)
  {
    k :| 0 <= k < |order| && order[k] == b && Front(order, b) == [b] + Without(order, k);
  }
}
