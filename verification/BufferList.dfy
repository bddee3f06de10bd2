/**
 The doubly linked list of a buffer group in kernel/fs/Bio.c: 16 buffers and a head,
 linked in a ring by `next` and `prev`.  Node 16 is the head.
 */
module BufferList {
  import opened Sequences

  const NBUF: nat := 16
  const HEAD: nat := 16

  /** Distinct buffer numbers. */
  ghost predicate IsOrder(order: seq<int>) {
    Distinct(order) && forall i :: 0 <= i < |order| ==> 0 <= order[i] < NBUF
  }

  /** The i-th node from the front; the head stands before the first and after the last. */
  function Node(order: seq<int>, i: int): int {
    if 0 <= i < |order| then order[i] else HEAD
  }

  ghost predicate Hop(order: seq<int>, next: seq<int>, prev: seq<int>, i: int)
    requires IsOrder(order) && |next| == |prev| == NBUF + 1
  {
    next[Node(order, i)] == Node(order, i + 1) && prev[Node(order, i + 1)] == Node(order, i)
  }

  /** next and prev form a ring through the head and the buffers of `order`. */
  ghost predicate Ring(order: seq<int>, next: seq<int>, prev: seq<int>) {
    && IsOrder(order) && |next| == |prev| == NBUF + 1
    && forall i :: -1 <= i < |order| ==> Hop(order, next, prev, i)
  }

  lemma NodesDiffer(order: seq<int>, i: int, j: int)
    requires IsOrder(order) && -1 <= i < |order| && -1 <= j < |order| && i != j
    ensures Node(order, i) != Node(order, j)
  {
    assert 0 <= i < j ==> order[i] != order[j];
    assert 0 <= j < i ==> order[j] != order[i];
  }

  /** The four stores that put b behind the head. */
  lemma PushFront(order: seq<int>, next: seq<int>, prev: seq<int>, b: int)
    requires Ring(order, next, prev) && 0 <= b < NBUF && b !in order
    ensures var first := next[HEAD];
            && 0 <= first <= NBUF
            && Ring([b] + order, next[b := first][HEAD := b], prev[b := HEAD][first := b])
  {
    hide Hop;
    assert Hop(order, next, prev, -1);
    var first, o := Node(order, 0), [b] + order;
    assert next[HEAD] == first by { assert Hop(order, next, prev, -1); HopIs(order, next, prev, -1); }
    var n, p := next[b := first][HEAD := b], prev[b := HEAD][first := b];
    assert IsOrder(o);
    forall i | -1 <= i < |o| ensures Hop(o, n, p, i) {
      PushFrontHop(order, next, prev, b, i);
    }
  }

  lemma HopIs(order: seq<int>, next: seq<int>, prev: seq<int>, i: int)
    requires IsOrder(order) && |next| == |prev| == NBUF + 1 && Hop(order, next, prev, i)
    ensures next[Node(order, i)] == Node(order, i + 1) && prev[Node(order, i + 1)] == Node(order, i)
  {
  }

  lemma PushFrontHop(order: seq<int>, next: seq<int>, prev: seq<int>, b: int, i: int)
    requires Ring(order, next, prev) && 0 <= b < NBUF && b !in order && -1 <= i <= |order|
    ensures var first, o := Node(order, 0), [b] + order;
            IsOrder(o) && Hop(o, next[b := first][HEAD := b], prev[b := HEAD][first := b], i)
  {
    var first, o := Node(order, 0), [b] + order;
    assert o[0] == b && forall j :: 1 <= j < |o| ==> o[j] == order[j - 1];
    assert Node(o, i) == if i == 0 then b else if i < 0 then HEAD else order[i - 1];
    if i >= 1 {
      assert Hop(order, next, prev, i - 1);
      assert Node(o, i + 1) == Node(order, i) && Node(o, i) == Node(order, i - 1);
      if i < |order| { NodesDiffer(order, 0, i); }
    }
  }

  lemma WithoutNode(order: seq<int>, k: int, i: int)
    requires 0 <= k < |order| && -1 <= i <= |order| - 1
    ensures Node(Without(order, k), i) == Node(order, if i < k then i else i + 1)
  {
  }

  lemma WithoutDistinct(order: seq<int>, k: int)
    requires IsOrder(order) && 0 <= k < |order|
    ensures IsOrder(Without(order, k)) && order[k] !in Without(order, k)
    ensures forall x :: x in order && x != order[k] ==> x in Without(order, k)
  {
    WithoutIs(order, k);
  }

  /** The two stores that take the k-th buffer out. */
  lemma TakeOut(order: seq<int>, next: seq<int>, prev: seq<int>, k: int)
    requires Ring(order, next, prev) && 0 <= k < |order|
    ensures var b := order[k];
            && 0 <= next[b] <= NBUF && 0 <= prev[b] <= NBUF
            && Ring(Without(order, k), next[prev[b] := next[b]], prev[next[b] := prev[b]])
  {
    hide Without, Hop;
    var b, o := order[k], Without(order, k);
    WithoutDistinct(order, k);
    assert Hop(order, next, prev, k - 1) && Hop(order, next, prev, k);
    HopIs(order, next, prev, k - 1);
    HopIs(order, next, prev, k);
    var n, p := next[prev[b] := next[b]], prev[next[b] := prev[b]];
    forall i | -1 <= i < |o| ensures Hop(o, n, p, i) {
      TakeOutHop(order, next, prev, k, i);
    }
  }

  lemma TakeOutHop(order: seq<int>, next: seq<int>, prev: seq<int>, k: int, i: int)
    requires Ring(order, next, prev) && 0 <= k < |order| && -1 <= i < |order| - 1 && IsOrder(Without(order, k))
    ensures var b, o := order[k], Without(order, k);
            && 0 <= next[b] <= NBUF && 0 <= prev[b] <= NBUF
            && Hop(o, next[prev[b] := next[b]], prev[next[b] := prev[b]], i)
  {
    hide Without, IsOrder;
    var i0, i1 := if i < k then i else i + 1, if i + 1 < k then i + 1 else i + 2;
    WithoutNode(order, k, i);
    WithoutNode(order, k, i + 1);
    assert Hop(order, next, prev, k - 1) && Hop(order, next, prev, k) && Hop(order, next, prev, i0);
    NodeRange(order, k - 1);
    NodeRange(order, k + 1);
    NodeRange(order, i0);
    NodeRange(order, i0 + 1);
    NodeRange(order, i1);
    if i < k - 1 {
      NodesDiffer(order, i, k - 1);
      NodesDiffer(order, i + 1, if k + 1 < |order| then k + 1 else -1);
    } else if i >= k {
      NodesDiffer(order, i + 1, k - 1);
      NodesDiffer(order, if i + 2 < |order| then i + 2 else -1, k + 1);
    }
  }

  lemma NodeRange(order: seq<int>, i: int)
    requires IsOrder(order)
    ensures 0 <= Node(order, i) <= NBUF
  {
  }
}
