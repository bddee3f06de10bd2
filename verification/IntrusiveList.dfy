/**
 The list macros of include/Queue.h.  A node's `next` names the node behind it (-1 for
 none); its `prev` is the address of the pointer that names the node itself: a list head
 or the `next` field of the node before.
 */
module IntrusiveList {
  import opened Sequences

  datatype Loc = First(list: int) | NextOf(node: int)

  /** The heads of the lists and the link fields of all nodes. */
  datatype Nodes = Nodes(first: seq<int>, next: seq<int>, prev: seq<Loc>)

  function At(o: seq<int>, i: int): int { if 0 <= i < |o| then o[i] else -1 }

  function Behind(o: seq<int>, l: int, i: int): Loc
    requires 0 <= i < |o|
  {
    if i == 0 then First(l) else NextOf(o[i - 1])
  }

  ghost predicate NodeOk(n: Nodes, l: int, o: seq<int>, i: int)
    requires 0 <= i < |o|
  {
    && 0 <= o[i] < |n.next| && o[i] < |n.prev|
    && n.next[o[i]] == At(o, i + 1) && n.prev[o[i]] == Behind(o, l, i)
  }

  /** The pointers of list l spell out the sequence o. */
  ghost predicate Spells(n: Nodes, l: int, o: seq<int>) {
    && 0 <= l < |n.first| && n.first[l] == At(o, 0) && |n.next| == |n.prev|
    && forall i :: 0 <= i < |o| ==> NodeOk(n, l, o, i)
  }

  /** No node twice on a list, none on two lists; `member` says which list a node is on, -1 for none. */
  ghost predicate Apart(member: seq<int>, l: int, o: seq<int>) {
    && (forall i :: 0 <= i < |o| ==> 0 <= o[i] < |member| && member[o[i]] == l)
    && (forall i, j :: 0 <= i < j < |o| ==> o[i] != o[j])
  }

  ghost predicate AllOk(n: Nodes, lists: seq<seq<int>>, member: seq<int>) {
    && |lists| == |n.first| && |member| == |n.next| == |n.prev|
    && forall l :: 0 <= l < |lists| ==> Spells(n, l, lists[l]) && Apart(member, l, lists[l])
  }

  /** A change of the pointers of list l's nodes, or of a node on no list, does not concern another list. */
  lemma OtherList(n: Nodes, n': Nodes, l: int, k: int, o: seq<int>, member: seq<int>)
    requires Spells(n, k, o) && Apart(member, k, o) && k != l
    requires |member| == |n.next| == |n.prev| == |n'.next| == |n'.prev|
    requires |n'.first| == |n.first| && n'.first[k] == n.first[k]
    requires forall x :: 0 <= x < |member| && member[x] == k ==> n'.next[x] == n.next[x] && n'.prev[x] == n.prev[x]
    ensures Spells(n', k, o)
  {
    forall i | 0 <= i < |o| ensures NodeOk(n', k, o, i) {
      assert NodeOk(n, k, o, i);
    }
  }

  // ---------- LIST_INSERT_HEAD ----------

  function PushHead(n: Nodes, l: int, e: int): Nodes
    requires 0 <= l < |n.first| && 0 <= e < |n.next| == |n.prev| && -1 <= n.first[l] < |n.prev|
  {
    var f := n.first[l];
    var prev := if f != -1 then n.prev[f := NextOf(e)] else n.prev;
    Nodes(n.first[l := e], n.next[e := f], prev[e := First(l)])
  }

  lemma PushHeadSpells(n: Nodes, l: int, o: seq<int>, member: seq<int>, e: int)
    requires Spells(n, l, o) && Apart(member, l, o) && |member| == |n.next| && 0 <= e < |n.next| && member[e] == -1
    requires l >= 0
    ensures -1 <= n.first[l] < |n.prev| && (n.first[l] != -1 ==> member[n.first[l]] == l)
    ensures Spells(PushHead(n, l, e), l, [e] + o)
  {
    assert o != [] ==> NodeOk(n, l, o, 0);
    var n', o' := PushHead(n, l, e), [e] + o;
    forall i | 0 <= i < |o'| ensures NodeOk(n', l, o', i) {
      if i > 0 {
        assert NodeOk(n, l, o, i - 1);
        assert o'[i] == o[i - 1] && At(o', i + 1) == At(o, i);
        assert i > 1 ==> o[0] != o[i - 1] && o'[i - 1] == o[i - 2];
      }
    }
  }

  // ---------- LIST_INSERT_TAIL ----------

  /** After the loop has found the last node. */
  function PushTail(n: Nodes, last: int, e: int): Nodes
    requires 0 <= e < |n.next| == |n.prev| && 0 <= last < |n.next|
  {
    Nodes(n.first, n.next[last := e][e := -1], n.prev[e := NextOf(last)])
  }

  lemma PushTailSpells(n: Nodes, l: int, o: seq<int>, member: seq<int>, e: int)
    requires Spells(n, l, o) && Apart(member, l, o) && |member| == |n.next| && 0 <= e < |n.next| && member[e] == -1
    requires l >= 0 && o != []
    ensures 0 <= o[|o| - 1] < |n.next| && member[o[|o| - 1]] == l && Spells(PushTail(n, o[|o| - 1], e), l, o + [e])
  {
    assert NodeOk(n, l, o, |o| - 1);
    var n', o' := PushTail(n, o[|o| - 1], e), o + [e];
    forall i | 0 <= i < |o'| ensures NodeOk(n', l, o', i) {
      if i < |o| {
        assert NodeOk(n, l, o, i);
        assert i < |o| - 1 ==> o[i] != o[|o| - 1];
      }
    }
  }

  // ---------- LIST_REMOVE ----------

  function SetAt(n: Nodes, at: Loc, x: int): Nodes {
    match at
    case First(l) => if 0 <= l < |n.first| then n.(first := n.first[l := x]) else n
    case NextOf(p) => if 0 <= p < |n.next| then n.(next := n.next[p := x]) else n
  }

  /** The macro does not know the list: it stores through `prev`. */
  function Unlink(n: Nodes, e: int): Nodes
    requires 0 <= e < |n.next| == |n.prev| && -1 <= n.next[e] < |n.prev|
  {
    var n1 := if n.next[e] != -1 then n.(prev := n.prev[n.next[e] := n.prev[e]]) else n;
    SetAt(n1, n1.prev[e], n1.next[e])
  }

  lemma UnlinkSpells(n: Nodes, l: int, o: seq<int>, member: seq<int>, k: int)
    requires Spells(n, l, o) && Apart(member, l, o) && |member| == |n.next| && 0 <= k < |o|
    ensures 0 <= o[k] < |n.next| && -1 <= n.next[o[k]] < |n.prev| && Spells(Unlink(n, o[k]), l, Without(o, k))
  {
    assert NodeOk(n, l, o, k);
    assert k + 1 < |o| ==> NodeOk(n, l, o, k + 1);
    assert k > 0 ==> NodeOk(n, l, o, k - 1);
    var n', o' := Unlink(n, o[k]), Without(o, k);
    forall i | 0 <= i < |o'| ensures NodeOk(n', l, o', i) {
      UnlinkNode(n, l, o, member, k, i);
    }
  }

  lemma UnlinkNode(n: Nodes, l: int, o: seq<int>, member: seq<int>, k: int, i: int)
    requires Spells(n, l, o) && Apart(member, l, o) && |member| == |n.next| && 0 <= k < |o| && 0 <= i < |o| - 1
    requires 0 <= o[k] < |n.next| && -1 <= n.next[o[k]] < |n.prev|
    ensures NodeOk(Unlink(n, o[k]), l, Without(o, k), i)
  {
    hide Apart, Spells;
    var j := if i < k then i else i + 1;
    SpellsAt(n, l, o, k);
    SpellsAt(n, l, o, j);
    Differ(member, l, o, j, k);
    if k > 0 { SpellsAt(n, l, o, k - 1); Differ(member, l, o, j, k - 1); }
    if k + 1 < |o| { SpellsAt(n, l, o, k + 1); Differ(member, l, o, j, k + 1); Differ(member, l, o, k, k + 1); }
  }

  lemma SpellsAt(n: Nodes, l: int, o: seq<int>, i: int)
    requires Spells(n, l, o) && 0 <= i < |o|
    ensures NodeOk(n, l, o, i) && 0 <= l < |n.first| && |n.next| == |n.prev|
  {
  }

  lemma Differ(member: seq<int>, l: int, o: seq<int>, i: int, j: int)
    requires Apart(member, l, o) && 0 <= i < |o| && 0 <= j < |o|
    ensures o[i] == o[j] ==> i == j
  {
  }

  /** Lists that share their nodes' link field, as the free and used lists of threads do. */
  class Links {
    var first: seq<int>
    var next: seq<int>
    var prev: seq<Loc>
    ghost var lists: seq<seq<int>>
    ghost var member: seq<int>

    ghost function N(): Nodes
      reads this
    {
      Nodes(first, next, prev)
    }

    ghost predicate Valid()
      reads this
    {
      AllOk(N(), lists, member)
    }

    /** LIST_INIT of k lists; no node is on one. */
    constructor (k: nat, nodes: nat)
      ensures Valid() && lists == seq(k, l => []) && member == seq(nodes, x => -1)
    {
      first := seq(k, l => -1);
      next, prev := seq(nodes, x => -1), seq(nodes, x => First(-1));
      lists, member := seq(k, l => []), seq(nodes, x => -1);
    }

    method InsertHead(l: int, e: int)
      requires Valid() && 0 <= l < |lists| && 0 <= e < |member| && member[e] == -1
      modifies this
      ensures Valid() && lists == old(lists)[l := [e] + old(lists)[l]] && member == old(member)[e := l]
    {
      hide Spells, Apart, NodeOk;
      PushHeadSpells(N(), l, lists[l], member, e);
      ghost var n := PushHead(N(), l, e);
      Grown(N(), n, lists, member, l, e, [e] + lists[l]);
      next := next[e := first[l]];
      if next[e] != -1 {
        prev := prev[first[l] := NextOf(e)];
      }
      first := first[l := e];
      prev := prev[e := First(l)];
      assert N() == n;
      lists := lists[l := [e] + lists[l]];
      member := member[e := l];
    }

    /** LIST_INSERT_TAIL: the new node's own `next` walks to the last node. */
    method InsertTail(l: int, e: int)
      requires Valid() && 0 <= l < |lists| && 0 <= e < |member| && member[e] == -1
      modifies this
      ensures Valid() && lists == old(lists)[l := old(lists)[l] + [e]] && member == old(member)[e := l]
    {
      hide Spells, Apart, NodeOk;
      ghost var o, n0 := lists[l], N();
      HeadIs(n0, l, o);
      if first[l] == -1 {
        InsertHead(l, e);
        assert o == [] && [e] + o == o + [e];
        return;
      }
      PushTailSpells(n0, l, o, member, e);
      ghost var n := PushTail(n0, o[|o| - 1], e);
      Grown(n0, n, lists, member, l, e, o + [e]);
      ghost var i := 0;
      next := next[e := first[l]];
      StepOn(n0, l, o, member, e, 0);
      while next[next[e]] != -1
        invariant 0 <= i < |o| && N() == n0.(next := n0.next[e := o[i]]) && 0 <= o[i] < |next| && o[i] != e
        invariant lists == old(lists) && member == old(member) && next[o[i]] == At(o, i + 1)
        decreases |o| - i
      {
        StepOn(n0, l, o, member, e, i + 1);
        next := next[e := next[next[e]]];
        i := i + 1;
      }
      LastIs(n0, l, o, i);
      next := next[next[e] := e];
      prev := prev[e := NextOf(next[e])];
      next := next[e := -1];
      assert N() == n;
      lists := lists[l := o + [e]];
      member := member[e := l];
    }

    method Remove(e: int, ghost l: int, ghost k: int)
      requires Valid() && 0 <= l < |lists| && 0 <= k < |lists[l]| && lists[l][k] == e
      modifies this
      ensures Valid() && lists == old(lists)[l := Without(old(lists)[l], k)] && 0 <= e < |old(member)|
      ensures member == old(member)[e := -1]
    {
      hide Spells, Apart, NodeOk;
      UnlinkSpells(N(), l, lists[l], member, k);
      ghost var n := Unlink(N(), e);
      Shrunk(N(), lists, member, l, k);
      if next[e] != -1 {
        prev := prev[next[e] := prev[e]];
      }
      match prev[e] {
        case First(h) => if 0 <= h < |first| { first := first[h := next[e]]; }
        case NextOf(p) => if 0 <= p < |next| { next := next[p := next[e]]; }
      }
      assert N() == n;
      lists := lists[l := Without(lists[l], k)];
      member := member[e := -1];
    }
  }

  lemma HeadIs(n: Nodes, l: int, o: seq<int>)
    requires Spells(n, l, o)
    ensures 0 <= l < |n.first| && n.first[l] == At(o, 0) && (o != [] ==> n.first[l] != -1)
  {
    assert o != [] ==> NodeOk(n, l, o, 0);
  }

  lemma StepOn(n: Nodes, l: int, o: seq<int>, member: seq<int>, e: int, i: int)
    requires Spells(n, l, o) && Apart(member, l, o) && |member| == |n.next| && 0 <= i < |o| && 0 <= e < |member|
    requires member[e] == -1 && l >= 0
    ensures 0 <= o[i] < |n.next| && o[i] != e && n.next[o[i]] == At(o, i + 1)
  {
    assert NodeOk(n, l, o, i);
  }

  lemma LastIs(n: Nodes, l: int, o: seq<int>, i: int)
    requires Spells(n, l, o) && 0 <= i < |o| && At(o, i + 1) == -1
    ensures i == |o| - 1
  {
    assert i + 1 < |o| ==> NodeOk(n, l, o, i + 1);
  }

  /** Node e, on no list before, is now on list l, which spells o. */
  lemma Grown(n: Nodes, n': Nodes, lists: seq<seq<int>>, member: seq<int>, l: int, e: int, o: seq<int>)
    requires AllOk(n, lists, member) && 0 <= l < |lists| && 0 <= e < |member| && member[e] == -1
    requires o == [e] + lists[l] || o == lists[l] + [e]
    requires Spells(n', l, o) && |n'.first| == |n.first| && |n'.next| == |n.next|
    requires (forall k :: 0 <= k < |n.first| && k != l ==> n'.first[k] == n.first[k])
    requires forall x :: 0 <= x < |member| && x != e && member[x] != l ==>
               n'.next[x] == n.next[x] && n'.prev[x] == n.prev[x]
    ensures AllOk(n', lists[l := o], member[e := l])
  {
    hide NodeOk;
    var lists', member' := lists[l := o], member[e := l];
    forall k | 0 <= k < |lists| ensures Spells(n', k, lists'[k]) && Apart(member', k, lists'[k]) {
      assert Spells(n, k, lists[k]) && Apart(member, k, lists[k]);
      if k != l {
        OtherList(n, n', l, k, lists[k], member);
      } else {
        assert Apart(member, l, lists[l]);
      }
    }
  }

  /** LIST_REMOVE changes only pointers of its own list. */
  lemma UnlinkFrame(n: Nodes, l: int, o: seq<int>, member: seq<int>, k: int)
    requires Spells(n, l, o) && Apart(member, l, o) && |member| == |n.next| && 0 <= k < |o|
    requires 0 <= o[k] < |n.next| && -1 <= n.next[o[k]] < |n.prev|
    ensures var n' := Unlink(n, o[k]);
            && |n'.first| == |n.first| && |n'.next| == |n.next| && |n'.prev| == |n.prev|
            && (forall j :: 0 <= j < |n.first| && j != l ==> n'.first[j] == n.first[j])
            && (forall x :: 0 <= x < |member| && member[x] != l ==> n'.next[x] == n.next[x] && n'.prev[x] == n.prev[x])
  {
    hide NodeOk;
    assert NodeOk(n, l, o, k);
    NodeIs(n, l, o, k);
  }

  lemma NodeIs(n: Nodes, l: int, o: seq<int>, k: int)
    requires 0 <= k < |o| && NodeOk(n, l, o, k)
    ensures 0 <= o[k] < |n.next| && o[k] < |n.prev| && n.next[o[k]] == At(o, k + 1) && n.prev[o[k]] == Behind(o, l, k)
  {
  }

  lemma WithoutApart(member: seq<int>, l: int, o: seq<int>, k: int)
    requires Apart(member, l, o) && 0 <= k < |o|
    ensures Apart(member[o[k] := -1], l, Without(o, k))
  {
    forall i | 0 <= i < |o| - 1 ensures Without(o, k)[i] != o[k] {
      var j := if i < k then i else i + 1;
      assert j < k ==> o[j] != o[k];
      assert k < j ==> o[k] != o[j];
    }
  }

  lemma Shrunk(n: Nodes, lists: seq<seq<int>>, member: seq<int>, l: int, k: int)
    requires AllOk(n, lists, member) && 0 <= l < |lists| && 0 <= k < |lists[l]|
    requires 0 <= lists[l][k] < |n.next| && -1 <= n.next[lists[l][k]] < |n.prev|
    requires Spells(Unlink(n, lists[l][k]), l, Without(lists[l], k))
    ensures AllOk(Unlink(n, lists[l][k]), lists[l := Without(lists[l], k)], member[lists[l][k] := -1])
  {
    hide Unlink, Spells, Apart, Without;
    var o, e := lists[l], lists[l][k];
    var n', lists', member' := Unlink(n, e), lists[l := Without(o, k)], member[e := -1];
    assert Spells(n, l, o) && Apart(member, l, o);
    UnlinkFrame(n, l, o, member, k);
    WithoutApart(member, l, o, k);
    IsMember(member, l, o, k);
    forall j | 0 <= j < |lists| ensures Spells(n', j, lists'[j]) && Apart(member', j, lists'[j]) {
      assert Spells(n, j, lists[j]) && Apart(member, j, lists[j]);
      if j != l {
        OtherList(n, n', l, j, lists[j], member);
        StillApart(member, j, lists[j], e);
      }
    }
  }

  lemma IsMember(member: seq<int>, l: int, o: seq<int>, k: int)
    requires Apart(member, l, o) && 0 <= k < |o|
    ensures 0 <= o[k] < |member| && member[o[k]] == l
  {
  }

  lemma StillApart(member: seq<int>, j: int, o: seq<int>, e: int)
    requires Apart(member, j, o) && 0 <= e < |member| && member[e] != j
    ensures Apart(member[e := -1], j, o)
  {
  }
}
