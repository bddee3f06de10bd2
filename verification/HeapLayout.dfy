/**
 The blocks of user/userHeap.c as values.  Addresses count headers of 16 bytes: a
 block of n units at address a is its header at a and n - 1 units for the caller.
 The free list is written in address order, starting with the empty block `base`.
 */
module HeapLayout {

  datatype Block = Block(addr: int, size: nat)
  datatype Header = Header(ptr: int, size: nat)

  function End(b: Block): int { b.addr + b.size }

  // ---------- the free list ----------

  /** Address-ordered, not overlapping, and no block ends where the next one starts. */
  ghost predicate Ordered(fl: seq<Block>) {
    forall i, j :: 0 <= i < j < |fl| ==> End(fl[i]) < fl[j].addr
  }

  ghost predicate FreeList(fl: seq<Block>, base: int) {
    && |fl| > 0 && fl[0] == Block(base, 0) && Ordered(fl)
    && forall i :: 1 <= i < |fl| ==> fl[i].size > 0
  }

  function Next(fl: seq<Block>, i: int): (j: int)
    requires 0 <= i < |fl|
    ensures 0 <= j < |fl|
  {
    if i + 1 < |fl| then i + 1 else 0
  }

  /** The headers in memory form the circular list: one wrap, from the last block back to base. */
  ghost predicate Circular(fl: seq<Block>, hdr: map<int, Header>) {
    forall i :: 0 <= i < |fl| ==> LinkedAt(fl, hdr, i)
  }

  ghost predicate LinkedAt(fl: seq<Block>, hdr: map<int, Header>, i: int)
    requires 0 <= i < |fl|
  {
    fl[i].addr in hdr && hdr[fl[i].addr] == Header(fl[Next(fl, i)].addr, fl[i].size)
  }

  // ---------- free and live blocks together ----------

  ghost predicate InFree(fl: seq<Block>, u: int) {
    exists i :: 0 <= i < |fl| && fl[i].addr <= u < End(fl[i])
  }

  ghost predicate InLive(live: map<int, nat>, u: int) {
    exists a :: a in live && a <= u < a + live[a]
  }

  predicate Apart(a: int, n: int, b: int, m: int) { a + n <= b || b + m <= a }

  ghost predicate LiveBlocks(live: map<int, nat>, base: int) {
    && (forall a :: a in live ==> live[a] > 0 && a > base)
    && (forall a, b :: a in live && b in live && a != b ==> Apart(a, live[a], b, live[b]))
  }

  ghost predicate LiveFreeApart(fl: seq<Block>, live: map<int, nat>) {
    forall a, i :: a in live && 0 <= i < |fl| ==> Apart(a, live[a], fl[i].addr, fl[i].size)
  }

  /** Every unit obtained from sbrk is in a live or in a free block, and in nothing else. */
  ghost predicate Conserved(fl: seq<Block>, live: map<int, nat>, units: set<int>) {
    forall u :: u in units <==> InFree(fl, u) || InLive(live, u)
  }

  ghost predicate Below(units: set<int>, base: int, brk: int) {
    base < brk && forall u :: u in units ==> base < u < brk
  }

  ghost predicate Layout(fl: seq<Block>, live: map<int, nat>, units: set<int>, base: int, brk: int) {
    && FreeList(fl, base) && LiveBlocks(live, base) && LiveFreeApart(fl, live)
    && Conserved(fl, live, units) && Below(units, base, brk)
  }

  /** Together: each unit lies in exactly one block. */
  lemma OneBlock(fl: seq<Block>, live: map<int, nat>, units: set<int>, base: int, brk: int, u: int)
    requires Layout(fl, live, units, base, brk) && u in units
    ensures InFree(fl, u) != InLive(live, u)
    ensures forall i, j :: 0 <= i < |fl| && 0 <= j < |fl| ==>
              fl[i].addr <= u < End(fl[i]) && fl[j].addr <= u < End(fl[j]) ==> i == j
    ensures forall a, b :: a in live && b in live && a <= u < a + live[a] && b <= u < b + live[b] ==> a == b
  {
    hide Below;
    if InFree(fl, u) {
      var i :| 0 <= i < |fl| && fl[i].addr <= u < End(fl[i]);
      forall a | a in live ensures !(a <= u < a + live[a]) {
        assert Apart(a, live[a], fl[i].addr, fl[i].size);
      }
    }
  }

  // ---------- where a block goes in the list ----------

  /** fl[k] is the last free block before address a. */
  predicate Before(fl: seq<Block>, k: int, a: int) {
    0 <= k < |fl| && fl[k].addr < a && (k + 1 < |fl| ==> a < fl[k + 1].addr)
  }

  ghost function Position(fl: seq<Block>, a: int, n: nat): (k: nat)
    requires 0 < n <= |fl| && fl[0].addr < a && (n < |fl| ==> a < fl[n].addr)
    requires forall i :: 0 <= i < |fl| ==> fl[i].addr != a
    ensures Before(fl, k, a)
    decreases n
  {
    if fl[n - 1].addr < a then n - 1 else Position(fl, a, n - 1)
  }

  // ---------- exchanging part of the list ----------

  /** fl with fl[x..y] exchanged for m. */
  function Exchange(fl: seq<Block>, x: int, y: int, m: seq<Block>): (f: seq<Block>)
    requires 0 <= x <= y <= |fl|
    ensures |f| == |fl| - (y - x) + |m|
    ensures forall i :: 0 <= i < x ==> f[i] == fl[i]
    ensures forall i :: 0 <= i < |m| ==> f[x + i] == m[i]
    ensures forall i :: x + |m| <= i < |f| ==> f[i] == fl[i - x - |m| + y]
  {
    fl[..x] + m + fl[y..]
  }

  lemma ExchangeList(fl: seq<Block>, base: int, x: int, y: int, m: seq<Block>)
    requires FreeList(fl, base) && 0 < x <= y <= |fl| && |m| <= 1
    requires m != [] ==> m[0].size > 0 && End(fl[x - 1]) < m[0].addr && (y < |fl| ==> End(m[0]) < fl[y].addr)
    ensures FreeList(Exchange(fl, x, y, m), base)
  {
    hide End;
    var f := Exchange(fl, x, y, m);
    forall i, j | 0 <= i < j < |f| ensures End(f[i]) < f[j].addr {
      var i', j' := i - x - |m| + y, j - x - |m| + y;
      if m != [] && j == x {
        assert i < x - 1 ==> End(fl[i]) < fl[x - 1].addr <= End(fl[x - 1]) by { EndIsPast(fl[x - 1]); }
      } else if m != [] && i == x {
        assert y < j' ==> End(m[0]) < fl[y].addr <= End(fl[y]) < fl[j'].addr by { EndIsPast(fl[y]); }
      }
    }
  }

  lemma EndIsPast(b: Block)
    ensures b.addr <= End(b)
  {
  }

  ghost predicate InPart(fl: seq<Block>, x: int, y: int, u: int)
    requires 0 <= x <= y <= |fl|
  {
    exists i :: x <= i < y && fl[i].addr <= u < End(fl[i])
  }

  lemma Parts(fl: seq<Block>, x: int, y: int, u: int)
    requires 0 <= x <= y <= |fl|
    ensures InFree(fl, u) <==> InPart(fl, 0, x, u) || InPart(fl, x, y, u) || InPart(fl, y, |fl|, u)
  {
  }

  lemma ExchangeUnits(fl: seq<Block>, x: int, y: int, m: seq<Block>, u: int)
    requires 0 <= x <= y <= |fl|
    ensures InFree(Exchange(fl, x, y, m), u) <==> InPart(fl, 0, x, u) || InFree(m, u) || InPart(fl, y, |fl|, u)
  {
    var f := Exchange(fl, x, y, m);
    Parts(f, x, x + |m|, u);
    if InPart(fl, y, |fl|, u) {
      var i :| y <= i < |fl| && fl[i].addr <= u < End(fl[i]);
      assert f[i - y + x + |m|] == fl[i];
    }
    if InFree(m, u) {
      var i :| 0 <= i < |m| && m[i].addr <= u < End(m[i]);
      assert f[x + i] == m[i];
    }
    if InPart(f, x, x + |m|, u) {
      var i :| x <= i < x + |m| && f[i].addr <= u < End(f[i]);
      assert m[i - x] == f[i];
    }
    if InPart(f, x + |m|, |f|, u) {
      var i :| x + |m| <= i < |f| && f[i].addr <= u < End(f[i]);
      assert fl[i - x - |m| + y] == f[i];
    }
  }

  // ---------- giving a block back ----------

  /** Block b may come back behind fl[k]. */
  predicate Fits(fl: seq<Block>, k: int, b: Block) {
    && 0 <= k < |fl| && b.size > 0 && End(fl[k]) <= b.addr && fl[k].addr < b.addr
    && (k + 1 < |fl| ==> End(b) <= fl[k + 1].addr)
  }

  predicate JoinsNext(fl: seq<Block>, k: int, b: Block)
    requires 0 <= k < |fl|
  {
    k + 1 < |fl| && End(b) == fl[k + 1].addr
  }

  predicate JoinsPrev(fl: seq<Block>, k: int, b: Block)
    requires 0 <= k < |fl|
  {
    End(fl[k]) == b.addr
  }

  /** Block b together with the free blocks it touches. */
  function Merged(fl: seq<Block>, k: int, b: Block): Block
    requires 0 <= k < |fl|
  {
    var size := if JoinsNext(fl, k, b) then b.size + fl[k + 1].size else b.size;
    if JoinsPrev(fl, k, b) then Block(fl[k].addr, fl[k].size + size) else Block(b.addr, size)
  }

  /** The free list after block b comes back behind fl[k]. */
  function Give(fl: seq<Block>, k: int, b: Block): seq<Block>
    requires 0 <= k < |fl|
  {
    Exchange(fl, if JoinsPrev(fl, k, b) then k else k + 1, if JoinsNext(fl, k, b) then k + 2 else k + 1,
             [Merged(fl, k, b)])
  }

  lemma GiveList(fl: seq<Block>, base: int, k: int, b: Block)
    requires FreeList(fl, base) && Fits(fl, k, b)
    ensures FreeList(Give(fl, k, b), base)
  {
    hide Exchange;
    ExchangeList(fl, base, if JoinsPrev(fl, k, b) then k else k + 1, if JoinsNext(fl, k, b) then k + 2 else k + 1,
                 [Merged(fl, k, b)]);
  }

  lemma GiveUnits(fl: seq<Block>, base: int, k: int, b: Block, u: int)
    requires FreeList(fl, base) && Fits(fl, k, b)
    ensures InFree(Give(fl, k, b), u) <==> InFree(fl, u) || b.addr <= u < End(b)
  {
    hide Exchange, FreeList;
    var x, y := if JoinsPrev(fl, k, b) then k else k + 1, if JoinsNext(fl, k, b) then k + 2 else k + 1;
    var m := [Merged(fl, k, b)];
    Parts(fl, x, y, u);
    ExchangeUnits(fl, x, y, m, u);
    assert InFree(m, u) <==> m[0].addr <= u < End(m[0]);
    assert InPart(fl, x, y, u) <==>
           (x == k && fl[k].addr <= u < End(fl[k])) || (y == k + 2 && fl[k + 1].addr <= u < End(fl[k + 1]));
  }

  // ---------- taking a block ----------

  /** The free list after n units are taken from the end of fl[k], or all of it. */
  function Take(fl: seq<Block>, k: int, n: nat): seq<Block>
    requires 0 <= k < |fl| && fl[k].size >= n
  {
    Exchange(fl, k, k + 1, if fl[k].size == n then [] else [Block(fl[k].addr, fl[k].size - n)])
  }

  lemma TakeList(fl: seq<Block>, base: int, k: int, n: nat)
    requires FreeList(fl, base) && 0 <= k < |fl| && 0 < n <= fl[k].size
    ensures FreeList(Take(fl, k, n), base)
  {
    hide Exchange;
    ExchangeList(fl, base, k, k + 1, if fl[k].size == n then [] else [Block(fl[k].addr, fl[k].size - n)]);
  }

  lemma TakeUnits(fl: seq<Block>, base: int, k: int, n: nat, u: int)
    requires FreeList(fl, base) && 0 <= k < |fl| && 0 < n <= fl[k].size
    ensures InFree(Take(fl, k, n), u) <==> InFree(fl, u) && !(End(fl[k]) - n <= u < End(fl[k]))
  {
    hide Exchange;
    var m := if fl[k].size == n then [] else [Block(fl[k].addr, fl[k].size - n)];
    Parts(fl, k, k + 1, u);
    ExchangeUnits(fl, k, k + 1, m, u);
    assert InPart(fl, k, k + 1, u) <==> fl[k].addr <= u < End(fl[k]);
    assert InFree(m, u) <==> m != [] && m[0].addr <= u < End(m[0]);
    assert InPart(fl, 0, k, u) ==> u < fl[k].addr;
    assert InPart(fl, k + 1, |fl|, u) ==> u > End(fl[k]);
  }

  // ---------- the whole layout ----------

  /** free: a live block becomes free. */
  lemma GiveLayout(fl: seq<Block>, live: map<int, nat>, units: set<int>, base: int, brk: int, k: int, a: int)
    requires Layout(fl, live, units, base, brk) && a in live && Before(fl, k, a)
    ensures Fits(fl, k, Block(a, live[a]))
    ensures Layout(Give(fl, k, Block(a, live[a])), live - {a}, units, base, brk)
  {
    var b := Block(a, live[a]);
    assert Apart(a, live[a], fl[k].addr, fl[k].size);
    assert k + 1 < |fl| ==> Apart(a, live[a], fl[k + 1].addr, fl[k + 1].size);
    GiveList(fl, base, k, b);
    GiveApart(fl, live, base, k, a);
    GiveConserved(fl, live, units, base, k, a);
  }

  lemma GiveApart(fl: seq<Block>, live: map<int, nat>, base: int, k: int, a: int)
    requires FreeList(fl, base) && LiveBlocks(live, base) && LiveFreeApart(fl, live) && a in live
    requires Fits(fl, k, Block(a, live[a]))
    ensures LiveFreeApart(Give(fl, k, Block(a, live[a])), live - {a})
  {
    hide FreeList, Exchange;
    var b := Block(a, live[a]);
    var f, l := Give(fl, k, b), live - {a};
    forall c, i | c in l && 0 <= i < |f| ensures Apart(c, l[c], f[i].addr, f[i].size) {
      assert Apart(c, live[c], a, live[a]) && Apart(c, live[c], fl[k].addr, fl[k].size);
      assert k + 1 < |fl| ==> Apart(c, live[c], fl[k + 1].addr, fl[k + 1].size);
      var x, y := if JoinsPrev(fl, k, b) then k else k + 1, if JoinsNext(fl, k, b) then k + 2 else k + 1;
      if i < x {
        assert f[i] == fl[i];
      } else if i > x {
        assert f[i] == fl[i - x - 1 + y];
      } else {
        var m := [Merged(fl, k, b)];
        assert m[0] == f[x + 0];
      }
    }
  }

  lemma GiveConserved(fl: seq<Block>, live: map<int, nat>, units: set<int>, base: int, k: int, a: int)
    requires FreeList(fl, base) && LiveBlocks(live, base) && Conserved(fl, live, units) && a in live
    requires Fits(fl, k, Block(a, live[a]))
    ensures Conserved(Give(fl, k, Block(a, live[a])), live - {a}, units)
  {
    hide FreeList, InFree, Give;
    var b := Block(a, live[a]);
    forall u ensures u in units <==> InFree(Give(fl, k, b), u) || InLive(live - {a}, u) {
      GiveUnits(fl, base, k, b, u);
      LiveWithout(live, base, a, u);
    }
  }

  lemma LiveWithout(live: map<int, nat>, base: int, a: int, u: int)
    requires LiveBlocks(live, base) && a in live
    ensures InLive(live, u) <==> InLive(live - {a}, u) || a <= u < a + live[a]
  {
    var l := live - {a};
    if InLive(live, u) {
      var c :| c in live && c <= u < c + live[c];
      assert c != a ==> c in l && l[c] == live[c];
    }
    if InLive(l, u) {
      var c :| c in l && c <= u < c + l[c];
      assert c in live && live[c] == l[c];
    }
  }

  lemma LiveWith(live: map<int, nat>, a: int, n: nat, u: int)
    requires a !in live
    ensures InLive(live[a := n], u) <==> InLive(live, u) || a <= u < a + n
  {
    var l := live[a := n];
    if InLive(live, u) {
      var c :| c in live && c <= u < c + live[c];
      assert c in l && l[c] == live[c];
    }
    if a <= u < a + n {
      assert a in l && l[a] == n;
    }
  }

  /** malloc: n units of a free block become live. */
  lemma TakeLayout(fl: seq<Block>, live: map<int, nat>, units: set<int>, base: int, brk: int, k: int, n: nat)
    requires Layout(fl, live, units, base, brk) && 0 <= k < |fl| && 0 < n <= fl[k].size
    ensures End(fl[k]) - n !in live
    ensures Layout(Take(fl, k, n), live[End(fl[k]) - n := n], units, base, brk)
  {
    var a := End(fl[k]) - n;
    assert a in live ==> Apart(a, live[a], fl[k].addr, fl[k].size);
    TakeList(fl, base, k, n);
    TakeApart(fl, live, base, k, n);
    TakeConserved(fl, live, units, base, k, n);
  }

  lemma TakeApart(fl: seq<Block>, live: map<int, nat>, base: int, k: int, n: nat)
    requires FreeList(fl, base) && LiveBlocks(live, base) && LiveFreeApart(fl, live)
    requires 0 <= k < |fl| && 0 < n <= fl[k].size && End(fl[k]) - n !in live
    ensures LiveBlocks(live[End(fl[k]) - n := n], base) && LiveFreeApart(Take(fl, k, n), live[End(fl[k]) - n := n])
  {
    hide Take, Ordered;
    var a := End(fl[k]) - n;
    var f, l := Take(fl, k, n), live[a := n];
    Addresses(fl, base, 0, k);
    forall c | c in live ensures Apart(c, live[c], a, n) {
      assert Apart(c, live[c], fl[k].addr, fl[k].size);
    }
    forall c, i | c in l && 0 <= i < |f| ensures Apart(c, l[c], f[i].addr, f[i].size) {
      var j := TakeFrom(fl, base, k, n, i);
      assert c in live ==> Apart(c, live[c], fl[j].addr, fl[j].size);
    }
  }

  /** What is left of the free list lies in the old one and outside the units taken. */
  lemma TakeFrom(fl: seq<Block>, base: int, k: int, n: nat, i: int) returns (j: int)
    requires FreeList(fl, base) && 0 <= k < |fl| && 0 < n <= fl[k].size && 0 <= i < |Take(fl, k, n)|
    ensures 0 <= j < |fl| && var b := Take(fl, k, n)[i];
            && fl[j].addr == b.addr && b.size <= fl[j].size
            && Apart(End(fl[k]) - n, n, b.addr, b.size)
  {
    hide Ordered;
    j := if i < k then i else if fl[k].size == n then i + 1 else i;
    Addresses(fl, base, j, k);
    Addresses(fl, base, k, j);
  }

  lemma TakeConserved(fl: seq<Block>, live: map<int, nat>, units: set<int>, base: int, k: int, n: nat)
    requires FreeList(fl, base) && Conserved(fl, live, units) && 0 <= k < |fl| && 0 < n <= fl[k].size
    requires End(fl[k]) - n !in live
    ensures Conserved(Take(fl, k, n), live[End(fl[k]) - n := n], units)
  {
    hide FreeList, Take, Exchange;
    var a := End(fl[k]) - n;
    forall u ensures u in units <==> InFree(Take(fl, k, n), u) || InLive(live[a := n], u) {
      TakeUnits(fl, base, k, n, u);
      LiveWith(live, a, n, u);
    }
  }

  ghost function Units(a: int, n: nat): (r: set<int>)
    ensures forall u :: u in r <==> a <= u < a + n
  {
    if n == 0 then {} else Units(a, n - 1) + {a + n - 1}
  }

  /** sbrk: n new units past the break, as one live block. */
  lemma MoreLayout(fl: seq<Block>, live: map<int, nat>, units: set<int>, base: int, brk: int, a: int, n: nat)
    requires Layout(fl, live, units, base, brk) && a >= brk && n > 0
    ensures a !in live && forall i :: 0 <= i < |fl| ==> fl[i].addr != a
    ensures Layout(fl, live[a := n], units + Units(a, n), base, a + n)
  {
    var l, more := live[a := n], units + Units(a, n);
    forall c | c in live ensures c + live[c] <= brk {
      assert InLive(live, c + live[c] - 1);
    }
    forall i | 0 <= i < |fl| ensures End(fl[i]) <= brk {
      assert i > 0 ==> InFree(fl, End(fl[i]) - 1);
    }
    forall u ensures u in more <==> InFree(fl, u) || InLive(l, u) {
      LiveWith(live, a, n, u);
    }
  }

  // ---------- the headers ----------

  lemma Addresses(fl: seq<Block>, base: int, i: int, j: int)
    requires FreeList(fl, base) && 0 <= i < |fl| && 0 <= j < |fl|
    ensures i < j ==> fl[i].addr <= End(fl[i]) < fl[j].addr
    ensures fl[i].addr == fl[j].addr ==> i == j
    ensures fl[i].addr >= fl[Next(fl, i)].addr <==> i == |fl| - 1
  {
  }

  lemma LiveIsNotFree(fl: seq<Block>, live: map<int, nat>, units: set<int>, base: int, brk: int, a: int)
    requires Layout(fl, live, units, base, brk) && a in live
    ensures a > base && forall i :: 0 <= i < |fl| ==> fl[i].addr != a
  {
    forall i | 0 <= i < |fl| ensures fl[i].addr != a {
      assert Apart(a, live[a], fl[i].addr, fl[i].size);
    }
  }

  /** The two conditions of free's search: it stops at the block before a and nowhere else. */
  lemma SearchStops(fl: seq<Block>, base: int, k: int, t: int, a: int)
    requires FreeList(fl, base) && 0 <= k < |fl| && Before(fl, t, a) && a > base
    ensures var p, q := fl[k].addr, fl[Next(fl, k)].addr;
            (a > p && a < q) || (p >= q && (a > p || a < q)) <==> k == t
  {
    Addresses(fl, base, k, t);
    Addresses(fl, base, t, k);
    Addresses(fl, base, k, k);
    if k < t { Addresses(fl, base, Next(fl, k), t); }
    if t < k { Addresses(fl, base, t + 1, k); }
    Addresses(fl, base, 0, k);
  }

  predicate InMemory(hdr: map<int, Header>, p: int, bp: int) {
    p in hdr && bp in hdr && hdr[p].ptr in hdr
  }

  /** What free stores: first into the block's own header, then into its predecessor's. */
  function LinkOwn(hdr: map<int, Header>, p: int, bp: int): (r: map<int, Header>)
    requires InMemory(hdr, p, bp)
    ensures p in r && bp in r
  {
    var next := hdr[p].ptr;
    if bp + hdr[bp].size == next then hdr[bp := Header(hdr[next].ptr, hdr[bp].size + hdr[next].size)]
    else hdr[bp := Header(next, hdr[bp].size)]
  }

  function LinkIn(hdr: map<int, Header>, p: int, bp: int): map<int, Header>
    requires p in hdr && bp in hdr
  {
    if p + hdr[p].size == bp then hdr[p := Header(hdr[bp].ptr, hdr[p].size + hdr[bp].size)]
    else hdr[p := Header(bp, hdr[p].size)]
  }

  function AddrFrom(fl: seq<Block>, y: int): int
    requires 0 < |fl| && 0 <= y
  {
    if y < |fl| then fl[y].addr else fl[0].addr
  }

  /** The list stays circular when the headers on both sides of an exchange are set right. */
  lemma ExchangeCircular(fl: seq<Block>, hdr: map<int, Header>, h: map<int, Header>, x: int, y: int, m: seq<Block>)
    requires Circular(fl, hdr) && 0 < x <= y <= |fl| && |m| <= 1
    requires forall i :: 0 <= i < x - 1 || y <= i < |fl| ==>
               fl[i].addr in h && fl[i].addr in hdr && h[fl[i].addr] == hdr[fl[i].addr]
    requires fl[x - 1].addr in h
    requires h[fl[x - 1].addr] == Header(if m == [] then AddrFrom(fl, y) else m[0].addr, fl[x - 1].size)
    requires m != [] ==> m[0].addr in h && h[m[0].addr] == Header(AddrFrom(fl, y), m[0].size)
    ensures Circular(Exchange(fl, x, y, m), h)
  {
    hide Exchange;
    var f := Exchange(fl, x, y, m);
    if m != [] { assert f[x + 0] == m[0]; }
    if y < |fl| { assert f[x + |m|] == fl[y]; }
    forall i | 0 <= i < |f| ensures LinkedAt(f, h, i) {
      if i < x - 1 {
        assert LinkedAt(fl, hdr, i);
      } else if i >= x + |m| {
        var j := i - x - |m| + y;
        assert LinkedAt(fl, hdr, j);
        assert f[i] == fl[j];
        if j + 1 < |fl| { assert f[i + 1] == fl[j + 1]; }
      }
    }
  }

  lemma LinkFacts(fl: seq<Block>, hdr: map<int, Header>, base: int, k: int, b: Block)
    requires FreeList(fl, base) && Circular(fl, hdr) && Fits(fl, k, b) && b.addr > base
    requires b.addr in hdr && hdr[b.addr].size == b.size
    ensures var p := fl[k].addr;
            && InMemory(hdr, p, b.addr)
            && var h := LinkIn(LinkOwn(hdr, p, b.addr), p, b.addr);
               var to := AddrFrom(fl, if JoinsNext(fl, k, b) then k + 2 else k + 1);
               && p in h && b.addr in h
               && h[p] == (if JoinsPrev(fl, k, b) then Header(to, Merged(fl, k, b).size)
                           else Header(b.addr, fl[k].size))
               && (!JoinsPrev(fl, k, b) ==> h[b.addr] == Header(to, Merged(fl, k, b).size))
               && (forall q :: q in hdr && q != p && q != b.addr ==> q in h && h[q] == hdr[q])
  {
    hide Ordered;
    assert LinkedAt(fl, hdr, k) && LinkedAt(fl, hdr, Next(fl, k));
  }

  /** free's stores make the list Give. */
  lemma GiveCircular(fl: seq<Block>, hdr: map<int, Header>, base: int, k: int, b: Block)
    requires FreeList(fl, base) && Circular(fl, hdr) && Fits(fl, k, b) && b.addr > base
    requires b.addr in hdr && hdr[b.addr].size == b.size && forall i :: 0 <= i < |fl| ==> fl[i].addr != b.addr
    ensures var p := fl[k].addr;
            InMemory(hdr, p, b.addr) && Circular(Give(fl, k, b), LinkIn(LinkOwn(hdr, p, b.addr), p, b.addr))
  {
    hide Exchange, LinkIn, LinkOwn, Ordered;
    LinkFacts(fl, hdr, base, k, b);
    var h := LinkIn(LinkOwn(hdr, fl[k].addr, b.addr), fl[k].addr, b.addr);
    var x, y := if JoinsPrev(fl, k, b) then k else k + 1, if JoinsNext(fl, k, b) then k + 2 else k + 1;
    assert LinkedAt(fl, hdr, x - 1);
    forall i | 0 <= i < x || y <= i < |fl|
      ensures i != k ==> fl[i].addr in h && fl[i].addr in hdr && h[fl[i].addr] == hdr[fl[i].addr]
    {
      Addresses(fl, base, i, k);
      assert fl[i].addr != b.addr && LinkedAt(fl, hdr, i);
    }
    ExchangeCircular(fl, hdr, h, x, y, [Merged(fl, k, b)]);
  }

  /** What malloc stores when it takes n units from the block at p, whose predecessor is prev. */
  function Unlink(hdr: map<int, Header>, prev: int, p: int, n: nat): map<int, Header>
    requires p in hdr && prev in hdr && hdr[p].size >= n
  {
    if hdr[p].size == n then hdr[prev := Header(hdr[p].ptr, hdr[prev].size)]
    else
      var q := p + hdr[p].size - n;
      hdr[p := Header(hdr[p].ptr, hdr[p].size - n)][q := Header(if q in hdr then hdr[q].ptr else 0, n)]
  }

  lemma TakeCircular(fl: seq<Block>, hdr: map<int, Header>, base: int, j: int, n: nat)
    requires FreeList(fl, base) && Circular(fl, hdr) && 0 <= j < |fl| && 0 < n <= fl[Next(fl, j)].size
    ensures var k := Next(fl, j);
            && k == j + 1 && fl[k].addr in hdr && fl[j].addr in hdr && hdr[fl[k].addr].size == fl[k].size
            && Circular(Take(fl, k, n), Unlink(hdr, fl[j].addr, fl[k].addr, n))
  {
    hide Exchange;
    var k := Next(fl, j);
    assert LinkedAt(fl, hdr, j) && LinkedAt(fl, hdr, k);
    var h := Unlink(hdr, fl[j].addr, fl[k].addr, n);
    Addresses(fl, base, j, k);
    forall i | 0 <= i < j || k < i < |fl|
      ensures fl[i].addr in h && fl[i].addr in hdr && h[fl[i].addr] == hdr[fl[i].addr]
    {
      Addresses(fl, base, k, i);
      Addresses(fl, base, i, k);
      Addresses(fl, base, i, j);
      assert LinkedAt(fl, hdr, i);
    }
    ExchangeCircular(fl, hdr, h, k, k + 1, if fl[k].size == n then [] else [Block(fl[k].addr, fl[k].size - n)]);
  }

  /** The predecessor is still where it was. */
  lemma GiveAt(fl: seq<Block>, k: int, b: Block)
    requires Fits(fl, k, b)
    ensures k < |Give(fl, k, b)| && Give(fl, k, b)[k].addr == fl[k].addr
  {
    var f, m := Give(fl, k, b), [Merged(fl, k, b)];
    var x := if JoinsPrev(fl, k, b) then k else k + 1;
    assert f[x + 0] == m[0];
  }

  /** The stores of free leave the headers of the other live blocks alone. */
  lemma GiveHeaders(fl: seq<Block>, live: map<int, nat>, units: set<int>, base: int, brk: int, hdr: map<int, Header>,
                    k: int, bp: int, a: int)
    requires Layout(fl, live, units, base, brk) && Circular(fl, hdr) && bp in live && Fits(fl, k, Block(bp, live[bp]))
    requires bp in hdr && hdr[bp].size == live[bp]
    requires a in live && a != bp && a in hdr
    ensures InMemory(hdr, fl[k].addr, bp)
    ensures var h := LinkIn(LinkOwn(hdr, fl[k].addr, bp), fl[k].addr, bp); a in h && h[a] == hdr[a]
  {
    hide Give, FreeList, Conserved;
    LiveIsNotFree(fl, live, units, base, brk, bp);
    LiveIsNotFree(fl, live, units, base, brk, a);
    LinkFacts(fl, hdr, base, k, Block(bp, live[bp]));
  }

  lemma TakeHeaders(fl: seq<Block>, live: map<int, nat>, units: set<int>, base: int, brk: int, hdr: map<int, Header>,
                    j: int, n: nat, a: int)
    requires Layout(fl, live, units, base, brk) && Circular(fl, hdr) && 0 <= j < |fl| && 0 < n <= fl[Next(fl, j)].size
    requires fl[Next(fl, j)].addr in hdr && fl[j].addr in hdr && hdr[fl[Next(fl, j)].addr].size == fl[Next(fl, j)].size
    requires a in live && a in hdr
    ensures var h := Unlink(hdr, fl[j].addr, fl[Next(fl, j)].addr, n); a in h && h[a] == hdr[a]
  {
    LiveIsNotFree(fl, live, units, base, brk, a);
    var k := Next(fl, j);
    assert Apart(a, live[a], fl[k].addr, fl[k].size);
  }

  lemma OtherHeader(fl: seq<Block>, hdr: map<int, Header>, a: int, h: Header)
    requires Circular(fl, hdr) && forall i :: 0 <= i < |fl| ==> fl[i].addr != a
    ensures Circular(fl, hdr[a := h])
  {
    var hdr' := hdr[a := h];
    forall i | 0 <= i < |fl| ensures LinkedAt(fl, hdr', i) {
      assert LinkedAt(fl, hdr, i);
    }
  }

  lemma GiveLarge(fl: seq<Block>, k: int, b: Block)
    requires 0 <= k < |fl|
    ensures exists i :: 0 <= i < |Give(fl, k, b)| && Give(fl, k, b)[i].size >= b.size
  {
    var f, m := Give(fl, k, b), [Merged(fl, k, b)];
    var x := if JoinsPrev(fl, k, b) then k else k + 1;
    assert f[x + 0] == m[0] && f[x].size >= b.size;
  }

  /** The header of the units taken, and the block before them. */
  lemma TakeAt(fl: seq<Block>, hdr: map<int, Header>, base: int, j: int, n: nat)
    requires FreeList(fl, base) && base > 0 && 0 <= j < |fl| && 0 < n <= fl[Next(fl, j)].size
    requires fl[Next(fl, j)].addr in hdr && fl[j].addr in hdr && hdr[fl[Next(fl, j)].addr].size == fl[Next(fl, j)].size
    ensures var k := Next(fl, j);
            var q, h := End(fl[k]) - n, Unlink(hdr, fl[j].addr, fl[k].addr, n);
            && q > 0 && fl[j].addr != 0 && q in h && h[q].size == n
            && j < |Take(fl, k, n)| && Take(fl, k, n)[j] == fl[j]
  {
    hide Ordered, Exchange;
    var k := Next(fl, j);
    Addresses(fl, base, 0, j);
    Addresses(fl, base, 0, k);
    Addresses(fl, base, j, k);
  }
}
