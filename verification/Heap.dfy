/**
 user/userHeap.c: malloc, free and morecore over headers in memory.  A null pointer
 is 0.  What sbrk answers is an argument: a negative number for failure, otherwise
 how far other callers have moved the break meanwhile.
 */
module Heap {
  import opened HeapLayout

  const HEADER_BYTES: nat := 16
  const CORE_UNITS: nat := 4096

  /** The bytes behind the header of a block of n units. */
  function Room(n: nat): int { (n - 1) * HEADER_BYTES }

  /** The smallest number of units whose bytes behind the header are enough. */
  function UnitsFor(nbytes: nat): (n: nat)
    ensures n >= 1 && Room(n) >= nbytes && forall m: nat :: 1 <= m < n ==> Room(m) < nbytes
  {
    (nbytes + HEADER_BYTES - 1) / HEADER_BYTES + 1
  }

  /** What morecore asks sbrk for. */
  function Core(nu: nat): nat { if nu < CORE_UNITS then CORE_UNITS else nu }

  /** The index the search reaches after m steps from index f. */
  function Step(f: int, m: int, n: int): int { if f + m < n then f + m else f + m - n }

  /** After m steps from freep every block passed is too small. */
  ghost predicate TooSmall(fl: seq<Block>, f: int, m: int, nunits: nat) {
    0 <= f < |fl| && forall j :: 1 <= j < m <= |fl| ==> fl[Step(f, j, |fl|)].size < nunits
  }

  ghost predicate AllSmall(fl: seq<Block>, nunits: nat) {
    forall i :: 0 <= i < |fl| ==> fl[i].size < nunits
  }

  lemma NoneYet(fl: seq<Block>, f: int, nunits: nat)
    requires 0 <= f < |fl|
    ensures TooSmall(fl, f, 1, nunits)
  {
  }

  /** A full turn passes every block. */
  lemma FullTurn(fl: seq<Block>, f: int, nunits: nat, i: int)
    requires TooSmall(fl, f, |fl|, nunits) && fl[f].size < nunits && 0 <= i < |fl|
    ensures fl[i].size < nunits
  {
    var j := if i > f then i - f else i - f + |fl|;
    assert i != f ==> fl[Step(f, j, |fl|)].size < nunits;
  }

  /** The value of a size in sbrk's parameter, a 32-bit int. */
  function AsInt(n: nat): (x: int)
    ensures -0x8000_0000 <= x < 0x8000_0000 && (n - x) % 0x1_0000_0000 == 0
  {
    var m := n % 0x1_0000_0000;
    if m < 0x8000_0000 then m else m - 0x1_0000_0000
  }

  /** sbrk sees the size that morecore means exactly for requests of up to 2^31 - 32 bytes. */
  lemma SbrkSeesSizeIff(nbytes: nat)
    requires nbytes < 0x1_0000_0000
    ensures var size := HEADER_BYTES * Core(UnitsFor(nbytes)); AsInt(size) == size <==> nbytes <= 0x8000_0000 - 32
  {
    var n := (nbytes + 15) / 16 + 1;
    assert UnitsFor(nbytes) == n;
    assert 16 * n < 0x8000_0000 <==> nbytes <= 0x8000_0000 - 32;
  }

  class Allocator {
    const base: int
    var hdr: map<int, Header>
    var freep: int
    var brk: int
    ghost var fl: seq<Block>
    ghost var live: map<int, nat>
    ghost var units: set<int>

    /** freep is the address of free block f. */
    ghost predicate FreepAt(f: int)
      reads this
    {
      0 <= f < |fl| && fl[f].addr == freep
    }

    ghost predicate LiveHeaders()
      reads this
    {
      forall a :: a in live ==> a in hdr && hdr[a].size == live[a]
    }

    ghost predicate Valid()
      reads this
    {
      && 0 < base < brk && LiveHeaders()
      && if freep == 0 then fl == [] && live == map[] && units == {}
         else Layout(fl, live, units, base, brk) && Circular(fl, hdr) && exists f :: FreepAt(f)
    }

    constructor (baseAddress: int, breakAddress: int)
      requires 0 < baseAddress < breakAddress
      ensures Valid() && base == baseAddress && brk == breakAddress && live == map[] && units == {} && freep == 0
    {
      base, brk, freep := baseAddress, breakAddress, 0;
      hdr := map[];
      fl, live, units := [], map[], {};
    }

    /** free: the block is linked in at its place and joined with the free blocks it touches. */
    method Free(ap: int)
      requires Valid() && ap - 1 in live
      modifies this`hdr, this`freep, this`fl, this`live
      ensures Valid() && freep != 0 && live == old(live) - {ap - 1}
      ensures exists k :: Before(old(fl), k, ap - 1) && freep == old(fl)[k].addr &&
                          fl == Give(old(fl), k, Block(ap - 1, old(live)[ap - 1]))
    {
      hide Give, LinkIn, LinkOwn, LiveBlocks, LiveFreeApart, Conserved, Below, Ordered;
      var bp := ap - 1;
      LiveIsNotFree(fl, live, units, base, brk, bp);
      ghost var t := Position(fl, bp, |fl|);
      var p := freep;
      ghost var k :| FreepAt(k);
      assert LinkedAt(fl, hdr, k);
      SearchStops(fl, base, k, t, bp);
      while !(bp > p && bp < hdr[p].ptr)
        invariant unchanged(this) && 0 <= k < |fl| && p == fl[k].addr && LinkedAt(fl, hdr, k)
        invariant bp > p && bp < hdr[p].ptr ==> k == t
        decreases if k <= t then t - k else |fl| - k + t
      {
        SearchStops(fl, base, k, t, bp);
        if p >= hdr[p].ptr && (bp > p || bp < hdr[p].ptr) {
          break;
        }
        p := hdr[p].ptr;
        k := Next(fl, k);
        SearchStops(fl, base, k, t, bp);
      }
      assert k == t;
      GiveBack(k, bp, p);
    }

    /** free, once the place is found: the stores into the two headers. */
    method GiveBack(ghost k: int, bp: int, p: int)
      requires Valid() && bp in live && freep != 0 && Before(fl, k, bp) && p == fl[k].addr
      modifies this`hdr, this`freep, this`fl, this`live
      ensures Valid() && freep == p && freep != 0 && live == old(live) - {bp}
      ensures fl == Give(old(fl), k, Block(bp, old(live)[bp]))
    {
      hide Give, LinkIn, LinkOwn, Layout, Circular;
      ghost var b := Block(bp, live[bp]);
      GiveStep(k, bp);
      Store(p, bp);
      freep := p;
      fl := Give(fl, k, b);
      live := live - {bp};
      assert FreepAt(k);
    }

    lemma GiveStep(k: int, bp: int)
      requires Valid() && bp in live && freep != 0 && Before(fl, k, bp)
      ensures var b, p := Block(bp, live[bp]), fl[k].addr;
              && Layout(Give(fl, k, b), live - {bp}, units, base, brk)
              && InMemory(hdr, p, bp)
              && (var h := LinkIn(LinkOwn(hdr, p, bp), p, bp);
                  Circular(Give(fl, k, b), h) && forall a :: a in live && a != bp ==> a in h && h[a] == hdr[a])
              && k < |Give(fl, k, b)| && Give(fl, k, b)[k].addr == p && p != 0
    {
      hide Give, LinkIn, LinkOwn, LiveBlocks, LiveFreeApart, Conserved, Below, Ordered;
      var b, p := Block(bp, live[bp]), fl[k].addr;
      LiveIsNotFree(fl, live, units, base, brk, bp);
      GiveLayout(fl, live, units, base, brk, k, bp);
      GiveCircular(fl, hdr, base, k, b);
      GiveAt(fl, k, b);
      Addresses(fl, base, 0, k);
      forall a | a in live && a != bp ensures var h := LinkIn(LinkOwn(hdr, p, bp), p, bp); a in h && h[a] == hdr[a] {
        GiveHeaders(fl, live, units, base, brk, hdr, k, bp, a);
      }
    }

    method Store(p: int, bp: int)
      requires InMemory(hdr, p, bp)
      modifies this`hdr
      ensures hdr == LinkIn(LinkOwn(old(hdr), p, bp), p, bp)
    {
      var next := hdr[p].ptr;
      if bp + hdr[bp].size == next {
        hdr := hdr[bp := Header(hdr[next].ptr, hdr[bp].size + hdr[next].size)];
      } else {
        hdr := hdr[bp := Header(next, hdr[bp].size)];
      }
      if p + hdr[p].size == bp {
        hdr := hdr[p := Header(hdr[bp].ptr, hdr[p].size + hdr[bp].size)];
      } else {
        hdr := hdr[p := Header(bp, hdr[p].size)];
      }
    }

    /** morecore: at least 4096 units more, handed to free. */
    method Morecore(nu: nat, answer: int) returns (p: int)
      requires Valid() && freep != 0 && nu > 0
      modifies this
      ensures Valid() && freep != 0 && live == old(live) && p == if answer < 0 then 0 else freep
      ensures answer < 0 ==> unchanged(this)
      ensures answer >= 0 ==> !AllSmall(fl, nu)
      ensures answer >= 0 ==>
                units == old(units) + Units(old(brk) + answer, Core(nu)) && brk == old(brk) + answer + Core(nu)
    {
      hide Layout, Circular, Give;
      var n := Core(nu);
      if answer < 0 {
        return 0;
      }
      var hp := brk + answer;
      MoreStep(hp, n, Header(if hp in hdr then hdr[hp].ptr else 0, n));
      ghost var fl0, live0 := fl, live;
      hdr := hdr[hp := Header(if hp in hdr then hdr[hp].ptr else 0, n)];
      brk, live, units := hp + n, live[hp := n], units + Units(hp, n);
      assert exists f :: FreepAt(f) by { var f :| old(FreepAt(f)); assert FreepAt(f); }
      Free(hp + 1);
      assert live == live0;
      ghost var k :| Before(fl0, k, hp) && fl == Give(fl0, k, Block(hp, n));
      assert Before(fl0, k, hp);
      GiveLarge(fl0, k, Block(hp, n));
      p := freep;
    }

    lemma MoreStep(hp: int, n: nat, h: Header)
      requires Valid() && freep != 0 && hp >= brk && n > 0
      ensures hp !in live && Layout(fl, live[hp := n], units + Units(hp, n), base, hp + n)
      ensures Circular(fl, hdr[hp := h])
    {
      hide Layout, LinkedAt;
      MoreLayout(fl, live, units, base, brk, hp, n);
      OtherHeader(fl, hdr, hp, h);
    }

    /** malloc: nbytes bytes in a block that was free before or is new. */
    method Malloc(nbytes: nat, answer: int) returns (r: int)
      requires Valid()
      modifies this
      ensures Valid() && freep != 0
      ensures r == 0 <==> answer < 0 && AllSmall(old(fl), UnitsFor(nbytes))
      ensures r == 0 ==> live == old(live) && units == old(units) && brk == old(brk)
      ensures r != 0 ==> r - 1 !in old(live) && live == old(live)[r - 1 := UnitsFor(nbytes)]
      ensures units == old(units) || units == old(units) + Units(old(brk) + answer, Core(UnitsFor(nbytes)))
      ensures units != old(units) ==> AllSmall(old(fl), UnitsFor(nbytes))
    {
      hide Layout, Circular, Take, Step, TooSmall, UnitsFor;
      var nunits := UnitsFor(nbytes);
      if freep == 0 {
        Start();
      }
      ghost var fl0 := fl;
      ghost var f :| FreepAt(f);
      ghost var m, grown := 1, false;
      Turn(f, 0);
      NoneYet(fl, f, nunits);
      var prevp := freep;
      var p := hdr[prevp].ptr;
      while true
        invariant Valid() && freep != 0 && live == old(live) && FreepAt(f) && 1 <= m <= |fl|
        invariant At(f, m - 1, prevp) && At(f, m, p) && Next(fl, Step(f, m - 1, |fl|)) == Step(f, m, |fl|)
        invariant TooSmall(fl, f, m, nunits)
        invariant !grown ==> fl == fl0 && units == old(units) && brk == old(brk)
        invariant grown ==> answer >= 0 && units == old(units) + Units(old(brk) + answer, Core(nunits))
        invariant grown ==> AllSmall(fl0, nunits) && !AllSmall(fl, nunits)
        decreases !grown, |fl| - m
      {
        if hdr[p].size >= nunits {
          r := TakeFrom(prevp, p, nunits, Step(f, m - 1, |fl|));
          return;
        }
        if p == freep {
          FreepTurn(f, m, nunits);
          p := Morecore(nunits, answer);
          if p == 0 {
            return 0;
          }
          grown := true;
          f :| FreepAt(f);
          Turn(f, 0);
          NoneYet(fl, f, nunits);
          m := 0;
        } else {
          OneMore(f, m, nunits);
          Turn(f, m);
        }
        prevp, p := p, hdr[p].ptr;
        m := m + 1;
      }
    }

    /** p is the address m steps from freep, with its header in memory. */
    ghost predicate At(f: int, m: int, p: int)
      reads this
    {
      var k := Step(f, m, |fl|);
      0 <= k < |fl| && p == fl[k].addr && p in hdr && hdr[p].size == fl[k].size
    }

    lemma Turn(f: int, m: int)
      requires Valid() && freep != 0 && FreepAt(f) && 0 <= m < |fl|
      ensures At(f, 0, freep) && At(f, m, fl[Step(f, m, |fl|)].addr)
      ensures Next(fl, Step(f, m, |fl|)) == Step(f, m + 1, |fl|)
      ensures At(f, m + 1, hdr[fl[Step(f, m, |fl|)].addr].ptr)
    {
      hide Layout;
      assert LinkedAt(fl, hdr, f) && LinkedAt(fl, hdr, Step(f, m, |fl|)) && LinkedAt(fl, hdr, Step(f, m + 1, |fl|));
    }

    lemma OneMore(f: int, m: int, nunits: nat)
      requires Valid() && freep != 0 && FreepAt(f) && TooSmall(fl, f, m, nunits) && 1 <= m <= |fl|
      requires At(f, m, fl[Step(f, m, |fl|)].addr) && fl[Step(f, m, |fl|)].size < nunits
      requires fl[Step(f, m, |fl|)].addr != freep
      ensures m < |fl| && TooSmall(fl, f, m + 1, nunits)
    {
      hide Layout, Circular;
    }

    /** The first call: the list is base alone. */
    method Start()
      requires Valid() && freep == 0
      modifies this`hdr, this`freep, this`fl
      ensures Valid() && freep != 0 && fl == [Block(base, 0)]
    {
      hdr := hdr[base := Header(base, 0)];
      freep := base;
      fl := [Block(base, 0)];
      assert FreepAt(0);
      assert LinkedAt(fl, hdr, 0);
    }

    /** Back at freep the search has seen every block. */
    lemma FreepTurn(f: int, m: int, nunits: nat)
      requires Valid() && freep != 0 && FreepAt(f) && TooSmall(fl, f, m, nunits) && 1 <= m <= |fl|
      requires At(f, m, freep) && fl[Step(f, m, |fl|)].size < nunits
      ensures AllSmall(fl, nunits)
    {
      hide Circular, Ordered, Conserved, LiveBlocks, LiveFreeApart;
      Addresses(fl, base, f, Step(f, m, |fl|));
      forall i | 0 <= i < |fl| ensures fl[i].size < nunits {
        FullTurn(fl, f, nunits, i);
      }
    }

    /** malloc, once the block is found: it is unlinked, or its tail is split off. */
    method TakeFrom(prevp: int, p: int, n: nat, ghost j: int) returns (r: int)
      requires Valid() && freep != 0 && 0 <= j < |fl| && prevp == fl[j].addr && p == fl[Next(fl, j)].addr
      requires 0 < n <= fl[Next(fl, j)].size && p in hdr && prevp in hdr && hdr[p].size == fl[Next(fl, j)].size
      modifies this`hdr, this`freep, this`fl, this`live
      ensures Valid() && freep == prevp && freep != 0 && r == End(old(fl)[Next(old(fl), j)]) - n + 1 && r != 0
      ensures r - 1 !in old(live) && live == old(live)[r - 1 := n] && fl == Take(old(fl), Next(old(fl), j), n)
    {
      hide Layout, Circular, Take;
      TakeStep(j, n);
      TakeKeeps(j, n);
      var q := p;
      ghost var h := Unlink(hdr, prevp, p, n);
      if hdr[p].size == n {
        hdr := hdr[prevp := Header(hdr[p].ptr, hdr[prevp].size)];
      } else {
        hdr := hdr[p := Header(hdr[p].ptr, hdr[p].size - n)];
        q := p + hdr[p].size;
        hdr := hdr[q := Header(if q in hdr then hdr[q].ptr else 0, n)];
      }
      assert hdr == h;
      freep := prevp;
      r := q + 1;
      live := live[q := n];
      fl := Take(fl, Next(fl, j), n);
      assert FreepAt(j);
    }

    lemma TakeStep(j: int, n: nat)
      requires Valid() && freep != 0 && 0 <= j < |fl| && 0 < n <= fl[Next(fl, j)].size
      requires fl[Next(fl, j)].addr in hdr && fl[j].addr in hdr
      requires hdr[fl[Next(fl, j)].addr].size == fl[Next(fl, j)].size
      ensures var k := Next(fl, j);
              var q, h := End(fl[k]) - n, Unlink(hdr, fl[j].addr, fl[k].addr, n);
              && q !in live && q > 0 && fl[j].addr != 0
              && Layout(Take(fl, k, n), live[q := n], units, base, brk) && Circular(Take(fl, k, n), h)
              && q in h && h[q].size == n && j < |Take(fl, k, n)| && Take(fl, k, n)[j] == fl[j]
    {
      hide LiveBlocks, LiveFreeApart, Conserved, Below, Ordered, Take, Unlink, Circular;
      var k := Next(fl, j);
      TakeLayout(fl, live, units, base, brk, k, n);
      TakeCircular(fl, hdr, base, j, n);
      TakeAt(fl, hdr, base, j, n);
    }

    /** The headers of the blocks in use are not touched. */
    lemma TakeKeeps(j: int, n: nat)
      requires Valid() && freep != 0 && 0 <= j < |fl| && 0 < n <= fl[Next(fl, j)].size
      requires fl[Next(fl, j)].addr in hdr && fl[j].addr in hdr
      requires hdr[fl[Next(fl, j)].addr].size == fl[Next(fl, j)].size
      ensures var h := Unlink(hdr, fl[j].addr, fl[Next(fl, j)].addr, n);
              forall a :: a in live ==> a in h && h[a] == hdr[a]
    {
      hide LiveBlocks, LiveFreeApart, Conserved, Below, Ordered, Take, Unlink, Circular;
      var k := Next(fl, j);
      forall a | a in live ensures var h := Unlink(hdr, fl[j].addr, fl[k].addr, n); a in h && h[a] == hdr[a] {
        TakeHeaders(fl, live, units, base, brk, hdr, j, n, a);
      }
    }
  }
}
