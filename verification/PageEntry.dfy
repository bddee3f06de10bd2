/**
 Sv39 page-table words.  A word is a 64-bit number; `Pte` is the same word read
 field by field (include/Page.h).  `Encode` and `Decode` are inverse to each
 other, so a frame of 512 entries, a frame of 512 words and a frame of 4096
 bytes are three readings of one piece of memory.
 */
module PageEntry {
  import opened Bytes

  const WORDS: nat := 512
  const PAGE_SIZE: nat := 4096
  const WORD_LIMIT: nat := 0x1_0000_0000_0000_0000

  /** Flags in bit order 0..9, the 44-bit page number, the 10 top bits. */
  datatype Pte = Pte(valid: bool, read: bool, write: bool, exec: bool, user: bool,
                     global: bool, accessed: bool, dirty: bool, cow: bool, soft: bool,
                     ppn: nat, high: nat)

  const ZERO: Pte := Pte(false, false, false, false, false, false, false, false, false, false, 0, 0)

  /** What the functions take as `perm`: the bits outside the page number. */
  type Perm = p: Pte | p.ppn == 0 witness ZERO

  predicate InRange(p: Pte) {
    p.ppn < 0x1000_0000_0000 && p.high < 1024
  }

  // ---------- numbers and their digits ----------

  function Number(bits: seq<bool>): nat
  {
    if bits == [] then 0 else (if bits[0] then 1 else 0) + 2 * Number(bits[1..])
  }

  function Bits(n: nat, k: nat): (bits: seq<bool>)
    ensures |bits| == k
  {
    if k == 0 then [] else [n % 2 == 1] + Bits(n / 2, k - 1)
  }

  function Pow2(k: nat): (r: nat)
    ensures r > 0
  {
    if k == 0 then 1 else 2 * Pow2(k - 1)
  }

  lemma {:induction false} BitsNumber(bits: seq<bool>)
    ensures Bits(Number(bits), |bits|) == bits && Number(bits) < Pow2(|bits|)
  {
    if bits != [] {
      BitsNumber(bits[1..]);
    }
  }

  lemma {:induction false} NumberBits(n: nat, k: nat)
    requires n < Pow2(k)
    ensures Number(Bits(n, k)) == n
  {
    if k > 0 {
      NumberBits(n / 2, k - 1);
    }
  }

  // ---------- words and entries ----------

  function FlagBits(p: Pte): (bits: seq<bool>)
    ensures |bits| == 10
  {
    [p.valid, p.read, p.write, p.exec, p.user, p.global, p.accessed, p.dirty, p.cow, p.soft]
  }

  function Encode(p: Pte): nat
  {
    Number(FlagBits(p)) + 1024 * (p.ppn + 0x1000_0000_0000 * p.high)
  }

  function WithFlags(f: seq<bool>, ppn: nat, high: nat): (p: Pte)
    requires |f| == 10
    ensures FlagBits(p) == f
  {
    Pte(f[0], f[1], f[2], f[3], f[4], f[5], f[6], f[7], f[8], f[9], ppn, high)
  }

  function Decode(w: nat): Pte
  {
    WithFlags(Bits(w % 1024, 10), w / 1024 % 0x1000_0000_0000, w / 1024 / 0x1000_0000_0000)
  }

  lemma Pow2Ten()
    ensures Pow2(10) == 1024
  {
    assert Pow2(5) == 32;
  }

  /** No entry loses a field by being stored as a word ... */
  lemma DecodeEncode(p: Pte)
    requires InRange(p)
    ensures Encode(p) < WORD_LIMIT && Decode(Encode(p)) == p
  {
    hide Bits, Number;
    FlagNumber(p);
    AssembledParts(Number(FlagBits(p)), p.ppn, p.high);
    var w := Encode(p);
    assert w % 1024 == Number(FlagBits(p)) && w / 1024 == p.ppn + 0x1000_0000_0000 * p.high;
    BitsNumber(FlagBits(p));
    assert Decode(w) == WithFlags(FlagBits(p), p.ppn, p.high);
  }

  /** ... and no word loses a bit by being read as an entry. */
  lemma EncodeDecode(w: nat)
    requires w < WORD_LIMIT
    ensures InRange(Decode(w)) && Encode(Decode(w)) == w
  {
    FlagsOfDecode(w, 10);
    SplitWord(w);
  }

  lemma FlagsOfDecode(w: nat, k: nat)
    requires k == 10
    ensures Number(FlagBits(Decode(w))) == w % 1024
  {
    Pow2Ten();
    NumberBits(w % 1024, k);
  }

  lemma SplitWord(w: nat)
    requires w < WORD_LIMIT
    ensures w / 1024 / 0x1000_0000_0000 < 1024
    ensures w == w % 1024 + 1024 * (w / 1024 % 0x1000_0000_0000 + 0x1000_0000_0000 * (w / 1024 / 0x1000_0000_0000))
  {
    var b := w / 1024;
    assert w == 1024 * b + w % 1024;
    assert b == 0x1000_0000_0000 * (b / 0x1000_0000_0000) + b % 0x1000_0000_0000;
  }

  // ---------- the bits of a word ----------

  /** Bit k of a word. */
  predicate Bit(w: nat, k: nat) { w / Pow2(k) % 2 == 1 }

  lemma HalveBoth(b: nat, m: nat, d: nat)
    requires b < 2 && d > 0
    ensures (b + 2 * m) / (2 * d) == m / d
  {
    var q, r := m / d, m % d;
    assert m == d * q + r;
    assert b + 2 * m == 2 * d * q + (b + 2 * r) && 0 <= b + 2 * r < 2 * d;
    Quotient(b + 2 * m, 2 * d, q, b + 2 * r);
  }

  lemma Quotient(n: nat, d: nat, q: nat, r: nat)
    requires d > 0 && n == d * q + r && r < d
    ensures n / d == q
  {
    var e := n / d;
    Multiple(d, e - q);
    assert d * (e - q) == d * e - d * q && n == d * e + n % d;
  }

  lemma Multiple(d: int, x: int)
    requires d > 0
    ensures (x >= 1 ==> d * x >= d) && (x <= -1 ==> d * x <= -d)
  {
  }

  lemma {:induction false} NumberBit(bits: seq<bool>, x: nat, k: nat)
    requires k < |bits|
    ensures Bit(Number(bits) + Pow2(|bits|) * x, k) <==> bits[k]
  {
    hide Number, Pow2;
    var b, rest := if bits[0] then 1 else 0, Number(bits[1..]) + Pow2(|bits| - 1) * x;
    FirstBit(bits, x);
    Doubles(k);
    if k > 0 {
      NumberBit(bits[1..], x, k - 1);
      HalveBoth(b, rest, Pow2(k - 1));
    }
  }

  lemma FirstBit(bits: seq<bool>, x: nat)
    requires bits != []
    ensures Number(bits) + Pow2(|bits|) * x ==
            (if bits[0] then 1 else 0) + 2 * (Number(bits[1..]) + Pow2(|bits| - 1) * x)
  {
    var d := Pow2(|bits| - 1);
    assert 2 * d * x == 2 * (d * x);
  }

  lemma Doubles(k: nat)
    ensures if k == 0 then Pow2(k) == 1 else Pow2(k) == 2 * Pow2(k - 1) && Pow2(k - 1) > 0
  {
  }

  /** The flags of an entry stand at the bit numbers of Page.h. */
  lemma FlagPositions(p: Pte)
    ensures var w := Encode(p);
            && (Bit(w, 0) <==> p.valid) && (Bit(w, 1) <==> p.read) && (Bit(w, 2) <==> p.write)
            && (Bit(w, 3) <==> p.exec) && (Bit(w, 4) <==> p.user) && (Bit(w, 5) <==> p.global)
            && (Bit(w, 6) <==> p.accessed) && (Bit(w, 7) <==> p.dirty) && (Bit(w, 8) <==> p.cow)
            && (Bit(w, 9) <==> p.soft)
  {
    hide Bit, Encode;
    EncodeBit(p, 0);
    EncodeBit(p, 1);
    EncodeBit(p, 2);
    EncodeBit(p, 3);
    EncodeBit(p, 4);
    EncodeBit(p, 5);
    EncodeBit(p, 6);
    EncodeBit(p, 7);
    EncodeBit(p, 8);
    EncodeBit(p, 9);
  }

  lemma EncodeBit(p: Pte, k: nat)
    requires k < 10
    ensures Bit(Encode(p), k) <==> FlagBits(p)[k]
  {
    hide Bit, Number, FlagBits, Pow2;
    Pow2Ten();
    NumberBit(FlagBits(p), p.ppn + 0x1000_0000_0000 * p.high, k);
  }

  // ---------- the macros of Page.h, on words ----------

  const PPN_FIELD: nat := 0x40_0000_0000_0000   // 2^54

  /** PTE2PA: the field in bits 10..53, moved to bit 12. */
  function Pte2Pa(w: nat): nat { w % PPN_FIELD / 1024 * 4096 }

  /** PTE2PERM: the word with bits 10..53 cleared. */
  function Pte2Perm(w: nat): nat { w % 1024 + w / PPN_FIELD * PPN_FIELD }

  /** PA2PTE: the page number of an address, moved to bit 10. */
  function Pa2Pte(pa: nat): nat { pa / 4096 * 1024 }

  /** The macros take the fields of a stored entry apart, and PA2PTE(PTE2PA(w)) | PTE2PERM(w) is w again. */
  lemma MacrosSplitTheWord(p: Pte)
    requires InRange(p)
    ensures var w := Encode(p);
            && Pte2Pa(w) == p.ppn * 4096
            && Pte2Perm(w) == Encode(p.(ppn := 0))
            && Pa2Pte(Pte2Pa(w)) + Pte2Perm(w) == w
  {
    FlagNumber(p);
    assert FlagBits(p.(ppn := 0)) == FlagBits(p);
    AssembledParts(Number(FlagBits(p)), p.ppn, p.high);
  }

  lemma FlagNumber(p: Pte)
    ensures Number(FlagBits(p)) < 1024
  {
    Pow2Ten();
    BitsNumber(FlagBits(p));
  }

  lemma AssembledParts(n: nat, ppn: nat, high: nat)
    requires n < 1024 && ppn < 0x1000_0000_0000 && high < 1024
    ensures var w := n + 1024 * (ppn + 0x1000_0000_0000 * high);
            && w % 1024 == n && w / PPN_FIELD == high && w % PPN_FIELD == n + 1024 * ppn
            && w % PPN_FIELD / 1024 == ppn && w < WORD_LIMIT
            && w / 1024 == ppn + 0x1000_0000_0000 * high
  {
  }

  // ---------- frames ----------

  type Frame = seq<Pte>

  predicate IsFrame(f: Frame) {
    |f| == WORDS
  }

  function ZeroFrame(): Frame { seq(WORDS, i => ZERO) }

  /** The bytes of a run of words. */
  function FrameBytes(f: seq<Pte>): (b: seq<Byte>)
    ensures |b| == 8 * |f|
  {
    if f == [] then [] else ToBytes(Encode(f[0]), 8) + FrameBytes(f[1..])
  }

  function Words(b: seq<Byte>): (f: seq<Pte>)
    requires |b| % 8 == 0
    ensures 8 * |f| == |b|
  {
    if b == [] then [] else [Decode(FromBytes(b[..8]))] + Words(b[8..])
  }

  lemma Pow256Eight()
    ensures Pow256(8) == WORD_LIMIT
  {
    assert Pow256(4) == 0x1_0000_0000;
  }

  lemma {:induction false} WordsBytes(f: seq<Pte>)
    requires forall i :: 0 <= i < |f| ==> InRange(f[i])
    ensures Words(FrameBytes(f)) == f
  {
    if f != [] {
      hide ToBytes, FromBytes, Encode, Decode, Pow256;
      DecodeEncode(f[0]);
      Pow256Eight();
      NumberRoundTrip(Encode(f[0]), 8);
      assert FrameBytes(f)[..8] == ToBytes(Encode(f[0]), 8);
      assert FrameBytes(f)[8..] == FrameBytes(f[1..]);
      WordsBytes(f[1..]);
    }
  }

  lemma {:induction false} BytesWords(b: seq<Byte>)
    requires |b| % 8 == 0
    ensures FrameBytes(Words(b)) == b
    ensures forall i :: 0 <= i < |Words(b)| ==> InRange(Words(b)[i])
  {
    if b != [] {
      hide ToBytes, FromBytes, Encode, Decode, Pow256;
      BytesRoundTrip(b[..8]);
      Pow256Eight();
      EncodeDecode(FromBytes(b[..8]));
      BytesWords(b[8..]);
      assert b == b[..8] + b[8..];
    }
  }

  lemma {:induction false} BytesOfZero(n: nat)
    ensures FrameBytes(seq(n, i => ZERO)) == seq(8 * n, i => 0)
  {
    if n > 0 {
      assert seq(n, i => ZERO)[1..] == seq(n - 1, i => ZERO);
      BytesOfZero(n - 1);
      ZeroWord(8);
    }
  }

  lemma ZeroWord(k: nat)
    ensures ToBytes(Encode(ZERO), k) == seq(k, i => 0)
  {
    ZeroBits(FlagBits(ZERO));
    ZeroDigits(k);
  }

  lemma {:induction false} ZeroBits(bits: seq<bool>)
    requires forall i :: 0 <= i < |bits| ==> !bits[i]
    ensures Number(bits) == 0
  {
    if bits != [] { ZeroBits(bits[1..]); }
  }

  lemma {:induction false} ZeroDigits(k: nat)
    ensures ToBytes(0, k) == seq(k, i => 0)
  {
    if k > 0 { ZeroDigits(k - 1); }
  }

  // ---------- writing bytes into a frame ----------

  /** memmove into a frame. */
  function Poke(f: Frame, off: nat, data: seq<Byte>): Frame
    requires |f| == WORDS && off + |data| <= PAGE_SIZE
  {
    Words(Patch(FrameBytes(f), off, data))
  }

  lemma PokeBytes(f: Frame, off: nat, data: seq<Byte>)
    requires IsFrame(f) && off + |data| <= PAGE_SIZE
    ensures IsFrame(Poke(f, off, data)) && forall i :: 0 <= i < WORDS ==> InRange(Poke(f, off, data)[i])
    ensures FrameBytes(Poke(f, off, data)) == Patch(FrameBytes(f), off, data)
  {
    BytesWords(Patch(FrameBytes(f), off, data));
  }

  /** The page-sized zero page, read as bytes. */
  function ZeroBytes(): seq<Byte> { seq(PAGE_SIZE, i => 0) }

  lemma ZeroFrameFacts()
    ensures IsFrame(ZeroFrame()) && FrameBytes(ZeroFrame()) == ZeroBytes()
  {
    BytesOfZero(WORDS);
  }
}
