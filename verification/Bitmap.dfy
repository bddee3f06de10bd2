/**
 LOW_BIT64 (include/Type.h) and the first-fit bitmap scan built on it, which the
 cluster, inode, pipe and segment allocators share.  A 64-bit word is the
 sequence of its bits, bit 0 first.
 */
module Bitmap {

  predicate NoneSet(x: seq<bool>) { forall i :: 0 <= i < |x| ==> !x[i] }
  predicate AllSet(x: seq<bool>) { forall i :: 0 <= i < |x| ==> x[i] }

  /** One halving: the lower w bits are skipped when they are all clear.  x is what
      remains of the word from bit res on. */
  method Halve(ghost word: seq<bool>, x: seq<bool>, res: int, w: int) returns (y: seq<bool>, r: int)
    requires Remaining(word, x, res) && 0 < w && 2 * w <= |x| <= 64
    requires !NoneSet(word) ==> !NoneSet(x[..2 * w])
    ensures Remaining(word, y, r) && w <= |y| <= 64
    ensures !NoneSet(word) ==> !NoneSet(y[..w])
  {
    y, r := x, res;
    if NoneSet(x[..w]) {
      y, r := x[w..], res + w;
      Shifted(word, x, res, w);
    } else {
      FirstHalf(x, w);
    }
  }

  predicate Remaining(word: seq<bool>, x: seq<bool>, res: int) {
    && |word| == 64 && 0 <= res && 1 <= |x| && res + |x| <= 64 && x == word[res..res + |x|]
    && NoneSet(word[..res]) && (NoneSet(word) <==> NoneSet(x))
  }

  /** The index of the lowest set bit, -1 when there is none. */
  method LowBit64(word: seq<bool>) returns (res: int)
    requires |word| == 64
    ensures -1 <= res < 64
    ensures res == -1 <==> NoneSet(word)
    ensures res != -1 ==> word[res] && NoneSet(word[..res])
  {
    hide Remaining, NoneSet;
    WholeWord(word);
    var x;
    x, res := Halve(word, word, 0, 32);
    x, res := Halve(word, x, res, 16);
    x, res := Halve(word, x, res, 8);
    x, res := Halve(word, x, res, 4);
    x, res := Halve(word, x, res, 2);
    x, res := Halve(word, x, res, 1);
    LastBit(word, x, res);
    if !x[0] {
      res := -1;
    }
  }

  lemma WholeWord(word: seq<bool>)
    requires |word| == 64
    ensures Remaining(word, word, 0) && word[..64] == word
  {
    assert word == word[0..64];
  }

  lemma LastBit(word: seq<bool>, x: seq<bool>, res: int)
    requires Remaining(word, x, res) && (!NoneSet(word) ==> !NoneSet(x[..1]))
    ensures 0 <= res < 64 && |x| >= 1 && NoneSet(word[..res])
    ensures x[0] ==> word[res] && !NoneSet(word)
    ensures !x[0] ==> NoneSet(word)
  {
  }

  lemma Shifted(word: seq<bool>, x: seq<bool>, res: int, w: int)
    requires Remaining(word, x, res) && 0 < w && 2 * w <= |x| && NoneSet(x[..w])
    requires !NoneSet(word) ==> !NoneSet(x[..2 * w])
    ensures NoneSet(word[..res + w]) && (NoneSet(word) <==> NoneSet(x[w..]))
    ensures x[w..] == word[res + w..res + |x|]
    ensures !NoneSet(word) ==> !NoneSet(x[w..][..w])
  {
    assert forall i :: res <= i < res + w ==> word[i] == x[..w][i - res];
    assert forall i :: 0 <= i < |x| ==> x[i] == if i < w then x[..w][i] else x[w..][i - w];
    assert forall i :: 0 <= i < 2 * w ==> x[..2 * w][i] == if i < w then x[..w][i] else x[w..][..w][i - w];
  }

  lemma FirstHalf(x: seq<bool>, w: int)
    requires 0 < w <= |x| && !NoneSet(x[..w])
    ensures !NoneSet(x)
  {
    var i :| 0 <= i < w && x[..w][i];
    assert x[i];
  }

  /** The allocators' loop over n words: the lowest clear bit, -1 when every bit is set. */
  method FirstClear(bits: seq<bool>, n: nat) returns (k: int)
    requires |bits| == 64 * n
    ensures -1 <= k < |bits|
    ensures k == -1 <==> AllSet(bits)
    ensures k != -1 ==> !bits[k] && AllSet(bits[..k])
  {
    for i := 0 to n
      invariant AllSet(bits[..64 * i])
    {
      var word := bits[64 * i..64 * i + 64];
      if !AllSet(word) {
        var inverted := seq(64, b requires 0 <= b < 64 => !word[b]);
        ghost var w :| 0 <= w < 64 && !word[w];
        assert inverted[w];
        var bit := LowBit64(inverted);
        k := 64 * i + bit;
        assert !bits[k];
        forall j | 0 <= j < k ensures bits[j] {
          if j >= 64 * i {
            assert !inverted[..bit][j - 64 * i];
            assert word[j - 64 * i] == bits[j];
          } else {
            assert bits[j] == bits[..64 * i][j];
          }
        }
        return;
      }
      forall j | 0 <= j < 64 * (i + 1) ensures bits[j] {
        if j < 64 * i { assert bits[..64 * i][j]; } else { assert word[j - 64 * i]; }
      }
    }
    assert bits[..64 * n] == bits;
    k := -1;
  }
}
