/** Literal sets as 16-word bit masks (cmd/grammar-coverage/classify.go).

    A mask is a value: every operation returns a fresh one. Its meaning is Bits(m), the set of
    bit positions below 1024 that are on; the word-by-word operations are proved to be the set
    operations on that meaning. A 64-bit word is a natural number below 2^64 and the bitwise
    operators work on its binary digits. */
module Masks {

  const MASK_WORDS := 16
  const WORD_BITS := 64
  const MASK_BITS := 1024

  // ----- One 64-bit word -----

  type Word = w: nat | w < 0x1_0000_0000_0000_0000

  function Pow2(k: nat): nat {
    if k == 0 then 1 else 2 * Pow2(k - 1)
  }

  predicate Bit(w: nat, k: nat) {
    if k == 0 then w % 2 == 1 else Bit(w / 2, k - 1)
  }

  function AndDigits(a: nat, b: nat): nat {
    if a == 0 || b == 0 then 0 else 2 * AndDigits(a / 2, b / 2) + (if a % 2 == 1 && b % 2 == 1 then 1 else 0)
  }

  function OrDigits(a: nat, b: nat): nat {
    if a == 0 then b else if b == 0 then a
    else 2 * OrDigits(a / 2, b / 2) + (if a % 2 == 1 || b % 2 == 1 then 1 else 0)
  }

  function AndNotDigits(a: nat, b: nat): nat {
    if a == 0 || b == 0 then a
    else 2 * AndNotDigits(a / 2, b / 2) + (if a % 2 == 1 && b % 2 == 0 then 1 else 0)
  }

  lemma {:induction false} ZeroHasNoBits(k: nat)
    ensures !Bit(0, k)
  {
    if k > 0 { ZeroHasNoBits(k - 1); }
  }

  lemma {:induction false} DigitOps(a: nat, b: nat, k: nat)
    ensures Bit(AndDigits(a, b), k) <==> Bit(a, k) && Bit(b, k)
    ensures Bit(OrDigits(a, b), k) <==> Bit(a, k) || Bit(b, k)
    ensures Bit(AndNotDigits(a, b), k) <==> Bit(a, k) && !Bit(b, k)
  {
    ZeroHasNoBits(k);
    if a != 0 && b != 0 && k > 0 {
      DigitOps(a / 2, b / 2, k - 1);
    }
  }

  lemma {:induction false} DigitWidths(a: nat, b: nat, n: nat)
    requires a < Pow2(n) && b < Pow2(n)
    ensures AndDigits(a, b) < Pow2(n) && OrDigits(a, b) < Pow2(n) && AndNotDigits(a, b) < Pow2(n)
  {
    if a != 0 && b != 0 {
      DigitWidths(a / 2, b / 2, n - 1);
    }
  }

  lemma {:induction false} DigitsExtensional(a: nat, b: nat, n: nat)
    requires a < Pow2(n) && b < Pow2(n)
    requires forall k: nat | k < n :: Bit(a, k) <==> Bit(b, k)
    ensures a == b
  {
    if n > 0 {
      assert Bit(a, 0) <==> Bit(b, 0);
      forall k: nat | k < n - 1 ensures Bit(a / 2, k) <==> Bit(b / 2, k) {
        assert Bit(a, k + 1) <==> Bit(b, k + 1);
      }
      DigitsExtensional(a / 2, b / 2, n - 1);
    }
  }

  lemma {:induction false} PowerBits(k: nat, j: nat)
    ensures Bit(Pow2(k), j) <==> j == k
  {
    if k == 0 {
      if j > 0 { ZeroHasNoBits(j - 1); }
    } else if j > 0 {
      PowerBits(k - 1, j - 1);
      assert Pow2(k) / 2 == Pow2(k - 1);
    }
  }

  lemma {:induction false} PowerMonotone(j: nat, k: nat)
    requires j <= k
    ensures Pow2(j) <= Pow2(k)
  {
    if j < k { PowerMonotone(j, k - 1); }
  }

  lemma WordWidth()
    ensures Pow2(64) == 0x1_0000_0000_0000_0000
  {
    assert Pow2(8) == 0x100;
    assert Pow2(16) == 0x1_0000;
    assert Pow2(24) == 0x100_0000;
    assert Pow2(32) == 0x1_0000_0000;
    assert Pow2(40) == 0x100_0000_0000;
    assert Pow2(48) == 0x1_0000_0000_0000;
    assert Pow2(56) == 0x100_0000_0000_0000;
  }

  function WordBits(w: Word): set<nat> {
    set k: nat | k < WORD_BITS && Bit(w, k)
  }

  /** The uint64 operators &, | and &^. */
  function WordAnd(a: Word, b: Word): (r: Word)
    ensures WordBits(r) == WordBits(a) * WordBits(b)
  {
    WordWidth();
    DigitWidths(a, b, 64);
    forall k: nat { DigitOps(a, b, k); }
    AndDigits(a, b)
  }

  function WordOr(a: Word, b: Word): (r: Word)
    ensures WordBits(r) == WordBits(a) + WordBits(b)
  {
    WordWidth();
    DigitWidths(a, b, 64);
    forall k: nat { DigitOps(a, b, k); }
    OrDigits(a, b)
  }

  function WordAndNot(a: Word, b: Word): (r: Word)
    ensures WordBits(r) == WordBits(a) - WordBits(b)
  {
    WordWidth();
    DigitWidths(a, b, 64);
    forall k: nat { DigitOps(a, b, k); }
    AndNotDigits(a, b)
  }

  /** The uint64 value 1 << k for k below 64. */
  function WordShift(k: nat): (r: Word)
    requires k < WORD_BITS
    ensures WordBits(r) == {k}
  {
    WordWidth();
    PowerMonotone(k + 1, 64);
    forall j: nat { PowerBits(k, j); }
    Pow2(k)
  }

  /** A word is determined by its bits; the zero word has none. */
  lemma WordExtensional(a: Word, b: Word)
    ensures a == b <==> WordBits(a) == WordBits(b)
    ensures WordBits(0) == {}
  {
    forall k: nat { ZeroHasNoBits(k); }
    if WordBits(a) == WordBits(b) {
      WordWidth();
      forall k: nat | k < 64 ensures Bit(a, k) <==> Bit(b, k) {
        assert k in WordBits(a) <==> k in WordBits(b);
      }
      DigitsExtensional(a, b, 64);
    }
  }

  // ----- Masks of 16 words -----

  type Mask = m: seq<Word> | |m| == MASK_WORDS witness [0, 0, 0, 0, 0, 0, 0, 0, 0, 0, 0, 0, 0, 0, 0, 0]

  /** What a mask means. */
  ghost function Bits(m: Mask): set<nat> {
    set i: nat | i < MASK_BITS && i % 64 in WordBits(m[i / 64])
  }

  ghost const Universe: set<nat> := set i: nat | i < MASK_BITS

  function Empty(): (r: Mask)
    ensures Bits(r) == {}
  {
    WordExtensional(0, 0);
    seq(MASK_WORDS, _ => 0)
  }

  function And(m: Mask, o: Mask): (r: Mask)
    ensures Bits(r) == Bits(m) * Bits(o)
  {
    seq(MASK_WORDS, i requires 0 <= i < MASK_WORDS => WordAnd(m[i], o[i]))
  }

  function Or(m: Mask, o: Mask): (r: Mask)
    ensures Bits(r) == Bits(m) + Bits(o)
  {
    seq(MASK_WORDS, i requires 0 <= i < MASK_WORDS => WordOr(m[i], o[i]))
  }

  /** The set difference. */
  function AndNot(m: Mask, o: Mask): (r: Mask)
    ensures Bits(r) == Bits(m) - Bits(o)
  {
    seq(MASK_WORDS, i requires 0 <= i < MASK_WORDS => WordAndNot(m[i], o[i]))
  }

  predicate SubsetOf(m: Mask, o: Mask)
    ensures SubsetOf(m, o) <==> Bits(m) <= Bits(o)
  {
    SubsetMeaning(m, o);
    forall i | 0 <= i < MASK_WORDS :: WordAndNot(m[i], o[i]) == 0
  }

  predicate IsZero(m: Mask)
    ensures IsZero(m) <==> Bits(m) == {}
  {
    MaskExtensional(m, Empty());
    forall i | 0 <= i < MASK_WORDS :: m[i] == 0
  }

  /** The one-bit mask litTable.mask builds for a known literal. */
  function OneBit(bit: nat): (r: Mask)
    requires bit < MASK_BITS
    ensures Bits(r) == {bit}
  {
    WordExtensional(0, 0);
    var word := WordShift(bit % 64);
    var r := Empty()[bit / 64 := word];
    assert Bits(r) == {bit} by {
      hide WordBits, Empty, WordShift;
      forall i: nat | i < MASK_BITS ensures i in Bits(r) <==> i == bit {
        if i / 64 == bit / 64 {
          assert r[i / 64] == word;
        } else {
          assert r[i / 64] == 0;
        }
      }
    }
    r
  }

  lemma SubsetMeaning(m: Mask, o: Mask)
    ensures (forall i | 0 <= i < MASK_WORDS :: WordAndNot(m[i], o[i]) == 0) <==> Bits(m) <= Bits(o)
  {
    forall i | 0 <= i < MASK_WORDS ensures WordAndNot(m[i], o[i]) == 0 <==> WordBits(m[i]) <= WordBits(o[i]) {
      WordExtensional(WordAndNot(m[i], o[i]), 0);
      DifferenceEmpty(WordBits(m[i]), WordBits(o[i]));
    }
    if Bits(m) <= Bits(o) {
      forall i | 0 <= i < MASK_WORDS ensures WordBits(m[i]) <= WordBits(o[i]) {
        forall k | k in WordBits(m[i]) ensures k in WordBits(o[i]) {
          var b := 64 * i + k;
          assert b / 64 == i && b % 64 == k;
          assert b in Bits(m);
        }
      }
    }
  }

  lemma DifferenceEmpty(a: set<nat>, b: set<nat>)
    ensures a - b == {} <==> a <= b
  {
    if a - b == {} {
      forall x | x in a ensures x in b {
        assert x !in a - b;
      }
    }
  }

  /** A mask is determined by its bits. */
  lemma MaskExtensional(m: Mask, o: Mask)
    ensures m == o <==> Bits(m) == Bits(o)
  {
    if Bits(m) == Bits(o) {
      SubsetMeaning(m, o);
      SubsetMeaning(o, m);
      forall i | 0 <= i < MASK_WORDS ensures m[i] == o[i] {
        WordExtensional(WordAndNot(m[i], o[i]), 0);
        WordExtensional(WordAndNot(o[i], m[i]), 0);
        WordExtensional(m[i], o[i]);
      }
    }
  }

  // ----- Size and order -----

  /** math/bits.OnesCount64. */
  function OnesCount(w: Word): nat {
    |WordBits(w)|
  }

  function CountWords(ws: seq<Word>): nat {
    if ws == [] then 0 else CountWords(ws[..|ws| - 1]) + OnesCount(ws[|ws| - 1])
  }

  /** The number of literals in a mask. */
  function Count(m: Mask): (n: nat)
    ensures n == |Bits(m)|
  {
    CountPrefix(m, MASK_WORDS);
    assert m[..MASK_WORDS] == m;
    assert Bits(m) == PrefixBits(m, MASK_WORDS);
    CountWords(m)
  }

  ghost function PrefixBits(m: Mask, n: nat): set<nat>
    requires n <= MASK_WORDS
  {
    set i: nat | i < 64 * n && i % 64 in WordBits(m[i / 64])
  }

  lemma {:induction false} CountPrefix(m: Mask, n: nat)
    requires n <= MASK_WORDS
    ensures CountWords(m[..n]) == |PrefixBits(m, n)|
  {
    if n > 0 {
      CountPrefix(m, n - 1);
      assert m[..n][..n - 1] == m[..n - 1];
      ShiftSize(WordBits(m[n - 1]), 64 * (n - 1));
      PrefixStep(m, n);
    }
  }

  lemma PrefixStep(m: Mask, n: nat)
    requires 0 < n <= MASK_WORDS
    ensures PrefixBits(m, n) == PrefixBits(m, n - 1) + Shift(WordBits(m[n - 1]), 64 * (n - 1))
    ensures PrefixBits(m, n - 1) !! Shift(WordBits(m[n - 1]), 64 * (n - 1))
  {
    hide WordBits;
    var low := 64 * (n - 1);
    var word := WordBits(m[n - 1]);
    assert forall k | k in word :: k < 64 by { WordBitsBound(m[n - 1]); }
    forall i: nat ensures i in PrefixBits(m, n) <==> i in PrefixBits(m, n - 1) || i in Shift(word, low) {
      if low <= i < low + 64 {
        assert i / 64 == n - 1 && i % 64 == i - low;
        assert i == Plus(low, i - low);
      }
    }
  }

  lemma WordBitsBound(w: Word)
    ensures forall k | k in WordBits(w) :: k < 64
  {
  }

  function Shift(s: set<nat>, low: nat): set<nat> {
    set k | k in s :: Plus(low, k)
  }

  function Plus(a: nat, b: nat): nat { a + b }

  lemma {:induction false} ShiftSize(s: set<nat>, low: nat)
    ensures |Shift(s, low)| == |s|
  {
    if s != {} {
      var x :| x in s;
      ShiftSize(s - {x}, low);
      assert Shift(s, low) == Shift(s - {x}, low) + {Plus(low, x)};
    }
  }

  /** Smaller sets come first; sets of one size are ordered by their words. */
  predicate Less(m: Mask, o: Mask) {
    if Count(m) != Count(o) then Count(m) < Count(o) else LessWords(m, o, 0)
  }

  predicate LessWords(m: Mask, o: Mask, i: nat)
    requires i <= MASK_WORDS
    decreases MASK_WORDS - i
  {
    i < MASK_WORDS && (if m[i] != o[i] then m[i] < o[i] else LessWords(m, o, i + 1))
  }

  /** Words i to j - 1 agree and word j is the first to differ, smaller in m. */
  ghost predicate FirstDiffers(m: Mask, o: Mask, i: nat, j: nat) {
    i <= j < MASK_WORDS && m[j] < o[j] && forall k | i <= k < j :: m[k] == o[k]
  }

  lemma {:induction false} LessWordsMeaning(m: Mask, o: Mask, i: nat)
    requires i <= MASK_WORDS
    ensures LessWords(m, o, i) <==> exists j: nat :: FirstDiffers(m, o, i, j)
    decreases MASK_WORDS - i
  {
    if i < MASK_WORDS {
      LessWordsMeaning(m, o, i + 1);
      if m[i] < o[i] { assert FirstDiffers(m, o, i, i); }
      if m[i] == o[i] && LessWords(m, o, i + 1) {
        var j: nat :| FirstDiffers(m, o, i + 1, j);
        assert FirstDiffers(m, o, i, j);
      }
      if j: nat :| FirstDiffers(m, o, i, j) && j > i {
        assert FirstDiffers(m, o, i + 1, j);
      }
    }
  }

  /** Fewer literals come first, and among equally many the mask whose first differing word is smaller. */
  lemma LessMeaning(m: Mask, o: Mask)
    ensures Less(m, o) <==>
      |Bits(m)| < |Bits(o)| || (|Bits(m)| == |Bits(o)| && exists j: nat :: FirstDiffers(m, o, 0, j))
  {
    hide Bits;
    LessWordsMeaning(m, o, 0);
  }

  lemma {:induction false} LessWordsTotal(m: Mask, o: Mask, i: nat)
    requires i <= MASK_WORDS
    ensures m[i..] == o[i..] || LessWords(m, o, i) || LessWords(o, m, i)
    ensures !(LessWords(m, o, i) && LessWords(o, m, i))
    ensures m[i..] == o[i..] ==> !LessWords(m, o, i)
    decreases MASK_WORDS - i
  {
    if i < MASK_WORDS {
      LessWordsTotal(m, o, i + 1);
      assert m[i..] == [m[i]] + m[i + 1..];
      assert o[i..] == [o[i]] + o[i + 1..];
    }
  }

  lemma {:induction false} LessWordsTransitive(a: Mask, b: Mask, c: Mask, i: nat)
    requires i <= MASK_WORDS
    requires LessWords(a, b, i) && LessWords(b, c, i)
    ensures LessWords(a, c, i)
    decreases MASK_WORDS - i
  {
    if a[i] == b[i] && b[i] == c[i] {
      LessWordsTransitive(a, b, c, i + 1);
    }
  }

  /** Less is a strict total order on masks. */
  lemma LessTotal(a: Mask, b: Mask)
    ensures a == b || Less(a, b) || Less(b, a)
    ensures !(Less(a, b) && Less(b, a))
    ensures !Less(a, a)
  {
    LessWordsTotal(a, b, 0);
    LessWordsTotal(a, a, 0);
    assert a[0..] == a && b[0..] == b;
  }

  lemma LessTransitive(a: Mask, b: Mask, c: Mask)
    requires Less(a, b) && Less(b, c)
    ensures Less(a, c)
  {
    if Count(a) == Count(b) == Count(c) {
      LessWordsTransitive(a, b, c, 0);
    }
  }

  /** Less extends strict inclusion: a cheaper set comes before every set containing it. */
  lemma SubsetLess(a: Mask, b: Mask)
    requires Bits(a) < Bits(b)
    ensures Less(a, b)
  {
    ProperSubsetSize(Bits(a), Bits(b));
  }

  lemma ProperSubsetSize(a: set<nat>, b: set<nat>)
    requires a < b
    ensures |a| < |b|
  {
    assert b == a + (b - a);
  }
}
