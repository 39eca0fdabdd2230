/** 64-bit sequence numbers on the wire and the SequenceNumberSet bitmap
    (sections 9.3.2.10 and 9.4.2.6 of DDSI-RTPS 2.5): number base + 32w + b is a member
    when bit b of word w is set, counting bits from the most significant. */
module SequenceSet {
  import opened Types
  import opened Bits

  const MAX_BITS: nat := 256

  function SequenceHigh(n: Int64): Int32 {
    SignedOf32(UnsignedOf64(n) / TWO_32)
  }

  function SequenceLow(n: Int64): UInt32 {
    UnsignedOf64(n) % TWO_32
  }

  /** (high << 32) | low, read as a signed 64-bit number. */
  function MakeSequence(high: Int32, low: UInt32): Int64 {
    SignedOf64(UnsignedOf32(high) * TWO_32 + low)
  }

  /** Splitting and joining are inverse to each other on every 64-bit value. */
  lemma SplitJoin(n: Int64, high: Int32, low: UInt32)
    ensures MakeSequence(SequenceHigh(n), SequenceLow(n)) == n
    ensures SequenceHigh(MakeSequence(high, low)) == high
    ensures SequenceLow(MakeSequence(high, low)) == low
  {
    assert UnsignedOf32(SequenceHigh(n)) == UnsignedOf64(n) / TWO_32;
    assert UnsignedOf64(MakeSequence(high, low)) == UnsignedOf32(high) * TWO_32 + low;
  }

  function RequiredWords(numBits: nat): nat {
    (numBits + 31) / 32
  }

  datatype SequenceNumberSet = SequenceNumberSet(base: Int64, numBits: UInt32, bitmap: seq<UInt32>) {

    predicate Contains(s: int) {
      s >= base &&
      var offset := s - base;
      offset < numBits &&
      var word, bit := offset / 32, offset % 32;
      word < |bitmap| && And(bitmap[word], Pow2(31 - bit)) != 0
    }

    /** What the encoders and decoders accept. */
    predicate Validated() {
      && base > 0
      && numBits <= MAX_BITS
      && |bitmap| == RequiredWords(numBits)
      && (numBits % 32 != 0 && bitmap != [] ==>
            And(bitmap[|bitmap| - 1], Pow2(32 - numBits % 32) - 1) == 0)
    }

    /** The set of numbers the bitmap stands for. */
    ghost function Members(): set<int> {
      set s: int | base <= s < base + numBits && Contains(s)
    }
  }

  /** std::any_of(bitmap, word != 0) */
  predicate AnyBit(bitmap: seq<UInt32>) {
    exists w :: 0 <= w < |bitmap| && bitmap[w] != 0
  }

  lemma ContainsIsBit(s: SequenceNumberSet, offset: nat)
    requires offset < s.numBits && offset / 32 < |s.bitmap|
    ensures s.Contains(s.base + offset) <==> Bit(s.bitmap[offset / 32], 31 - offset % 32)
  {
    TestBit(s.bitmap[offset / 32], 31 - offset % 32);
  }

  /** A validated bitmap has no digit outside the announced number of bits. */
  lemma NoUnusedBits(s: SequenceNumberSet, word: nat, k: nat)
    requires s.Validated() && word < |s.bitmap| && Bit(s.bitmap[word], k)
    ensures k < 32 && 32 * word + (31 - k) < s.numBits
  {
    hide And;
    hide Bit;
    hide Pow2;
    Pow2Of32();
    if k >= 32 {
      HighBits(s.bitmap[word], 32, k);
    }
    var rest := s.numBits % 32;
    if word == |s.bitmap| - 1 && rest != 0 && k < 32 - rest {
      BitOfMask(32 - rest, k);
      BitOfAnd(s.bitmap[word], Pow2(32 - rest) - 1, k);
      BitOfZero(k);
    }
  }

  /** A digit of a validated bitmap is a member, so no information hides in the words. */
  lemma BitIsMember(s: SequenceNumberSet, word: nat, k: nat)
    requires s.Validated() && word < |s.bitmap| && Bit(s.bitmap[word], k)
    ensures k < 32 && s.base + 32 * word + (31 - k) in s.Members()
  {
    NoUnusedBits(s, word, k);
    ContainsIsBit(s, 32 * word + (31 - k));
  }

  /** Two validated bitmaps over the same window that stand for the same set are equal
      word for word. */
  lemma BitmapCanonical(a: SequenceNumberSet, b: SequenceNumberSet)
    requires a.Validated() && b.Validated() && a.base == b.base && a.numBits == b.numBits
    requires a.Members() == b.Members()
    ensures a == b
  {
    forall word | 0 <= word < |a.bitmap| ensures a.bitmap[word] == b.bitmap[word] {
      forall k: nat | k < 32 ensures Bit(a.bitmap[word], k) == Bit(b.bitmap[word], k) {
        DigitShared(a, b, word, k);
        DigitShared(b, a, word, k);
      }
      Pow2Of32();
      SameBits(a.bitmap[word], b.bitmap[word], 32);
    }
  }

  lemma DigitShared(a: SequenceNumberSet, b: SequenceNumberSet, word: nat, k: nat)
    requires a.Validated() && b.Validated() && a.base == b.base && a.numBits == b.numBits
    requires a.Members() == b.Members() && word < |a.bitmap|
    ensures Bit(a.bitmap[word], k) ==> Bit(b.bitmap[word], k)
  {
    hide And;
    hide Bit;
    hide Pow2;
    if Bit(a.bitmap[word], k) {
      BitIsMember(a, word, k);
      var offset := 32 * word + (31 - k);
      assert b.Contains(b.base + offset);
      ContainsIsBit(b, offset);
    }
  }

  /** "Some word is non-zero" means "the set is not empty". */
  lemma AnyBitMeansNonEmpty(s: SequenceNumberSet)
    requires s.Validated()
    ensures AnyBit(s.bitmap) <==> s.Members() != {}
  {
    if AnyBit(s.bitmap) {
      var word :| 0 <= word < |s.bitmap| && s.bitmap[word] != 0;
      Pow2Of32();
      var k := NonZeroHasBit(s.bitmap[word], 32);
      BitIsMember(s, word, k);
    }
    if s.Members() != {} {
      var n :| n in s.Members();
      ContainsIsBit(s, n - s.base);
      BitOfZero(31 - (n - s.base) % 32);
    }
  }

  /** The previous lemma rests on the check of the unused bits: a set that fails only
      that check can be empty with a non-zero word. */
  lemma UnusedBitsMatter()
    ensures var s := SequenceNumberSet(1, 1, [1]);
            s.Members() == {} && AnyBit(s.bitmap) && !s.Validated()
  {
    hide And;
    var s := SequenceNumberSet(1, 1, [1]);
    assert s.bitmap[0] != 0;
    ContainsIsBit(s, 0);
    HighBits(1, 1, 31);
    EmptyWithResidue(s);
  }

  lemma EmptyWithResidue(s: SequenceNumberSet)
    requires s == SequenceNumberSet(1, 1, [1]) && !s.Contains(1)
    ensures s.Members() == {} && !s.Validated()
  {
    hide And;
    hide Pow2;
    assert forall n :: n in s.Members() ==> n == 1 && s.Contains(n);
    assert Bit(s.bitmap[0], 0);
    if s.Validated() {
      NoUnusedBits(s, 0, 0);
      assert false;
    }
  }

  // ---- Building a bitmap ----

  /** The bitmap after the first `count` offsets were looked at: those whose number is
      not in `have` got their bit. */
  function FillBits(words: nat, base: int, have: set<int>, count: nat): (r: seq<UInt32>)
    requires count <= 32 * words
    ensures |r| == words
  {
    if count == 0 then seq(words, _ => 0)
    else
      var before := FillBits(words, base, have, count - 1);
      var offset := count - 1;
      if base + offset in have then before
      else before[offset / 32 := SetBit(before[offset / 32], 31 - offset % 32)]
  }

  /** word | (1 << k) */
  function SetBit(word: UInt32, k: nat): (r: UInt32)
    requires k < 32
  {
    Pow2Of32();
    Pow2Monotone(k, 32);
    OrBelow(word, Pow2(k), 32);
    Or(word, Pow2(k))
  }

  lemma {:induction false} FillBitsDigits(words: nat, base: int, have: set<int>, count: nat, word: nat, k: nat)
    requires count <= 32 * words && word < words && k < 32
    ensures Bit(FillBits(words, base, have, count)[word], k) <==>
            32 * word + (31 - k) < count && base + 32 * word + (31 - k) !in have
  {
    if count == 0 {
      BitOfZero(k);
    } else {
      FillBitsDigits(words, base, have, count - 1, word, k);
      var offset := count - 1;
      if base + offset !in have && word == offset / 32 {
        var before := FillBits(words, base, have, count - 1);
        BitOfOr(before[word], Pow2(31 - offset % 32), k);
        BitOfPow2(31 - offset % 32, k);
      }
    }
  }

  /** The filled bitmap is accepted by the encoder and stands for exactly the numbers of
      the window that are not in `have`. */
  lemma FillBitsExact(base: Int64, numBits: nat, have: set<int>, s: SequenceNumberSet)
    requires base > 0 && numBits <= MAX_BITS
    requires s == SequenceNumberSet(base, numBits, FillBits(RequiredWords(numBits), base, have, numBits))
    ensures s.Validated()
    ensures s.Members() == set n: int | base <= n < base + numBits && n !in have
  {
    hide And;
    forall n: int | base <= n < base + numBits
      ensures s.Contains(n) <==> n !in have
    {
      FillBitsAt(base, numBits, have, s, n - base);
    }
    if numBits % 32 != 0 {
      FillBitsClean(base, numBits, have);
    }
  }

  lemma FillBitsAt(base: Int64, numBits: nat, have: set<int>, s: SequenceNumberSet, offset: nat)
    requires numBits <= MAX_BITS && offset < numBits
    requires s == SequenceNumberSet(base, numBits, FillBits(RequiredWords(numBits), base, have, numBits))
    ensures s.Contains(base + offset) <==> base + offset !in have
  {
    ContainsIsBit(s, offset);
    FillBitsDigits(RequiredWords(numBits), base, have, numBits, offset / 32, 31 - offset % 32);
  }

  lemma FillBitsClean(base: int, numBits: nat, have: set<int>)
    requires numBits % 32 != 0
    ensures var words := RequiredWords(numBits);
            And(FillBits(words, base, have, numBits)[words - 1], Pow2(32 - numBits % 32) - 1) == 0
  {
    hide And;
    hide Bit;
    hide Pow2;
    hide FillBits;
    var words, free := RequiredWords(numBits), 32 - numBits % 32;
    var last, mask := FillBits(words, base, have, numBits)[words - 1], Pow2(free) - 1;
    var common := And(last, mask);
    if common != 0 {
      Pow2Increases(common);
      var k := NonZeroHasBit(common, common);
      BitOfAnd(last, mask, k);
      BitOfMask(free, k);
      FillBitsDigits(words, base, have, numBits, words - 1, k);
      assert false;
    }
  }
}
