/** hamming_weight of storage/storage.c counts the set bits of a word. */
module HammingWeights {
  import opened MachineWords

  function One(b: bool): nat { if b then 1 else 0 }

  /** The number of set bits among the lowest n. */
  function CountBits(w: Word, n: nat): (c: nat)
    requires n <= 32
    ensures c <= n
  {
    if n == 0 then 0 else CountBits(w, n - 1) + One(Bit(w, n - 1))
  }

  function PairSums(v: bv32): bv32 { v - ((v >> 1) & 0x55555555) }
  function NibbleSums(v: bv32): bv32 { (v & 0x33333333) + ((v >> 2) & 0x33333333) }
  function ByteSums(v: bv32): bv32 { (v + (v >> 4)) & 0x0F0F0F0F }
  function HalfSums(v: bv32): bv32 { v + (v >> 8) }
  function Upper(v: bv32): bv32 { v >> 16 }
  function WordSum(v: bv32): bv32 { v + Upper(v) }

  /** The low six bits, value & 0x3F, as a number. */
  function LowSix(v: bv32): nat { ((v & 0x3F) as bv6) as int }

  function Nibbles(v: bv32): bv32 { NibbleSums(PairSums(v)) }
  function Bytes(v: bv32): bv32 { ByteSums(Nibbles(v)) }
  function Halves(v: bv32): bv32 { HalfSums(Bytes(v)) }

  function HammingWeight(w: Word): nat { LowSix(WordSum(Halves(w.bits))) }

  // What the fields of the three intermediate values hold, as numbers.
  function Nibble0(w: Word): nat { LowSix(Nibbles(w.bits) & 15) }
  function Nibble1(w: Word): nat { LowSix((Nibbles(w.bits) >> 4) & 15) }
  function Nibble2(w: Word): nat { LowSix((Nibbles(w.bits) >> 8) & 15) }
  function Nibble3(w: Word): nat { LowSix((Nibbles(w.bits) >> 12) & 15) }
  function Nibble4(w: Word): nat { LowSix((Nibbles(w.bits) >> 16) & 15) }
  function Nibble5(w: Word): nat { LowSix((Nibbles(w.bits) >> 20) & 15) }
  function Nibble6(w: Word): nat { LowSix((Nibbles(w.bits) >> 24) & 15) }
  function Nibble7(w: Word): nat { LowSix((Nibbles(w.bits) >> 28) & 15) }
  function Byte0(w: Word): nat { LowSix(Bytes(w.bits)) }
  function Byte1(w: Word): nat { LowSix(Bytes(w.bits) >> 8) }
  function Byte2(w: Word): nat { LowSix(Bytes(w.bits) >> 16) }
  function Byte3(w: Word): nat { LowSix(Bytes(w.bits) >> 24) }
  function LowHalf(w: Word): nat { LowSix(Halves(w.bits)) }
  function HighHalf(w: Word): nat { LowSix(Upper(Halves(w.bits))) }

  // ----- Each field is the sum of the two below it

  lemma Nibble0Counts(w: Word)
    ensures Nibble0(w) == One(Bit(w, 0)) + One(Bit(w, 1)) + One(Bit(w, 2)) + One(Bit(w, 3))
  {}

  lemma Nibble1Counts(w: Word)
    ensures Nibble1(w) == One(Bit(w, 4)) + One(Bit(w, 5)) + One(Bit(w, 6)) + One(Bit(w, 7))
  {}

  lemma Nibble2Counts(w: Word)
    ensures Nibble2(w) == One(Bit(w, 8)) + One(Bit(w, 9)) + One(Bit(w, 10)) + One(Bit(w, 11))
  {}

  lemma Nibble3Counts(w: Word)
    ensures Nibble3(w) == One(Bit(w, 12)) + One(Bit(w, 13)) + One(Bit(w, 14)) + One(Bit(w, 15))
  {}

  lemma Nibble4Counts(w: Word)
    ensures Nibble4(w) == One(Bit(w, 16)) + One(Bit(w, 17)) + One(Bit(w, 18)) + One(Bit(w, 19))
  {}

  lemma Nibble5Counts(w: Word)
    ensures Nibble5(w) == One(Bit(w, 20)) + One(Bit(w, 21)) + One(Bit(w, 22)) + One(Bit(w, 23))
  {}

  lemma Nibble6Counts(w: Word)
    ensures Nibble6(w) == One(Bit(w, 24)) + One(Bit(w, 25)) + One(Bit(w, 26)) + One(Bit(w, 27))
  {}

  lemma Nibble7Counts(w: Word)
    ensures Nibble7(w) == One(Bit(w, 28)) + One(Bit(w, 29)) + One(Bit(w, 30)) + One(Bit(w, 31))
  {}

  lemma RawByte0(n: bv32)
    requires n & 0x77777777 == n
    ensures LowSix(ByteSums(n)) == LowSix(n & 15) + LowSix((n >> 4) & 15)
  {}

  lemma Byte0Counts(w: Word)
    ensures Byte0(w) == Nibble0(w) + Nibble1(w)
  {
    NibblesSmall(w.bits);
    hide Nibbles, ByteSums, LowSix;
    RawByte0(Nibbles(w.bits));
  }

  lemma RawByte1(n: bv32)
    requires n & 0x77777777 == n
    ensures LowSix(ByteSums(n) >> 8) == LowSix((n >> 8) & 15) + LowSix((n >> 12) & 15)
  {}

  lemma Byte1Counts(w: Word)
    ensures Byte1(w) == Nibble2(w) + Nibble3(w)
  {
    NibblesSmall(w.bits);
    hide Nibbles, ByteSums, LowSix;
    RawByte1(Nibbles(w.bits));
  }

  lemma RawByte2(n: bv32)
    requires n & 0x77777777 == n
    ensures LowSix(ByteSums(n) >> 16) == LowSix((n >> 16) & 15) + LowSix((n >> 20) & 15)
  {}

  lemma Byte2Counts(w: Word)
    ensures Byte2(w) == Nibble4(w) + Nibble5(w)
  {
    NibblesSmall(w.bits);
    hide Nibbles, ByteSums, LowSix;
    RawByte2(Nibbles(w.bits));
  }

  lemma RawByte3(n: bv32)
    requires n & 0x77777777 == n
    ensures LowSix(ByteSums(n) >> 24) == LowSix((n >> 24) & 15) + LowSix((n >> 28) & 15)
  {}

  lemma Byte3Counts(w: Word)
    ensures Byte3(w) == Nibble6(w) + Nibble7(w)
  {
    NibblesSmall(w.bits);
    hide Nibbles, ByteSums, LowSix;
    RawByte3(Nibbles(w.bits));
  }

  lemma NibblesSmall(v: bv32)
    ensures Nibbles(v) & 0x77777777 == Nibbles(v)
  {}

  lemma BytesSmall(v: bv32)
    ensures Bytes(v) & 0x0F0F0F0F == Bytes(v)
  {}

  lemma RawLowHalf(v: bv32)
    requires v & 0x0F0F0F0F == v
    ensures LowSix(HalfSums(v)) == LowSix(v) + LowSix(v >> 8) <= 30
  {}

  lemma RawHighHalf(v: bv32)
    requires v & 0x0F0F0F0F == v
    ensures LowSix(Upper(HalfSums(v))) == LowSix(v >> 16) + LowSix(v >> 24) <= 30
  {}

  lemma LowHalfCounts(w: Word)
    ensures LowHalf(w) == Byte0(w) + Byte1(w) <= 30
  {
    BytesSmall(w.bits);
    hide Bytes, HalfSums, LowSix;
    RawLowHalf(Bytes(w.bits));
  }

  lemma HighHalfCounts(w: Word)
    ensures HighHalf(w) == Byte2(w) + Byte3(w) <= 30
  {
    BytesSmall(w.bits);
    hide Bytes, HalfSums, Upper, LowSix;
    RawHighHalf(Bytes(w.bits));
  }

  lemma RawSum(h: bv32)
    requires LowSix(h) <= 30 && LowSix(Upper(h)) <= 30
    ensures LowSix(WordSum(h)) == LowSix(h) + LowSix(Upper(h))
  {}

  lemma WeightCounts(w: Word)
    requires LowHalf(w) <= 30 && HighHalf(w) <= 30
    ensures HammingWeight(w) == LowHalf(w) + HighHalf(w)
  {
    hide Halves, WordSum, Upper, LowSix;
    RawSum(Halves(w.bits));
  }

  // ----- The whole count

  lemma CountNibble(w: Word, s: nat)
    requires s <= 28
    ensures CountBits(w, s + 4) == CountBits(w, s) + One(Bit(w, s)) + One(Bit(w, s + 1)) + One(Bit(w, s + 2)) + One(Bit(w, s + 3))
  {
    hide Bit, One;
    assert CountBits(w, s + 2) == CountBits(w, s + 1) + One(Bit(w, s + 1));
  }

  lemma Count0(w: Word)
    ensures CountBits(w, 8) == CountBits(w, 0) + Byte0(w)
  {
    hide Bit, One, CountBits, Byte0, Nibble0, Nibble1;
    CountNibble(w, 0);
    CountNibble(w, 4);
    Nibble0Counts(w);
    Nibble1Counts(w);
    Byte0Counts(w);
  }

  lemma Count1(w: Word)
    ensures CountBits(w, 16) == CountBits(w, 8) + Byte1(w)
  {
    hide Bit, One, CountBits, Byte1, Nibble2, Nibble3;
    CountNibble(w, 8);
    CountNibble(w, 12);
    Nibble2Counts(w);
    Nibble3Counts(w);
    Byte1Counts(w);
  }

  lemma Count2(w: Word)
    ensures CountBits(w, 24) == CountBits(w, 16) + Byte2(w)
  {
    hide Bit, One, CountBits, Byte2, Nibble4, Nibble5;
    CountNibble(w, 16);
    CountNibble(w, 20);
    Nibble4Counts(w);
    Nibble5Counts(w);
    Byte2Counts(w);
  }

  lemma Count3(w: Word)
    ensures CountBits(w, 32) == CountBits(w, 24) + Byte3(w)
  {
    hide Bit, One, CountBits, Byte3, Nibble6, Nibble7;
    CountNibble(w, 24);
    CountNibble(w, 28);
    Nibble6Counts(w);
    Nibble7Counts(w);
    Byte3Counts(w);
  }

  /** hamming_weight is the number of set bits, for every word. */
  lemma WeightIsCount(w: Word)
    ensures HammingWeight(w) == CountBits(w, 32)
  {
    hide HammingWeight, LowHalf, HighHalf, Byte0, Byte1, Byte2, Byte3, CountBits;
    LowHalfCounts(w);
    HighHalfCounts(w);
    WeightCounts(w);
    Count0(w); Count1(w); Count2(w); Count3(w);
    NothingCounted(w);
  }

  lemma NothingCounted(w: Word)
    ensures CountBits(w, 0) == 0
  {}
}
