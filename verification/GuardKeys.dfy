/** What check_guard_key and expand_guard_key of storage/storage.c mean, bit by bit. */
module GuardKeys {
  import opened MachineWords
  import opened HammingWeights
  import opened PinLogWords

  // ----- expand_guard_key

  lemma Unboxed(g: bv32)
    ensures GuardMask(Word(g)) == Word(MaskOf(g)) && Guard(Word(g)) == Word(GuardOf(g))
  {
    hide MaskOf, GuardOf;
  }

  lemma PairAt(g: bv32, k: bv6)
    requires k < 32 && k & 1 == 0
    ensures At(MaskOf(g), k + 1) == At(g, k) && At(MaskOf(g), k) == 1 - At(g, k)
    ensures At(GuardOf(g), k + 1) == At(g, k) & At(g, k + 1) && At(GuardOf(g), k) == (1 - At(g, k)) & At(g, k + 1)
  {}

  lemma EvenIndex(j: nat)
    requires j < 16
    ensures (2 * j) as bv6 & 1 == 0 && (2 * j + 1) as bv6 == (2 * j) as bv6 + 1
  {}

  lemma PairOf(g: bv32, j: nat)
    requires j < 16
    ensures Bit(Word(MaskOf(g)), 2 * j + 1) <==> Bit(Word(g), 2 * j)
    ensures Bit(Word(MaskOf(g)), 2 * j) <==> !Bit(Word(g), 2 * j)
    ensures Bit(Word(GuardOf(g)), 2 * j + 1) <==> Bit(Word(g), 2 * j) && Bit(Word(g), 2 * j + 1)
    ensures Bit(Word(GuardOf(g)), 2 * j) <==> !Bit(Word(g), 2 * j) && Bit(Word(g), 2 * j + 1)
  {
    hide Bit, At, MaskOf, GuardOf;
    EvenIndex(j);
    BitIsAt(g, 2 * j);
    BitIsAt(g, 2 * j + 1);
    BitIsAt(MaskOf(g), 2 * j);
    BitIsAt(MaskOf(g), 2 * j + 1);
    BitIsAt(GuardOf(g), 2 * j);
    BitIsAt(GuardOf(g), 2 * j + 1);
    PairAt(g, (2 * j) as bv6);
  }

  /**
    * In each pair one bit is the guard: the upper one if the low bit of the key's pair is set, else
    * the lower one. Its value is the upper bit of the key's pair.
    */
  lemma GuardBits(key: Word, j: nat)
    requires j < 16
    ensures Bit(GuardMask(key), 2 * j + 1) <==> Bit(key, 2 * j)
    ensures Bit(GuardMask(key), 2 * j) <==> !Bit(key, 2 * j)
    ensures Bit(Guard(key), 2 * j + 1) <==> Bit(key, 2 * j) && Bit(key, 2 * j + 1)
    ensures Bit(Guard(key), 2 * j) <==> !Bit(key, 2 * j) && Bit(key, 2 * j + 1)
  {
    hide Bit, GuardMask, Guard;
    var g := key.bits;
    assert key == Word(g);
    Unboxed(g);
    PairOf(g, j);
  }

  // ----- check_guard_key

  /** The number of set bits among the odd ones of byte b. */
  function OddBits(key: Word, b: nat): nat
    requires b < 4
  {
    One(Bit(key, 8 * b + 1)) + One(Bit(key, 8 * b + 3)) + One(Bit(key, 8 * b + 5)) + One(Bit(key, 8 * b + 7))
  }

  /** The five bits from bit i on are all v. */
  predicate Run(key: Word, i: nat, v: bool)
    requires i < 28
  {
    Bit(key, i) == v && Bit(key, i + 1) == v && Bit(key, i + 2) == v && Bit(key, i + 3) == v && Bit(key, i + 4) == v
  }

  lemma CheckParts(g: bv32)
    ensures CheckGuardKey(Word(g)) <==> Residue(g) && TwoInEachByte(g) && NoFiveOnes(g) && NoFiveOnes(!g)
  {
    hide Residue, TwoInEachByte, NoFiveOnes;
  }

  predicate TwoOf(a: bool, b: bool, c: bool, d: bool) {
    if a && b then !c && !d else if a || b then c != d else c && d
  }

  lemma SameBit(g: bv32, i: nat, k: bv6)
    requires i < 32 && k == i as bv6 && k < 32
    ensures Bit(Word(g), i) <==> At(g, k) == 1
  {
    hide Bit, At;
    BitIsAt(g, i);
  }

  lemma Field0(g: bv32)
    ensures Sums(g) & 0x0000000e == 0x00000004 <==> TwoOf(At(g, 1) == 1, At(g, 3) == 1, At(g, 5) == 1, At(g, 7) == 1)
  {}

  lemma Count0(g: bv32)
    ensures Sums(g) & 0x0000000e == 0x00000004 <==> TwoOf(Bit(Word(g), 1), Bit(Word(g), 3), Bit(Word(g), 5), Bit(Word(g), 7))
  {
    hide Sums, TwoOf, Bit, At;
    Field0(g);
    SameBit(g, 1, 1);
    SameBit(g, 3, 3);
    SameBit(g, 5, 5);
    SameBit(g, 7, 7);
  }

  lemma Field1(g: bv32)
    ensures Sums(g) & 0x00000e00 == 0x00000400 <==> TwoOf(At(g, 9) == 1, At(g, 11) == 1, At(g, 13) == 1, At(g, 15) == 1)
  {}

  lemma Count1(g: bv32)
    ensures Sums(g) & 0x00000e00 == 0x00000400 <==> TwoOf(Bit(Word(g), 9), Bit(Word(g), 11), Bit(Word(g), 13), Bit(Word(g), 15))
  {
    hide Sums, TwoOf, Bit, At;
    Field1(g);
    SameBit(g, 9, 9);
    SameBit(g, 11, 11);
    SameBit(g, 13, 13);
    SameBit(g, 15, 15);
  }

  lemma Field2(g: bv32)
    ensures Sums(g) & 0x000e0000 == 0x00040000 <==> TwoOf(At(g, 17) == 1, At(g, 19) == 1, At(g, 21) == 1, At(g, 23) == 1)
  {}

  lemma Count2(g: bv32)
    ensures Sums(g) & 0x000e0000 == 0x00040000 <==> TwoOf(Bit(Word(g), 17), Bit(Word(g), 19), Bit(Word(g), 21), Bit(Word(g), 23))
  {
    hide Sums, TwoOf, Bit, At;
    Field2(g);
    SameBit(g, 17, 17);
    SameBit(g, 19, 19);
    SameBit(g, 21, 21);
    SameBit(g, 23, 23);
  }

  lemma Field3(g: bv32)
    ensures Sums(g) & 0x0e000000 == 0x04000000 <==> TwoOf(At(g, 25) == 1, At(g, 27) == 1, At(g, 29) == 1, At(g, 31) == 1)
  {}

  lemma Count3(g: bv32)
    ensures Sums(g) & 0x0e000000 == 0x04000000 <==> TwoOf(Bit(Word(g), 25), Bit(Word(g), 27), Bit(Word(g), 29), Bit(Word(g), 31))
  {
    hide Sums, TwoOf, Bit, At;
    Field3(g);
    SameBit(g, 25, 25);
    SameBit(g, 27, 27);
    SameBit(g, 29, 29);
    SameBit(g, 31, 31);
  }

  lemma ByteFields(s: bv32)
    ensures s & 0x0e0e0e0e == 0x04040404 <==>
            s & 0x0000000e == 0x00000004 && s & 0x00000e00 == 0x00000400 && s & 0x000e0000 == 0x00040000 && s & 0x0e000000 == 0x04000000
  {}

  lemma TwoOdd(key: Word, b: nat)
    requires b < 4
    ensures OddBits(key, b) == 2 <==>
            TwoOf(Bit(key, 8 * b + 1), Bit(key, 8 * b + 3), Bit(key, 8 * b + 5), Bit(key, 8 * b + 7))
  {
    hide Bit;
  }

  lemma TwoOddBits(g: bv32)
    ensures TwoInEachByte(g) <==> forall b: nat :: b < 4 ==> OddBits(Word(g), b) == 2
  {
    hide Bit, Sums, TwoOf, OddBits;
    ByteFields(Sums(g));
    Count0(g);
    Count1(g);
    Count2(g);
    Count3(g);
    TwoOdd(Word(g), 0);
    TwoOdd(Word(g), 1);
    TwoOdd(Word(g), 2);
    TwoOdd(Word(g), 3);
    if TwoInEachByte(g) {
      forall b: nat | b < 4 ensures OddBits(Word(g), b) == 2 {
        if b == 0 {} else if b == 1 {} else if b == 2 {} else {}
      }
    }
  }

  lemma ShiftAt(g: bv32, k: bv6)
    requires k < 32
    ensures At(g >> 1, k) == if k < 31 then At(g, k + 1) else 0
    ensures At(g >> 2, k) == if k < 30 then At(g, k + 2) else 0
  {}

  lemma NextIndex(i: nat)
    requires i < 32
    ensures i as bv6 < 32 && (i as bv6 < 31 <==> i < 31) && (i as bv6 < 30 <==> i < 30)
    ensures i < 31 ==> (i + 1) as bv6 == i as bv6 + 1
    ensures i < 30 ==> (i + 2) as bv6 == i as bv6 + 2
  {}

  lemma ShiftBit(g: bv32, i: nat)
    requires i < 32
    ensures Bit(Word(g >> 1), i) <==> i < 31 && Bit(Word(g), i + 1)
    ensures Bit(Word(g >> 2), i) <==> i < 30 && Bit(Word(g), i + 2)
  {
    hide Bit, At;
    NextIndex(i);
    ShiftAt(g, i as bv6);
    BitIsAt(g >> 1, i);
    BitIsAt(g >> 2, i);
    if i < 31 { BitIsAt(g, i + 1); }
    if i < 30 { BitIsAt(g, i + 2); }
  }

  lemma NextBit(g: bv32, i: nat)
    requires i < 32
    ensures Bit(Word(WithNext(g)), i) <==> i < 31 && Bit(Word(g), i) && Bit(Word(g), i + 1)
    ensures Bit(Word(WithSecond(g)), i) <==> i < 30 && Bit(Word(g), i) && Bit(Word(g), i + 2)
  {
    hide Bit, And, WithNext, WithSecond;
    ShiftBit(g, i);
    WithIs(g);
    AndBit(Word(g), Word(g >> 1), i);
    AndBit(Word(g), Word(g >> 2), i);
  }

  lemma WithIs(g: bv32)
    ensures Word(WithNext(g)) == And(Word(g), Word(g >> 1)) && Word(WithSecond(g)) == And(Word(g), Word(g >> 2))
  {}

  lemma RunBit(g: bv32, i: nat)
    requires i < 32
    ensures Bit(Word(Runs(g)), i) <==> i < 28 && Run(Word(g), i, true)
  {
    hide Bit, WithNext, WithSecond;
    var two := WithSecond(g);
    var three := WithNext(two);
    NextBit(three, i);
    if i < 31 {
      NextBit(two, i);
      NextBit(two, i + 1);
      NextBit(g, i);
      NextBit(g, i + 1);
      if i < 30 { NextBit(g, i + 2); }
    }
  }

  lemma NoRuns(g: bv32)
    ensures NoFiveOnes(g) <==> forall i: nat :: i < 28 ==> !Run(Word(g), i, true)
  {
    hide Bit, Runs, Run;
    forall i: nat | i < 32 ensures Bit(Word(Runs(g)), i) <==> i < 28 && Run(Word(g), i, true) { RunBit(g, i); }
    if Runs(g) == 0 {
      forall i: nat | i < 28 ensures !Run(Word(g), i, true) { BitConstant(i); }
    } else if forall i: nat :: i < 28 ==> !Run(Word(g), i, true) {
      ZeroWord(Word(Runs(g)));
    }
  }

  lemma RunOfZeros(g: bv32, i: nat)
    requires i < 28
    ensures Run(Word(!g), i, true) <==> Run(Word(g), i, false)
  {
    hide Bit;
    NotBits(g, i);
    NotBits(g, i + 1);
    NotBits(g, i + 2);
    NotBits(g, i + 3);
    NotBits(g, i + 4);
  }

  lemma NoZeroRuns(g: bv32)
    ensures NoFiveOnes(!g) <==> forall i: nat :: i < 28 ==> !Run(Word(g), i, false)
  {
    hide Run, NoFiveOnes;
    var z := !g;
    forall i: nat | i < 28 ensures Run(Word(z), i, true) <==> Run(Word(g), i, false) { RunOfZeros(g, i); }
    NoRuns(z);
    if i: nat :| i < 28 && Run(Word(g), i, false) { assert Run(Word(z), i, true); }
    if i: nat :| i < 28 && Run(Word(z), i, true) { assert Run(Word(g), i, false); }
  }

  /**
    * A guard key passes exactly when it is 15 modulo 6311, two of the odd bits of every byte are
    * set, and no five consecutive bits are equal.
    */
  lemma GuardKeyMeans(key: Word)
    ensures CheckGuardKey(key) <==>
            && Residue(key.bits)
            && (forall b: nat :: b < 4 ==> OddBits(key, b) == 2)
            && (forall i: nat :: i < 28 ==> !Run(key, i, true) && !Run(key, i, false))
  {
    var g := key.bits;
    assert key == Word(g);
    hide CheckGuardKey, OddBits, Run, Residue, TwoInEachByte, NoFiveOnes;
    CheckParts(g);
    TwoOddBits(g);
    NoRuns(g);
    NoZeroRuns(g);
  }
}
