/**
  * One word of a PIN log. Each pair of bits holds a guard bit, whose place and value the
  * guard key fixes, and a data bit; the data bits are cleared from the top, one an attempt.
  */
module PinLogWords {
  import opened MachineWords
  import opened HammingWeights

  /** The pairs left when the top k are cleared: the top 2k bits zero, the others one. */
  function Rest(k: nat): Word
    requires k <= 16
  {
    if k == 0 then Word(0xFFFF_FFFF) else Drop(Rest(k - 1))
  }

  function Drop(r: Word): Word { Word(r.bits >> 2) }

  function MaskOf(g: bv32): bv32 { ((g & 0x55555555) << 1) | (!g & 0x55555555) }
  function GuardOf(g: bv32): bv32 { (((g & 0x55555555) << 1) & g) | ((!g & 0x55555555) & (g >> 1)) }

  /** expand_guard_key. */
  function GuardMask(key: Word): Word { Word(MaskOf(key.bits)) }
  function Guard(key: Word): Word { Word(GuardOf(key.bits)) }

  /** The word w with its guard bits: (w & ~guard_mask) | guard. */
  function Guarded(w: Word, mask: Word, guard: Word): Word {
    Word((w.bits & !mask.bits) | guard.bits)
  }

  /** The log word with k data bits cleared. */
  function LogWord(key: Word, k: nat): Word
    requires k <= 16
  {
    Guarded(Rest(k), GuardMask(key), Guard(key))
  }

  function Unused(mask: Word, guard: Word): Word { Word(guard.bits | !mask.bits) }

  /** The data bit of each pair, moved to the pair's low bit. */
  function PairBits(w: Word, mask: Word): Word {
    var word := w.bits & !mask.bits;
    Word(((word >> 1) | word) & 0x55555555)
  }

  function NextPairs(word: Word): Word { Word((word.bits >> 2) | (word.bits >> 1)) }
  function Doubled(word: Word): Word { Word(word.bits | (word.bits << 1)) }
  function LowBits(r: Word): Word { Word(r.bits & 0x55555555) }

  /** storage_pin_fails_increase: the log word with one more data bit cleared. */
  function Advance(w: Word, mask: Word, guard: Word): Word {
    Guarded(NextPairs(PairBits(w, mask)), mask, guard)
  }

  /** pin_get_fails: the data bits, each duplicated over its pair. */
  function Spread(w: Word, mask: Word): Word {
    Doubled(PairBits(w, mask))
  }

  /** The form 0*1*. */
  predicate OnesBelow(w: Word) { w.bits & (w.bits + 1) == 0 }

  // ----- Facts about one mask and guard

  predicate Paired(r: Word) { (r.bits ^ (r.bits >> 1)) & 0x55555555 == 0 }

  predicate GuardPair(mask: Word, guard: Word) {
    (mask.bits ^ (mask.bits >> 1)) & 0x55555555 == 0x55555555 && guard.bits & mask.bits == guard.bits
  }

  lemma KeyGuards(key: Word)
    ensures GuardPair(GuardMask(key), Guard(key))
  {}

  lemma DropPaired(r: Word)
    requires Paired(r) && OnesBelow(r)
    ensures Paired(Drop(r)) && OnesBelow(Drop(r)) && And(Drop(r), r) == Drop(r)
  {}

  lemma PairBitsOf(r: Word, mask: Word, guard: Word)
    requires Paired(r) && GuardPair(mask, guard)
    ensures PairBits(Guarded(r, mask, guard), mask) == LowBits(r)
  {}

  lemma PairsRestored(r: Word)
    requires Paired(r)
    ensures NextPairs(LowBits(r)) == Drop(r)
    ensures Doubled(LowBits(r)) == r
  {}

  lemma AdvanceGuarded(r: Word, mask: Word, guard: Word)
    requires Paired(r) && GuardPair(mask, guard)
    ensures Advance(Guarded(r, mask, guard), mask, guard) == Guarded(Drop(r), mask, guard)
    ensures Spread(Guarded(r, mask, guard), mask) == r
  {
    hide PairBits, Guarded, GuardPair, NextPairs, Doubled, LowBits, Drop, Paired;
    PairBitsOf(r, mask, guard);
    PairsRestored(r);
  }

  lemma GuardedMask(r: Word, mask: Word, guard: Word)
    requires GuardPair(mask, guard)
    ensures And(Guarded(r, mask, guard), mask) == guard
  {}

  lemma GuardedEnds(r: Word, mask: Word, guard: Word)
    requires Paired(r) && GuardPair(mask, guard)
    ensures Guarded(r, mask, guard) == guard <==> r == Word(0)
    ensures Guarded(r, mask, guard) == Unused(mask, guard) <==> r == Word(0xFFFF_FFFF)
  {}

  lemma GuardedClears(r: Word, q: Word, mask: Word, guard: Word)
    requires And(r, q) == r
    ensures And(Guarded(r, mask, guard), Guarded(q, mask, guard)) == Guarded(r, mask, guard)
  {}

  // ----- The bits of log words

  lemma GuardedAt(r: bv32, m: bv32, g: bv32, k: bv6)
    requires k < 32 && g & m == g
    ensures At((r & !m) | g, k) == if At(m, k) == 1 then At(g, k) else At(r, k)
  {}

  lemma GuardedBits(r: bv32, m: bv32, g: bv32, i: nat)
    requires i < 32 && g & m == g
    ensures Bit(Word((r & !m) | g), i) == if Bit(Word(m), i) then Bit(Word(g), i) else Bit(Word(r), i)
  {
    hide Bit, At;
    BitIsAt(r, i); BitIsAt(m, i); BitIsAt(g, i); BitIsAt((r & !m) | g, i);
    GuardedAt(r, m, g, i as bv6);
  }

  lemma Unboxed(x: bv32, m: bv32, g: bv32)
    ensures Guarded(Word(x), Word(m), Word(g)) == Word((x & !m) | g)
    ensures GuardPair(Word(m), Word(g)) ==> g & m == g
    ensures Drop(Word(x)) == Word(x >> 2)
  {}

  lemma GuardedBit(r: Word, mask: Word, guard: Word, i: nat)
    requires i < 32 && GuardPair(mask, guard)
    ensures Bit(Guarded(r, mask, guard), i) == if Bit(mask, i) then Bit(guard, i) else Bit(r, i)
  {
    hide Bit, Guarded, GuardPair;
    var x, m, g := r.bits, mask.bits, guard.bits;
    assert r == Word(x) && mask == Word(m) && guard == Word(g);
    Unboxed(x, m, g);
    GuardedBits(x, m, g, i);
  }

  lemma PairAt(m: bv32, k: bv6)
    requires k < 32 && k & 1 == 0 && (m ^ (m >> 1)) & 0x55555555 == 0x55555555
    ensures At(m, k) != At(m, k + 1)
  {}

  lemma EvenIndex(p: nat)
    requires p < 16
    ensures (2 * p) as bv6 < 32 && ((2 * p) as bv6) & 1 == 0 && (2 * p + 1) as bv6 == (2 * p) as bv6 + 1
  {}

  lemma PairBv(m: bv32, p: nat)
    requires p < 16 && (m ^ (m >> 1)) & 0x55555555 == 0x55555555
    ensures Bit(Word(m), 2 * p) != Bit(Word(m), 2 * p + 1)
  {
    hide Bit, At;
    BitIsAt(m, 2 * p);
    BitIsAt(m, 2 * p + 1);
    EvenIndex(p);
    PairAt(m, (2 * p) as bv6);
  }

  lemma MaskPairs(m: bv32, g: bv32)
    requires GuardPair(Word(m), Word(g))
    ensures (m ^ (m >> 1)) & 0x55555555 == 0x55555555
  {}

  lemma OneOfPair(mask: Word, guard: Word, p: nat)
    requires p < 16 && GuardPair(mask, guard)
    ensures Bit(mask, 2 * p) != Bit(mask, 2 * p + 1)
  {
    hide Bit, GuardPair;
    var m, g := mask.bits, guard.bits;
    assert mask == Word(m) && guard == Word(g);
    MaskPairs(m, g);
    PairBv(m, p);
  }

  lemma DropAt(r: bv32, k: bv6)
    requires k < 32
    ensures At(r >> 2, k) == if k < 30 then At(r, k + 2) else 0
  {}

  lemma NextPair(i: nat)
    requires i < 32
    ensures i as bv6 < 30 <==> i < 30
    ensures i < 30 ==> (i + 2) as bv6 == i as bv6 + 2
  {}

  lemma DropBits(r: bv32, i: nat)
    requires i < 32
    ensures Bit(Word(r >> 2), i) == (i < 30 && Bit(Word(r), i + 2))
  {
    hide Bit, At;
    NextPair(i);
    BitIsAt(r >> 2, i);
    if i < 30 { BitIsAt(r, i + 2); }
    DropAt(r, i as bv6);
  }

  lemma DropBit(r: Word, i: nat)
    requires i < 32
    ensures Bit(Drop(r), i) == (i < 30 && Bit(r, i + 2))
  {
    hide Bit, Drop;
    var x := r.bits;
    assert r == Word(x);
    Unboxed(x, 0, 0);
    DropBits(x, i);
  }

  lemma {:induction false} RestBit(k: nat, i: nat)
    requires k <= 16 && i < 32
    ensures Bit(Rest(k), i) == (i < 32 - 2 * k)
  {
    hide Bit, Drop;
    if k == 0 {
      BitConstant(i);
    } else {
      DropBit(Rest(k - 1), i);
      if i < 30 { RestBit(k - 1, i + 2); }
    }
  }

  // ----- Log words

  lemma {:induction false} RestForm(k: nat)
    requires k <= 16
    ensures Paired(Rest(k)) && OnesBelow(Rest(k))
  {
    if k == 0 {
      assert Rest(0) == Word(0xFFFF_FFFF);
    } else {
      RestForm(k - 1);
      DropPaired(Rest(k - 1));
      hide Paired, OnesBelow, Drop;
    }
  }

  lemma {:induction false} RestClears(j: nat, k: nat)
    requires j <= k <= 16
    ensures And(Rest(k), Rest(j)) == Rest(k)
  {
    hide And, Drop;
    if j == k {
      AndSelf(Rest(k));
    } else {
      RestClears(j, k - 1);
      RestForm(k - 1);
      DropPaired(Rest(k - 1));
      AndTransitive(Rest(k), Rest(k - 1), Rest(j));
    }
  }

  lemma AndSelf(a: Word) ensures And(a, a) == a {}

  lemma AndTransitive(a: Word, b: Word, c: Word)
    requires And(a, b) == a && And(b, c) == b
    ensures And(a, c) == a
  {}

  lemma RestEnds(k: nat)
    requires k <= 16
    ensures Rest(k) == Word(0) <==> k == 16
    ensures Rest(k) == Word(0xFFFF_FFFF) <==> k == 0
  {
    hide Bit, Rest;
    RestBit(k, 0);
    RestBit(k, 31);
    BitConstant(0);
    BitConstant(31);
    if k == 16 {
      forall i: nat | i < 32 ensures !Bit(Rest(16), i) { RestBit(16, i); }
      ZeroWord(Rest(16));
    }
    RestStart();
  }

  lemma RestStart() ensures Rest(0) == Word(0xFFFF_FFFF) {}

  /** A log word passes the guard check, and is the guard exactly when full and unused exactly when empty. */
  lemma LogWordGuard(key: Word, k: nat)
    requires k <= 16
    ensures And(LogWord(key, k), GuardMask(key)) == Guard(key)
    ensures LogWord(key, k) == Guard(key) <==> k == 16
    ensures LogWord(key, k) == Unused(GuardMask(key), Guard(key)) <==> k == 0
  {
    hide And, Guarded, GuardMask, Guard, Unused, GuardPair, Paired, OnesBelow, Rest;
    KeyGuards(key);
    RestForm(k);
    RestEnds(k);
    GuardedMask(Rest(k), GuardMask(key), Guard(key));
    GuardedEnds(Rest(k), GuardMask(key), Guard(key));
  }

  /** The increase clears exactly the next data bit, and the data bits always have the form 0*1*. */
  lemma LogWordAdvance(key: Word, k: nat)
    requires k <= 16
    ensures k < 16 ==> Advance(LogWord(key, k), GuardMask(key), Guard(key)) == LogWord(key, k + 1)
    ensures OnesBelow(Spread(LogWord(key, k), GuardMask(key)))
  {
    hide Guarded, GuardMask, Guard, GuardPair, Paired, OnesBelow, Drop, Advance, Spread;
    KeyGuards(key);
    RestForm(k);
    AdvanceGuarded(Rest(k), GuardMask(key), Guard(key));
  }

  /** Moving a log word forward only clears bits. */
  lemma LogWordClears(key: Word, j: nat, k: nat)
    requires j <= k <= 16
    ensures And(LogWord(key, k), LogWord(key, j)) == LogWord(key, k)
  {
    hide And, Guarded, GuardMask, Guard, Rest;
    RestClears(j, k);
    GuardedClears(Rest(k), Rest(j), GuardMask(key), Guard(key));
  }

  lemma XorLogBit(key: Word, j: nat, k: nat, i: nat)
    requires j <= k <= 16 && i < 32
    ensures Bit(Xor(LogWord(key, j), LogWord(key, k)), i)
         == (!Bit(GuardMask(key), i) && 32 - 2 * k <= i < 32 - 2 * j)
  {
    hide Bit, Xor, Guarded, GuardMask, Guard, GuardPair, Rest;
    KeyGuards(key);
    XorBit(LogWord(key, j), LogWord(key, k), i);
    GuardedBit(Rest(j), GuardMask(key), Guard(key), i);
    GuardedBit(Rest(k), GuardMask(key), Guard(key), i);
    RestBit(j, i);
    RestBit(k, i);
  }

  lemma {:induction false} XorLogCount(key: Word, j: nat, k: nat, p: nat)
    requires j <= k <= 16 && p <= 16
    ensures CountBits(Xor(LogWord(key, j), LogWord(key, k)), 2 * p)
         == if p <= 16 - k then 0 else if p <= 16 - j then p - (16 - k) else k - j
  {
    hide Bit, Xor, LogWord, GuardMask, Guard, GuardPair;
    if p > 0 {
      var x := Xor(LogWord(key, j), LogWord(key, k));
      XorLogCount(key, j, k, p - 1);
      XorLogBit(key, j, k, 2 * p - 2);
      XorLogBit(key, j, k, 2 * p - 1);
      KeyGuards(key);
      OneOfPair(GuardMask(key), Guard(key), p - 1);
      assert CountBits(x, 2 * p - 1) == CountBits(x, 2 * p - 2) + One(Bit(x, 2 * p - 2));
    }
  }

  /** The weight of the difference of two log words is the number of attempts between them. */
  lemma LogWordDistance(key: Word, j: nat, k: nat)
    requires j <= k <= 16
    ensures HammingWeight(Xor(LogWord(key, j), LogWord(key, k))) == k - j
  {
    hide Xor, LogWord, HammingWeight;
    XorLogCount(key, j, k, 16);
    WeightIsCount(Xor(LogWord(key, j), LogWord(key, k)));
  }

  /** The first entry word that pin_logs_init writes. */
  function ShiftedOnes(fails: nat): Word
    requires fails < 10
  {
    Word(0xFFFF_FFFF >> (2 * fails))
  }

  lemma {:induction false} ShiftedOnesIsRest(fails: nat)
    requires fails < 10
    ensures ShiftedOnes(fails) == Rest(fails)
  {
    hide Rest, Drop;
    if fails == 0 {
      RestStart();
    } else {
      ShiftedOnesIsRest(fails - 1);
      ShiftedDrop(fails - 1);
      RestStep(fails - 1);
    }
  }

  lemma RestStep(k: nat)
    requires k < 16
    ensures Rest(k + 1) == Drop(Rest(k))
  {}

  lemma ShiftedDrop(f: nat)
    requires f < 9
    ensures ShiftedOnes(f + 1) == Drop(ShiftedOnes(f))
  {
    if f == 0 {} else if f == 1 {} else if f == 2 {} else if f == 3 {} else if f == 4 {}
    else if f == 5 {} else if f == 6 {} else if f == 7 {} else {}
  }

  // ----- Guard keys

  const GUARD_KEY_MODULUS: bv32 := 6311
  const GUARD_KEY_REMAINDER: bv32 := 15

  predicate Residue(g: bv32) { g % GUARD_KEY_MODULUS == GUARD_KEY_REMAINDER }

  /** In each byte, twice the number of its odd bits. */
  function Sums(g: bv32): bv32 {
    var count := (g & 0x22222222) + ((g >> 2) & 0x22222222);
    count + (count >> 4)
  }

  function WithNext(g: bv32): bv32 { g & (g >> 1) }
  function WithSecond(g: bv32): bv32 { g & (g >> 2) }

  /** Where five ones begin. */
  function Runs(g: bv32): bv32 { WithNext(WithNext(WithSecond(g))) }

  predicate TwoInEachByte(g: bv32) { Sums(g) & 0x0e0e0e0e == 0x04040404 }
  predicate NoFiveOnes(g: bv32) { Runs(g) == 0 }

  /** check_guard_key. */
  predicate CheckGuardKey(key: Word) {
    Residue(key.bits) && TwoInEachByte(key.bits) && NoFiveOnes(key.bits) && NoFiveOnes(!key.bits)
  }

  /** A guard key that passes. */
  lemma SomeGuardKey()
    ensures CheckGuardKey(Word(0x0a1b8889))
  {}
}
