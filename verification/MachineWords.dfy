/** 32-bit words and their bits. */
module MachineWords {
  /** A machine word; boxed, so that proofs can leave its bits alone. */
  datatype Word = Word(bits: bv32)

  predicate Bit(w: Word, i: nat)
    requires i < 32
  {
    (w.bits >> i) & 1 == 1
  }

  function Xor(a: Word, b: Word): Word { Word(a.bits ^ b.bits) }
  function And(a: Word, b: Word): Word { Word(a.bits & b.bits) }
  function Or(a: Word, b: Word): Word { Word(a.bits | b.bits) }

  /** The word c << i for a bit c. */
  function Put(c: bv32, i: nat): Word
    requires i < 32
  {
    Word(c << i)
  }

  /** The bit (w >> i) & 1. */
  function Get(w: Word, i: nat): bv32
    requires i < 32
  {
    (w.bits >> i) & 1
  }

  /** Bit k as a word, with the shift amount in its own bit-vector type. */
  function At(w: bv32, k: bv6): bv32
    requires k < 32
  {
    (w >> k) & 1
  }

  lemma AtRange(w: bv32, k: bv6)
    requires k < 32
    ensures At(w, k) == 0 || At(w, k) == 1
  {}

  lemma XorAt(a: bv32, b: bv32, k: bv6)
    requires k < 32
    ensures At(a ^ b, k) == At(a, k) ^ At(b, k)
  {}

  lemma AndAt(a: bv32, b: bv32, k: bv6)
    requires k < 32
    ensures At(a & b, k) == At(a, k) & At(b, k)
  {}

  lemma OrAt(a: bv32, b: bv32, k: bv6)
    requires k < 32
    ensures At(a | b, k) == At(a, k) | At(b, k)
  {}

  lemma BitIsAt(w: bv32, i: nat)
    requires i < 32
    ensures i as bv6 < 32 && Bit(Word(w), i) == (At(w, i as bv6) == 1)
    ensures At(w, i as bv6) == 0 || At(w, i as bv6) == 1
  {
    AtRange(w, i as bv6);
  }

  lemma PutBv(c: bv32, i: bv6, k: bv6)
    requires i < 32 && k < 32 && c <= 1
    ensures ((c << i) >> k) & 1 == (if i == k then c else 0)
  {}

  lemma BitIndex(i: nat, j: nat)
    requires i < j < 32
    ensures i as bv6 != j as bv6
  {}

  lemma XorBits(a: bv32, b: bv32, i: nat)
    requires i < 32
    ensures Bit(Word(a ^ b), i) == (Bit(Word(a), i) != Bit(Word(b), i))
  {
    hide Bit, At;
    BitIsAt(a, i);
    BitIsAt(b, i);
    BitIsAt(a ^ b, i);
    XorAt(a, b, i as bv6);
  }

  lemma XorUnboxed(x: bv32, y: bv32)
    ensures Xor(Word(x), Word(y)) == Word(x ^ y)
  {}

  lemma XorBit(a: Word, b: Word, i: nat)
    requires i < 32
    ensures Bit(Xor(a, b), i) == (Bit(a, i) != Bit(b, i))
  {
    hide Bit;
    var x, y := a.bits, b.bits;
    assert a == Word(x) && b == Word(y);
    XorUnboxed(x, y);
    hide Xor;
    XorBits(x, y, i);
  }

  lemma AndBits(a: bv32, b: bv32, i: nat)
    requires i < 32
    ensures Bit(Word(a & b), i) == (Bit(Word(a), i) && Bit(Word(b), i))
  {
    hide Bit, At;
    BitIsAt(a, i);
    BitIsAt(b, i);
    BitIsAt(a & b, i);
    AndAt(a, b, i as bv6);
  }

  lemma AndUnboxed(x: bv32, y: bv32)
    ensures And(Word(x), Word(y)) == Word(x & y)
  {}

  lemma AndBit(a: Word, b: Word, i: nat)
    requires i < 32
    ensures Bit(And(a, b), i) == (Bit(a, i) && Bit(b, i))
  {
    hide Bit;
    var x, y := a.bits, b.bits;
    assert a == Word(x) && b == Word(y);
    AndUnboxed(x, y);
    hide And;
    AndBits(x, y, i);
  }

  lemma OrBits(a: bv32, b: bv32, i: nat)
    requires i < 32
    ensures Bit(Word(a | b), i) == (Bit(Word(a), i) || Bit(Word(b), i))
  {
    hide Bit, At;
    BitIsAt(a, i);
    BitIsAt(b, i);
    BitIsAt(a | b, i);
    OrAt(a, b, i as bv6);
  }

  lemma OrUnboxed(x: bv32, y: bv32)
    ensures Or(Word(x), Word(y)) == Word(x | y)
  {}

  lemma OrBit(a: Word, b: Word, i: nat)
    requires i < 32
    ensures Bit(Or(a, b), i) == (Bit(a, i) || Bit(b, i))
  {
    hide Bit;
    var x, y := a.bits, b.bits;
    assert a == Word(x) && b == Word(y);
    OrUnboxed(x, y);
    hide Or;
    OrBits(x, y, i);
  }

  lemma PutBit(c: bv32, i: nat, j: nat)
    requires i < 32 && j < 32 && c <= 1
    ensures Bit(Put(c, i), j) == (i == j && c == 1)
  {
    if i < j { BitIndex(i, j); } else if j < i { BitIndex(j, i); }
    PutBv(c, i as bv6, j as bv6);
  }

  lemma BitConstant(i: nat)
    requires i < 32
    ensures !Bit(Word(0), i) && Bit(Word(0xFFFF_FFFF), i)
  {}

  lemma ZeroWord(w: Word)
    requires forall i: nat :: i < 32 ==> !Bit(w, i)
    ensures w == Word(0)
  {
    assert !Bit(w, 0) && !Bit(w, 1) && !Bit(w, 2) && !Bit(w, 3) && !Bit(w, 4) && !Bit(w, 5) && !Bit(w, 6) && !Bit(w, 7);
    assert !Bit(w, 8) && !Bit(w, 9) && !Bit(w, 10) && !Bit(w, 11) && !Bit(w, 12) && !Bit(w, 13) && !Bit(w, 14) && !Bit(w, 15);
    assert !Bit(w, 16) && !Bit(w, 17) && !Bit(w, 18) && !Bit(w, 19) && !Bit(w, 20) && !Bit(w, 21) && !Bit(w, 22) && !Bit(w, 23);
    assert !Bit(w, 24) && !Bit(w, 25) && !Bit(w, 26) && !Bit(w, 27) && !Bit(w, 28) && !Bit(w, 29) && !Bit(w, 30) && !Bit(w, 31);
  }

  lemma GetBit(w: Word, i: nat)
    requires i < 32
    ensures Get(w, i) == if Bit(w, i) then 1 else 0
  {
    BitIsAt(w.bits, i);
  }

  lemma NotAt(r: bv32, k: bv6)
    requires k < 32
    ensures At(!r, k) == 1 - At(r, k)
  {}

  lemma NotBits(r: bv32, i: nat)
    requires i < 32
    ensures Bit(Word(!r), i) == !Bit(Word(r), i)
  {
    hide Bit, At;
    BitIsAt(r, i);
    BitIsAt(!r, i);
    NotAt(r, i as bv6);
  }
}
