/** Eight-bit words and the numbers they stand for. */
module ByteValues {
  function Number(b: bv8): (n: nat)
    ensures n < 256
  {
    b as int
  }

  function Push(b: bv8, odd: bool): bv8 { (b << 1) | (if odd then 1 else 0) }

  /** The byte of a number, bit by bit. */
  function Bits(n: nat): bv8
    requires n < 256
  {
    if n == 0 then 0 else Push(Bits(n / 2), n % 2 == 1)
  }

  function One(b: bool): nat { if b then 1 else 0 }

  lemma PushNumber(b: bv8, odd: bool)
    ensures Number(b) < 128 ==> Number(Push(b, odd)) == 2 * Number(b) + One(odd)
    ensures Number(0) == 0
  {}

  lemma {:induction false} BitsNumber(n: nat)
    requires n < 256
    ensures Number(Bits(n)) == n
  {
    hide Number, Push;
    PushNumber(Bits(n / 2), n % 2 == 1);
    if n > 0 { BitsNumber(n / 2); }
  }

  lemma SameNumber(a: bv8, b: bv8)
    ensures Number(a) == Number(b) <==> a == b
  {}

  lemma NumberBits(b: bv8)
    ensures Bits(Number(b)) == b
  {
    hide Number, Bits;
    BitsNumber(Number(b));
    SameNumber(Bits(Number(b)), b);
  }

  /** Converting a number to eight bits and back. */
  lemma ConversionRoundTrip(n: nat)
    requires n < 256
    ensures n as bv8 == Bits(n) && (n as bv8) as int == n
  {
    hide Bits;
    BitsNumber(n);
    BackAgain(Bits(n), n);
  }

  lemma BackAgain(b: bv8, n: nat)
    requires n < 256 && Number(b) == n
    ensures n as bv8 == b && (n as bv8) as int == n
  {
    assert (b as int) as bv8 == b;
  }
}
