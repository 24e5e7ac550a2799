/** Octets and the numbers they spell, most significant first. */
module OctetStrings {
  import opened Sha256
  import ByteValues
  import Radix

  function Octet(b: Byte): nat { b.bits as int }

  lemma OctetRoundTrip(b: Byte)
    ensures Octet(b) < 256 && ToByte(Octet(b)) == b
  {}

  function Values(s: Bytes): (d: seq<nat>)
    ensures |d| == |s| && forall i :: 0 <= i < |s| ==> d[i] == Octet(s[i])
  {
    seq(|s|, i requires 0 <= i < |s| => Octet(s[i]))
  }

  /** bits2int: the number that the octets spell, most significant first. */
  function Number(s: Bytes): nat { Radix.Value(Values(s), 256) }

  /** int2octets. */
  function Octets(n: nat, len: nat): (s: Bytes)
    ensures |s| == len
  {
    if len == 0 then [] else Octets(n / 256, len - 1) + [ToByte(n % 256)]
  }

  const TWO256: nat := 0x1_0000_0000_0000_0000_0000_0000_0000_0000_0000_0000_0000_0000_0000_0000_0000_0000

  lemma NumberBound(s: Bytes)
    requires |s| == 32
    ensures Number(s) < TWO256
  {
    hide Octet, Radix.Value;
    forall i | 0 <= i < |s| ensures Octet(s[i]) < 256 { OctetRoundTrip(s[i]); }
    Radix.ValueBound(Values(s), 256);
    Pow32();
  }

  lemma Pow32()
    ensures Radix.Pow(256, 32) == TWO256
  {
    assert Radix.Pow(256, 4) == 0x1_0000_0000;
    Radix.PowAdd(256, 4, 4);
    Radix.PowAdd(256, 8, 8);
    Radix.PowAdd(256, 16, 16);
  }

  /** Writing the number out again gives the octets. */
  lemma {:induction false} OctetsOfNumber(s: Bytes)
    ensures Octets(Number(s), |s|) == s
  {
    hide Octet, ToByte;
    if s != [] {
      var n := |s| - 1;
      OctetRoundTrip(s[n]);
      assert Values(s)[..n] == Values(s[..n]);
      var v, d := Number(s[..n]), Octet(s[n]);
      assert Number(s) == v * 256 + d;
      assert (v * 256 + d) / 256 == v && (v * 256 + d) % 256 == d;
      OctetsOfNumber(s[..n]);
    }
  }

  lemma OctetOf(n: nat)
    requires n < 256
    ensures Octet(ToByte(n)) == n
  {
    ByteValues.ConversionRoundTrip(n);
  }

  lemma NumberConcat(a: Bytes, b: Bytes)
    ensures Number(a + b) == Number(a) * Radix.Pow(256, |b|) + Number(b)
  {
    hide Octet;
    assert Values(a + b) == Values(a) + Values(b);
    Radix.ValueConcat(Values(a), Values(b), 256);
  }

  lemma NumberOfOne(b: Byte)
    ensures Number([b]) == Octet(b)
  {
    hide Octet;
    var d := Values([b]);
    assert d[..0] == [] && Radix.Value(d[..0], 256) == 0;
    assert d[|d| - 1] == Octet(b);
  }

  /** Writing a number out and reading it back. */
  lemma {:induction false} NumberOfOctets(n: nat, len: nat)
    requires n < Radix.Pow(256, len)
    ensures Number(Octets(n, len)) == n
  {
    hide Octet, ToByte;
    if len > 0 {
      OctetOf(n % 256);
      assert n / 256 < Radix.Pow(256, len - 1);
      NumberOfOctets(n / 256, len - 1);
      hide Number;
      NumberConcat(Octets(n / 256, len - 1), [ToByte(n % 256)]);
      NumberOfOne(ToByte(n % 256));
      assert Radix.Pow(256, 0) == 1 && Radix.Pow(256, 1) == 256;
    } else {
      assert Octets(n, 0) == [] && Values([]) == [];
    }
  }
}
