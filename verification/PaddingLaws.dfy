/** What the padding of SHA-256 and the keying of HMAC mean, in numbers and literals. */
module PaddingLaws {
  import opened Sha256
  import opened HmacSha256
  import opened OctetStrings
  import Radix

  /** The four octets of a word spell it. */
  lemma WordSpells(w: nat)
    requires w < 0x1_0000_0000
    ensures Word(w) == Octets(w, 4) && Number(Word(w)) == w
  {
    hide ToByte;
    var a := w / 256;
    var b := a / 256;
    assert w / 0x1_0000 == b && w / 0x100_0000 == b / 256 && b / 256 < 256;
    FourOctets(w);
    Pow4();
    NumberOfOctets(w, 4);
  }

  lemma Pow4()
    ensures Radix.Pow(256, 4) == 0x1_0000_0000
  {
    assert Radix.Pow(256, 1) == 256 && Radix.Pow(256, 2) == 0x1_0000 && Radix.Pow(256, 3) == 0x100_0000;
  }

  lemma FourOctets(w: nat)
    ensures Octets(w, 4) == [ToByte(w / 256 / 256 / 256 % 256), ToByte(w / 256 / 256 % 256), ToByte(w / 256 % 256), ToByte(w % 256)]
  {
    hide ToByte;
    assert Octets(w / 256 / 256 / 256, 1) == [ToByte(w / 256 / 256 / 256 % 256)];
    assert Octets(w / 256 / 256, 2) == [ToByte(w / 256 / 256 / 256 % 256), ToByte(w / 256 / 256 % 256)];
    assert Octets(w / 256, 3) == [ToByte(w / 256 / 256 / 256 % 256), ToByte(w / 256 / 256 % 256), ToByte(w / 256 % 256)];
  }

  /** The eight octets behind the padding spell the length in bits. */
  lemma LengthSpells(n: nat)
    requires 8 * n < 0x1_0000_0000_0000_0000
    ensures Number(LengthField(n)) == 8 * n
  {
    hide Word, Number;
    var hi, lo := 8 * n / TWO32, 8 * n % TWO32;
    WordSpells(hi);
    WordSpells(lo);
    NumberConcat(Word(hi), Word(lo));
    Pow4();
  }

  /**
    * Section 5.1.1 of FIPS 180-4: the message, the octet 0x80, zeros, and the length in bits in
    * eight octets, in the fewest blocks that hold them.
    */
  lemma PadMeans(m: Bytes)
    requires 8 * |m| < 0x1_0000_0000_0000_0000
    ensures var p := Pad(m);
            && |p| % 64 == 0 && |m| + 9 <= |p| < |m| + 9 + 64
            && p[..|m|] == m && p[|m|] == Byte(0x80)
            && (forall i :: |m| < i < |p| - 8 ==> p[i] == Byte(0))
            && Number(p[|p| - 8..]) == 8 * |m|
  {
    hide Number, LengthField;
    LengthSpells(|m|);
    var z := PadZeros(|m|);
    var p := m + [Byte(0x80)] + Zeros(z) + LengthField(|m|);
    PadLength(|m|);
    assert p == Pad(m) && |p| == |m| + 9 + z;
    assert p[|p| - 8..] == LengthField(|m|);
    forall i | |m| < i < |p| - 8 ensures p[i] == Byte(0) {
      assert p[i] == Zeros(z)[i - |m| - 1];
    }
  }

  /** The key block xor a pad octet: zeros stand behind a key shorter than a block. */
  function Keyed(key: Bytes, pad: bv8): (b: Bytes)
    requires |key| <= 64
    ensures |b| == 64
  {
    seq(64, i requires 0 <= i < 64 => Byte((if i < |key| then key[i].bits else 0) ^ pad))
  }

  lemma KeyedIs(key: Bytes, pad: bv8)
    requires |key| <= 64
    ensures XorAll(key + Zeros(64 - |key|), Byte(pad)) == Keyed(key, pad)
  {
    var k := key + Zeros(64 - |key|);
    forall i | 0 <= i < 64 ensures XorAll(k, Byte(pad))[i] == Keyed(key, pad)[i] {
      assert k[i] == if i < |key| then key[i] else Byte(0);
    }
  }

  /** Section 2 of RFC 2104: H(K xor opad, H(K xor ipad, text)), where a key longer than a block is hashed first. */
  lemma HmacMeans(h: Sha, key: Bytes, text: Bytes)
    requires ValidSha(h) && 8 * |key| < 0x1_0000_0000_0000_0000 && 8 * (64 + |text|) < 0x1_0000_0000_0000_0000
    ensures |key| > 64 ==> |Hash(h, key)| == 32
    ensures var k := if |key| > 64 then Hash(h, key) else key;
            && |Hash(h, Keyed(k, 0x36) + text)| == 32
            && Hmac(h, key, text) == Hash(h, Keyed(k, 0x5c) + Hash(h, Keyed(k, 0x36) + text))
  {
    hide Hash, XorAll, Keyed;
    if |key| > 64 { HashLength(h, key); }
    var k := if |key| > 64 then Hash(h, key) else key;
    KeyedIs(k, 0x36);
    KeyedIs(k, 0x5c);
    HashLength(h, Keyed(k, 0x36) + text);
  }
}
