/** crypto/base58.c: Base58 encoding and decoding of byte strings. */
module Base58 {
  import opened Options
  import opened Radix

  // ----- The alphabet, by its runs: 1-9, A-H, J-N, P-Z, a-k, m-z

  /** b58digits_ordered. */
  function DigitChar(d: nat): (c: char)
    requires d < 58
  {
    if d < 9 then '1' + d as char
    else if d < 17 then 'A' + (d - 9) as char
    else if d < 22 then 'J' + (d - 17) as char
    else if d < 33 then 'P' + (d - 22) as char
    else if d < 44 then 'a' + (d - 33) as char
    else 'm' + (d - 44) as char
  }

  /** b58digits_map; -1 outside the alphabet, and for characters with the high bit set. */
  function CharDigit(c: char): (d: int)
    ensures -1 <= d < 58
  {
    if '1' <= c <= '9' then c as int - '1' as int
    else if 'A' <= c <= 'H' then 9 + (c as int - 'A' as int)
    else if 'J' <= c <= 'N' then 17 + (c as int - 'J' as int)
    else if 'P' <= c <= 'Z' then 22 + (c as int - 'P' as int)
    else if 'a' <= c <= 'k' then 33 + (c as int - 'a' as int)
    else if 'm' <= c <= 'z' then 44 + (c as int - 'm' as int)
    else -1
  }

  lemma AlphabetBijection(d: nat, c: char)
    ensures d < 58 ==> CharDigit(DigitChar(d)) == d
    ensures CharDigit(c) >= 0 ==> DigitChar(CharDigit(c)) == c
    ensures CharDigit(c) == 0 <==> c == '1'
  {}

  const ALPHABET: string := "123456789" + "ABCDEFGH" + "JKLMN" + "PQRSTUVWXYZ" + "abcdefghijk" + "mnopqrstuvwxyz"

  /** b58digits_ordered, as a string. */
  lemma AlphabetIs(d: nat)
    requires d < 58
    ensures |ALPHABET| == 58 && DigitChar(d) == ALPHABET[d]
  {
    if d < 9 { Digits1(d); } else if d < 17 { LettersA(d - 9); } else if d < 22 { LettersJ(d - 17); }
    else if d < 33 { LettersP(d - 22); } else if d < 44 { LettersSmallA(d - 33); } else { LettersSmallM(d - 44); }
  }

  lemma Digits1(i: nat) requires i < 9 ensures "123456789"[i] == '1' + i as char {}
  lemma LettersA(i: nat) requires i < 8 ensures "ABCDEFGH"[i] == 'A' + i as char {}
  lemma LettersJ(i: nat) requires i < 5 ensures "JKLMN"[i] == 'J' + i as char {}
  lemma LettersP(i: nat) requires i < 11 ensures "PQRSTUVWXYZ"[i] == 'P' + i as char {}
  lemma LettersSmallA(i: nat) requires i < 11 ensures "abcdefghijk"[i] == 'a' + i as char {}
  lemma LettersSmallM(i: nat) requires i < 14 ensures "mnopqrstuvwxyz"[i] == 'm' + i as char {}

  // ----- What the two functions compute

  function Chars(s: seq<nat>): (t: string)
    requires Digits(s, 58)
    ensures |t| == |s| && forall i :: 0 <= i < |s| ==> t[i] == DigitChar(s[i])
  {
    seq(|s|, i requires 0 <= i < |s| => DigitChar(s[i]))
  }

  predicate AllDigits(t: string) {
    forall i :: 0 <= i < |t| ==> CharDigit(t[i]) >= 0
  }

  function Numbers(t: string): (s: seq<nat>)
    requires AllDigits(t)
    ensures |s| == |t| && Digits(s, 58) && forall i :: 0 <= i < |t| ==> s[i] == CharDigit(t[i])
  {
    seq(|t|, i requires 0 <= i < |t| => CharDigit(t[i]))
  }

  /** One '1' for each leading zero byte, then the number in base 58. */
  function Encode(d: seq<nat>): string
    requires Digits(d, 256)
  {
    Chars(Zeros(LeadingZeros(d)) + Shortest(Value(d, 256), 58))
  }

  /** The byte string that t stands for, if t is Base58. */
  function Decode(t: string): Option<seq<nat>> {
    if AllDigits(t) then
      var s := Numbers(t);
      Some(Zeros(LeadingZeros(s)) + Shortest(Value(s, 58), 256))
    else None
  }

  /** Changing the base of a digit string, leading zeros kept, and changing it back is the identity. */
  lemma ChangeOfBase(s: seq<nat>, b: nat, c: nat)
    requires b > 1 && c > 1 && Digits(s, b)
    ensures var t := Zeros(LeadingZeros(s)) + Shortest(Value(s, b), c);
            Digits(t, c) && Zeros(LeadingZeros(t)) + Shortest(Value(t, c), b) == s
  {
    hide Value, Shortest, LeadingZeros;
    var z, n := LeadingZeros(s), Value(s, b);
    var u := Shortest(n, c);
    var t := Zeros(z) + u;
    ZerosThenNonzero(z, u);
    ValueConcat(Zeros(z), u, c);
    ValueZeros(Zeros(z), c);
    ValueShortest(n, c);
    StrippedIsShortest(s, b);
    assert s == s[..z] + s[z..];
    assert s[..z] == Zeros(z);
  }

  lemma {:induction false} ZerosThenNonzero(z: nat, u: seq<nat>)
    requires u != [] ==> u[0] != 0
    ensures LeadingZeros(Zeros(z) + u) == z
  {
    if z == 0 {
      assert Zeros(0) + u == u;
    } else {
      assert (Zeros(z) + u)[1..] == Zeros(z - 1) + u;
      ZerosThenNonzero(z - 1, u);
    }
  }

  lemma CharsOfNumbers(t: string)
    requires AllDigits(t)
    ensures Chars(Numbers(t)) == t
  {
    forall i | 0 <= i < |t| ensures Chars(Numbers(t))[i] == t[i] { AlphabetBijection(0, t[i]); }
  }

  lemma NumbersOfChars(s: seq<nat>)
    requires Digits(s, 58)
    ensures AllDigits(Chars(s)) && Numbers(Chars(s)) == s
  {
    var t := Chars(s);
    forall i | 0 <= i < |s| ensures CharDigit(t[i]) == s[i] { AlphabetBijection(s[i], '1'); }
  }

  /** Decoding inverts encoding, for every byte string. */
  lemma DecodeEncode(d: seq<nat>)
    requires Digits(d, 256)
    ensures Decode(Encode(d)) == Some(d)
  {
    hide Value, Shortest;
    ChangeOfBase(d, 256, 58);
    NumbersOfChars(Zeros(LeadingZeros(d)) + Shortest(Value(d, 256), 58));
  }

  /** Every string that decodes is the encoding of what it decodes to. */
  lemma EncodeDecode(t: string)
    requires Decode(t).Some?
    ensures Digits(Decode(t).value, 256) && Encode(Decode(t).value) == t
  {
    hide Value, Shortest;
    ChangeOfBase(Numbers(t), 58, 256);
    CharsOfNumbers(t);
  }

  // ----- The buffer of b58enc is large enough

  /** The number of base-58 digits reserved for m bytes. */
  function BufferSize(m: nat): (n: nat)
    ensures n > 0
  {
    m * 138 / 100 + 1
  }

  lemma PowStep(b: nat, n: nat)
    requires b > 0
    ensures Pow(b, 0) == 1 && Pow(b, n + 1) == b * Pow(b, n)
  {}

  lemma PowersOf58()
    ensures Pow(58, 1) == 58 && Pow(58, 2) == 3364 && Pow(58, 3) == 195112 && Pow(58, 5) == 656356768
    ensures Pow(58, 6) == 38068692544 && Pow(58, 7) == 2207984167552 && Pow(58, 9) == 7427658739644928
    ensures Pow(58, 10) == 430804206899405824 && Pow(58, 11) == 24986644000165537792
  {
    hide Pow;
    PowStep(58, 0); PowStep(58, 1); PowStep(58, 2); PowStep(58, 3); PowStep(58, 4); PowStep(58, 5);
    PowStep(58, 6); PowStep(58, 7); PowStep(58, 8); PowStep(58, 9); PowStep(58, 10);
  }

  lemma PowersOf256()
    ensures Pow(256, 0) == 1 && Pow(256, 1) == 256 && Pow(256, 2) == 65536 && Pow(256, 3) == 16777216 && Pow(256, 4) == 4294967296
    ensures Pow(256, 5) == 1099511627776 && Pow(256, 6) == 281474976710656 && Pow(256, 7) == 72057594037927936 && Pow(256, 8) == 18446744073709551616
  {
    hide Pow;
    PowStep(256, 0); PowStep(256, 1); PowStep(256, 2); PowStep(256, 3);
    PowStep(256, 4); PowStep(256, 5); PowStep(256, 6); PowStep(256, 7);
  }

  lemma {:induction false} BufferIsLargeEnough(m: nat)
    ensures Pow(256, m) <= Pow(58, BufferSize(m))
  {
    hide Pow;
    PowersOf58();
    PowersOf256();
    if m >= 8 {
      BufferIsLargeEnough(m - 8);
      PowAdd(256, 8, m - 8);
      PowAdd(58, 11, BufferSize(m - 8));
      ProductsOrdered(Pow(256, 8), Pow(58, 11), Pow(256, m - 8), Pow(58, BufferSize(m - 8)));
      PowMonotone(58, 11 + BufferSize(m - 8), BufferSize(m));
    }
  }

  lemma ProductsOrdered(a: nat, b: nat, c: nat, d: nat)
    requires a <= b && c <= d
    ensures a * c <= b * d
  {
    assert a * c <= b * c <= b * d;
  }

  /** Until the last byte, the first digit of the buffer stays free. */
  lemma FirstDigitFree(m: nat, i: nat)
    requires i < m
    ensures Pow(256, i) <= Pow(58, BufferSize(m) - 1)
  {
    hide Pow;
    BufferIsLargeEnough(m - 1);
    PowMonotone(256, i, m - 1);
    PowMonotone(58, BufferSize(m - 1), BufferSize(m) - 1);
  }

  // ----- b58enc

  lemma CarryRange(x: nat, carry: nat)
    requires x < 58 && carry < 256
    ensures (carry + 256 * x) / 58 < 256 && (carry + 256 * x) == 58 * ((carry + 256 * x) / 58) + (carry + 256 * x) % 58
  {}

  /**
    * The inner loop: multiplies the buffer by 256 and adds a byte, touching only the digits
    * above `high` and those the carry reaches.
    */
  method AddByte(buf: array<nat>, high: nat, b: nat) returns (j: nat)
    requires high < buf.Length && Digits(buf[..], 58) && b < 256
    requires forall t :: 0 <= t <= high ==> buf[t] == 0
    requires Value(buf[..], 58) * 256 + b < Pow(58, buf.Length)
    modifies buf
    ensures Digits(buf[..], 58) && Value(buf[..], 58) == old(Value(buf[..], 58)) * 256 + b
    ensures j < buf.Length && (forall t :: 0 <= t < j ==> buf[t] == 0) && (j > 0 ==> buf[j] == 0)
  {
    hide Value, Pow, Carrying;
    ghost var s, total := buf[..], Value(buf[..], 58) * 256 + b;
    var carry := b;
    j := buf.Length - 1;
    ghost var k := buf.Length;
    CarryStart(58, 256, s, carry);
    assert buf[k..] == [];
    while j > high || carry != 0
      invariant 0 <= j < buf.Length == |s| && k == j + 1 && carry < 256
      invariant buf[..k] == s[..k]
      invariant Carrying(58, 256, s, k, carry, buf[k..], total)
      decreases j
    {
      ghost var r := buf[k..];
      carry := carry + 256 * buf[j];
      CarryRange(buf[j], carry - 256 * buf[j]);
      CarryDigit(58, 256, s, j, carry - 256 * s[j], r, total, carry / 58, carry % 58);
      buf[j] := carry % 58;
      carry := carry / 58;
      k := j;
      assert buf[k..] == [buf[j]] + r;
      if j == 0 { break; }
      j := j - 1;
    }
    assert buf[..] == buf[..k] + buf[k..];
    if k == 0 {
      CarryFull(58, 256, s, carry, buf[..], total);
      assert buf[0..] == buf[..];
    } else {
      CarryDone(58, 256, s, k, buf[k..], total, buf[..]);
    }
  }

  method CountZeros(s: seq<nat>) returns (z: nat)
    ensures z == LeadingZeros(s)
  {
    z := 0;
    assert s[0..] == s;
    while z < |s| && s[z] == 0
      invariant z <= |s| && LeadingZeros(s) == z + LeadingZeros(s[z..])
    {
      assert s[z..][1..] == s[z + 1..];
      z := z + 1;
    }
  }

  /** Writes '1' for each leading zero, the digits from j on, and the terminator. */
  method WriteDigits(b58: array<char>, zcount: nat, s: seq<nat>, j0: nat)
    requires Digits(s, 58) && j0 <= |s| && zcount + (|s| - j0) < b58.Length
    modifies b58
    ensures var n := zcount + (|s| - j0);
            b58[..n + 1] == Chars(Zeros(zcount) + s[j0..]) + ['\0']
            && forall k :: n < k < b58.Length ==> b58[k] == old(b58[k])
  {
    ghost var n, u := zcount + (|s| - j0), Zeros(zcount) + s[j0..];
    ghost var e := Chars(u);
    assert DigitChar(0) == '1';
    hide DigitChar;
    var i, j := 0, j0;
    while i < zcount
      invariant 0 <= i <= zcount
      invariant forall k :: 0 <= k < i ==> b58[k] == e[k]
      invariant forall k :: n < k < b58.Length ==> b58[k] == old(b58[k])
    {
      b58[i] := '1';
      i := i + 1;
    }
    while j < |s|
      invariant j0 <= j <= |s| && i == zcount + (j - j0)
      invariant forall k :: 0 <= k < i ==> b58[k] == e[k]
      invariant forall k :: n < k < b58.Length ==> b58[k] == old(b58[k])
    {
      b58[i] := DigitChar(s[j]);
      assert u[i] == s[j];
      i := i + 1;
      j := j + 1;
    }
    b58[i] := '\0';
  }

  /**
    * b58enc writes the encoding and a terminator, and reports the size; it fails, reporting
    * the size it needs, exactly when the output does not fit.
    */
  method B58Enc(b58: array<char>, b58sz: nat, bin: seq<nat>) returns (ok: bool, newsz: nat)
    requires b58sz <= b58.Length && Digits(bin, 256)
    modifies b58
    ensures newsz == |Encode(bin)| + 1
    ensures ok <==> newsz <= b58sz
    ensures ok ==> b58[..newsz] == Encode(bin) + ['\0']
    ensures ok ==> forall i :: newsz <= i < b58.Length ==> b58[i] == old(b58[i])
    ensures !ok ==> b58[..] == old(b58[..])
  {
    hide Value, Pow, Shortest, DigitChar, Encode;
    var zcount := CountZeros(bin);
    var buf := Convert(bin, zcount);
    var j := CountZeros(buf[..]);
    var size := buf.Length;
    EncodedForm(bin, buf[..]);
    if b58sz <= zcount + size - j {
      return false, zcount + size - j + 1;
    }
    WriteDigits(b58, zcount, buf[..], j);
    return true, zcount + size - j + 1;
  }

  /** The outer loop: the bytes after the leading zeros, in base 58. */
  method Convert(bin: seq<nat>, zcount: nat) returns (buf: array<nat>)
    requires Digits(bin, 256) && zcount <= |bin|
    ensures fresh(buf) && Digits(buf[..], 58)
    ensures Value(buf[..], 58) == Value(bin[zcount..], 256)
  {
    hide Value, Pow, BufferSize;
    ghost var m := |bin| - zcount;
    var size := BufferSize(|bin| - zcount);
    buf := new nat[size](_ => 0);
    ValueZeros(buf[..], 58);
    assert bin[zcount..zcount] == [];
    NoDigits(256);
    var high := size - 1;
    for i := zcount to |bin|
      invariant high < size && Digits(buf[..], 58)
      invariant Value(buf[..], 58) == Value(bin[zcount..i], 256)
      invariant i < |bin| ==> forall t :: 0 <= t <= high ==> buf[t] == 0
    {
      ghost var d := bin[zcount..i];
      AppendByte(d, bin[i]);
      assert bin[zcount..i + 1] == d + [bin[i]];
      ValueBound(d + [bin[i]], 256);
      BufferIsLargeEnough(m);
      PowMonotone(256, i + 1 - zcount, m);
      high := AddByte(buf, high, bin[i]);
      if i + 1 < |bin| {
        FirstDigitFree(m, i + 1 - zcount);
        FirstDigit(buf[..], 58);
      }
    }
    assert bin[zcount..|bin|] == bin[zcount..];
  }

  lemma NoDigits(b: nat) ensures Value([], b) == 0 {}

  lemma AppendByte(d: seq<nat>, b: nat)
    ensures Value(d + [b], 256) == Value(d, 256) * 256 + b
  {
    assert (d + [b])[..|d|] == d;
  }

  /** Leading zeros and converted digits make up the encoding. */
  lemma EncodedForm(bin: seq<nat>, s: seq<nat>)
    requires Digits(bin, 256) && Digits(s, 58) && Value(s, 58) == Value(bin[LeadingZeros(bin)..], 256)
    ensures Encode(bin) == Chars(Zeros(LeadingZeros(bin)) + s[LeadingZeros(s)..])
  {
    hide Value, Shortest, Chars, LeadingZeros;
    var z := LeadingZeros(bin);
    StrippedIsShortest(s, 58);
    assert bin == bin[..z] + bin[z..];
    ValueConcat(bin[..z], bin[z..], 256);
    ValueZeros(bin[..z], 256);
  }
}
