/** crypto/base58.c: b58tobin, on 32-bit words. */
module Base58Decode {
  import opened Options
  import opened Radix
  import opened Base58

  const WORD: nat := 0x1_0000_0000

  // ----- Words and bytes

  lemma DivDiv(w: nat, p: nat)
    requires p > 0
    ensures (w / 256) / p == w / (256 * p)
  {
    var q, r := w / (256 * p), w % (256 * p);
    DivMod(w, 256 * p);
    var x := r / 256;
    assert w == 256 * (q * p) + r by { assert q * (256 * p) == 256 * (q * p); }
    assert w / 256 == q * p + x;
    assert x < p;
    DivModOf(q, p, x);
  }

  /** The last n bytes of w, most significant first. */
  function BytesOf(w: nat, n: nat): (s: seq<nat>)
    ensures |s| == n && Digits(s, 256)
  {
    if n == 0 then [] else BytesOf(w / 256, n - 1) + [w % 256]
  }

  lemma {:induction false} BytesOfAt(w: nat, n: nat, i: nat)
    requires 0 < i <= n
    ensures BytesOf(w, n)[n - i] == w / Pow(256, i - 1) % 256
  {
    if i == 1 {
      assert Pow(256, 0) == 1;
    } else {
      BytesOfAt(w / 256, n - 1, i - 1);
      assert Pow(256, i - 1) == 256 * Pow(256, i - 2);
      hide Pow;
      DivDiv(w, Pow(256, i - 2));
    }
  }

  lemma {:induction false} ValueBytesOf(w: nat, n: nat)
    requires w < Pow(256, n)
    ensures Value(BytesOf(w, n), 256) == w
  {
    if n > 0 {
      var s := BytesOf(w, n);
      assert s[..n - 1] == BytesOf(w / 256, n - 1);
      assert Pow(256, n) == 256 * Pow(256, n - 1);
      hide Pow;
      ValueBytesOf(w / 256, n - 1);
    }
  }

  lemma {:induction false} WordPowers(k: nat)
    ensures Pow(WORD, k) == Pow(256, 4 * k)
  {
    PowersOf256();
    if k > 0 {
      WordPowers(k - 1);
      assert Pow(WORD, k) == WORD * Pow(WORD, k - 1);
      hide Pow;
      PowAdd(256, 4, 4 * k - 4);
    } else {
      assert Pow(WORD, 0) == 1;
    }
  }

  /** One word, most significant byte first. */
  method WriteWord(bin: array<nat>, pos: nat, w: nat, n: nat)
    requires pos + n <= bin.Length
    modifies bin
    ensures bin[pos..pos + n] == BytesOf(w, n)
    ensures forall k :: 0 <= k < bin.Length && !(pos <= k < pos + n) ==> bin[k] == old(bin[k])
  {
    hide Pow, BytesOf;
    var i := n;
    while i > 0
      invariant 0 <= i <= n
      invariant forall k :: 0 <= k < n - i ==> bin[pos + k] == BytesOf(w, n)[k]
      invariant forall k :: 0 <= k < bin.Length && !(pos <= k < pos + n) ==> bin[k] == old(bin[k])
    {
      BytesOfAt(w, n, i);
      bin[pos + (n - i)] := w / Pow(256, i - 1) % 256;
      i := i - 1;
    }
  }

  /** The layout of the words over binsz bytes: a short first word when 4 does not divide binsz. */
  ghost predicate Layout(binsz: nat, n: nat, left: nat) {
    binsz > 0 && n == (binsz + 3) / 4 && left == binsz % 4
  }

  /** The number fits in binsz bytes exactly when it fits in the words and the first word in its bytes. */
  lemma FitsExactly(s: seq<nat>, binsz: nat, left: nat)
    requires Layout(binsz, |s|, left) && Digits(s, WORD)
    ensures Value(s, WORD) < Pow(256, binsz) <==> left == 0 || s[0] / Pow(256, left) == 0
    ensures Pow(256, binsz) <= Pow(WORD, |s|)
  {
    hide Pow, Value;
    var n := |s|;
    WordPowers(n);
    PowMonotone(256, binsz, 4 * n);
    ValueBound(s, WORD);
    if left == 0 {
      assert binsz == 4 * n;
    } else {
      assert binsz == left + 4 * (n - 1);
      var t, p, q := s[1..], Pow(256, left), Pow(256, 4 * (n - 1));
      PowAdd(256, left, 4 * (n - 1));
      WordPowers(n - 1);
      assert s == [s[0]] + t;
      ValueConcat([s[0]], t, WORD);
      SingleDigit(s[0]);
      ValueBound(t, WORD);
      HighPart(s[0], p, q, Value(t, WORD));
    }
  }

  lemma SingleDigit(d: nat)
    ensures Value([d], WORD) == d
  {}

  lemma HighPart(d: nat, p: nat, q: nat, v: nat)
    requires p > 0 && v < q
    ensures d * q + v < p * q <==> d / p == 0
  {
    DivMod(d, p);
    if d / p == 0 {
      assert d < p;
      Gap(d, p, q);
    } else {
      AtLeast(d / p, p);
      assert d * q >= p * q;
    }
  }

  method WriteWords(bin: array<nat>, outi: seq<nat>, binsz: nat, left: nat)
    requires bin.Length == binsz && Layout(binsz, |outi|, left) && Digits(outi, WORD)
    requires Value(outi, WORD) < Pow(256, binsz)
    modifies bin
    ensures Digits(bin[..], 256) && Value(bin[..], 256) == Value(outi, WORD)
  {
    hide Pow, Value, BytesOf;
    PowersOf256();
    var j, pos := 0, 0;
    NoDigits(256);
    NoDigits(WORD);
    if left != 0 {
      WriteWord(bin, 0, outi[0], left);
      FirstWord(outi, binsz, left);
      j, pos := 1, left;
      SingleDigit(outi[0]);
      assert outi[..1] == [outi[0]];
    }
    assert bin[..0] == [] && outi[..0] == [];
    while j < |outi|
      invariant 0 <= j <= |outi| && pos == binsz - 4 * (|outi| - j)
      invariant Digits(bin[..pos], 256) && Value(bin[..pos], 256) == Value(outi[..j], WORD)
    {
      ghost var done := bin[..pos];
      WriteWord(bin, pos, outi[j], 4);
      assert bin[..pos + 4] == done + BytesOf(outi[j], 4);
      assert outi[..j + 1] == outi[..j] + [outi[j]];
      NextWord(done, outi[..j], outi[j]);
      j, pos := j + 1, pos + 4;
    }
    assert bin[..pos] == bin[..] && outi[..j] == outi;
  }

  lemma FirstWord(s: seq<nat>, binsz: nat, left: nat)
    requires Layout(binsz, |s|, left) && Digits(s, WORD) && left > 0 && Value(s, WORD) < Pow(256, binsz)
    ensures Value(BytesOf(s[0], left), 256) == s[0]
  {
    hide Pow, Value;
    FitsExactly(s, binsz, left);
    DivMod(s[0], Pow(256, left));
    ValueBytesOf(s[0], left);
  }

  lemma NextWord(done: seq<nat>, words: seq<nat>, w: nat)
    requires Value(done, 256) == Value(words, WORD) && w < WORD
    ensures Value(done + BytesOf(w, 4), 256) == Value(words + [w], WORD)
  {
    PowersOf256();
    assert (words + [w])[..|words|] == words;
    hide Pow;
    ValueConcat(done, BytesOf(w, 4), 256);
    ValueBytesOf(w, 4);
  }

  // ----- The decoding loop

  lemma WordCarry(x: nat, c: nat)
    requires x < WORD && c < 58
    ensures var t := x * 58 + c; t / WORD < 58 && t == WORD * (t / WORD) + t % WORD
  {}

  /** The inner loop: multiplies the words by 58 and adds a digit; returns what does not fit. */
  method AddDigit(outi: array<nat>, digit: nat) returns (c: nat)
    requires digit < 58 && Digits(outi[..], WORD)
    modifies outi
    ensures Digits(outi[..], WORD)
    ensures c == 0 <==> old(Value(outi[..], WORD)) * 58 + digit < Pow(WORD, outi.Length)
    ensures c == 0 ==> Value(outi[..], WORD) == old(Value(outi[..], WORD)) * 58 + digit
  {
    hide Value, Pow, Carrying;
    ghost var s, total := outi[..], Value(outi[..], WORD) * 58 + digit;
    c := digit;
    var j := outi.Length;
    CarryStart(WORD, 58, s, c);
    assert outi[j..] == [];
    while j > 0
      invariant 0 <= j <= outi.Length == |s| && c < 58
      invariant outi[..j] == s[..j]
      invariant Carrying(WORD, 58, s, j, c, outi[j..], total)
    {
      ghost var r := outi[j..];
      j := j - 1;
      var t := outi[j] * 58 + c;
      WordCarry(outi[j], c);
      CarryDigit(WORD, 58, s, j, c, r, total, t / WORD, t % WORD);
      c := t / WORD;
      outi[j] := t % WORD;
      assert outi[j..] == [outi[j]] + r;
    }
    CarryFull(WORD, 58, s, c, outi[..], total);
    assert outi[0..] == outi[..];
  }

  function DigitValue(t: string): nat
    requires AllDigits(t)
  {
    Value(Numbers(t), 58)
  }

  lemma NextDigit(t: string, i: nat)
    requires i < |t| && AllDigits(t[..i]) && CharDigit(t[i]) >= 0
    ensures AllDigits(t[..i + 1]) && DigitValue(t[..i + 1]) == DigitValue(t[..i]) * 58 + CharDigit(t[i])
  {
    var u := t[..i + 1];
    forall k | 0 <= k < |u| ensures CharDigit(u[k]) >= 0 {
      if k < i { assert u[k] == t[..i][k]; }
    }
    assert Numbers(u)[..i] == Numbers(t[..i]);
  }

  /** A longer string stands for no smaller a number. */
  lemma PrefixValue(t: string, i: nat)
    requires i <= |t| && AllDigits(t)
    ensures AllDigits(t[..i]) && DigitValue(t[..i]) <= DigitValue(t)
  {
    hide Pow, Value;
    var s := Numbers(t);
    assert forall k :: 0 <= k < i ==> CharDigit(t[..i][k]) == CharDigit(t[k]);
    assert Numbers(t[..i]) == s[..i] && s == s[..i] + s[i..];
    ValueConcat(s[..i], s[i..], 58);
    AtLeast(Pow(58, |s| - i), Value(s[..i], 58));
  }

  lemma {:induction false} ShortestLength(n: nat, k: nat)
    ensures |Shortest(n, 256)| <= k <==> n < Pow(256, k)
  {
    if n > 0 && k > 0 {
      DivSmaller(n, 256);
      ShortestLength(n / 256, k - 1);
      assert Pow(256, k) == 256 * Pow(256, k - 1);
    }
  }

  /** The string decodes to at most binsz bytes. */
  ghost predicate Decodable(t: string, binsz: nat) {
    Decode(t).Some? && |Decode(t).value| <= binsz
  }

  lemma TooLong(t: string, i: nat, binsz: nat)
    requires i <= |t| && AllDigits(t[..i]) && DigitValue(t[..i]) >= Pow(256, binsz)
    ensures !Decodable(t, binsz)
  {
    if AllDigits(t) {
      hide Pow, Value, Shortest;
      PrefixValue(t, i);
      ShortestLength(DigitValue(t), binsz);
    }
  }

  lemma BadDigit(t: string, i: nat)
    requires i < |t| && CharDigit(t[i]) < 0
    ensures Decode(t) == None
  {
    hide Value, Shortest;
  }

  /** The loop over the digits after the leading ones. */
  method Accumulate(outi: array<nat>, b58: string, zerocount: nat, binsz: nat, left: nat) returns (ok: bool)
    requires Layout(binsz, outi.Length, left) && Digits(outi[..], WORD) && Value(outi[..], WORD) == 0
    requires zerocount <= |b58| && forall k :: 0 <= k < zerocount ==> b58[k] == '1'
    modifies outi
    ensures !ok ==> !Decodable(b58, binsz)
    ensures ok ==> AllDigits(b58) && Digits(outi[..], WORD) && Value(outi[..], WORD) == DigitValue(b58) < Pow(256, binsz)
  {
    hide Value, Pow, DigitValue, Decodable, CharDigit, AllDigits;
    LeadingOnes(b58, zerocount);
    NoDigits(WORD);
    for i := zerocount to |b58|
      invariant AllDigits(b58[..i])
      invariant Digits(outi[..], WORD) && Value(outi[..], WORD) == DigitValue(b58[..i]) < Pow(256, binsz)
    {
      if CharDigit(b58[i]) == -1 {
        BadDigit(b58, i);
        NotDecodable(b58, binsz);
        return false;
      }
      NextDigit(b58, i);
      var c := AddDigit(outi, CharDigit(b58[i]));
      FitsExactly(outi[..], binsz, left);
      if c != 0 {
        TooLong(b58, i + 1, binsz);
        return false;
      }
      if left != 0 && outi[0] / Pow(256, left) != 0 {
        TooLong(b58, i + 1, binsz);
        return false;
      }
    }
    assert b58[..|b58|] == b58;
    return true;
  }

  lemma NotDecodable(t: string, binsz: nat)
    requires Decode(t) == None
    ensures !Decodable(t, binsz)
  {
    hide Decode;
  }

  lemma LeadingOnes(t: string, z: nat)
    requires z <= |t| && forall k :: 0 <= k < z ==> t[k] == '1'
    ensures AllDigits(t[..z]) && DigitValue(t[..z]) == 0
  {
    ValueZeros(Numbers(t[..z]), 58);
  }

  /** The buffer of value n and the count of leading ones give the decoded string, when it fits. */
  lemma DecodedForm(t: string, z: nat, bin: seq<nat>)
    requires AllDigits(t) && Digits(bin, 256) && Value(bin, 256) == DigitValue(t)
    requires z <= |t| && (forall k :: 0 <= k < z ==> t[k] == '1') && (z < |t| ==> t[z] != '1')
    ensures Decode(t).Some? && |Decode(t).value| == |bin| - LeadingZeros(bin) + z
    ensures z <= LeadingZeros(bin) ==> bin[LeadingZeros(bin) - z..] == Decode(t).value
  {
    hide Value, Shortest, Pow, DigitValue, Decode, AllDigits, CharDigit;
    DecodeIs(t, z);
    StrippedIsShortest(bin, 256);
    if z <= LeadingZeros(bin) { TailOfZeros(bin, z); }
  }

  lemma DecodeIs(t: string, z: nat)
    requires AllDigits(t) && z <= |t| && (forall k :: 0 <= k < z ==> t[k] == '1') && (z < |t| ==> t[z] != '1')
    ensures Decode(t) == Some(Zeros(z) + Shortest(DigitValue(t), 256))
  {
    hide Value, Shortest, CharDigit;
    OnesAreZeros(t, z);
  }

  lemma TailOfZeros(bin: seq<nat>, z: nat)
    requires z <= LeadingZeros(bin)
    ensures var k := LeadingZeros(bin); bin[k - z..] == Zeros(z) + bin[k..]
  {
    hide LeadingZeros;
    var k := LeadingZeros(bin);
    assert bin[k - z..] == bin[k - z..k] + bin[k..];
    assert bin[k - z..k] == Zeros(z);
  }

  lemma OnesAreZeros(t: string, z: nat)
    requires AllDigits(t) && z <= |t| && (forall k :: 0 <= k < z ==> t[k] == '1') && (z < |t| ==> t[z] != '1')
    ensures LeadingZeros(Numbers(t)) == z
  {
    var s := Numbers(t);
    if z < |t| { AlphabetBijection(0, t[z]); }
    assert s == Zeros(z) + s[z..];
    ZerosThenNonzero(z, s[z..]);
  }

  /**
    * b58tobin succeeds exactly when the buffer is not empty and the string decodes to no more
    * bytes than it has; the decoded bytes are then the last ones of the buffer.
    */
  method B58ToBin(bin: array<nat>, b58: string) returns (ok: bool, binsz: nat)
    modifies bin
    ensures ok <==> bin.Length > 0 && Decodable(b58, bin.Length)
    ensures ok ==> binsz == |Decode(b58).value| <= bin.Length && bin[bin.Length - binsz..] == Decode(b58).value
  {
    binsz := bin.Length;
    if binsz == 0 { return false, 0; }
    hide Value, Pow, Decode, DigitValue, AllDigits;
    var outisz, left := (binsz + 3) / 4, binsz % 4;
    var outi := new nat[outisz](_ => 0);
    ValueZeros(outi[..], WORD);
    var zerocount := 0;
    while zerocount < |b58| && b58[zerocount] == '1'
      invariant zerocount <= |b58| && forall k :: 0 <= k < zerocount ==> b58[k] == '1'
    {
      zerocount := zerocount + 1;
    }
    ok := Accumulate(outi, b58, zerocount, binsz, left);
    if !ok { return; }
    WriteWords(bin, outi[..], binsz, left);
    var i := CountZeros(bin[..]);
    DecodedForm(b58, zerocount, bin[..]);
    if zerocount > i { return false, binsz; }
    binsz := binsz - i + zerocount;
  }

  // ----- Both directions together

  /** Encoding and decoding on the buffers: every byte string comes back, in any buffer that holds it. */
  method RoundTrip(d: seq<nat>, out: array<nat>) returns (ok: bool, n: nat)
    requires Digits(d, 256) && |d| <= out.Length && out.Length > 0
    modifies out
    ensures ok && n == |d| && out[out.Length - n..] == d
  {
    hide Decode, Encode;
    DecodeEncode(d);
    var b58 := new char[BufferSize(|d|) + |d| + 1](_ => ' ');
    var sz: nat;
    EncodedLength(d);
    ok, sz := B58Enc(b58, b58.Length, d);
    assert b58[..sz - 1] == Encode(d);
    ok, n := B58ToBin(out, b58[..sz - 1]);
  }

  /** The encoding is never longer than the zeros and the buffer of the other bytes. */
  lemma EncodedLength(d: seq<nat>)
    requires Digits(d, 256)
    ensures |Encode(d)| <= |d| + BufferSize(|d|)
  {
    hide Pow, Value, Shortest;
    BufferIsLargeEnough(|d|);
    ValueBound(d, 256);
    ShortestLength58(Value(d, 256), BufferSize(|d|));
  }

  lemma {:induction false} ShortestLength58(n: nat, k: nat)
    requires n < Pow(58, k)
    ensures |Shortest(n, 58)| <= k
  {
    if n > 0 && k > 0 {
      DivSmaller(n, 58);
      assert Pow(58, k) == 58 * Pow(58, k - 1);
      ShortestLength58(n / 58, k - 1);
    }
  }
}
