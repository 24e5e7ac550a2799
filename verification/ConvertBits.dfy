/** convert_bits of crypto/segwit_addr.c: regrouping a string of bits into groups of another width. */
module ConvertBits {
  import opened Radix

  const UINT32: nat := 0x1_0000_0000

  /** 2^n. */
  function Two(n: nat): (p: nat)
    ensures p > 0
  {
    Pow(2, n)
  }

  lemma TwoAdd(m: nat, n: nat)
    ensures Two(m + n) == Two(m) * Two(n)
  {
    PowAdd(2, m, n);
  }

  lemma Two32() ensures Two(32) == UINT32 {
    assert Pow(2, 8) == 256;
    PowAdd(2, 8, 8);
    PowAdd(2, 16, 16);
  }

  /** The low bits of a number that was reduced modulo a larger power. */
  lemma LowBits(x: nat, m: nat, n: nat)
    requires m <= n
    ensures (x % Two(n)) % Two(m) == x % Two(m)
  {
    TwoAdd(n - m, m);
    hide Pow, Two;
    DivMod(x, Two(n));
    LowOf(x, x / Two(n), x % Two(n), Two(n - m), Two(m), Two(n));
  }

  lemma LowOf(x: nat, q: nat, r: nat, f: nat, a: nat, b: nat)
    requires a > 0 && b == f * a && x == q * b + r
    ensures r % a == x % a
  {
    DivMod(r, a);
    var k, c := q * f + r / a, r % a;
    assert q * b == (q * f) * a;
    assert k * a == (q * f) * a + (r / a) * a;
    DivModOf(k, a, c);
  }

  /** Splitting the low m + n bits. */
  lemma SplitBits(x: nat, m: nat, n: nat)
    ensures x % Two(m + n) == (x / Two(m) % Two(n)) * Two(m) + x % Two(m)
  {
    TwoAdd(n, m);
    hide Pow, Two;
    var a, b := Two(m), Two(n);
    DivMod(x, a);
    var q := x / a;
    DivMod(q, b);
    var y := (q % b) * a + x % a;
    assert x == (q / b) * (b * a) + y by {
      assert q * a == ((q / b) * b + q % b) * a;
      assert ((q / b) * b) * a == (q / b) * (b * a);
      assert ((q / b) * b + q % b) * a == ((q / b) * b) * a + (q % b) * a;
    }
    BoundStep(q % b, b, a, x % a);
    assert y < a * b;
    DivModOf(q / b, b * a, y);
  }

  /** What the loops keep: the input so far is the output followed by the low `bits` bits of val. */
  ghost predicate Regrouped(input: seq<nat>, ib: nat, out: seq<nat>, ob: nat, val: nat, bits: nat) {
    && Digits(out, Two(ob)) && |out| * ob + bits == |input| * ib && val < UINT32
    && Value(input, Two(ib)) == Value(out, Two(ob)) * Two(bits) + val % Two(bits)
  }

  /** Taking in one group. */
  lemma TakeIn(input: seq<nat>, ib: nat, out: seq<nat>, ob: nat, val: nat, bits: nat, x: nat, val': nat)
    requires Regrouped(input, ib, out, ob, val, bits) && x < Two(ib) && bits + ib <= 32
    requires val' == (val * Two(ib) + x) % UINT32
    ensures Regrouped(input + [x], ib, out, ob, val', bits + ib)
  {
    Two32();
    TwoAdd(bits, ib);
    assert (input + [x])[..|input|] == input;
    LowBits(val * Two(ib) + x, bits + ib, 32);
    ShiftedLow(val, bits, ib, x);
    var i, o, c := Value(input, Two(ib)), Value(out, Two(ob)), val % Two(bits);
    assert Value(input + [x], Two(ib)) == i * Two(ib) + x;
    hide Pow, Two, Value;
    TakeInSum(i, o, Two(bits), c, Two(ib), x);
    assert (|input| + 1) * ib == |input| * ib + ib;
  }

  lemma TakeInSum(i: nat, o: nat, p: nat, c: nat, q: nat, x: nat)
    requires i == o * p + c
    ensures i * q + x == o * (p * q) + (c * q + x)
  {
    assert (o * p + c) * q == o * (p * q) + c * q;
  }

  lemma ShiftedLow(val: nat, bits: nat, ib: nat, x: nat)
    requires x < Two(ib)
    ensures (val * Two(ib) + x) % Two(bits + ib) == (val % Two(bits)) * Two(ib) + x
  {
    hide Pow, Two;
    var y := val * Two(ib) + x;
    SplitBits(y, ib, bits);
    DivModOf(val, Two(ib), x);
  }

  /** Putting out one group. */
  lemma PutOut(input: seq<nat>, ib: nat, out: seq<nat>, ob: nat, val: nat, bits: nat, d: nat)
    requires Regrouped(input, ib, out, ob, val, bits) && bits >= ob && d == val / Two(bits - ob) % Two(ob)
    ensures Regrouped(input, ib, out + [d], ob, val, bits - ob)
  {
    TwoAdd(ob, bits - ob);
    SplitBits(val, bits - ob, ob);
    assert (out + [d])[..|out|] == out;
    var o, p, r := Value(out, Two(ob)), Two(bits - ob), val % Two(bits - ob);
    assert Value(out + [d], Two(ob)) == o * Two(ob) + d;
    ModBelow(val / Two(bits - ob), Two(ob));
    hide Pow, Two, Value;
    TakeInSum(o * Two(ob) + d, o, Two(ob), d, p, r);
    assert (|out| + 1) * ob == |out| * ob + ob;
  }

  lemma ModBelow(x: nat, m: nat)
    requires m > 0
    ensures x % m < m
  {}

  // ----- The conversions between bytes and five-bit symbols

  lemma Widths()
    ensures Two(5) == 32 && Two(8) == 256
  {}

  /** The symbols are the bits of the bytes, filled up with zeros to a whole number of symbols. */
  ghost predicate Spread(bytes: seq<nat>, symbols: seq<nat>) {
    && Digits(bytes, 256) && Digits(symbols, 32)
    && |symbols| == (8 * |bytes| + 4) / 5
    && Value(symbols, 32) == Value(bytes, 256) * Two(5 * |symbols| - 8 * |bytes|)
  }

  /** Each side determines the other. */
  lemma SpreadUnique(b: seq<nat>, s: seq<nat>, c: seq<nat>, t: seq<nat>)
    requires Spread(b, s) && Spread(c, t)
    ensures b == c <==> s == t
  {
    hide Value, Pow, Two;
    if b == c {
      ValueInjective(s, t, 32);
    }
    if s == t {
      assert |b| == |c|;
      var p := Two(5 * |s| - 8 * |b|);
      if Value(b, 256) < Value(c, 256) { Gap(Value(b, 256), Value(c, 256), p); }
      if Value(c, 256) < Value(b, 256) { Gap(Value(c, 256), Value(b, 256), p); }
      ValueInjective(b, c, 256);
    }
  }

  lemma NoInput(ib: nat, ob: nat)
    ensures Regrouped([], ib, [], ob, 0, 0)
  {}

  /** The two loops, for any widths up to eight bits. */
  method Regroup(input: seq<nat>, ib: nat, ob: nat) returns (out: seq<nat>, val: nat, bits: nat)
    requires 0 < ib <= 8 && 0 < ob <= 8 && Digits(input, Two(ib))
    ensures bits < ob && Regrouped(input, ib, out, ob, val, bits)
  {
    hide Value, Pow, Two, Regrouped;
    out, val, bits := [], 0, 0;
    NoInput(ib, ob);
    for k := 0 to |input|
      invariant bits < ob && Regrouped(input[..k], ib, out, ob, val, bits)
    {
      ghost var before := val;
      val := (val * Two(ib) + input[k]) % UINT32;
      TakeIn(input[..k], ib, out, ob, before, bits, input[k], val);
      assert input[..k] + [input[k]] == input[..k + 1];
      bits := bits + ib;
      while bits >= ob
        invariant Regrouped(input[..k + 1], ib, out, ob, val, bits)
        decreases bits
      {
        PutOut(input[..k + 1], ib, out, ob, val, bits, val / Two(bits - ob) % Two(ob));
        bits := bits - ob;
        out := out + [val / Two(bits) % Two(ob)];
      }
    }
    assert input[..|input|] == input;
  }

  /** convert_bits from eight to five bits, with padding. */
  method ToSymbols(bytes: seq<nat>) returns (symbols: seq<nat>)
    requires Digits(bytes, 256)
    ensures Spread(bytes, symbols)
  {
    hide Value, Pow, Two, Regrouped;
    Widths();
    var out, val, bits := Regroup(bytes, 8, 5);
    if bits == 0 {
      SpreadWhole(bytes, out, val);
      return out;
    } else {
      SpreadPadded(bytes, out, val, bits);
      return out + [val * Two(5 - bits) % Two(5)];
    }
  }

  lemma SpreadWhole(bytes: seq<nat>, out: seq<nat>, val: nat)
    requires Digits(bytes, 256) && Regrouped(bytes, 8, out, 5, val, 0)
    ensures Spread(bytes, out)
  {
    Widths();
    assert Two(0) == 1;
  }

  lemma SpreadPadded(bytes: seq<nat>, out: seq<nat>, val: nat, bits: nat)
    requires Digits(bytes, 256) && 0 < bits < 5 && Regrouped(bytes, 8, out, 5, val, bits)
    ensures Spread(bytes, out + [val * Two(5 - bits) % Two(5)])
  {
    Widths();
    TwoAdd(bits, 5 - bits);
    var c, p, d := val % Two(bits), Two(5 - bits), val * Two(5 - bits) % Two(5);
    ShiftedLow(val, bits, 5 - bits, 0);
    assert (out + [d])[..|out|] == out;
    var o, v := Value(out, 32), Value(bytes, 256);
    assert Value(out + [d], 32) == o * 32 + d;
    ModBelow(val * p, 32);
    hide Value, Pow, Two;
    TakeInSum(v, o, Two(bits), c, p, 0);
    assert 5 * |out + [d]| - 8 * |bytes| == 5 - bits;
  }

  /** convert_bits from five to eight bits, without padding: fails unless the symbols are the spread of some bytes. */
  method ToBytes(symbols: seq<nat>) returns (ok: bool, bytes: seq<nat>)
    requires Digits(symbols, 32)
    ensures ok ==> Spread(bytes, symbols)
    ensures !ok ==> forall b :: !Spread(b, symbols)
  {
    hide Value, Pow, Two, Regrouped, Spread;
    Widths();
    var out, val, bits := Regroup(symbols, 5, 8);
    ShiftedLow(val, bits, 8 - bits, 0);
    var left := val * Two(8 - bits) % Two(8);
    LeftOver(val, bits);
    if left != 0 || bits >= 5 {
      NotSpread(symbols, out, val, bits);
      return false, [];
    }
    JoinedSpread(symbols, out, val, bits);
    return true, out;
  }

  /** The shifted-out rest is zero exactly when the unused bits are. */
  lemma LeftOver(val: nat, bits: nat)
    requires bits < 8
    ensures val * Two(8 - bits) % Two(8) == 0 <==> val % Two(bits) == 0
  {
    hide Pow, Two;
    ShiftedLow(val, bits, 8 - bits, 0);
    AtLeast(val % Two(bits), Two(8 - bits));
  }

  lemma JoinedSpread(symbols: seq<nat>, out: seq<nat>, val: nat, bits: nat)
    requires Digits(symbols, 32) && bits < 5 && Regrouped(symbols, 5, out, 8, val, bits) && val % Two(bits) == 0
    ensures Spread(out, symbols)
  {
    Widths();
    hide Value, Pow, Two;
  }

  lemma NotSpread(symbols: seq<nat>, out: seq<nat>, val: nat, bits: nat)
    requires Digits(symbols, 32) && bits < 8 && Regrouped(symbols, 5, out, 8, val, bits)
    requires bits >= 5 || val % Two(bits) != 0
    ensures forall b :: !Spread(b, symbols)
  {
    Widths();
    hide Value, Pow, Two;
    forall b ensures !Spread(b, symbols) {
      if Spread(b, symbols) {
        assert |b| == |out| && 5 * |symbols| - 8 * |b| == bits;
        ModBelow(val, Two(bits));
        SplitUnique(Value(b, 256), Value(out, 256), Two(bits), 0, val % Two(bits));
      }
    }
  }
}
