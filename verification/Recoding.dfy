/**
  * The signed odd-digit recoding of crypto/ecdsa.c: a scalar made odd and offset by 2^256
  * is read off in windows of five bits, each giving an odd digit between -15 and 15.
  */
module Recoding {
  import opened Limbs
  import opened BignumBasic
  import opened Congruence

  const DIGITS: nat := 64

  /** a / 16^i. */
  function Shifted(a: nat, i: nat): (r: nat)
    decreases i
  {
    if i == 0 then a else Shifted(a, i - 1) / 16
  }

  /** The lowest bit set. */
  function Odd(x: int): (r: int)
    ensures r % 2 == 1 && x <= r <= x + 1
  {
    x + 1 - x % 2
  }

  /** The digit that a five-bit window stands for. */
  function WindowDigit(bits: nat): (d: int)
    requires bits < 32
    ensures d % 2 == 1 && -15 <= d <= 15
    ensures bits < 16 <==> d < 0
  {
    Odd(bits) - 16
  }

  /** Digit i of a. */
  function Digit(a: nat, i: nat): (d: int)
    ensures d % 2 == 1 && -15 <= d <= 15
  {
    WindowDigit(Shifted(a, i) % 32)
  }

  /** 16^i. */
  function Sixteen(i: nat): (p: int)
    ensures p >= 1
  {
    if i == 0 then 1 else 16 * Sixteen(i - 1)
  }

  /** Digits i..63 of a, weighted from 16^0. */
  function Upper(a: nat, i: nat): int
    requires i <= DIGITS
    decreases DIGITS - i
  {
    if i == DIGITS then 0 else 16 * Upper(a, i + 1) + Digit(a, i)
  }

  /** Digits 0..i-1 of a. */
  function Lower(a: nat, i: nat): int {
    if i == 0 then 0 else Lower(a, i - 1) + Digit(a, i - 1) * Sixteen(i - 1)
  }

  lemma DigitStep(x: nat)
    ensures Odd(x) == 16 * Odd(x / 16) + WindowDigit(x % 32)
  {
    var y, z := x / 32, x % 32;
    var h := if z < 16 then 0 else 1;
    assert x == 32 * y + z;
    QuotientIs(x, 16, 2 * y + h, z - 16 * h);
    QuotientIs(x / 16, 2, y, h);
    QuotientIs(x, 2, 16 * y + z / 2, z % 2);
  }

  lemma {:induction false} UpperIs(a: nat, i: nat)
    requires i <= DIGITS && Odd(Shifted(a, DIGITS)) == 1
    ensures Upper(a, i) == Odd(Shifted(a, i)) - Sixteen(DIGITS - i)
    decreases DIGITS - i
  {
    if i < DIGITS {
      UpperIs(a, i + 1);
      DigitStep(Shifted(a, i));
    }
  }

  lemma {:induction false} LowerIs(a: nat, i: nat)
    requires a % 2 == 1
    ensures Lower(a, i) == a - Odd(Shifted(a, i)) * Sixteen(i)
  {
    if i > 0 {
      LowerIs(a, i - 1);
      var x, p := Shifted(a, i - 1), Sixteen(i - 1);
      DigitStep(x);
      LowerStep(Odd(x), Odd(x / 16), WindowDigit(x % 32), p);
    }
  }

  lemma LowerStep(o: int, o': int, d: int, p: int)
    requires o == 16 * o' + d
    ensures o * p == o' * (16 * p) + d * p
  {
    assert (16 * o') * p == o' * (16 * p);
  }

  /** The digits of an odd number below 2^257 add up to the number less 2^256. */
  lemma DigitsSum(a: nat)
    requires a % 2 == 1 && Shifted(a, DIGITS) <= 1
    ensures Lower(a, DIGITS) == Upper(a, 0) == a - Sixteen(DIGITS)
  {
    hide Shifted, Upper, Lower, Sixteen;
    UpperIs(a, 0);
    LowerIs(a, DIGITS);
    ShiftedStart(a);
  }

  lemma ShiftedStart(a: nat)
    ensures Shifted(a, 0) == a && Sixteen(0) == 1
  {}

  lemma {:induction false} ShiftedIs(a: nat, i: nat)
    ensures Shifted(a, i) == a / Two(4 * i) && Sixteen(i) == Two(4 * i)
  {
    if i > 0 {
      ShiftedIs(a, i - 1);
      TwoAdd(4 * (i - 1), 4);
      assert Two(4) == 16;
      hide Two, Shifted;
      DivTwice(a, Two(4 * (i - 1)), 16);
      ShiftedStep(a, i);
    } else {
      assert Two(0) == 1;
    }
  }

  lemma ShiftedStep(a: nat, i: nat)
    requires i > 0
    ensures Shifted(a, i) == Shifted(a, i - 1) / 16
  {}

  lemma DivTwice(a: nat, p: int, q: int)
    requires p > 0 && q > 0
    ensures p * q > 0 && a / p / q == a / (p * q)
  {
    var x := a / p;
    var r, y, z := a % p, x / q, x % q;
    assert a == x * p + r && x == y * q + z;
    assert x * p == y * (p * q) + z * p by { assert (y * q + z) * p == y * (p * q) + z * p; }
    SmallRest(z, p, q, r);
    QuotientIs(a, p * q, y, z * p + r);
  }

  lemma SmallRest(z: int, p: int, q: int, r: int)
    requires 0 <= z < q && 0 <= r < p
    ensures p * q > 0 && 0 <= z * p + r < p * q
  {
    MulMono(z, q - 1, p);
    MulMono(0, z, p);
    Distrib(q, -1, p);
  }

  lemma QuotientIs(a: int, m: int, q: int, r: int)
    requires m > 0 && 0 <= r < m && a == q * m + r
    ensures a / m == q && a % m == r
  {
    var x, y := a / m, a % m;
    assert a == x * m + y;
    Distrib(x, -q, m);
    SmallMultiple(x - q, m, r - y);
  }

  // ----- Windows of limbs

  /** Shifting out sh bits of a limb x with the limbs u above it. */
  lemma WindowSplit(x: int, u: int, e: int, f: int)
    requires e > 0 && e * f == BASE && 0 <= x < BASE
    ensures (x + BASE * u) / e == x / e + f * u
  {
    var q, r := x / e, x % e;
    assert x == q * e + r;
    assert BASE * u == (f * u) * e by { assert (e * f) * u == (f * u) * e; }
    Distrib(q, f * u, e);
    QuotientIs(x + BASE * u, e, q + f * u, r);
  }

  lemma DropHigh(w: int, f: int, y: int, z: int)
    ensures (w + f * (y + BASE * z)) % 32 == (w + f * y) % 32
  {
    var m := f * z * 0x100_0000;
    assert f * (y + BASE * z) == f * y + 32 * m by {
      assert f * (BASE * z) == 32 * (f * z * 0x100_0000);
    }
    assert (w + f * y + 32 * m) % 32 == (w + f * y) % 32;
  }

  function LimbAt(s: seq<int>, i: nat): int { if i < |s| then s[i] else 0 }

  /** Dropping q limbs leaves limb q, limb q + 1 and the rest. */
  lemma HighLimbs(s: seq<int>, q: nat) returns (z: int)
    requires Norm(s) && q < 9
    ensures Val(s) / P(q) == s[q] + BASE * (LimbAt(s, q + 1) + BASE * z)
  {
    hide Val, P;
    var h := s[q..];
    var t := h[1..];
    ValSplit(s, q);
    ValBounds(s[..q]);
    FirstLimb(h);
    if q < 8 {
      FirstLimb(t);
      z := Val(t[1..]);
    } else {
      z := 0;
      NoLimbs(t);
    }
    var v := Val(h);
    assert v == s[q] + BASE * (LimbAt(s, q + 1) + BASE * z);
    QuotientIs(Val(s), P(q), v, Val(s[..q]));
  }

  lemma NoLimbs(s: seq<int>)
    requires s == []
    ensures Val(s) == 0
  {}

  /** The five bits of the number from bit 29 q + sh on, from limbs q and q + 1. */
  lemma WindowAt(s: seq<int>, q: nat, sh: nat)
    requires Norm(s) && q < 9 && sh < 29
    ensures (Val(s) / P(q) / Two(sh)) % 32 == (s[q] / Two(sh) + Two(29 - sh) * LimbAt(s, q + 1)) % 32
  {
    hide Val, P, Two, LimbAt;
    var e, f, y := Two(sh), Two(29 - sh), LimbAt(s, q + 1);
    TwoLiterals();
    TwoAdd(sh, 29 - sh);
    var z := HighLimbs(s, q);
    WindowSplit(s[q], y + BASE * z, e, f);
    DropHigh(s[q] / e, f, y, z);
  }

  // ----- Making the scalar odd

  /** The odd number that is recoded: k + 2^256, less the order when k is even. */
  function Offset(k: int, order: int): int { TWO256 + k - (if k % 2 == 0 then order else 0) }

  lemma OffsetRange(k: int, order: int)
    requires 0 <= k < order < TWO256 && order % 2 == 1
    ensures Offset(k, order) % 2 == 1 && 0 < Offset(k, order) < 2 * TWO256
  {}

  /** The first eight limbs are a carry chain; the last one takes what is left. */
  lemma OffsetLimbs(out: seq<int>, ts: seq<int>, ks: seq<int>, m: int, os: seq<int>)
    requires Norm(ks) && Norm(os) && |out| == |ts| == 9 && 0 <= m <= 1 && Terms(ts, 1, ks, m, os)
    requires forall j :: 0 <= j < 8 ==> out[j] == DigitAt(ts, 1, j)
    requires out[8] == CarryAt(ts, 1, 8) + 0xff_ffff + ks[8] - m * os[8]
    ensures Digits(out[..8]) && Val(out) == TWO256 + Val(ks) - m * Val(os)
  {
    hide Val, P, CarryAt, DigitAt, Terms;
    OffsetDigits(out, ts);
    OffsetParts(out, ts, ks, m, os);
    assert 0x100_0000 * P(8) == TWO256 by { PLiterals(); }
  }

  lemma OffsetParts(out: seq<int>, ts: seq<int>, ks: seq<int>, m: int, os: seq<int>)
    requires Norm(ks) && Norm(os) && |out| == |ts| == 9 && Terms(ts, 1, ks, m, os)
    requires forall j :: 0 <= j < 8 ==> out[j] == DigitAt(ts, 1, j)
    requires out[8] == CarryAt(ts, 1, 8) + 0xff_ffff + ks[8] - m * os[8]
    ensures Val(out) == 0x100_0000 * P(8) + Val(ks) - m * Val(os)
  {
    hide Val, P, CarryAt, DigitAt, Terms;
    LowLimbs(out, ts, ks, m, os);
    TopSplit(out); TopSplit(ks); TopSplit(os);
    OffsetSum(Val(out[..8]), Val(ks[..8]), Val(os[..8]), CarryAt(ts, 1, 8), ks[8], m, os[8], out[8], P(8),
              Val(out), Val(ks), Val(os));
  }

  lemma LowLimbs(out: seq<int>, ts: seq<int>, ks: seq<int>, m: int, os: seq<int>)
    requires |ks| == |os| == |out| == |ts| == 9 && Terms(ts, 1, ks, m, os)
    requires forall j :: 0 <= j < 8 ==> out[j] == DigitAt(ts, 1, j)
    ensures Val(out[..8]) + CarryAt(ts, 1, 8) * P(8) == P(8) + Val(ks[..8]) - m * Val(os[..8])
  {
    hide Val, P, CarryAt, DigitAt, Terms;
    ChainVal(out, ts, 1, 8);
    TermsVal(ts, 1, ks, m, os, 8);
  }

  lemma TopSplit(s: seq<int>)
    requires |s| == 9
    ensures Val(s) == Val(s[..8]) + s[8] * P(8)
  {
    hide Val, P;
    ValStep(s, 8);
    ValAll(s);
  }

  lemma OffsetSum(a: int, k: int, o: int, c: int, k8: int, m: int, o8: int, top: int, p: int, va: int, vk: int, vo: int)
    requires a + c * p == p + k - m * o
    requires top == c + 0xff_ffff + k8 - m * o8
    requires va == a + top * p && vk == k + k8 * p && vo == o + o8 * p
    ensures va == 0x100_0000 * p + vk - m * vo
  {
    OffsetTop(c, k8, m, o8, p);
    MulEq(p, top, c + 0xff_ffff + k8 - m * o8);
    Distrib(o, o8 * p, m);
    MulEq(m, vo, o + o8 * p);
  }

  lemma OffsetDigits(out: seq<int>, ts: seq<int>)
    requires |out| == 9 && |ts| >= 8 && forall j :: 0 <= j < 8 ==> out[j] == DigitAt(ts, 1, j)
    ensures Digits(out[..8])
  {}

  lemma OffsetTop(c: int, k: int, m: int, o: int, p: int)
    ensures (c + 0xff_ffff + k - m * o) * p == c * p + 0xff_ffff * p + k * p - m * (o * p)
  {
    assert (m * o) * p == m * (o * p);
  }

  /** A number whose low eight limbs are digits and that is below 2^257 has a small top limb. */
  lemma TopLimb(s: seq<int>)
    requires |s| == 9 && Digits(s[..8]) && 0 <= Val(s) < 2 * TWO256
    ensures Norm(s) && 0 <= s[8] < 0x200_0000
  {
    PLiterals();
    hide Val, P;
    ValStep(s, 8);
    ValAll(s);
    ValBounds(s[..8]);
    assert s[8] * TWO232 > -TWO232 && s[8] * TWO232 < 0x200_0000 * TWO232;
    forall i | 0 <= i < 9 ensures 0 <= s[i] < BASE { if i < 8 { assert s[i] == s[..8][i]; } }
  }

  method MakeOdd(k: array<int>, order: array<int>) returns (a: array<int>, nonZero: bool)
    requires Norm(k[..]) && Norm(order[..]) && Val(k[..]) < Val(order[..]) < TWO256 && Val(order[..]) % 2 == 1
    ensures fresh(a) && Norm(a[..]) && a[8] < 0x200_0000
    ensures Val(a[..]) == Offset(Val(k[..]), Val(order[..]))
    ensures nonZero <==> Val(k[..]) != 0
  {
    hide Val, P, W32, CarryAt, DigitAt;
    ghost var ks, os := k[..], order[..];
    ParityIsFirstLimb(ks);
    ValBounds(ks);
    var even := k[0] % 2 == 0;
    ghost var m := if even then 1 else 0;
    ghost var ts := seq(9, i requires 0 <= i < 9 => 1 * (BASE - 1) + ks[i] - m * os[i]);
    a := new int[9](_ => 0);
    CarryStart(ts, 1);
    var tmp := 1;
    nonZero := false;
    var j := 0;
    while j < 8
      invariant 0 <= j <= 8 && 0 <= tmp <= 1 && tmp == CarryAt(ts, 1, j)
      invariant forall i :: 0 <= i < j ==> a[i] == DigitAt(ts, 1, i)
      invariant nonZero <==> exists i :: 0 <= i < j && ks[i] != 0
    {
      nonZero := nonZero || k[j] != 0;
      tmp := W32(tmp + ((BASE - 1) + k[j] - (if even then order[j] else 0)));
      CarryNext(ts, 1, j, tmp);
      a[j] := tmp % BASE;
      tmp := tmp / BASE;
      j := j + 1;
    }
    nonZero := nonZero || k[8] != 0;
    var top := tmp + 0xff_ffff + k[8] - (if even then order[8] else 0);
    ghost var out := a[..8] + [top];
    OffsetLimbs(out, ts, ks, m, os);
    OffsetRange(Val(ks), Val(os));
    TopLimb(out);
    a[8] := W32(top);
    assert a[..] == out;
    ZeroLimbs(ks);
  }

  lemma ZeroLimbs(s: seq<int>)
    requires Norm(s)
    ensures Val(s) == 0 <==> forall i :: 0 <= i < 9 ==> s[i] == 0
  {
    hide Val, P;
    if Val(s) == 0 {
      POne();
      HighLimbsZero(s, 0);
    }
    if forall i :: 0 <= i < 9 ==> s[i] == 0 { ZerosVal(s); }
  }

  lemma {:induction false} ZerosVal(s: seq<int>)
    requires forall i :: 0 <= i < |s| ==> s[i] == 0
    ensures Val(s) == 0
  {
    if s != [] { ZerosVal(s[..|s| - 1]); }
  }
}
