/** Little-endian numbers in base 2^29, the representation of crypto/bignum.h.

    A number is a sequence of limbs; `Val` is the integer it stands for.  C's
    unsigned arithmetic is modelled on `int`, with the reduction modulo 2^32 or
    2^64 written out (`W32`, `W64`), so a contract about `Val` can only hold
    where the accumulators do not wrap. */
module Limbs {

  const LIMBS: nat := 9
  const BASE: int := 0x2000_0000
  const TWO32: int := 0x1_0000_0000
  const TWO64: int := 0x1_0000_0000_0000_0000
  const TWO224: int := 0x1_00000000_00000000_00000000_00000000_00000000_00000000_00000000
  const TWO232: int := 0x100_00000000_00000000_00000000_00000000_00000000_00000000_00000000
  const TWO256: int := 0x1_00000000_00000000_00000000_00000000_00000000_00000000_00000000_00000000
  const TWO261: int := 0x20_00000000_00000000_00000000_00000000_00000000_00000000_00000000_00000000

  function W32(x: int): (r: int)
    ensures 0 <= r < TWO32
    ensures 0 <= x < TWO32 ==> r == x
  {
    x % TWO32
  }

  function W64(x: int): (r: int)
    ensures 0 <= r < TWO64
    ensures 0 <= x < TWO64 ==> r == x
  {
    x % TWO64
  }

  /** BASE to the power n. */
  function P(n: nat): (r: int)
    ensures r >= 1
  {
    if n == 0 then 1 else BASE * P(n - 1)
  }

  lemma POne() ensures P(0) == 1 {}

  /** The number a limb sequence stands for; limbs need not be normalised. */
  function Val(s: seq<int>): int
  {
    if s == [] then 0 else Val(s[..|s| - 1]) + s[|s| - 1] * P(|s| - 1)
  }

  /** Every limb is a digit in base 2^29. */
  predicate Digits(s: seq<int>)
  {
    forall i :: 0 <= i < |s| ==> 0 <= s[i] < BASE
  }

  /** A normalised bignum256. */
  predicate Norm(s: seq<int>)
  {
    |s| == LIMBS && Digits(s)
  }

  lemma PAdd(m: nat, n: nat)
    ensures P(m + n) == P(m) * P(n)
  {
    if m != 0 {
      PAdd(m - 1, n);
      assert BASE * (P(m - 1) * P(n)) == (BASE * P(m - 1)) * P(n);
    }
  }

  lemma PLiterals()
    ensures P(8) == TWO232 && P(9) == TWO261
  {
    assert P(1) == BASE;
    assert P(2) == BASE * BASE;
    assert P(3) == 0x8000_0000_0000_0000_0000_00;
    assert P(4) == P(3) * BASE;
    assert P(5) == P(4) * BASE;
    assert P(6) == P(5) * BASE;
    assert P(7) == P(6) * BASE;
    assert P(8) == P(7) * BASE;
  }

  /** Appending the limb at index i. */
  lemma ValStep(s: seq<int>, i: nat)
    requires i < |s|
    ensures Val(s[..i + 1]) == Val(s[..i]) + s[i] * P(i)
  {
    assert s[..i + 1][..i] == s[..i];
  }

  lemma ValPush(s: seq<int>, d: int)
    ensures Val(s + [d]) == Val(s) + d * P(|s|)
  {
    assert (s + [d])[..|s|] == s;
  }

  lemma ValAll(s: seq<int>)
    ensures Val(s[..|s|]) == Val(s)
  {
    assert s[..|s|] == s;
  }

  lemma ValBounds(s: seq<int>)
    requires Digits(s)
    ensures 0 <= Val(s) < P(|s|)
  {
    if s != [] {
      var n := |s| - 1;
      ValBounds(s[..n]);
      MulMono(s[n], BASE - 1, P(n));
      assert (BASE - 1) * P(n) + P(n) == BASE * P(n);
      MulMono(0, s[n], P(n));
    }
  }

  lemma MulMono(a: int, b: int, p: int)
    requires a <= b && 0 <= p
    ensures a * p <= b * p
  {
  }

  lemma MulEq(c: int, a: int, b: int)
    requires a == b
    ensures c * a == c * b && a * c == b * c
  {
  }

  lemma Distrib(a: int, b: int, p: int)
    ensures (a + b) * p == a * p + b * p
  {
  }

  /** Zero is the only multiple of p strictly between -p and p. */
  lemma SmallMultiple(k: int, p: int, v: int)
    requires 0 < p && k * p == v && -p < v < p
    ensures k == 0 && v == 0
  {
    if k >= 1 {
      MulMono(1, k, p);
    } else if k <= -1 {
      MulMono(k, -1, p);
    }
  }

  /** Splitting a number at limb d. */
  lemma {:induction false} ValSplit(s: seq<int>, d: nat)
    requires d <= |s|
    ensures Val(s) == Val(s[..d]) + P(d) * Val(s[d..])
    decreases |s| - d
  {
    if d == |s| {
      assert s[..d] == s;
    } else {
      var n := |s| - 1;
      var t := s[..n];
      ValSplit(t, d);
      assert t[..d] == s[..d];
      assert s[d..][..n - d] == t[d..];
      assert Val(s[d..]) == Val(t[d..]) + s[n] * P(n - d);
      ShiftTop(s[n], Val(t[d..]), d, n - d);
    }
  }

  lemma ShiftTop(top: int, rest: int, d: nat, m: nat)
    ensures P(d) * (rest + top * P(m)) == P(d) * rest + top * P(d + m)
  {
    PAdd(d, m);
    assert P(d) * (rest + top * P(m)) == P(d) * rest + top * (P(d) * P(m));
  }

  /** Digit sequences of equal length are determined by their value. */
  lemma {:induction false} ValInjective(s: seq<int>, t: seq<int>)
    requires |s| == |t| && Digits(s) && Digits(t) && Val(s) == Val(t)
    ensures s == t
  {
    if s != [] {
      var n := |s| - 1;
      var a, b := s[..n], t[..n];
      ValBounds(a);
      ValBounds(b);
      if s[n] < t[n] {
        MulMono(s[n] + 1, t[n], P(n));
        Distrib(s[n], 1, P(n));
        assert false;
      }
      if t[n] < s[n] {
        MulMono(t[n] + 1, s[n], P(n));
        Distrib(t[n], 1, P(n));
        assert false;
      }
      ValInjective(a, b);
      assert s == a + [s[n]] && t == b + [t[n]];
    }
  }

  /** A value below P(d) leaves every limb from d on at zero. */
  lemma {:induction false} HighLimbsZero(s: seq<int>, d: nat)
    requires Digits(s) && d <= |s| && Val(s) < P(d)
    ensures forall i :: d <= i < |s| ==> s[i] == 0
    ensures Val(s[..d]) == Val(s)
  {
    if d == |s| {
      assert s[..d] == s;
    } else {
      var n := |s| - 1;
      ValBounds(s[..n]);
      if s[n] > 0 {
        MulMono(1, s[n], P(n));
        PMono(d, n);
        assert false;
      }
      HighLimbsZero(s[..n], d);
      assert s[..n][..d] == s[..d];
    }
  }

  lemma {:induction false} PMono(m: nat, n: nat)
    requires m <= n
    ensures P(m) <= P(n)
  {
    if m < n {
      PMono(m, n - 1);
    }
  }

  // ------------------------------------------------------------- carry chains
  //
  // Every limb loop of bignum.c has the same shape: a term is added to an
  // accumulator, the low 29 bits are stored and the rest is carried on.

  /** The accumulator of such a loop before limb i, started at a0. */
  ghost function CarryAt(ts: seq<int>, a0: int, i: nat): int
    requires i <= |ts|
  {
    if i == 0 then a0 else (CarryAt(ts, a0, i - 1) + ts[i - 1]) / BASE
  }

  /** The limb it stores at i. */
  ghost function DigitAt(ts: seq<int>, a0: int, i: nat): int
    requires i < |ts|
  {
    (CarryAt(ts, a0, i) + ts[i]) % BASE
  }

  lemma CarryStart(ts: seq<int>, a0: int)
    ensures CarryAt(ts, a0, 0) == a0
  {
  }

  lemma CarryNext(ts: seq<int>, a0: int, i: nat, t: int)
    requires i < |ts| && t == CarryAt(ts, a0, i) + ts[i]
    ensures CarryAt(ts, a0, i + 1) == t / BASE && DigitAt(ts, a0, i) == t % BASE
  {
  }

  /** out holds the limbs of the chain. */
  ghost predicate ChainOutput(out: seq<int>, ts: seq<int>, a0: int)
  {
    |out| == |ts| && forall j :: 0 <= j < |out| ==> out[j] == DigitAt(ts, a0, j)
  }

  /** A chain conserves the value it is fed. */
  lemma {:induction false} ChainVal(out: seq<int>, ts: seq<int>, a0: int, n: nat)
    requires n <= |ts| && n <= |out| && forall j :: 0 <= j < n ==> out[j] == DigitAt(ts, a0, j)
    ensures Val(out[..n]) + CarryAt(ts, a0, n) * P(n) == a0 + Val(ts[..n])
  {
    if n > 0 {
      var c := CarryAt(ts, a0, n - 1);
      var c' := CarryAt(ts, a0, n);
      assert c' == (c + ts[n - 1]) / BASE && out[n - 1] == (c + ts[n - 1]) % BASE;
      assert P(n) == BASE * P(n - 1);
      ChainVal(out, ts, a0, n - 1);
      hide Val, P, CarryAt, DigitAt;
      ValStep(out, n - 1);
      ValStep(ts, n - 1);
      CarryParts(c, ts[n - 1], out[n - 1], c', P(n - 1), P(n));
    }
  }

  lemma CarryParts(c: int, t: int, lo: int, hi: int, q: int, q': int)
    requires c + t == lo + hi * BASE && q' == BASE * q
    ensures c * q + t * q == lo * q + hi * q'
  {
    MulEq(q, c + t, lo + hi * BASE);
    Distrib(c, t, q);
    Distrib(lo, hi * BASE, q);
    MulEq(hi, q', BASE * q);
    assert (hi * BASE) * q == hi * (BASE * q);
  }

  /** The terms of a chain that computes x - m * y with head room K. */
  ghost predicate Terms(ts: seq<int>, K: int, xs: seq<int>, m: int, ys: seq<int>)
  {
    |ts| == |xs| == |ys| && forall i :: 0 <= i < |ts| ==> ts[i] == K * (BASE - 1) + xs[i] - m * ys[i]
  }

  lemma {:induction false} TermsVal(ts: seq<int>, K: int, xs: seq<int>, m: int, ys: seq<int>, n: nat)
    requires Terms(ts, K, xs, m, ys) && n <= |ts|
    ensures Val(ts[..n]) == K * P(n) - K + Val(xs[..n]) - m * Val(ys[..n])
  {
    if n > 0 {
      var t, x, y := ts[n - 1], xs[n - 1], ys[n - 1];
      assert t == K * (BASE - 1) + x - m * y;
      assert P(n) == BASE * P(n - 1);
      TermsVal(ts, K, xs, m, ys, n - 1);
      hide Val, P, Terms;
      ValStep(ts, n - 1);
      ValStep(xs, n - 1);
      ValStep(ys, n - 1);
      TermWeight(K, t, x, m, y, Val(ys[..n - 1]), Val(ys[..n]), P(n - 1), P(n));
    }
  }

  lemma TermWeight(K: int, t: int, x: int, m: int, y: int, vy: int, vy': int, q: int, q': int)
    requires t == K * (BASE - 1) + x - m * y && vy' == vy + y * q && q' == BASE * q
    ensures t * q == K * q' - K * q + x * q - (m * vy' - m * vy)
  {
    var a, b := K * (BASE - 1), m * y;
    MulEq(q, t, (a + x) + -b);
    Distrib(a + x, -b, q);
    Distrib(a, x, q);
    MulEq(K, q', BASE * q);
    assert a * q == K * (BASE * q) - K * q;
    assert b * q == m * (y * q);
    MulEq(m, vy', vy + y * q);
    Distrib(vy, y * q, m);
  }

  /** The value left by a finished chain of n limbs. */
  lemma ChainTotal(out: seq<int>, ts: seq<int>, K: int, xs: seq<int>, m: int, ys: seq<int>)
    requires Terms(ts, K, xs, m, ys) && ChainOutput(out, ts, K)
    ensures Val(out) + CarryAt(ts, K, |ts|) * P(|ts|) == K * P(|ts|) + Val(xs) - m * Val(ys)
  {
    hide Val, P, CarryAt;
    var n := |ts|;
    ChainVal(out, ts, K, n);
    TermsVal(ts, K, xs, m, ys, n);
    ValAll(out); ValAll(xs); ValAll(ys);
  }

  lemma ChainDigits(out: seq<int>, ts: seq<int>, a0: int)
    requires ChainOutput(out, ts, a0)
    ensures Digits(out)
  {
  }

  /** When the total is v plus `top` units of the weight above the last limb, and
      v fits, the final carry is `top` and v is what the limbs hold. */
  lemma CarryOut(v': int, acc: int, q: int, top: int, v: int)
    requires 0 <= v' < q && 0 <= v < q && v' + acc * q == top * q + v
    ensures acc == top && v' == v
  {
    Distrib(acc, -top, q);
    SmallMultiple(acc - top, q, v - v');
  }
}
