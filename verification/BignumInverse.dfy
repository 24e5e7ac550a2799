/** Halving, division by 2^29 and inversion modulo an odd number
    (crypto/bignum.c: bn_mult_half, inverse_mod_power_two, bn_divide_base,
    bn_inverse_fast). */
module BignumInverse {
  import opened Limbs
  import opened BignumBasic
  import opened BignumMultiply
  import opened Congruence
  import opened AlmostInverse

  // ------------------------------------------------------------ bn_mult_half

  /** The terms of the halving chain: half of each limb and the low bit of the next. */
  ghost predicate HalfTerms(ts: seq<int>, ys: seq<int>)
  {
    |ts| == |ys| == 9 && ts[8] == ys[8] / 2 &&
    forall i :: 0 <= i < 8 ==> ts[i] == ys[i] / 2 + (ys[i + 1] % 2) * HALF_BASE
  }

  lemma {:induction false} HalfTermsVal(ts: seq<int>, ys: seq<int>, n: nat)
    requires HalfTerms(ts, ys) && n <= 8
    ensures 2 * Val(ts[..n]) + ys[0] % 2 == Val(ys[..n]) + (ys[n] % 2) * P(n)
  {
    if n > 0 {
      HalfTermsVal(ts, ys, n - 1);
      ValStep(ts, n - 1);
      ValStep(ys, n - 1);
      HalvedLimb(ys[n - 1], ys[n] % 2, n - 1);
    }
  }

  lemma HalfTotal(ts: seq<int>, ys: seq<int>)
    requires HalfTerms(ts, ys) && ys[0] % 2 == 0
    ensures 2 * Val(ts) == Val(ys)
  {
    HalfTermsVal(ts, ys, 8);
    ValStep(ts, 8); ValStep(ys, 8);
    ValAll(ts); ValAll(ys);
    HalvedTop(ys[8], P(8));
  }

  /** The chain stores eight limbs and leaves the ninth in the accumulator. */
  lemma HalfResult(out: seq<int>, ts: seq<int>, ys: seq<int>)
    requires HalfTerms(ts, ys) && ys[0] % 2 == 0 && |out| == |ts| == 9
    requires forall j :: 0 <= j < 8 ==> out[j] == DigitAt(ts, 0, j)
    requires out[8] == CarryAt(ts, 0, 8) + ts[8] && 0 <= out[8] && Val(ys) < TWO261
    ensures Norm(out) && 2 * Val(out) == Val(ys)
  {
    forall j | 0 <= j < 8 ensures 0 <= out[j] < BASE {
      assert out[j] == DigitAt(ts, 0, j);
    }
    HalfTotal(ts, ys);
    HalfStored(out, ts);
    TopLimbSmall(out, Val(out));
  }

  lemma TopLimbSmall(out: seq<int>, v: int)
    requires |out| == 9 && Digits(out[..8]) && Val(out) == v && 2 * v < TWO261 && 0 <= out[8]
    ensures out[8] < BASE
  {
    hide Val, P;
    ValStep(out, 8);
    ValAll(out);
    ValBounds(out[..8]);
    PLiterals();
    MulEq(out[8], P(8), TWO232);
  }

  lemma HalfStored(out: seq<int>, ts: seq<int>)
    requires |out| == |ts| == 9
    requires forall j :: 0 <= j < 8 ==> out[j] == DigitAt(ts, 0, j)
    requires out[8] == CarryAt(ts, 0, 8) + ts[8]
    ensures Val(out) == Val(ts)
  {
    hide Val, P, CarryAt, DigitAt;
    var c := CarryAt(ts, 0, 8);
    ChainVal(out, ts, 0, 8);
    ValStep(out, 8); ValStep(ts, 8);
    ValAll(out); ValAll(ts);
    Distrib(c, ts[8], P(8));
  }

  /** The limb loop of bn_mult_half. */
  method HalveLimbs(x: array<int>, prime: array<int>, odd: bool, ghost ys: seq<int>, ghost ts: seq<int>)
    requires Sized(x) && Sized(prime) && x != prime && HalfTerms(ts, ys)
    requires forall j :: 0 <= j < 9 ==> ys[j] == x[j] + (if odd then prime[j] else 0) && 0 <= ys[j] < 2 * BASE
    modifies x
    ensures forall j :: 0 <= j < 8 ==> x[j] == DigitAt(ts, 0, j)
    ensures 0 <= x[8] == CarryAt(ts, 0, 8) + ts[8]
  {
    hide CarryAt, DigitAt;
    ghost var xs := x[..];
    CarryStart(ts, 0);
    var acc := W32(x[0] + if odd then prime[0] else 0) / 2;
    var i := 0;
    while i < LIMBS - 1
      invariant 0 <= i <= LIMBS - 1
      invariant forall j :: i <= j < LIMBS ==> x[j] == xs[j]
      invariant 0 <= acc < 2 * BASE && acc == CarryAt(ts, 0, i) + ys[i] / 2
      invariant forall j :: 0 <= j < i ==> x[j] == DigitAt(ts, 0, j)
    {
      var temp := W32(x[i + 1] + if odd then prime[i + 1] else 0);
      acc := W32(acc + (temp % 2) * HALF_BASE);
      CarryNext(ts, 0, i, acc);
      x[i] := acc % BASE;
      acc := acc / BASE;
      acc := W32(acc + temp / 2);
      i := i + 1;
    }
    x[8] := acc;
  }

  /** bn_mult_half: x becomes x / 2 when even and (x + prime) / 2 when odd. */
  method MultHalf(x: array<int>, prime: array<int>)
    requires Norm(x[..]) && Norm(prime[..]) && x != prime && Val(prime[..]) % 2 == 1
    requires Val(x[..]) + Val(prime[..]) < TWO261
    modifies x
    ensures Norm(x[..])
    ensures 2 * Val(x[..]) == old(Val(x[..])) + if old(Val(x[..])) % 2 == 1 then Val(prime[..]) else 0
  {
    hide Val, P, CarryAt, DigitAt;
    ghost var xs, ps := x[..], prime[..];
    var odd := x[0] % 2 == 1;
    ghost var ys := MaskedSum(xs, odd, ps);
    ghost var ts := HalfTermSeq(ys);
    ValBounds(ps);
    MaskedParity(xs, ps);
    HalveLimbs(x, prime, odd, ys, ts);
    HalfResult(x[..], ts, ys);
  }

  ghost function HalfTermSeq(ys: seq<int>): (ts: seq<int>)
    requires |ys| == 9
    ensures HalfTerms(ts, ys)
  {
    seq(8, i requires 0 <= i < 8 => ys[i] / 2 + (ys[i + 1] % 2) * HALF_BASE) + [ys[8] / 2]
  }

  /** x plus the modulus where the mask is set. */
  ghost function MaskedSum(xs: seq<int>, odd: bool, ps: seq<int>): (ys: seq<int>)
    requires |xs| == |ps|
    ensures |ys| == |xs| && forall j :: 0 <= j < |ys| ==> ys[j] == xs[j] + if odd then ps[j] else 0
    ensures Val(ys) == Val(xs) + if odd then Val(ps) else 0
  {
    if odd then
      var ys := seq(|xs|, i requires 0 <= i < |xs| => xs[i] + ps[i]);
      LimbwiseSum(ys, xs, ps);
      ys
    else xs
  }

  lemma MaskedParity(xs: seq<int>, ps: seq<int>)
    requires Norm(xs) && Norm(ps) && Val(ps) % 2 == 1
    ensures Val(xs) % 2 == xs[0] % 2
    ensures MaskedSum(xs, xs[0] % 2 == 1, ps)[0] % 2 == 0
  {
    ParityIsFirstLimb(xs);
    ParityIsFirstLimb(ps);
  }

  // --------------------------------------------------- inverse_mod_power_two

  /** Masking a wrapped word to n bits only changes it by multiples of 2^n. */
  lemma MaskCong(t: int, n: nat)
    requires n <= 32
    ensures Cong(W32(t) % Two(n), t, Two(n))
  {
    TwoLiterals();
    CongMod(t, TWO32);
    CongSym(t, W32(t), TWO32);
    CongDown(W32(t), t, n, 32);
    CongMod(W32(t), Two(n));
    CongSym(W32(t), W32(t) % Two(n), Two(n));
    CongTrans(W32(t) % Two(n), W32(t), t, Two(n));
  }

  /** Newton's step: from a * acc = 1 - f^2 to a * acc * (1 + f^2) = 1 - f^4. */
  lemma NewtonStep(a: int, acc: int, f: int, f': int, acc': int, m: int)
    requires m > 0 && Cong(a * acc, 1 - f * f, m) && Cong(f', f * f, m) && Cong(acc', acc * (1 + f'), m)
    ensures Cong(a * acc', 1 - f' * f', m)
  {
    hide Cong;
    NewtonAlgebra(a, acc, f');
    CongScale(a, acc', acc * (1 + f'), m);
    CongSym(f', f * f, m);
    CongScale(-1, f * f, f', m);
    CongAdd(1, 1, -1 * (f * f), -1 * f', m);
    CongTrans(a * acc, 1 - f * f, 1 - f', m);
    CongScale(1 + f', a * acc, 1 - f', m);
    CongTrans(a * acc', (1 + f') * (a * acc), 1 - f' * f', m);
  }

  lemma NewtonAlgebra(a: int, acc: int, g: int)
    ensures a * (acc * (1 + g)) == (1 + g) * (a * acc) && (1 + g) * (1 - g) == 1 - g * g
  {
    assert a * (acc * (1 + g)) == (a * acc) * (1 + g);
  }

  lemma SquareOf(f: int, q: int, w: int, w2: int)
    requires f == q * w && w2 == w * w
    ensures f * f == (q * q) * w2
  {
    assert (q * w) * (q * w) == (q * q) * (w * w);
  }

  /** Squaring doubles the number of known zero bits. */
  lemma SquareZeros(f: int, f': int, e: nat, e': nat, n: nat)
    requires e' <= 2 * e && e' <= n && Cong(f, 0, Two(e)) && Cong(f', f * f, Two(n))
    ensures Cong(f', 0, Two(e'))
  {
    hide Two, Cong;
    var q := CongWitness(f, 0, Two(e));
    TwoAdd(e, e);
    SquareOf(f, q, Two(e), Two(2 * e));
    CongIntro(f * f, 0, q * q, Two(2 * e));
    CongDown(f * f, 0, e', 2 * e);
    CongDown(f', f * f, e', n);
    CongTrans(f', f * f, 0, Two(e'));
  }

  function Min(a: nat, b: nat): nat { if a < b then a else b }

  /** inverse_mod_power_two.  The result is masked in the loop only, so for n == 1 it
      is an inverse that need not be reduced. */
  method InverseModPowerTwo(a: int, n: nat) returns (acc: int)
    requires 0 <= a < TWO32 && a % 2 == 1 && 1 <= n <= 32
    ensures 0 <= acc < TWO32 && Cong(a * acc, 1, Two(n))
    ensures acc < Two(n) <==> n >= 2 || a == 1
  {
    hide Cong;
    acc := W32(2 - a);
    var f := W32(a - 1);
    NewtonInit(a, n);
    var i := 1;
    while i < n
      invariant 1 <= i <= 64
      invariant 0 <= acc < TWO32
      invariant i == 1 ==> acc == W32(2 - a)
      invariant i > 1 ==> n >= 2 && acc < Two(n)
      invariant Cong(a * acc, 1 - f * f, Two(n))
      invariant Cong(f, 0, Two(Min(i, n)))
      decreases 64 - i
    {
      ghost var f0, acc0 := f, acc;
      f := W32(f * f) % Two(n);
      acc := W32(acc * W32(1 + f)) % Two(n);
      MaskCong(f0 * f0, n);
      WrapMul(acc0, 1 + f, n);
      NewtonStep(a, acc0, f0, f, acc, Two(n));
      SquareZeros(f0, f, Min(i, n), Min(2 * i, n), n);
      TwoLiterals();
      TwoMono(n, 32);
      i := 2 * i;
    }
    NewtonEnd(a, acc, f, Two(n));
    assert Two(1) == 2;
    assert a > 2 ==> W32(2 - a) == TWO32 + 2 - a;
  }

  lemma NewtonInit(a: int, n: nat)
    requires 0 <= a < TWO32 && a % 2 == 1 && 1 <= n <= 32
    ensures Cong(a * W32(2 - a), 1 - W32(a - 1) * W32(a - 1), Two(n))
    ensures Cong(W32(a - 1), 0, Two(1))
  {
    hide Cong, Two;
    TwoLiterals();
    CongMod(2 - a, TWO32);
    CongSym(2 - a, W32(2 - a), TWO32);
    CongDown(W32(2 - a), 2 - a, n, 32);
    CongScale(a, W32(2 - a), 2 - a, Two(n));
    assert W32(a - 1) == a - 1;
    NewtonStart(a);
  }

  lemma NewtonStart(a: int)
    requires a % 2 == 1
    ensures a * (2 - a) == 1 - (a - 1) * (a - 1) && Cong(a - 1, 0, Two(1))
  {
    assert Two(1) == 2;
  }

  lemma WrapMul(acc: int, t: int, n: nat)
    requires n <= 32
    ensures Cong(W32(acc * W32(t)) % Two(n), acc * t, Two(n))
  {
    MaskCong(acc * W32(t), n);
    TwoLiterals();
    CongMod(t, TWO32);
    CongSym(t, W32(t), TWO32);
    CongDown(W32(t), t, n, 32);
    CongScale(acc, W32(t), t, Two(n));
    CongTrans(W32(acc * W32(t)) % Two(n), acc * W32(t), acc * t, Two(n));
  }

  lemma NewtonEnd(a: int, acc: int, f: int, m: int)
    requires m > 0 && Cong(a * acc, 1 - f * f, m) && Cong(f, 0, m)
    ensures Cong(a * acc, 1, m)
  {
    CongScale(-f, f, 0, m);
    CongAdd(1, 1, -f * f, -f * 0, m);
    assert 1 + -f * f == 1 - f * f;
    CongTrans(a * acc, 1 - f * f, 1, m);
  }

  /** For n == 1 the result can be out of range: a = 3 is such an input. */
  method UnreducedInverse() returns (acc: int)
    ensures acc >= Two(1) && Cong(3 * acc, 1, Two(1))
  {
    acc := InverseModPowerTwo(3, 1);
  }

  // ---------------------------------------------------------- bn_divide_base

  /** The quotient digit makes x + m * prime divisible by 2^29. */
  lemma DivideDigit(x0: int, p0: int, inv: int) returns (m: int)
    requires 0 <= x0 < BASE && Cong(p0 * inv, 1, BASE)
    ensures m == W32(x0 * W32(BASE - inv)) % BASE && 0 <= m < BASE
    ensures (x0 + m * p0) % BASE == 0
  {
    m := W32(x0 * W32(BASE - inv)) % BASE;
    TwoLiterals();
    WrapMul(x0, BASE - inv, 29);
    CongScale(p0, m, x0 * (BASE - inv), BASE);
    CongScale(-x0, p0 * inv, 1, BASE);
    CongIntro(p0 * (x0 * (BASE - inv)), -x0 * (p0 * inv), p0 * x0, BASE) by {
      DigitAlgebra(p0, x0, inv);
    }
    CongTrans(p0 * m, p0 * (x0 * (BASE - inv)), -x0 * (p0 * inv), BASE);
    CongTrans(p0 * m, -x0 * (p0 * inv), -x0 * 1, BASE);
    assert p0 * m == m * p0;
  }

  lemma DigitAlgebra(p0: int, x0: int, inv: int)
    ensures p0 * (x0 * (BASE - inv)) - -x0 * (p0 * inv) == (p0 * x0) * BASE
  {
    assert x0 * (BASE - inv) == x0 * BASE - x0 * inv;
    assert p0 * (x0 * BASE - x0 * inv) == (p0 * x0) * BASE - p0 * (x0 * inv);
    assert p0 * (x0 * inv) == x0 * (p0 * inv);
  }

  /** The terms of the chain that computes x + m * prime. */
  ghost predicate ScaledTerms(ts: seq<int>, xs: seq<int>, m: int, ps: seq<int>)
  {
    |ts| == |xs| == |ps| && forall j :: 0 <= j < |ts| ==> ts[j] == xs[j] + m * ps[j]
  }

  lemma ProductRange(acc: int, x: int, m: int, p: int)
    requires 0 <= acc < TWO35 && 0 <= x < BASE && 0 <= m < BASE && 0 <= p < BASE
    ensures 0 <= m * p && 0 <= acc + x + m * p < TWO64
  {
    CellBound(m, p);
  }

  /** The limb loop of bn_divide_base: the chain of x + m * prime, stored one limb lower. */
  method DivideLimbs(x: array<int>, prime: array<int>, m: int, ghost ts: seq<int>)
    requires Norm(x[..]) && Norm(prime[..]) && x != prime && 0 <= m < BASE && |ts| == 9
    requires ScaledTerms(ts, x[..], m, prime[..])
    modifies x
    ensures StoredLower(x[..], ts)
  {
    ghost var xs := x[..];
    ProductRange(0, x[0], m, prime[0]);
    var acc := W64(x[0] + m * prime[0]);
    acc := acc / BASE;
    var i := 1;
    while i < LIMBS
      invariant 1 <= i <= LIMBS
      invariant forall j :: i <= j < LIMBS ==> x[j] == xs[j]
      invariant 0 <= acc < TWO35 && acc == CarryAt(ts, 0, i)
      invariant forall j :: 0 <= j < i - 1 ==> x[j] == DigitAt(ts, 0, j + 1)
    {
      ProductRange(acc, x[i], m, prime[i]);
      acc := W64(acc + x[i] + m * prime[i]);
      x[i - 1] := acc % BASE;
      acc := acc / BASE;
      i := i + 1;
    }
    CarryBound(ts, xs, prime[..], m);
    x[8] := W32(acc);
  }

  lemma CarryBound(ts: seq<int>, xs: seq<int>, ps: seq<int>, m: int)
    requires Norm(xs) && Norm(ps) && 0 <= m < BASE && |ts| == 9
    requires ScaledTerms(ts, xs, m, ps)
    ensures CarryAt(ts, 0, 9) < BASE
  {
    CarryBoundAt(ts, xs, ps, m, 9);
  }

  lemma {:induction false} CarryBoundAt(ts: seq<int>, xs: seq<int>, ps: seq<int>, m: int, n: nat)
    requires Norm(xs) && Norm(ps) && 0 <= m < BASE && |ts| == 9 && n <= 9
    requires ScaledTerms(ts, xs, m, ps)
    ensures 0 <= CarryAt(ts, 0, n) < BASE
  {
    if n > 0 {
      CarryBoundAt(ts, xs, ps, m, n - 1);
      MulMono(m, BASE - 1, ps[n - 1]);
      MulMono(0, m, ps[n - 1]);
      QuotientBelow(CarryAt(ts, 0, n - 1) + ts[n - 1]);
    }
  }

  lemma QuotientBelow(t: int)
    requires 0 <= t < BASE * BASE
    ensures 0 <= t / BASE < BASE
  {
  }

  lemma DivideNorm(out: seq<int>, ts: seq<int>, xs: seq<int>, ps: seq<int>, m: int)
    requires Norm(xs) && Norm(ps) && |ts| == |out| == 9 && 0 <= m < BASE && ScaledTerms(ts, xs, m, ps)
    requires StoredLower(out, ts)
    ensures Norm(out)
  {
    CarryBoundAt(ts, xs, ps, m, 9);
    forall j | 0 <= j < 8 ensures 0 <= out[j] < BASE {
      assert out[j] == DigitAt(ts, 0, j + 1);
    }
  }

  lemma DivideValue(out: seq<int>, ts: seq<int>, xs: seq<int>, ps: seq<int>, m: int)
    requires |ts| == |out| == 9 && ScaledTerms(ts, xs, m, ps) && ts[0] % BASE == 0
    requires StoredLower(out, ts)
    ensures BASE * Val(out) == Val(xs) + m * Val(ps)
  {
    LowerDigits(out, ts);
    ScaledSum(ts, xs, m, ps);
  }

  /** The limbs of a chain, stored one place lower, and its final carry on top. */
  ghost predicate StoredLower(out: seq<int>, ts: seq<int>)
    requires |ts| == |out| == 9
  {
    (forall j :: 0 <= j < 8 ==> out[j] == DigitAt(ts, 0, j + 1)) && out[8] == CarryAt(ts, 0, 9)
  }

  lemma {:induction false} ScaledSum(ts: seq<int>, xs: seq<int>, m: int, ps: seq<int>)
    requires ScaledTerms(ts, xs, m, ps)
    ensures Val(ts) == Val(xs) + m * Val(ps)
  {
    if ts != [] {
      var n := |ts| - 1;
      ScaledSum(ts[..n], xs[..n], m, ps[..n]);
      assert ts[n] == xs[n] + m * ps[n];
      hide ScaledTerms;
      ScaledTerm(ts[n], xs[n], m, ps[n], Val(ps[..n]), Val(ps), P(n));
    }
  }

  lemma ScaledTerm(t: int, x: int, m: int, y: int, vy: int, vy': int, q: int)
    requires t == x + m * y && vy' == vy + y * q
    ensures t * q == x * q + (m * vy' - m * vy)
  {
    MulEq(q, t, x + m * y);
    Distrib(x, m * y, q);
    assert (m * y) * q == m * (y * q);
    MulEq(m, vy', vy + y * q);
    Distrib(vy, y * q, m);
  }

  lemma LowerDigits(out: seq<int>, ts: seq<int>)
    requires |ts| == |out| == 9 && ts[0] % BASE == 0 && StoredLower(out, ts)
    ensures BASE * Val(out) == Val(ts)
  {
    var whole := [0] + out[..8];
    assert DigitAt(ts, 0, 0) == 0;
    forall j | 0 <= j < 9 ensures whole[j] == DigitAt(ts, 0, j) {
      if j > 0 {
        assert whole[j] == out[j - 1] == DigitAt(ts, 0, (j - 1) + 1);
      }
    }
    ShiftedTotal(out, whole, ts);
  }

  lemma ValUnshift(out: seq<int>)
    ensures Val([0] + out) == BASE * Val(out)
  {
    ValSplit([0] + out, 1);
    assert ([0] + out)[..1] == [0] && ([0] + out)[1..] == out;
    assert [0][..0] == [] && Val([0]) == 0;
    assert P(1) == BASE;
  }

  lemma ShiftedTotal(out: seq<int>, whole: seq<int>, ts: seq<int>)
    requires |ts| == |out| == 9 && whole == [0] + out[..8]
    requires forall j :: 0 <= j < 9 ==> whole[j] == DigitAt(ts, 0, j)
    requires out[8] == CarryAt(ts, 0, 9)
    ensures BASE * Val(out) == Val(ts)
  {
    hide Val, P, CarryAt, DigitAt;
    ChainVal(whole, ts, 0, 9);
    ValAll(whole); ValAll(ts);
    ValPush(whole, out[8]);
    assert whole + [out[8]] == [0] + out;
    ValUnshift(out);
  }

  /** m = (-x / prime) mod 2^29, from the lowest limbs. */
  method DivisionDigit(x: array<int>, prime: array<int>) returns (m: int)
    requires Norm(x[..]) && Norm(prime[..]) && Val(prime[..]) % 2 == 1
    ensures 0 <= m < BASE && (x[0] + m * prime[0]) % BASE == 0
  {
    ParityIsFirstLimb(prime[..]);
    TwoLiterals();
    var inv := InverseModPowerTwo(prime[0], 29);
    ghost var m' := DivideDigit(x[0], prime[0], inv);
    m := W32(x[0] * W32(BASE - inv)) % BASE;
  }

  /** bn_divide_base: x becomes (x + m * prime) / 2^29 for the m that makes it exact. */
  method DivideBase(x: array<int>, prime: array<int>)
    requires Norm(x[..]) && Norm(prime[..]) && x != prime && Val(prime[..]) > 0 && Val(prime[..]) % 2 == 1
    modifies x
    ensures Norm(x[..])
    ensures Cong(BASE * Val(x[..]), old(Val(x[..])), Val(prime[..]))
    ensures old(Val(x[..])) < Val(prime[..]) ==> Val(x[..]) < Val(prime[..])
    ensures old(Val(x[..])) < 2 * Val(prime[..]) ==> Val(x[..]) < 2 * Val(prime[..])
  {
    hide Val, P, Cong, StoredLower;
    ghost var xs, ps := x[..], prime[..];
    var m := DivisionDigit(x, prime);
    ghost var ts := seq(9, i requires 0 <= i < 9 => xs[i] + m * ps[i]);
    DivideLimbs(x, prime, m, ts);
    DivideNorm(x[..], ts, xs, ps, m);
    DivideValue(x[..], ts, xs, ps, m);
    DivideEffect(Val(xs), Val(x[..]), m, Val(ps));
  }

  lemma DivideEffect(v: int, v': int, m: int, p: int)
    requires p > 0 && 0 <= m < BASE && BASE * v' == v + m * p
    ensures Cong(BASE * v', v, p)
    ensures v < p ==> v' < p
    ensures v < 2 * p ==> v' < 2 * p
  {
    CongIntro(BASE * v', v, m, p);
    MulMono(m, BASE - 1, p);
  }

  // --------------------------------------------------------- bn_inverse_fast

  ghost predicate FourNumbers(u: array<int>, v: array<int>, r: array<int>, s: array<int>, zero: array<int>)
    reads u, v, r, s, zero
  {
    && u != v && u != r && u != s && v != r && v != s && r != s
    && zero != u && zero != v && zero != r && zero != s
    && Norm(u[..]) && Norm(v[..]) && Norm(r[..]) && Norm(s[..]) && Norm(zero[..]) && Val(zero[..]) == 0
  }

  ghost function StateOf(u: array<int>, v: array<int>, r: array<int>, s: array<int>, k: nat): State
    reads u, v, r, s
  {
    State(Val(u[..]), Val(v[..]), Val(r[..]), Val(s[..]), k)
  }

  /** The body of the main loop: every number is touched through a selected
      pointer, so that the sequence of calls is the same in all four branches
      and after the loop has finished. */
  method Iterate(u: array<int>, v: array<int>, r: array<int>, s: array<int>, zero: array<int>, finished: bool,
                 ghost k: nat)
    requires FourNumbers(u, v, r, s, zero)
    requires !finished ==> 0 <= Val(r[..]) && 0 <= Val(s[..]) && Val(r[..]) + Val(s[..]) < TWO256 + TWO256
    modifies u, v, r, s
    ensures FourNumbers(u, v, r, s, zero)
    ensures !finished ==> StateOf(u, v, r, s, k + 1) == Step(old(StateOf(u, v, r, s, k)))
    ensures finished ==> Val(s[..]) == old(Val(s[..]))
  {
    hide Val, P;
    ghost var st := StateOf(u, v, r, s, k);
    var uEven := IsEven(u);
    var vEven := IsEven(v);
    var vLess := IsLess(v, u);
    var b1 := !finished && uEven;
    var b2 := !finished && !b1 && vEven;
    var b3 := !finished && !b1 && !b2 && vLess;
    var b4 := !finished && !b1 && !b2 && !b3;
    Combine(u, v, r, s, zero, b3, b4);
    Shift(u, v, r, s, b1 || b3);
    if !finished {
      ModOfMultiple(2 * if b1 then st.s else if b2 || b4 then st.r else st.s, 0, TWO261);
    }
  }

  /** bn_subtract and bn_add through the selected pointers. */
  method Combine(u: array<int>, v: array<int>, r: array<int>, s: array<int>, zero: array<int>, b3: bool, b4: bool)
    requires FourNumbers(u, v, r, s, zero) && !(b3 && b4)
    requires b3 ==> Val(v[..]) <= Val(u[..])
    requires b4 ==> Val(u[..]) <= Val(v[..])
    requires b3 || b4 ==> Val(r[..]) + Val(s[..]) < TWO261
    modifies u, v, r, s
    ensures FourNumbers(u, v, r, s, zero)
    ensures Val(u[..]) == old(Val(u[..])) - if b3 then old(Val(v[..])) else 0
    ensures Val(v[..]) == old(Val(v[..])) - if b4 then old(Val(u[..])) else 0
    ensures Val(r[..]) == old(Val(r[..])) + if b3 then old(Val(s[..])) else 0
    ensures Val(s[..]) == old(Val(s[..])) + if b4 then old(Val(r[..])) else 0
  {
    ValBounds(v[..]); ValBounds(s[..]); PLiterals();
    var minuend := if b3 then u else v;
    var subtrahend := if b3 || b4 then (if b3 then v else u) else zero;
    Subtract(minuend, subtrahend, minuend);
    var sum := if b3 then r else s;
    var summand := if b3 || b4 then (if b3 then s else r) else zero;
    Add(sum, summand);
  }

  /** bn_rshift and bn_lshift through the selected pointers. */
  method Shift(u: array<int>, v: array<int>, r: array<int>, s: array<int>, first: bool)
    requires u != v && u != r && u != s && v != r && v != s && r != s
    requires Norm(u[..]) && Norm(v[..]) && Norm(r[..]) && Norm(s[..])
    modifies u, v, r, s
    ensures Norm(u[..]) && Norm(v[..]) && Norm(r[..]) && Norm(s[..])
    ensures Val(u[..]) == if first then old(Val(u[..])) / 2 else old(Val(u[..]))
    ensures Val(v[..]) == if first then old(Val(v[..])) else old(Val(v[..])) / 2
    ensures Val(s[..]) == if first then (2 * old(Val(s[..]))) % TWO261 else old(Val(s[..]))
    ensures Val(r[..]) == if first then old(Val(r[..])) else (2 * old(Val(r[..]))) % TWO261
  {
    var halved := if first then u else v;
    RShift(halved);
    var doubled := if first then s else r;
    LShift(doubled);
  }

  /** Where the main loop stands after i iterations. */
  ghost predicate LoopInv(st: State, x: int, p: int, finished: bool, i: nat)
  {
    if x == 0 then !finished && st == State(p, 0, 0, 1, i)
    else if finished then Finished(st.s, st.k, x, p)
    else st.k == i && Inv(st, x, p)
  }

  /** s is the almost-inverse: x * s = 2^k modulo p, fully reduced. */
  ghost predicate Finished(s: int, k: nat, x: int, p: int)
  {
    p > 1 && 0 <= s < p && k < 512 && Cong(x * s, Two(k), p)
  }

  lemma FinishNow(st: State, x: int, p: int)
    requires Inv(st, x, p) && st.v == 1 && p <= TWO256
    ensures Finished(st.s, st.k, x, p)
  {
    Small(st, x, p);
    EndsInTime(st, x, p);
  }

  lemma IterationRoom(st: State, x: int, p: int, finished: bool, i: nat)
    requires LoopInv(st, x, p, finished, i) && 0 <= x < p < TWO256
    ensures !finished ==> 0 <= st.r && 0 <= st.s && st.r + st.s < TWO256 + TWO256
  {
    if x > 0 && !finished {
      Small(st, x, p);
    }
  }

  /** One turn of the loop on the values, before the counter moves on. */
  lemma TurnKeeps(st: State, st': State, x: int, p: int, finished: bool, i: nat, a: int, b: int)
    returns (a': int, b': int)
    requires LoopInv(st, x, p, finished, i) && 0 <= x < p < TWO256 && p > 1 && p % 2 == 1
    requires !finished && x > 0 ==> Pair(st, a, b)
    requires !finished ==> st.v != 1 && st' == Step(st)
    requires finished ==> st'.s == st.s && st'.k == st.k
    ensures LoopInv(st', x, p, finished, i + 1)
    ensures !finished && x > 0 ==> Pair(st', a', b')
  {
    a', b' := a, b;
    if !finished && x > 0 {
      a', b' := StepKeeps(st, x, p, a, b);
    }
  }

  /** The 522 iterations of bn_inverse_fast. */
  method AlmostInverseLoop(u: array<int>, v: array<int>, r: array<int>, s: array<int>, zero: array<int>,
                           ghost x: int, ghost p: int, ghost a0: int, ghost b0: int) returns (k: nat)
    requires FourNumbers(u, v, r, s, zero) && StateOf(u, v, r, s, 0) == State(p, x, 0, 1, 0)
    requires 1 < p < TWO256 && p % 2 == 1 && 0 <= x < p
    requires x > 0 ==> a0 * p + b0 * x == 1
    modifies u, v, r, s
    ensures Norm(s[..]) && Norm(r[..]) && Val(s[..]) < p && k <= 522
    ensures x > 0 ==> Finished(Val(s[..]), k, x, p)
  {
    k := 0;
    var finished := false;
    var i := 0;
    ghost var a, b := a0, b0;
    if x > 0 {
      InitInv(x, p);
    }
    while i < 522
      invariant 0 <= i <= 522 && k <= i
      invariant FourNumbers(u, v, r, s, zero)
      invariant LoopInv(StateOf(u, v, r, s, k), x, p, finished, i)
      invariant !finished && x > 0 ==> Pair(StateOf(u, v, r, s, k), a, b)
    {
      ghost var st := StateOf(u, v, r, s, k);
      var one := IsOne(v);
      if one && !finished {
        FinishNow(st, x, p);
      }
      finished := finished || one;
      IterationRoom(st, x, p, finished, i);
      Iterate(u, v, r, s, zero, finished, k);
      if !finished {
        k := k + 1;
      }
      a, b := TurnKeeps(st, StateOf(u, v, r, s, k), x, p, finished, i, a, b);
      i := i + 1;
    }
    LoopEnd(StateOf(u, v, r, s, k), x, p, finished);
  }

  lemma LoopEnd(st: State, x: int, p: int, finished: bool)
    requires LoopInv(st, x, p, finished, 522) && 0 <= x < p < TWO256 && p > 1
    ensures st.s < p && (x > 0 ==> Finished(st.s, st.k, x, p))
  {
    if x > 0 && !finished {
      EndsInTime(st, x, p);
    }
  }

  /** s has lost a factor 2^t modulo p. */
  ghost predicate Divided(s: int, t: nat, s0: int, p: int)
    requires p > 0
  {
    0 <= s < p && Cong(s * Two(t), s0, p)
  }

  lemma Regroup(a: int, b: int, c: int)
    ensures a * (b * c) == c * (a * b)
  {
  }

  lemma DividedMore(s: int, t: nat, s': int, n: nat, s0: int, p: int)
    requires p > 0 && Divided(s, t, s0, p) && Cong(Two(n) * s', s, p) && 0 <= s' < p
    ensures Divided(s', t + n, s0, p)
  {
    CongScale(Two(t), Two(n) * s', s, p);
    TwoAdd(t, n);
    Regroup(Two(t), Two(n), s');
    CongTrans(s' * Two(t + n), s * Two(t), s0, p);
  }

  /** One pass of the first closing loop: s is divided by 2^29 if cond. */
  method DivideIf(s: array<int>, r: array<int>, prime: array<int>, cond: bool)
    requires Norm(s[..]) && Sized(r) && Norm(prime[..]) && s != r && s != prime && r != prime
    requires Val(prime[..]) % 2 == 1 && 0 <= Val(s[..]) < Val(prime[..])
    modifies s, r
    ensures Norm(s[..]) && 0 <= Val(s[..]) < Val(prime[..])
    ensures !cond ==> Val(s[..]) == old(Val(s[..]))
    ensures cond ==> Cong(Two(29) * Val(s[..]), old(Val(s[..])), Val(prime[..]))
  {
    hide Val, P, Two, Cong;
    Cmov(r, true, s, s);
    DivideBase(r, prime);
    ValBounds(r[..]);
    TwoLiterals();
    MulEq(Val(r[..]), BASE, Two(29));
    Cmov(s, cond, r, s);
  }

  /** The first closing loop: division by 2^29, k / 29 times out of 18 passes. */
  method DivideWhole(s: array<int>, r: array<int>, prime: array<int>, k: nat)
    requires Norm(s[..]) && Sized(r) && Norm(prime[..]) && s != r && s != prime && r != prime
    requires Val(prime[..]) % 2 == 1 && 0 <= Val(s[..]) < Val(prime[..]) && k <= 522
    modifies s, r
    ensures Norm(s[..]) && 0 <= Val(s[..]) < Val(prime[..])
    ensures Divided(Val(s[..]), 29 * (k / 29), old(Val(s[..])), Val(prime[..]))
  {
    ghost var s0, p := Val(s[..]), Val(prime[..]);
    CongIntro(s0 * Two(0), s0, 0, p);
    hide Val, P, Two, Cong, Divided;
    ghost var t: nat := 0;
    var i := 0;
    while i < 18
      invariant 0 <= i <= 18 && t == 29 * Min(i, k / 29)
      invariant Norm(s[..]) && 0 <= Val(s[..]) < p && Divided(Val(s[..]), t, s0, p)
    {
      ghost var v := Val(s[..]);
      DivideIf(s, r, prime, i < k / 29);
      if i < k / 29 {
        DividedMore(v, t, Val(s[..]), 29, s0, p);
        t := t + 29;
      }
      i := i + 1;
    }
  }

  lemma HalfCong(v: int, v': int, p: int)
    requires p > 0 && 0 <= v < p && 2 * v' == v + (if v % 2 == 1 then p else 0)
    ensures 0 <= v' < p && Cong(Two(1) * v', v, p)
  {
    assert Two(1) == 2;
    CongIntro(2 * v', v, if v % 2 == 1 then 1 else 0, p);
  }

  /** The second closing loop: halving, k % 29 times out of 29 passes. */
  method DivideRest(s: array<int>, r: array<int>, prime: array<int>, k: nat)
    requires Norm(s[..]) && Sized(r) && Norm(prime[..]) && s != r && s != prime && r != prime
    requires Val(prime[..]) % 2 == 1 && 0 <= Val(s[..]) < Val(prime[..]) < TWO256
    modifies s, r
    ensures Norm(s[..]) && 0 <= Val(s[..]) < Val(prime[..])
    ensures Divided(Val(s[..]), k % 29, old(Val(s[..])), Val(prime[..]))
  {
    ghost var s0, p := Val(s[..]), Val(prime[..]);
    CongIntro(s0 * Two(0), s0, 0, p);
    hide Val, P, Two, Cong, Divided;
    var i := 0;
    while i < 29
      invariant 0 <= i <= 29
      invariant Norm(s[..]) && 0 <= Val(s[..]) < p && Divided(Val(s[..]), Min(i, k % 29), s0, p)
    {
      Cmov(r, true, s, s);
      ghost var v := Val(s[..]);
      MultHalf(r, prime);
      HalfCong(v, Val(r[..]), p);
      if i < k % 29 {
        DividedMore(v, i, Val(r[..]), 1, s0, p);
      }
      Cmov(s, i < k % 29, r, s);
      i := i + 1;
    }
  }

  lemma DividedTwice(s: int, t: nat, s1: int, n: nat, s0: int, p: int)
    requires p > 0 && Divided(s, t, s1, p) && Divided(s1, n, s0, p)
    ensures Divided(s, t + n, s0, p)
  {
    CongScale(Two(n), s * Two(t), s1, p);
    TwoAdd(t, n);
    Regroup(Two(n), Two(t), s);
    assert s * Two(t) == Two(t) * s && Two(n) * Two(t) == Two(t) * Two(n);
    CongTrans(s * Two(t + n), s1 * Two(n), s0, p);
  }

  /** bn_inverse_fast: the inverse of x modulo an odd prime number, or 0 for 0. */
  method InverseFast(x: array<int>, prime: array<int>)
    requires Norm(x[..]) && Norm(prime[..]) && x != prime
    requires PrimeRange(Val(prime[..])) && Val(prime[..]) % 2 == 1
    requires Val(x[..]) % Val(prime[..]) == 0 || Coprime(Val(x[..]), Val(prime[..])) || IsPrime(Val(prime[..]))
    modifies x
    ensures Norm(x[..]) && 0 <= Val(x[..]) < Val(prime[..])
    ensures old(Val(x[..])) % Val(prime[..]) == 0 ==> Val(x[..]) == 0
    ensures old(Val(x[..])) % Val(prime[..]) != 0 ==> (old(Val(x[..])) * Val(x[..])) % Val(prime[..]) == 1
  {
    hide Val, P, Cong, Coprime, IsPrime;
    ghost var x0, p := Val(x[..]), Val(prime[..]);
    if x0 % p != 0 && IsPrime(p) { PrimeCoprime(p, x0); }
    ValBounds(x[..]);
    FastMod(x, prime);
    Mod(x, prime);
    ghost var xr := Val(x[..]);
    ghost var a, b := 0, 0;
    if xr > 0 {
      a, b := PairFor(x0, xr, p);
    }
    var s := ReducedInverse(x, prime, a, b);
    var isZero := IsZero(x);
    if xr > 0 {
      InverseOfOriginal(x0, xr, Val(s[..]), p);
    }
    Cmov(x, isZero, x, s);
  }

  /** The inversion proper, for a fully reduced x. */
  method ReducedInverse(x: array<int>, prime: array<int>, ghost a: int, ghost b: int) returns (s: array<int>)
    requires Norm(x[..]) && Norm(prime[..])
    requires 1 < Val(prime[..]) < TWO256 && Val(prime[..]) % 2 == 1 && 0 <= Val(x[..]) < Val(prime[..])
    requires Val(x[..]) > 0 ==> a * Val(prime[..]) + b * Val(x[..]) == 1
    ensures fresh(s) && Norm(s[..]) && 0 <= Val(s[..]) < Val(prime[..])
    ensures Val(x[..]) > 0 ==> Cong(Val(x[..]) * Val(s[..]), 1, Val(prime[..]))
  {
    hide Val, P, Cong, Two;
    ghost var xr, p := Val(x[..]), Val(prime[..]);
    var u, v, r, zero := new int[9], new int[9], new int[9], new int[9];
    s := new int[9];
    Cmov(u, true, prime, prime);
    Cmov(v, true, x, x);
    SetSmall(s, 1);
    SetSmall(r, 0);
    SetSmall(zero, 0);
    var k := AlmostInverseLoop(u, v, r, s, zero, xr, p, a, b);
    ghost var s0 := Val(s[..]);
    ValBounds(s[..]);
    DivideOut(s, r, prime, k);
    if xr > 0 {
      DividedOut(xr, s0, Val(s[..]), k, p);
    }
  }

  /** Both closing loops together remove exactly 2^k. */
  method DivideOut(s: array<int>, r: array<int>, prime: array<int>, k: nat)
    requires Norm(s[..]) && Sized(r) && Norm(prime[..]) && s != r && s != prime && r != prime
    requires Val(prime[..]) % 2 == 1 && 0 <= Val(s[..]) < Val(prime[..]) < TWO256 && k <= 522
    modifies s, r
    ensures Norm(s[..]) && Divided(Val(s[..]), k, old(Val(s[..])), Val(prime[..]))
  {
    ghost var s0 := Val(s[..]);
    DivideWhole(s, r, prime, k);
    ghost var s1 := Val(s[..]);
    DivideRest(s, r, prime, k);
    DividedTwice(Val(s[..]), k % 29, s1, 29 * (k / 29), s0, Val(prime[..]));
  }

  lemma PairFor(x0: int, xr: int, p: int) returns (a: int, b: int)
    requires p > 1 && 0 < xr < p && 0 <= x0 && xr == x0 % p && Coprime(x0, p)
    ensures a * p + b * xr == 1
  {
    var i, j := Bezout(x0, p);
    var q := x0 / p;
    assert x0 == q * p + xr;
    a, b := j + i * q, i;
    assert i * x0 == i * (q * p) + i * xr;
    assert i * (q * p) == (i * q) * p;
    Distrib(j, i * q, p);
  }

  lemma InverseOfOriginal(x0: int, xr: int, s: int, p: int)
    requires p > 1 && xr == x0 % p && Cong(xr * s, 1, p)
    ensures (x0 * s) % p == 1
  {
    CongMod(x0, p);
    CongScale(s, x0, xr, p);
    assert s * x0 == x0 * s && s * xr == xr * s;
    CongTrans(x0 * s, xr * s, 1, p);
    CongRemainder(x0 * s, 1, p);
    ModOfMultiple(1, 0, p);
  }
}
