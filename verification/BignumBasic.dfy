/** The limb loops of crypto/bignum.c that everything else is built from:
    comparison, addition, subtraction, shifts, selection and reduction. */
module BignumBasic {
  import opened Limbs

  predicate Sized(a: array<int>) { a.Length == LIMBS }

  /** The modulus range every reduction relies on. */
  predicate PrimeRange(p: int)
  {
    TWO256 - TWO224 <= p <= TWO256
  }

  // Lexicographic comparison from the top limb down.
  lemma CompareStep(x: seq<int>, y: seq<int>, i: nat)
    requires Digits(x) && Digits(y) && |x| == |y| && i < |x|
    ensures x[i] < y[i] && Val(x[i + 1..]) == Val(y[i + 1..]) ==> Val(x[i..]) < Val(y[i..])
    ensures x[i] == y[i] && Val(x[i + 1..]) == Val(y[i + 1..]) ==> Val(x[i..]) == Val(y[i..])
    ensures Val(x[i + 1..]) < Val(y[i + 1..]) ==> Val(x[i..]) < Val(y[i..])
  {
    ValSplit(x[i..], 1);
    ValSplit(y[i..], 1);
    assert x[i..][1..] == x[i + 1..] && y[i..][1..] == y[i + 1..];
    assert x[i..][..1] == [x[i]] && y[i..][..1] == [y[i]];
    assert Val([x[i]]) == x[i] && Val([y[i]]) == y[i] by {
      assert [x[i]][..0] == [] && [y[i]][..0] == [];
    }
    assert P(1) == BASE;
  }

  function Bit(b: bool): int { if b then 1 else 0 }

  /** The comparison bits collected so far order the same way as the limbs they came from. */
  ghost predicate Ordered(res1: int, res2: int, x: seq<int>, y: seq<int>)
  {
    && (res1 > res2 ==> Val(x) < Val(y))
    && (res1 < res2 ==> Val(x) > Val(y))
    && (res1 == res2 ==> Val(x) == Val(y))
  }

  lemma OrderedStart(x: seq<int>, y: seq<int>)
    requires x == y
    ensures Ordered(0, 0, x, y)
  {
  }

  lemma OrderedEnd(x: seq<int>, y: seq<int>)
    ensures forall a: int, b: int :: Ordered(a, b, x[0..], y[0..]) ==> (a > b <==> Val(x) < Val(y))
  {
    assert x[0..] == x && y[0..] == y;
  }

  lemma OrderedStep(x: seq<int>, y: seq<int>, i: nat, res1: int, res2: int)
    requires Norm(x) && Norm(y) && i < 9 && Ordered(res1, res2, x[i + 1..], y[i + 1..])
    ensures Ordered(2 * res1 + Bit(x[i] < y[i]), 2 * res2 + Bit(x[i] > y[i]), x[i..], y[i..])
  {
    CompareStep(x, y, i);
    CompareStep(y, x, i);
  }

  /** 2 to the power n, for the small exponents of the limb loops. */
  function Two(n: nat): (r: int)
    ensures r >= 1
  {
    if n == 0 then 1 else 2 * Two(n - 1)
  }

  /** bn_is_less: the two bit strings of per-limb comparisons, compared as numbers. */
  method IsLess(x: array<int>, y: array<int>) returns (less: bool)
    requires Norm(x[..]) && Norm(y[..])
    ensures less <==> Val(x[..]) < Val(y[..])
  {
    ghost var xs, ys := x[..], y[..];
    OrderedStart(xs[9..], ys[9..]);
    OrderedEnd(xs, ys);
    hide Val, P, W32, Ordered;
    var res1, res2 := 0, 0;
    var i := LIMBS;
    while i > 0
      invariant 0 <= i <= LIMBS
      invariant 0 <= res1 < Two(9 - i) <= 512 && 0 <= res2 < Two(9 - i)
      invariant Ordered(res1, res2, xs[i..], ys[i..])
    {
      i := i - 1;
      OrderedStep(xs, ys, i, res1, res2);
      TwoMono(9 - i, 9);
      res1 := W32(res1 * 2 + Bit(x[i] < y[i]));
      res2 := W32(res2 * 2 + Bit(x[i] > y[i]));
    }
    less := res1 > res2;
  }

  lemma {:induction false} TwoMono(m: nat, n: nat)
    requires m <= n
    ensures Two(m) <= Two(n)
    ensures n == 9 ==> Two(m) <= 512
  {
    if m < n {
      TwoMono(m, n - 1);
    }
    if n == 9 {
      assert Two(3) == 8;
      assert Two(6) == 64;
    }
  }

  /** A nine-limb chain computing x - m * y, given the final carry and the value it leaves. */
  lemma ChainResult(out: seq<int>, ts: seq<int>, K: int, xs: seq<int>, m: int, ys: seq<int>, top: int, v: int)
    requires |ts| == 9 && Terms(ts, K, xs, m, ys) && ChainOutput(out, ts, K)
    requires 0 <= v < P(9) && K * P(9) + Val(xs) - m * Val(ys) == top * P(9) + v
    ensures Norm(out) && Val(out) == v
  {
    ChainDigits(out, ts, K);
    hide Val, P, CarryAt, DigitAt, ChainOutput, Terms;
    ChainTotal(out, ts, K, xs, m, ys);
    ValBounds(out);
    CarryOut(Val(out), CarryAt(ts, K, 9), P(9), top, v);
  }

  /** bn_subtract; x, y and res may be the same array.  bn_mod also calls it
      with x < y and drops the result, so the wrapped value is stated too. */
  method Subtract(x: array<int>, y: array<int>, res: array<int>)
    requires Norm(x[..]) && Norm(y[..]) && Sized(res)
    modifies res
    ensures Norm(res[..])
    ensures old(Val(x[..]) >= Val(y[..])) ==> Val(res[..]) == old(Val(x[..]) - Val(y[..]))
    ensures old(Val(x[..]) < Val(y[..])) ==> Val(res[..]) == old(Val(x[..]) - Val(y[..])) + TWO261
  {
    hide Val, P, W32, CarryAt, DigitAt;
    ghost var xs, ys := x[..], y[..];
    ghost var ts := seq(9, i requires 0 <= i < 9 => 1 * (BASE - 1) + xs[i] - 1 * ys[i]);
    CarryStart(ts, 1);
    var acc := 1;
    var i := 0;
    while i < LIMBS
      invariant 0 <= i <= LIMBS
      invariant 0 <= acc <= 7
      invariant forall j :: i <= j < LIMBS ==> x[j] == xs[j] && y[j] == ys[j]
      invariant acc == CarryAt(ts, 1, i)
      invariant forall j :: 0 <= j < i ==> res[j] == DigitAt(ts, 1, j)
    {
      acc := W32(acc + (BASE - 1) + x[i] - y[i]);
      CarryNext(ts, 1, i, acc);
      res[i] := acc % BASE;
      acc := acc / BASE;
      i := i + 1;
    }
    SubtractResult(res[..], ts, xs, ys);
  }

  lemma SubtractResult(out: seq<int>, ts: seq<int>, xs: seq<int>, ys: seq<int>)
    requires Norm(xs) && Norm(ys) && Terms(ts, 1, xs, 1, ys) && ChainOutput(out, ts, 1)
    ensures Norm(out)
    ensures Val(out) == Val(xs) - Val(ys) + if Val(xs) >= Val(ys) then 0 else TWO261
  {
    ValBounds(xs); ValBounds(ys); PLiterals();
    hide Val, P;
    if Val(xs) >= Val(ys) {
      ChainResult(out, ts, 1, xs, 1, ys, 1, Val(xs) - Val(ys));
    } else {
      ChainResult(out, ts, 1, xs, 1, ys, 0, Val(xs) - Val(ys) + TWO261);
    }
  }

  /** bn_add; x and y may be the same array. */
  method Add(x: array<int>, y: array<int>)
    requires Norm(x[..]) && Norm(y[..])
    requires Val(x[..]) + Val(y[..]) < TWO261
    modifies x
    ensures Norm(x[..])
    ensures Val(x[..]) == old(Val(x[..])) + old(Val(y[..]))
  {
    hide Val, P, W32, CarryAt, DigitAt;
    ghost var xs, ys := x[..], y[..];
    ghost var ts := seq(9, i requires 0 <= i < 9 => 0 * (BASE - 1) + xs[i] - (-1) * ys[i]);
    CarryStart(ts, 0);
    var acc := 0;
    var i := 0;
    while i < LIMBS
      invariant 0 <= i <= LIMBS
      invariant 0 <= acc <= 7
      invariant forall j :: i <= j < LIMBS ==> x[j] == xs[j] && y[j] == ys[j]
      invariant acc == CarryAt(ts, 0, i)
      invariant forall j :: 0 <= j < i ==> x[j] == DigitAt(ts, 0, j)
    {
      acc := W32(acc + x[i] + y[i]);
      CarryNext(ts, 0, i, acc);
      x[i] := acc % BASE;
      acc := acc / BASE;
      i := i + 1;
    }
    AddResult(x[..], ts, xs, ys);
  }

  lemma AddResult(out: seq<int>, ts: seq<int>, xs: seq<int>, ys: seq<int>)
    requires Norm(xs) && Norm(ys) && Terms(ts, 0, xs, -1, ys) && ChainOutput(out, ts, 0)
    requires Val(xs) + Val(ys) < TWO261
    ensures Norm(out) && Val(out) == Val(xs) + Val(ys)
  {
    ValBounds(xs); ValBounds(ys); PLiterals();
    hide Val, P;
    ChainResult(out, ts, 0, xs, -1, ys, 0, Val(xs) + Val(ys));
  }

  const HALF_BASE: int := 0x1000_0000

  /** Doubling one limb, with the bit that leaves it. */
  lemma DoubledLimb(a: int, i: nat)
    requires 0 <= a < BASE
    ensures 0 <= (2 * a) % BASE <= BASE - 2
    ensures ((2 * a) % BASE) * P(i) + (a / HALF_BASE) * P(i + 1) == 2 * (a * P(i))
  {
    assert 2 * a == (2 * a) % BASE + (a / HALF_BASE) * BASE;
    Weigh(2 * a, (2 * a) % BASE, a / HALF_BASE, i);
  }

  lemma Weigh(t: int, lo: int, hi: int, i: nat)
    requires t == lo + hi * BASE
    ensures t * P(i) == lo * P(i) + hi * P(i + 1)
  {
    Distrib(lo, hi * BASE, P(i));
    assert (hi * BASE) * P(i) == hi * (BASE * P(i));
  }

  lemma {:induction false} ShiftLeftVal(xs: seq<int>, out: seq<int>, i: nat)
    requires Norm(xs) && |out| == 9 && 1 <= i <= 9
    requires out[0] == (2 * xs[0]) % BASE
    requires forall j :: 1 <= j < 9 ==> out[j] == (2 * xs[j]) % BASE + xs[j - 1] / HALF_BASE
    ensures Val(out[..i]) + (xs[i - 1] / HALF_BASE) * P(i) == 2 * Val(xs[..i])
  {
    var k := i - 1;
    ValStep(xs, k);
    ValStep(out, k);
    DoubledLimb(xs[k], k);
    if k == 0 {
      assert out[..0] == [] && xs[..0] == [];
    } else {
      ShiftLeftVal(xs, out, k);
      Distrib((2 * xs[k]) % BASE, xs[k - 1] / HALF_BASE, P(k));
    }
  }

  /** bn_lshift: doubles modulo 2^261, the top bit falling off. */
  method LShift(x: array<int>)
    requires Norm(x[..])
    modifies x
    ensures Norm(x[..])
    ensures Val(x[..]) == (2 * old(Val(x[..]))) % TWO261
  {
    ghost var xs := x[..];
    var i := LIMBS - 1;
    while i > 0
      invariant 0 <= i <= LIMBS - 1
      invariant forall j :: 0 <= j <= i ==> x[j] == xs[j]
      invariant forall j :: i < j < LIMBS ==> x[j] == (2 * xs[j]) % BASE + xs[j - 1] / HALF_BASE
    {
      x[i] := W32(2 * x[i]) % BASE + x[i - 1] / HALF_BASE;
      i := i - 1;
    }
    x[0] := W32(2 * x[0]) % BASE;
    LShiftResult(xs, x[..]);
  }

  lemma LShiftResult(xs: seq<int>, out: seq<int>)
    requires Norm(xs) && |out| == 9
    requires out[0] == (2 * xs[0]) % BASE
    requires forall j :: 1 <= j < 9 ==> out[j] == (2 * xs[j]) % BASE + xs[j - 1] / HALF_BASE
    ensures Norm(out) && Val(out) == (2 * Val(xs)) % TWO261
  {
    forall j | 0 <= j < 9 ensures 0 <= out[j] < BASE {
      DoubledLimb(xs[j], j);
      if j > 0 {
        assert 0 <= xs[j - 1] / HALF_BASE <= 1;
      }
    }
    hide Val, P;
    ShiftLeftVal(xs, out, 9);
    ValAll(xs); ValAll(out); ValBounds(out); PLiterals();
    MulEq(xs[8] / HALF_BASE, P(9), TWO261);
    ModOfMultiple(Val(out), xs[8] / HALF_BASE, TWO261);
  }

  /** Halving one limb, with the bit that enters it. */
  lemma HalvedLimb(a: int, up: int, i: nat)
    ensures 2 * ((a / 2 + up * HALF_BASE) * P(i)) + (a % 2) * P(i) == a * P(i) + up * P(i + 1)
  {
    var o := a / 2 + up * HALF_BASE;
    assert 2 * o + a % 2 == a + up * BASE;
    Weigh(2 * o + a % 2, a, up, i);
    Distrib(2 * o, a % 2, P(i));
    assert (2 * o) * P(i) == 2 * (o * P(i));
  }

  lemma {:induction false} ShiftRightVal(xs: seq<int>, out: seq<int>, i: nat)
    requires Norm(xs) && |out| == 9 && i <= 8
    requires forall j :: 0 <= j < 8 ==> out[j] == xs[j] / 2 + (xs[j + 1] % 2) * HALF_BASE
    ensures 2 * Val(out[..i]) + xs[0] % 2 == Val(xs[..i]) + (xs[i] % 2) * P(i)
  {
    if i == 0 {
      assert out[..0] == [] && xs[..0] == [];
    } else {
      var k := i - 1;
      ShiftRightVal(xs, out, k);
      ValStep(xs, k);
      ValStep(out, k);
      HalvedLimb(xs[k], xs[k + 1] % 2, k);
    }
  }

  lemma RShiftResult(xs: seq<int>, out: seq<int>)
    requires Norm(xs) && |out| == 9
    requires forall j :: 0 <= j < 8 ==> out[j] == xs[j] / 2 + (xs[j + 1] % 2) * HALF_BASE
    requires out[8] == xs[8] / 2
    ensures Norm(out) && Val(out) == Val(xs) / 2
  {
    forall j | 0 <= j < 9 ensures 0 <= out[j] < BASE {
      HalvedRange(xs[j], if j < 8 then xs[j + 1] % 2 else 0);
    }
    assert 2 * Val(out) + xs[0] % 2 == Val(xs) by {
      ShiftRightVal(xs, out, 8);
      ValStep(xs, 8); ValStep(out, 8);
      ValAll(xs); ValAll(out);
      HalvedTop(xs[8], P(8));
    }
    HalfOf(Val(out), xs[0] % 2, Val(xs));
  }

  lemma HalvedTop(a: int, p: int)
    ensures 2 * ((a / 2) * p) + (a % 2) * p == a * p
  {
    assert a == 2 * (a / 2) + a % 2;
    Distrib(2 * (a / 2), a % 2, p);
  }

  lemma HalvedRange(a: int, up: int)
    requires 0 <= a < BASE && 0 <= up <= 1
    ensures 0 <= a / 2 + up * HALF_BASE < BASE
  {
  }

  lemma HalfOf(h: int, b: int, v: int)
    requires 0 <= b <= 1 && 2 * h + b == v
    ensures h == v / 2
  {
  }

  /** bn_rshift: halves, rounding down. */
  method RShift(x: array<int>)
    requires Norm(x[..])
    modifies x
    ensures Norm(x[..])
    ensures Val(x[..]) == old(Val(x[..])) / 2
  {
    ghost var xs := x[..];
    var i := 0;
    while i < LIMBS - 1
      invariant 0 <= i <= LIMBS - 1
      invariant forall j :: i <= j < LIMBS ==> x[j] == xs[j]
      invariant forall j :: 0 <= j < i ==> x[j] == xs[j] / 2 + (xs[j + 1] % 2) * HALF_BASE
    {
      x[i] := x[i] / 2 + (x[i + 1] % 2) * HALF_BASE;
      i := i + 1;
    }
    x[8] := x[8] / 2;
    RShiftResult(xs, x[..]);
  }

  lemma EvenAddend(x: int, m: int)
    ensures (x + 2 * m) % 2 == x % 2
  {
  }

  lemma ParityIsFirstLimb(xs: seq<int>)
    requires Norm(xs)
    ensures Val(xs) % 2 == xs[0] % 2
  {
    hide Val;
    FirstLimb(xs);
    EvenAddend(xs[0], HALF_BASE * Val(xs[1..]));
  }

  lemma FirstLimb(xs: seq<int>)
    requires |xs| >= 1
    ensures Val(xs) == xs[0] + BASE * Val(xs[1..])
  {
    ValSplit(xs, 1);
    assert xs[..1] == [xs[0]] && [xs[0]][..0] == [];
    assert Val(xs[..1]) == xs[0] * P(0);
    assert P(1) == BASE;
  }

  /** bn_is_even */
  method IsEven(x: array<int>) returns (even: bool)
    requires Norm(x[..])
    ensures even <==> Val(x[..]) % 2 == 0
  {
    ParityIsFirstLimb(x[..]);
    even := x[0] % 2 == 0;
  }

  /** bn_is_zero; the OR of the limbs is zero exactly when each of them is. */
  method IsZero(x: array<int>) returns (zero: bool)
    requires Norm(x[..])
    ensures zero <==> Val(x[..]) == 0
  {
    zero := true;
    var i := 0;
    while i < LIMBS
      invariant 0 <= i <= LIMBS
      invariant zero <==> Val(x[..i]) == 0
    {
      ValStep(x[..], i);
      assert x[..][..i] == x[..i] && x[..][..i + 1] == x[..i + 1];
      ValBounds(x[..i]);
      MulMono(if x[i] == 0 then 0 else 1, x[i], P(i));
      zero := zero && x[i] == 0;
      i := i + 1;
    }
    assert x[..9] == x[..];
  }

  /** bn_is_one */
  method IsOne(x: array<int>) returns (one: bool)
    requires Norm(x[..])
    ensures one <==> Val(x[..]) == 1
  {
    one := x[0] == 1;
    var i := 1;
    assert x[..1][..0] == [];
    while i < LIMBS
      invariant 1 <= i <= LIMBS
      invariant one <==> Val(x[..i]) == 1
    {
      ValStep(x[..], i);
      assert x[..][..i] == x[..i] && x[..][..i + 1] == x[..i + 1];
      ValBounds(x[..i]);
      MulMono(if x[i] == 0 then 0 else 1, x[i], P(i));
      PMono(1, i);
      one := one && x[i] == 0;
      i := i + 1;
    }
    assert x[..9] == x[..];
  }

  /** bn_cmov; any of the three arrays may coincide. */
  method Cmov(res: array<int>, cond: bool, truecase: array<int>, falsecase: array<int>)
    requires Sized(res) && Sized(truecase) && Sized(falsecase)
    modifies res
    ensures res[..] == if cond then old(truecase[..]) else old(falsecase[..])
  {
    var i := 0;
    while i < LIMBS
      invariant 0 <= i <= LIMBS
      invariant forall j :: i <= j < LIMBS ==> truecase[j] == old(truecase[j]) && falsecase[j] == old(falsecase[j])
      invariant forall j :: 0 <= j < i ==> res[j] == if cond then old(truecase[j]) else old(falsecase[j])
    {
      res[i] := if cond then truecase[i] else falsecase[i];
      i := i + 1;
    }
  }

  /** bn_mod: a partly reduced number becomes fully reduced. */
  method Mod(x: array<int>, prime: array<int>)
    requires Norm(x[..]) && Norm(prime[..]) && x != prime
    requires 0 < Val(prime[..]) && Val(x[..]) < 2 * Val(prime[..])
    modifies x
    ensures Norm(x[..])
    ensures Val(x[..]) == old(Val(x[..])) % Val(prime[..])
    ensures Val(x[..]) < Val(prime[..])
  {
    ghost var v, p := Val(x[..]), Val(prime[..]);
    ValBounds(x[..]); ValBounds(prime[..]);
    var less := IsLess(x, prime);
    var temp := new int[LIMBS];
    Subtract(x, prime, temp);
    Cmov(x, less, x, temp);
    OneReduction(v, p);
  }

  lemma OneReduction(v: int, p: int)
    requires 0 <= v < 2 * p
    ensures v % p == if v < p then v else v - p
  {
    if v >= p {
      ModOfMultiple(v - p, 1, p);
    }
  }

  lemma ModOfMultiple(r: int, q: int, p: int)
    requires 0 <= r < p
    ensures (r + q * p) % p == r
  {
    var x := r + q * p;
    assert x == (x / p) * p + x % p;
    Distrib(x / p, -q, p);
    SmallMultiple(x / p - q, p, r - x % p);
  }
}
