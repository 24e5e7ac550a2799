/** Partial reduction and modular multiplication of crypto/bignum.c. */
module BignumMultiply {
  import opened Limbs
  import opened BignumBasic

  const TWO24: int := 0x100_0000
  const TWO31: int := 0x8000_0000
  const TWO35: int := 0x8_0000_0000
  const TWO58: int := 0x400_0000_0000_0000
  const TWO259: int := 8 * TWO256
  const TWO287: int := TWO31 * TWO256
  const TWO519: int := TWO287 * TWO232

  // ---------------------------------------------------------------- reduction

  /** The accumulator of a reduction step neither overflows nor goes negative. */
  lemma ReduceRange(K: int, acc: int, x: int, p: int, coef: int)
    requires 1 <= K <= TWO31 && 0 <= acc < TWO35 && 0 <= x < TWO32
    requires 0 <= p < BASE && 0 <= coef < K
    ensures 0 <= p * coef <= (BASE - 1) * K
    ensures 0 <= acc + (BASE - 1) * K + x - p * coef < TWO64
  {
    MulMono(p, BASE - 1, coef);
    MulMono(0, p, coef);
    MulMono(coef, K, BASE - 1);
  }

  /** Both reductions: subtracting floor(v / 2^256) times the modulus. */
  lemma PartlyReduced(v: int, coef: int, rem: int, p: int)
    requires PrimeRange(p) && 0 <= coef < TWO31
    requires v == rem + coef * TWO256 && 0 <= rem < TWO256 + 9 * TWO232
    requires rem < TWO256 || coef < 256
    ensures 0 <= v - coef * p < 2 * p
  {
    var gap := TWO256 - p;
    assert v - coef * p == rem + coef * gap;
    MulMono(0, coef, gap);
    MulMono(coef, if coef < 256 then 256 else TWO31, gap);
  }

  lemma SubtractMultiple(v: int, q: int, p: int)
    requires p > 0
    ensures (v - q * p) % p == v % p
  {
    var r := v % p;
    assert v == (v / p) * p + r;
    Distrib(v / p, -q, p);
    ModOfMultiple(r, v / p - q, p);
    assert v - q * p == r + (v / p - q) * p;
  }

  lemma {:induction false} WordsBound(s: seq<int>)
    requires forall i :: 0 <= i < |s| ==> 0 <= s[i] < TWO32
    ensures 0 <= Val(s) <= 9 * P(|s|) - 9
  {
    if s != [] {
      var n := |s| - 1;
      WordsBound(s[..n]);
      MulMono(0, s[n], P(n));
      MulMono(s[n], 8 * BASE - 1, P(n));
      assert (8 * BASE - 1) * P(n) == 8 * (BASE * P(n)) - P(n);
    }
  }

  lemma FastModBound(xs: seq<int>, p: int)
    requires |xs| == 9 && forall i :: 0 <= i < 9 ==> 0 <= xs[i] < TWO32
    requires PrimeRange(p)
    ensures 0 <= Val(xs) - (xs[8] / TWO24) * p < 2 * p
  {
    var coef, t := xs[8] / TWO24, xs[8] % TWO24;
    ValStep(xs, 8);
    ValAll(xs);
    WordsBound(xs[..8]);
    PLiterals();
    var rem := Val(xs[..8]) + t * TWO232;
    assert xs[8] == coef * TWO24 + t;
    assert Val(xs) == rem + coef * TWO256;
    PartlyReduced(Val(xs), coef, rem, p);
  }

  /** bn_fast_mod, for limbs that are any 32-bit words: bn_addmod and bn_mult_k
      call it that way although its comment asks for normalised low limbs. */
  method FastMod(x: array<int>, prime: array<int>)
    requires Sized(x) && x != prime && Norm(prime[..]) && PrimeRange(Val(prime[..]))
    requires forall i :: 0 <= i < LIMBS ==> 0 <= x[i] < TWO32
    modifies x
    ensures Norm(x[..])
    ensures 0 <= Val(x[..]) < 2 * Val(prime[..])
    ensures Val(x[..]) % Val(prime[..]) == old(Val(x[..])) % Val(prime[..])
  {
    ghost var xs, ps := x[..], prime[..];
    var coef := x[8] / TWO24;
    ghost var ts := FastModLimbs(x, prime, coef);
    FastModResult(x[..], ts, xs, ps);
  }

  /** The limb loop of bn_fast_mod. */
  method FastModLimbs(x: array<int>, prime: array<int>, coef: int) returns (ghost ts: seq<int>)
    requires Sized(x) && x != prime && Norm(prime[..]) && 0 <= coef < 256
    requires forall i :: 0 <= i < LIMBS ==> 0 <= x[i] < TWO32
    modifies x
    ensures Terms(ts, 256, old(x[..]), coef, prime[..]) && ChainOutput(x[..], ts, 256)
  {
    hide Val, P, W64, CarryAt, DigitAt;
    ghost var xs, ps := x[..], prime[..];
    ts := seq(9, i requires 0 <= i < 9 => 256 * (BASE - 1) + xs[i] - coef * ps[i]);
    CarryStart(ts, 256);
    var acc := 256;
    var i := 0;
    while i < LIMBS
      invariant 0 <= i <= LIMBS
      invariant 0 <= acc < TWO35
      invariant forall j :: i <= j < LIMBS ==> x[j] == xs[j]
      invariant acc == CarryAt(ts, 256, i)
      invariant forall j :: 0 <= j < i ==> x[j] == DigitAt(ts, 256, j)
    {
      ReduceRange(256, acc, x[i], prime[i], coef);
      assert ts[i] == (BASE - 1) * 256 + x[i] - prime[i] * coef;
      acc := W64(acc + (BASE - 1) * 256 + x[i] - prime[i] * coef);
      CarryNext(ts, 256, i, acc);
      x[i] := acc % BASE;
      acc := acc / BASE;
      i := i + 1;
    }
  }

  lemma FastModResult(out: seq<int>, ts: seq<int>, xs: seq<int>, ps: seq<int>)
    requires |xs| == 9 && Norm(ps) && PrimeRange(Val(ps))
    requires forall i :: 0 <= i < 9 ==> 0 <= xs[i] < TWO32
    requires Terms(ts, 256, xs, xs[8] / TWO24, ps) && ChainOutput(out, ts, 256)
    ensures Norm(out) && 0 <= Val(out) < 2 * Val(ps)
    ensures Val(out) % Val(ps) == Val(xs) % Val(ps)
  {
    var coef, p := xs[8] / TWO24, Val(ps);
    PLiterals();
    hide Val, P;
    FastModBound(xs, p);
    ChainResult(out, ts, 256, xs, coef, ps, 256, Val(xs) - coef * p);
    SubtractMultiple(Val(xs), coef, p);
  }

  /** bn_addmod */
  method AddMod(x: array<int>, y: array<int>, prime: array<int>)
    requires Norm(x[..]) && Norm(y[..]) && Norm(prime[..]) && x != prime
    requires PrimeRange(Val(prime[..]))
    modifies x
    ensures Norm(x[..]) && 0 <= Val(x[..]) < 2 * Val(prime[..])
    ensures Val(x[..]) % Val(prime[..]) == (old(Val(x[..])) + old(Val(y[..]))) % Val(prime[..])
  {
    ghost var xs, ys := x[..], y[..];
    var i := 0;
    while i < LIMBS
      invariant 0 <= i <= LIMBS
      invariant forall j :: i <= j < LIMBS ==> x[j] == xs[j] && y[j] == ys[j]
      invariant forall j :: 0 <= j < i ==> x[j] == xs[j] + ys[j]
    {
      x[i] := W32(x[i] + y[i]);
      i := i + 1;
    }
    hide Val, P;
    LimbwiseSum(x[..], xs, ys);
    FastMod(x, prime);
  }

  lemma LimbwiseSum(out: seq<int>, xs: seq<int>, ys: seq<int>)
    requires |out| == |xs| == |ys| && forall j :: 0 <= j < |out| ==> out[j] == xs[j] + ys[j]
    ensures Val(out) == Val(xs) + Val(ys)
  {
    TermsVal(out, 0, xs, -1, ys, |out|);
    ValAll(out); ValAll(xs); ValAll(ys);
  }

  /** bn_mult_k */
  method MultK(x: array<int>, k: int, prime: array<int>)
    requires Norm(x[..]) && Norm(prime[..]) && x != prime && 0 <= k <= 8
    requires PrimeRange(Val(prime[..]))
    modifies x
    ensures Norm(x[..]) && 0 <= Val(x[..]) < 2 * Val(prime[..])
    ensures Val(x[..]) % Val(prime[..]) == (k * old(Val(x[..]))) % Val(prime[..])
  {
    ghost var xs := x[..];
    var i := 0;
    while i < LIMBS
      invariant 0 <= i <= LIMBS
      invariant forall j :: i <= j < LIMBS ==> x[j] == xs[j]
      invariant forall j :: 0 <= j < i ==> x[j] == k * xs[j] && 0 <= x[j] < TWO32
    {
      MulMono(k, 8, xs[i]); MulMono(0, k, xs[i]);
      x[i] := W32(k * x[i]);
      i := i + 1;
    }
    LimbwiseMultiple(x[..], k, xs);
    FastMod(x, prime);
  }

  lemma {:induction false} LimbwiseMultiple(out: seq<int>, k: int, xs: seq<int>)
    requires |out| == |xs| && forall j :: 0 <= j < |out| ==> out[j] == k * xs[j]
    ensures Val(out) == k * Val(xs)
  {
    if out != [] {
      var n := |out| - 1;
      LimbwiseMultiple(out[..n], k, xs[..n]);
      assert (k * xs[n]) * P(n) == k * (xs[n] * P(n));
    }
  }

  // ------------------------------------------------------ long multiplication

  /** The part of column i of the product that uses the first n limbs of k. */
  ghost function Column(k: seq<int>, x: seq<int>, i: nat, n: nat): int
    requires n <= |k|
  {
    if n == 0 then 0 else Column(k, x, i, n - 1) + Cell(k[n - 1], x, n - 1, i)
  }

  ghost function Cell(a: int, x: seq<int>, j: nat, i: nat): int
  {
    if j <= i < j + |x| then a * x[i - j] else 0
  }

  /** The first m columns, weighted. */
  ghost function Columns(k: seq<int>, x: seq<int>, n: nat, m: nat): int
    requires n <= |k|
  {
    if m == 0 then 0 else Columns(k, x, n, m - 1) + Column(k, x, m - 1, n) * P(m - 1)
  }

  /** One row of the schoolbook scheme, cut off after m columns. */
  ghost function Row(a: int, x: seq<int>, j: nat, m: nat): int
  {
    if m == 0 then 0 else Row(a, x, j, m - 1) + Cell(a, x, j, m - 1) * P(m - 1)
  }

  lemma {:induction false} RowVal(a: int, x: seq<int>, j: nat, m: nat)
    ensures m <= j ==> Row(a, x, j, m) == 0
    ensures j <= m <= j + |x| ==> Row(a, x, j, m) == (a * P(j)) * Val(x[..m - j])
    ensures j + |x| <= m ==> Row(a, x, j, m) == (a * P(j)) * Val(x)
  {
    ValAll(x);
    if m == 0 {
      assert x[..0] == [];
    } else {
      RowVal(a, x, j, m - 1);
      if m <= j {
        assert x[..0] == [];
      } else if m <= j + |x| {
        var i := m - 1 - j;
        ValStep(x, i);
        PAdd(j, i);
        RowTerm(a, x[i], P(j), P(i), Val(x[..i]));
        assert x[..0] == [];
      }
    }
  }

  lemma RowTerm(a: int, b: int, p: int, q: int, v: int)
    ensures (a * p) * v + (a * b) * (p * q) == (a * p) * (v + b * q)
  {
    assert (a * b) * (p * q) == (a * p) * (b * q);
    Distrib(v, b * q, a * p);
  }

  lemma {:induction false} ColumnsAddRow(k: seq<int>, x: seq<int>, n: nat, m: nat)
    requires n < |k|
    ensures Columns(k, x, n + 1, m) == Columns(k, x, n, m) + Row(k[n], x, n, m)
  {
    if m > 0 {
      ColumnsAddRow(k, x, n, m - 1);
      Distrib(Column(k, x, m - 1, n), Cell(k[n], x, n, m - 1), P(m - 1));
    }
  }

  lemma {:induction false} NoColumns(k: seq<int>, x: seq<int>, m: nat)
    ensures Columns(k, x, 0, m) == 0
  {
    if m > 0 {
      NoColumns(k, x, m - 1);
    }
  }

  /** Summing by columns gives the product. */
  lemma {:induction false} ColumnsAreProduct(k: seq<int>, x: seq<int>, n: nat, m: nat)
    requires n <= |k| && |x| >= 1 && n + |x| <= m + 1
    ensures Columns(k, x, n, m) == Val(k[..n]) * Val(x)
  {
    if n == 0 {
      NoColumns(k, x, m);
      assert k[..0] == [];
    } else {
      hide Val, P, Columns, Row;
      ColumnsAreProduct(k, x, n - 1, m);
      ColumnsAddRow(k, x, n - 1, m);
      RowVal(k[n - 1], x, n - 1, m);
      ValStep(k, n - 1);
      MulEq(Val(x), Val(k[..n]), Val(k[..n - 1]) + k[n - 1] * P(n - 1));
      Distrib(Val(k[..n - 1]), k[n - 1] * P(n - 1), Val(x));
    }
  }

  /** Cells left of the diagonal band are empty. */
  lemma {:induction false} ColumnHead(k: seq<int>, x: seq<int>, i: nat, n: nat)
    requires n <= |k| && n + |x| <= i + 1
    ensures Column(k, x, i, n) == 0
  {
    if n > 0 {
      ColumnHead(k, x, i, n - 1);
    }
  }

  /** Cells right of the diagonal band are empty. */
  lemma {:induction false} ColumnTail(k: seq<int>, x: seq<int>, i: nat, n: nat)
    requires i < n <= |k|
    ensures Column(k, x, i, n) == Column(k, x, i, i + 1)
  {
    if n > i + 1 {
      ColumnTail(k, x, i, n - 1);
    }
  }

  lemma CellBound(a: int, b: int)
    requires 0 <= a < BASE && 0 <= b < BASE
    ensures 0 <= a * b <= TWO58 - BASE
  {
    MulMono(a, BASE - 1, b);
    MulMono(0, a, b);
    MulMono(b, BASE - 1, BASE - 1);
  }

  /** The inner loop of bn_multiply_long for column i, without overflow. */
  method AddColumn(k: array<int>, x: array<int>, i: nat, acc0: int) returns (acc: int)
    requires Norm(k[..]) && Norm(x[..]) && i < 17 && 0 <= acc0 < TWO35
    ensures acc == acc0 + Column(k[..], x[..], i, 9) && 0 <= acc < TWO64
  {
    ghost var ks, xs := k[..], x[..];
    acc := acc0;
    var j := if i < LIMBS then 0 else i - LIMBS + 1;
    if i < LIMBS {
    } else {
      ColumnHead(ks, xs, i, j);
    }
    var end := if i < LIMBS then i + 1 else LIMBS;
    while j < end
      invariant 0 <= j <= end
      invariant i < LIMBS || i - LIMBS + 1 <= j
      invariant acc == acc0 + Column(ks, xs, i, j)
      invariant 0 <= acc < TWO35 + j * TWO58
    {
      CellBound(k[j], x[i - j]);
      acc := W64(acc + k[j] * x[i - j]);
      j := j + 1;
    }
    if i < LIMBS {
      ColumnTail(ks, xs, i, 9);
    }
  }

  /** bn_multiply_long */
  method MultiplyLong(k: array<int>, x: array<int>, res: array<int>)
    requires Norm(k[..]) && Norm(x[..]) && res.Length == 18 && res != k && res != x
    modifies res
    ensures Digits(res[..])
    ensures Val(res[..]) == Val(k[..]) * Val(x[..])
  {
    hide Val, P, CarryAt, DigitAt, Column, W32;
    ghost var ks, xs := k[..], x[..];
    ghost var ts := seq(17, i requires 0 <= i < 17 => Column(ks, xs, i, 9));
    CarryStart(ts, 0);
    var acc := 0;
    var i := 0;
    while i < 17
      invariant 0 <= i <= 17
      invariant 0 <= acc < TWO35
      invariant k[..] == ks && x[..] == xs
      invariant acc == CarryAt(ts, 0, i)
      invariant forall j :: 0 <= j < i ==> res[j] == DigitAt(ts, 0, j)
    {
      acc := AddColumn(k, x, i, acc);
      CarryNext(ts, 0, i, acc);
      res[i] := acc % BASE;
      acc := acc / BASE;
      i := i + 1;
    }
    ghost var out := res[..17];
    MultiplyLongResult(ks, xs, out, ts);
    res[17] := W32(acc);
    assert res[..] == out + [acc];
  }

  lemma {:induction false} ColumnsVal(ts: seq<int>, ks: seq<int>, xs: seq<int>, n: nat)
    requires |ks| == 9 && n <= |ts| && forall i :: 0 <= i < |ts| ==> ts[i] == Column(ks, xs, i, 9)
    ensures Val(ts[..n]) == Columns(ks, xs, 9, n)
  {
    if n > 0 {
      ColumnsVal(ts, ks, xs, n - 1);
      ValStep(ts, n - 1);
    }
  }

  lemma MultiplyLongResult(ks: seq<int>, xs: seq<int>, out: seq<int>, ts: seq<int>)
    requires Norm(ks) && Norm(xs) && |ts| == 17 && ChainOutput(out, ts, 0)
    requires forall i :: 0 <= i < 17 ==> ts[i] == Column(ks, xs, i, 9)
    requires 0 <= CarryAt(ts, 0, 17)
    ensures CarryAt(ts, 0, 17) < BASE
    ensures Digits(out) && Val(out + [CarryAt(ts, 0, 17)]) == Val(ks) * Val(xs)
  {
    LongTotal(ks, xs, out, ts);
    ChainDigits(out, ts, 0);
    ProductTopLimb(ks, xs, out, CarryAt(ts, 0, 17));
    ValPush(out, CarryAt(ts, 0, 17));
  }

  lemma LongTotal(ks: seq<int>, xs: seq<int>, out: seq<int>, ts: seq<int>)
    requires Norm(ks) && Norm(xs) && |ts| == 17 && ChainOutput(out, ts, 0)
    requires forall i :: 0 <= i < 17 ==> ts[i] == Column(ks, xs, i, 9)
    ensures Val(out) + CarryAt(ts, 0, 17) * P(17) == Val(ks) * Val(xs)
  {
    ChainVal(out, ts, 0, 17);
    ColumnsVal(ts, ks, xs, 17);
    ColumnsAreProduct(ks, xs, 9, 17);
    ValAll(ks); ValAll(out);
  }

  lemma ProductTopLimb(k: seq<int>, x: seq<int>, out: seq<int>, acc: int)
    requires Norm(k) && Norm(x) && |out| == 17 && Digits(out) && 0 <= acc
    requires Val(out) + acc * P(17) == Val(k) * Val(x)
    ensures acc < BASE
  {
    ValBounds(k); ValBounds(x); ValBounds(out);
    MulMono(Val(k), P(9), Val(x));
    MulMono(Val(x), P(9), P(9));
    PAdd(9, 9);
    assert Val(k) * Val(x) <= P(18);
    if acc >= BASE {
      MulMono(BASE, acc, P(17));
      StrictProduct(Val(k), Val(x), P(9));
    }
  }

  lemma StrictProduct(a: int, b: int, p: int)
    requires 0 <= a < p && 0 <= b < p
    ensures a * b < p * p
  {
    MulMono(a, p - 1, b);
    MulMono(b, p, p - 1);
    assert (p - 1) * p < p * p;
  }

  // -------------------------------------------------- reducing the long product

  lemma {:induction false} TrailingZeros(s: seq<int>, n: nat)
    requires n <= |s| && forall i :: n <= i < |s| ==> s[i] == 0
    ensures Val(s) == Val(s[..n])
  {
    if n == |s| {
      assert s[..n] == s;
    } else {
      TrailingZeros(s[..|s| - 1], n);
      assert s[..|s| - 1][..n] == s[..n];
    }
  }

  /** bn_one and bn_zero */
  method SetSmall(x: array<int>, d: int)
    requires Sized(x) && 0 <= d <= 1
    modifies x
    ensures Norm(x[..]) && Val(x[..]) == d
  {
    x[0] := d;
    var i := 1;
    while i < LIMBS
      invariant 1 <= i <= LIMBS
      invariant x[0] == d && forall j :: 1 <= j < i ==> x[j] == 0
    {
      x[i] := 0;
      i := i + 1;
    }
    TrailingZeros(x[..], 1);
    assert x[..][..1] == [d] && [d][..0] == [];
  }

  /** The ten limbs a step looks at: its quotient digit is floor(value / 2^256). */
  lemma SegmentQuotient(seg: seq<int>) returns (coef: int, rem: int)
    requires |seg| == 10 && Digits(seg)
    ensures coef == seg[8] / TWO24 + seg[9] * 32 && coef >= 0
    ensures Val(seg) == rem + coef * TWO256 && 0 <= rem < TWO256
  {
    hide Val, P;
    var t := seg[8] % TWO24;
    coef := seg[8] / TWO24 + seg[9] * 32;
    rem := Val(seg[..8]) + t * TWO232;
    ValStep(seg, 8); ValStep(seg, 9);
    ValAll(seg); ValBounds(seg[..8]);
    PLiterals();
    MulEq(seg[8], P(8), TWO232);
    MulEq(seg[9], P(9), TWO261);
    assert seg[8] == (seg[8] / TWO24) * TWO24 + t;
  }

  /** The limbs above the segment are zero, and the rest splits at limb d. */
  lemma SegmentOf(rs: seq<int>, d: nat)
    requires |rs| == 18 && Digits(rs) && d <= 8 && Val(rs) < TWO287 * P(d)
    ensures Val(rs) == Val(rs[..d]) + P(d) * Val(rs[d..d + 10])
    ensures 0 <= Val(rs[d..d + 10]) < TWO287
    ensures forall i :: d + 10 <= i < 18 ==> rs[i] == 0
  {
    PLiterals();
    PAdd(d, 10);
    assert P(10) == BASE * P(9);
    MulMono(TWO287, P(10), P(d));
    HighLimbsZero(rs, d + 10);
    ValSplit(rs, d);
    TrailingZeros(rs[d..], 10);
    assert rs[d..][..10] == rs[d..d + 10];
    hide Val, P;
    var seg := Val(rs[d..d + 10]);
    ValBounds(rs[..d]); ValBounds(rs[d..d + 10]);
    if seg >= TWO287 {
      MulMono(TWO287, seg, P(d));
    }
  }

  lemma StepCoef(rs: seq<int>, d: nat) returns (coef: int, rem: int)
    requires |rs| == 18 && Digits(rs) && d <= 8 && Val(rs) < TWO287 * P(d)
    ensures coef == W32(rs[d + 8] / TWO24 + W32(rs[d + 9] * 32)) && 0 <= coef < TWO31
    ensures Val(rs[d..d + 10]) == rem + coef * TWO256 && 0 <= rem < TWO256
    ensures Val(rs) == Val(rs[..d]) + P(d) * Val(rs[d..d + 10])
    ensures forall i :: d + 10 <= i < 18 ==> rs[i] == 0
  {
    SegmentOf(rs, d);
    coef, rem := SegmentQuotient(rs[d..d + 10]);
  }

  /** The limb loop of bn_multiply_reduce_step. */
  method ReduceLimbs(res: array<int>, prime: array<int>, d: nat, coef: int) returns (ghost ts: seq<int>)
    requires res.Length == 18 && res != prime && d <= 8 && 0 <= coef < TWO31
    requires Digits(res[..]) && Norm(prime[..])
    modifies res
    ensures res[..d] == old(res[..d]) && res[d + 9..] == old(res[d + 9..])
    ensures Terms(ts, TWO31, old(res[d..d + 9]), coef, prime[..])
    ensures ChainOutput(res[d..d + 9], ts, TWO31)
  {
    hide Val, P, W64, CarryAt, DigitAt;
    ghost var rs, ps := res[..], prime[..];
    ts := seq(9, i requires 0 <= i < 9 => TWO31 * (BASE - 1) + rs[d + i] - coef * ps[i]);
    CarryStart(ts, TWO31);
    var acc := TWO31;
    var i := 0;
    while i < LIMBS
      invariant 0 <= i <= LIMBS
      invariant 0 <= acc < TWO35
      invariant forall j :: 0 <= j < 18 && !(d <= j < d + i) ==> res[j] == rs[j]
      invariant acc == CarryAt(ts, TWO31, i)
      invariant forall j :: 0 <= j < i ==> res[d + j] == DigitAt(ts, TWO31, j)
    {
      ReduceRange(TWO31, acc, res[d + i], prime[i], coef);
      assert ts[i] == (BASE - 1) * TWO31 + res[d + i] - prime[i] * coef;
      acc := W64(acc + (BASE - 1) * TWO31 + res[d + i] - prime[i] * coef);
      CarryNext(ts, TWO31, i, acc);
      res[d + i] := acc % BASE;
      acc := acc / BASE;
      i := i + 1;
    }
  }

  /** The effect of one step on the value: floor(v / 2^(256+29d)) * p * 2^(29d) is
      taken away, which leaves less than 2 * p * 2^(29d). */
  ghost predicate StepEffect(v: int, v': int, p: int, d: nat)
  {
    v' == v - (v / (TWO256 * P(d))) * p * P(d) && 0 <= v' < 2 * p * P(d)
  }

  /** bn_multiply_reduce_step */
  method ReduceStep(res: array<int>, prime: array<int>, d: nat)
    requires res.Length == 18 && res != prime && d <= 8
    requires Digits(res[..]) && Norm(prime[..]) && PrimeRange(Val(prime[..]))
    requires Val(res[..]) < TWO287 * P(d)
    modifies res
    ensures Digits(res[..])
    ensures StepEffect(old(Val(res[..])), Val(res[..]), Val(prime[..]), d)
  {
    hide Val, P, Terms, ChainOutput, StepEffect;
    ghost var rs := res[..];
    ghost var q, rem := StepCoef(rs, d);
    var coef := W32(res[d + 8] / TWO24 + W32(res[d + 9] * 32));
    ghost var ts := ReduceLimbs(res, prime, d, coef);
    ghost var mid, new9 := res[..], res[d..d + 9];
    res[d + 9] := 0;
    StepPieces(rs, mid, res[..], new9, d);
    ReduceStepResult(Val(rs), rs[..d], rs[d..d + 10], new9, seq(9 - d, _ => 0), ts, prime[..], coef, rem);
  }

  lemma StepPieces(rs: seq<int>, mid: seq<int>, out: seq<int>, new9: seq<int>, d: nat)
    requires |rs| == |mid| == 18 && d <= 8 && |new9| == 9
    requires mid[..d] == rs[..d] && mid[d..d + 9] == new9 && mid[d + 9..] == rs[d + 9..]
    requires out == mid[d + 9 := 0]
    requires forall i :: d + 10 <= i < 18 ==> rs[i] == 0
    ensures out == rs[..d] + new9 + seq(9 - d, _ => 0)
    ensures rs[d..d + 10][..9] == rs[d..d + 9]
  {
    assert mid == mid[..d] + mid[d..d + 9] + mid[d + 9..];
    assert mid == rs[..d] + new9 + rs[d + 9..];
    assert forall i :: d + 9 < i < 18 ==> mid[i] == rs[d + 9..][i - d - 9] == 0;
  }

  lemma ReduceStepResult(v: int, low: seq<int>, seg: seq<int>, new9: seq<int>, zeros: seq<int>,
                         ts: seq<int>, ps: seq<int>, coef: int, rem: int)
    requires Digits(low) && |seg| == 10 && Digits(seg) && Norm(ps) && PrimeRange(Val(ps))
    requires forall i :: 0 <= i < |zeros| ==> zeros[i] == 0
    requires v == Val(low) + P(|low|) * Val(seg)
    requires Val(seg) == rem + coef * TWO256 && 0 <= rem < TWO256 && 0 <= coef < TWO31
    requires Terms(ts, TWO31, seg[..9], coef, ps) && ChainOutput(new9, ts, TWO31)
    ensures Digits(low + new9 + zeros) && StepEffect(v, Val(low + new9 + zeros), Val(ps), |low|)
  {
    hide Val, P, Terms, ChainOutput, StepEffect;
    SegmentReduced(seg, new9, ts, ps, coef, rem);
    Splice(low, new9, zeros);
    ValBounds(low);
    var v', q := Val(low + new9 + zeros), P(|low|);
    StepValues(v, v', Val(low), q, TWO256, Val(seg), coef, Val(ps), rem, Val(new9));
    StepEffectIs(v, v', Val(ps), |low|, coef);
  }

  lemma Splice(low: seq<int>, mid: seq<int>, zeros: seq<int>)
    requires Digits(low) && Digits(mid) && forall i :: 0 <= i < |zeros| ==> zeros[i] == 0
    ensures Digits(low + mid + zeros) && Val(low + mid + zeros) == Val(low) + P(|low|) * Val(mid)
  {
    var out := low + mid + zeros;
    TrailingZeros(out, |low + mid|);
    assert out[..|low + mid|] == low + mid;
    ValSplit(low + mid, |low|);
    assert (low + mid)[..|low|] == low && (low + mid)[|low|..] == mid;
  }

  lemma SegmentReduced(seg: seq<int>, new9: seq<int>, ts: seq<int>, ps: seq<int>, coef: int, rem: int)
    requires |seg| == 10 && Digits(seg) && Norm(ps) && PrimeRange(Val(ps))
    requires Val(seg) == rem + coef * TWO256 && 0 <= rem < TWO256 && 0 <= coef < TWO31
    requires Terms(ts, TWO31, seg[..9], coef, ps) && ChainOutput(new9, ts, TWO31)
    ensures Norm(new9) && Val(new9) == Val(seg) - coef * Val(ps) && 0 <= Val(new9) < 2 * Val(ps)
  {
    PLiterals();
    assert |ts| == 9;
    hide Val, P, Terms, ChainOutput;
    var v := Val(seg) - coef * Val(ps);
    PartlyReduced(Val(seg), coef, rem, Val(ps));
    ValStep(seg, 9);
    ValAll(seg);
    Distrib(TWO31, -seg[9], P(9));
    ChainResult(new9, ts, TWO31, seg[..9], coef, ps, TWO31 - seg[9], v);
  }

  /** One step on values: m stands for 2^256 and q for 2^(29d). */
  lemma StepValues(v: int, v': int, low: int, q: int, m: int, seg: int, coef: int, p: int, rem: int, new9: int)
    requires 0 <= low < q && seg == rem + coef * m && 0 <= rem < m
    requires new9 == seg - coef * p && 0 <= new9 < 2 * p
    requires v == low + q * seg && v' == low + q * new9
    ensures v / (m * q) == coef && v' == v - coef * p * q && 0 <= v' < 2 * p * q
  {
    StepQuotient(low, q, m, coef, rem);
    MulEq(q, seg, rem + coef * m);
    StepBound(low, q, new9, p);
    StepProduct(v, v', low, q, seg, coef, p, new9);
  }

  lemma StepEffectIs(v: int, v': int, p: int, d: nat, coef: int)
    requires v / (TWO256 * P(d)) == coef && v' == v - coef * p * P(d) && 0 <= v' < 2 * p * P(d)
    ensures StepEffect(v, v', p, d)
  {
    hide P;
  }

  lemma StepProduct(v: int, v': int, low: int, q: int, seg: int, coef: int, p: int, new9: int)
    requires new9 == seg - coef * p && v == low + q * seg && v' == low + q * new9
    ensures v' == v - coef * p * q
  {
    MulEq(q, new9, seg + -(coef * p));
    Distrib(seg, -(coef * p), q);
  }

  lemma StepQuotient(low: int, q: int, m: int, coef: int, rem: int)
    requires 0 <= low < q && 0 <= rem < m
    ensures m * q > 0 && (low + q * (rem + coef * m)) / (m * q) == coef
  {
    var n := m * q;
    MulMono(rem, m - 1, q);
    MulMono(0, rem, q);
    Distrib(m, -1, q);
    var r := low + q * rem;
    assert low + q * (rem + coef * m) == r + coef * n by {
      assert q * (rem + coef * m) == q * rem + coef * (m * q);
    }
    DivOfMultiple(r, coef, n);
  }

  lemma DivOfMultiple(r: int, q: int, m: int)
    requires 0 <= r < m
    ensures (r + q * m) / m == q
  {
    var x := r + q * m;
    assert x == (x / m) * m + x % m;
    Distrib(x / m, -q, m);
    SmallMultiple(x / m - q, m, r - x % m);
  }

  lemma StepBound(low: int, q: int, new9: int, p: int)
    requires 0 <= low < q && 0 <= new9 < 2 * p
    ensures 0 <= low + q * new9 < 2 * p * q
  {
    MulMono(new9, 2 * p - 1, q);
    MulMono(0, new9, q);
    Distrib(2 * p, -1, q);
  }

  /** bn_multiply_reduce */
  method Reduce(x: array<int>, res: array<int>, prime: array<int>)
    requires Sized(x) && res.Length == 18 && res != prime && res != x && x != prime
    requires Digits(res[..]) && Norm(prime[..]) && PrimeRange(Val(prime[..]))
    requires Val(res[..]) < TWO519
    modifies x, res
    ensures Norm(x[..]) && 0 <= Val(x[..]) < 2 * Val(prime[..])
    ensures Val(x[..]) % Val(prime[..]) == old(Val(res[..])) % Val(prime[..])
  {
    ghost var v0, p := Val(res[..]), Val(prime[..]);
    PLiterals();
    hide Val, P, StepEffect;
    var i := LIMBS;
    while i > 0
      invariant 0 <= i <= LIMBS
      invariant Digits(res[..])
      invariant Val(res[..]) % Val(prime[..]) == v0 % Val(prime[..])
      invariant i > 0 ==> Val(res[..]) < TWO287 * P(i - 1)
      invariant i == 0 ==> 0 <= Val(res[..]) < 2 * Val(prime[..])
    {
      i := i - 1;
      ghost var v := Val(res[..]);
      ReduceStep(res, prime, i);
      StepEffectGives(v, Val(res[..]), p, i);
      StepCongruent(v, Val(res[..]), v / (TWO256 * P(i)), p, P(i));
      if i > 0 { NextStepRoom(p, i); }
    }
    SmallProduct(res[..], Val(prime[..]));
    CopyLimbs(res, x);
  }

  method CopyLimbs(res: array<int>, x: array<int>)
    requires Sized(x) && res.Length == 18 && res != x
    modifies x
    ensures x[..] == res[..9]
  {
    var i := 0;
    while i < LIMBS
      invariant 0 <= i <= LIMBS
      invariant forall j :: 0 <= j < i ==> x[j] == res[j]
    {
      x[i] := res[i];
      i := i + 1;
    }
  }

  /** What a step takes away is a multiple of p. */
  lemma StepCongruent(v: int, v': int, coef: int, p: int, q: int)
    requires p > 0 && v' == v - coef * p * q
    ensures v' % p == v % p
  {
    assert coef * p * q == (coef * q) * p;
    SubtractMultiple(v, coef * q, p);
  }

  lemma StepEffectGives(v: int, v': int, p: int, d: nat)
    requires StepEffect(v, v', p, d)
    ensures v' == v - (v / (TWO256 * P(d))) * p * P(d) && 0 <= v' < 2 * p * P(d)
    ensures d == 0 ==> v' < 2 * p
  {
    hide P;
    POne();
  }

  lemma SmallProduct(rs: seq<int>, p: int)
    requires |rs| == 18 && Digits(rs) && PrimeRange(p) && Val(rs) < 2 * p
    ensures Val(rs[..9]) == Val(rs)
  {
    PLiterals();
    HighLimbsZero(rs, 9);
  }

  lemma NextStepRoom(p: int, i: nat)
    requires PrimeRange(p) && 1 <= i
    ensures 2 * p * P(i) <= TWO287 * P(i - 1)
  {
    assert P(i) == BASE * P(i - 1);
    assert 2 * p * P(i) == (2 * p * BASE) * P(i - 1);
    MulMono(2 * p * BASE, TWO287, P(i - 1));
  }

  /** bn_multiply: x becomes k * x modulo prime, partly reduced. */
  method Multiply(k: array<int>, x: array<int>, prime: array<int>)
    requires Norm(k[..]) && Norm(x[..]) && Norm(prime[..]) && x != prime
    requires PrimeRange(Val(prime[..])) && Val(k[..]) * Val(x[..]) < TWO519
    modifies x
    ensures Norm(x[..]) && 0 <= Val(x[..]) < 2 * Val(prime[..])
    ensures Val(x[..]) % Val(prime[..]) == old(Val(k[..]) * Val(x[..])) % Val(prime[..])
  {
    var res := new int[18];
    MultiplyLong(k, x, res);
    Reduce(x, res, prime);
  }
}
