/**
  * point_multiply and scalar_multiply of crypto/ecdsa.c. A point is represented by its
  * coefficient: the accumulator holds the integer c for which the program holds c * P, so
  * doubling doubles it, adding adds and negating negates.
  */
module ScalarMultiply {
  import opened Limbs
  import opened BignumBasic
  import opened Congruence
  import opened Recoding

  // ----- Reading windows

  lemma {:induction false} PIsTwo(q: nat)
    ensures P(q) == Two(29 * q)
  {
    TwoLiterals();
    if q > 0 {
      PIsTwo(q - 1);
      TwoAdd(29, 29 * q - 29);
      assert P(q) == BASE * P(q - 1);
      hide Two, P;
    } else {
      assert P(0) == 1 && Two(0) == 1;
    }
  }

  /** Digit window i, which starts sh bits into limb q. */
  lemma WindowIs(s: seq<int>, q: nat, sh: nat, i: nat)
    requires Norm(s) && q < 9 && sh < 29 && 29 * q + sh == 4 * i
    ensures Val(s) >= 0 && Shifted(Val(s), i) % 32 == (s[q] / Two(sh) + Two(29 - sh) * LimbAt(s, q + 1)) % 32
  {
    hide Val, P, Two, Shifted, LimbAt;
    ValBounds(s);
    ShiftedIs(Val(s), i);
    PIsTwo(q);
    TwoAdd(29 * q, sh);
    DivTwice(Val(s), P(q), Two(sh));
    WindowAt(s, q, sh);
  }

  lemma WithinLimb(x: int, y: int, sh: nat)
    requires sh <= 24
    ensures (x + Two(29 - sh) * y) % 32 == x % 32
  {
    TwoAdd(24 - sh, 5);
    assert Two(5) == 32;
    hide Two;
    MultipleOf32(Two(24 - sh), Two(29 - sh), y);
    Mod32(x, Two(24 - sh) * y);
  }

  lemma MultipleOf32(g: int, f: int, y: int)
    requires f == g * 32
    ensures f * y == 32 * (g * y)
  {
    assert (g * 32) * y == 32 * (g * y);
  }

  lemma Mod32(x: int, m: int)
    ensures (x + 32 * m) % 32 == x % 32
  {}

  lemma AcrossLimbs(x: int, y: int)
    ensures (W32(y) + x) % 32 == (x + y) % 32
  {
    var m := y / TWO32 * 0x800_0000;
    assert y == W32(y) + 32 * m;
    Mod32(W32(y) + x, m);
  }

  /** The next lower window: four bits down, moving to the next limb when the shift underflows. */
  method NextWindow(a: array<int>, q0: nat, shift0: nat, ghost i: nat) returns (q: nat, ashift: nat, bits: nat)
    requires Norm(a[..]) && q0 < 9 && shift0 < 29 && 29 * q0 + shift0 == 4 * i + 4
    requires Val(a[..]) >= 0
    ensures q < 9 && ashift < 29 && 29 * q + ashift == 4 * i
    ensures bits == Shifted(Val(a[..]), i) % 32
  {
    hide Val, P, Two, Shifted;
    ghost var s := a[..];
    if shift0 < 4 {
      q, ashift := q0 - 1, shift0 + 25;
      WindowIs(s, q, ashift, i);
      AcrossLimbs(s[q] / Two(ashift), Two(29 - ashift) * s[q + 1]);
      bits := (W32(a[q0] * Two(4 - shift0)) + a[q] / Two(ashift)) % 32;
      assert a[q0] * Two(4 - shift0) == Two(29 - ashift) * s[q + 1];
    } else {
      q, ashift := q0, shift0 - 4;
      WindowIs(s, q, ashift, i);
      WithinLimb(s[q] / Two(ashift), LimbAt(s, q + 1), ashift);
      bits := a[q] / Two(ashift) % 32;
    }
  }

  // ----- Digits and signs

  /** bits ^= sign; bits &= 15: the window, complemented when its digit is negative. */
  function Folded(bits: nat): (x: nat)
    requires bits < 32
    ensures x < 16
    ensures 2 * (x / 2) + 1 == if bits < 16 then -WindowDigit(bits) else WindowDigit(bits)
  {
    if bits < 16 then 15 - bits % 16 else bits % 16
  }

  function Signed(negative: bool, x: int): int { if negative then -x else x }

  /** pmult[i] = (2 i + 1) P, by repeated addition of 2 P. */
  method OddMultiples() returns (pmult: array<int>)
    ensures fresh(pmult) && pmult.Length == 8 && forall i :: 0 <= i < 8 ==> pmult[i] == 2 * i + 1
  {
    pmult := new int[8](_ => 0);
    pmult[7] := 2 * 1;
    pmult[0] := 1;
    for i := 1 to 8
      invariant forall j :: 0 <= j < i ==> pmult[j] == 2 * j + 1
      invariant i < 8 ==> pmult[7] == 2
    {
      pmult[i] := pmult[7];
      pmult[i] := pmult[i - 1] + pmult[i];
    }
  }

  /** The coefficient of an odd scalar, or of an even one less the order. */
  lemma RecodedScalar(k: int, order: int)
    requires 0 <= k < order < TWO256 && order % 2 == 1
    ensures var a := Offset(k, order);
            a > 0 && Upper(a, 0) == Lower(a, 64) == (if k % 2 == 0 then k - order else k)
  {
    hide Two, Upper, Lower, Shifted, Sixteen;
    var a := Offset(k, order);
    OffsetRange(k, order);
    ShiftedIs(a, 64);
    TwoLiterals();
    DigitsSum(a);
  }

  /** The most significant window: digit 63, twenty bits into the last limb. */
  lemma FirstWindow(s: seq<int>)
    requires Norm(s) && s[8] < 0x200_0000
    ensures Val(s) >= 0 && Shifted(Val(s), 63) % 32 == s[8] / 0x10_0000
  {
    assert Two(5) == 32 && Two(10) == 1024;
    TwoAdd(10, 10);
    hide Two, Val, Shifted, Norm;
    WindowIs(s, 8, 20, 63);
    assert LimbAt(s, 9) == 0;
  }

  lemma UpperStep(a: nat, i: nat)
    requires i < DIGITS
    ensures Upper(a, i) == 16 * Upper(a, i + 1) + Digit(a, i)
    ensures Upper(a, DIGITS) == 0
  {}

  /**
    * point_multiply: digits from the top, the sign of the last digit deferred. The status
    * is 1 for a scalar that is zero or not below the order.
    */
  method PointMultiply(k: array<int>, order: array<int>) returns (status: int, c: int)
    requires Norm(k[..]) && Norm(order[..]) && Val(order[..]) < TWO256 && Val(order[..]) % 2 == 1
    ensures status == (if 0 < Val(k[..]) < Val(order[..]) then 0 else 1)
    ensures Val(k[..]) < Val(order[..]) ==>
              c == if Val(k[..]) % 2 == 0 && status == 0 then Val(k[..]) - Val(order[..]) else Val(k[..])
  {
    hide Val, P, Two, Shifted, Upper, Lower;
    ValBounds(k[..]);
    var less := IsLess(k, order);
    if !less { return 1, 0; }
    var a, nonZero := MakeOdd(k, order);
    if !nonZero { return 1, 0; }
    ghost var limbs, v := a[..], Val(a[..]);
    RecodedScalar(Val(k[..]), Val(order[..]));
    var pmult := OddMultiples();
    var q, ashift := 8, 20;
    var bits := a[8] / 0x10_0000;
    FirstWindow(a[..]);
    UpperStep(v, 63);
    var negative := bits < 16;
    c := pmult[Folded(bits) / 2];
    var i := 62;
    while i >= 0
      invariant -1 <= i <= 62 && q < 9 && ashift < 29 && 29 * q + ashift == 4 * i + 4
      invariant c == Signed(negative, Upper(v, i + 1))
      invariant a[..] == limbs && forall j :: 0 <= j < 8 ==> pmult[j] == 2 * j + 1
    {
      c := 2 * c; c := 2 * c; c := 2 * c; c := 2 * c;
      q, ashift, bits := NextWindow(a, q, ashift, i);
      var nnegative := bits < 16;
      UpperStep(v, i);
      if negative != nnegative { c := -c; }
      c := c + pmult[Folded(bits) / 2];
      negative := nnegative;
      i := i - 1;
    }
    if negative { c := -c; }
    return 0, c;
  }

  // ----- From the bottom: shifting the number in place

  const TOP_NIBBLE: int := 0x200_0000

  lemma NibbleLimb(a: int, up: int, p: int, p': int)
    requires p' == BASE * p && 0 <= up < 16
    ensures 16 * ((a / 16 + up * TOP_NIBBLE) * p) + (a % 16) * p == a * p + up * p'
  {
    var o := a / 16 + up * TOP_NIBBLE;
    assert 16 * o + a % 16 == a + up * BASE;
    MulEq(p, 16 * o + a % 16, a + up * BASE);
    Distrib(16 * o, a % 16, p);
    Distrib(a, up * BASE, p);
    assert (up * BASE) * p == up * (BASE * p);
    assert (16 * o) * p == 16 * (o * p);
  }

  lemma {:induction false} ShiftFourVal(xs: seq<int>, out: seq<int>, i: nat)
    requires Norm(xs) && |out| == 9 && i <= 8
    requires forall j :: 0 <= j < 8 ==> out[j] == xs[j] / 16 + (xs[j + 1] % 16) * TOP_NIBBLE
    ensures 16 * Val(out[..i]) + xs[0] % 16 == Val(xs[..i]) + (xs[i] % 16) * P(i)
  {
    if i == 0 {
      assert out[..0] == [] && xs[..0] == [];
    } else {
      var k := i - 1;
      ShiftFourVal(xs, out, k);
      assert P(i) == BASE * P(k);
      hide Val, P;
      ValStep(xs, k);
      ValStep(out, k);
      NibbleLimb(xs[k], xs[i] % 16, P(k), P(i));
    }
  }

  lemma ShiftFourResult(xs: seq<int>, out: seq<int>)
    requires Norm(xs) && |out| == 9
    requires forall j :: 0 <= j < 8 ==> out[j] == xs[j] / 16 + (xs[j + 1] % 16) * TOP_NIBBLE
    requires out[8] == xs[8] / 16
    ensures Norm(out) && Val(out) == Val(xs) / 16
  {
    forall j | 0 <= j < 9 ensures 0 <= out[j] < BASE {
      NibbleRange(xs[j], if j < 8 then xs[j + 1] % 16 else 0);
    }
    hide Val, P;
    ShiftFourVal(xs, out, 8);
    TopSplit(xs);
    TopSplit(out);
    NibbleTop(xs[8], P(8));
    QuotientIs(Val(xs), 16, Val(out), xs[0] % 16);
  }

  lemma NibbleTop(a: int, p: int)
    ensures 16 * ((a / 16) * p) + (a % 16) * p == a * p
  {
    Distrib(16 * (a / 16), a % 16, p);
  }

  lemma NibbleRange(a: int, up: int)
    requires 0 <= a < BASE && 0 <= up < 16
    ensures 0 <= a / 16 + up * TOP_NIBBLE < BASE
  {}

  method ShiftFour(a: array<int>)
    requires Norm(a[..])
    modifies a
    ensures Norm(a[..]) && Val(a[..]) == old(Val(a[..])) / 16
  {
    ghost var xs := a[..];
    var j := 0;
    while j < 8
      invariant 0 <= j <= 8
      invariant forall i :: j <= i < 9 ==> a[i] == xs[i]
      invariant forall i :: 0 <= i < j ==> a[i] == xs[i] / 16 + (xs[i + 1] % 16) * TOP_NIBBLE
    {
      a[j] := a[j] / 16 + (a[j + 1] % 16) * TOP_NIBBLE;
      j := j + 1;
    }
    a[8] := a[8] / 16;
    ShiftFourResult(xs, a[..]);
  }

  lemma LowWindow(s: seq<int>)
    requires Norm(s)
    ensures Val(s) >= 0 && s[0] % 32 == Val(s) % 32
  {
    hide Val, P;
    ValBounds(s);
    FirstLimb(s);
    Mod32(s[0], 0x100_0000 * Val(s[1..]));
  }

  lemma LowerNext(a: nat, i: nat)
    ensures Lower(a, i + 1) == Lower(a, i) + Digit(a, i) * Sixteen(i)
    ensures Lower(a, 0) == 0 && Sixteen(0) == 1 && Shifted(a, 0) == a
    ensures Shifted(a, i + 1) == Shifted(a, i) / 16
  {}

  /** The folded window is even exactly when the sign changes from the window below. */
  lemma SignChange(x: nat)
    ensures Folded((x / 16) % 32) % 2 == 0 <==> (x % 32 < 16) != ((x / 16) % 32 < 16)
  {
    var y, z := x / 16, x % 16;
    assert x == 16 * y + z;
    var h := y % 2;
    assert x % 32 == 16 * h + z by { QuotientIs(x, 32, y / 2, 16 * h + z); }
    var w := y % 32;
    assert w % 2 == h by { QuotientIs(y, 2, 16 * (y / 32) + w / 2, w % 2); }
    FoldedParity(w);
  }

  lemma FoldedParity(w: nat)
    requires w < 32
    ensures Folded(w) % 2 == 0 <==> (w % 2 == 0) == (w >= 16)
  {
    var z := w % 16;
    assert z % 2 == w % 2;
  }

  /** The table entry curve->cp[i][j] = (2 j + 1) 16^i G. */
  function Cp(i: nat, j: nat): int { (2 * j + 1) * Sixteen(i) }

  lemma SignedSum(change: bool, negative: bool, lower: int, d: int, p: int, m: int)
    requires m == Signed(negative, d)
    ensures Signed(change, Signed(negative != change, lower)) + m * p == Signed(negative, lower + d * p)
  {}

  /** One round: the accumulator takes the sign of the new window and its digit. */
  lemma LowRound(v: nat, i: nat, x: nat, bits: nat, c: int, c': int)
    requires i > 0 && x == Shifted(v, i - 1) && bits == Folded((x / 16) % 32)
    requires c == Signed(x % 32 < 16, Lower(v, i))
    requires c' == (if bits % 2 == 0 then -c else c) + Cp(i, bits / 2)
    ensures Shifted(v, i) == x / 16 && c' == Signed(Shifted(v, i) % 32 < 16, Lower(v, i + 1))
  {
    hide Shifted, Lower, Sixteen, Cp, Folded, Digit;
    LowerNext(v, i - 1);
    LowerNext(v, i);
    DigitIs(v, i);
    SignChange(x);
    CpIs(i, bits / 2);
    SignedSum(bits % 2 == 0, (x / 16) % 32 < 16, Lower(v, i), Digit(v, i), Sixteen(i), 2 * (bits / 2) + 1);
  }

  lemma FifthBit(x: int)
    ensures x / 16 % 2 == 0 <==> x % 32 < 16
  {}

  /** scalar_multiply: digits from the bottom; zero is answered with the point at infinity and status 0. */
  method ScalarMultiply(k: array<int>, order: array<int>) returns (status: int, c: int)
    requires Norm(k[..]) && Norm(order[..]) && Val(order[..]) < TWO256 && Val(order[..]) % 2 == 1
    ensures status == (if Val(k[..]) < Val(order[..]) then 0 else 1)
    ensures status == 0 ==>
              c == if Val(k[..]) % 2 == 0 && Val(k[..]) != 0 then Val(k[..]) - Val(order[..]) else Val(k[..])
  {
    hide Val, P, Two, Shifted, Upper, Lower, Sixteen, Cp, Folded, Digit;
    ValBounds(k[..]);
    var less := IsLess(k, order);
    if !less { return 1, 0; }
    var a, nonZero := MakeOdd(k, order);
    if !nonZero { return 0, 0; }
    ghost var v := Val(a[..]);
    RecodedScalar(Val(k[..]), Val(order[..]));
    LowWindow(a[..]);
    var bits := Folded(a[0] % 32);
    c := Cp(0, bits / 2);
    FirstRound(v);
    var i := 1;
    while i < 64
      invariant 1 <= i <= 64 && Norm(a[..]) && Val(a[..]) == Shifted(v, i - 1)
      invariant c == Signed(Shifted(v, i - 1) % 32 < 16, Lower(v, i))
    {
      ghost var x, before := Shifted(v, i - 1), c;
      ShiftFour(a);
      LowWindow(a[..]);
      bits := Folded(a[0] % 32);
      if bits % 2 == 0 { c := -c; }
      c := c + Cp(i, bits / 2);
      LowRound(v, i, x, bits, before, c);
      i := i + 1;
    }
    LowWindow(a[..]);
    FifthBit(a[0]);
    if a[0] / 16 % 2 == 0 { c := -c; }
    return 0, c;
  }

  lemma FirstRound(v: nat)
    ensures Shifted(v, 0) == v && Cp(0, Folded(v % 32) / 2) == Signed(v % 32 < 16, Lower(v, 1))
  {
    hide Shifted, Lower, Sixteen, Folded;
    LowerNext(v, 0);
    DigitIs(v, 0);
  }

  lemma DigitIs(a: nat, i: nat)
    ensures Digit(a, i) == WindowDigit(Shifted(a, i) % 32)
  {}

  lemma CpIs(i: nat, j: nat)
    ensures Cp(i, j) == (2 * j + 1) * Sixteen(i)
  {}

  /** Both loops compute the scalar modulo the order. */
  lemma CoefficientIsScalar(k: int, order: int, c: int)
    requires 0 <= k < order && (c == k || c == k - order)
    ensures c % order == k
  {
    QuotientIs(c, order, if c == k then 0 else -1, k);
  }
}
