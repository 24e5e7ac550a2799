/** bn_power_mod: exponentiation by squaring, right to left. */
module BignumPower {
  import opened Limbs
  import opened BignumBasic
  import opened BignumMultiply
  import opened Congruence

  ghost function Pow(b: int, n: nat): int
  {
    if n == 0 then 1 else b * Pow(b, n - 1)
  }

  lemma {:induction false} PowSquare(b: int, n: nat)
    ensures Pow(b * b, n) == Pow(b, 2 * n)
  {
    if n > 0 {
      PowSquare(b, n - 1);
      assert Pow(b, 2 * n) == b * Pow(b, 2 * n - 1);
      assert Pow(b, 2 * n - 1) == b * Pow(b, 2 * n - 2);
      assert b * (b * Pow(b, 2 * n - 2)) == (b * b) * Pow(b, 2 * n - 2);
    }
  }

  lemma {:induction false} PowCong(a: int, b: int, n: nat, p: int)
    requires p > 0 && Cong(a, b, p)
    ensures Cong(Pow(a, n), Pow(b, n), p)
  {
    if n > 0 {
      PowCong(a, b, n - 1, p);
      CongMul(a, b, Pow(a, n - 1), Pow(b, n - 1), p);
    }
  }

  /** One bit of the exponent: res * acc^rem is unchanged modulo p. */
  lemma BitStep(res: int, acc: int, bit: nat, rest: nat, res': int, acc': int, p: int)
    requires p > 0 && bit <= 1
    requires Cong(res', if bit == 1 then acc * res else res, p) && Cong(acc', acc * acc, p)
    ensures Cong(res' * Pow(acc', rest), res * Pow(acc, bit + 2 * rest), p)
  {
    PowCong(acc', acc * acc, rest, p);
    PowSquare(acc, rest);
    var q := Pow(acc, 2 * rest);
    if bit == 1 {
      CongMul(res', acc * res, Pow(acc', rest), q, p);
      assert (acc * res) * q == res * (acc * q);
    } else {
      CongMul(res', res, Pow(acc', rest), q, p);
    }
  }

  /** acc and res are in range for the next multiplications. */
  ghost predicate InRange(acc: int, res: int, p: int)
  {
    PrimeRange(p) && 0 <= acc < TWO259 && 0 <= res < 2 * p
  }

  lemma RoomToMultiply(acc: int, res: int, p: int)
    requires InRange(acc, res, p)
    ensures acc * res < TWO519 && acc * acc < TWO519
  {
    MulMono(acc, TWO259, res);
    MulMono(acc, TWO259, acc);
  }

  /** One pass of the inner loop: multiply if the low bit is set, then square. */
  method SquareAndMultiply(acc: array<int>, res: array<int>, prime: array<int>, bit: nat, ghost rest: nat)
    requires Norm(acc[..]) && Norm(res[..]) && Norm(prime[..]) && acc != res && acc != prime && res != prime
    requires InRange(Val(acc[..]), Val(res[..]), Val(prime[..])) && bit <= 1
    modifies acc, res
    ensures Norm(acc[..]) && Norm(res[..]) && InRange(Val(acc[..]), Val(res[..]), Val(prime[..]))
    ensures Cong(Val(res[..]) * Pow(Val(acc[..]), rest),
                 old(Val(res[..]) * Pow(Val(acc[..]), bit + 2 * rest)), Val(prime[..]))
  {
    ghost var a0, r0, p := Val(acc[..]), Val(res[..]), Val(prime[..]);
    RoomToMultiply(a0, r0, p);
    if bit == 1 {
      Multiply(acc, res, prime);
    }
    ghost var r1 := Val(res[..]);
    RemainderCong(r1, if bit == 1 then a0 * r0 else r0, p);
    Multiply(acc, acc, prime);
    RemainderCong(Val(acc[..]), a0 * a0, p);
    BitStep(r0, a0, bit, rest, r1, Val(acc[..]), p);
  }

  /** The 29 bits of one limb; the loop stops early when the top limb runs out. */
  method LimbBits(acc: array<int>, res: array<int>, prime: array<int>, e: int, top: bool, ghost hi: nat)
    requires Norm(acc[..]) && Norm(res[..]) && Norm(prime[..]) && acc != res && acc != prime && res != prime
    requires InRange(Val(acc[..]), Val(res[..]), Val(prime[..]))
    requires 0 <= e < BASE && (top ==> hi == 0)
    modifies acc, res
    ensures Norm(acc[..]) && Norm(res[..]) && InRange(Val(acc[..]), Val(res[..]), Val(prime[..]))
    ensures Cong(Val(res[..]) * Pow(Val(acc[..]), hi), old(Val(res[..]) * Pow(Val(acc[..]), e + BASE * hi)),
                 Val(prime[..]))
  {
    hide Val, P, Cong, Pow, InRange, Remaining;
    ghost var p := Val(prime[..]);
    PositiveModulus(Val(acc[..]), Val(res[..]), p);
    ghost var rem: nat := e + BASE * hi;
    ghost var start := Val(res[..]) * Pow(Val(acc[..]), rem);
    var limb := e;
    AllRemaining(e, hi);
    CongIntro(start, start, 0, p);
    var j := 0;
    while j < 29
      invariant 0 <= j <= 29 && Remaining(limb, 29 - j, hi, rem)
      invariant Norm(acc[..]) && Norm(res[..]) && InRange(Val(acc[..]), Val(res[..]), p)
      invariant Cong(Val(res[..]) * Pow(Val(acc[..]), rem), start, p)
    {
      if top && limb == 0 {
        NoneRemaining(limb, 29 - j, hi, rem);
        return;
      }
      ghost var rest := HalfRemaining(limb, 28 - j, hi, rem);
      ghost var before := Val(res[..]) * Pow(Val(acc[..]), rem);
      SquareAndMultiply(acc, res, prime, limb % 2, rest);
      CongTrans(Val(res[..]) * Pow(Val(acc[..]), rest), before, start, p);
      limb := limb / 2;
      rem := rest;
      j := j + 1;
    }
    NoneRemaining(limb, 0, hi, rem);
  }

  lemma PositiveModulus(acc: int, res: int, p: int)
    requires InRange(acc, res, p)
    ensures p > 0
  {
  }

  /** rem is the part of the exponent not yet used: n bits of this limb, then the limbs above. */
  ghost predicate Remaining(limb: int, n: nat, hi: nat, rem: nat)
  {
    0 <= limb < Two(n) && rem == limb + Two(n) * hi
  }

  lemma AllRemaining(e: int, hi: nat)
    requires 0 <= e < BASE
    ensures Remaining(e, 29, hi, e + BASE * hi)
  {
    TwoLiterals();
    MulEq(hi, Two(29), BASE);
  }

  lemma NoneRemaining(limb: int, n: nat, hi: nat, rem: nat)
    requires Remaining(limb, n, hi, rem) && (n == 0 || (limb == 0 && hi == 0))
    ensures rem == hi
  {
  }

  lemma HalfRemaining(limb: int, n: nat, hi: nat, rem: nat) returns (rest: nat)
    requires Remaining(limb, n + 1, hi, rem)
    ensures 0 <= limb && Remaining(limb / 2, n, hi, rest) && rem == limb % 2 + 2 * rest
  {
    assert Two(n + 1) == 2 * Two(n);
    assert (2 * Two(n)) * hi == 2 * (Two(n) * hi);
    MulMono(0, Two(n), hi);
    rest := limb / 2 + Two(n) * hi;
  }

  /** bn_power_mod: res = x^e modulo prime, partly reduced; res may be x. */
  method PowerMod(x: array<int>, e: array<int>, prime: array<int>, res: array<int>)
    requires Norm(x[..]) && Norm(e[..]) && Norm(prime[..]) && Sized(res) && res != prime && res != e
    requires PrimeRange(Val(prime[..])) && Val(x[..]) < TWO259
    modifies res
    ensures Norm(res[..]) && 0 <= Val(res[..]) < 2 * Val(prime[..])
    ensures 0 <= Val(e[..])
    ensures Val(res[..]) % Val(prime[..]) == Pow(old(Val(x[..])), Val(e[..])) % Val(prime[..])
  {
    hide Val, P, Cong, Pow;
    ghost var es, p := e[..], Val(prime[..]);
    ValBounds(es); ValBounds(x[..]);
    ghost var goal := Pow(Val(x[..]), Val(es));
    var acc := new int[9];
    Cmov(acc, true, x, x);
    SetSmall(res, 1);
    CongIntro(1 * goal, goal, 0, p);
    assert es[0..] == es;
    var i := 0;
    while i < LIMBS
      invariant 0 <= i <= LIMBS && 0 <= Val(es[i..]) && e[..] == es
      invariant Norm(acc[..]) && Norm(res[..]) && InRange(Val(acc[..]), Val(res[..]), p)
      invariant Cong(Val(res[..]) * Pow(Val(acc[..]), Val(es[i..])), goal, p)
    {
      ghost var hi := SuffixSplit(es, i);
      ghost var before := Val(res[..]) * Pow(Val(acc[..]), es[i] + BASE * hi);
      LimbBits(acc, res, prime, e[i], i == LIMBS - 1, hi);
      CongTrans(Val(res[..]) * Pow(Val(acc[..]), hi), before, goal, p);
      i := i + 1;
    }
    NothingLeft(Val(res[..]), Val(acc[..]), es[9..]);
    CongRemainder(Val(res[..]), goal, p);
  }

  lemma NothingLeft(res: int, acc: int, es: seq<int>)
    requires es == []
    ensures Val(es) == 0 && res * Pow(acc, Val(es)) == res
  {
  }

  lemma SuffixSplit(es: seq<int>, i: nat) returns (hi: int)
    requires Norm(es) && i < 9
    ensures hi == Val(es[i + 1..]) >= 0 && Val(es[i..]) == es[i] + BASE * hi
    ensures i == 8 ==> hi == 0
  {
    hi := Val(es[i + 1..]);
    ValBounds(es[i + 1..]);
    ValSplit(es[i..], 1);
    assert es[i..][1..] == es[i + 1..] && es[i..][..1] == [es[i]];
    assert [es[i]][..0] == [];
    assert P(1) == BASE;
  }
}
