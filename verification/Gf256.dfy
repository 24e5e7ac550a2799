/**
  * The field GF(2^8) = GF(2)[x] / (x^8 + x^4 + x^3 + x + 1): elements are the eight
  * coefficients of a polynomial, multiplication is Russian peasant multiplication.
  */
module Gf256 {
  datatype Gf = Gf(c0: bool, c1: bool, c2: bool, c3: bool, c4: bool, c5: bool, c6: bool, c7: bool)

  const Zero: Gf := Gf(false, false, false, false, false, false, false, false)
  const One: Gf := Gf(true, false, false, false, false, false, false, false)

  function Add(a: Gf, b: Gf): Gf {
    Gf(a.c0 != b.c0, a.c1 != b.c1, a.c2 != b.c2, a.c3 != b.c3,
       a.c4 != b.c4, a.c5 != b.c5, a.c6 != b.c6, a.c7 != b.c7)
  }

  /** Multiplication by x: shift up, and fold x^8 back as x^4 + x^3 + x + 1. */
  function Xt(a: Gf): Gf {
    Gf(a.c7, a.c0 != a.c7, a.c1, a.c2 != a.c7, a.c3 != a.c7, a.c4, a.c5, a.c6)
  }

  function Scale(a: Gf, b: bool): Gf {
    if b then a else Zero
  }

  function Coef(b: Gf, k: nat): bool
    requires k < 8
  {
    if k == 0 then b.c0 else if k == 1 then b.c1 else if k == 2 then b.c2 else if k == 3 then b.c3
    else if k == 4 then b.c4 else if k == 5 then b.c5 else if k == 6 then b.c6 else b.c7
  }

  /** The part of the product that the coefficients k..7 of b contribute, where a stands for a * x^k. */
  function MulFrom(a: Gf, b: Gf, k: nat): Gf
    requires k <= 8
    decreases 8 - k, a, b
  {
    if k == 8 then Zero else Add(Scale(a, Coef(b, k)), MulFrom(Xt(a), b, k + 1))
  }

  function Mul(a: Gf, b: Gf): Gf {
    MulFrom(a, b, 0)
  }

  // ----- Addition

  lemma AddComm(a: Gf, b: Gf) ensures Add(a, b) == Add(b, a) {}
  lemma AddAssoc(a: Gf, b: Gf, c: Gf) ensures Add(Add(a, b), c) == Add(a, Add(b, c)) {}
  lemma AddZero(a: Gf) ensures Add(a, Zero) == a && Add(Zero, a) == a && Add(a, a) == Zero {}
  lemma AddSwap(a: Gf, b: Gf, c: Gf, d: Gf) ensures Add(Add(a, b), Add(c, d)) == Add(Add(a, c), Add(b, d)) {}

  // ----- Multiplication by x and by a bit is linear

  lemma XtAdd(a: Gf, b: Gf) ensures Xt(Add(a, b)) == Add(Xt(a), Xt(b)) {}
  lemma ScaleAdd(a: Gf, b: Gf, s: bool) ensures Scale(Add(a, b), s) == Add(Scale(a, s), Scale(b, s)) {}
  lemma ScaleXor(a: Gf, s: bool, t: bool) ensures Scale(a, s != t) == Add(Scale(a, s), Scale(a, t)) {}
  lemma ScaleXt(a: Gf, s: bool) ensures Scale(Xt(a), s) == Xt(Scale(a, s)) {}

  lemma CoefAdd(b: Gf, c: Gf, k: nat)
    requires k < 8
    ensures Coef(Add(b, c), k) == (Coef(b, k) != Coef(c, k))
  {
    if k < 4 { CoefAddLow(b, c, k); } else { CoefAddHigh(b, c, k); }
    hide Coef, Add;
  }

  lemma CoefAddLow(b: Gf, c: Gf, k: nat)
    requires k < 4
    ensures Coef(Add(b, c), k) == (Coef(b, k) != Coef(c, k))
  {}

  lemma CoefAddHigh(b: Gf, c: Gf, k: nat)
    requires 4 <= k < 8
    ensures Coef(Add(b, c), k) == (Coef(b, k) != Coef(c, k))
  {}

  // ----- Multiplication is bilinear and commutes with multiplication by x

  lemma MulFromStep(a: Gf, b: Gf, k: nat)
    requires k < 8
    ensures MulFrom(a, b, k) == Add(Scale(a, Coef(b, k)), MulFrom(Xt(a), b, k + 1))
  {
    hide Add, Scale, Xt, Coef;
  }

  lemma {:induction false} MulFromLeft(a: Gf, b: Gf, c: Gf, k: nat)
    requires k <= 8
    ensures MulFrom(Add(a, b), c, k) == Add(MulFrom(a, c, k), MulFrom(b, c, k))
    decreases 8 - k
  {
    AddZero(Zero);
    hide Add, Scale, Xt, Coef;
    if k < 8 {
      var s := Coef(c, k);
      ScaleAdd(a, b, s);
      XtAdd(a, b);
      MulFromLeft(Xt(a), Xt(b), c, k + 1);
      AddSwap(Scale(a, s), Scale(b, s), MulFrom(Xt(a), c, k + 1), MulFrom(Xt(b), c, k + 1));
    }
  }

  lemma {:induction false} MulFromRight(a: Gf, b: Gf, c: Gf, k: nat)
    requires k <= 8
    ensures MulFrom(a, Add(b, c), k) == Add(MulFrom(a, b, k), MulFrom(a, c, k))
    decreases 8 - k
  {
    AddZero(Zero);
    hide Add, Scale, Xt, Coef;
    if k < 8 {
      CoefAdd(b, c, k);
      var s, t, a1 := Coef(b, k), Coef(c, k), Xt(a);
      ScaleXor(a, s, t);
      MulFromRight(a1, b, c, k + 1);
      AddSwap(Scale(a, s), Scale(a, t), MulFrom(a1, b, k + 1), MulFrom(a1, c, k + 1));
    }
  }

  lemma {:induction false} MulFromXt(a: Gf, b: Gf, k: nat)
    requires k <= 8
    ensures MulFrom(Xt(a), b, k) == Xt(MulFrom(a, b, k))
    decreases 8 - k
  {
    assert Xt(Zero) == Zero;
    hide Add, Scale, Xt, Coef;
    if k < 8 {
      ScaleXt(a, Coef(b, k));
      MulFromXt(Xt(a), b, k + 1);
      XtAdd(Scale(a, Coef(b, k)), MulFrom(Xt(a), b, k + 1));
    }
  }

  lemma MulAddLeft(a: Gf, b: Gf, c: Gf)
    ensures Mul(Add(a, b), c) == Add(Mul(a, c), Mul(b, c))
  {
    hide Add, MulFrom;
    MulFromLeft(a, b, c, 0);
  }

  lemma MulAddRight(a: Gf, b: Gf, c: Gf)
    ensures Mul(a, Add(b, c)) == Add(Mul(a, b), Mul(a, c))
  {
    hide Add, MulFrom;
    MulFromRight(a, b, c, 0);
  }

  lemma MulXtLeft(a: Gf, b: Gf)
    ensures Mul(Xt(a), b) == Xt(Mul(a, b))
  {
    hide Xt, MulFrom;
    MulFromXt(a, b, 0);
  }

  /** Multiplication by x without the reduction: the coefficient of x^7 is lost. */
  function Shift(b: Gf): Gf {
    Gf(false, b.c0, b.c1, b.c2, b.c3, b.c4, b.c5, b.c6)
  }

  /** x^4 + x^3 + x + 1, what x^8 reduces to. */
  const Tail: Gf := Gf(true, true, false, true, true, false, false, false)

  function XtTimes(a: Gf, n: nat): Gf
    decreases n
  {
    if n == 0 then a else XtTimes(Xt(a), n - 1)
  }

  lemma CoefShift(b: Gf, k: nat)
    requires k < 7
    ensures Coef(Shift(b), k + 1) == Coef(b, k)
  {}

  lemma {:induction false} ShiftFrom(a: Gf, b: Gf, k: nat)
    requires k < 8
    ensures MulFrom(a, b, k) == Add(MulFrom(a, Shift(b), k + 1), Scale(XtTimes(a, 7 - k), b.c7))
    decreases 8 - k
  {
    AddZero(Scale(a, b.c7));
    assert k == 7 ==> Coef(b, k) == b.c7;
    hide Add, Scale, Xt, Coef, Shift;
    if k < 7 {
      CoefShift(b, k);
      ShiftFrom(Xt(a), b, k + 1);
      AddAssoc(Scale(a, Coef(b, k)), MulFrom(Xt(a), Shift(b), k + 2), Scale(XtTimes(a, 7 - k), b.c7));
    } else {
      assert MulFrom(Xt(a), b, 8) == Zero;
    }
  }

  lemma XtEight(a: Gf)
    ensures Xt(Xt(Xt(Xt(Xt(Xt(Xt(Xt(a)))))))) == Add(a, Add(Xt(a), Add(Xt(Xt(Xt(a))), Xt(Xt(Xt(Xt(a)))))))
  {
    var a4 := Xt(Xt(Xt(Xt(a))));
    assert a4 == Gf(a.c4, a.c4 != a.c5, a.c5 != a.c6, (a.c4 != a.c6) != a.c7, ((a.c0 != a.c4) != a.c5) != a.c7, (a.c1 != a.c5) != a.c6, (a.c2 != a.c6) != a.c7, a.c3 != a.c7);
  }

  lemma MulTail(a: Gf)
    ensures Mul(a, Tail) == Add(a, Add(Xt(a), Add(Xt(Xt(Xt(a))), Xt(Xt(Xt(Xt(a)))))))
  {
    forall b: Gf ensures Scale(b, true) == b && Scale(b, false) == Zero && Add(Zero, b) == b && Add(b, Zero) == b {
      AddZero(b);
    }
    CoefTail();
    var a1 := Xt(a); var a2 := Xt(a1); var a3 := Xt(a2); var a4 := Xt(a3);
    var a5 := Xt(a4); var a6 := Xt(a5); var a7 := Xt(a6);
    assert MulFrom(Xt(a7), Tail, 8) == Zero;
    hide Add, Xt, Scale, Coef, MulFrom;
    MulFromStep(a7, Tail, 7);
    MulFromStep(a6, Tail, 6);
    MulFromStep(a5, Tail, 5);
    MulFromStep(a4, Tail, 4);
    MulFromStep(a3, Tail, 3);
    MulFromStep(a2, Tail, 2);
    MulFromStep(a1, Tail, 1);
    MulFromStep(a, Tail, 0);
  }

  lemma CoefTail()
    ensures Coef(Tail, 0) && Coef(Tail, 1) && Coef(Tail, 3) && Coef(Tail, 4)
    ensures !Coef(Tail, 2) && !Coef(Tail, 5) && !Coef(Tail, 6) && !Coef(Tail, 7)
  {}

  lemma XtSplit(b: Gf)
    ensures Xt(b) == Add(Shift(b), Scale(Tail, b.c7))
  {}

  lemma ShiftLow(a: Gf, b: Gf)
    ensures Scale(a, Coef(Shift(b), 0)) == Zero
  {}

  lemma XtTimesSeven(a: Gf)
    ensures XtTimes(Xt(a), 7) == Xt(Xt(Xt(Xt(Xt(Xt(Xt(Xt(a))))))))
  {
    hide Xt;
  }

  lemma MulScale(a: Gf, b: Gf, s: bool)
    ensures Mul(a, Scale(b, s)) == Scale(Mul(a, b), s)
    ensures Mul(Scale(a, s), b) == Scale(Mul(a, b), s)
  {
    MulZero(a);
    MulZero(b);
    hide MulFrom;
  }

  lemma MulZero(a: Gf)
    ensures Mul(a, Zero) == Zero && Mul(Zero, a) == Zero
  {
    MulAddRight(a, Zero, Zero);
    MulAddLeft(Zero, Zero, a);
    AddZero(Mul(a, Zero));
    AddZero(Mul(Zero, a));
    AddZero(Zero);
    hide Mul, Add;
  }

  lemma MulXtRight(a: Gf, b: Gf)
    ensures Mul(a, Xt(b)) == Xt(Mul(a, b))
  {
    hide Add, Xt, Scale, Coef, MulFrom, XtTimes, Shift;
    XtSplit(b);
    MulAddRight(a, Shift(b), Scale(Tail, b.c7));
    MulScale(a, Tail, b.c7);
    MulTail(a);
    XtEight(a);
    XtTimesSeven(a);
    MulXtLeft(a, b);
    ShiftFrom(Xt(a), b, 0);
    MulFromStep(a, Shift(b), 0);
    AddZero(MulFrom(Xt(a), Shift(b), 1));
    ShiftLow(a, b);
  }

  // ----- The field laws

  /** Drops the constant coefficient: b = b0 + x * Halve(b). */
  function Halve(b: Gf): Gf {
    Gf(b.c1, b.c2, b.c3, b.c4, b.c5, b.c6, b.c7, false)
  }

  function Size(b: Gf): nat {
    if b.c7 then 8 else if b.c6 then 7 else if b.c5 then 6 else if b.c4 then 5
    else if b.c3 then 4 else if b.c2 then 3 else if b.c1 then 2 else if b.c0 then 1 else 0
  }

  lemma HalveSplit(b: Gf)
    ensures b == Add(Scale(One, b.c0), Xt(Halve(b)))
    ensures b != Zero ==> Size(Halve(b)) < Size(b)
  {}

  lemma {:induction false} MulOne(a: Gf)
    ensures Mul(One, a) == a && Mul(a, One) == a
    decreases Size(a)
  {
    if a == Zero {
      MulZero(One);
    } else {
      HalveSplit(a);
      var h, c := Halve(a), Scale(One, a.c0);
      MulOne(h);
      MulOneOne();
      MulXtRight(One, h);
      MulXtLeft(h, One);
      MulScale(One, One, a.c0);
      MulAddRight(One, c, Xt(h));
      MulAddLeft(c, Xt(h), One);
      hide Add, Xt, Scale, Mul, Halve, Size;
    }
  }

  lemma {:induction false} MulFromOne(a: Gf, k: nat)
    requires 1 <= k <= 8
    ensures MulFrom(a, One, k) == Zero
    decreases 8 - k
  {
    if k < 8 {
      MulFromOne(Xt(a), k + 1);
      MulFromStep(a, One, k);
      AddZero(Zero);
      hide MulFrom, Xt, Add;
      assert !Coef(One, k);
    }
  }

  lemma MulOneOne()
    ensures Mul(One, One) == One
  {
    MulFromOne(Xt(One), 1);
    MulFromStep(One, One, 0);
    AddZero(One);
    hide MulFrom, Add, Xt;
    assert Scale(One, Coef(One, 0)) == One;
  }

  lemma {:induction false} MulComm(a: Gf, b: Gf)
    ensures Mul(a, b) == Mul(b, a)
    decreases Size(a)
  {
    if a == Zero {
      MulZero(b);
    } else {
      HalveSplit(a);
      var h, c := Halve(a), Scale(One, a.c0);
      MulComm(h, b);
      MulOne(b);
      MulXtRight(b, h);
      MulXtLeft(h, b);
      MulScale(b, One, a.c0);
      MulScale(One, b, a.c0);
      MulAddRight(b, c, Xt(h));
      MulAddLeft(c, Xt(h), b);
      hide Add, Xt, Scale, Mul, Halve, Size;
    }
  }

  lemma {:induction false} MulAssoc(a: Gf, b: Gf, c: Gf)
    ensures Mul(Mul(a, b), c) == Mul(a, Mul(b, c))
    decreases Size(a)
  {
    if a == Zero {
      MulZero(b);
      MulZero(c);
      MulZero(Mul(b, c));
    } else {
      HalveSplit(a);
      var h, k := Halve(a), Scale(One, a.c0);
      MulAssoc(h, b, c);
      MulOne(b);
      MulOne(Mul(b, c));
      MulXtLeft(h, b);
      MulXtLeft(Mul(h, b), c);
      MulXtLeft(h, Mul(b, c));
      MulScale(One, b, a.c0);
      MulScale(b, c, a.c0);
      MulScale(One, Mul(b, c), a.c0);
      MulAddLeft(k, Xt(h), b);
      MulAddLeft(Mul(k, b), Mul(Xt(h), b), c);
      MulAddLeft(k, Xt(h), Mul(b, c));
      hide Add, Xt, Scale, Mul, Halve, Size;
    }
  }

  // ----- Squaring, powers and inverses

  /** The square by the freshman's dream: the even coefficients, reduced. */
  function Sq(x: Gf): Gf {
    Gf((x.c0 != x.c4) != x.c6,
       (x.c4 != x.c6) != x.c7,
       x.c1 != x.c5,
       ((x.c4 != x.c5) != x.c6) != x.c7,
       ((x.c2 != x.c4) != x.c7),
       x.c5 != x.c6,
       x.c3 != x.c5,
       x.c6 != x.c7)
  }

  lemma SqAdd(a: Gf, b: Gf) ensures Sq(Add(a, b)) == Add(Sq(a), Sq(b)) {}
  lemma SqXt(a: Gf) ensures Sq(Xt(a)) == Xt(Xt(Sq(a))) {}
  lemma SqScale(s: bool) ensures Sq(Scale(One, s)) == Scale(One, s) {}

  lemma {:induction false} SqIsSquare(x: Gf)
    ensures Sq(x) == Mul(x, x)
    decreases Size(x)
  {
    hide Add, Xt, Scale, Mul, Halve, Size;
    if x == Zero {
      MulZero(Zero);
    } else {
      HalveSplit(x);
      var h, c := Halve(x), Scale(One, x.c0);
      SqIsSquare(h);
      SqAdd(c, Xt(h));
      SqXt(h);
      SqScale(x.c0);
      hide Sq;
      MulScale(One, One, x.c0);
      MulScale(One, c, x.c0);
      MulOne(c);
      ScaleTwice(One, x.c0);
      MulXtLeft(h, Xt(h));
      MulXtRight(h, h);
      SquareOfSum(c, Xt(h));
    }
  }

  lemma ScaleTwice(a: Gf, s: bool) ensures Scale(Scale(a, s), s) == Scale(a, s) {}

  lemma SquareOfSum(a: Gf, b: Gf)
    ensures Mul(Add(a, b), Add(a, b)) == Add(Mul(a, a), Mul(b, b))
  {
    hide Add, Mul;
    MulAddLeft(a, b, Add(a, b));
    MulAddRight(a, a, b);
    MulAddRight(b, a, b);
    MulComm(a, b);
    AddSwap(Mul(a, a), Mul(a, b), Mul(a, b), Mul(b, b));
    AddComm(Mul(a, b), Mul(b, b));
    AddSwap(Mul(a, a), Mul(a, b), Mul(b, b), Mul(a, b));
    AddZero(Mul(a, b));
    AddZero(Add(Mul(a, a), Mul(b, b)));
  }

  lemma EighthSquare(x: Gf)
    ensures Sq(Sq(Sq(Sq(Sq(Sq(Sq(Sq(x)))))))) == x
  {
    var y := Sq(Sq(Sq(Sq(x))));
  }

  lemma SqFixed(x: Gf)
    requires Sq(x) == x
    ensures x == Zero || x == One
  {}

  /** The power x^n. */
  function Pow(x: Gf, n: nat): Gf
    decreases n, x
  {
    if n == 0 then One else Mul(x, Pow(x, n - 1))
  }

  lemma {:induction false} PowAdd(x: Gf, m: nat, n: nat)
    ensures Pow(x, m + n) == Mul(Pow(x, m), Pow(x, n))
  {
    hide Mul;
    MulOne(Pow(x, n));
    if m > 0 {
      PowAdd(x, m - 1, n);
      MulAssoc(x, Pow(x, m - 1), Pow(x, n));
    }
  }

  lemma PowDouble(x: Gf, n: nat)
    ensures Pow(x, 2 * n) == Sq(Pow(x, n))
  {
    hide Mul, Sq;
    PowAdd(x, n, n);
    SqIsSquare(Pow(x, n));
  }

  lemma PowOne(x: Gf)
    ensures Pow(x, 1) == x
  {
    hide Mul;
    MulOne(x);
    assert Pow(x, 0) == One;
  }

  /** x^256 = x. */
  lemma Frobenius(x: Gf)
    ensures Pow(x, 256) == x
  {
    hide Sq, Pow;
    PowOne(x);
    PowDouble(x, 1);
    PowDouble(x, 2);
    PowDouble(x, 4);
    PowDouble(x, 8);
    PowDouble(x, 16);
    PowDouble(x, 32);
    PowDouble(x, 64);
    PowDouble(x, 128);
    EighthSquare(x);
  }

  /** The multiplicative inverse, computed as x^254 (0 for 0). */
  function Inv(x: Gf): Gf {
    Pow(x, 254)
  }

  lemma MulInv(x: Gf)
    ensures x == Zero ==> Inv(x) == Zero
    ensures x != Zero ==> Mul(x, Inv(x)) == One
  {
    hide Mul, Sq, Pow, Add;
    PowAdd(x, 1, 253);
    PowOne(x);
    MulZero(Pow(x, 253));
    if x != Zero {
      var u := Pow(x, 255);
      PowOne(x);
      PowAdd(x, 1, 254);
      PowAdd(x, 1, 255);
      PowAdd(x, 255, 255);
      PowAdd(x, 254, 256);
      PowAdd(x, 254, 1);
      Frobenius(x);
      SqIsSquare(u);
      SqFixed(u);
      MulZero(x);
    }
  }
}
