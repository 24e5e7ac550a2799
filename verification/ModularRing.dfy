/** Arithmetic modulo n on reduced numbers, with the laws of a commutative ring. */
module ModularRing {
  import opened BignumBasic
  import opened Congruence

  function Add(a: int, b: int, n: int): (r: int)
    requires n > 0
    ensures 0 <= r < n
  {
    (a + b) % n
  }

  function Mul(a: int, b: int, n: int): (r: int)
    requires n > 0
    ensures 0 <= r < n
  {
    (a * b) % n
  }

  function Neg(a: int, n: int): (r: int)
    requires n > 0
    ensures 0 <= r < n
  {
    (-a) % n
  }

  lemma Reduced(a: int, n: int)
    requires 0 <= a < n
    ensures a % n == a
  {
    ModOfMultiple(a, 0, n);
  }

  lemma MulComm(a: int, b: int, n: int)
    requires n > 0
    ensures Mul(a, b, n) == Mul(b, a, n)
  {}

  lemma AddComm(a: int, b: int, n: int)
    requires n > 0
    ensures Add(a, b, n) == Add(b, a, n)
  {}

  lemma CongRefl(a: int, n: int)
    requires n > 0
    ensures Cong(a, a, n)
  {
    CongIntro(a, a, 0, n);
  }

  lemma MulReduce(a: int, b: int, n: int)
    requires n > 0
    ensures Mul(a % n, b, n) == Mul(a, b, n)
    ensures Mul(b, a % n, n) == Mul(a, b, n)
  {
    hide Cong;
    CongMod(a, n);
    CongRefl(b, n);
    CongMul(a, a % n, b, b, n);
    CongRemainder(a * b, (a % n) * b, n);
  }

  lemma AddReduce(a: int, b: int, n: int)
    requires n > 0
    ensures Add(a % n, b, n) == Add(a, b, n)
    ensures Add(b, a % n, n) == Add(a, b, n)
  {
    hide Cong;
    CongMod(a, n);
    CongRefl(b, n);
    CongAdd(a, a % n, b, b, n);
    CongRemainder(a + b, a % n + b, n);
  }

  lemma MulAssoc(a: int, b: int, c: int, n: int)
    requires n > 0
    ensures Mul(Mul(a, b, n), c, n) == Mul(a, Mul(b, c, n), n)
  {
    MulReduce(a * b, c, n);
    MulReduce(b * c, a, n);
    assert (a * b) * c == (b * c) * a;
  }

  lemma Distribute(a: int, b: int, c: int, n: int)
    requires n > 0
    ensures Mul(a, Add(b, c, n), n) == Add(Mul(a, b, n), Mul(a, c, n), n)
  {
    MulReduce(b + c, a, n);
    AddReduce(a * b, Mul(a, c, n), n);
    AddReduce(a * c, a * b, n);
    assert (b + c) * a == a * b + a * c;
  }

  lemma MulOne(a: int, n: int)
    requires 0 <= a < n
    ensures Mul(a, 1, n) == a && Mul(1, a, n) == a && Add(a, 0, n) == a && Add(0, a, n) == a && Mul(a, 0, n) == 0
  {
    Reduced(a, n);
    ModOfMultiple(0, 0, n);
  }

  lemma NegIs(a: int, n: int)
    requires 0 <= a < n
    ensures Neg(a, n) == if a == 0 then 0 else n - a
    ensures Add(a, Neg(a, n), n) == 0
  {
    if a == 0 { Reduced(0, n); } else { ModOfMultiple(n - a, -1, n); }
    ModOfMultiple(0, 0, n);
    ModOfMultiple(0, 1, n);
  }

  lemma MulNeg(a: int, b: int, n: int)
    requires n > 0
    ensures Mul(Neg(a, n), b, n) == Neg(Mul(a, b, n), n)
    ensures Mul(b, Neg(a, n), n) == Neg(Mul(b, a, n), n)
  {
    MulReduce(-a, b, n);
    NegReduce(a * b, n);
    assert (-a) * b == -(a * b) && b * a == a * b;
  }

  lemma NegReduce(a: int, n: int)
    requires n > 0
    ensures Neg(a % n, n) == Neg(a, n)
  {
    hide Cong;
    CongMod(a, n);
    CongScale(-1, a, a % n, n);
    CongRemainder(-1 * a, -1 * (a % n), n);
  }

  lemma NegNeg(a: int, n: int)
    requires 0 <= a < n
    ensures Neg(Neg(a, n), n) == a
  {
    NegReduce(-a, n);
    Reduced(a, n);
  }

  /** inv inverts every nonzero residue, as bn_inverse does modulo a prime. */
  ghost predicate Inverts(inv: int -> int, n: int) {
    n > 1 && forall a {:trigger inv(a)} :: 0 < a < n ==> 0 < inv(a) < n && Mul(a, inv(a), n) == 1
  }

  lemma Cancel(a: int, b: int, c: int, inv: int -> int, n: int)
    requires Inverts(inv, n) && 0 < a < n && 0 <= b < n && 0 <= c < n && Mul(a, b, n) == Mul(a, c, n)
    ensures b == c
  {
    hide Mul;
    var i := inv(a);
    MulAssoc(i, a, b, n);
    MulAssoc(i, a, c, n);
    MulComm(i, a, n);
    MulOne(b, n);
    MulOne(c, n);
  }

  lemma NoZeroDivisors(a: int, b: int, inv: int -> int, n: int)
    requires Inverts(inv, n) && 0 < a < n && 0 < b < n
    ensures Mul(a, b, n) != 0
  {
    hide Mul;
    if Mul(a, b, n) == 0 {
      MulOne(a, n);
      Cancel(a, b, 0, inv, n);
    }
  }
}
