/** Congruences, coprimality and powers of two, as far as the modular inverse
    and the scalar recoding need them. */
module Congruence {
  import opened Limbs
  import opened BignumBasic

  /** a and b differ by a multiple of p. */
  ghost predicate Cong(a: int, b: int, p: int)
    requires p > 0
  {
    (a - b) % p == 0
  }

  lemma CongWitness(a: int, b: int, p: int) returns (q: int)
    requires p > 0 && Cong(a, b, p)
    ensures a - b == q * p
  {
    q := (a - b) / p;
    assert a - b == p * q + (a - b) % p;
  }

  lemma CongIntro(a: int, b: int, q: int, p: int)
    requires p > 0 && a - b == q * p
    ensures Cong(a, b, p)
  {
    ModOfMultiple(0, q, p);
  }

  lemma CongMod(a: int, p: int)
    requires p > 0
    ensures Cong(a, a % p, p)
  {
    assert a == (a / p) * p + a % p;
    CongIntro(a, a % p, a / p, p);
  }

  /** Congruent numbers leave the same remainder. */
  lemma CongRemainder(a: int, b: int, p: int)
    requires p > 0 && Cong(a, b, p)
    ensures a % p == b % p
  {
    var q := CongWitness(a, b, p);
    var r := b % p;
    assert b == (b / p) * p + r;
    Distrib(b / p, q, p);
    ModOfMultiple(r, b / p + q, p);
    assert a == r + (b / p + q) * p;
  }

  lemma RemainderCong(a: int, b: int, p: int)
    requires p > 0 && a % p == b % p
    ensures Cong(a, b, p)
  {
    assert a == (a / p) * p + a % p && b == (b / p) * p + b % p;
    Distrib(a / p, -(b / p), p);
    CongIntro(a, b, a / p - b / p, p);
  }

  lemma CongTrans(a: int, b: int, c: int, p: int)
    requires p > 0 && Cong(a, b, p) && Cong(b, c, p)
    ensures Cong(a, c, p)
  {
    var x := CongWitness(a, b, p);
    var y := CongWitness(b, c, p);
    Distrib(x, y, p);
    CongIntro(a, c, x + y, p);
  }

  lemma CongSym(a: int, b: int, p: int)
    requires p > 0 && Cong(a, b, p)
    ensures Cong(b, a, p)
  {
    var x := CongWitness(a, b, p);
    assert (-x) * p == -(x * p);
    CongIntro(b, a, -x, p);
  }

  lemma CongAdd(a: int, b: int, c: int, d: int, p: int)
    requires p > 0 && Cong(a, b, p) && Cong(c, d, p)
    ensures Cong(a + c, b + d, p)
  {
    var x := CongWitness(a, b, p);
    var y := CongWitness(c, d, p);
    Distrib(x, y, p);
    CongIntro(a + c, b + d, x + y, p);
  }

  lemma CongScale(k: int, a: int, b: int, p: int)
    requires p > 0 && Cong(a, b, p)
    ensures Cong(k * a, k * b, p)
  {
    var x := CongWitness(a, b, p);
    assert k * a - k * b == k * (a - b);
    assert k * (x * p) == (k * x) * p;
    CongIntro(k * a, k * b, k * x, p);
  }

  lemma CongMul(a: int, b: int, c: int, d: int, p: int)
    requires p > 0 && Cong(a, b, p) && Cong(c, d, p)
    ensures Cong(a * c, b * d, p)
  {
    CongScale(c, a, b, p);
    CongScale(b, c, d, p);
    assert c * a == a * c && c * b == b * c;
    CongTrans(a * c, b * c, b * d, p);
  }

  // ---------------------------------------------------------- powers of two

  lemma {:induction false} TwoAdd(m: nat, n: nat)
    ensures Two(m + n) == Two(m) * Two(n)
  {
    if m > 0 {
      TwoAdd(m - 1, n);
      assert 2 * (Two(m - 1) * Two(n)) == (2 * Two(m - 1)) * Two(n);
    }
  }

  lemma TwoLiterals()
    ensures Two(29) == BASE && Two(32) == TWO32 && Two(256) == TWO256
  {
    TwoSquare(4, 16);
    TwoSquare(8, 0x100);
    TwoSquare(16, 0x1_0000);
    TwoSquare(32, TWO32);
    TwoSquare(64, TWO64);
    TwoSquare(128, TWO64 * TWO64);
    TwoAdd(29, 3);
    assert Two(3) == 8;
  }

  lemma TwoSquare(n: nat, v: int)
    requires Two(n) == v
    ensures Two(2 * n) == v * v
  {
    TwoAdd(n, n);
  }

  lemma OddProduct(q: int, p: int)
    ensures q % 2 == 1 && p % 2 == 1 ==> (q * p) % 2 == 1
  {
    if q % 2 == 1 && p % 2 == 1 {
      var i, j := q / 2, p / 2;
      assert q * p == (2 * i + 1) * (2 * j + 1);
      assert (2 * i + 1) * (2 * j + 1) == 2 * (2 * i * j + i + j) + 1;
    }
  }

  /** A congruence modulo 2^m also holds modulo a smaller power of two. */
  lemma CongDown(a: int, b: int, n: nat, m: nat)
    requires n <= m && Cong(a, b, Two(m))
    ensures Cong(a, b, Two(n))
  {
    hide Two, Cong;
    var q := CongWitness(a, b, Two(m));
    TwoAdd(m - n, n);
    MulEq(q, Two(m), Two(m - n) * Two(n));
    assert q * (Two(m - n) * Two(n)) == (q * Two(m - n)) * Two(n);
    CongIntro(a, b, q * Two(m - n), Two(n));
  }

  /** Halving a congruence is sound for an odd modulus. */
  lemma CancelTwo(a: int, b: int, p: int)
    requires p > 0 && p % 2 == 1 && Cong(2 * a, 2 * b, p)
    ensures Cong(a, b, p)
  {
    var q := CongWitness(2 * a, 2 * b, p);
    OddProduct(q, p);
    if q % 2 == 0 {
      var h := q / 2;
      assert 2 * (a - b) == (2 * h) * p;
      assert (2 * h) * p == 2 * (h * p);
      CongIntro(a, b, h, p);
    }
  }

  lemma {:induction false} CancelTwos(a: int, b: int, k: nat, p: int)
    requires p > 0 && p % 2 == 1 && Cong(a * Two(k), b * Two(k), p)
    ensures Cong(a, b, p)
  {
    if k > 0 {
      assert a * Two(k) == 2 * (a * Two(k - 1)) && b * Two(k) == 2 * (b * Two(k - 1));
      CancelTwo(a * Two(k - 1), b * Two(k - 1), p);
      CancelTwos(a, b, k - 1, p);
    }
  }

  // ------------------------------------------------------------ coprimality

  /** No divisor above 1 in common. */
  ghost predicate Coprime(a: int, b: int)
  {
    forall d {:trigger a % d} :: d > 1 ==> !(a % d == 0 && b % d == 0)
  }

  ghost predicate IsPrime(p: int)
  {
    p > 1 && forall d {:trigger p % d} :: 1 < d < p ==> p % d != 0
  }

  lemma PrimeCoprime(p: int, x: int)
    requires IsPrime(p) && x % p != 0
    ensures Coprime(x, p)
  {
    forall d {:trigger x % d} | d > 1 ensures !(x % d == 0 && p % d == 0) {
      if d > p {
        ModOfMultiple(p, 0, d);
      }
    }
  }

  /** Bezout's identity, by Euclid's algorithm. */
  lemma {:induction false} Bezout(a: nat, b: nat) returns (i: int, j: int)
    requires Coprime(a, b) && a + b > 0
    ensures i * a + j * b == 1
    decreases b
  {
    if b == 0 {
      if a > 1 {
        ModOfMultiple(0, 1, a);
      }
      i, j := 1, 0;
    } else {
      var q, r := a / b, a % b;
      assert a == q * b + r;
      forall d {:trigger b % d} | d > 1 ensures !(b % d == 0 && r % d == 0) {
        if b % d == 0 && r % d == 0 {
          DividesSum(q, b, r, d);
        }
      }
      var i', j' := Bezout(b, r);
      i, j := j', i' - q * j';
      assert i' * b + j' * r == i * a + j * b by {
        assert j' * a == j' * (q * b) + j' * r;
        assert (i' - q * j') * b == i' * b - (q * j') * b;
        assert j' * (q * b) == (q * j') * b;
      }
    }
  }

  lemma DividesSum(q: int, b: int, r: int, d: int)
    requires d > 0 && b % d == 0 && r % d == 0
    ensures (q * b + r) % d == 0
  {
    CongScale(q, b, 0, d);
    CongAdd(q * b, q * 0, r, 0, d);
  }
}
