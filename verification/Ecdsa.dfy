/**
  * ecdsa_sign_digest, ecdsa_verify_digest and ecdsa_recover_pub_from_sig of crypto/ecdsa.c.
  * The group is the integers modulo its order: the point k G is represented by k.
  */
module Ecdsa {
  import opened Options
  import opened ModularRing
  import BignumBasic

  /** The order, the field prime, inversion modulo the order, and the coordinates of k G. */
  datatype Curve = Curve(n: int, prime: int, inv: int -> int, x: int -> int, oddY: int -> bool, lift: (int, bool) -> int)

  /**
    * What the curve provides: points share an x-coordinate exactly when they are equal or
    * opposite, opposite points differ in the parity of y, an x-coordinate exceeds the order
    * less than once, and decompression finds the point with the given coordinate and parity (0
    * for none).
    */
  ghost predicate ValidCurve(c: Curve) {
    && Inverts(c.inv, c.n)
    && c.prime < 2 * c.n
    && (forall k {:trigger c.x(k)} :: 0 < k < c.n ==> 0 <= c.x(k) < c.prime)
    && (forall k, m {:trigger c.x(k), c.x(m)} :: 0 < k < c.n && k + m == c.n ==> c.x(m) == c.x(k))
    && (forall k, m {:trigger c.oddY(k), c.oddY(m)} :: 0 < k < c.n && k + m == c.n ==> c.oddY(m) == !c.oddY(k))
    && (forall k {:trigger c.x(k), c.oddY(k)} :: 0 < k < c.n ==> c.lift(c.x(k), c.oddY(k)) == k)
    && (forall x, odd {:trigger c.lift(x, odd)} :: c.lift(x, odd) != 0 ==>
          0 < c.lift(x, odd) < c.n && c.x(c.lift(x, odd)) == x && c.oddY(c.lift(x, odd)) == odd)
  }

  /** The group of order 3: its two points share one x-coordinate. */
  lemma SmallestCurve()
    ensures ValidCurve(Curve(3, 5, k => k, k => 1, k => k == 2, (x, odd) => if x != 1 then 0 else if odd then 2 else 1))
  {}

  function LowBit(b: bool): int { if b then 1 else 0 }

  // ----- What one attempt of the signing loop produces

  datatype Signature = Retry | BadKey | Sig(r: int, s: int, recid: int)

  /** s = k^-1 (r d + z). */
  function RawS(c: Curve, d: int, z: int, k: int, r: int): int
    requires c.n > 0
  {
    Mul(c.inv(k), Add(Mul(r, d, c.n), z, c.n), c.n)
  }

  function ReducedX(c: Curve, x: int): int { if x < c.n then x else x - c.n }

  /** The signature for nonce k with the low s, and its recovery byte. */
  function Attempt(c: Curve, d: int, z: int, k: int, canonical: (int, int, int) -> bool): Signature
    requires c.n > 0
  {
    if !(0 < k < c.n) then Retry else
      var x := c.x(k);
      var r, high := ReducedX(c, x), LowBit(x >= c.n);
      if r == 0 then Retry
      else if !(0 < d < c.n) then BadKey
      else
        var s0, odd := RawS(c, d, z, k, r), LowBit(c.oddY(k));
        if s0 == 0 then Retry else
          var flip := c.n / 2 < s0;
          var s, recid := if flip then c.n - s0 else s0, 2 * high + if flip then 1 - odd else odd;
          if canonical(recid, r, s) then Sig(r, s, recid) else Retry
  }

  /** Multiplying the nonce by a random number before inverting, and by it again after, changes nothing. */
  lemma Blinding(k: int, b: int, w: int, inv: int -> int, n: int)
    requires Inverts(inv, n) && 0 < k < n && 0 < b < n
    ensures 0 < Mul(k, b, n) < n
    ensures Mul(b, Mul(inv(Mul(k, b, n)), w, n), n) == Mul(inv(k), w, n)
  {
    hide Mul;
    NoZeroDivisors(k, b, inv, n);
    var m := Mul(k, b, n);
    var i := inv(m);
    var v := Mul(b, i, n);
    MulAssoc(k, b, i, n);
    Cancel(k, v, inv(k), inv, n);
    MulAssoc(b, i, w, n);
  }

  /**
    * ecdsa_sign_digest: the nonces and blinding factors come from ks and blinds. The answer
    * is that of the first attempt that is not rejected, if there is one among 10000.
    */
  method SignDigest(c: Curve, d: nat, z: nat, ks: nat -> int, blinds: nat -> int, canonical: (int, int, int) -> bool)
    returns (status: int, sig: Signature, ghost attempts: nat)
    requires ValidCurve(c) && forall i {:trigger blinds(i)} :: 0 < blinds(i) < c.n
    ensures status == 1 <==> z == 0
    ensures z != 0 ==> attempts <= 10000 && forall i {:trigger ks(i)} :: 0 <= i < attempts ==> Attempt(c, d, z, ks(i), canonical) == Retry
    ensures status == -1 ==> attempts == 10000
    ensures status == 0 || status == 2 ==> attempts < 10000 && sig == Attempt(c, d, z, ks(attempts), canonical)
    ensures status == 0 ==> sig.Sig?
    ensures status == 2 ==> sig.BadKey?
    ensures status in [0, 1, 2, -1]
    ensures z != 0 ==> forall i {:trigger ks(i)} :: 0 <= i < attempts ==> Rejected(c, d, z, ks(i), canonical)
    ensures status == 2 ==> !(0 < d < c.n)
    ensures status == 0 ==> 0 < d < c.n && canonical(sig.recid, sig.r, sig.s)
    ensures status == 0 ==> exists e :: Solves(c, d, z, ks(attempts), sig.r, sig.s, sig.recid, e)
  {
    hide Mul, Add, Attempt, Solves, Rejected;
    sig, attempts := Retry, 0;
    if z == 0 { return 1, Retry, 0; }
    var i := 0;
    while i < 10000
      invariant 0 <= i <= 10000 && attempts == i
      invariant forall j {:trigger ks(j)} :: 0 <= j < i ==> Attempt(c, d, z, ks(j), canonical) == Retry
      invariant forall j {:trigger ks(j)} :: 0 <= j < i ==> Rejected(c, d, z, ks(j), canonical)
    {
      var k := ks(i);
      AttemptOutcome(c, d, z, k, canonical);
      sig := TryNonce(c, d, z, k, blinds(i), canonical);
      if sig.BadKey? { return 2, sig, attempts; }
      if sig.Sig? { return 0, sig, attempts; }
      i := i + 1;
      attempts := i;
    }
    status := -1;
  }

  /** The body of the loop. */
  method TryNonce(c: Curve, d: nat, z: nat, k0: int, blind: int, canonical: (int, int, int) -> bool) returns (sig: Signature)
    requires ValidCurve(c) && 0 < blind < c.n
    ensures sig == Attempt(c, d, z, k0, canonical)
  {
    hide Mul, Add;
    var k := k0;
    if k <= 0 || k >= c.n { return Retry; }
    var r, recid := c.x(k), LowBit(c.oddY(k));
    if r >= c.n {
      r := r - c.n;
      recid := recid + 2;
    }
    if r == 0 { return Retry; }
    if d == 0 || d >= c.n { return BadKey; }
    var s: int := d;
    Blinding(k, blind, Add(Mul(r, d, c.n), z, c.n), c.inv, c.n);
    k := Mul(blind, k, c.n);
    MulComm(blind, k0, c.n);
    k := c.inv(k);
    s := Mul(r, s, c.n);
    s := Add(s, z, c.n);
    s := Mul(k, s, c.n);
    s := Mul(blind, s, c.n);
    if s == 0 { return Retry; }
    if c.n / 2 < s {
      s := c.n - s;
      recid := if recid % 2 == 0 then recid + 1 else recid - 1;
    }
    if !canonical(recid, r, s) { return Retry; }
    return Sig(r, s, recid);
  }

  // ----- The nonce a signature stands for

  /** The nonce up to the sign that the low-s rule chose. */
  function EffectiveNonce(c: Curve, d: int, z: int, k: int): int
    requires c.n > 0
  {
    if c.n / 2 < RawS(c, d, z, k, ReducedX(c, c.x(k))) then c.n - k else k
  }

  /** s k = r d + z for the effective nonce, whose x-coordinate and parity the signature records. */
  lemma SignatureEquation(c: Curve, d: int, z: int, k: int, canonical: (int, int, int) -> bool)
    requires ValidCurve(c) && Attempt(c, d, z, k, canonical).Sig?
    ensures var Sig(r, s, recid) := Attempt(c, d, z, k, canonical);
            var e := EffectiveNonce(c, d, z, k);
            && 0 < r < c.n && 0 < s < c.n && 0 < e < c.n && 0 < d < c.n
            && Mul(s, e, c.n) == Add(Mul(r, d, c.n), z, c.n)
            && c.x(e) == r + (if recid / 2 == 1 then c.n else 0) && 0 <= recid < 4 && c.x(e) < c.prime
            && c.oddY(e) == (recid % 2 == 1)
            && r == ReducedX(c, c.x(e))
            && s <= c.n / 2
  {
    hide Mul, Add, Neg;
    var n := c.n;
    var Sig(r, s, recid) := Attempt(c, d, z, k, canonical);
    var w := Add(Mul(r, d, n), z, n);
    var s0 := RawS(c, d, z, k, r);
    MulAssoc(k, c.inv(k), w, n);
    MulOne(w, n);
    MulComm(s0, k, n);
    assert Mul(s0, k, n) == w;
    assert c.x(n - k) == c.x(k) && c.oddY(n - k) == !c.oddY(k);
    if n / 2 < s0 {
      NegIs(s0, n);
      NegIs(k, n);
      MulNeg(s0, Neg(k, n), n);
      MulNeg(k, s0, n);
      NegNeg(Mul(s0, k, n), n);
    }
  }

  // ----- When an attempt yields a signature

  /** r, the low s and the recovery byte for the nonce k, up to its sign e. */
  ghost predicate Solves(c: Curve, d: int, z: int, k: int, r: int, s: int, recid: int, e: int)
    requires c.n > 0
  {
    && (e == k || e == c.n - k)
    && 0 < r < c.n && 0 < s <= c.n / 2 && 0 <= recid < 4
    && (s * e) % c.n == (r * d + z) % c.n
    && c.x(k) == r + (if recid / 2 == 1 then c.n else 0) && c.oddY(e) == (recid % 2 == 1)
  }

  /** What the loop rejects: the nonce, its x-coordinate, a zero s, or what the filter refuses. */
  ghost predicate Rejected(c: Curve, d: int, z: int, k: int, canonical: (int, int, int) -> bool)
    requires c.n > 0
  {
    || !(0 < k < c.n) || c.x(k) % c.n == 0
    || (0 < d < c.n && (
          || (c.x(k) * d + z) % c.n == 0
          || exists r, s, recid, e :: Solves(c, d, z, k, r, s, recid, e) && !canonical(recid, r, s)))
  }

  /** An attempt is retried exactly when it is rejected, blames the key exactly when that is out of range, and else solves the equation. */
  lemma AttemptOutcome(c: Curve, d: int, z: int, k: int, canonical: (int, int, int) -> bool)
    requires ValidCurve(c)
    ensures Attempt(c, d, z, k, canonical) == Retry <==> Rejected(c, d, z, k, canonical)
    ensures Attempt(c, d, z, k, canonical) == BadKey <==> 0 < k < c.n && c.x(k) % c.n != 0 && !(0 < d < c.n)
    ensures forall r, s, recid :: Attempt(c, d, z, k, canonical) == Sig(r, s, recid) ==>
              0 < k < c.n && 0 < d < c.n && canonical(recid, r, s) && exists e :: Solves(c, d, z, k, r, s, recid, e)
  {
    var n, a, free := c.n, Attempt(c, d, z, k, canonical), Attempt(c, d, z, k, (recid, r, s) => true);
    if 0 < k < n {
      assert 0 <= c.x(k) < c.prime;
      Coordinate(c, c.x(k));
    }
    if free.Sig? {
      FreeAttempt(c, d, z, k, canonical);
      FreeSolves(c, d, z, k);
      NonzeroS(c, d, z, k);
      forall r, s, recid, e | Solves(c, d, z, k, r, s, recid, e) ensures free == Sig(r, s, recid) {
        SolutionIsFree(c, d, z, k, r, s, recid, e);
      }
    } else if 0 < k < n && c.x(k) % n != 0 && 0 < d < n {
      NonzeroS(c, d, z, k);
    }
  }

  lemma Coordinate(c: Curve, x: int)
    requires c.n > 0 && 0 <= x < 2 * c.n
    ensures ReducedX(c, x) == x % c.n && x == x % c.n + if x >= c.n then c.n else 0
  {
    if x < c.n { Reduced(x, c.n); } else { BignumBasic.ModOfMultiple(x - c.n, 1, c.n); Reduced(x - c.n, c.n); }
  }

  /** The filter only decides between the signature and another try. */
  lemma FreeAttempt(c: Curve, d: int, z: int, k: int, canonical: (int, int, int) -> bool)
    requires ValidCurve(c) && Attempt(c, d, z, k, (recid, r, s) => true).Sig?
    ensures var Sig(r, s, recid) := Attempt(c, d, z, k, (recid, r, s) => true);
            Attempt(c, d, z, k, canonical) == if canonical(recid, r, s) then Sig(r, s, recid) else Retry
    ensures 0 < k < c.n && 0 < d < c.n && ReducedX(c, c.x(k)) != 0 && RawS(c, d, z, k, ReducedX(c, c.x(k))) != 0
  {
    hide Mul, Add;
  }

  lemma FreeSolves(c: Curve, d: int, z: int, k: int)
    requires ValidCurve(c) && Attempt(c, d, z, k, (recid, r, s) => true).Sig?
    ensures var Sig(r, s, recid) := Attempt(c, d, z, k, (recid, r, s) => true);
            Solves(c, d, z, k, r, s, recid, EffectiveNonce(c, d, z, k))
  {
    var all := (recid, r, s) => true;
    SignatureEquation(c, d, z, k, all);
    var Sig(r, s, recid) := Attempt(c, d, z, k, all);
    SumOf(c, d, z, r);
    FreeAttempt(c, d, z, k, all);
    hide Attempt, RawS;
    assert c.x(c.n - k) == c.x(k);
  }

  lemma SumOf(c: Curve, d: int, z: int, r: int)
    requires c.n > 0
    ensures Add(Mul(r, d, c.n), z, c.n) == (r * d + z) % c.n
  {
    AddReduce(r * d, z, c.n);
  }

  /** s is zero exactly when r d + z is. */
  lemma NonzeroS(c: Curve, d: int, z: int, k: int)
    requires ValidCurve(c) && 0 < k < c.n
    ensures var r := ReducedX(c, c.x(k));
            RawS(c, d, z, k, r) == 0 <==> (c.x(k) * d + z) % c.n == 0
  {
    var n, x := c.n, c.x(k);
    assert 0 <= x < c.prime;
    Coordinate(c, x);
    var r := ReducedX(c, x);
    SumOf(c, d, z, r);
    var w := Add(Mul(r, d, n), z, n);
    MulReduce(x, d, n);
    SumOf(c, d, z, x);
    assert w == (x * d + z) % n;
    hide Mul, Add;
    if w != 0 { NoZeroDivisors(c.inv(k), w, c.inv, n); } else { MulOne(c.inv(k), n); }
  }

  lemma Opposite(c: Curve, k: int)
    requires ValidCurve(c) && 0 < k < c.n
    ensures c.oddY(c.n - k) == !c.oddY(k)
  {}

  /** The order is odd, since opposite points differ. */
  lemma OddOrder(c: Curve)
    requires ValidCurve(c)
    ensures c.n % 2 == 1
  {
    var h := c.n / 2;
    Opposite(c, h);
  }

  /** The equation leaves one s and one recovery byte. */
  lemma SolutionIsFree(c: Curve, d: int, z: int, k: int, r: int, s: int, recid: int, e: int)
    requires ValidCurve(c) && 0 < k < c.n && 0 < d < c.n && Solves(c, d, z, k, r, s, recid, e)
    ensures Attempt(c, d, z, k, (recid, r, s) => true) == Sig(r, s, recid)
  {
    var n, x := c.n, c.x(k);
    assert 0 <= x < c.prime;
    Coordinate(c, x);
    assert r == ReducedX(c, x);
    SumOf(c, d, z, r);
    OddOrder(c);
    var w := Add(Mul(r, d, n), z, n);
    var s0 := RawS(c, d, z, k, r);
    assert Mul(s, e, n) == w;
    assert c.oddY(n - k) == !c.oddY(k);
    hide Mul, Add, Neg;
    MulAssoc(k, c.inv(k), w, n);
    MulOne(w, n);
    assert Mul(k, s0, n) == w;
    if e == k {
      MulComm(s, k, n);
      Cancel(k, s0, s, c.inv, n);
    } else {
      NegIs(k, n);
      NegIs(s, n);
      MulNeg(k, s, n);
      MulNeg(s, k, n);
      MulComm(s, k, n);
      Cancel(k, s0, n - s, c.inv, n);
    }
  }

  // ----- Verification

  /** The point u1 G + u2 Q that verification reconstructs. */
  function Reconstructed(c: Curve, q: int, r: int, s: int, z: int): int
    requires c.n > 0
  {
    Add(Mul(z, c.inv(s), c.n), Mul(Mul(r, c.inv(s), c.n), q, c.n), c.n)
  }

  /** The signature matches the key: it is in range and the reconstructed point has r for its reduced x. */
  ghost predicate Accepts(c: Curve, q: int, r: int, s: int, z: int)
    requires c.n > 0
  {
    && 0 < r < c.n && 0 < s < c.n && z != 0
    && Reconstructed(c, q, r, s, z) != 0 && ReducedX(c, c.x(Reconstructed(c, q, r, s, z))) == r
  }

  /** ecdsa_verify_digest; no key stands for one that cannot be read. */
  method VerifyDigest(c: Curve, pub: Option<int>, r0: nat, s0: nat, z0: nat) returns (result: int)
    requires ValidCurve(c)
    ensures result == 0 <==> pub.Some? && Accepts(c, pub.value, r0, s0, z0)
    ensures result == 1 <==> pub.None?
    ensures result == 3 <==> pub.Some? && z0 == 0
    ensures result == 2 <==> pub.Some? && z0 != 0 && !(0 < r0 < c.n && 0 < s0 < c.n)
    ensures result == 4 <==> pub.Some? && z0 != 0 && 0 < r0 < c.n && 0 < s0 < c.n && Reconstructed(c, pub.value, r0, s0, z0) == 0
    ensures 0 <= result <= 5
  {
    hide Mul, Add;
    result := 0;
    var q, r, s, z := 0, r0, s0, z0;
    if pub.None? { result := 1; } else { q := pub.value; }
    if result == 0 {
      if r == 0 || s == 0 || r >= c.n || s >= c.n { result := 2; }
      if z == 0 { result := 3; }
    }
    var res := 0;
    if result == 0 {
      s := c.inv(s);
      z := Mul(z, s, c.n);
    }
    if result == 0 {
      s := Mul(r, s, c.n);
      res := Add(z, Mul(s, q, c.n), c.n);
      if res == 0 { result := 4; }
    }
    if result == 0 {
      var x := c.x(res);
      if ReducedX(c, x) != r { result := 5; }
    }
  }

  /** Pulling the inverse of s out of the reconstructed point. */
  lemma ReconstructedIs(c: Curve, q: int, r: int, s: int, z: int, e: int)
    requires ValidCurve(c) && 0 < s < c.n && 0 < e < c.n
    requires Mul(s, e, c.n) == Add(Mul(r, q, c.n), z, c.n)
    ensures Reconstructed(c, q, r, s, z) == e
  {
    hide Mul, Add;
    var n, i := c.n, c.inv(s);
    MulComm(z, i, n);
    MulComm(r, i, n);
    MulAssoc(i, r, q, n);
    AddComm(Mul(i, z, n), Mul(i, Mul(r, q, n), n), n);
    Distribute(i, Mul(r, q, n), z, n);
    MulAssoc(i, s, e, n);
    MulComm(i, s, n);
    MulOne(e, n);
  }

  /** Every signature that the loop emits is accepted under the matching public key. */
  lemma SignatureVerifies(c: Curve, d: int, z: nat, k: int, canonical: (int, int, int) -> bool)
    requires ValidCurve(c) && z != 0 && Attempt(c, d, z, k, canonical).Sig?
    ensures var Sig(r, s, _) := Attempt(c, d, z, k, canonical); Accepts(c, d, r, s, z)
  {
    hide Mul, Add, Attempt;
    SignatureEquation(c, d, z, k, canonical);
    var Sig(r, s, _) := Attempt(c, d, z, k, canonical);
    ReconstructedIs(c, d, r, s, z, EffectiveNonce(c, d, z, k));
  }

  // ----- Recovery

  /** ecdsa_recover_pub_from_sig; decompression yields 0 where there is no point. */
  method RecoverPub(c: Curve, r0: nat, s0: nat, z: nat, recid: nat) returns (pub: Option<int>)
    requires ValidCurve(c) && recid < 4
    ensures pub == RecoveredKey(c, r0, s0, z, recid)
    ensures forall q :: pub == Some(q) <==> KeyFor(c, q, r0, s0, z, recid)
    ensures pub.Some? && z != 0 ==> Accepts(c, pub.value, r0, s0, z)
  {
    forall q ensures RecoveredKey(c, r0, s0, z, recid) == Some(q) <==> KeyFor(c, q, r0, s0, z, recid) {
      RecoveryIsExact(c, q, r0, s0, z, recid);
    }
    hide Mul, Add, Neg, KeyFor;
    if RecoveredKey(c, r0, s0, z, recid).Some? && z != 0 {
      KeyAccepts(c, RecoveredKey(c, r0, s0, z, recid).value, r0, s0, z, recid);
    }
    var r, s: int := r0, s0;
    if r >= c.n || r == 0 { return None; }
    if s >= c.n || s == 0 { return None; }
    var x := r;
    if recid / 2 == 1 {
      x := x + c.n;
      if x >= c.prime { return None; }
    }
    var cp := c.lift(x, recid % 2 == 1);
    if cp == 0 { return None; }
    var e := c.n - z % c.n;
    NegatedDigest(z, c.inv(r), c.n);
    r := c.inv(r);
    e := Mul(r, e, c.n);
    s := Mul(r, s, c.n);
    cp := Add(e, Mul(s, cp, c.n), c.n);
    if cp == 0 { return None; }
    return Some(cp);
  }

  lemma NegatedDigest(z: int, i: int, n: int)
    requires n > 0
    ensures Mul(i, n - z % n, n) == Mul(i, Neg(z, n), n)
  {
    var y := n - z % n;
    NegatedRest(z, z % n, n);
    hide Mul, Neg;
    MulReduce(y, i, n);
    MulComm(i, y, n);
  }

  lemma NegatedRest(z: int, m: int, n: int)
    requires n > 0 && m == z % n
    ensures (n - m) % n == Neg(z, n)
  {
    NegReduce(z, n);
    NegIs(m, n);
    hide Neg;
    if m == 0 { Whole(n); } else { Reduced(n - m, n); }
  }

  lemma Whole(n: int)
    requires n > 0
    ensures n % n == 0
  {}

  /** r^-1 (s R - z G), for the point R that r and the recovery byte name. */
  function RecoveredKey(c: Curve, r: int, s: int, z: int, recid: nat): Option<int>
    requires c.n > 0
  {
    var x := r + if recid / 2 == 1 then c.n else 0;
    var nonce := c.lift(x, recid % 2 == 1);
    if !(0 < r < c.n) || !(0 < s < c.n) || (recid / 2 == 1 && x >= c.prime) || nonce == 0 then None else
      var i := c.inv(r);
      var key := Add(Mul(i, Neg(z, c.n), c.n), Mul(Mul(i, s, c.n), nonce, c.n), c.n);
      if key == 0 then None else Some(key)
  }

  /** The recovery byte that the signing loop emits leads back to the public key. */
  lemma SignatureRecovers(c: Curve, d: int, z: nat, k: int, canonical: (int, int, int) -> bool)
    requires ValidCurve(c) && Attempt(c, d, z, k, canonical).Sig?
    ensures var Sig(r, s, recid) := Attempt(c, d, z, k, canonical); recid >= 0 && RecoveredKey(c, r, s, z, recid) == Some(d)
  {
    hide Mul, Add, Neg, Attempt;
    SignatureEquation(c, d, z, k, canonical);
    var Sig(r, s, recid) := Attempt(c, d, z, k, canonical);
    var e := EffectiveNonce(c, d, z, k);
    assert c.lift(c.x(e), c.oddY(e)) == e;
    KeyFromNonce(c, d, z, r, s, e);
  }

  /** q is a key for which verification reconstructs the point that r and the recovery byte name. */
  ghost predicate KeyFor(c: Curve, q: int, r: int, s: int, z: int, recid: nat)
    requires c.n > 0
  {
    var e := Reconstructed(c, q, r, s, z);
    && 0 < q < c.n && 0 < r < c.n && 0 < s < c.n && e != 0
    && c.x(e) == r + (if recid / 2 == 1 then c.n else 0) && c.oddY(e) == (recid % 2 == 1)
  }

  /** Recovery returns a key exactly when verification under it reconstructs the named point. */
  lemma RecoveryIsExact(c: Curve, q: int, r: int, s: int, z: int, recid: nat)
    requires ValidCurve(c)
    ensures RecoveredKey(c, r, s, z, recid) == Some(q) <==> KeyFor(c, q, r, s, z, recid)
  {
    hide Mul, Add, Neg, Reconstructed;
    if RecoveredKey(c, r, s, z, recid) == Some(q) {
      var e := c.lift(r + if recid / 2 == 1 then c.n else 0, recid % 2 == 1);
      NonceFromKey(c, q, z, r, s, e);
      ReconstructedIs(c, q, r, s, z, e);
    }
    if KeyFor(c, q, r, s, z, recid) {
      var e := Reconstructed(c, q, r, s, z);
      ReconstructedSolves(c, q, r, s, z);
      assert c.lift(c.x(e), c.oddY(e)) == e && 0 <= c.x(e) < c.prime;
      KeyFromNonce(c, q, z, r, s, e);
    }
  }

  /** So every key that recovery returns accepts the signature. */
  lemma KeyAccepts(c: Curve, q: int, r: int, s: int, z: int, recid: nat)
    requires ValidCurve(c) && KeyFor(c, q, r, s, z, recid) && z != 0
    ensures Accepts(c, q, r, s, z)
  {
    hide Reconstructed;
  }

  /** The recovered key solves the equation of the signature. */
  lemma NonceFromKey(c: Curve, q: int, z: int, r: int, s: int, e: int)
    requires ValidCurve(c) && 0 < r < c.n && 0 < s < c.n && 0 < e < c.n
    requires q == Add(Mul(c.inv(r), Neg(z, c.n), c.n), Mul(Mul(c.inv(r), s, c.n), e, c.n), c.n)
    ensures 0 <= q < c.n && Mul(s, e, c.n) == Add(Mul(r, q, c.n), z, c.n)
  {
    hide Mul, Add, Neg;
    var n, i := c.n, c.inv(r);
    var m, w := Neg(z, n), Mul(s, e, n);
    MulAssoc(i, s, e, n);
    Distribute(i, m, w, n);
    MulAssoc(r, i, Add(m, w, n), n);
    MulOne(Add(m, w, n), n);
    NegatedCancels(w, z, n);
  }

  /** (-z + a) + z = a. */
  lemma NegatedCancels(a: int, z: int, n: int)
    requires 0 <= a < n
    ensures Add(Add(Neg(z, n), a, n), z, n) == a
  {
    AddReduce(-z, a, n);
    AddReduce(a - z, z, n);
    Reduced(a, n);
  }

  /** The reconstructed point solves it as well. */
  lemma ReconstructedSolves(c: Curve, q: int, r: int, s: int, z: int)
    requires ValidCurve(c) && 0 < s < c.n
    ensures var e := Reconstructed(c, q, r, s, z); 0 <= e < c.n && Mul(s, e, c.n) == Add(Mul(r, q, c.n), z, c.n)
  {
    hide Mul, Add;
    var n, i := c.n, c.inv(s);
    var w := Add(Mul(r, q, n), z, n);
    MulComm(z, i, n);
    MulComm(r, i, n);
    MulAssoc(i, r, q, n);
    AddComm(Mul(i, z, n), Mul(i, Mul(r, q, n), n), n);
    Distribute(i, Mul(r, q, n), z, n);
    MulAssoc(s, i, w, n);
    MulOne(w, n);
  }

  lemma KeyFromNonce(c: Curve, d: int, z: int, r: int, s: int, e: int)
    requires ValidCurve(c) && 0 < r < c.n && 0 < s < c.n && 0 < d < c.n
    requires Mul(s, e, c.n) == Add(Mul(r, d, c.n), z, c.n)
    ensures var i := c.inv(r);
            Add(Mul(i, Neg(z, c.n), c.n), Mul(Mul(i, s, c.n), e, c.n), c.n) == d
  {
    hide Mul, Add, Neg;
    var n, i := c.n, c.inv(r);
    var m, rd := Neg(z, n), Mul(r, d, n);
    MulAssoc(i, s, e, n);
    Distribute(i, m, Mul(s, e, n), n);
    SumCancels(rd, z, n);
    MulAssoc(i, r, d, n);
    MulComm(i, r, n);
    MulOne(d, n);
  }

  /** -z + (a + z) = a. */
  lemma SumCancels(a: int, z: int, n: int)
    requires 0 <= a < n
    ensures Add(Neg(z, n), Add(a, z, n), n) == a
  {
    AddReduce(-z, Add(a, z, n), n);
    AddReduce(a + z, -z, n);
    Reduced(a, n);
  }

  /** Signing, then verifying and recovering, on the program's own operations. */
  method SignVerifyRecover(c: Curve, d: nat, z: nat, ks: nat -> int, blinds: nat -> int, canonical: (int, int, int) -> bool)
    returns (status: int, verified: int, pub: Option<int>)
    requires ValidCurve(c) && forall i {:trigger blinds(i)} :: 0 < blinds(i) < c.n
    ensures status == 0 ==> verified == 0 && pub == Some(d)
  {
    hide Mul, Add, Neg, Attempt, RecoveredKey, Accepts;
    verified, pub := 5, None;
    var sig: Signature;
    ghost var i: nat;
    status, sig, i := SignDigest(c, d, z, ks, blinds, canonical);
    if status == 0 {
      SignatureEquation(c, d, z, ks(i), canonical);
      SignatureVerifies(c, d, z, ks(i), canonical);
      SignatureRecovers(c, d, z, ks(i), canonical);
      verified := VerifyDigest(c, Some(d), sig.r, sig.s, z);
      pub := RecoverPub(c, sig.r, sig.s, z, sig.recid);
    }
  }
}
