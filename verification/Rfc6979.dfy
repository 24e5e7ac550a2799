/** crypto/rfc6979.c: the nonces of section 3.2 of RFC 6979, for a hash and an order of 256 bits. */
module Rfc6979 {
  import opened Options
  import opened Sha256
  import opened HmacSha256
  import opened HmacDrbg
  import opened OctetStrings

  // ----- Section 3.2

  /** Steps b to g, for the concatenation of int2octets(x) and bits2octets(h1). */
  function Seed(h: Sha, data: Bytes): (s: State)
    requires ValidSha(h) && |data| <= 1024
    ensures ValidState(s)
  {
    var v0: Bytes, k0 := seq(DIGEST, i => Byte(1)), Zeros(32);
    var k1 := Hmac(h, k0, v0 + [Byte(0)] + data);
    var v1 := Hmac(h, k1, v0);
    var k2 := Hmac(h, k1, v1 + [Byte(1)] + data);
    State(k2, Hmac(h, k2, v1))
  }

  /** Step h: one round yields T = V, since a digest is as long as the order. */
  function Candidate(h: Sha, s: State): (t: Bytes)
    requires ValidSha(h) && ValidState(s)
    ensures |t| == DIGEST
  {
    Hmac(h, s.k, s.v)
  }

  /** K and V before candidate n: after each candidate, K = HMAC(K, V || 0) and V = HMAC(K, V). */
  function Before(h: Sha, data: Bytes, n: nat): (s: State)
    requires ValidSha(h) && |data| <= 1024
    ensures ValidState(s)
  {
    if n == 0 then Seed(h, data)
    else
      var s := Before(h, data, n - 1);
      var v := Candidate(h, s);
      var k := Hmac(h, s.k, v + [Byte(0)]);
      State(k, Hmac(h, k, v))
  }

  /** The nonce that candidate n stands for. */
  function Nonce(h: Sha, data: Bytes, n: nat): nat
    requires ValidSha(h) && |data| <= 1024
  {
    Number(Candidate(h, Before(h, data, n)))
  }

  /** int2octets(x) || bits2octets(h1); without a curve the hash is taken as it is. */
  function SeedData(key: Bytes, hash: Bytes, order: Option<nat>): (d: Bytes)
    requires order.Some? ==> order.value > 0
    ensures |d| == |key| + |hash|
  {
    key + if order.Some? then Octets(Number(hash) % order.value, |hash|) else hash
  }

  /** init_rfc6979: one conditional subtraction reduces the hash, since the order has 256 bits. */
  method Init(h: Sha, key: Bytes, hash: Bytes, order: Option<nat>) returns (rng: Drbg)
    requires ValidSha(h) && |key| == |hash| == 32 && (order.Some? ==> TWO256 / 2 <= order.value)
    ensures fresh(rng) && rng.Valid() && rng.h == h && rng.state == Seed(h, SeedData(key, hash, order))
  {
    hide Number, Octets, Hmac;
    var reduced := hash;
    if order.Some? {
      var n := Number(hash);
      NumberBound(hash);
      if n >= order.value { n := n - order.value; }
      Subtracted(Number(hash), n, order.value);
      reduced := Octets(n, 32);
    }
    rng := new Drbg(h, key, reduced);
    SeedIs(h, key + reduced);
  }

  lemma Subtracted(x: nat, n: nat, order: nat)
    requires 0 < order && x < 2 * order && n == if x >= order then x - order else x
    ensures n == x % order
  {
    if x >= order { assert x == 1 * order + n; }
  }

  lemma SeedIs(h: Sha, data: Bytes)
    requires ValidSha(h) && |data| <= 1024
    ensures Seeded(h, Initial(), data) == Seed(h, data)
  {
    hide Hmac, HmacBlock;
  }

  /** generate_k_rfc6979. */
  method GenerateK(rng: Drbg, ghost data: Bytes, ghost n: nat) returns (k: nat)
    requires rng.Valid() && |data| <= 1024 && rng.state == Before(rng.h, data, n)
    modifies rng
    ensures rng.Valid() && rng.state == Before(rng.h, data, n + 1) && k == Nonce(rng.h, data, n)
  {
    hide Hmac, HmacBlock, Before, Number;
    StreamOne(rng.h, rng.state);
    BeforeNext(rng.h, data, n);
    var buf := rng.Generate(32);
    k := Number(buf);
  }

  lemma StreamOne(h: Sha, s: State)
    requires ValidSha(h) && ValidState(s)
    ensures Stream(h, s, 1) == (State(s.k, Candidate(h, s)), Candidate(h, s)) && Candidate(h, s)[..32] == Candidate(h, s)
  {
    hide Hmac, HmacBlock;
    assert Stream(h, s, 0) == (s, []);
    assert [] + Candidate(h, s) == Candidate(h, s);
  }

  lemma BeforeFirst(h: Sha, data: Bytes)
    requires ValidSha(h) && |data| <= 1024
    ensures Before(h, data, 0) == Seed(h, data)
  {
    hide Seed;
  }

  lemma BeforeNext(h: Sha, data: Bytes, n: nat)
    requires ValidSha(h) && |data| <= 1024
    ensures var s := Before(h, data, n);
            Before(h, data, n + 1) == StepV(h, StepK(h, State(s.k, Candidate(h, s)), Byte(0), []))
  {
    hide Hmac, HmacBlock;
    var s := Before(h, data, n);
    assert Candidate(h, s) + [Byte(0)] + [] == Candidate(h, s) + [Byte(0)];
  }

  /** The nonces that the signing loop draws are the candidates of the standard, in order. */
  method Nonces(h: Sha, key: Bytes, hash: Bytes, order: Option<nat>, count: nat) returns (ks: seq<nat>)
    requires ValidSha(h) && |key| == |hash| == 32 && (order.Some? ==> TWO256 / 2 <= order.value)
    ensures |ks| == count
    ensures forall i :: 0 <= i < count ==> ks[i] == Nonce(h, SeedData(key, hash, order), i)
  {
    hide Seed, Nonce, SeedData, LastBlock, InnerState, OuterState, Before;
    ghost var data := SeedData(key, hash, order);
    BeforeFirst(h, data);
    var rng := Init(h, key, hash, order);
    ks := [];
    for i := 0 to count
      invariant rng.Valid() && rng.h == h && fresh(rng) && rng.state == Before(h, data, i)
      invariant |ks| == i && forall j :: 0 <= j < i ==> ks[j] == Nonce(h, data, j)
    {
      var k := GenerateK(rng, data, i);
      ks := ks + [k];
    }
  }
}
