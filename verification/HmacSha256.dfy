/** HMAC-SHA256 of crypto/hmac.c, by section 2 of RFC 2104. */
module HmacSha256 {
  import opened Sha256

  function Xor(a: Byte, b: Byte): Byte { Byte(a.bits ^ b.bits) }

  function XorAll(s: Bytes, b: Byte): (r: Bytes)
    ensures |r| == |s| && forall i :: 0 <= i < |s| ==> r[i] == Xor(s[i], b)
  {
    seq(|s|, i requires 0 <= i < |s| => Xor(s[i], b))
  }

  const IPAD: Byte := Byte(0x36)
  const OPAD: Byte := Byte(0x5c)

  /** The key, hashed if it is longer than a block, filled up with zeros. */
  function KeyBlock(h: Sha, key: Bytes): (k: Bytes)
    requires ValidSha(h) && 8 * |key| < TWO64
    ensures |k| == BLOCK
  {
    var k := if |key| > BLOCK then HashLength(h, key); Hash(h, key) else key;
    k + Zeros(BLOCK - |k|)
  }

  function Inner(h: Sha, block: Bytes, m: Bytes): Bytes
    requires |block| == BLOCK && 8 * (BLOCK + |m|) < TWO64
  {
    Hash(h, XorAll(block, IPAD) + m)
  }

  /** HMAC for a key block. */
  function HmacBlock(h: Sha, block: Bytes, m: Bytes): (d: Bytes)
    requires ValidSha(h) && |block| == BLOCK && 8 * (BLOCK + |m|) < TWO64
    ensures |d| == DIGEST
  {
    HashLength(h, XorAll(block, IPAD) + m);
    var i := Inner(h, block, m);
    HashLength(h, XorAll(block, OPAD) + i);
    Hash(h, XorAll(block, OPAD) + i)
  }

  function Hmac(h: Sha, key: Bytes, m: Bytes): (d: Bytes)
    requires ValidSha(h) && 8 * |key| < TWO64 && 8 * (BLOCK + |m|) < TWO64
    ensures |d| == DIGEST
  {
    HmacBlock(h, KeyBlock(h, key), m)
  }

  // ----- The streaming interface

  /** HMAC_SHA256_CTX: the inner hash under way and the outer pad. */
  class HmacContext {
    const ctx: Context
    const opad: Bytes
    ghost const block: Bytes
    ghost var message: Bytes

    ghost predicate Valid()
      reads this, ctx, ctx.buffer
    {
      && ctx.Valid() && |block| == BLOCK && opad == XorAll(block, OPAD)
      && ctx.message == XorAll(block, IPAD) + message
    }

    /** hmac_sha256_Init. */
    constructor (h: Sha, key: Bytes)
      requires ValidSha(h) && 8 * |key| < TWO64
      ensures Valid() && ctx.h == h && block == KeyBlock(h, key) && message == []
      ensures fresh(ctx) && fresh(ctx.buffer)
    {
      var k := key;
      if |key| > BLOCK {
        k := Raw(h, key);
      }
      k := k + Zeros(BLOCK - |k|);
      var ipad := XorAll(k, IPAD);
      var c := new Context(h);
      assert [] + ipad == ipad;
      c.Update(ipad);
      assert ipad + [] == ipad;
      ctx, opad, block, message := c, XorAll(k, OPAD), k, [];
    }

    /** hmac_sha256_Update. */
    method Update(data: Bytes)
      requires Valid() && 8 * (BLOCK + |message + data|) < TWO64
      modifies this`message, ctx, ctx.buffer
      ensures Valid() && message == old(message) + data
    {
      ctx.Update(data);
      assert XorAll(block, IPAD) + (message + data) == (XorAll(block, IPAD) + message) + data;
      message := message + data;
    }

    /** hmac_sha256_Final. */
    method Final() returns (hmac: Bytes)
      requires Valid()
      modifies this, ctx, ctx.buffer
      ensures hmac == HmacBlock(ctx.h, block, old(message))
    {
      hide Hash;
      hmac := ctx.Final();
      HashLength(ctx.h, XorAll(block, IPAD) + message);
      var outer := new Context(ctx.h);
      assert [] + opad == opad;
      outer.Update(opad);
      outer.Update(hmac);
      hmac := outer.Final();
    }
  }

  /** hmac_sha256. */
  method HmacSha256(h: Sha, key: Bytes, msg: Bytes) returns (hmac: Bytes)
    requires ValidSha(h) && 8 * |key| < TWO64 && 8 * (BLOCK + |msg|) < TWO64
    ensures hmac == Hmac(h, key, msg)
  {
    hide Hash, KeyBlock;
    var hctx := new HmacContext(h, key);
    assert [] + msg == msg;
    hctx.Update(msg);
    hmac := hctx.Final();
  }

  // ----- Precomputed inner and outer digests

  /** hmac_sha256_prepare: the outer and the inner state after the padded key. */
  method Prepare(h: Sha, key: Bytes) returns (odig: Bytes, idig: Bytes)
    requires ValidSha(h) && 8 * |key| < TWO64
    ensures odig == OuterState(h, KeyBlock(h, key)) && idig == InnerState(h, KeyBlock(h, key))
  {
    var k := key;
    if |key| > BLOCK {
      k := Raw(h, key);
    }
    k := k + Zeros(BLOCK - |k|);
    ghost var block := k;
    k := XorAll(k, OPAD);
    odig := h.f(h.iv, k);
    PadSwitch(block, OPAD, IPAD);
    k := XorAll(XorAll(k, OPAD), IPAD);
    idig := h.f(h.iv, k);
  }

  function InnerState(h: Sha, block: Bytes): Bytes { h.f(h.iv, XorAll(block, IPAD)) }
  function OuterState(h: Sha, block: Bytes): Bytes { h.f(h.iv, XorAll(block, OPAD)) }

  lemma XorTwice(a: Byte, b: Byte)
    ensures Xor(Xor(a, b), b) == a
  {}

  /** Taking one pad off and putting the other on. */
  lemma PadSwitch(s: Bytes, a: Byte, b: Byte)
    ensures XorAll(XorAll(XorAll(s, a), a), b) == XorAll(s, b)
  {
    hide Xor;
    forall i | 0 <= i < |s| ensures XorAll(XorAll(s, a), a)[i] == s[i] { XorTwice(s[i], a); }
    assert XorAll(XorAll(s, a), a) == s;
  }

  /** The second block of a short message after one full block: the message, 0x80, zeros and the length. */
  function LastBlock(m: Bytes): (b: Bytes)
    requires |m| < SHORT_BLOCK
    ensures |b| == BLOCK
  {
    m + [Byte(0x80)] + Zeros(55 - |m|) + LengthField(BLOCK + |m|)
  }

  /** Hashing a block and a short message is one call of the compression function on a prepared state. */
  lemma HashPrepared(h: Sha, a: Bytes, m: Bytes)
    requires |a| == BLOCK && |m| < SHORT_BLOCK
    ensures Hash(h, a + m) == h.f(h.f(h.iv, a), LastBlock(m))
  {
    hide Hash, LengthField;
    PadOneBlock(h, a + m);
    assert Whole(a + m) == [] + a && Rest(a + m) == m;
    CompressBlock(h, [], a);
  }

  /** HMAC of a short message by two calls of the compression function with hand-made padding. */
  lemma HmacPrepared(h: Sha, block: Bytes, m: Bytes)
    requires ValidSha(h) && |block| == BLOCK && |m| < SHORT_BLOCK
    ensures var i := h.f(InnerState(h, block), LastBlock(m));
            |i| == DIGEST && HmacBlock(h, block, m) == h.f(OuterState(h, block), LastBlock(i))
  {
    hide Hash, LastBlock;
    HashPrepared(h, XorAll(block, IPAD), m);
    HashPrepared(h, XorAll(block, OPAD), h.f(InnerState(h, block), LastBlock(m)));
  }
}
