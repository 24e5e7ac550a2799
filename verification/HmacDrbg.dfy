/**
  * The HMAC-DRBG of crypto/hmac_drbg.c. The context keeps the inner and outer digest of K and
  * the padded second block of HMAC(K, V); it always stands for a pair (K, V).
  */
module HmacDrbg {
  import opened Sha256
  import opened HmacSha256

  /** Word i of a block replaced. */
  function SetWord(b: Bytes, i: nat, w: nat): (r: Bytes)
    requires |b| == BLOCK && i < 16 && w < Sha256.TWO32
    ensures |r| == BLOCK
  {
    b[..4 * i] + Word(w) + b[4 * i + 4..]
  }

  /** The first eight words of a block replaced by a digest. */
  function SetDigest(b: Bytes, d: Bytes): (r: Bytes)
    requires |b| == BLOCK && |d| == DIGEST
    ensures |r| == BLOCK
  {
    d + b[DIGEST..]
  }

  const PAD32: nat := 0x8000_0000
  const PAD33: nat := 0x0080_0000
  const LENGTH32: nat := 768
  const LENGTH33: nat := 776

  lemma PadWord32() ensures Word(PAD32) == [Byte(0x80), Byte(0), Byte(0), Byte(0)] {}
  lemma PadWord33() ensures Word(PAD33) == [Byte(0), Byte(0x80), Byte(0), Byte(0)] {}
  lemma ZeroWord() ensures Word(0) == [Byte(0), Byte(0), Byte(0), Byte(0)] == Zeros(4) {}

  lemma Words()
    ensures Word(PAD32) == [Byte(0x80), Byte(0), Byte(0), Byte(0)]
    ensures Word(PAD33) == [Byte(0), Byte(0x80), Byte(0), Byte(0)]
    ensures Word(0) == Zeros(4)
    ensures LengthField(96) == Word(0) + Word(LENGTH32)
    ensures LengthField(97) == Word(0) + Word(LENGTH33)
  {
    hide Word;
    PadWord32();
    PadWord33();
    ZeroWord();
  }

  /** A digest padded for the outer hash. */
  lemma PaddedDigest(d: Bytes)
    requires |d| == DIGEST
    ensures SetWord(SetWord(d + Zeros(32), 8, PAD32), 15, LENGTH32) == LastBlock(d)
    ensures SetWord(SetWord(LastBlock(d), 8, 0), 15, 0) == d + Zeros(32)
  {
    Words();
    hide Word, LengthField;
    var b := SetWord(d + Zeros(32), 8, PAD32);
    assert b == d + [Byte(0x80)] + Zeros(31);
    assert b[..60] == d + [Byte(0x80)] + Zeros(27);
    assert Zeros(27) == Zeros(23) + Zeros(4);
  }

  /** V followed by a zero byte, padded, and back. */
  lemma PaddedZero(d: Bytes)
    requires |d| == DIGEST
    ensures SetWord(SetWord(LastBlock(d), 8, PAD33), 15, LENGTH33) == LastBlock(d + [Byte(0)])
    ensures SetWord(SetWord(LastBlock(d + [Byte(0)]), 8, PAD32), 15, LENGTH32) == LastBlock(d)
  {
    Words();
    hide Word, LengthField;
  }

  lemma PaddedAgain(d: Bytes, e: Bytes)
    requires |d| == DIGEST == |e|
    ensures SetDigest(LastBlock(d), e) == LastBlock(e)
  {
    hide LengthField;
  }

  /** The block of a 32-byte key. */
  function Key32(k: Bytes): (b: Bytes)
    requires |k| == DIGEST
    ensures |b| == BLOCK
  {
    k + Zeros(32)
  }

  // ----- What the steps compute

  datatype State = State(k: Bytes, v: Bytes)

  ghost predicate ValidState(s: State) { |s.k| == DIGEST && |s.v| == DIGEST }

  /** HMAC with a 32-byte key. */
  function Mac(h: Sha, k: Bytes, m: Bytes): (d: Bytes)
    requires ValidSha(h) && |k| == DIGEST && 8 * (BLOCK + |m|) < Sha256.TWO64
    ensures |d| == DIGEST && d == Hmac(h, k, m)
  {
    HmacBlock(h, Key32(k), m)
  }

  /** K = HMAC(K, V || domain || data). */
  function StepK(h: Sha, s: State, domain: Byte, data: Bytes): (t: State)
    requires ValidSha(h) && ValidState(s) && 8 * (100 + |data|) < Sha256.TWO64
    ensures ValidState(t)
  {
    State(Mac(h, s.k, s.v + [domain] + data), s.v)
  }

  /** V = HMAC(K, V). */
  function StepV(h: Sha, s: State): (t: State)
    requires ValidSha(h) && ValidState(s)
    ensures ValidState(t)
  {
    State(s.k, Mac(h, s.k, s.v))
  }

  /** Steps d to g of section 3.2 of RFC 6979, or the update function of HMAC_DRBG for nonempty data. */
  function Seeded(h: Sha, s: State, data: Bytes): (t: State)
    requires ValidSha(h) && ValidState(s) && 8 * (100 + |data|) < Sha256.TWO64
    ensures ValidState(t)
  {
    StepV(h, StepK(h, StepV(h, StepK(h, s, Byte(0), data)), Byte(1), data))
  }

  /** V after n further steps, and their concatenation. */
  function Stream(h: Sha, s: State, n: nat): (r: (State, Bytes))
    requires ValidSha(h) && ValidState(s)
    ensures ValidState(r.0) && |r.1| == 32 * n && r.0.k == s.k
  {
    if n == 0 then (s, []) else
      var (t, out) := Stream(h, s, n - 1);
      var u := StepV(h, t);
      (u, out + u.v)
  }

  // ----- The context

  class Drbg {
    const h: Sha
    var idig: Bytes
    var odig: Bytes
    var v: Bytes
    ghost var state: State

    ghost predicate Valid()
      reads this
    {
      && ValidSha(h) && ValidState(state)
      && idig == InnerState(h, Key32(state.k)) && odig == OuterState(h, Key32(state.k))
      && v == LastBlock(state.v)
    }

    /** The second hash of HMAC and the digests of the new key. */
    method FinishK(inner: Bytes, ghost m: Bytes)
      requires Valid() && 8 * (BLOCK + |m|) < Sha256.TWO64 && inner == Inner(h, Key32(state.k), m) && |inner| == DIGEST
      modifies this
      ensures Valid() && state == State(Mac(h, old(state).k, m), old(state).v)
    {
      hide LastBlock, Hash, HmacBlock, SetWord;
      var b := inner + Zeros(32);
      PaddedDigest(inner);
      b := SetWord(b, 8, PAD32);
      b := SetWord(b, 15, LENGTH32);
      OuterHash(h, Key32(state.k), m);
      var k := h.f(odig, b);
      b := SetDigest(b, k);
      PaddedAgain(inner, k);
      PaddedDigest(k);
      b := SetWord(b, 8, 0);
      b := SetWord(b, 15, 0);
      ghost var block := b;
      b := XorAll(b, IPAD);
      idig := h.f(h.iv, b);
      PadSwitch(block, IPAD, OPAD);
      b := XorAll(XorAll(b, IPAD), OPAD);
      odig := h.f(h.iv, b);
      state := State(k, state.v);
    }

    /** The first hash of HMAC(K, V || 0), with the padding written into v and taken out again. */
    method InnerShort() returns (inner: Bytes)
      requires Valid()
      modifies this`v
      ensures Valid() && inner == Inner(h, Key32(state.k), state.v + [Byte(0)]) && |inner| == DIGEST
    {
      hide LastBlock, Hash, SetWord;
      PaddedZero(state.v);
      v := SetWord(v, 8, PAD33);
      v := SetWord(v, 15, LENGTH33);
      inner := h.f(idig, v);
      v := SetWord(v, 8, PAD32);
      v := SetWord(v, 15, LENGTH32);
      InnerHash(h, Key32(state.k), state.v + [Byte(0)]);
    }

    /** The first hash of HMAC(K, V || domain || data), resumed from the inner digest. */
    method InnerLong(domain: Byte, data1: Bytes, data2: Bytes) returns (inner: Bytes)
      requires Valid() && 8 * (100 + |data1| + |data2|) < Sha256.TWO64
      ensures inner == Inner(h, Key32(state.k), state.v + [domain] + (data1 + data2)) && |inner| == DIGEST
    {
      ghost var first, rest := XorAll(Key32(state.k), IPAD), state.v + [domain];
      FirstDigest(state.v);
      hide LastBlock, Hash, XorAll, Key32;
      var ctx := new Context.Resume(h, idig, v[..DIGEST] + [domain], first);
      ctx.Update(data1);
      ctx.Update(data2);
      ghost var m := rest + (data1 + data2);
      Regroup(first, rest, data1, data2);
      HashLength(h, first + m);
      inner := ctx.Final();
    }

    /** update_k. With no data the domain byte is taken to be zero. */
    method UpdateK(domain: Byte, data1: Bytes, data2: Bytes)
      requires Valid() && 8 * (100 + |data1| + |data2|) < Sha256.TWO64
      modifies this
      ensures Valid()
      ensures state == StepK(h, old(state), if data1 + data2 == [] then Byte(0) else domain, data1 + data2)
    {
      hide LastBlock, Inner, Mac, ValidSha;
      var inner: Bytes;
      if |data1| + |data2| == 0 {
        assert data1 + data2 == [] && state.v + [Byte(0)] == state.v + [Byte(0)] + (data1 + data2);
        inner := InnerShort();
        FinishK(inner, state.v + [Byte(0)]);
      } else {
        assert data1 + data2 != [];
        inner := InnerLong(domain, data1, data2);
        FinishK(inner, state.v + [domain] + (data1 + data2));
      }
    }

    /** update_v. */
    method UpdateV()
      requires Valid()
      modifies this`v, this`state
      ensures Valid() && state == StepV(h, old(state))
    {
      hide LastBlock, Hash;
      HmacPrepared(h, Key32(state.k), state.v);
      var i := h.f(idig, v);
      PaddedAgain(state.v, i);
      v := SetDigest(v, i);
      var o := h.f(odig, v);
      PaddedAgain(i, o);
      v := SetDigest(v, o);
      state := State(state.k, o);
    }

    /** hmac_drbg_reseed. Without entropy it stops after one round, whatever the additional input. */
    method Reseed(entropy: Bytes, addin: Bytes)
      requires Valid() && 8 * (100 + |entropy| + |addin|) < Sha256.TWO64
      modifies this
      ensures Valid()
      ensures entropy != [] ==> state == Seeded(h, old(state), entropy + addin)
      ensures entropy == [] ==> state == StepV(h, StepK(h, old(state), Byte(0), addin))
    {
      hide StepK, StepV;
      assert entropy == [] ==> entropy + addin == addin;
      UpdateK(Byte(0), entropy, addin);
      UpdateV();
      if |entropy| == 0 { return; }
      assert entropy + addin != [];
      UpdateK(Byte(1), entropy, addin);
      UpdateV();
    }

    /** hmac_drbg_init: K = 0...0, V = 1...1, then the seed. */
    constructor (sha: Sha, entropy: Bytes, nonce: Bytes)
      requires ValidSha(sha) && 8 * (100 + |entropy| + |nonce|) < Sha256.TWO64
      ensures Valid() && h == sha
      ensures entropy != [] ==> state == Seeded(sha, Initial(), entropy + nonce)
      ensures entropy == [] ==> state == StepV(sha, StepK(sha, Initial(), Byte(0), nonce))
    {
      h := sha;
      var b := seq(BLOCK, i => IPAD);
      idig := sha.f(sha.iv, b);
      b := seq(BLOCK, i => OPAD);
      odig := sha.f(sha.iv, b);
      v := SetWord(SetWord(seq(DIGEST, i => Byte(1)) + Zeros(32), 8, PAD32), 15, LENGTH32);
      state := Initial();
      new;
      hide LastBlock, SetWord, StepK, StepV;
      PaddedDigest(Initial().v);
      ZeroKey();
      Reseed(entropy, nonce);
    }

    /** hmac_drbg_generate: the first len bytes of the stream, then one more update without data. */
    method Generate(len: nat) returns (buf: Bytes)
      requires Valid()
      modifies this
      ensures Valid() && |buf| == len
      ensures var n := (len + 31) / 32;
              var (s, out) := Stream(h, old(state), n);
              buf == out[..len] && state == StepV(h, StepK(h, s, Byte(0), []))
    {
      hide StepK, StepV, LastBlock;
      buf := [];
      ghost var n := 0;
      while |buf| < len
        invariant Valid() && |buf| <= len
        invariant Stream(h, old(state), n).0 == state
        invariant |buf| == (if 32 * n <= len then 32 * n else len) && (|buf| < len || n == (len + 31) / 32)
        invariant buf == Stream(h, old(state), n).1[..|buf|]
      {
        ghost var out := Stream(h, old(state), n).1;
        UpdateV();
        var j := 0;
        FirstDigest(state.v);
        ghost var start := buf;
        while j < DIGEST && |buf| < len
          invariant 0 <= j <= DIGEST && |start| + j == |buf| <= len
          invariant buf == start + state.v[..j]
        {
          buf := buf + [v[j]];
          j := j + 1;
        }
        n := n + 1;
        assert Stream(h, old(state), n).1 == out + state.v;
        assert start == out;
      }
      UpdateK(Byte(0), [], []);
      UpdateV();
    }
  }

  function Initial(): (s: State)
    ensures ValidState(s)
  {
    State(Zeros(32), seq(DIGEST, i => Byte(1)))
  }

  lemma Regroup(a: Bytes, b: Bytes, c: Bytes, d: Bytes)
    ensures a + b + c + d == a + (b + (c + d))
  {}

  lemma FirstDigest(d: Bytes)
    requires |d| == DIGEST
    ensures LastBlock(d)[..DIGEST] == d
  {}

  lemma ZeroKey()
    ensures XorAll(Key32(Zeros(32)), IPAD) == seq(BLOCK, i => IPAD)
    ensures XorAll(Key32(Zeros(32)), OPAD) == seq(BLOCK, i => OPAD)
  {
    assert Xor(Byte(0), IPAD) == IPAD && Xor(Byte(0), OPAD) == OPAD;
    hide Xor;
  }

  lemma InnerHash(h: Sha, block: Bytes, m: Bytes)
    requires ValidSha(h) && |block| == BLOCK && |m| < SHORT_BLOCK
    ensures Inner(h, block, m) == h.f(InnerState(h, block), LastBlock(m)) && |Inner(h, block, m)| == DIGEST
  {
    hide Hash, LastBlock;
    HashPrepared(h, XorAll(block, IPAD), m);
  }

  lemma OuterHash(h: Sha, block: Bytes, m: Bytes)
    requires ValidSha(h) && |block| == BLOCK && 8 * (BLOCK + |m|) < Sha256.TWO64
    ensures |Inner(h, block, m)| == DIGEST
    ensures HmacBlock(h, block, m) == h.f(OuterState(h, block), LastBlock(Inner(h, block, m)))
  {
    hide Hash, LastBlock;
    HashLength(h, XorAll(block, IPAD) + m);
    HashPrepared(h, XorAll(block, OPAD), Inner(h, block, m));
  }
}
