/**
  * The streaming interface of SHA-256 in crypto/sha2.c over an uninterpreted compression
  * function. Words are kept as their four bytes, most significant first, so a block is the
  * 64 message bytes it is made of and a state is 32 bytes.
  */
module Sha256 {
  /** Boxed, so that proofs about layout can leave the bits alone. */
  datatype Byte = Byte(bits: bv8)

  const BLOCK: nat := 64
  const DIGEST: nat := 32
  const SHORT_BLOCK: nat := 56
  const TWO32: nat := 0x1_0000_0000
  const TWO64: nat := 0x1_0000_0000_0000_0000

  type Bytes = seq<Byte>

  function ToByte(n: nat): Byte
    requires n < 256
  {
    Byte(n as bv8)
  }

  function Zeros(n: nat): (s: Bytes)
    ensures |s| == n && forall i :: 0 <= i < n ==> s[i] == Byte(0)
  {
    seq(n, i => Byte(0))
  }

  /** A 32-bit word, most significant byte first. */
  function Word(w: nat): (s: Bytes)
    requires w < TWO32
    ensures |s| == 4
  {
    [ToByte(w / 0x100_0000), ToByte(w / 0x1_0000 % 256), ToByte(w / 256 % 256), ToByte(w % 256)]
  }

  /** The compression function and the initial state. */
  datatype Sha = Sha(f: (Bytes, Bytes) -> Bytes, iv: Bytes)

  ghost predicate ValidSha(h: Sha) {
    |h.iv| == DIGEST && forall s, b {:trigger h.f(s, b)} :: |h.f(s, b)| == DIGEST
  }

  // ----- The hash, by section 5.1.1 of FIPS 180-4

  /** The state after the blocks of m. */
  function Compress(h: Sha, m: Bytes): Bytes
    requires |m| % BLOCK == 0
  {
    if m == [] then h.iv else h.f(Compress(h, m[..|m| - BLOCK]), m[|m| - BLOCK..])
  }

  /** The zeros that make the length congruent to 56 modulo 64, after the byte 0x80. */
  function PadZeros(n: nat): nat { (119 - n % 64) % 64 }

  function LengthField(n: nat): (s: Bytes)
    requires 8 * n < TWO64
    ensures |s| == 8
  {
    Word(8 * n / TWO32) + Word(8 * n % TWO32)
  }

  function Pad(m: Bytes): (p: Bytes)
    requires 8 * |m| < TWO64
    ensures |p| % BLOCK == 0
  {
    PadLength(|m|);
    m + [Byte(0x80)] + Zeros(PadZeros(|m|)) + LengthField(|m|)
  }

  lemma PadLength(n: nat)
    ensures (n + 1 + PadZeros(n) + 8) % BLOCK == 0
  {
    var q, r := n / 64, n % 64;
    assert n == 64 * q + r;
    var z := if r < 56 then 55 - r else 119 - r;
    assert PadZeros(n) == z;
    assert n + 1 + z + 8 == 64 * (if r < 56 then q + 1 else q + 2);
  }

  function Hash(h: Sha, m: Bytes): Bytes
    requires 8 * |m| < TWO64
  {
    Compress(h, Pad(m))
  }

  // ----- Whole blocks and the rest

  function Whole(m: Bytes): (w: Bytes)
    ensures |w| % BLOCK == 0
  {
    m[..|m| - |m| % BLOCK]
  }

  function Rest(m: Bytes): (r: Bytes)
    ensures |r| == |m| % BLOCK
  {
    m[|m| - |m| % BLOCK..]
  }

  lemma AppendShort(m: Bytes, c: Bytes)
    requires |m| % BLOCK + |c| < BLOCK
    ensures Whole(m + c) == Whole(m) && Rest(m + c) == Rest(m) + c
  {
    assert |m + c| % BLOCK == |m| % BLOCK + |c|;
  }

  lemma AppendFull(m: Bytes, c: Bytes)
    requires |m| % BLOCK + |c| == BLOCK
    ensures Whole(m + c) == Whole(m) + (Rest(m) + c) && Rest(m + c) == []
  {
    assert |m + c| % BLOCK == 0;
  }

  lemma CompressBlock(h: Sha, m: Bytes, b: Bytes)
    requires |m| % BLOCK == 0 && |b| == BLOCK
    ensures Compress(h, m + b) == h.f(Compress(h, m), b)
  {
    assert (m + b)[..|m + b| - BLOCK] == m && (m + b)[|m + b| - BLOCK..] == b;
  }

  // ----- The context

  class Context {
    const h: Sha
    const buffer: array<Byte>
    var state: Bytes
    var bitcount: nat
    ghost var message: Bytes

    /** The state covers the whole blocks of the message, the buffer holds the rest. */
    ghost predicate Valid()
      reads this, buffer
    {
      && ValidSha(h) && buffer.Length == BLOCK
      && 8 * |message| < TWO64 && bitcount == 8 * |message|
      && state == Compress(h, Whole(message))
      && buffer[..|message| % BLOCK] == Rest(message)
    }

    /** sha256_Init. */
    constructor (sha: Sha)
      requires ValidSha(sha)
      ensures Valid() && h == sha && message == [] && fresh(buffer)
    {
      h := sha;
      buffer := new Byte[BLOCK](_ => Byte(0));
      state, bitcount, message := sha.iv, 0, [];
    }

    /** A context whose first block is already compressed into `digest`, with `rest` waiting in the buffer. */
    constructor Resume(sha: Sha, digest: Bytes, rest: Bytes, ghost first: Bytes)
      requires ValidSha(sha) && |first| == BLOCK && digest == sha.f(sha.iv, first) && |rest| < BLOCK
      ensures Valid() && h == sha && message == first + rest && fresh(buffer)
    {
      h := sha;
      buffer := new Byte[BLOCK](i requires 0 <= i < BLOCK => if i < |rest| then rest[i] else Byte(0));
      state, bitcount, message := digest, 8 * (BLOCK + |rest|), first + rest;
      new;
      assert Whole(message) == [] + first && Rest(message) == rest;
      CompressBlock(sha, [], first);
    }

    method Fill(offset: nat, c: Bytes)
      requires buffer.Length == BLOCK && offset + |c| <= BLOCK
      modifies buffer
      ensures buffer[..offset + |c|] == old(buffer[..offset]) + c
    {
      for i := 0 to |c|
        invariant buffer[..offset + i] == old(buffer[..offset]) + c[..i]
      {
        buffer[offset + i] := c[i];
      }
      assert c[..|c|] == c;
    }

    /** Bytes that do not complete the block. */
    method Keep(c: Bytes)
      requires Valid() && |message| % BLOCK + |c| < BLOCK && 8 * |message + c| < TWO64
      modifies this`bitcount, this`message, buffer
      ensures Valid() && message == old(message) + c
    {
      hide ValidSha, Compress;
      AppendShort(message, c);
      Fill(bitcount / 8 % BLOCK, c);
      bitcount := bitcount + 8 * |c|;
      message := message + c;
    }

    /** Bytes that complete the block, which is then compressed. */
    method Complete(c: Bytes)
      requires Valid() && |message| % BLOCK + |c| == BLOCK && 8 * |message + c| < TWO64
      modifies this`bitcount, this`message, this`state, buffer
      ensures Valid() && message == old(message) + c && |message| % BLOCK == 0
    {
      hide ValidSha, Compress;
      AppendFull(message, c);
      CompressBlock(h, Whole(message), Rest(message) + c);
      Fill(bitcount / 8 % BLOCK, c);
      bitcount := bitcount + 8 * |c|;
      assert buffer[..] == buffer[..BLOCK] == Rest(message) + c;
      state := h.f(state, buffer[..]);
      message := message + c;
      assert buffer[..0] == [];
    }

    /** sha256_Update. */
    method Update(data: Bytes)
      requires Valid() && 8 * |message + data| < TWO64
      modifies this`bitcount, this`message, this`state, buffer
      ensures Valid() && message == old(message) + data
    {
      hide ValidSha, Compress, Whole, Rest;
      if |data| == 0 { return; }
      var pos := 0;
      var usedspace := bitcount / 8 % BLOCK;
      if usedspace > 0 {
        var freespace := BLOCK - usedspace;
        if |data| >= freespace {
          Complete(data[..freespace]);
          pos := freespace;
        } else {
          Keep(data);
          return;
        }
      }
      while |data| - pos >= BLOCK
        invariant 0 <= pos <= |data| && Valid() && |message| % BLOCK == 0
        invariant message == old(message) + data[..pos]
      {
        SplitAt(old(message), data, pos, pos + BLOCK);
        Complete(data[pos..pos + BLOCK]);
        pos := pos + BLOCK;
      }
      SplitAt(old(message), data, pos, |data|);
      if pos < |data| {
        Keep(data[pos..]);
      }
    }

    /** sha256_Final: the digest of everything fed in; the context is wiped. */
    method Final() returns (digest: Bytes)
      requires Valid()
      modifies this, buffer
      ensures digest == Hash(h, old(message))
    {
      hide ValidSha, Compress, Hash, LengthField, Word, Zeros, Whole;
      ghost var m, r := message, |message| % BLOCK;
      var usedspace := bitcount / 8 % BLOCK;
      Fill(usedspace, [Byte(0x80)]);
      usedspace := usedspace + 1;
      if usedspace > SHORT_BLOCK {
        Fill(usedspace, Zeros(BLOCK - usedspace));
        assert buffer[..] == buffer[..BLOCK] == Rest(m) + [Byte(0x80)] + Zeros(63 - r);
        state := h.f(state, buffer[..]);
        usedspace := 0;
        assert buffer[..0] == [];
      }
      Fill(usedspace, Zeros(SHORT_BLOCK - usedspace));
      Fill(SHORT_BLOCK, Word(bitcount / TWO32) + Word(bitcount % TWO32));
      LengthIs(|m|);
      assert buffer[..] == buffer[..BLOCK];
      state := h.f(state, buffer[..]);
      if r < SHORT_BLOCK { PadOneBlock(h, m); } else { PadTwoBlocks(h, m, buffer[..]); }
      digest := state;
      state, bitcount := [], 0;
    }
  }

  lemma SplitAt(m: Bytes, data: Bytes, i: nat, j: nat)
    requires i <= j <= |data|
    ensures m + data[..i] + data[i..j] == m + data[..j]
    ensures j == |data| ==> data[i..j] == data[i..] && m + data[..j] == m + data
  {
    assert data[..j] == data[..i] + data[i..j];
    if j == |data| { assert data[..j] == data; }
  }

  lemma LengthIs(n: nat)
    requires 8 * n < TWO64
    ensures LengthField(n) == Word(8 * n / TWO32) + Word(8 * n % TWO32)
  {}

  lemma PadOneBlock(h: Sha, m: Bytes)
    requires 8 * |m| < TWO64 && |m| % BLOCK < SHORT_BLOCK
    ensures Hash(h, m) == h.f(Compress(h, Whole(m)), Rest(m) + [Byte(0x80)] + Zeros(55 - |m| % BLOCK) + LengthField(|m|))
  {
    hide Compress, LengthField;
    var r := |m| % BLOCK;
    assert PadZeros(|m|) == 55 - r;
    var b := Rest(m) + [Byte(0x80)] + Zeros(55 - r) + LengthField(|m|);
    assert Pad(m) == Whole(m) + b;
    CompressBlock(h, Whole(m), b);
  }

  lemma PadTwoBlocks(h: Sha, m: Bytes, c: Bytes)
    requires 8 * |m| < TWO64 && |m| % BLOCK >= SHORT_BLOCK && c == Zeros(SHORT_BLOCK) + LengthField(|m|)
    ensures Hash(h, m) == h.f(h.f(Compress(h, Whole(m)), Rest(m) + [Byte(0x80)] + Zeros(63 - |m| % BLOCK)), c)
  {
    hide Compress, LengthField;
    var r := |m| % BLOCK;
    assert PadZeros(|m|) == 119 - r;
    var b := Rest(m) + [Byte(0x80)] + Zeros(63 - r);
    assert Zeros(119 - r) == Zeros(63 - r) + Zeros(56);
    assert Pad(m) == (Whole(m) + b) + c;
    CompressBlock(h, Whole(m), b);
    CompressBlock(h, Whole(m) + b, c);
  }

  /** sha256_Raw. */
  method Raw(h: Sha, data: Bytes) returns (digest: Bytes)
    requires ValidSha(h) && 8 * |data| < TWO64
    ensures digest == Hash(h, data) && |digest| == DIGEST
  {
    var ctx := new Context(h);
    assert [] + data == data;
    ctx.Update(data);
    digest := ctx.Final();
    HashLength(h, data);
  }

  lemma HashLength(h: Sha, m: Bytes)
    requires ValidSha(h) && 8 * |m| < TWO64
    ensures |Hash(h, m)| == DIGEST
  {
    assert Pad(m) != [];
  }

  /** However a message is split into updates, the digest is that of the whole. */
  method Digest(h: Sha, parts: seq<Bytes>) returns (digest: Bytes)
    requires ValidSha(h) && 8 * |Join(parts)| < TWO64
    ensures digest == Hash(h, Join(parts))
  {
    hide ValidSha, Hash;
    var ctx := new Context(h);
    for i := 0 to |parts|
      invariant ctx.Valid() && ctx.h == h && fresh(ctx) && fresh(ctx.buffer) && ctx.message == Join(parts[..i])
    {
      JoinPrefix(parts, i + 1);
      assert parts[..i + 1][..i] == parts[..i];
      ctx.Update(parts[i]);
    }
    assert parts[..|parts|] == parts;
    digest := ctx.Final();
  }

  function Join(parts: seq<Bytes>): Bytes {
    if parts == [] then [] else Join(parts[..|parts| - 1]) + parts[|parts| - 1]
  }

  lemma {:induction false} JoinPrefix(parts: seq<Bytes>, i: nat)
    requires i <= |parts|
    ensures |Join(parts[..i])| <= |Join(parts)|
    decreases |parts|
  {
    if i < |parts| {
      var p := parts[..|parts| - 1];
      assert p[..i] == parts[..i];
      JoinPrefix(p, i);
    } else {
      assert parts[..i] == parts;
    }
  }
}
