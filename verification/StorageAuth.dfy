/**
  * The authentication of storage/storage.c: every protected key contributes HMAC(SAK, key) to
  * a running exclusive or, and the HMAC of that sum is the storage tag.
  */
module StorageAuth {
  import opened Sha256
  import opened HmacSha256
  import opened HmacDrbg

  const STORAGE_TAG_KEY: nat := 5
  const STORAGE_TAG_SIZE: nat := 16
  const KEY_WORD_LENGTH: nat := 528

  /** is_protected: neither public nor one of the storage's own entries. */
  predicate Protected(key: int) { 0 < key / 256 < 128 }

  // ----- Exclusive or of digests

  lemma XorLaws(a: Byte, b: Byte, c: Byte)
    ensures Xor(a, b) == Xor(b, a) && Xor(Xor(a, b), c) == Xor(a, Xor(b, c))
    ensures Xor(a, a) == Byte(0) && Xor(a, Byte(0)) == a
  {}

  function XorBytes(a: Bytes, b: Bytes): (r: Bytes)
    requires |a| == |b|
    ensures |r| == |a| && forall i :: 0 <= i < |r| ==> r[i] == Xor(a[i], b[i])
  {
    seq(|a|, i requires 0 <= i < |a| => Xor(a[i], b[i]))
  }

  lemma XorComm(a: Bytes, b: Bytes)
    requires |a| == |b|
    ensures XorBytes(a, b) == XorBytes(b, a)
  {
    hide Xor;
    forall i | 0 <= i < |a| ensures XorBytes(a, b)[i] == XorBytes(b, a)[i] { XorLaws(a[i], b[i], a[i]); }
  }

  lemma XorAssoc(a: Bytes, b: Bytes, c: Bytes)
    requires |a| == |b| == |c|
    ensures XorBytes(XorBytes(a, b), c) == XorBytes(a, XorBytes(b, c))
  {
    hide Xor;
    var l, r := XorBytes(XorBytes(a, b), c), XorBytes(a, XorBytes(b, c));
    forall i | 0 <= i < |a| ensures l[i] == r[i] { XorLaws(a[i], b[i], c[i]); }
  }

  lemma XorZero(a: Bytes)
    ensures XorBytes(a, Zeros(|a|)) == a && XorBytes(Zeros(|a|), a) == a && XorBytes(a, a) == Zeros(|a|)
  {
    hide Xor;
    forall i | 0 <= i < |a|
      ensures XorBytes(a, Zeros(|a|))[i] == a[i] && XorBytes(Zeros(|a|), a)[i] == a[i] && XorBytes(a, a)[i] == Byte(0)
    {
      XorLaws(a[i], a[i], a[i]);
      XorLaws(Byte(0), a[i], a[i]);
    }
  }

  lemma XorCancel(a: Bytes, b: Bytes)
    requires |a| == |b|
    ensures XorBytes(XorBytes(a, b), b) == a
  {
    XorAssoc(a, b, b);
    XorZero(b);
    XorZero(a);
  }

  /** Exclusive or with b changes a unless b is zero. */
  lemma XorChanges(a: Bytes, b: Bytes)
    requires |a| == |b|
    ensures XorBytes(a, b) == a <==> b == Zeros(|b|)
  {
    XorZero(a);
    if XorBytes(a, b) == a {
      XorComm(a, b);
      XorCancel(b, a);
      XorZero(a);
    }
  }

  // ----- The authentication sum

  /** The two bytes of a key as they lie in memory, least significant first. */
  function KeyBytes(key: nat): (b: Bytes)
    requires key < 0x1_0000
    ensures |b| == 2
  {
    [ToByte(key % 256), ToByte(key / 256)]
  }

  /** What a protected key contributes. */
  function KeyTag(h: Sha, sak: Bytes, key: int): (d: Bytes)
    requires ValidSha(h) && |sak| <= BLOCK && Protected(key)
    ensures |d| == DIGEST
  {
    Hmac(h, sak, KeyBytes(key))
  }

  /** The exclusive or of HMAC(SAK, key) over a set of protected keys. */
  ghost function AuthSum(h: Sha, sak: Bytes, keys: set<int>): (d: Bytes)
    requires ValidSha(h) && |sak| <= BLOCK && forall k :: k in keys ==> Protected(k)
    ensures |d| == DIGEST
    decreases |keys|
  {
    if k :| k in keys then XorBytes(AuthSum(h, sak, keys - {k}), KeyTag(h, sak, k)) else Zeros(32)
  }

  lemma SumOfNothing(h: Sha, sak: Bytes)
    requires ValidSha(h) && |sak| <= BLOCK
    ensures AuthSum(h, sak, {}) == Zeros(32)
  {}

  /** Taking a key out takes its share out of the sum, in whatever order the sum was formed. */
  lemma {:induction false} SumRemove(h: Sha, sak: Bytes, keys: set<int>, key: int)
    requires ValidSha(h) && |sak| <= BLOCK && (forall k :: k in keys ==> Protected(k)) && key in keys
    ensures AuthSum(h, sak, keys) == XorBytes(AuthSum(h, sak, keys - {key}), KeyTag(h, sak, key))
    decreases |keys|
  {
    hide KeyTag, XorBytes, Protected;
    var j :| j in keys && AuthSum(h, sak, keys) == XorBytes(AuthSum(h, sak, keys - {j}), KeyTag(h, sak, j));
    if j != key {
      SumRemove(h, sak, keys - {j}, key);
      SumRemove(h, sak, keys - {key}, j);
      assert keys - {j} - {key} == keys - {key} - {j};
      XorSwap(AuthSum(h, sak, keys - {j} - {key}), KeyTag(h, sak, key), KeyTag(h, sak, j));
    }
  }

  lemma XorSwap(s: Bytes, a: Bytes, b: Bytes)
    requires |s| == |a| == |b|
    ensures XorBytes(XorBytes(s, a), b) == XorBytes(XorBytes(s, b), a)
  {
    XorAssoc(s, a, b);
    XorAssoc(s, b, a);
    XorComm(a, b);
  }

  /** A new key adds its share, and a key that goes takes it away. */
  lemma SumToggle(h: Sha, sak: Bytes, keys: set<int>, key: int)
    requires ValidSha(h) && |sak| <= BLOCK && (forall k :: k in keys ==> Protected(k)) && Protected(key)
    ensures key !in keys ==> AuthSum(h, sak, keys + {key}) == XorBytes(AuthSum(h, sak, keys), KeyTag(h, sak, key))
    ensures key in keys ==> AuthSum(h, sak, keys - {key}) == XorBytes(AuthSum(h, sak, keys), KeyTag(h, sak, key))
  {
    hide KeyTag, XorBytes, AuthSum, Protected;
    if key in keys {
      SumRemove(h, sak, keys, key);
      XorCancel(AuthSum(h, sak, keys - {key}), KeyTag(h, sak, key));
    } else {
      SumRemove(h, sak, keys + {key}, key);
      assert keys + {key} - {key} == keys;
    }
  }

  /** The tag kept under STORAGE_TAG_KEY. */
  function StorageTag(h: Sha, sak: Bytes, sum: Bytes): (t: Bytes)
    requires ValidSha(h) && |sak| <= BLOCK && |sum| == DIGEST
    ensures |t| == STORAGE_TAG_SIZE
  {
    Hmac(h, sak, sum)[..STORAGE_TAG_SIZE]
  }

  // ----- Hand-made padding

  /** The first word of the padded key: its two bytes, 0x80 and 0. */
  function KeyWord(k: nat): nat
    requires k < 0x1_0000
  {
    (k % 256) * 0x100_0000 + (k / 256) * 0x1_0000 + 0x8000
  }

  lemma KeyWordBytes(k: nat)
    requires k < 0x1_0000
    ensures KeyWord(k) < Sha256.TWO32
    ensures Word(KeyWord(k)) == KeyBytes(k) + [Byte(0x80), Byte(0)]
  {
    var lo, hi := k % 256, k / 256;
    var w := KeyWord(k);
    assert w / 0x100_0000 == lo;
    assert w / 0x1_0000 == lo * 256 + hi;
    assert (lo * 256 + hi) % 256 == hi;
    assert w / 256 == (lo * 256 + hi) * 256 + 0x80;
    assert w / 256 % 256 == 0x80;
    assert w % 256 == 0;
    assert ToByte(0x80) == Byte(0x80) && ToByte(0) == Byte(0);
    hide ToByte;
  }

  lemma KeyLength()
    ensures LengthField(66) == Word(0) + Word(KEY_WORD_LENGTH)
  {
    hide Word;
  }

  lemma PaddedKey(k: nat)
    requires k < 0x1_0000
    ensures KeyWord(k) < Sha256.TWO32
    ensures SetWord(SetWord(Zeros(BLOCK), 15, KEY_WORD_LENGTH), 0, KeyWord(k)) == LastBlock(KeyBytes(k))
  {
    KeyWordBytes(k);
    KeyLength();
    HmacDrbg.ZeroWord();
    hide Word, LengthField, KeyBytes, KeyWord;
    var b := SetWord(Zeros(BLOCK), 15, KEY_WORD_LENGTH);
    assert b[4..60] == Zeros(56);
    assert Zeros(56) == Zeros(52) + Zeros(4);
    assert [Byte(0x80), Byte(0)] + Zeros(52) == [Byte(0x80)] + Zeros(53);
  }

  /** One protected entry's HMAC by two compressions; g and hb keep their padding between entries. */
  method KeyMac(h: Sha, sak: Bytes, k: nat, idig: Bytes, odig: Bytes, hb0: Bytes, ghost d: Bytes) returns (mac: Bytes, hb: Bytes)
    requires ValidSha(h) && |sak| <= BLOCK && k < 0x1_0000 && |d| == DIGEST && hb0 == LastBlock(d)
    requires idig == InnerState(h, KeyBlock(h, sak)) && odig == OuterState(h, KeyBlock(h, sak))
    ensures mac == Hmac(h, sak, KeyBytes(k)) && |mac| == DIGEST && hb == LastBlock(mac)
  {
    hide LastBlock, SetWord, HmacBlock, KeyBlock, KeyWord, InnerState, OuterState;
    PaddedKey(k);
    var g := SetWord(Zeros(BLOCK), 15, KEY_WORD_LENGTH);
    g := SetWord(g, 0, KeyWord(k));
    HmacPrepared(h, KeyBlock(h, sak), KeyBytes(k));
    var inner := h.f(idig, g);
    PaddedAgain(d, inner);
    hb := SetDigest(hb0, inner);
    mac := h.f(odig, hb);
    PaddedAgain(inner, mac);
    hb := SetDigest(hb, mac);
  }

  /** The tag of the recomputed sum, by two more compressions. */
  method SumMac(h: Sha, sak: Bytes, idig: Bytes, odig: Bytes, hb0: Bytes, total: Bytes, ghost d: Bytes) returns (tag: Bytes)
    requires ValidSha(h) && |sak| <= BLOCK && |total| == |d| == DIGEST && hb0 == LastBlock(d)
    requires idig == InnerState(h, KeyBlock(h, sak)) && odig == OuterState(h, KeyBlock(h, sak))
    ensures |tag| == DIGEST && tag[..STORAGE_TAG_SIZE] == StorageTag(h, sak, total)
  {
    hide LastBlock, KeyBlock, InnerState, OuterState, HmacBlock;
    PaddedAgain(d, total);
    var hb := SetDigest(hb0, total);
    HmacPrepared(h, KeyBlock(h, sak), total);
    var inner := h.f(idig, hb);
    PaddedAgain(total, inner);
    hb := SetDigest(hb, inner);
    tag := h.f(odig, hb);
  }
}
