/** The entries of storage/storage.c as they lie in the flash store: protected ones sealed, public ones plain. */
module SealedEntries {
  import opened Sha256
  import opened HmacSha256
  import opened StorageAuth
  import NorcowLayout
  import NorcowEdits

  type Flash = seq<NorcowLayout.byte>

  const IV_SIZE: nat := 12
  const TAG_SIZE: nat := 16

  // ----- Bytes in flash

  function FlashByte(b: Byte): NorcowLayout.byte { b.bits as int }

  function ToFlash(s: Bytes): (r: Flash)
    ensures |r| == |s| && forall i :: 0 <= i < |s| ==> r[i] == FlashByte(s[i])
  {
    seq(|s|, i requires 0 <= i < |s| => FlashByte(s[i]))
  }

  function FromFlash(r: Flash): (s: Bytes)
    ensures |s| == |r| && forall i :: 0 <= i < |r| ==> s[i] == ToByte(r[i])
  {
    seq(|r|, i requires 0 <= i < |r| => ToByte(r[i]))
  }

  lemma ByteRoundTrip(b: Byte)
    ensures ToByte(FlashByte(b)) == b
  {}

  lemma FlashRoundTrip(s: Bytes)
    ensures FromFlash(ToFlash(s)) == s
  {
    hide FlashByte, ToByte;
    forall i | 0 <= i < |s| ensures FromFlash(ToFlash(s))[i] == s[i] { ByteRoundTrip(s[i]); }
  }

  lemma FlashConcat(a: Bytes, b: Bytes)
    ensures ToFlash(a + b) == ToFlash(a) + ToFlash(b)
  {
    hide FlashByte;
  }

  // ----- Authenticated encryption

  /** The cipher under the data encryption key: key stream and tag. */
  datatype Aead = Aead(stream: (Bytes, nat) -> Byte, tag: (Bytes, nat, Bytes) -> Bytes)

  ghost predicate ValidAead(a: Aead) {
    forall iv, key, c {:trigger a.tag(iv, key, c)} :: |a.tag(iv, key, c)| == TAG_SIZE
  }

  /** Encryption and decryption of the bytes from position `at` on. */
  function Crypt(a: Aead, iv: Bytes, at: nat, p: Bytes): (c: Bytes)
    ensures |c| == |p| && forall i :: 0 <= i < |p| ==> c[i] == Xor(p[i], a.stream(iv, at + i))
  {
    seq(|p|, i requires 0 <= i < |p| => Xor(p[i], a.stream(iv, at + i)))
  }

  lemma CryptTwice(a: Aead, iv: Bytes, at: nat, p: Bytes)
    ensures Crypt(a, iv, at, Crypt(a, iv, at, p)) == p
  {
    hide Xor;
    var c := Crypt(a, iv, at, p);
    forall i | 0 <= i < |p| ensures Crypt(a, iv, at, c)[i] == p[i] { XorTwice(p[i], a.stream(iv, at + i)); }
  }

  /** Encrypting a prefix and the next piece is encrypting the longer prefix. */
  lemma CryptParts(a: Aead, iv: Bytes, p: Bytes, i: nat, j: nat)
    requires i <= j <= |p|
    ensures Crypt(a, iv, 0, p[..i]) + Crypt(a, iv, i, p[i..j]) == Crypt(a, iv, 0, p[..j])
  {
    hide Xor;
  }

  /** What is stored under a protected key: IV, tag and ciphertext. */
  function Sealed(a: Aead, iv: Bytes, key: nat, p: Bytes): Bytes {
    var c := Crypt(a, iv, 0, p);
    iv + a.tag(iv, key, c) + c
  }

  /** A stored value carries the tag of its own ciphertext. */
  predicate Intact(a: Aead, key: nat, v: Bytes) {
    |v| >= IV_SIZE + TAG_SIZE && a.tag(v[..IV_SIZE], key, v[IV_SIZE + TAG_SIZE..]) == v[IV_SIZE..IV_SIZE + TAG_SIZE]
  }

  function Opened(a: Aead, v: Bytes): Bytes {
    if |v| < IV_SIZE + TAG_SIZE then [] else Crypt(a, v[..IV_SIZE], 0, v[IV_SIZE + TAG_SIZE..])
  }

  /** Opening undoes sealing. */
  lemma OpenSealed(a: Aead, iv: Bytes, key: nat, p: Bytes)
    requires ValidAead(a) && |iv| == IV_SIZE
    ensures var v := Sealed(a, iv, key, p);
            |v| == IV_SIZE + TAG_SIZE + |p| && Intact(a, key, v) && Opened(a, v) == p
    ensures var v := Sealed(a, iv, key, p);
            && v[..12] == iv && v[12..28] == a.tag(iv, key, v[28..])
            && forall i :: 0 <= i < |p| ==> v[28 + i] == Xor(p[i], a.stream(iv, i))
  {
    hide Xor;
    var c := Crypt(a, iv, 0, p);
    var v := iv + a.tag(iv, key, c) + c;
    assert v[..IV_SIZE] == iv && v[IV_SIZE..IV_SIZE + TAG_SIZE] == a.tag(iv, key, c) && v[IV_SIZE + TAG_SIZE..] == c;
    CryptTwice(a, iv, 0, p);
  }

  // ----- What the store stands for

  /** Neither deleted nor one of the storage's own entries: APP_STORAGE is 0. */
  predicate Application(key: int) { key / 256 != 0 }

  function Overhead(key: int): nat { if Protected(key) then IV_SIZE + TAG_SIZE else 0 }

  function Plain(a: Aead, key: int, v: Flash): Bytes {
    if Protected(key) then Opened(a, FromFlash(v)) else FromFlash(v)
  }

  /** The application's entries, decrypted. */
  ghost function View(a: Aead, m: map<int, Flash>): map<int, Bytes> {
    map k | k in m && Application(k) :: Plain(a, k, m[k])
  }

  ghost predicate AllIntact(a: Aead, m: map<int, Flash>) {
    forall k :: k in m && Protected(k) ==> Intact(a, k, FromFlash(m[k]))
  }

  /** The storage's own entries. */
  ghost function Own(m: map<int, Flash>): map<int, Flash> {
    map k | k in m && !Application(k) :: m[k]
  }

  ghost function ProtectedKeys<T>(m: map<int, T>): (s: set<int>)
    ensures forall k :: k in s <==> k in m && Protected(k)
  {
    set k | k in m && Protected(k)
  }

  lemma ViewKeys(a: Aead, m: map<int, Flash>)
    ensures ProtectedKeys(View(a, m)) == ProtectedKeys(m)
  {}

  /** A protected entry is replaced or added. */
  lemma ViewSealed(a: Aead, m: map<int, Flash>, key: int, iv: Bytes, p: Bytes)
    requires ValidAead(a) && AllIntact(a, m) && Protected(key) && |iv| == IV_SIZE
    ensures var m' := m[key := ToFlash(Sealed(a, iv, key, p))];
            AllIntact(a, m') && View(a, m') == View(a, m)[key := p] && Own(m') == Own(m)
  {
    OpenSealed(a, iv, key, p);
    FlashRoundTrip(Sealed(a, iv, key, p));
    hide Sealed, Intact, Opened;
  }

  lemma ViewPublic(a: Aead, m: map<int, Flash>, key: int, p: Bytes)
    requires AllIntact(a, m) && Application(key) && !Protected(key)
    ensures var m' := m[key := ToFlash(p)];
            AllIntact(a, m') && View(a, m') == View(a, m)[key := p] && Own(m') == Own(m)
  {
    FlashRoundTrip(p);
    hide Intact, Opened;
  }

  lemma ViewRemove(a: Aead, m: map<int, Flash>, key: int)
    requires AllIntact(a, m)
    ensures AllIntact(a, m - {key})
    ensures Application(key) ==> View(a, m - {key}) == View(a, m) - {key} && Own(m - {key}) == Own(m)
  {
    hide Intact, Plain;
  }

  /** One of the storage's own entries is rewritten. */
  lemma ViewOwn(a: Aead, m: map<int, Flash>, key: int, v: Flash)
    requires AllIntact(a, m) && !Application(key) && key in m && |m[key]| == |v|
    ensures var m' := m[key := v];
            AllIntact(a, m') && View(a, m') == View(a, m) && NorcowEdits.MapSize(Own(m')) == NorcowEdits.MapSize(Own(m))
  {
    hide Intact, Plain, NorcowEdits.MapSize;
    SameLengths(Own(m), Own(m[key := v]));
  }

  // ----- Space

  lemma {:induction false} SameLengths(m: map<int, Flash>, m': map<int, Flash>)
    requires m.Keys == m'.Keys && forall k :: k in m ==> |m[k]| == |m'[k]|
    ensures NorcowEdits.MapSize(m) == NorcowEdits.MapSize(m')
    decreases |m|
  {
    if exists k :: k in m {
      var k :| k in m;
      NorcowEdits.MapSizeRemove(m, k);
      NorcowEdits.MapSizeRemove(m', k);
      SameLengths(m - {k}, m' - {k});
    } else {
      assert m == map[] && m' == map[];
    }
  }

  /** The application's part of the store. */
  ghost function Apps(m: map<int, Flash>): map<int, Flash> {
    map k | k in m && Application(k) :: m[k]
  }

  lemma {:induction false} SizeSplit(m: map<int, Flash>)
    ensures NorcowEdits.MapSize(m) == NorcowEdits.MapSize(Own(m)) + NorcowEdits.MapSize(Apps(m))
    decreases |m|
  {
    if exists k :: k in m {
      var k :| k in m;
      hide NorcowLayout.Size;
      SizeSplit(m - {k});
      NorcowEdits.MapSizeRemove(m, k);
      assert Own(m - {k}) == Own(m) - {k} && Apps(m - {k}) == Apps(m) - {k};
      if Application(k) {
        NorcowEdits.MapSizeRemove(Apps(m), k);
        assert Own(m) - {k} == Own(m);
      } else {
        NorcowEdits.MapSizeRemove(Own(m), k);
        assert Apps(m) - {k} == Apps(m);
      }
    } else {
      assert m == map[] && Own(m) == map[] && Apps(m) == map[];
    }
  }

  /** Values as long as those the store holds for the view. */
  ghost function Shadow(view: map<int, Bytes>): map<int, Flash> {
    map k | k in view :: NorcowLayout.Fill(Overhead(k) + |view[k]|, 0)
  }

  /** The flash that the entries of a view take. */
  ghost function ViewSize(view: map<int, Bytes>): nat { NorcowEdits.MapSize(Shadow(view)) }

  lemma SizeOfView(a: Aead, m: map<int, Flash>)
    requires AllIntact(a, m)
    ensures NorcowEdits.MapSize(m) == NorcowEdits.MapSize(Own(m)) + ViewSize(View(a, m))
  {
    hide NorcowEdits.MapSize;
    SizeSplit(m);
    forall k | k in m && Application(k) ensures |m[k]| == Overhead(k) + |Plain(a, k, m[k])| {
      if Protected(k) { assert Intact(a, k, FromFlash(m[k])); }
    }
    SameLengths(Apps(m), Shadow(View(a, m)));
  }
}
