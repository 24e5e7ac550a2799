/** 32-bit words in the flash store of norcow.c: their bytes, and what a word update may change. */
module FlashWords {
  import opened MachineWords
  import opened ByteValues
  import NorcowLayout
  import NorcowEdits
  import NorcowStore

  type Flash = seq<NorcowLayout.byte>

  function Byte0(x: bv32): bv8 { (x & 0xFF) as bv8 }
  function Byte1(x: bv32): bv8 { ((x >> 8) & 0xFF) as bv8 }
  function Byte2(x: bv32): bv8 { ((x >> 16) & 0xFF) as bv8 }
  function Byte3(x: bv32): bv8 { (x >> 24) as bv8 }

  /** The bytes of a word, least significant first. */
  function ToBytes(w: Word): (s: Flash)
    ensures |s| == 4
  {
    [Number(Byte0(w.bits)), Number(Byte1(w.bits)), Number(Byte2(w.bits)), Number(Byte3(w.bits))]
  }

  function Join(a: bv8, b: bv8, c: bv8, d: bv8): Word {
    Word(a as bv32 | (b as bv32 << 8) | (c as bv32 << 16) | (d as bv32 << 24))
  }

  function FromBytes(s: Flash): Word
    requires |s| == 4
  {
    Join(Bits(s[0]), Bits(s[1]), Bits(s[2]), Bits(s[3]))
  }

  lemma JoinBytes(x: bv32)
    ensures Join(Byte0(x), Byte1(x), Byte2(x), Byte3(x)) == Word(x)
  {}

  lemma BytesByExample()
    ensures ToBytes(Word(0x0403_0201)) == [0x01, 0x02, 0x03, 0x04]
  {}

  lemma BytesRoundTrip(w: Word)
    ensures FromBytes(ToBytes(w)) == w
  {
    var x := w.bits;
    JoinBytes(x);
    hide Number, Bits, Byte0, Byte1, Byte2, Byte3, Join;
    NumberBits(Byte0(x));
    NumberBits(Byte1(x));
    NumberBits(Byte2(x));
    NumberBits(Byte3(x));
  }

  lemma SplitJoin(a: bv8, b: bv8, c: bv8, d: bv8)
    ensures var x := Join(a, b, c, d).bits; Byte0(x) == a && Byte1(x) == b && Byte2(x) == c && Byte3(x) == d
  {}

  lemma WordRoundTrip(s: Flash)
    requires |s| == 4
    ensures ToBytes(FromBytes(s)) == s
  {
    hide Number, Bits, Byte0, Byte1, Byte2, Byte3, Join;
    SplitJoin(Bits(s[0]), Bits(s[1]), Bits(s[2]), Bits(s[3]));
    BitsNumber(s[0]);
    BitsNumber(s[1]);
    BitsNumber(s[2]);
    BitsNumber(s[3]);
  }

  /** A word as an unsigned number. */
  function Unsigned(w: Word): (n: nat)
    ensures n < 0x1_0000_0000
  {
    NorcowStore.FromLe32(ToBytes(w))
  }

  function FromUnsigned(n: nat): (w: Word)
    requires n < 0x1_0000_0000
  {
    FromBytes(NorcowStore.Le32(n))
  }

  lemma UnsignedRoundTrip(n: nat)
    requires n < 0x1_0000_0000
    ensures Unsigned(FromUnsigned(n)) == n
  {
    hide ToBytes, FromBytes, NorcowStore.Le32, NorcowStore.FromLe32;
    WordRoundTrip(NorcowStore.Le32(n));
    NorcowStore.Le32RoundTrip(n);
  }

  // ----- Clearing bits, as numbers and as bits

  function Shr(b: bv8): bv8 { b >> 1 }
  predicate Odd(b: bv8) { b & 1 == 1 }
  function Both(a: bv8, b: bv8): bv8 { a & b }

  lemma Shifted(b: bv8)
    ensures Number(b) == 2 * Number(Shr(b)) + One(Odd(b))
  {}

  lemma BothShifted(a: bv8, b: bv8)
    ensures Shr(Both(a, b)) == Both(Shr(a), Shr(b)) && (Odd(Both(a, b)) <==> Odd(a) && Odd(b))
  {}

  lemma ZeroBoth(a: bv8, b: bv8)
    ensures Number(a) == 0 ==> Number(Both(a, b)) == 0
  {}

  lemma AndStep(a: nat, b: nat, p: nat, q: nat, x: bool, y: bool)
    requires a == 2 * p + One(x) && b == 2 * q + One(y)
    ensures NorcowLayout.And(a, b) == 2 * NorcowLayout.And(p, q) + One(x && y)
  {
    assert a % 2 == One(x) && b % 2 == One(y) && a / 2 == p && b / 2 == q;
  }

  lemma {:induction false} AndNumber(a: bv8, b: bv8)
    ensures NorcowLayout.And(Number(a), Number(b)) == Number(Both(a, b))
    decreases Number(a)
  {
    hide Number, Shr, Odd, Both;
    ZeroBoth(a, b);
    if Number(a) != 0 {
      Shifted(a);
      Shifted(b);
      Shifted(Both(a, b));
      BothShifted(a, b);
      AndNumber(Shr(a), Shr(b));
      AndStep(Number(a), Number(b), Number(Shr(a)), Number(Shr(b)), Odd(a), Odd(b));
    }
  }

  /** A byte may be programmed over another exactly when it has no bit the other lacks. */
  lemma ByteClears(was: bv8, b: bv8)
    ensures NorcowLayout.Clears(Number(was), Number(b)) <==> Both(was, b) == b
  {
    hide Number, Both;
    AndNumber(was, b);
    SameNumber(Both(was, b), b);
  }

  lemma BytesBoth(x: bv32, y: bv32)
    ensures Byte0(x & y) == Both(Byte0(y), Byte0(x)) && Byte1(x & y) == Both(Byte1(y), Byte1(x))
    ensures Byte2(x & y) == Both(Byte2(y), Byte2(x)) && Byte3(x & y) == Both(Byte3(y), Byte3(x))
  {}

  lemma FourBytes(a: Flash, b: Flash)
    requires |a| == |b| == 4
    ensures NorcowStore.CanProgram(a, 0, b) <==>
            NorcowLayout.Clears(a[0], b[0]) && NorcowLayout.Clears(a[1], b[1]) && NorcowLayout.Clears(a[2], b[2]) && NorcowLayout.Clears(a[3], b[3])
  {
    hide NorcowLayout.Clears;
    forall i | 0 <= i < 4 ensures a[0 + i] == a[i] {}
    if NorcowStore.CanProgram(a, 0, b) {
      assert NorcowLayout.Clears(a[0 + 0], b[0]) && NorcowLayout.Clears(a[0 + 1], b[1]);
      assert NorcowLayout.Clears(a[0 + 2], b[2]) && NorcowLayout.Clears(a[0 + 3], b[3]);
    }
  }

  lemma WordBytes(x: bv32, y: bv32)
    ensures NorcowStore.CanProgram(ToBytes(Word(y)), 0, ToBytes(Word(x))) <==> x & y == x
  {
    hide Number, Both, Byte0, Byte1, Byte2, Byte3, Join, NorcowLayout.Clears, NorcowStore.CanProgram;
    FourBytes(ToBytes(Word(y)), ToBytes(Word(x)));
    BytesBoth(x, y);
    JoinBytes(x);
    JoinBytes(x & y);
    ByteClears(Byte0(y), Byte0(x));
    ByteClears(Byte1(y), Byte1(x));
    ByteClears(Byte2(y), Byte2(x));
    ByteClears(Byte3(y), Byte3(x));
  }

  /** So may a word. */
  lemma WordClears(was: Word, w: Word)
    ensures NorcowStore.CanProgram(ToBytes(was), 0, ToBytes(w)) <==> And(w, was) == w
  {
    hide ToBytes, NorcowStore.CanProgram, And;
    var x, y := w.bits, was.bits;
    assert w == Word(x) && was == Word(y);
    AndUnboxed(x, y);
    WordBytes(x, y);
    SameWord(x & y, x);
  }

  lemma SameWord(x: bv32, y: bv32)
    ensures Word(x) == Word(y) <==> x == y
  {}

  // ----- A run of words

  function Encode(ws: seq<Word>): (s: Flash)
    ensures |s| == 4 * |ws|
    ensures forall j :: 0 <= j < |s| ==> s[j] == ToBytes(ws[j / 4])[j % 4]
  {
    seq(4 * |ws|, j requires 0 <= j < 4 * |ws| => ToBytes(ws[j / 4])[j % 4])
  }

  /** The bytes of word i. */
  lemma WordAt(ws: seq<Word>, i: nat)
    requires i < |ws|
    ensures Encode(ws)[4 * i..4 * i + 4] == ToBytes(ws[i])
  {
    hide ToBytes;
    var s := Encode(ws);
    forall j | 0 <= j < 4 ensures s[4 * i + j] == ToBytes(ws[i])[j] {
      assert (4 * i + j) / 4 == i && (4 * i + j) % 4 == j;
    }
  }

  lemma CanProgramAt(s: Flash, o: nat, d: Flash)
    requires o + |d| <= |s|
    ensures NorcowStore.CanProgram(s, o, d) <==> NorcowStore.CanProgram(s[o..o + |d|], 0, d)
  {
    hide NorcowLayout.Clears;
    var a := s[o..o + |d|];
    forall j | 0 <= j < |d| ensures NorcowLayout.Clears(a[0 + j], d[j]) <==> NorcowLayout.Clears(s[o + j], d[j]) {}
  }

  /** Writing a word over word i. */
  lemma WriteAt(ws: seq<Word>, i: nat, w: Word)
    requires i < |ws|
    ensures NorcowEdits.Splice(Encode(ws), 4 * i, ToBytes(w)) == Encode(ws[i := w])
    ensures NorcowStore.CanProgram(Encode(ws), 4 * i, ToBytes(w)) <==> And(w, ws[i]) == w
  {
    hide ToBytes, And, NorcowStore.CanProgram;
    WordClears(ws[i], w);
    WordAt(ws, i);
    CanProgramAt(Encode(ws), 4 * i, ToBytes(w));
    SpliceWord(ws, i, w);
  }

  lemma SpliceWord(ws: seq<Word>, i: nat, w: Word)
    requires i < |ws|
    ensures NorcowEdits.Splice(Encode(ws), 4 * i, ToBytes(w)) == Encode(ws[i := w])
  {
    hide ToBytes;
    var s, t, u := Encode(ws), NorcowEdits.Splice(Encode(ws), 4 * i, ToBytes(w)), Encode(ws[i := w]);
    hide Encode;
    forall j | 0 <= j < |s| ensures t[j] == u[j] { Quarter(i, j); }
  }

  lemma Quarter(i: nat, j: nat)
    ensures j / 4 == i <==> 4 * i <= j < 4 * i + 4
    ensures j / 4 == i ==> j % 4 == j - 4 * i
  {}

  /** The words that lie in a value. */
  function Decode(v: Flash): (ws: seq<Word>)
    ensures |ws| == |v| / 4
  {
    seq(|v| / 4, i requires 0 <= i < |v| / 4 => FromBytes(v[4 * i..4 * i + 4]))
  }

  lemma DecodeEncode(ws: seq<Word>)
    ensures Decode(Encode(ws)) == ws
  {
    hide ToBytes, FromBytes;
    forall i | 0 <= i < |ws| ensures Decode(Encode(ws))[i] == ws[i] {
      WordAt(ws, i);
      BytesRoundTrip(ws[i]);
    }
  }

  /** norcow_update_word on word i of an entry: it halts unless the new word only clears bits. */
  method UpdateWord(store: NorcowStore.Norcow, key: int, i: nat, w: Word, ghost ws: seq<Word>) returns (halted: bool, ok: bool)
    requires store.Valid() && key != NorcowLayout.KEY_DELETED && i < |ws|
    requires key in store.Map() && store.Map()[key] == Encode(ws)
    modifies store
    ensures store.Valid() && ok == !halted && (ok <==> And(w, ws[i]) == w)
    ensures store.Map() == old(store.Map())[key := Encode(if ok then ws[i := w] else ws)]
  {
    hide ToBytes, Encode, And, NorcowStore.CanProgram, NorcowEdits.Splice, NorcowStore.Norcow.Steady, NorcowStore.Norcow.Map;
    WriteAt(ws, i, w);
    halted, ok := store.UpdateWord(key, 4 * i, ToBytes(w));
    assert !ok ==> store.Map() == old(store.Map())[key := Encode(ws)];
  }
}
