/**
  * crypto/shamir.c: bitsliced arithmetic in GF(2^8) on 32 lanes, and the interpolation of
  * shares. Word k of a slice holds coefficient k of all 32 lanes, one for each byte of a share
  * (SHAMIR_MAX_LEN is 32).
  */
module Shamir {
  import opened Gf256
  import opened GfField
  import opened Interpolation
  import opened MachineWords

  datatype Slice = Slice(w0: Word, w1: Word, w2: Word, w3: Word, w4: Word, w5: Word, w6: Word, w7: Word)

  function Words(a: seq<Word>): Slice
    requires |a| == 8
  {
    Slice(a[0], a[1], a[2], a[3], a[4], a[5], a[6], a[7])
  }

  predicate ByteBit(b: bv8, k: nat)
    requires k < 8
  {
    (b >> k) & 1 == 1
  }

  function FromByte(b: bv8): Gf {
    Gf(ByteBit(b, 0), ByteBit(b, 1), ByteBit(b, 2), ByteBit(b, 3),
       ByteBit(b, 4), ByteBit(b, 5), ByteBit(b, 6), ByteBit(b, 7))
  }

  /** The field element that lane i holds. */
  function Lane(s: Slice, i: nat): Gf
    requires i < 32
  {
    Gf(Bit(s.w0, i), Bit(s.w1, i), Bit(s.w2, i), Bit(s.w3, i),
       Bit(s.w4, i), Bit(s.w5, i), Bit(s.w6, i), Bit(s.w7, i))
  }

  /** The bit that bitslice reads from a byte widened to a word. */
  lemma ByteBitWide(b: bv8, k: nat)
    requires k < 8
    ensures ((b as bv32) >> k) & 1 == if ByteBit(b, k) then 1 else 0
  {
    if k == 0 {} else if k == 1 {} else if k == 2 {} else if k == 3 {}
    else if k == 4 {} else if k == 5 {} else if k == 6 {} else {}
  }

  // ----- Moving between bytes and lanes

  method BitSlice(r: array<Word>, x: seq<bv8>, len: nat)
    requires r.Length == 8 && len <= 32 && len <= |x|
    modifies r
    ensures forall i: nat :: i < 32 ==> Lane(Words(r[..]), i) == if i < len then FromByte(x[i]) else Zero
  {
    hide Bit, ByteBit, Or, Put;
    for k := 0 to 8
      invariant forall b :: 0 <= b < k ==> r[b] == Word(0)
    {
      r[k] := Word(0);
    }
    forall b, i: nat | 0 <= b < 8 && i < 32 ensures !Bit(r[b], i) { BitConstant(i); }
    for arr := 0 to len
      invariant forall b, i: nat {:trigger Bit(r[b], i)} :: 0 <= b < 8 && i < 32 ==> Bit(r[b], i) == (i < arr && ByteBit(x[i], b))
    {
      var cur := x[arr] as bv32;
      for bit := 0 to 8
        invariant forall b, i: nat {:trigger Bit(r[b], i)} :: 0 <= b < 8 && i < 32 ==>
          Bit(r[b], i) == (i < (if b < bit then arr + 1 else arr) && ByteBit(x[i], b))
      {
        ghost var w := r[bit];
        var c := (cur >> bit) & 1;
        ByteBitWide(x[arr], bit);
        r[bit] := Or(r[bit], Put(c, arr));
        forall i: nat | i < 32 ensures Bit(r[bit], i) == (i < arr + 1 && ByteBit(x[i], bit)) {
          OrBit(w, Put(c, arr), i);
          PutBit(c, arr, i);
        }
      }
    }
  }

  lemma ByteBitPut(b: bv8, c: bv32, k: nat, j: nat)
    requires k < 8 && j < 8 && c <= 1
    ensures ByteBit(b | ((c as bv8) << k), j) == (ByteBit(b, j) || (j == k && c == 1))
  {}

  lemma NoBits(b: nat)
    requires b < 8
    ensures !ByteBit(0, b)
  {}

  method UnBitSlice(r: array<bv8>, x: seq<Word>, len: nat)
    requires |x| == 8 && len <= 32 && len <= r.Length
    modifies r
    ensures forall i: nat :: i < len ==> FromByte(r[i]) == Lane(Words(x), i)
    ensures forall i: nat :: len <= i < r.Length ==> r[i] == old(r[i])
  {
    hide Bit, ByteBit;
    for k := 0 to len
      invariant forall i: nat :: i < k ==> r[i] == 0
      invariant forall i: nat :: len <= i < r.Length ==> r[i] == old(r[i])
    {
      r[k] := 0;
    }
    forall b: nat, i: nat | b < 8 && i < len ensures !ByteBit(r[i], b) { NoBits(b); }
    for bit := 0 to 8
      invariant forall i: nat :: len <= i < r.Length ==> r[i] == old(r[i])
      invariant forall b: nat, i: nat {:trigger ByteBit(r[i], b)} :: b < 8 && i < len ==>
        ByteBit(r[i], b) == (b < bit && Bit(x[b], i))
    {
      var cur := x[bit];
      for arr := 0 to len
        invariant forall i: nat :: len <= i < r.Length ==> r[i] == old(r[i])
        invariant forall b: nat, i: nat {:trigger ByteBit(r[i], b)} :: b < 8 && i < len ==>
          ByteBit(r[i], b) == (b < (if i < arr then bit + 1 else bit) && Bit(x[b], i))
      {
        ghost var w := r[arr];
        var c := Get(cur, arr);
        GetBit(cur, arr);
        r[arr] := r[arr] | ((c as bv8) << bit);
        forall b: nat | b < 8 ensures ByteBit(r[arr], b) == (b < bit + 1 && Bit(x[b], arr)) {
          ByteBitPut(w, c, bit, b);
        }
      }
    }
  }

  // ----- Lane-wise arithmetic

  method SetAll(r: array<Word>, x: bv8)
    requires r.Length == 8
    modifies r
    ensures forall i: nat :: i < 32 ==> Lane(Words(r[..]), i) == FromByte(x)
  {
    hide Bit, ByteBit;
    for idx := 0 to 8
      invariant forall b, i: nat {:trigger Bit(r[b], i)} :: 0 <= b < idx && i < 32 ==> Bit(r[b], i) == ByteBit(x, b)
    {
      var c := ((x as bv32) >> idx) & 1;
      ByteBitWide(x, idx);
      r[idx] := Word(0 - c);
      forall i: nat | i < 32 ensures Bit(r[idx], i) == ByteBit(x, idx) { BitConstant(i); }
    }
  }

  function AddWords(r: Slice, x: Slice): Slice {
    Slice(Xor(r.w0, x.w0), Xor(r.w1, x.w1), Xor(r.w2, x.w2), Xor(r.w3, x.w3),
          Xor(r.w4, x.w4), Xor(r.w5, x.w5), Xor(r.w6, x.w6), Xor(r.w7, x.w7))
  }

  function XtWords(a: Slice): Slice {
    Slice(a.w7, Xor(a.w0, a.w7), a.w1, Xor(a.w2, a.w7), Xor(a.w3, a.w7), a.w4, a.w5, a.w6)
  }

  function ScaleWords(a: Slice, b: Word): Slice {
    Slice(And(a.w0, b), And(a.w1, b), And(a.w2, b), And(a.w3, b),
          And(a.w4, b), And(a.w5, b), And(a.w6, b), And(a.w7, b))
  }

  function WordAt(b: Slice, k: nat): Word
    requires k < 8
  {
    if k == 0 then b.w0 else if k == 1 then b.w1 else if k == 2 then b.w2 else if k == 3 then b.w3
    else if k == 4 then b.w4 else if k == 5 then b.w5 else if k == 6 then b.w6 else b.w7
  }

  /** The rounds k..7 of the multiplication, from the accumulator r and the running multiple a. */
  function Rounds(r: Slice, a: Slice, b: Slice, k: nat): Slice
    requires k <= 8
    decreases 8 - k
  {
    if k == 8 then r else Rounds(AddWords(r, ScaleWords(a, WordAt(b, k))), XtWords(a), b, k + 1)
  }

  function MulWords(a: Slice, b: Slice): Slice {
    Rounds(ScaleWords(a, b.w0), XtWords(a), b, 1)
  }

  lemma AddLane(r: Slice, x: Slice, i: nat)
    requires i < 32
    ensures Lane(AddWords(r, x), i) == Add(Lane(r, i), Lane(x, i))
  {
    hide Bit, Xor;
    XorBit(r.w0, x.w0, i); XorBit(r.w1, x.w1, i); XorBit(r.w2, x.w2, i); XorBit(r.w3, x.w3, i);
    XorBit(r.w4, x.w4, i); XorBit(r.w5, x.w5, i); XorBit(r.w6, x.w6, i); XorBit(r.w7, x.w7, i);
  }

  lemma XtLane(a: Slice, i: nat)
    requires i < 32
    ensures Lane(XtWords(a), i) == Xt(Lane(a, i))
  {
    hide Bit, Xor;
    XorBit(a.w0, a.w7, i);
    XorBit(a.w2, a.w7, i);
    XorBit(a.w3, a.w7, i);
  }

  lemma ScaleLane(a: Slice, b: Word, i: nat)
    requires i < 32
    ensures Lane(ScaleWords(a, b), i) == Scale(Lane(a, i), Bit(b, i))
  {
    hide Bit, And;
    AndBit(a.w0, b, i); AndBit(a.w1, b, i); AndBit(a.w2, b, i); AndBit(a.w3, b, i);
    AndBit(a.w4, b, i); AndBit(a.w5, b, i); AndBit(a.w6, b, i); AndBit(a.w7, b, i);
  }

  lemma WordLane(b: Slice, k: nat, i: nat)
    requires k < 8 && i < 32
    ensures Bit(WordAt(b, k), i) == Coef(Lane(b, i), k)
  {
    hide Bit;
    if k == 0 {} else if k == 1 {} else if k == 2 {} else if k == 3 {}
    else if k == 4 {} else if k == 5 {} else if k == 6 {} else {}
  }

  lemma {:induction false} RoundsLane(r: Slice, a: Slice, b: Slice, k: nat, i: nat)
    requires k <= 8 && i < 32
    ensures Lane(Rounds(r, a, b, k), i) == Add(Lane(r, i), MulFrom(Lane(a, i), Lane(b, i), k))
    decreases 8 - k
  {
    hide Lane, Bit, AddWords, XtWords, ScaleWords, WordAt, Add, Xt, Scale, Coef;
    if k == 8 {
      AddZero(Lane(r, i));
    } else {
      var s := ScaleWords(a, WordAt(b, k));
      var r', a' := AddWords(r, s), XtWords(a);
      RoundsLane(r', a', b, k + 1, i);
      AddLane(r, s, i);
      XtLane(a, i);
      ScaleLane(a, WordAt(b, k), i);
      WordLane(b, k, i);
      AddAssoc(Lane(r, i), Lane(s, i), MulFrom(Lane(a', i), Lane(b, i), k + 1));
    }
  }

  /** gf256_mul multiplies in every lane. */
  lemma MulLane(a: Slice, b: Slice, i: nat)
    requires i < 32
    ensures Lane(MulWords(a, b), i) == Mul(Lane(a, i), Lane(b, i))
  {
    hide Lane, Bit, Rounds, AddWords, XtWords, ScaleWords, Add, Xt, Scale, Coef, MulFrom;
    RoundsLane(ScaleWords(a, b.w0), XtWords(a), b, 1, i);
    XtLane(a, i);
    ScaleLane(a, b.w0, i);
    WordLane(b, 0, i);
    MulFromStep(Lane(a, i), Lane(b, i), 0);
  }

  lemma Round(r: Slice, a: Slice, r': Slice, a': Slice, b: Slice, k: nat)
    requires k < 8 && r' == AddWords(r, ScaleWords(a, WordAt(b, k))) && a' == XtWords(a)
    ensures Rounds(r, a, b, k) == Rounds(r', a', b, k + 1)
  {
    hide AddWords, XtWords, ScaleWords, WordAt;
  }

  lemma LastRound(r: Slice, a: Slice, r': Slice, b: Slice)
    requires r' == AddWords(r, ScaleWords(a, b.w7))
    ensures Rounds(r, a, b, 7) == r'
  {
    hide AddWords, XtWords, ScaleWords;
    assert WordAt(b, 7) == b.w7;
  }

  /** r may be a, but not b. */
  method GfMul(r: array<Word>, a: array<Word>, b: array<Word>)
    requires r.Length == a.Length == b.Length == 8 && r != b
    modifies r
    ensures Words(r[..]) == MulWords(old(Words(a[..])), old(Words(b[..])))
  {
    hide Xor, And, Rounds;
    ghost var x, y := Words(a[..]), Words(b[..]);
    var a0, a1, a2, a3, a4, a5, a6, a7 := a[0], a[1], a[2], a[3], a[4], a[5], a[6], a[7];

    var r0 := And(a0, b[0]); var r1 := And(a1, b[0]);
    var r2 := And(a2, b[0]); var r3 := And(a3, b[0]);
    var r4 := And(a4, b[0]); var r5 := And(a5, b[0]);
    var r6 := And(a6, b[0]); var r7 := And(a7, b[0]);
    a0 := Xor(a0, a7); a2 := Xor(a2, a7); a3 := Xor(a3, a7);
    ghost var R0, A0 := Slice(r0, r1, r2, r3, r4, r5, r6, r7), Slice(a7, a0, a1, a2, a3, a4, a5, a6);
    assert R0 == ScaleWords(x, y.w0) && A0 == XtWords(x);

    r0 := Xor(r0, And(a7, b[1])); r1 := Xor(r1, And(a0, b[1]));
    r2 := Xor(r2, And(a1, b[1])); r3 := Xor(r3, And(a2, b[1]));
    r4 := Xor(r4, And(a3, b[1])); r5 := Xor(r5, And(a4, b[1]));
    r6 := Xor(r6, And(a5, b[1])); r7 := Xor(r7, And(a6, b[1]));
    a7 := Xor(a7, a6); a1 := Xor(a1, a6); a2 := Xor(a2, a6);
    ghost var R1, A1 := Slice(r0, r1, r2, r3, r4, r5, r6, r7), Slice(a6, a7, a0, a1, a2, a3, a4, a5);
    Round(R0, A0, R1, A1, y, 1);

    r0 := Xor(r0, And(a6, b[2])); r1 := Xor(r1, And(a7, b[2]));
    r2 := Xor(r2, And(a0, b[2])); r3 := Xor(r3, And(a1, b[2]));
    r4 := Xor(r4, And(a2, b[2])); r5 := Xor(r5, And(a3, b[2]));
    r6 := Xor(r6, And(a4, b[2])); r7 := Xor(r7, And(a5, b[2]));
    a6 := Xor(a6, a5); a0 := Xor(a0, a5); a1 := Xor(a1, a5);
    ghost var R2, A2 := Slice(r0, r1, r2, r3, r4, r5, r6, r7), Slice(a5, a6, a7, a0, a1, a2, a3, a4);
    Round(R1, A1, R2, A2, y, 2);

    r0 := Xor(r0, And(a5, b[3])); r1 := Xor(r1, And(a6, b[3]));
    r2 := Xor(r2, And(a7, b[3])); r3 := Xor(r3, And(a0, b[3]));
    r4 := Xor(r4, And(a1, b[3])); r5 := Xor(r5, And(a2, b[3]));
    r6 := Xor(r6, And(a3, b[3])); r7 := Xor(r7, And(a4, b[3]));
    a5 := Xor(a5, a4); a7 := Xor(a7, a4); a0 := Xor(a0, a4);
    ghost var R3, A3 := Slice(r0, r1, r2, r3, r4, r5, r6, r7), Slice(a4, a5, a6, a7, a0, a1, a2, a3);
    Round(R2, A2, R3, A3, y, 3);

    r0 := Xor(r0, And(a4, b[4])); r1 := Xor(r1, And(a5, b[4]));
    r2 := Xor(r2, And(a6, b[4])); r3 := Xor(r3, And(a7, b[4]));
    r4 := Xor(r4, And(a0, b[4])); r5 := Xor(r5, And(a1, b[4]));
    r6 := Xor(r6, And(a2, b[4])); r7 := Xor(r7, And(a3, b[4]));
    a4 := Xor(a4, a3); a6 := Xor(a6, a3); a7 := Xor(a7, a3);
    ghost var R4, A4 := Slice(r0, r1, r2, r3, r4, r5, r6, r7), Slice(a3, a4, a5, a6, a7, a0, a1, a2);
    Round(R3, A3, R4, A4, y, 4);

    r0 := Xor(r0, And(a3, b[5])); r1 := Xor(r1, And(a4, b[5]));
    r2 := Xor(r2, And(a5, b[5])); r3 := Xor(r3, And(a6, b[5]));
    r4 := Xor(r4, And(a7, b[5])); r5 := Xor(r5, And(a0, b[5]));
    r6 := Xor(r6, And(a1, b[5])); r7 := Xor(r7, And(a2, b[5]));
    a3 := Xor(a3, a2); a5 := Xor(a5, a2); a6 := Xor(a6, a2);
    ghost var R5, A5 := Slice(r0, r1, r2, r3, r4, r5, r6, r7), Slice(a2, a3, a4, a5, a6, a7, a0, a1);
    Round(R4, A4, R5, A5, y, 5);

    r0 := Xor(r0, And(a2, b[6])); r1 := Xor(r1, And(a3, b[6]));
    r2 := Xor(r2, And(a4, b[6])); r3 := Xor(r3, And(a5, b[6]));
    r4 := Xor(r4, And(a6, b[6])); r5 := Xor(r5, And(a7, b[6]));
    r6 := Xor(r6, And(a0, b[6])); r7 := Xor(r7, And(a1, b[6]));
    a2 := Xor(a2, a1); a4 := Xor(a4, a1); a5 := Xor(a5, a1);
    ghost var R6, A6 := Slice(r0, r1, r2, r3, r4, r5, r6, r7), Slice(a1, a2, a3, a4, a5, a6, a7, a0);
    Round(R5, A5, R6, A6, y, 6);

    r0 := Xor(r0, And(a1, b[7])); r1 := Xor(r1, And(a2, b[7]));
    r2 := Xor(r2, And(a3, b[7])); r3 := Xor(r3, And(a4, b[7]));
    r4 := Xor(r4, And(a5, b[7])); r5 := Xor(r5, And(a6, b[7]));
    r6 := Xor(r6, And(a7, b[7])); r7 := Xor(r7, And(a0, b[7]));
    ghost var R7 := Slice(r0, r1, r2, r3, r4, r5, r6, r7);
    LastRound(R6, A6, R7, y);

    r[0], r[1], r[2], r[3], r[4], r[5], r[6], r[7] := r0, r1, r2, r3, r4, r5, r6, r7;
  }

  method GfAdd(r: array<Word>, x: array<Word>)
    requires r.Length == x.Length == 8 && r != x
    modifies r
    ensures Words(r[..]) == AddWords(old(Words(r[..])), Words(x[..]))
  {
    hide Xor;
    for idx := 0 to 8
      invariant forall k :: 0 <= k < idx ==> r[k] == Xor(old(r[k]), x[k])
      invariant forall k :: idx <= k < 8 ==> r[k] == old(r[k])
    {
      r[idx] := Xor(r[idx], x[idx]);
    }
  }

  /** The square of every lane: word 2k takes coefficient k, then x^14 .. x^8 are folded back. */
  function SqWords(x: Slice): Slice {
    var r10 := Xor(x.w5, x.w7);
    var r8 := Xor(x.w4, x.w6);
    Slice(Xor(x.w0, r8),
          Xor(x.w7, r8),
          Xor(Xor(x.w1, r10), x.w7),
          Xor(r10, r8),
          Xor(Xor(Xor(x.w2, x.w6), x.w7), r8),
          Xor(Xor(x.w6, r10), x.w7),
          Xor(Xor(x.w3, x.w7), r10),
          Xor(x.w7, x.w6))
  }

  lemma SqLane(x: Slice, i: nat)
    requires i < 32
    ensures Lane(SqWords(x), i) == Sq(Lane(x, i))
  {
    hide Bit, Xor;
    var r10, r8 := Xor(x.w5, x.w7), Xor(x.w4, x.w6);
    XorBit(x.w5, x.w7, i);
    XorBit(x.w4, x.w6, i);
    XorBit(x.w0, r8, i);
    XorBit(x.w7, r8, i);
    XorBit(x.w1, r10, i);
    XorBit(Xor(x.w1, r10), x.w7, i);
    XorBit(r10, r8, i);
    XorBit(x.w2, x.w6, i);
    XorBit(Xor(x.w2, x.w6), x.w7, i);
    XorBit(Xor(Xor(x.w2, x.w6), x.w7), r8, i);
    XorBit(x.w6, r10, i);
    XorBit(Xor(x.w6, r10), x.w7, i);
    XorBit(x.w3, x.w7, i);
    XorBit(Xor(x.w3, x.w7), r10, i);
    XorBit(x.w7, x.w6, i);
  }

  /** Works in place: r may be x. */
  method GfSquare(r: array<Word>, x: array<Word>)
    requires r.Length == x.Length == 8
    modifies r
    ensures Words(r[..]) == SqWords(old(Words(x[..])))
  {
    hide Xor;
    var r14 := x[7];
    var r12 := x[6];
    var r10 := x[5];
    var r8 := x[4];
    r[6] := x[3];
    r[4] := x[2];
    r[2] := x[1];
    r[0] := x[0];

    r[7] := r14;
    r[6] := Xor(r[6], r14);
    r10 := Xor(r10, r14);
    r[4] := Xor(r[4], r12);
    r[5] := r12;
    r[7] := Xor(r[7], r12);
    r8 := Xor(r8, r12);
    r[2] := Xor(r[2], r10);
    r[3] := r10;
    r[5] := Xor(r[5], r10);
    r[6] := Xor(r[6], r10);
    r[1] := r14;
    r[2] := Xor(r[2], r14);
    r[4] := Xor(r[4], r14);
    r[5] := Xor(r[5], r14);
    r[0] := Xor(r[0], r8);
    r[1] := Xor(r[1], r8);
    r[3] := Xor(r[3], r8);
    r[4] := Xor(r[4], r8);
  }

  /** The addition chain 1, 2, 4, 8, 9, 16, 25, 50, 100, 200, 250, 254. */
  function InvWords(x: Slice): Slice {
    var y := SqWords(SqWords(x));
    var r8 := SqWords(y);
    var z9 := MulWords(r8, x);
    var r50 := SqWords(MulWords(SqWords(r8), z9));
    MulWords(MulWords(r50, SqWords(SqWords(r50))), y)
  }

  method GfInv(r: array<Word>, x: array<Word>)
    requires r.Length == x.Length == 8 && r != x
    modifies r
    ensures Words(r[..]) == InvWords(old(Words(x[..])))
  {
    hide SqWords, MulWords, Words;
    var y := new Word[8](_ => Word(0));
    var z := new Word[8](_ => Word(0));
    GfSquare(y, x);
    GfSquare(y, y);
    GfSquare(r, y);
    GfMul(z, r, x);
    GfSquare(r, r);
    GfMul(r, r, z);
    GfSquare(r, r);
    GfSquare(z, r);
    GfSquare(z, z);
    GfMul(r, r, z);
    GfMul(r, r, y);
  }

  /** gf256_inv inverts every lane. */
  lemma InvLane(x: Slice, i: nat)
    requires i < 32
    ensures Lane(InvWords(x), i) == Inv(Lane(x, i))
  {
    hide Lane, SqWords, MulWords, Sq, Mul, Pow;
    var a := Lane(x, i);
    PowOne(a);
    var x2 := SqWords(x);
    SqLane(x, i); PowDouble(a, 1);
    var y := SqWords(x2);
    SqLane(x2, i); PowDouble(a, 2);
    var r8 := SqWords(y);
    SqLane(y, i); PowDouble(a, 4);
    var z9 := MulWords(r8, x);
    MulLane(r8, x, i); PowAdd(a, 8, 1);
    var r16 := SqWords(r8);
    SqLane(r8, i); PowDouble(a, 8);
    var r25 := MulWords(r16, z9);
    MulLane(r16, z9, i); PowAdd(a, 16, 9);
    var r50 := SqWords(r25);
    SqLane(r25, i); PowDouble(a, 25);
    var z100 := SqWords(r50);
    SqLane(r50, i); PowDouble(a, 50);
    var z200 := SqWords(z100);
    SqLane(z100, i); PowDouble(a, 100);
    var r250 := MulWords(r50, z200);
    MulLane(r50, z200, i); PowAdd(a, 50, 200);
    MulLane(r250, y, i); PowAdd(a, 250, 4);
  }

  // ----- Slices whose lanes all hold the same element

  predicate Uniform(s: Slice, v: Gf) {
    forall i: nat :: i < 32 ==> Lane(s, i) == v
  }

  lemma UniformAdd(a: Slice, b: Slice, u: Gf, v: Gf)
    requires Uniform(a, u) && Uniform(b, v)
    ensures Uniform(AddWords(a, b), Add(u, v))
  {
    hide Lane, AddWords, Add;
    forall i: nat | i < 32 ensures Lane(AddWords(a, b), i) == Add(u, v) { AddLane(a, b, i); }
  }

  lemma UniformMul(a: Slice, b: Slice, u: Gf, v: Gf)
    requires Uniform(a, u) && Uniform(b, v)
    ensures Uniform(MulWords(a, b), Mul(u, v))
  {
    hide Lane, MulWords, Mul;
    forall i: nat | i < 32 ensures Lane(MulWords(a, b), i) == Mul(u, v) { MulLane(a, b, i); }
  }

  function OrWords(s: Slice): Word {
    Or(Or(Or(Or(Or(Or(Or(s.w0, s.w1), s.w2), s.w3), s.w4), s.w5), s.w6), s.w7)
  }

  lemma OrWordsBit(s: Slice, i: nat)
    requires i < 32
    ensures Bit(OrWords(s), i) == (Lane(s, i) != Zero)
  {
    hide Bit, Or;
    var o1 := Or(s.w0, s.w1); var o2 := Or(o1, s.w2); var o3 := Or(o2, s.w3);
    var o4 := Or(o3, s.w4); var o5 := Or(o4, s.w5); var o6 := Or(o5, s.w6);
    OrBit(s.w0, s.w1, i); OrBit(o1, s.w2, i); OrBit(o2, s.w3, i); OrBit(o3, s.w4, i);
    OrBit(o4, s.w5, i); OrBit(o5, s.w6, i); OrBit(o6, s.w7, i);
  }

  lemma UniformZero(s: Slice, v: Gf)
    requires Uniform(s, v)
    ensures OrWords(s) == Word(0) <==> v == Zero
  {
    hide Bit, OrWords, Lane;
    forall i: nat | i < 32 ensures Bit(OrWords(s), i) == (v != Zero) { OrWordsBit(s, i); }
    BitConstant(0);
    if v == Zero { ZeroWord(OrWords(s)); }
    assert v != Zero ==> Bit(OrWords(s), 0);
  }

  lemma ConstantSlices()
    ensures FromByte(1) == One
    ensures Uniform(Slice(Word(0xFFFF_FFFF), Word(0), Word(0), Word(0), Word(0), Word(0), Word(0), Word(0)), One)
    ensures Uniform(Slice(Word(0), Word(0), Word(0), Word(0), Word(0), Word(0), Word(0), Word(0)), Zero)
  {
    assert FromByte(1) == One;
    hide Bit;
    forall i: nat | i < 32 ensures !Bit(Word(0), i) && Bit(Word(0xFFFF_FFFF), i) { BitConstant(i); }
  }

  lemma FromByteInjective(a: bv8, b: bv8)
    requires FromByte(a) == FromByte(b)
    ensures a == b
  {}

  function Elements(bytes: seq<bv8>): (e: seq<Gf>)
    ensures |e| == |bytes| && forall i :: 0 <= i < |e| ==> e[i] == FromByte(bytes[i])
  {
    seq(|bytes|, i requires 0 <= i < |bytes| => FromByte(bytes[i]))
  }

  lemma DistinctElements(bytes: seq<bv8>)
    ensures Distinct(Elements(bytes)) <==> forall i, j :: 0 <= i < j < |bytes| ==> bytes[i] != bytes[j]
  {
    hide FromByte;
    forall i, j | 0 <= i < j < |bytes| && bytes[i] != bytes[j] ensures Elements(bytes)[i] != Elements(bytes)[j] {
      if FromByte(bytes[i]) == FromByte(bytes[j]) { FromByteInjective(bytes[i], bytes[j]); }
    }
  }

  // ----- Interpolation

  method Copy(r: array<Word>, x: array<Word>)
    requires r.Length == x.Length == 8
    modifies r
    ensures Words(r[..]) == old(Words(x[..]))
  {
    r[0], r[1], r[2], r[3], r[4], r[5], r[6], r[7] := x[0], x[1], x[2], x[3], x[4], x[5], x[6], x[7];
  }

  /** The byte of share k that lane i carries. */
  function ShareByte(values: seq<seq<bv8>>, len: nat, k: nat, i: nat): Gf
    requires k < |values| && len <= |values[k]|
  {
    if i < len then FromByte(values[k][i]) else Zero
  }

  predicate Shares(values: seq<seq<bv8>>, len: nat) {
    forall k :: 0 <= k < |values| ==> len <= |values[k]|
  }

  /** Lane i of all the shares. */
  function Column(values: seq<seq<bv8>>, len: nat, i: nat): (c: seq<Gf>)
    requires Shares(values, len)
    ensures |c| == |values| && forall k :: 0 <= k < |c| ==> c[k] == ShareByte(values, len, k, i)
  {
    seq(|values|, k requires 0 <= k < |values| => ShareByte(values, len, k, i))
  }

  ghost predicate IndexRows(xs: seq<array<Word>>, e: seq<Gf>)
    reads xs
  {
    |xs| == |e| && forall k :: 0 <= k < |xs| ==> xs[k].Length == 8 && Uniform(Words(xs[k][..]), e[k])
  }

  ghost predicate ValueRow(s: Slice, values: seq<seq<bv8>>, len: nat, k: nat)
    requires Shares(values, len) && k < |values|
  {
    forall i: nat :: i < 32 ==> Lane(s, i) == ShareByte(values, len, k, i)
  }

  ghost predicate ValueRows(ys: seq<array<Word>>, values: seq<seq<bv8>>, len: nat)
    requires Shares(values, len)
    reads ys
  {
    |ys| <= |values| && forall k :: 0 <= k < |ys| ==> ys[k].Length == 8 && ValueRow(Words(ys[k][..]), values, len, k)
  }

  method CollectShares(indices: seq<bv8>, values: seq<seq<bv8>>, len: nat)
    returns (xs: seq<array<Word>>, ys: seq<array<Word>>)
    requires |indices| == |values| && len <= 32 && Shares(values, len)
    ensures |ys| == |values| && IndexRows(xs, Elements(indices)) && ValueRows(ys, values, len)
    ensures fresh(xs) && fresh(ys)
  {
    hide Lane, FromByte, Words, Uniform, ShareByte, ValueRow, Shares;
    xs, ys := [], [];
    for i := 0 to |indices|
      invariant |xs| == |ys| == i
      invariant fresh(xs) && fresh(ys)
      invariant forall k :: 0 <= k < i ==> xs[k].Length == 8 && Uniform(Words(xs[k][..]), FromByte(indices[k]))
      invariant ValueRows(ys, values, len)
    {
      var x := new Word[8](_ => Word(0));
      var y := new Word[8](_ => Word(0));
      SetUniform(x, indices[i]);
      SliceShare(y, values, len, i);
      xs := xs + [x];
      ys := ys + [y];
    }
  }

  method SliceShare(r: array<Word>, values: seq<seq<bv8>>, len: nat, k: nat)
    requires r.Length == 8 && len <= 32 && Shares(values, len) && k < |values|
    modifies r
    ensures ValueRow(Words(r[..]), values, len, k)
  {
    hide Lane, Words, FromByte;
    BitSlice(r, values[k], len);
  }

  method SetUniform(r: array<Word>, x: bv8)
    requires r.Length == 8
    modifies r
    ensures Uniform(Words(r[..]), FromByte(x))
  {
    SetAll(r, x);
  }

  lemma NumeratorStep(e: Gf, es: seq<Gf>, k: nat)
    requires k < |es|
    ensures Numerator(GF(), e, es, 0) == One
    ensures Numerator(GF(), e, es, k + 1) == Mul(Numerator(GF(), e, es, k), Add(e, es[k]))
  {
    hide Add, Mul, GF;
    GfOps(e, es[k]);
    GfOps(Numerator(GF(), e, es, k), Add(e, es[k]));
  }

  lemma NoNumerator(e: Gf, es: seq<Gf>)
    ensures Numerator(GF(), e, es, 0) == One
  {
    hide GF;
    GfOps(e, e);
  }

  lemma DenominatorStep(e: Gf, es: seq<Gf>, i: nat, k: nat)
    requires i < |es| && k < |es|
    ensures Denominator(GF(), e, es, i, k + 1) ==
            if k == i then Denominator(GF(), e, es, i, k) else Mul(Denominator(GF(), e, es, i, k), Add(es[i], es[k]))
  {
    hide Add, Mul, GF;
    GfOps(es[i], es[k]);
    GfOps(Denominator(GF(), e, es, i, k), Add(es[i], es[k]));
  }

  lemma DenominatorFirst(e: Gf, es: seq<Gf>, i: nat)
    requires i < |es|
    ensures Denominator(GF(), e, es, i, 0) == if es[i] != e then Add(e, es[i]) else One
  {
    hide Add, Mul, GF;
    GfOps(e, es[i]);
  }

  lemma SecretStep(e: Gf, es: seq<Gf>, ys: seq<Gf>, k: nat)
    requires k < |es| == |ys|
    ensures var s, n := Secret(GF(), e, es, ys, k), Numerator(GF(), e, es, |es|);
            var t := Mul(Mul(Inv(Denominator(GF(), e, es, k, |es|)), n), ys[k]);
            Secret(GF(), e, es, ys, k + 1) == Add(if es[k] == e then Add(s, ys[k]) else s, t)
  {
    hide Add, Mul, Inv, GF, Denominator, Numerator;
    var s, n, d := Secret(GF(), e, es, ys, k), Numerator(GF(), e, es, |es|), Denominator(GF(), e, es, k, |es|);
    GfOps(d, n);
    GfOps(Inv(d), n);
    GfOps(Mul(Inv(d), n), ys[k]);
    GfOps(s, ys[k]);
    var t := Mul(Mul(Inv(d), n), ys[k]);
    GfOps(if es[k] == e then Add(s, ys[k]) else s, t);
  }

  lemma NoSecret(e: Gf, es: seq<Gf>, ys: seq<Gf>)
    requires |es| == |ys|
    ensures Secret(GF(), e, es, ys, 0) == Zero
  {
    hide GF;
    GfOps(e, e);
  }

  method NumeratorProduct(num: array<Word>, tmp: array<Word>, x: array<Word>, xs: seq<array<Word>>, ghost e: Gf, ghost es: seq<Gf>)
    requires num.Length == tmp.Length == x.Length == 8
    requires num != tmp && num != x && tmp != x && num !in xs && tmp !in xs
    requires Uniform(Words(num[..]), One) && Uniform(Words(x[..]), e) && IndexRows(xs, es)
    modifies num, tmp
    ensures Uniform(Words(num[..]), Numerator(GF(), e, es, |es|))
  {
    hide Uniform, Words, AddWords, MulWords, Add, Mul, Numerator, GF;
    NoNumerator(e, es);
    for i := 0 to |xs|
      invariant Uniform(Words(num[..]), Numerator(GF(), e, es, i))
      invariant IndexRows(xs, es)
      invariant Uniform(Words(x[..]), e)
    {
      ghost var n := Words(num[..]);
      Copy(tmp, x);
      GfAdd(tmp, xs[i]);
      UniformAdd(Words(x[..]), Words(xs[i][..]), e, es[i]);
      ghost var t := Words(tmp[..]);
      GfMul(num, num, tmp);
      UniformMul(n, t, Numerator(GF(), e, es, i), Add(e, es[i]));
      NumeratorStep(e, es, i);
    }
  }

  /** The inner loop over j: denom starts as x + xs[i], or 1 when that is zero. */
  method DenominatorProduct(denom: array<Word>, tmp: array<Word>, xs: seq<array<Word>>, i: nat, ghost e: Gf, ghost es: seq<Gf>)
    requires denom.Length == tmp.Length == 8 && denom != tmp && denom !in xs && tmp !in xs
    requires IndexRows(xs, es) && i < |xs|
    requires Uniform(Words(denom[..]), Denominator(GF(), e, es, i, 0))
    modifies denom, tmp
    ensures Uniform(Words(denom[..]), Denominator(GF(), e, es, i, |es|))
  {
    hide Uniform, Words, AddWords, MulWords, Add, Mul, Denominator, GF;
    for j := 0 to |xs|
      invariant Uniform(Words(denom[..]), Denominator(GF(), e, es, i, j))
      invariant IndexRows(xs, es)
    {
      DenominatorStep(e, es, i, j);
      if i != j {
        ghost var d := Words(denom[..]);
        Copy(tmp, xs[i]);
        GfAdd(tmp, xs[j]);
        UniformAdd(Words(xs[i][..]), Words(xs[j][..]), es[i], es[j]);
        ghost var t := Words(tmp[..]);
        GfMul(denom, denom, tmp);
        UniformMul(d, t, Denominator(GF(), e, es, i, j), Add(es[i], es[j]));
      }
    }
  }

  /** What lane i of the secret holds once k shares are in. */
  ghost predicate Accumulated(s: Slice, e: Gf, es: seq<Gf>, values: seq<seq<bv8>>, len: nat, k: nat)
    requires k <= |es| == |values| && Shares(values, len)
  {
    forall i: nat :: i < 32 ==> Lane(s, i) == Secret(GF(), e, es, Column(values, len, i), k)
  }

  /** One pass of the outer loop on slices: the share's own value (at its index only) and its scaled basis polynomial. */
  lemma AccumulateShare(s: Slice, own: Slice, y: Slice, d: Slice, num: Slice, s': Slice,
                        e: Gf, es: seq<Gf>, values: seq<seq<bv8>>, len: nat, k: nat)
    requires k < |es| == |values| && Shares(values, len)
    requires Accumulated(s, e, es, values, len, k) && ValueRow(y, values, len, k)
    requires Uniform(d, Denominator(GF(), e, es, k, |es|)) && Uniform(num, Numerator(GF(), e, es, |es|))
    requires own == if es[k] == e then AddWords(s, y) else s
    requires s' == AddWords(own, MulWords(MulWords(InvWords(d), num), y))
    ensures Accumulated(s', e, es, values, len, k + 1)
  {
    hide Lane, AddWords, MulWords, InvWords, Add, Mul, Inv, Denominator, Numerator, ShareByte, Secret, GF;
    forall i: nat | i < 32 ensures Lane(s', i) == Secret(GF(), e, es, Column(values, len, i), k + 1) {
      var b, n := InvWords(d), MulWords(InvWords(d), num);
      AddLane(s, y, i);
      InvLane(d, i);
      MulLane(b, num, i);
      MulLane(n, y, i);
      AddLane(own, MulWords(n, y), i);
      assert Column(values, len, i)[k] == ShareByte(values, len, k, i);
      SecretStep(e, es, Column(values, len, i), k);
    }
  }

  /** The end of the outer loop's body: tmp becomes the scaled basis polynomial and is added to the secret. */
  method AddTerm(secret: array<Word>, tmp: array<Word>, denom: array<Word>, num: array<Word>, y: array<Word>)
    requires secret.Length == tmp.Length == denom.Length == num.Length == y.Length == 8
    requires tmp !in [secret, denom, num, y] && secret !in [denom, num, y]
    modifies secret, tmp
    ensures var d, n, v := Words(denom[..]), Words(num[..]), Words(y[..]);
            Words(secret[..]) == AddWords(old(Words(secret[..])), MulWords(MulWords(InvWords(d), n), v))
  {
    hide Words, AddWords, MulWords, InvWords;
    GfInv(tmp, denom);
    GfMul(tmp, tmp, num);
    GfMul(tmp, tmp, y);
    GfAdd(secret, tmp);
  }

  method IsZeroSlice(s: array<Word>) returns (z: bool)
    requires s.Length == 8
    ensures z == (OrWords(Words(s[..])) == Word(0))
  {
    z := Or(Or(Or(Or(Or(Or(Or(s[0], s[1]), s[2]), s[3]), s[4]), s[5]), s[6]), s[7]) == Word(0);
  }

  lemma DenominatorStart(x: Slice, xi: Slice, e: Gf, es: seq<Gf>, i: nat)
    requires i < |es| && es[i] != e && Uniform(x, e) && Uniform(xi, es[i])
    ensures Uniform(AddWords(x, xi), Denominator(GF(), e, es, i, 0))
  {
    hide Uniform, AddWords, Denominator, Add, GF;
    UniformAdd(x, xi, e, es[i]);
    DenominatorFirst(e, es, i);
  }

  predicate DistinctBytes(b: seq<bv8>) {
    forall i, j :: 0 <= i < j < |b| ==> b[i] != b[j]
  }

  lemma RepeatedIndex(indices: seq<bv8>, e: Gf, i: nat)
    requires i < |indices|
    ensures Denominator(GF(), e, Elements(indices), i, |indices|) == Zero ==> !DistinctBytes(indices)
    ensures Denominator(GF(), e, Elements(indices), i, |indices|) != Zero ==>
            forall j :: 0 <= j < |indices| && j != i ==> indices[j] != indices[i]
  {
    hide FromByte, Denominator, GF;
    GfIsField();
    GfOps(e, e);
    var es := Elements(indices);
    DenominatorZero(GF(), e, es, i, |es|);
    if Denominator(GF(), e, es, i, |es|) == Zero {
      var j :| 0 <= j < |es| && j != i && es[i] == es[j];
      FromByteInjective(indices[i], indices[j]);
    } else {
      forall j | 0 <= j < |indices| && j != i ensures indices[j] != indices[i] {
        assert es[i] != es[j];
      }
    }
  }

  /** What the outer loop works on: the slices of x, num, the index rows and the value rows. */
  ghost predicate Prepared(x: array<Word>, num: array<Word>, xs: seq<array<Word>>, ys: seq<array<Word>>,
                           e: Gf, es: seq<Gf>, values: seq<seq<bv8>>, len: nat)
    reads x, num, xs, ys
  {
    Shares(values, len) && |es| == |values| == |ys| && x.Length == num.Length == 8
    && Uniform(Words(x[..]), e) && Uniform(Words(num[..]), Numerator(GF(), e, es, |es|))
    && IndexRows(xs, es) && ValueRows(ys, values, len)
  }

  /** The body of the outer loop for share i; false when its denominator is zero. */
  method AddShare(secret: array<Word>, denom: array<Word>, tmp: array<Word>,
                  x: array<Word>, num: array<Word>, xs: seq<array<Word>>, ys: seq<array<Word>>,
                  resultIndex: bv8, indices: seq<bv8>, ghost values: seq<seq<bv8>>, ghost len: nat, i: nat)
    returns (ok: bool)
    requires Prepared(x, num, xs, ys, FromByte(resultIndex), Elements(indices), values, len)
    requires secret.Length == denom.Length == tmp.Length == 8
    requires secret != denom && secret != tmp && denom != tmp
    requires forall a :: a in [secret, denom, tmp] ==> a != x && a != num && a !in xs && a !in ys
    requires i < |indices| && Accumulated(Words(secret[..]), FromByte(resultIndex), Elements(indices), values, len, i)
    modifies secret, denom, tmp
    ensures ok == (Denominator(GF(), FromByte(resultIndex), Elements(indices), i, |indices|) != Zero)
    ensures ok ==> Accumulated(Words(secret[..]), FromByte(resultIndex), Elements(indices), values, len, i + 1)
  {
    hide Uniform, Words, AddWords, MulWords, InvWords, OrWords, Lane, FromByte, Add, Mul, ShareByte, Accumulated, ValueRow, Denominator, Numerator, GF;
    ghost var e, es := FromByte(resultIndex), Elements(indices);
    ghost var s := Words(secret[..]);
    assert secret in [secret, denom, tmp] && denom in [secret, denom, tmp] && tmp in [secret, denom, tmp];
    assert es[i] == FromByte(indices[i]);
    if indices[i] != resultIndex {
      if es[i] == e { FromByteInjective(indices[i], resultIndex); }
      Copy(denom, x);
      GfAdd(denom, xs[i]);
      DenominatorStart(Words(x[..]), Words(xs[i][..]), e, es, i);
    } else {
      SetUniform(denom, 1);
      ConstantSlices();
      DenominatorFirst(e, es, i);
      GfAdd(secret, ys[i]);
    }
    ghost var own := Words(secret[..]);
    DenominatorProduct(denom, tmp, xs, i, e, es);
    var z := IsZeroSlice(denom);
    UniformZero(Words(denom[..]), Denominator(GF(), e, es, i, |es|));
    if z { return false; }
    AddTerm(secret, tmp, denom, num, ys[i]);
    AccumulateShare(s, own, Words(ys[i][..]), Words(denom[..]), Words(num[..]), Words(secret[..]), e, es, values, len, i);
    return true;
  }

  lemma NothingAccumulated(s: Slice, e: Gf, es: seq<Gf>, values: seq<seq<bv8>>, len: nat)
    requires |es| == |values| && Shares(values, len) && Uniform(s, Zero)
    ensures Accumulated(s, e, es, values, len, 0)
  {
    hide Lane, ShareByte, Secret, GF;
    forall i: nat | i < 32 ensures Lane(s, i) == Secret(GF(), e, es, Column(values, len, i), 0) {
      NoSecret(e, es, Column(values, len, i));
    }
  }

  /** The outer loop: stops at the first share whose index occurs again. */
  method AddShares(secret: array<Word>, denom: array<Word>, tmp: array<Word>,
                   x: array<Word>, num: array<Word>, xs: seq<array<Word>>, ys: seq<array<Word>>,
                   resultIndex: bv8, indices: seq<bv8>, ghost values: seq<seq<bv8>>, ghost len: nat)
    returns (ret: bool)
    requires Prepared(x, num, xs, ys, FromByte(resultIndex), Elements(indices), values, len)
    requires secret.Length == denom.Length == tmp.Length == 8
    requires secret != denom && secret != tmp && denom != tmp
    requires forall a :: a in [secret, denom, tmp] ==> a != x && a != num && a !in xs && a !in ys
    requires Uniform(Words(secret[..]), Zero)
    modifies secret, denom, tmp
    ensures ret <==> DistinctBytes(indices)
    ensures ret ==> Accumulated(Words(secret[..]), FromByte(resultIndex), Elements(indices), values, len, |indices|)
  {
    hide Uniform, Words, FromByte, Accumulated, Denominator, Numerator, ValueRow, GF;
    ghost var e, es := FromByte(resultIndex), Elements(indices);
    assert secret in [secret, denom, tmp] && denom in [secret, denom, tmp] && tmp in [secret, denom, tmp];
    NothingAccumulated(Words(secret[..]), e, es, values, len);
    ret := true;
    var i := 0;
    while i < |indices|
      invariant 0 <= i <= |indices| && ret
      invariant Prepared(x, num, xs, ys, e, es, values, len)
      invariant Accumulated(Words(secret[..]), e, es, values, len, i)
      invariant forall a, b :: 0 <= a < i && a < b < |indices| ==> indices[a] != indices[b]
    {
      ret := AddShare(secret, denom, tmp, x, num, xs, ys, resultIndex, indices, values, len, i);
      RepeatedIndex(indices, e, i);
      if !ret { break; }
      i := i + 1;
    }
  }

  /** Everything but reading and writing the caller's memory. */
  method Combine(resultIndex: bv8, indices: seq<bv8>, values: seq<seq<bv8>>, len: nat)
    returns (ret: bool, secret: array<Word>)
    requires |indices| == |values| && Shares(values, len) && len <= 32
    ensures fresh(secret) && secret.Length == 8
    ensures ret <==> DistinctBytes(indices)
    ensures ret ==> Accumulated(Words(secret[..]), FromByte(resultIndex), Elements(indices), values, len, |indices|)
  {
    hide Uniform, Words, FromByte, Accumulated, Numerator, IndexRows, ValueRows, Add, Mul, GF;
    ghost var e, es := FromByte(resultIndex), Elements(indices);
    var xs, ys := CollectShares(indices, values, len);
    var x, num, denom, tmp: array<Word>;
    x, num, denom, tmp, secret := Slices();
    SetUniform(x, resultIndex);
    NumeratorProduct(num, tmp, x, xs, e, es);
    ret := AddShares(secret, denom, tmp, x, num, xs, ys, resultIndex, indices, values, len);
  }

  /**
    * shamir_interpolate: succeeds exactly when the length fits the lanes and no share index
    * occurs twice, and then every byte of the result is, at resultIndex, the value of every
    * polynomial of degree below the share count through that byte of the shares.
    */
  method ShamirInterpolate(result: array<bv8>, resultIndex: bv8, indices: seq<bv8>, values: seq<seq<bv8>>, len: nat)
    returns (ret: bool)
    requires |indices| == |values| < 256 && Shares(values, len) && len <= result.Length
    modifies result
    ensures ret <==> len <= 32 && DistinctBytes(indices)
    ensures !ret ==> result[..] == old(result[..])
    ensures forall i: nat :: len <= i < result.Length ==> result[i] == old(result[i])
    ensures ret ==> forall i: nat, f: seq<Gf> :: i < len && |f| <= |indices| && Through(f, indices, values, len, i) ==>
              FromByte(result[i]) == Eval(GF(), f, FromByte(resultIndex))
  {
    if len > 32 { return false; }
    hide Lane, Words, FromByte, Eval, Secret, Accumulated, Through, GF;
    var secret: array<Word>;
    ret, secret := Combine(resultIndex, indices, values, len);
    if ret {
      UnBitSlice(result, secret[..], len);
      forall i: nat, f: seq<Gf> | i < len && |f| <= |indices| && Through(f, indices, values, len, i)
        ensures FromByte(result[i]) == Eval(GF(), f, FromByte(resultIndex))
      {
        LaneIsValue(Words(secret[..]), resultIndex, indices, values, len, i, f);
      }
    }
  }

  /** The polynomial f passes through byte i of every share. */
  ghost predicate Through(f: seq<Gf>, indices: seq<bv8>, values: seq<seq<bv8>>, len: nat, i: nat)
    requires |indices| == |values| && Shares(values, len) && i < len
  {
    forall k :: 0 <= k < |indices| ==> Eval(GF(), f, FromByte(indices[k])) == FromByte(values[k][i])
  }

  lemma LaneIsValue(s: Slice, resultIndex: bv8, indices: seq<bv8>, values: seq<seq<bv8>>, len: nat, i: nat, f: seq<Gf>)
    requires |indices| == |values| && Shares(values, len) && len <= 32 && i < len && |f| <= |indices|
    requires DistinctBytes(indices) && Through(f, indices, values, len, i)
    requires Accumulated(s, FromByte(resultIndex), Elements(indices), values, len, |indices|)
    ensures Lane(s, i) == Eval(GF(), f, FromByte(resultIndex))
  {
    hide Lane, FromByte, Eval, Secret, GF;
    GfIsField();
    DistinctElements(indices);
    InterpolationIsExact(GF(), FromByte(resultIndex), Elements(indices), Column(values, len, i), f);
  }

  /** The working slices: num is 1, the others 0. */
  method Slices() returns (x: array<Word>, num: array<Word>, denom: array<Word>, tmp: array<Word>, secret: array<Word>)
    ensures fresh({x, num, denom, tmp, secret})
    ensures x.Length == num.Length == denom.Length == tmp.Length == secret.Length == 8
    ensures x !in [num, denom, tmp, secret] && num !in [denom, tmp, secret] && denom !in [tmp, secret] && tmp != secret
    ensures Uniform(Words(num[..]), One) && Uniform(Words(secret[..]), Zero)
  {
    hide Uniform;
    ConstantSlices();
    x := new Word[8](_ => Word(0));
    num := new Word[8](k => if k == 0 then Word(0xFFFF_FFFF) else Word(0));
    denom := new Word[8](_ => Word(0));
    tmp := new Word[8](_ => Word(0));
    secret := new Word[8](_ => Word(0));
  }

  /** The example of section 4.2 of FIPS 197: {57} times {83} is {c1}, with the bytes read as the program reads them. */
  lemma ProductByExample()
    ensures Mul(FromByte(0x57), FromByte(0x83)) == FromByte(0xc1)
  {
    ExampleBytes();
    hide FromByte;
    var b := Gf(true, true, false, false, false, false, false, true);
    assert MulFrom(Gf(false, false, false, false, true, true, true, false), b, 8) == Zero;
    assert MulFrom(Gf(false, false, false, true, true, true, false, false), b, 7) == Gf(false, false, false, true, true, true, false, false);
    assert MulFrom(Gf(false, false, true, true, true, false, false, false), b, 6) == Gf(false, false, false, true, true, true, false, false);
    assert MulFrom(Gf(false, true, true, true, false, false, false, false), b, 5) == Gf(false, false, false, true, true, true, false, false);
    assert MulFrom(Gf(true, true, true, false, false, false, false, false), b, 4) == Gf(false, false, false, true, true, true, false, false);
    assert MulFrom(Gf(false, true, true, true, false, false, false, true), b, 3) == Gf(false, false, false, true, true, true, false, false);
    assert MulFrom(Gf(true, true, true, false, false, false, true, false), b, 2) == Gf(false, false, false, true, true, true, false, false);
    assert MulFrom(Gf(false, true, true, true, false, true, false, true), b, 1) == Gf(false, true, true, false, true, false, false, true);
    assert MulFrom(Gf(true, true, true, false, true, false, true, false), b, 0) == Gf(true, false, false, false, false, false, true, true);
  }

  lemma ExampleBytes()
    ensures FromByte(0x57) == Gf(true, true, true, false, true, false, true, false)
    ensures FromByte(0x83) == Gf(true, true, false, false, false, false, false, true)
    ensures FromByte(0xc1) == Gf(true, false, false, false, false, false, true, true)
  {}
}
