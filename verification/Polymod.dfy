/** The Bech32 checksum of crypto/segwit_addr.c: linear and injective steps over 30-bit words. */
module Polymod {
  import opened MachineWords

  function Term0(pre: Word): Word { Word((0 - (((pre.bits >> 25) >> 0) & 1)) & 0x3b6a57b2) }
  function Term1(pre: Word): Word { Word((0 - (((pre.bits >> 25) >> 1) & 1)) & 0x26508e6d) }
  function Term2(pre: Word): Word { Word((0 - (((pre.bits >> 25) >> 2) & 1)) & 0x1ea119fa) }
  function Term3(pre: Word): Word { Word((0 - (((pre.bits >> 25) >> 3) & 1)) & 0x3d4233dd) }
  function Term4(pre: Word): Word { Word((0 - (((pre.bits >> 25) >> 4) & 1)) & 0x2a1462b3) }
  function LowShift(pre: Word): Word { Word((pre.bits & 0x1FFFFFF) << 5) }

  /** bech32_polymod_step. */
  function Step(pre: Word): Word {
    Xor(Xor(Xor(Xor(Xor(LowShift(pre), Term0(pre)), Term1(pre)), Term2(pre)), Term3(pre)), Term4(pre))
  }

  predicate Thirty(w: Word) { w.bits < 0x4000_0000 }

  // ----- Exclusive or

  lemma XorSwap(a: Word, b: Word, c: Word, d: Word)
    ensures Xor(Xor(a, b), Xor(c, d)) == Xor(Xor(a, c), Xor(b, d))
  {}

  lemma XorComm(a: Word, b: Word) ensures Xor(a, b) == Xor(b, a) {}
  lemma XorAssoc(a: Word, b: Word, c: Word) ensures Xor(Xor(a, b), c) == Xor(a, Xor(b, c)) {}
  lemma XorZero(a: Word) ensures Xor(a, a) == Word(0) && Xor(a, Word(0)) == a {}

  lemma XorCancel(a: Word, b: Word, c: Word)
    requires Xor(a, c) == Xor(b, c)
    ensures a == b
  {}

  // ----- The step is linear and injective

  lemma Term0Xor(a: Word, b: Word) ensures Term0(Xor(a, b)) == Xor(Term0(a), Term0(b)) {
    Bits0(a.bits, b.bits);
  }
  lemma Bits0(a: bv32, b: bv32)
    ensures (0 - ((((a ^ b) >> 25) >> 0) & 1)) & 0x3b6a57b2 == ((0 - (((a >> 25) >> 0) & 1)) & 0x3b6a57b2) ^ ((0 - (((b >> 25) >> 0) & 1)) & 0x3b6a57b2)
  {}

  lemma Term1Xor(a: Word, b: Word) ensures Term1(Xor(a, b)) == Xor(Term1(a), Term1(b)) {
    Bits1(a.bits, b.bits);
  }
  lemma Bits1(a: bv32, b: bv32)
    ensures (0 - ((((a ^ b) >> 25) >> 1) & 1)) & 0x26508e6d == ((0 - (((a >> 25) >> 1) & 1)) & 0x26508e6d) ^ ((0 - (((b >> 25) >> 1) & 1)) & 0x26508e6d)
  {}

  lemma Term2Xor(a: Word, b: Word) ensures Term2(Xor(a, b)) == Xor(Term2(a), Term2(b)) {
    Bits2(a.bits, b.bits);
  }
  lemma Bits2(a: bv32, b: bv32)
    ensures (0 - ((((a ^ b) >> 25) >> 2) & 1)) & 0x1ea119fa == ((0 - (((a >> 25) >> 2) & 1)) & 0x1ea119fa) ^ ((0 - (((b >> 25) >> 2) & 1)) & 0x1ea119fa)
  {}

  lemma Term3Xor(a: Word, b: Word) ensures Term3(Xor(a, b)) == Xor(Term3(a), Term3(b)) {
    Bits3(a.bits, b.bits);
  }
  lemma Bits3(a: bv32, b: bv32)
    ensures (0 - ((((a ^ b) >> 25) >> 3) & 1)) & 0x3d4233dd == ((0 - (((a >> 25) >> 3) & 1)) & 0x3d4233dd) ^ ((0 - (((b >> 25) >> 3) & 1)) & 0x3d4233dd)
  {}

  lemma Term4Xor(a: Word, b: Word) ensures Term4(Xor(a, b)) == Xor(Term4(a), Term4(b)) {
    Bits4(a.bits, b.bits);
  }
  lemma Bits4(a: bv32, b: bv32)
    ensures (0 - ((((a ^ b) >> 25) >> 4) & 1)) & 0x2a1462b3 == ((0 - (((a >> 25) >> 4) & 1)) & 0x2a1462b3) ^ ((0 - (((b >> 25) >> 4) & 1)) & 0x2a1462b3)
  {}

  lemma LowShiftXor(a: Word, b: Word)
    ensures LowShift(Xor(a, b)) == Xor(LowShift(a), LowShift(b))
  {}

  lemma StepXor(a: Word, b: Word)
    ensures Step(Xor(a, b)) == Xor(Step(a), Step(b))
  {
    hide Xor, Term0, Term1, Term2, Term3, Term4, LowShift;
    LowShiftXor(a, b);
    Term0Xor(a, b); Term1Xor(a, b); Term2Xor(a, b); Term3Xor(a, b); Term4Xor(a, b);
    var a0 := Xor(LowShift(a), Term0(a)); var b0 := Xor(LowShift(b), Term0(b));
    XorSwap(LowShift(a), LowShift(b), Term0(a), Term0(b));
    var a1 := Xor(a0, Term1(a)); var b1 := Xor(b0, Term1(b));
    XorSwap(a0, b0, Term1(a), Term1(b));
    var a2 := Xor(a1, Term2(a)); var b2 := Xor(b1, Term2(b));
    XorSwap(a1, b1, Term2(a), Term2(b));
    var a3 := Xor(a2, Term3(a)); var b3 := Xor(b2, Term3(b));
    XorSwap(a2, b2, Term3(a), Term3(b));
    XorSwap(a3, b3, Term4(a), Term4(b));
  }

  predicate Small(w: Word) { w.bits < 0x200_0000 }
  function Up(w: Word): Word { Word(w.bits << 5) }

  lemma SmallTerms(w: Word)
    requires Small(w)
    ensures Term0(w) == Term1(w) == Term2(w) == Term3(w) == Term4(w) == Word(0) && LowShift(w) == Up(w)
  {}

  /** Below 2^25 the step only shifts. */
  lemma StepSmall(w: Word)
    requires Small(w)
    ensures Step(w) == Up(w)
  {
    hide Xor, Term0, Term1, Term2, Term3, Term4, LowShift, Up, Small;
    SmallTerms(w);
    XorZero(Up(w));
  }

  lemma StepZero(w: Word)
    requires Thirty(w) && Step(w) == Word(0)
    ensures w == Word(0)
  {}

  lemma StepThirty(w: Word)
    ensures Thirty(w) ==> Thirty(Step(w))
  {}

  lemma XorThirty(a: Word, b: Word)
    ensures Thirty(a) && Thirty(b) ==> Thirty(Xor(a, b))
  {}

  // ----- Whole sequences

  /** The checksum state after feeding symbols. */
  function Feed(s: Word, ds: seq<Word>): Word {
    if ds == [] then s else Xor(Step(Feed(s, ds[..|ds| - 1])), ds[|ds| - 1])
  }

  predicate AllThirty(ds: seq<Word>) { forall i :: 0 <= i < |ds| ==> Thirty(ds[i]) }

  lemma {:induction false} FeedThirty(s: Word, ds: seq<Word>)
    requires Thirty(s) && AllThirty(ds)
    ensures Thirty(Feed(s, ds))
  {
    hide Step, Xor, Thirty;
    if ds != [] {
      FeedThirty(s, ds[..|ds| - 1]);
      StepThirty(Feed(s, ds[..|ds| - 1]));
      XorThirty(Step(Feed(s, ds[..|ds| - 1])), ds[|ds| - 1]);
    }
  }

  lemma StepInjective(a: Word, b: Word)
    requires Thirty(a) && Thirty(b) && Step(a) == Step(b)
    ensures a == b
  {
    hide Step, Xor, Thirty;
    StepXor(a, b);
    XorZero(Step(a));
    XorThirty(a, b);
    StepZero(Xor(a, b));
    XorZero(b);
    XorCancel(a, b, b);
  }

  /** Different states stay different under the same symbols. */
  lemma {:induction false} FeedInjective(s: Word, t: Word, ds: seq<Word>)
    requires Thirty(s) && Thirty(t) && AllThirty(ds) && Feed(s, ds) == Feed(t, ds)
    ensures s == t
  {
    hide Step, Xor, Thirty;
    if ds != [] {
      var c, d := ds[..|ds| - 1], ds[|ds| - 1];
      XorCancel(Step(Feed(s, c)), Step(Feed(t, c)), d);
      FeedThirty(s, c);
      FeedThirty(t, c);
      StepInjective(Feed(s, c), Feed(t, c));
      FeedInjective(s, t, c);
    }
  }

  lemma {:induction false} FeedConcat(s: Word, a: seq<Word>, b: seq<Word>)
    ensures Feed(s, a + b) == Feed(Feed(s, a), b)
  {
    hide Step, Xor;
    if b == [] {
      assert a + b == a;
    } else {
      assert (a + b)[..|a + b| - 1] == a + b[..|b| - 1];
      FeedConcat(s, a, b[..|b| - 1]);
    }
  }

  /** Changing one symbol always changes the checksum. */
  lemma OneSymbolDetected(s: Word, a: seq<Word>, x: Word, y: Word, b: seq<Word>)
    requires Thirty(s) && AllThirty(a) && AllThirty(b) && Thirty(x) && Thirty(y) && x != y
    ensures Feed(s, a + [x] + b) != Feed(s, a + [y] + b)
  {
    hide Step, Xor, Thirty;
    if Feed(s, a + [x] + b) == Feed(s, a + [y] + b) {
      FeedConcat(s, a + [x], b);
      FeedConcat(s, a + [y], b);
      FeedThirty(s, a + [x]);
      FeedThirty(s, a + [y]);
      FeedInjective(Feed(s, a + [x]), Feed(s, a + [y]), b);
      assert (a + [x])[..|a|] == a && (a + [y])[..|a|] == a;
      XorComm(Step(Feed(s, a)), x);
      XorComm(Step(Feed(s, a)), y);
      XorCancel(x, y, Step(Feed(s, a)));
    }
  }

  // ----- The six symbols of the checksum

  predicate Symbol(w: Word) { w.bits < 32 }

  function Zeros(n: nat): (z: seq<Word>)
    ensures |z| == n && forall i :: 0 <= i < n ==> z[i] == Word(0)
  {
    seq(n, i => Word(0))
  }

  /** Symbols fed on top of a state add to what zeros would have left. */
  lemma {:induction false} FeedLinear(s: Word, p: Word, ds: seq<Word>)
    ensures Feed(Xor(s, p), ds) == Xor(Feed(s, Zeros(|ds|)), Feed(p, ds))
  {
    hide Step, Xor;
    if ds != [] {
      var c, d, n := ds[..|ds| - 1], ds[|ds| - 1], |ds| - 1;
      FeedLinear(s, p, c);
      assert Zeros(|ds|)[..n] == Zeros(n);
      var x, y := Feed(s, Zeros(n)), Feed(p, c);
      StepXor(x, y);
      XorZero(Step(x));
      XorAssoc(Step(x), Step(y), d);
    }
  }

  function Shr(c: Word, k: bv6): Word
    requires k <= 32
  {
    Word(c.bits >> k)
  }

  function Low5(c: Word): Word { Word(c.bits & 31) }

  /** Symbol i of the checksum. */
  function Digit(c: Word, i: nat): Word
    requires i < 6
  {
    Low5(Shr(c, (5 * (5 - i)) as bv6))
  }

  function Digits(c: Word): (ds: seq<Word>)
    ensures |ds| == 6
  {
    [Digit(c, 0), Digit(c, 1), Digit(c, 2), Digit(c, 3), Digit(c, 4), Digit(c, 5)]
  }

  /** The first j symbols, packed. */
  function Packed(c: Word, j: nat): Word
    requires j <= 6
  {
    Shr(c, (5 * (6 - j)) as bv6)
  }

  lemma PackWord(c: Word, k: bv6)
    requires Thirty(c) && 5 <= k <= 30
    ensures Small(Shr(c, k)) && Xor(Up(Shr(c, k)), Low5(Shr(c, k - 5))) == Shr(c, k - 5)
  {}

  lemma ShiftIs(j: nat)
    requires j < 6
    ensures var k := (5 * (6 - j)) as bv6; 5 <= k <= 30 && (5 * (5 - j)) as bv6 == k - 5
  {
    if j == 0 {} else if j == 1 {} else if j == 2 {} else if j == 3 {} else if j == 4 {} else {}
  }

  lemma PackedStep(c: Word, j: nat)
    requires Thirty(c) && j < 6
    ensures Small(Packed(c, j)) && Xor(Up(Packed(c, j)), Digit(c, j)) == Packed(c, j + 1)
  {
    hide Xor, Up, Small, Thirty, Shr, Low5;
    ShiftIs(j);
    PackWord(c, (5 * (6 - j)) as bv6);
  }

  lemma PackedEnds(c: Word)
    requires Thirty(c)
    ensures Packed(c, 0) == Word(0) && Packed(c, 6) == c
  {
    hide Thirty, Shr;
    ShrEnds(c);
  }

  lemma ShrEnds(c: Word)
    requires Thirty(c)
    ensures Shr(c, 30) == Word(0) && Shr(c, 0) == c
  {}

  lemma {:induction false} FeedDigits(c: Word, j: nat)
    requires Thirty(c) && j <= 6
    ensures Feed(Word(0), Digits(c)[..j]) == Packed(c, j)
  {
    hide Step, Xor, Thirty, Digit, Packed, Up, Small;
    PackedEnds(c);
    if j > 0 {
      FeedDigits(c, j - 1);
      PackedStep(c, j - 1);
      StepSmall(Packed(c, j - 1));
      assert Digits(c)[..j][..j - 1] == Digits(c)[..j - 1];
      assert Digits(c)[..j][j - 1] == Digit(c, j - 1);
    }
  }

  /** The checksum symbols bring every state to the final constant. */
  lemma ChecksumCloses(s: Word, constant: Word)
    requires Thirty(s) && Thirty(constant)
    ensures Feed(s, Digits(Xor(Feed(s, Zeros(6)), constant))) == constant
  {
    hide Step, Xor, Thirty, Digit, Packed, Digits;
    var f := Feed(s, Zeros(6));
    ZerosThirty();
    FeedThirty(s, Zeros(6));
    XorThirty(f, constant);
    var c := Xor(f, constant);
    FeedDigits(c, 6);
    PackedEnds(c);
    assert Digits(c)[..6] == Digits(c);
    XorZero(s);
    FeedLinear(s, Word(0), Digits(c));
    XorAssoc(f, f, constant);
    XorZero(f);
    XorComm(Word(0), constant);
    XorZero(constant);
  }

  lemma ZerosThirty() ensures AllThirty(Zeros(6)) {}

  // ----- The checksum is the only one that closes

  lemma WidthWord(p: Word, d: Word, k: bv6)
    requires k <= 25 && Shr(p, k) == Word(0) && Symbol(d)
    ensures Small(p) && Shr(Xor(Up(p), d), k + 5) == Word(0)
  {}

  lemma UpInjective(p: Word, q: Word, d: Word, e: Word)
    requires Small(p) && Small(q) && Symbol(d) && Symbol(e) && Xor(Up(p), d) == Xor(Up(q), e)
    ensures p == q && d == e
  {}

  predicate Symbols(ds: seq<Word>) { forall i :: 0 <= i < |ds| ==> Symbol(ds[i]) }

  function Width(j: nat): bv6
    requires j <= 6
  {
    (5 * j) as bv6
  }

  lemma WidthStep(j: nat)
    requires j < 6
    ensures Width(j) <= 25 && Width(j + 1) == Width(j) + 5 && Width(0) == 0
  {
    if j == 0 {} else if j == 1 {} else if j == 2 {} else if j == 3 {} else if j == 4 {} else {}
  }

  lemma ShrNone() ensures Shr(Word(0), 0) == Word(0) {}

  lemma {:induction false} FeedWidth(ds: seq<Word>)
    requires Symbols(ds) && |ds| <= 6
    ensures Width(|ds|) <= 30 && Shr(Feed(Word(0), ds), Width(|ds|)) == Word(0)
    ensures |ds| < 6 ==> Small(Feed(Word(0), ds)) && Step(Feed(Word(0), ds)) == Up(Feed(Word(0), ds))
  {
    hide Step, Xor, Small, Up, Shr, Symbol, Width;
    ShrNone();
    WidthStep(0);
    if ds != [] {
      var c, d := ds[..|ds| - 1], ds[|ds| - 1];
      FeedWidth(c);
      WidthStep(|c|);
      WidthWord(Feed(Word(0), c), d, Width(|c|));
    }
    if |ds| < 6 {
      WidthStep(|ds|);
      ZeroIsSymbol();
      WidthWord(Feed(Word(0), ds), Word(0), Width(|ds|));
      StepSmall(Feed(Word(0), ds));
    }
  }

  lemma ZeroIsSymbol() ensures Symbol(Word(0)) {}

  lemma {:induction false} FeedUnique(ds: seq<Word>, es: seq<Word>)
    requires Symbols(ds) && Symbols(es) && |ds| == |es| <= 6 && Feed(Word(0), ds) == Feed(Word(0), es)
    ensures ds == es
  {
    hide Step, Xor, Small, Up, Symbol;
    if ds != [] {
      var c, b := ds[..|ds| - 1], es[..|es| - 1];
      FeedWidth(c);
      FeedWidth(b);
      UpInjective(Feed(Word(0), c), Feed(Word(0), b), ds[|ds| - 1], es[|es| - 1]);
      FeedUnique(c, b);
      assert ds == c + [ds[|ds| - 1]] && es == b + [es[|es| - 1]];
    }
  }

  lemma DigitsAreSymbols(c: Word)
    ensures Symbols(Digits(c))
  {
    forall i | 0 <= i < 6 ensures Symbol(Digits(c)[i]) { LowIsSymbol(Shr(c, (5 * (5 - i)) as bv6)); }
    hide Shr, Low5, Symbol;
  }

  lemma LowIsSymbol(c: Word) ensures Symbol(Low5(c)) {}

  /** Six symbols that bring the state to the constant are the checksum. */
  lemma ChecksumUnique(s: Word, constant: Word, ds: seq<Word>)
    requires Thirty(s) && Thirty(constant) && Symbols(ds) && |ds| == 6 && Feed(s, ds) == constant
    ensures ds == Digits(Xor(Feed(s, Zeros(6)), constant))
  {
    hide Step, Xor, Thirty, Symbol, Digits;
    var f := Feed(s, Zeros(6));
    var es := Digits(Xor(f, constant));
    DigitsAreSymbols(Xor(f, constant));
    ChecksumCloses(s, constant);
    XorZero(s);
    FeedLinear(s, Word(0), ds);
    FeedLinear(s, Word(0), es);
    XorComm(f, Feed(Word(0), ds));
    XorComm(f, Feed(Word(0), es));
    XorCancel(Feed(Word(0), ds), Feed(Word(0), es), f);
    FeedUnique(ds, es);
  }
}
