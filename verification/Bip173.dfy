/** The checksum of BIP-173 and BIP-350 as those standards define it, and the character set. */
module Bip173 {
  import opened MachineWords
  import opened Bech32
  import Polymod

  // ----- The field with 32 elements, by a^5 = a^3 + 1

  datatype E = E(bits: bv5)

  function Sum(e: E, f: E): E { E(e.bits ^ f.bits) }
  function TimesA(e: E): E { E((e.bits << 1) ^ (if e.bits & 16 == 16 then 9 else 0)) }
  function If(bit: bool, e: E): E { if bit then e else E(0) }

  /** Multiplication, by the bits of the first factor. */
  function Times(e: E, f: E): E {
    var f1 := TimesA(f);
    var f2 := TimesA(f1);
    var f3 := TimesA(f2);
    var f4 := TimesA(f3);
    Sum(Sum(Sum(Sum(If(Bit0(e), f), If(Bit1(e), f1)), If(Bit2(e), f2)), If(Bit3(e), f3)), If(Bit4(e), f4))
  }

  predicate Bit0(e: E) { e.bits & 1 == 1 }
  predicate Bit1(e: E) { e.bits & 2 == 2 }
  predicate Bit2(e: E) { e.bits & 4 == 4 }
  predicate Bit3(e: E) { e.bits & 8 == 8 }
  predicate Bit4(e: E) { e.bits & 16 == 16 }

  /** A checksum state as a polynomial of degree below six, the highest coefficient first. */
  datatype Poly = Poly(c5: E, c4: E, c3: E, c2: E, c1: E, c0: E)

  function Coef0(w: Word): E { E((w.bits & 31) as bv5) }
  function Coef1(w: Word): E { E(((w.bits >> 5) & 31) as bv5) }
  function Coef2(w: Word): E { E(((w.bits >> 10) & 31) as bv5) }
  function Coef3(w: Word): E { E(((w.bits >> 15) & 31) as bv5) }
  function Coef4(w: Word): E { E(((w.bits >> 20) & 31) as bv5) }
  function Coef5(w: Word): E { E(((w.bits >> 25) & 31) as bv5) }

  function ToPoly(w: Word): Poly { Poly(Coef5(w), Coef4(w), Coef3(w), Coef2(w), Coef1(w), Coef0(w)) }

  function Plus(p: Poly, q: Poly): Poly {
    Poly(Sum(p.c5, q.c5), Sum(p.c4, q.c4), Sum(p.c3, q.c3), Sum(p.c2, q.c2), Sum(p.c1, q.c1), Sum(p.c0, q.c0))
  }

  /** Multiplication by x modulo x^6 + 29 x^5 + 22 x^4 + 20 x^3 + 21 x^2 + 29 x + 18. */
  function TimesX(p: Poly): Poly {
    Poly(Sum(p.c4, Times(p.c5, E(29))), Sum(p.c3, Times(p.c5, E(22))), Sum(p.c2, Times(p.c5, E(20))),
         Sum(p.c1, Times(p.c5, E(21))), Sum(p.c0, Times(p.c5, E(29))), Times(p.c5, E(18)))
  }

  // ----- The step

  lemma Coef0Xor(a: Word, b: Word) ensures Coef0(Xor(a, b)) == Sum(Coef0(a), Coef0(b)) {}
  lemma Coef1Xor(a: Word, b: Word) ensures Coef1(Xor(a, b)) == Sum(Coef1(a), Coef1(b)) {}
  lemma Coef2Xor(a: Word, b: Word) ensures Coef2(Xor(a, b)) == Sum(Coef2(a), Coef2(b)) {}
  lemma Coef3Xor(a: Word, b: Word) ensures Coef3(Xor(a, b)) == Sum(Coef3(a), Coef3(b)) {}
  lemma Coef4Xor(a: Word, b: Word) ensures Coef4(Xor(a, b)) == Sum(Coef4(a), Coef4(b)) {}
  lemma Coef5Xor(a: Word, b: Word) ensures Coef5(Xor(a, b)) == Sum(Coef5(a), Coef5(b)) {}

  lemma PolyXor(a: Word, b: Word)
    ensures ToPoly(Xor(a, b)) == Plus(ToPoly(a), ToPoly(b))
  {
    hide Coef0, Coef1, Coef2, Coef3, Coef4, Coef5, Sum, Xor;
    Coef0Xor(a, b);
    Coef1Xor(a, b);
    Coef2Xor(a, b);
    Coef3Xor(a, b);
    Coef4Xor(a, b);
    Coef5Xor(a, b);
  }

  function When(bit: bool, p: Poly): Poly { Poly(If(bit, p.c5), If(bit, p.c4), If(bit, p.c3), If(bit, p.c2), If(bit, p.c1), If(bit, p.c0)) }

  lemma LowPoly(w: Word)
    requires Polymod.Thirty(w)
    ensures var p := ToPoly(w); ToPoly(Polymod.LowShift(w)) == Poly(p.c4, p.c3, p.c2, p.c1, p.c0, E(0))
  {}

  lemma Poly0(w: Word)
    ensures ToPoly(Polymod.Term0(w)) == When(Bit0(ToPoly(w).c5), Poly(E(29), E(22), E(20), E(21), E(29), E(18)))
  {}

  lemma Poly1(w: Word)
    ensures ToPoly(Polymod.Term1(w)) == When(Bit1(ToPoly(w).c5), Poly(E(19), E(5), E(1), E(3), E(19), E(13)))
  {}

  lemma Poly2(w: Word)
    ensures ToPoly(Polymod.Term2(w)) == When(Bit2(ToPoly(w).c5), Poly(E(15), E(10), E(2), E(6), E(15), E(26)))
  {}

  lemma Poly3(w: Word)
    ensures ToPoly(Polymod.Term3(w)) == When(Bit3(ToPoly(w).c5), Poly(E(30), E(20), E(4), E(12), E(30), E(29)))
  {}

  lemma Poly4(w: Word)
    ensures ToPoly(Polymod.Term4(w)) == When(Bit4(ToPoly(w).c5), Poly(E(21), E(1), E(8), E(24), E(21), E(19)))
  {}

  // The five constants of the program are the multiples of the generator's lower part by 1, a, a^2, a^3 and a^4.

  lemma Column29(c: E, x: E)
    ensures Sum(Sum(Sum(Sum(Sum(x, If(Bit0(c), E(29))), If(Bit1(c), E(19))), If(Bit2(c), E(15))), If(Bit3(c), E(30))), If(Bit4(c), E(21)))
         == Sum(x, Times(c, E(29)))
  {}

  lemma Column22(c: E, x: E)
    ensures Sum(Sum(Sum(Sum(Sum(x, If(Bit0(c), E(22))), If(Bit1(c), E(5))), If(Bit2(c), E(10))), If(Bit3(c), E(20))), If(Bit4(c), E(1)))
         == Sum(x, Times(c, E(22)))
  {}

  lemma Column20(c: E, x: E)
    ensures Sum(Sum(Sum(Sum(Sum(x, If(Bit0(c), E(20))), If(Bit1(c), E(1))), If(Bit2(c), E(2))), If(Bit3(c), E(4))), If(Bit4(c), E(8)))
         == Sum(x, Times(c, E(20)))
  {}

  lemma Column21(c: E, x: E)
    ensures Sum(Sum(Sum(Sum(Sum(x, If(Bit0(c), E(21))), If(Bit1(c), E(3))), If(Bit2(c), E(6))), If(Bit3(c), E(12))), If(Bit4(c), E(24)))
         == Sum(x, Times(c, E(21)))
  {}

  lemma Column18(c: E, x: E)
    ensures Sum(Sum(Sum(Sum(Sum(x, If(Bit0(c), E(18))), If(Bit1(c), E(13))), If(Bit2(c), E(26))), If(Bit3(c), E(29))), If(Bit4(c), E(19)))
         == Sum(x, Times(c, E(18)))
  {}

  lemma SumZero(e: E) ensures Sum(E(0), e) == e {}

  lemma GeneratorSum(p: Poly)
    ensures Plus(Plus(Plus(Plus(Plus(Poly(p.c4, p.c3, p.c2, p.c1, p.c0, E(0)),
              When(Bit0(p.c5), Poly(E(29), E(22), E(20), E(21), E(29), E(18)))),
              When(Bit1(p.c5), Poly(E(19), E(5), E(1), E(3), E(19), E(13)))),
              When(Bit2(p.c5), Poly(E(15), E(10), E(2), E(6), E(15), E(26)))),
              When(Bit3(p.c5), Poly(E(30), E(20), E(4), E(12), E(30), E(29)))),
              When(Bit4(p.c5), Poly(E(21), E(1), E(8), E(24), E(21), E(19))))
         == TimesX(p)
  {
    hide Sum, If, Times, Bit0, Bit1, Bit2, Bit3, Bit4;
    Column29(p.c5, p.c4);
    Column22(p.c5, p.c3);
    Column20(p.c5, p.c2);
    Column21(p.c5, p.c1);
    Column29(p.c5, p.c0);
    Column18(p.c5, E(0));
    SumZero(Times(p.c5, E(18)));
  }

  /** One step of the checksum multiplies the polynomial by x modulo the generator. */
  lemma StepMultiplies(w: Word)
    requires Polymod.Thirty(w)
    ensures ToPoly(Polymod.Step(w)) == TimesX(ToPoly(w))
  {
    hide ToPoly, TimesX, Plus, When, Xor, Polymod.LowShift, Polymod.Term0, Polymod.Term1, Polymod.Term2, Polymod.Term3, Polymod.Term4;
    LowPoly(w);
    Poly0(w);
    Poly1(w);
    Poly2(w);
    Poly3(w);
    Poly4(w);
    var s0 := Xor(Polymod.LowShift(w), Polymod.Term0(w));
    var s1 := Xor(s0, Polymod.Term1(w));
    var s2 := Xor(s1, Polymod.Term2(w));
    var s3 := Xor(s2, Polymod.Term3(w));
    PolyXor(Polymod.LowShift(w), Polymod.Term0(w));
    PolyXor(s0, Polymod.Term1(w));
    PolyXor(s1, Polymod.Term2(w));
    PolyXor(s2, Polymod.Term3(w));
    PolyXor(s3, Polymod.Term4(w));
    GeneratorSum(ToPoly(w));
  }

  // ----- The character set

  lemma Charset(d: nat)
    requires d < 32
    ensures Char(d) == "qpzry9x8gf2tvdw0s3jn54khce6mua7l"[d]
  {}

  /** The characters and lengths of the human-readable part, and the two cases. */
  lemma Limits(c: char)
    ensures HrpChar(c) <==> '!' <= c <= '~'
    ensures MAX_HRP == 83
    ensures if 'A' <= c <= 'Z' then Lower(c) as int == c as int + 32 else Lower(c) == c
    ensures 'A' as int + 32 == 'a' as int
  {}

  // ----- Test vectors of the two standards

  /** One symbol fed in. */
  lemma Fed(before: seq<nat>, d: nat, x: Word, y: Word)
    requires forall i :: 0 <= i < |before| ==> before[i] < 32
    requires d < 32 && Polymod.Feed(Word(1), Syms(before)) == x && Xor(Polymod.Step(x), Sym(d)) == y
    ensures Polymod.Feed(Word(1), Syms(before + [d])) == y
  {
    hide Polymod.Step, Xor, Polymod.Feed, Sym;
    FeedPush(Word(1), before, d);
  }

  lemma Expanded()
    ensures Hrp("a") && Expand("a") == [3, 0, 1] && Polymod.Feed(Word(1), Syms([])) == Word(1)
  {
    assert "a"[0] as int == 97;
  }

  lemma Hrp1() ensures Xor(Polymod.Step(Word(0x1)), Sym(3)) == Word(0x23) {}
  lemma Hrp2() ensures Xor(Polymod.Step(Word(0x23)), Sym(0)) == Word(0x460) {}
  lemma Hrp3() ensures Xor(Polymod.Step(Word(0x460)), Sym(1)) == Word(0x8c01) {}
  lemma Plain1() ensures Xor(Polymod.Step(Word(0x8c01)), Sym(10)) == Word(0x11802a) {}
  lemma Plain2() ensures Xor(Polymod.Step(Word(0x11802a)), Sym(28)) == Word(0x230055c) {}
  lemma Plain3() ensures Xor(Polymod.Step(Word(0x230055c)), Sym(25)) == Word(0x3d6afc2b) {}
  lemma Plain4() ensures Xor(Polymod.Step(Word(0x3d6afc2b)), Sym(31)) == Word(0x2f84386) {}
  lemma Plain5() ensures Xor(Polymod.Step(Word(0x2f84386)), Sym(20)) == Word(0x24622766) {}
  lemma Plain6() ensures Xor(Polymod.Step(Word(0x24622766)), Sym(31)) == Word(0x1) {}
  lemma Modified1() ensures Xor(Polymod.Step(Word(0x8c01)), Sym(31)) == Word(0x11803f) {}
  lemma Modified2() ensures Xor(Polymod.Step(Word(0x11803f)), Sym(0)) == Word(0x23007e0) {}
  lemma Modified3() ensures Xor(Polymod.Step(Word(0x23007e0)), Sym(9)) == Word(0x3d6aabbb) {}
  lemma Modified4() ensures Xor(Polymod.Step(Word(0x3d6aabbb)), Sym(19)) == Word(0x2f2b18a) {}
  lemma Modified5() ensures Xor(Polymod.Step(Word(0x2f2b18a)), Sym(17)) == Word(0x253c66e3) {}
  lemma Modified6() ensures Xor(Polymod.Step(Word(0x253c66e3)), Sym(29)) == Word(0x2bc830a3) {}

  lemma HrpFed()
    ensures Polymod.Feed(Word(1), Syms([3, 0, 1])) == Word(0x8c01)
  {
    hide Polymod.Feed, Polymod.Step, Xor, Sym;
    Expanded();
    Hrp1();
    Fed([], 3, Word(0x1), Word(0x23));
    assert [] + [3] == [3];
    Hrp2();
    Fed([3], 0, Word(0x23), Word(0x460));
    assert [3] + [0] == [3, 0];
    Hrp3();
    Fed([3, 0], 1, Word(0x460), Word(0x8c01));
    assert [3, 0] + [1] == [3, 0, 1];
  }

  lemma PlainHalf()
    ensures Polymod.Feed(Word(1), Syms([3, 0, 1, 10, 28, 25])) == Word(0x3d6afc2b)
  {
    hide Polymod.Feed, Polymod.Step, Xor, Sym;
    HrpFed();
    Plain1();
    Fed([3, 0, 1], 10, Word(0x8c01), Word(0x11802a));
    assert [3, 0, 1] + [10] == [3, 0, 1, 10];
    Plain2();
    Fed([3, 0, 1, 10], 28, Word(0x11802a), Word(0x230055c));
    assert [3, 0, 1, 10] + [28] == [3, 0, 1, 10, 28];
    Plain3();
    Fed([3, 0, 1, 10, 28], 25, Word(0x230055c), Word(0x3d6afc2b));
    assert [3, 0, 1, 10, 28] + [25] == [3, 0, 1, 10, 28, 25];
  }

  lemma PlainFed()
    ensures Polymod.Feed(Word(1), Syms([3, 0, 1, 10, 28, 25, 31, 20, 31])) == Word(0x1)
  {
    hide Polymod.Feed, Polymod.Step, Xor, Sym;
    PlainHalf();
    Plain4();
    Fed([3, 0, 1, 10, 28, 25], 31, Word(0x3d6afc2b), Word(0x2f84386));
    assert [3, 0, 1, 10, 28, 25] + [31] == [3, 0, 1, 10, 28, 25, 31];
    Plain5();
    Fed([3, 0, 1, 10, 28, 25, 31], 20, Word(0x2f84386), Word(0x24622766));
    assert [3, 0, 1, 10, 28, 25, 31] + [20] == [3, 0, 1, 10, 28, 25, 31, 20];
    Plain6();
    Fed([3, 0, 1, 10, 28, 25, 31, 20], 31, Word(0x24622766), Word(0x1));
    assert [3, 0, 1, 10, 28, 25, 31, 20] + [31] == [3, 0, 1, 10, 28, 25, 31, 20, 31];
  }

  /** a12uel5l encodes an empty string in BIP-173. */
  lemma EmptyPlain()
    ensures Hrp("a") && Encoded("a", [], Plain) == "a12uel5l"
  {
    hide Polymod.Feed, Polymod.Step, Xor, Sym, Checksum, Expand, Char;
    Expanded();
    PlainFed();
    var c := [10, 28, 25, 31, 20, 31];
    assert Expand("a") + ([] + c) == [3, 0, 1, 10, 28, 25, 31, 20, 31];
    Closes("a", [], c, Plain);
    SpelledPlain();
  }

  lemma SpelledPlain()
    ensures Chars([] + [10, 28, 25, 31, 20, 31]) == "2uel5l"
  {}

  lemma ModifiedHalf()
    ensures Polymod.Feed(Word(1), Syms([3, 0, 1, 31, 0, 9])) == Word(0x3d6aabbb)
  {
    hide Polymod.Feed, Polymod.Step, Xor, Sym;
    HrpFed();
    Modified1();
    Fed([3, 0, 1], 31, Word(0x8c01), Word(0x11803f));
    assert [3, 0, 1] + [31] == [3, 0, 1, 31];
    Modified2();
    Fed([3, 0, 1, 31], 0, Word(0x11803f), Word(0x23007e0));
    assert [3, 0, 1, 31] + [0] == [3, 0, 1, 31, 0];
    Modified3();
    Fed([3, 0, 1, 31, 0], 9, Word(0x23007e0), Word(0x3d6aabbb));
    assert [3, 0, 1, 31, 0] + [9] == [3, 0, 1, 31, 0, 9];
  }

  lemma ModifiedFed()
    ensures Polymod.Feed(Word(1), Syms([3, 0, 1, 31, 0, 9, 19, 17, 29])) == Word(0x2bc830a3)
  {
    hide Polymod.Feed, Polymod.Step, Xor, Sym;
    ModifiedHalf();
    Modified4();
    Fed([3, 0, 1, 31, 0, 9], 19, Word(0x3d6aabbb), Word(0x2f2b18a));
    assert [3, 0, 1, 31, 0, 9] + [19] == [3, 0, 1, 31, 0, 9, 19];
    Modified5();
    Fed([3, 0, 1, 31, 0, 9, 19], 17, Word(0x2f2b18a), Word(0x253c66e3));
    assert [3, 0, 1, 31, 0, 9, 19] + [17] == [3, 0, 1, 31, 0, 9, 19, 17];
    Modified6();
    Fed([3, 0, 1, 31, 0, 9, 19, 17], 29, Word(0x253c66e3), Word(0x2bc830a3));
    assert [3, 0, 1, 31, 0, 9, 19, 17] + [29] == [3, 0, 1, 31, 0, 9, 19, 17, 29];
  }

  /** a1lqfn3a encodes an empty string in BIP-350. */
  lemma EmptyModified()
    ensures Hrp("a") && Encoded("a", [], Modified) == "a1lqfn3a"
  {
    hide Polymod.Feed, Polymod.Step, Xor, Sym, Checksum, Expand, Char;
    Expanded();
    ModifiedFed();
    var c := [31, 0, 9, 19, 17, 29];
    assert Expand("a") + ([] + c) == [3, 0, 1, 31, 0, 9, 19, 17, 29];
    Closes("a", [], c, Modified);
    SpelledModified();
  }

  lemma SpelledModified()
    ensures Chars([] + [31, 0, 9, 19, 17, 29]) == "lqfn3a"
  {}
}
