/** bech32_encode and bech32_decode of crypto/segwit_addr.c (BIP-173, BIP-350). */
module Bech32 {
  import opened Options
  import opened MachineWords
  import Polymod
  import opened Radix

  datatype Encoding = Plain | Modified

  /** bech32_final_constant. */
  function Constant(e: Encoding): Word {
    match e case Plain => Word(1) case Modified => Word(0x2bc830a3)
  }

  lemma Constants()
    ensures Polymod.Thirty(Constant(Plain)) && Polymod.Thirty(Constant(Modified)) && Constant(Plain) != Constant(Modified)
  {}

  // ----- Characters

  /** charset. */
  function Char(d: nat): char
    requires d < 32
  {
    if d == 0 then 'q' else if d == 1 then 'p' else if d == 2 then 'z' else if d == 3 then 'r' else
    if d == 4 then 'y' else if d == 5 then '9' else if d == 6 then 'x' else if d == 7 then '8' else
    if d == 8 then 'g' else if d == 9 then 'f' else if d == 10 then '2' else if d == 11 then 't' else
    if d == 12 then 'v' else if d == 13 then 'd' else if d == 14 then 'w' else if d == 15 then '0' else
    if d == 16 then 's' else if d == 17 then '3' else if d == 18 then 'j' else if d == 19 then 'n' else
    if d == 20 then '5' else if d == 21 then '4' else if d == 22 then 'k' else if d == 23 then 'h' else
    if d == 24 then 'c' else if d == 25 then 'e' else if d == 26 then '6' else if d == 27 then 'm' else
    if d == 28 then 'u' else if d == 29 then 'a' else if d == 30 then '7' else 'l'
  }

  /** charset_rev on lower-case characters. */
  function RevLower(c: char): (d: int)
    ensures -1 <= d < 32
  {
    if c == 'q' then 0 else if c == 'p' then 1 else if c == 'z' then 2 else if c == 'r' then 3 else
    if c == 'y' then 4 else if c == '9' then 5 else if c == 'x' then 6 else if c == '8' then 7 else
    if c == 'g' then 8 else if c == 'f' then 9 else if c == '2' then 10 else if c == 't' then 11 else
    if c == 'v' then 12 else if c == 'd' then 13 else if c == 'w' then 14 else if c == '0' then 15 else
    if c == 's' then 16 else if c == '3' then 17 else if c == 'j' then 18 else if c == 'n' then 19 else
    if c == '5' then 20 else if c == '4' then 21 else if c == 'k' then 22 else if c == 'h' then 23 else
    if c == 'c' then 24 else if c == 'e' then 25 else if c == '6' then 26 else if c == 'm' then 27 else
    if c == 'u' then 28 else if c == 'a' then 29 else if c == '7' then 30 else if c == 'l' then 31 else -1
  }

  predicate Upper(c: char) { 'A' <= c <= 'Z' }
  predicate LowerCase(c: char) { 'a' <= c <= 'z' }

  function Lower(c: char): char { if Upper(c) then c + 32 as char else c }

  /** charset_rev: either case. */
  function Rev(c: char): (d: int)
    ensures -1 <= d < 32
  {
    RevLower(Lower(c))
  }

  lemma RevChar(d: nat)
    requires d < 32
    ensures RevLower(Char(d)) == d && !Upper(Char(d)) && Char(d) != '1'
  {}

  lemma CharRev(c: char)
    ensures RevLower(c) >= 0 ==> Char(RevLower(c)) == c
  {}

  // ----- Symbols as words

  function Sym(d: nat): Word
    requires d < 32
  {
    Word((d as bv6) as bv32)
  }

  function Num(w: Word): (d: nat)
    ensures d < 32
  {
    ((w.bits & 31) as bv6) as int
  }

  lemma SymNum(d: nat, w: Word)
    ensures d < 32 ==> Num(Sym(d)) == d && Polymod.Symbol(Sym(d))
    ensures Polymod.Symbol(w) ==> Sym(Num(w)) == w
    ensures Sym(0) == Word(0)
  {
    if d < 32 { NumSym(d); SymIsSymbol(d); }
    if Polymod.Symbol(w) { SymOfNum(w); }
  }

  lemma NumSym(d: nat)
    requires d < 32
    ensures Num(Sym(d)) == d
  {}

  lemma SymIsSymbol(d: nat)
    requires d < 32
    ensures Polymod.Symbol(Sym(d))
  {}

  lemma SymOfNum(w: Word)
    requires Polymod.Symbol(w)
    ensures Sym(Num(w)) == w
  {}

  function Syms(s: seq<nat>): (ws: seq<Word>)
    requires Digits(s, 32)
    ensures |ws| == |s| && forall i :: 0 <= i < |s| ==> ws[i] == Sym(s[i])
  {
    seq(|s|, i requires 0 <= i < |s| => Sym(s[i]))
  }

  function Nums(ws: seq<Word>): (s: seq<nat>)
    ensures |s| == |ws| && Digits(s, 32) && forall i :: 0 <= i < |s| ==> s[i] == Num(ws[i])
  {
    seq(|ws|, i requires 0 <= i < |ws| => Num(ws[i]))
  }

  lemma SymsNums(s: seq<nat>, ws: seq<Word>)
    requires Digits(s, 32) && Polymod.Symbols(ws)
    ensures Nums(Syms(s)) == s && Syms(Nums(ws)) == ws && Polymod.Symbols(Syms(s))
  {
    hide Sym, Num, Polymod.Symbol;
    forall i | 0 <= i < |s| ensures Num(Sym(s[i])) == s[i] && Polymod.Symbol(Sym(s[i])) { SymNum(s[i], Word(0)); }
    forall i | 0 <= i < |ws| ensures Sym(Num(ws[i])) == ws[i] { SymNum(0, ws[i]); }
  }

  lemma SymsConcat(a: seq<nat>, b: seq<nat>)
    requires Digits(a, 32) && Digits(b, 32)
    ensures Digits(a + b, 32) && Syms(a + b) == Syms(a) + Syms(b)
  {}

  // ----- The human-readable part

  predicate HrpChar(c: char) { 33 <= c as int <= 126 }
  predicate Hrp(h: string) { forall i :: 0 <= i < |h| ==> HrpChar(h[i]) }
  predicate NoUpper(s: string) { forall i :: 0 <= i < |s| ==> !Upper(s[i]) }
  predicate NoLower(s: string) { forall i :: 0 <= i < |s| ==> !LowerCase(s[i]) }

  function LowerAll(s: string): (t: string)
    ensures |t| == |s| && forall i :: 0 <= i < |s| ==> t[i] == Lower(s[i])
  {
    seq(|s|, i requires 0 <= i < |s| => Lower(s[i]))
  }

  lemma LowerAllIs(s: string)
    ensures NoUpper(LowerAll(s)) && (NoUpper(s) ==> LowerAll(s) == s) && (Hrp(s) <==> Hrp(LowerAll(s)))
  {}

  function Highs(h: string): (s: seq<nat>)
    requires Hrp(h)
    ensures |s| == |h| && Digits(s, 32) && forall i :: 0 <= i < |h| ==> s[i] == h[i] as int / 32
  {
    seq(|h|, i requires 0 <= i < |h| => h[i] as int / 32)
  }

  function Lows(h: string): (s: seq<nat>)
    requires Hrp(h)
    ensures |s| == |h| && Digits(s, 32) && forall i :: 0 <= i < |h| ==> s[i] == h[i] as int % 32
  {
    seq(|h|, i requires 0 <= i < |h| => h[i] as int % 32)
  }

  /** What the human-readable part contributes to the checksum. */
  function Expand(h: string): (s: seq<nat>)
    requires Hrp(h)
    ensures Digits(s, 32)
  {
    Highs(h) + [0] + Lows(h)
  }

  /** The checksum state after the human-readable part and data. */
  function State(h: string, data: seq<nat>): Word
    requires Hrp(h) && Digits(data, 32)
  {
    Polymod.Feed(Word(1), Syms(Expand(h) + data))
  }

  /** The six checksum symbols. */
  function Checksum(h: string, data: seq<nat>, e: Encoding): (s: seq<nat>)
    requires Hrp(h) && Digits(data, 32)
    ensures |s| == 6 && Digits(s, 32)
  {
    Nums(Polymod.Digits(Xor(Polymod.Feed(State(h, data), Polymod.Zeros(6)), Constant(e))))
  }

  function Chars(s: seq<nat>): (t: string)
    requires Digits(s, 32)
    ensures |t| == |s| && forall i :: 0 <= i < |s| ==> t[i] == Char(s[i])
  {
    seq(|s|, i requires 0 <= i < |s| => Char(s[i]))
  }

  /** The human-readable part, the separator, the data and the checksum. */
  function Encoded(h: string, data: seq<nat>, e: Encoding): string
    requires Hrp(h) && Digits(data, 32)
  {
    h + ['1'] + Chars(data + Checksum(h, data, e))
  }

  // ----- The checksum closes exactly the encoded strings

  lemma StateThirty(h: string, data: seq<nat>)
    requires Hrp(h) && Digits(data, 32)
    ensures Polymod.Thirty(State(h, data))
  {
    hide Polymod.Feed, Polymod.Thirty, Sym, Expand;
    OneIsThirty();
    SymbolsThirty(Expand(h) + data);
    Polymod.FeedThirty(Word(1), Syms(Expand(h) + data));
  }

  lemma OneIsThirty() ensures Polymod.Thirty(Word(1)) {}

  lemma SymbolsThirty(s: seq<nat>)
    requires Digits(s, 32)
    ensures Polymod.AllThirty(Syms(s))
  {
    forall i | 0 <= i < |s| ensures Polymod.Thirty(Syms(s)[i]) { SymIsSymbol(s[i]); SmallIsThirty(Sym(s[i])); }
    hide Sym;
  }

  lemma SmallIsThirty(w: Word)
    requires Polymod.Symbol(w)
    ensures Polymod.Thirty(w)
  {}

  lemma Closes(h: string, data: seq<nat>, c: seq<nat>, e: Encoding)
    requires Hrp(h) && Digits(data, 32) && Digits(c, 32) && |c| == 6
    ensures Digits(data + c, 32) && (State(h, data + c) == Constant(e) <==> c == Checksum(h, data, e))
  {
    hide Polymod.Feed, Polymod.Thirty, Polymod.Step, Xor, Sym, Num, Expand, Polymod.Digits, Constant, Polymod.Symbol;
    var s := State(h, data);
    assert Expand(h) + (data + c) == (Expand(h) + data) + c;
    SymsConcat(Expand(h) + data, c);
    Polymod.FeedConcat(Word(1), Syms(Expand(h) + data), Syms(c));
    StateThirty(h, data);
    Constants();
    var x := Xor(Polymod.Feed(s, Polymod.Zeros(6)), Constant(e));
    Polymod.DigitsAreSymbols(x);
    SymsNums(c, Polymod.Digits(x));
    Polymod.ChecksumCloses(s, Constant(e));
    if Polymod.Feed(s, Syms(c)) == Constant(e) {
      Polymod.ChecksumUnique(s, Constant(e), Syms(c));
    }
  }

  // ----- bech32_encode

  lemma FeedPush(s: Word, a: seq<nat>, d: nat)
    requires Digits(a, 32) && d < 32
    ensures Digits(a + [d], 32) && Polymod.Feed(s, Syms(a + [d])) == Xor(Polymod.Step(Polymod.Feed(s, Syms(a))), Sym(d))
  {
    hide Sym, Polymod.Step, Xor;
    assert Syms(a + [d])[..|a|] == Syms(a);
  }

  lemma FeedZero(s: Word, a: seq<nat>)
    requires Digits(a, 32)
    ensures Digits(a + [0], 32) && Polymod.Feed(s, Syms(a + [0])) == Polymod.Step(Polymod.Feed(s, Syms(a)))
  {
    hide Sym, Polymod.Step, Xor, Polymod.Feed;
    FeedPush(s, a, 0);
    SymNum(0, Word(0));
    Polymod.XorZero(Polymod.Step(Polymod.Feed(s, Syms(a))));
  }

  /** The checksum over the human-readable part; false at a character that is not allowed. */
  method FeedHrp(hrp: string, checkCase: bool) returns (ok: bool, chk: Word, low: string)
    ensures ok <==> Hrp(hrp) && (checkCase ==> NoUpper(hrp))
    ensures ok ==> low == LowerAll(hrp) && Hrp(low) && chk == Polymod.Feed(Word(1), Syms(Highs(low) + [0]))
  {
    hide Sym, Polymod.Step, Xor, Polymod.Feed, Highs;
    chk, low := Word(1), [];
    NoHighs();
    for i := 0 to |hrp|
      invariant |low| == i && low == LowerAll(hrp[..i]) && Hrp(hrp[..i]) && Hrp(low) && (checkCase ==> NoUpper(hrp[..i]))
      invariant chk == Polymod.Feed(Word(1), Syms(Highs(low)))
    {
      var ch := hrp[i];
      if ch as int < 33 || ch as int > 126 { return false, chk, low; }
      if checkCase && Upper(ch) { return false, chk, low; }
      ch := Lower(ch);
      HighsPush(low, ch);
      FeedPush(Word(1), Highs(low), ch as int / 32);
      chk := Xor(Polymod.Step(chk), Sym(ch as int / 32));
      assert hrp[..i + 1] == hrp[..i] + [hrp[i]];
      low := low + [ch];
    }
    assert hrp[..|hrp|] == hrp;
    FeedZero(Word(1), Highs(low));
    chk := Polymod.Step(chk);
    ok := true;
  }

  lemma NoHighs()
    ensures Polymod.Feed(Word(1), Syms(Highs([]))) == Word(1)
  {
    assert Highs([]) == [];
  }

  lemma HighsPush(h: string, c: char)
    requires Hrp(h) && HrpChar(c)
    ensures Hrp(h + [c]) && Highs(h + [c]) == Highs(h) + [c as int / 32] && Lows(h + [c]) == Lows(h) + [c as int % 32]
  {}

  /** The second pass over the human-readable part, on its characters in either case. */
  method FeedLows(chk0: Word, hrp: string, ghost low: string) returns (chk: Word)
    requires Hrp(hrp) && low == LowerAll(hrp) && Hrp(low) && chk0 == Polymod.Feed(Word(1), Syms(Highs(low) + [0]))
    ensures chk == State(low, [])
  {
    hide Sym, Polymod.Step, Xor, Polymod.Feed, Highs, Lows;
    chk := chk0;
    ghost var a := Highs(low) + [0];
    LowsStart(low, a);
    for i := 0 to |hrp|
      invariant chk == Polymod.Feed(Word(1), Syms(a + Lows(low)[..i]))
    {
      LowsAt(hrp, low, i);
      assert a + Lows(low)[..i + 1] == (a + Lows(low)[..i]) + [Lows(low)[i]];
      FeedPush(Word(1), a + Lows(low)[..i], Lows(low)[i]);
      chk := Xor(Polymod.Step(chk), Sym(hrp[i] as int % 32));
    }
    assert a + Lows(low)[..|hrp|] == Expand(low) + [];
  }

  lemma LowsStart(low: string, a: seq<nat>)
    requires Hrp(low)
    ensures a + Lows(low)[..0] == a
  {}

  lemma LowsAt(hrp: string, low: string, i: nat)
    requires Hrp(hrp) && low == LowerAll(hrp) && Hrp(low) && i < |hrp|
    ensures Lows(low)[i] == hrp[i] as int % 32
  {}

  method Encode(hrp: string, data: seq<nat>, e: Encoding) returns (ok: bool, out: string)
    ensures ok <==> Hrp(hrp) && NoUpper(hrp) && |hrp| + 7 + |data| <= 90 && Digits(data, 32)
    ensures ok ==> out == Encoded(hrp, data, e)
  {
    hide Sym, Polymod.Step, Xor, Polymod.Feed, Highs, Lows, Char, Constant, Polymod.Digits, Polymod.Digit, Num;
    out := [];
    var chk: Word;
    var low: string;
    ok, chk, low := FeedHrp(hrp, true);
    if !ok { return; }
    LowerAllIs(hrp);
    if |hrp| + 7 + |data| > 90 { return false, out; }
    chk := FeedLows(chk, hrp, low);
    out := hrp + ['1'];
    for i := 0 to |data|
      invariant Digits(data[..i], 32) && chk == State(hrp, data[..i])
      invariant out == hrp + ['1'] + Chars(data[..i])
    {
      if data[i] >= 32 { return false, out; }
      StatePush(hrp, data, i);
      chk := Xor(Polymod.Step(chk), Sym(data[i]));
      out := out + [Char(data[i])];
    }
    assert data[..|data|] == data;
    ghost var s := chk;
    FeedZeros(s);
    for i := 0 to 6
      invariant chk == Polymod.Feed(s, Polymod.Zeros(i))
    {
      FeedZeros6(s, i);
      chk := Polymod.Step(chk);
    }
    chk := Xor(chk, Constant(e));
    var c := Nums(Polymod.Digits(chk));
    out := out + Chars(c);
    assert Chars(data + c) == Chars(data) + Chars(c);
    ok := true;
  }

  lemma StatePush(h: string, data: seq<nat>, i: nat)
    requires Hrp(h) && i < |data| && Digits(data[..i], 32) && data[i] < 32
    ensures data[..i + 1] == data[..i] + [data[i]] && Digits(data[..i + 1], 32)
    ensures State(h, data[..i + 1]) == Xor(Polymod.Step(State(h, data[..i])), Sym(data[i]))
  {
    hide Sym, Polymod.Step, Xor, Polymod.Feed, Expand;
    assert Expand(h) + data[..i + 1] == (Expand(h) + data[..i]) + [data[i]];
    FeedPush(Word(1), Expand(h) + data[..i], data[i]);
  }

  lemma FeedZeros(s: Word) ensures Polymod.Feed(s, Polymod.Zeros(0)) == s {}

  lemma FeedZeros6(s: Word, i: nat)
    requires i < 6
    ensures Polymod.Feed(s, Polymod.Zeros(i + 1)) == Polymod.Step(Polymod.Feed(s, Polymod.Zeros(i)))
  {
    hide Polymod.Step, Xor;
    assert Polymod.Zeros(i + 1)[..i] == Polymod.Zeros(i);
    Polymod.XorZero(Polymod.Step(Polymod.Feed(s, Polymod.Zeros(i))));
  }

  // ----- bech32_decode

  const MAX_HRP: nat := 83

  /** The input is, up to case, the encoding of h and d, and its letters are all of one case. */
  ghost predicate Accepts(input: string, h: string, d: seq<nat>, e: Encoding) {
    && 1 <= |h| <= MAX_HRP && Hrp(h) && NoUpper(h) && Digits(d, 32)
    && LowerAll(input) == Encoded(h, d, e)
    && (NoUpper(input) || NoLower(input))
  }

  /** p is the last separator. */
  predicate Separator(input: string, p: nat) {
    p < |input| && input[p] == '1' && forall i :: p < i < |input| ==> input[i] != '1'
  }

  predicate DataChars(s: string) { forall i :: 0 <= i < |s| ==> Rev(s[i]) >= 0 }

  function Revs(s: string): (v: seq<nat>)
    requires DataChars(s)
    ensures |v| == |s| && Digits(v, 32) && forall i :: 0 <= i < |s| ==> v[i] == Rev(s[i])
  {
    seq(|s|, i requires 0 <= i < |s| => Rev(s[i]))
  }

  /** What the decoder finds in an accepted input. */
  ghost predicate Parses(input: string, p: nat, e: Encoding) {
    && Separator(input, p) && 1 <= p <= MAX_HRP && |input| - 1 - p >= 6
    && Hrp(input[..p]) && Hrp(LowerAll(input[..p])) && DataChars(input[p + 1..])
    && (NoUpper(input) || NoLower(input))
    && State(LowerAll(input[..p]), Revs(input[p + 1..])) == Constant(e)
  }

  lemma LowerOne(c: char) ensures Lower(c) == '1' <==> c == '1' {}

  lemma CharsAreData(s: seq<nat>)
    requires Digits(s, 32)
    ensures NoUpper(Chars(s)) && forall i :: 0 <= i < |s| ==> Chars(s)[i] != '1' && RevLower(Chars(s)[i]) == s[i]
  {
    hide Char, RevLower;
    forall i | 0 <= i < |s| ensures !Upper(Chars(s)[i]) && Chars(s)[i] != '1' && RevLower(Chars(s)[i]) == s[i] { RevChar(s[i]); }
  }

  /** An accepted input parses, at the end of its human-readable part. */
  lemma AcceptedParses(input: string, h: string, d: seq<nat>, e: Encoding)
    requires Accepts(input, h, d, e)
    ensures Parses(input, |h|, e)
    ensures h == LowerAll(input[..|h|]) && d == Revs(input[|h| + 1..])[..|input| - 7 - |h|]
  {
    hide Char, RevLower, State, Checksum, Constant, Lower, Upper, HrpChar;
    var p, c := |h|, Checksum(h, d, e);
    var t, low := Chars(d + c), LowerAll(input);
    assert low == h + ['1'] + t;
    CharsAreData(d + c);
    assert |input| == p + 1 + |t|;
    forall i | 0 <= i < |input| ensures low[i] == '1' <==> input[i] == '1' { LowerOne(input[i]); }
    forall i | p < i < |input| ensures input[i] != '1' { assert low[i] == t[i - p - 1]; }
    assert low[p] == '1';
    var tail := input[p + 1..];
    forall i | 0 <= i < |tail| ensures Rev(tail[i]) == (d + c)[i] { assert low[p + 1 + i] == t[i]; }
    assert Revs(tail) == d + c;
    assert LowerAll(input[..p]) == h by {
      forall i | 0 <= i < p ensures Lower(input[i]) == h[i] { assert low[i] == h[i]; }
    }
    LowerAllIs(input[..p]);
    Closes(h, d, c, e);
  }

  /** An input that parses is accepted, with what was found. */
  lemma ParsedIsAccepted(input: string, p: nat, e: Encoding)
    requires Parses(input, p, e)
    ensures var h, v := LowerAll(input[..p]), Revs(input[p + 1..]);
            Accepts(input, h, v[..|v| - 6], e)
  {
    hide Char, RevLower, State, Checksum, Constant, Lower, Upper, HrpChar;
    var h, tail := LowerAll(input[..p]), input[p + 1..];
    var v := Revs(tail);
    var d, c := v[..|v| - 6], v[|v| - 6..];
    assert v == d + c;
    Closes(h, d, c, e);
    LowerAllIs(input[..p]);
    var low := LowerAll(input);
    LowerOne(input[p]);
    forall i | 0 <= i < |v| ensures Char(v[i]) == low[p + 1 + i] { CharRev(Lower(tail[i])); }
    assert low == h + ['1'] + Chars(v);
  }

  lemma SeparatorUnique(input: string, p: nat, q: nat)
    requires Separator(input, p) && Separator(input, q)
    ensures p == q
  {}

  /** The decoding of an input is unique. */
  lemma AcceptsUnique(input: string, h: string, d: seq<nat>, e: Encoding, h': string, d': seq<nat>, e': Encoding)
    requires Accepts(input, h, d, e) && Accepts(input, h', d', e')
    ensures h == h' && d == d' && e == e'
  {
    hide Accepts, State, Hrp, DataChars, Constant, LowerAll, Revs;
    AcceptedParses(input, h, d, e);
    AcceptedParses(input, h', d', e');
    SeparatorUnique(input, |h|, |h'|);
    Constants();
    assert e == Plain || e == Modified;
    assert e' == Plain || e' == Modified;
  }

  /** The checksum over the data part; false at a character outside the charset. */
  method FeedData(chk0: Word, low: string, tail: string) returns (ok: bool, chk: Word, v: seq<nat>)
    requires Hrp(low) && chk0 == State(low, [])
    ensures ok <==> DataChars(tail)
    ensures ok ==> v == Revs(tail) && chk == State(low, v)
  {
    hide Sym, Polymod.Step, Xor, State, Rev;
    chk, v := chk0, [];
    for i := 0 to |tail|
      invariant DataChars(tail[..i]) && v == Revs(tail[..i]) && chk == State(low, v)
    {
      var d := Rev(tail[i]);
      if d == -1 { return false, chk, v; }
      var w := v + [d];
      StatePush(low, w, i);
      assert w[..i] == v && w[..i + 1] == w;
      chk := Xor(Polymod.Step(chk), Sym(d));
      v := w;
      assert tail[..i + 1] == tail[..i] + [tail[i]];
    }
    assert tail[..|tail|] == tail;
    ok := true;
  }

  /** The case flags that the decoder collects. */
  method OneCase(input: string) returns (ok: bool)
    ensures ok <==> NoUpper(input) || NoLower(input)
  {
    var haveLower, haveUpper := false, false;
    for i := 0 to |input|
      invariant haveLower == !NoLower(input[..i]) && haveUpper == !NoUpper(input[..i])
    {
      assert input[..i + 1] == input[..i] + [input[i]];
      assert LowerCase(input[i]) ==> LowerCase(input[..i + 1][i]);
      assert Upper(input[i]) ==> Upper(input[..i + 1][i]);
      if LowerCase(input[i]) { haveLower := true; }
      if Upper(input[i]) { haveUpper := true; }
      CaseStep(input, i);
    }
    assert input[..|input|] == input;
    ok := !(haveLower && haveUpper);
  }

  lemma CaseStep(s: string, i: nat)
    requires i < |s|
    ensures NoLower(s[..i + 1]) <==> NoLower(s[..i]) && !LowerCase(s[i])
    ensures NoUpper(s[..i + 1]) <==> NoUpper(s[..i]) && !Upper(s[i])
  {
    assert s[..i + 1] == s[..i] + [s[i]];
    assert forall j :: 0 <= j < i ==> s[..i + 1][j] == s[..i][j];
    assert s[..i + 1][i] == s[i];
  }

  /** The search for the last separator, and the length checks. */
  method FindSeparator(input: string) returns (ok: bool, p: nat)
    ensures ok ==> Separator(input, p) && 1 <= p <= MAX_HRP && |input| - 1 - p >= 6
    ensures !ok ==> forall h, d, e :: !Accepts(input, h, d, e)
  {
    hide Accepts;
    var n := |input|;
    if n < 8 { TooShort(input); return false, 0; }
    var dataLen := 0;
    while dataLen < n && input[n - 1 - dataLen] != '1'
      invariant dataLen <= n && forall i :: n - dataLen <= i < n ==> input[i] != '1'
    {
      dataLen := dataLen + 1;
    }
    if 1 + dataLen >= n || dataLen < 6 || n - (1 + dataLen) > MAX_HRP { BadLayout(input, dataLen); return false, 0; }
    return true, n - (1 + dataLen);
  }

  /** bech32_decode finds the only decoding, if there is one. */
  method Decode(input: string) returns (enc: Option<Encoding>, hrp: string, data: seq<nat>)
    ensures enc.Some? ==> Accepts(input, hrp, data, enc.value)
    ensures enc.None? ==> forall h, d, e :: !Accepts(input, h, d, e)
  {
    hide Accepts, State, Constant, Parses, LowerAll, Revs, Separator, Highs, Polymod.Feed, Hrp, DataChars, NoUpper, NoLower;
    enc, hrp, data := None, [], [];
    var ok, p := FindSeparator(input);
    if !ok { return; }
    SeparatorIn(input, p);
    var chk, low := Word(0), [];
    ok, chk, low := FeedHrp(input[..p], false);
    if !ok { BadPart(input, p); return; }
    chk := FeedLows(chk, input[..p], low);
    var v: seq<nat>;
    ok, chk, v := FeedData(chk, low, input[p + 1..]);
    if !ok { BadPart(input, p); return; }
    ok := OneCase(input);
    if !ok { MixedCase(input); return; }
    if chk == Constant(Plain) {
      ParsesIs(input, p, Plain);
      ParsedIsAccepted(input, p, Plain);
      return Some(Plain), low, v[..|v| - 6];
    } else if chk == Constant(Modified) {
      ParsesIs(input, p, Modified);
      ParsedIsAccepted(input, p, Modified);
      return Some(Modified), low, v[..|v| - 6];
    }
    BadChecksum(input, p);
  }

  lemma SeparatorIn(input: string, p: nat)
    requires Separator(input, p)
    ensures p < |input|
  {}

  lemma ParsesIs(input: string, p: nat, e: Encoding)
    requires Separator(input, p) && 1 <= p <= MAX_HRP && |input| - 1 - p >= 6
    requires Hrp(input[..p]) && Hrp(LowerAll(input[..p])) && DataChars(input[p + 1..]) && (NoUpper(input) || NoLower(input))
    requires State(LowerAll(input[..p]), Revs(input[p + 1..])) == Constant(e)
    ensures Parses(input, p, e)
  {}

  lemma TooShort(input: string)
    requires |input| < 8
    ensures forall h, d, e :: !Accepts(input, h, d, e)
  {
    hide State, Checksum, Constant, Char;
  }

  lemma BadLayout(input: string, dataLen: nat)
    requires dataLen <= |input| && (forall i :: |input| - dataLen <= i < |input| ==> input[i] != '1')
    requires dataLen < |input| ==> input[|input| - 1 - dataLen] == '1'
    requires 1 + dataLen >= |input| || dataLen < 6 || |input| - (1 + dataLen) > MAX_HRP
    ensures forall h, d, e :: !Accepts(input, h, d, e)
  {
    hide Accepts, State, Constant, LowerAll, Revs, Hrp, DataChars;
    OnlySeparator(input, dataLen);
    hide Separator;
    forall h, d, e ensures !Accepts(input, h, d, e) {
      if Accepts(input, h, d, e) { AcceptedParses(input, h, d, e); }
    }
  }

  lemma OnlySeparator(input: string, dataLen: nat)
    requires dataLen <= |input| && (forall i :: |input| - dataLen <= i < |input| ==> input[i] != '1')
    requires dataLen < |input| ==> input[|input| - 1 - dataLen] == '1'
    ensures forall p: nat :: Separator(input, p) ==> p + 1 + dataLen == |input|
  {}

  lemma BadPart(input: string, p: nat)
    requires Separator(input, p) && (!Hrp(input[..p]) || !DataChars(input[p + 1..]))
    ensures forall h, d, e :: !Accepts(input, h, d, e)
  {
    hide Accepts, State, Constant, LowerAll, Revs, Hrp, DataChars;
    forall h, d, e ensures !Accepts(input, h, d, e) {
      if Accepts(input, h, d, e) {
        AcceptedParses(input, h, d, e);
        SeparatorUnique(input, |h|, p);
      }
    }
  }

  lemma MixedCase(input: string)
    requires !NoUpper(input) && !NoLower(input)
    ensures forall h, d, e :: !Accepts(input, h, d, e)
  {
    hide State, Checksum, Constant, Char, Encoded, NoUpper, NoLower;
  }

  lemma BadChecksum(input: string, p: nat)
    requires Separator(input, p) && Hrp(input[..p]) && Hrp(LowerAll(input[..p])) && DataChars(input[p + 1..])
    requires State(LowerAll(input[..p]), Revs(input[p + 1..])) != Constant(Plain)
    requires State(LowerAll(input[..p]), Revs(input[p + 1..])) != Constant(Modified)
    ensures forall h, d, e :: !Accepts(input, h, d, e)
  {
    hide Accepts, State, Constant, LowerAll, Revs, Hrp, DataChars;
    forall h, d, e ensures !Accepts(input, h, d, e) {
      if Accepts(input, h, d, e) {
        AcceptedParses(input, h, d, e);
        SeparatorUnique(input, |h|, p);
        match e case Plain => case Modified =>
      }
    }
  }
}
