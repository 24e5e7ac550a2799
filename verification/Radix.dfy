/** Numbers as sequences of digits, most significant first, in any base. */
module Radix {
  function Pow(b: nat, n: nat): (p: nat)
    requires b > 0
    ensures p > 0
  {
    if n == 0 then 1 else Times(b, Pow(b, n - 1))
  }

  function Times(a: nat, b: nat): (p: nat)
    ensures a > 0 && b > 0 ==> p > 0
  {
    a * b
  }

  predicate Digits(s: seq<nat>, b: nat) {
    forall i :: 0 <= i < |s| ==> s[i] < b
  }

  function Value(s: seq<nat>, b: nat): nat {
    if s == [] then 0 else Value(s[..|s| - 1], b) * b + s[|s| - 1]
  }

  lemma {:induction false} PowAdd(b: nat, m: nat, n: nat)
    requires b > 0
    ensures Pow(b, m + n) == Pow(b, m) * Pow(b, n)
  {
    if m > 0 {
      PowAdd(b, m - 1, n);
      assert b * (Pow(b, m - 1) * Pow(b, n)) == (b * Pow(b, m - 1)) * Pow(b, n);
    }
  }

  lemma {:induction false} PowMonotone(b: nat, m: nat, n: nat)
    requires b > 0 && m <= n
    ensures Pow(b, m) <= Pow(b, n)
  {
    if m < n {
      PowMonotone(b, m, n - 1);
      assert Pow(b, n - 1) <= b * Pow(b, n - 1);
    }
  }

  lemma Regroup(x: nat, b: nat, p: nat, y: nat, d: nat)
    ensures (x * p + y) * b + d == x * (b * p) + (y * b + d)
  {
    assert (x * p) * b == x * (b * p);
  }

  lemma {:induction false} ValueConcat(s: seq<nat>, t: seq<nat>, b: nat)
    requires b > 0
    ensures Value(s + t, b) == Value(s, b) * Pow(b, |t|) + Value(t, b)
  {
    if t == [] {
      assert s + t == s;
    } else {
      var u := t[..|t| - 1];
      assert (s + t)[..|s + t| - 1] == s + u;
      ValueConcat(s, u, b);
      Regroup(Value(s, b), b, Pow(b, |u|), Value(u, b), t[|t| - 1]);
    }
  }

  lemma {:induction false} ValueBound(s: seq<nat>, b: nat)
    requires b > 0 && Digits(s, b)
    ensures Value(s, b) < Pow(b, |s|)
  {
    if s != [] {
      var u := s[..|s| - 1];
      ValueBound(u, b);
      BoundStep(Value(u, b), Pow(b, |u|), b, s[|s| - 1]);
    }
  }

  lemma BoundStep(v: nat, p: nat, b: nat, d: nat)
    requires v < p && d < b
    ensures v * b + d < b * p
  {
    assert (v + 1) * b <= p * b;
  }

  lemma {:induction false} ValueZeros(s: seq<nat>, b: nat)
    requires forall i :: 0 <= i < |s| ==> s[i] == 0
    ensures Value(s, b) == 0
  {
    if s != [] { ValueZeros(s[..|s| - 1], b); }
  }

  lemma Gap(x: nat, y: nat, b: nat)
    requires x < y
    ensures x * b + b <= y * b
  {
    assert (x + 1) * b <= y * b;
  }

  lemma SplitUnique(x: nat, y: nat, b: nat, d: nat, e: nat)
    requires d < b && e < b && x * b + d == y * b + e
    ensures x == y && d == e
  {
    if x < y { Gap(x, y, b); } else if y < x { Gap(y, x, b); }
  }

  /** Sequences of the same length with the same value are the same. */
  lemma {:induction false} ValueInjective(s: seq<nat>, t: seq<nat>, b: nat)
    requires b > 0 && Digits(s, b) && Digits(t, b) && |s| == |t| && Value(s, b) == Value(t, b)
    ensures s == t
  {
    if s != [] {
      var u, v := s[..|s| - 1], t[..|t| - 1];
      SplitUnique(Value(u, b), Value(v, b), b, s[|s| - 1], t[|t| - 1]);
      ValueInjective(u, v, b);
      assert s == u + [s[|s| - 1]] && t == v + [t[|t| - 1]];
    }
  }

  // ----- The shortest form of a number

  /** The digits of n without leading zeros (none at all for 0). */
  function Shortest(n: nat, b: nat): (s: seq<nat>)
    requires b > 1
    ensures Digits(s, b) && (s != [] ==> s[0] != 0)
  {
    if n == 0 then [] else
      DivSmaller(n, b);
      Shortest(n / b, b) + [n % b]
  }

  lemma DivSmaller(n: nat, b: nat)
    requires n > 0 && b > 1
    ensures n / b < n && n == (n / b) * b + n % b && n % b < b
  {
    DivMod(n, b);
    QuotientSmaller(n, n / b, n % b, b);
  }

  lemma DivMod(n: nat, b: nat)
    requires b > 0
    ensures n / b >= 0 && n == (n / b) * b + n % b && 0 <= n % b < b
  {}

  lemma QuotientSmaller(n: nat, q: nat, r: nat, b: nat)
    requires n > 0 && b > 1 && n == q * b + r
    ensures q < n
  {
    if q > 0 { assert q * b >= q * 2; }
  }

  lemma {:induction false} ValueShortest(n: nat, b: nat)
    requires b > 1
    ensures Value(Shortest(n, b), b) == n
  {
    if n > 0 {
      DivSmaller(n, b);
      ValueShortest(n / b, b);
      var s := Shortest(n, b);
      assert s[..|s| - 1] == Shortest(n / b, b);
    }
  }

  lemma DivModOf(q: nat, b: nat, r: nat)
    requires r < b
    ensures (q * b + r) / b == q && (q * b + r) % b == r
  {
    var n := q * b + r;
    DivMod(n, b);
    SplitUnique(q, n / b, b, r, n % b);
  }

  /** A sequence of digits without leading zeros is the shortest form of its value. */
  lemma {:induction false} ShortestValue(s: seq<nat>, b: nat)
    requires b > 1 && Digits(s, b) && (s != [] ==> s[0] != 0)
    ensures Shortest(Value(s, b), b) == s
  {
    if s != [] {
      var u, d := s[..|s| - 1], s[|s| - 1];
      ShortestValue(u, b);
      ValuePositive(s, b);
      ShortestStep(Value(u, b), d, b);
      assert s == u + [d];
    }
  }

  lemma ShortestStep(q: nat, d: nat, b: nat)
    requires b > 1 && d < b && q * b + d > 0
    ensures Shortest(q * b + d, b) == Shortest(q, b) + [d]
  {
    DivModOf(q, b, d);
  }

  lemma {:induction false} ValuePositive(s: seq<nat>, b: nat)
    requires b > 0 && s != [] && s[0] != 0
    ensures Value(s, b) > 0
  {
    if |s| > 1 {
      ValuePositive(s[..|s| - 1], b);
      assert Value(s[..|s| - 1], b) * b > 0;
    }
  }

  // ----- Leading zeros

  function LeadingZeros(s: seq<nat>): (z: nat)
    ensures z <= |s| && (forall i :: 0 <= i < z ==> s[i] == 0) && (z < |s| ==> s[z] != 0)
  {
    if s == [] || s[0] != 0 then 0 else 1 + LeadingZeros(s[1..])
  }

  function Zeros(n: nat): (s: seq<nat>)
    ensures |s| == n && forall i :: 0 <= i < n ==> s[i] == 0
  {
    seq(n, i => 0)
  }

  /** What is left after the leading zeros is the shortest form of the value. */
  lemma StrippedIsShortest(s: seq<nat>, b: nat)
    requires b > 1 && Digits(s, b)
    ensures s[LeadingZeros(s)..] == Shortest(Value(s, b), b)
  {
    hide Value, Shortest, LeadingZeros;
    var z := LeadingZeros(s);
    var t := s[z..];
    assert s == s[..z] + t;
    ValueConcat(s[..z], t, b);
    ValueZeros(s[..z], b);
    ShortestValue(t, b);
  }

  // ----- Multiplying a number in place by m and adding to it, from the last digit up

  lemma AtLeast(a: nat, p: nat)
    ensures a > 0 ==> a * p >= p
    ensures a == 0 ==> a * p == 0
  {}

  lemma FirstDigit(s: seq<nat>, b: nat)
    requires b > 0 && s != []
    ensures Value(s, b) >= s[0] * Pow(b, |s| - 1)
    ensures Value(s, b) < Pow(b, |s| - 1) ==> s[0] == 0
  {
    hide Pow;
    var t := s[1..];
    assert s == [s[0]] + t;
    ValueConcat([s[0]], t, b);
    assert Value([s[0]], b) == s[0];
    AtLeast(s[0], Pow(b, |t|));
  }

  lemma CarryStep(b: nat, m: nat, v: nat, x: nat, carry: nat, p: nat, w: nat, d: nat, c: nat)
    requires carry + m * x == b * c + d
    ensures ((v * b + x) * m + carry) * p + w == (v * m + c) * (b * p) + (d * p + w)
  {
    var y := v * m + c;
    assert (v * b + x) * m + carry == b * y + d by {
      assert (v * b + x) * m == (v * b) * m + x * m;
      assert (v * b) * m == b * (v * m);
      assert b * y == b * (v * m) + b * c;
    }
    assert (b * y + d) * p == (b * y) * p + d * p;
    assert (b * y) * p == y * (b * p);
  }

  /** What the carry loop keeps: s is the number before, r the digits already rewritten. */
  ghost predicate Carrying(b: nat, m: nat, s: seq<nat>, k: nat, carry: nat, r: seq<nat>, total: nat)
    requires b > 0 && k <= |s|
  {
    |r| == |s| - k && Digits(r, b) && (Value(s[..k], b) * m + carry) * Pow(b, |r|) + Value(r, b) == total
  }

  lemma CarryStart(b: nat, m: nat, s: seq<nat>, carry: nat)
    requires b > 0
    ensures Carrying(b, m, s, |s|, carry, [], Value(s, b) * m + carry)
  {
    assert s[..|s|] == s;
  }

  lemma CarryDigit(b: nat, m: nat, s: seq<nat>, j: nat, carry: nat, r: seq<nat>, total: nat, c: nat, d: nat)
    requires b > 0 && j < |s| && Carrying(b, m, s, j + 1, carry, r, total)
    requires carry + m * s[j] == b * c + d && d < b
    ensures Carrying(b, m, s, j, c, [d] + r, total)
  {
    var v, p := Value(s[..j], b), Pow(b, |r|);
    assert s[..j + 1][..j] == s[..j];
    assert Value([d], b) == d;
    assert Pow(b, |r| + 1) == b * p;
    hide Value, Pow;
    ValueConcat([d], r, b);
    CarryStep(b, m, v, s[j], carry, p, Value(r, b), d, c);
  }

  /** All digits rewritten: what is carried out is what does not fit. */
  lemma CarryFull(b: nat, m: nat, s: seq<nat>, carry: nat, r: seq<nat>, total: nat)
    requires b > 0 && Carrying(b, m, s, 0, carry, r, total)
    ensures Digits(r, b) && |r| == |s|
    ensures carry == 0 <==> total < Pow(b, |s|)
    ensures carry == 0 ==> Value(r, b) == total
  {
    assert s[..0] == [] && Value([], b) == 0;
    hide Value, Pow;
    AtLeast(carry, Pow(b, |r|));
    ValueBound(r, b);
  }

  /** The rest of the number is zero and nothing is carried: the rewritten digits are the number. */
  lemma CarryDone(b: nat, m: nat, s: seq<nat>, k: nat, r: seq<nat>, total: nat, t: seq<nat>)
    requires b > 0 && k <= |s| && Carrying(b, m, s, k, 0, r, total) && t == s[..k] + r
    requires forall i :: 0 <= i < k ==> s[i] == 0
    ensures Value(t, b) == total && Digits(t, b)
  {
    hide Pow;
    ValueZeros(s[..k], b);
    ValueConcat(s[..k], r, b);
  }
}
