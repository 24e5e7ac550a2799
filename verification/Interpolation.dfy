/**
  * Lagrange interpolation over a field of characteristic two: the sum that
  * shamir_interpolate accumulates is the value, at the requested point, of every polynomial
  * of degree below the share count through the shares.
  */
module Interpolation {
  import opened Fields

  /** The polynomial with coefficients c, lowest first, at t. */
  ghost function Eval<T(!new)>(F: Field<T>, c: seq<T>, t: T): T {
    if c == [] then F.zero else F.add(c[0], F.mul(t, Eval(F, c[1..], t)))
  }

  ghost predicate Distinct<T(!new)>(z: seq<T>) {
    forall i, j :: 0 <= i < j < |z| ==> z[i] != z[j]
  }

  // ----- Division by t + z

  /** The quotient of c by t + z. */
  ghost function Quotient<T(!new)>(F: Field<T>, c: seq<T>, z: T): (q: seq<T>)
    ensures |q| == if c == [] then 0 else |c| - 1
  {
    if |c| <= 1 then [] else [Eval(F, c[1..], z)] + Quotient(F, c[1..], z)
  }

  lemma DivideStep<T(!new)>(F: Field<T>, c0: T, t: T, z: T, g: T, gz: T, q: T)
    requires IsField(F)
    requires g == F.add(gz, F.mul(F.add(t, z), q))
    ensures F.add(c0, F.mul(t, g)) == F.add(F.add(c0, F.mul(z, gz)), F.mul(F.add(t, z), F.add(gz, F.mul(t, q))))
  {
    hide IsField;
    var d := F.add(t, z);
    var m := F.mul(d, F.mul(t, q));
    // t (d q) == d (t q)
    MulAssoc(F, t, d, q); MulComm(F, t, d); MulAssoc(F, d, t, q);
    MulAddRight(F, t, gz, F.mul(d, q));
    MulAddRight(F, d, gz, F.mul(t, q));
    MulAddLeft(F, t, z, gz);
    var u, v := F.mul(t, gz), F.mul(z, gz);
    assert F.mul(t, g) == F.add(u, m);
    assert F.mul(d, F.add(gz, F.mul(t, q))) == F.add(F.add(u, v), m);
    Rearrange(F, c0, u, v, m);
  }

  lemma Rearrange<T(!new)>(F: Field<T>, c: T, u: T, v: T, m: T)
    requires IsField(F)
    ensures F.add(c, F.add(u, m)) == F.add(F.add(c, v), F.add(F.add(u, v), m))
  {
    hide IsField;
    AddComm(F, u, v);
    AddAssoc(F, v, u, m);
    AddAssoc(F, F.add(c, v), v, F.add(u, m));
    AddAssoc(F, c, v, v);
    AddZero(F, v);
    AddZero(F, c);
  }

  /** f(t) = f(z) + (t + z) q(t). */
  lemma {:induction false} DivideByRoot<T(!new)>(F: Field<T>, c: seq<T>, z: T, t: T)
    requires IsField(F)
    ensures Eval(F, c, t) == F.add(Eval(F, c, z), F.mul(F.add(t, z), Eval(F, Quotient(F, c, z), t)))
  {
    hide IsField;
    MulZero(F, F.add(t, z));
    MulZero(F, t);
    MulZero(F, z);
    if c == [] {
      AddZero(F, F.zero);
    } else if |c| == 1 {
      assert c[1..] == [];
      AddZero(F, c[0]);
    } else {
      var r := c[1..];
      DivideByRoot(F, r, z, t);
      var q := Quotient(F, r, z);
      assert Quotient(F, c, z)[1..] == q;
      DivideStep(F, c[0], t, z, Eval(F, r, t), Eval(F, r, z), Eval(F, q, t));
    }
  }

  // ----- Divided differences

  /** The product of z[i] + z[j] over j below k other than i. */
  ghost function Weight<T(!new)>(F: Field<T>, z: seq<T>, i: nat, k: nat): T
    requires i < |z| && k <= |z|
  {
    if k == 0 then F.one
    else if k - 1 == i then Weight(F, z, i, k - 1)
    else F.mul(Weight(F, z, i, k - 1), F.add(z[i], z[k - 1]))
  }

  /** The sum of v[i] / Weight(F, z, i) over i below k. */
  ghost function Differences<T(!new)>(F: Field<T>, z: seq<T>, v: seq<T>, k: nat): T
    requires k <= |z| && |v| == |z|
  {
    if k == 0 then F.zero
    else F.add(Differences(F, z, v, k - 1), F.mul(v[k - 1], F.inv(Weight(F, z, k - 1, |z|))))
  }

  lemma {:induction false} WeightZero<T(!new)>(F: Field<T>, z: seq<T>, i: nat, k: nat)
    requires IsField(F)
    requires i < |z| && k <= |z|
    ensures Weight(F, z, i, k) == F.zero <==> exists j :: 0 <= j < k && j != i && z[i] == z[j]
  {
    hide IsField;
    OneIsNotZero(F);
    if k > 0 {
      WeightZero(F, z, i, k - 1);
      if k - 1 != i {
        AddIsZero(F, z[i], z[k - 1]);
        NoZeroDivisors(F, Weight(F, z, i, k - 1), F.add(z[i], z[k - 1]));
      }
    }
  }

  lemma {:induction false} WeightPrefix<T(!new)>(F: Field<T>, z: seq<T>, i: nat, k: nat)
    requires IsField(F)
    requires i < |z| - 1 && k <= |z| - 1
    ensures Weight(F, z[..|z| - 1], i, k) == Weight(F, z, i, k)
  {
    hide IsField;
    if k > 0 { WeightPrefix(F, z, i, k - 1); }
  }

  lemma {:induction false} WeightSuffix<T(!new)>(F: Field<T>, z: seq<T>, i: nat, k: nat)
    requires IsField(F)
    requires 0 < i < |z| && 0 < k <= |z|
    ensures Weight(F, z, i, k) == F.mul(Weight(F, z[1..], i - 1, k - 1), F.add(z[i], z[0]))
  {
    hide IsField;
    var s := z[1..];
    if k == 1 {
      assert Weight(F, z, i, 0) == F.one;
    } else {
      WeightSuffix(F, z, i, k - 1);
      if k - 1 != i {
        var w, a, b := Weight(F, s, i - 1, k - 2), F.add(z[i], z[0]), F.add(z[i], z[k - 1]);
        MulAssoc(F, w, a, b); MulComm(F, a, b); MulAssoc(F, w, b, a);
        assert s[i - 1] == z[i] && s[k - 2] == z[k - 1];
      }
    }
  }

  lemma DifferencesTerm<T(!new)>(F: Field<T>, d: T, u: T, w: T)
    requires IsField(F)
    requires d != F.zero && w != F.zero
    ensures F.mul(F.mul(d, u), F.inv(F.mul(w, d))) == F.mul(u, F.inv(w))
  {
    hide IsField;
    InvMul(F, w, d);
    MulComm(F, d, u);
    var e, x := F.inv(d), F.inv(w);
    MulAssoc(F, u, d, F.mul(x, e));
    MulComm(F, x, e);
    MulAssoc(F, d, e, x);
    MulInv(F, d);
    MulOne(F, x);
  }

  lemma {:induction false} RemoveLast<T(!new)>(F: Field<T>, z: seq<T>, u: seq<T>, v: seq<T>, k: nat)
    requires IsField(F)
    requires |z| > 0 && Distinct(z) && |v| == |z| && |u| == |z| - 1 && k <= |z| - 1
    requires forall i :: 0 <= i < |z| - 1 ==> v[i] == F.mul(F.add(z[i], z[|z| - 1]), u[i])
    ensures Differences(F, z, v, k) == Differences(F, z[..|z| - 1], u, k)
  {
    hide IsField;
    if k > 0 {
      RemoveLast(F, z, u, v, k - 1);
      var n, i := |z| - 1, k - 1;
      var w, d := Weight(F, z, i, n), F.add(z[i], z[n]);
      assert Weight(F, z, i, |z|) == F.mul(w, d);
      WeightPrefix(F, z, i, n);
      WeightZero(F, z, i, n);
      hide Weight;
      AddIsZero(F, z[i], z[n]);
      DifferencesTerm(F, d, u[i], w);
      assert v[i] == F.mul(d, u[i]);
    }
  }

  lemma {:induction false} RemoveFirst<T(!new)>(F: Field<T>, z: seq<T>, u: seq<T>, v: seq<T>, k: nat)
    requires IsField(F)
    requires |z| > 0 && Distinct(z) && |v| == |z| && |u| == |z| - 1 && k <= |z| - 1
    requires v[0] == F.zero
    requires forall i :: 0 <= i < |z| - 1 ==> v[i + 1] == F.mul(F.add(z[i + 1], z[0]), u[i])
    ensures Differences(F, z, v, k + 1) == Differences(F, z[1..], u, k)
  {
    hide IsField;
    var s := z[1..];
    if k == 0 {
      MulZero(F, F.inv(Weight(F, z, 0, |z|)));
      AddZero(F, F.zero);
      assert Differences(F, z, v, 0) == F.zero;
    } else {
      RemoveFirst(F, z, u, v, k - 1);
      var w := Weight(F, s, k - 1, |s|);
      WeightSuffix(F, z, k, |z|);
      WeightZero(F, s, k - 1, |s|);
      AddIsZero(F, z[k], z[0]);
      assert v[k - 1 + 1] == F.mul(F.add(z[k - 1 + 1], z[0]), u[k - 1]);
      DifferencesTerm(F, F.add(z[k], z[0]), u[k - 1], w);
    }
  }

  lemma {:induction false} DifferencesSum<T(!new)>(F: Field<T>, z: seq<T>, v: seq<T>, a: seq<T>, b: seq<T>, k: nat)
    requires IsField(F)
    requires k <= |z| && |v| == |z| && |a| == |z| && |b| == |z|
    requires forall i :: 0 <= i < |z| ==> v[i] == F.add(a[i], b[i])
    ensures Differences(F, z, v, k) == F.add(Differences(F, z, a, k), Differences(F, z, b, k))
  {
    hide IsField, Weight;
    AddZero(F, F.zero);
    if k > 0 {
      DifferencesSum(F, z, v, a, b, k - 1);
      var w := F.inv(Weight(F, z, k - 1, |z|));
      MulAddLeft(F, a[k - 1], b[k - 1], w);
      AddSwap(F, Differences(F, z, a, k - 1), Differences(F, z, b, k - 1), F.mul(a[k - 1], w), F.mul(b[k - 1], w));
    }
  }

  /** The last term vanishes when its value does. */
  lemma LastTerm<T(!new)>(F: Field<T>, z: seq<T>, v: seq<T>)
    requires IsField(F)
    requires |z| > 0 && |v| == |z| && v[|z| - 1] == F.zero
    ensures Differences(F, z, v, |z|) == Differences(F, z, v, |z| - 1)
  {
    hide IsField, Weight;
    MulZero(F, F.inv(Weight(F, z, |z| - 1, |z|)));
    AddZero(F, Differences(F, z, v, |z| - 1));
  }

  ghost function Constant<T(!new)>(n: nat, c: T): (s: seq<T>)
    ensures |s| == n && forall i :: 0 <= i < n ==> s[i] == c
  {
    seq(n, i => c)
  }

  lemma SplitConstant<T(!new)>(F: Field<T>, c: T, t: T, a: T, b: T)
    requires IsField(F)
    requires a != b
    ensures var e := F.mul(c, F.inv(F.add(a, b)));
            c == F.add(F.mul(F.add(t, b), e), F.mul(F.add(t, a), e))
  {
    hide IsField;
    var d := F.add(a, b);
    var e := F.mul(c, F.inv(d));
    AddSwap(F, t, b, t, a);
    AddZero(F, t);
    AddComm(F, b, a);
    AddZero(F, d);
    AddIsZero(F, a, b);
    MulAddLeft(F, F.add(t, b), F.add(t, a), e);
    MulComm(F, d, e);
    MulAssoc(F, c, F.inv(d), d);
    MulComm(F, F.inv(d), d);
    MulInv(F, d);
    MulOne(F, c);
  }

  /** The differences of a constant: zero on two points or more, the constant itself on one. */
  lemma {:induction false} DifferencesConstant<T(!new)>(F: Field<T>, z: seq<T>, c: T)
    requires IsField(F)
    requires |z| > 0 && Distinct(z)
    ensures Differences(F, z, Constant(|z|, c), |z|) == if |z| == 1 then c else F.zero
  {
    hide IsField;
    var n, v := |z|, Constant(|z|, c);
    if n == 1 {
      DifferencesOne(F, z, v);
    } else {
      var p, s := z[..n - 1], z[1..];
      var e := F.mul(c, F.inv(F.add(z[0], z[n - 1])));
      var a := seq(n, i requires 0 <= i < n => F.mul(F.add(z[i], z[n - 1]), e));
      var b := seq(n, i requires 0 <= i < n => F.mul(F.add(z[i], z[0]), e));
      forall i | 0 <= i < n ensures v[i] == F.add(a[i], b[i]) {
        SplitConstant(F, c, z[i], z[0], z[n - 1]);
      }
      DifferencesSum(F, z, v, a, b, n);
      EndsVanish(F, z, e);
      LastTerm(F, z, a);
      var u := Constant(n - 1, e);
      RemoveLast(F, z, u, a, n - 1);
      RemoveFirst(F, z, u, b, n - 1);
      DifferencesConstant(F, p, e);
      DifferencesConstant(F, s, e);
      AddZero(F, e);
      AddZero(F, F.zero);
    }
  }

  lemma EndsVanish<T(!new)>(F: Field<T>, z: seq<T>, e: T)
    requires IsField(F)
    requires |z| > 0
    ensures F.mul(F.add(z[0], z[0]), e) == F.zero
    ensures F.mul(F.add(z[|z| - 1], z[|z| - 1]), e) == F.zero
  {
    hide IsField;
    AddZero(F, z[0]);
    AddZero(F, z[|z| - 1]);
    MulZero(F, e);
  }

  lemma DifferencesOne<T(!new)>(F: Field<T>, z: seq<T>, v: seq<T>)
    requires IsField(F)
    requires |z| == 1 && |v| == 1
    ensures Differences(F, z, v, 1) == v[0]
  {
    hide IsField;
    assert Weight(F, z, 0, 1) == Weight(F, z, 0, 0) == F.one;
    assert Differences(F, z, v, 0) == F.zero;
    MulInv(F, F.one);
    OneIsNotZero(F);
    MulOne(F, F.inv(F.one));
    MulOne(F, v[0]);
    AddZero(F, v[0]);
  }

  /** The divided difference of a polynomial of degree below |z| - 1 is zero. */
  lemma {:induction false} DifferencesVanish<T(!new)>(F: Field<T>, z: seq<T>, c: seq<T>, v: seq<T>)
    requires IsField(F)
    requires Distinct(z) && |c| < |z| && |v| == |z|
    requires forall i :: 0 <= i < |z| ==> v[i] == Eval(F, c, z[i])
    ensures Differences(F, z, v, |z|) == F.zero
  {
    hide IsField;
    var n := |z|;
    if c == [] {
      assert v == Constant(n, F.zero);
      DifferencesConstant(F, z, F.zero);
    } else {
      var l := z[n - 1];
      var q, k := Quotient(F, c, l), Constant(n, Eval(F, c, l));
      var u := seq(n - 1, i requires 0 <= i < n - 1 => Eval(F, q, z[i]));
      var m := seq(n, i requires 0 <= i < n => F.mul(F.add(z[i], l), Eval(F, q, z[i])));
      forall i | 0 <= i < n ensures v[i] == F.add(k[i], m[i]) {
        DivideByRoot(F, c, l, z[i]);
      }
      hide IsField, Eval;
      DifferencesSum(F, z, v, k, m, n);
      DifferencesConstant(F, z, Eval(F, c, l));
      EndsVanish(F, z, Eval(F, q, l));
      LastTerm(F, z, m);
      RemoveLast(F, z, u, m, n - 1);
      DifferencesVanish(F, z[..n - 1], q, u);
      AddZero(F, F.zero);
    }
  }

  // ----- The sum that shamir_interpolate computes

  /** The product of x + xs[j] over j below k. */
  ghost function Numerator<T(!new)>(F: Field<T>, x: T, xs: seq<T>, k: nat): T
    requires k <= |xs|
  {
    if k == 0 then F.one else F.mul(Numerator(F, x, xs, k - 1), F.add(x, xs[k - 1]))
  }

  /** x + xs[i] (or 1 when that is zero) times the product of xs[i] + xs[j] over j below k other than i. */
  ghost function Denominator<T(!new)>(F: Field<T>, x: T, xs: seq<T>, i: nat, k: nat): T
    requires i < |xs| && k <= |xs|
  {
    if k == 0 then (if xs[i] != x then F.add(x, xs[i]) else F.one)
    else if k - 1 == i then Denominator(F, x, xs, i, k - 1)
    else F.mul(Denominator(F, x, xs, i, k - 1), F.add(xs[i], xs[k - 1]))
  }

  /** The scaled basis polynomial of share i at x. */
  ghost function Term<T(!new)>(F: Field<T>, x: T, xs: seq<T>, i: nat, y: T): T
    requires i < |xs|
  {
    F.mul(F.mul(F.inv(Denominator(F, x, xs, i, |xs|)), Numerator(F, x, xs, |xs|)), y)
  }

  /** What the first k shares contribute; a share at x itself also adds its own value. */
  ghost function Secret<T(!new)>(F: Field<T>, x: T, xs: seq<T>, ys: seq<T>, k: nat): T
    requires k <= |xs| == |ys|
  {
    if k == 0 then F.zero
    else
      var s := Secret(F, x, xs, ys, k - 1);
      F.add(if xs[k - 1] == x then F.add(s, ys[k - 1]) else s, Term(F, x, xs, k - 1, ys[k - 1]))
  }

  /** A denominator vanishes exactly when its share index occurs twice. */
  lemma {:induction false} DenominatorZero<T(!new)>(F: Field<T>, x: T, xs: seq<T>, i: nat, k: nat)
    requires IsField(F)
    requires i < |xs| && k <= |xs|
    ensures Denominator(F, x, xs, i, k) == F.zero <==> exists j :: 0 <= j < k && j != i && xs[i] == xs[j]
  {
    hide IsField;
    if k == 0 {
      AddIsZero(F, x, xs[i]);
      OneIsNotZero(F);
    } else {
      DenominatorZero(F, x, xs, i, k - 1);
      if k - 1 != i {
        AddIsZero(F, xs[i], xs[k - 1]);
        NoZeroDivisors(F, Denominator(F, x, xs, i, k - 1), F.add(xs[i], xs[k - 1]));
      }
    }
  }

  lemma {:induction false} NumeratorZero<T(!new)>(F: Field<T>, x: T, xs: seq<T>, k: nat)
    requires IsField(F)
    requires k <= |xs|
    ensures Numerator(F, x, xs, k) == F.zero <==> exists j :: 0 <= j < k && xs[j] == x
  {
    hide IsField;
    OneIsNotZero(F);
    if k > 0 {
      NumeratorZero(F, x, xs, k - 1);
      AddIsZero(F, x, xs[k - 1]);
      NoZeroDivisors(F, Numerator(F, x, xs, k - 1), F.add(x, xs[k - 1]));
    }
  }

  lemma {:induction false} NumeratorIsWeight<T(!new)>(F: Field<T>, x: T, xs: seq<T>, k: nat)
    requires IsField(F)
    requires k <= |xs|
    ensures Numerator(F, x, xs, k) == Weight(F, [x] + xs, 0, k + 1)
  {
    hide IsField;
    var z := [x] + xs;
    if k == 0 {
      assert Weight(F, z, 0, 0) == F.one;
    } else {
      NumeratorIsWeight(F, x, xs, k - 1);
      assert z[k] == xs[k - 1];
    }
  }

  lemma {:induction false} DenominatorIsWeight<T(!new)>(F: Field<T>, x: T, xs: seq<T>, i: nat, k: nat)
    requires IsField(F)
    requires i < |xs| && k <= |xs| && xs[i] != x
    ensures Denominator(F, x, xs, i, k) == Weight(F, [x] + xs, i + 1, k + 1)
  {
    hide IsField;
    var z := [x] + xs;
    if k == 0 {
      assert Weight(F, z, i + 1, 0) == F.one;
      MulOne(F, F.add(xs[i], x));
      AddComm(F, x, xs[i]);
    } else {
      DenominatorIsWeight(F, x, xs, i, k - 1);
      assert z[k] == xs[k - 1];
    }
  }

  /** Away from the shares, the sum is the numerator times the tail of the divided difference. */
  lemma {:induction false} SecretIsDifference<T(!new)>(F: Field<T>, x: T, xs: seq<T>, ys: seq<T>, fx: T, k: nat)
    requires IsField(F)
    requires k <= |xs| == |ys| && x !in xs
    ensures var z, v := [x] + xs, [fx] + ys;
            var num := Numerator(F, x, xs, |xs|);
            F.add(F.mul(num, F.mul(fx, F.inv(num))), Secret(F, x, xs, ys, k)) == F.mul(num, Differences(F, z, v, k + 1))
  {
    hide IsField;
    var z, v := [x] + xs, [fx] + ys;
    var num := Numerator(F, x, xs, |xs|);
    if k == 0 {
      NumeratorIsWeight(F, x, xs, |xs|);
      assert Differences(F, z, v, 0) == F.zero;
      AddZero(F, F.mul(fx, F.inv(num)));
      AddZero(F, F.mul(num, F.mul(fx, F.inv(num))));
    } else {
      SecretIsDifference(F, x, xs, ys, fx, k - 1);
      DenominatorIsWeight(F, x, xs, k - 1, |xs|);
      hide IsField, Weight, Denominator, Numerator;
      var d, y := F.inv(Denominator(F, x, xs, k - 1, |xs|)), ys[k - 1];
      assert v[k] == y;
      MulAddRight(F, num, Differences(F, z, v, k), F.mul(y, d));
      AddAssoc(F, F.mul(num, F.mul(fx, F.inv(num))), Secret(F, x, xs, ys, k - 1), Term(F, x, xs, k - 1, y));
      MulComm(F, d, num);
      MulAssoc(F, num, d, y);
      MulComm(F, d, y);
    }
  }

  /** At a share, every scaled basis polynomial is zero and only that share's value is added. */
  lemma {:induction false} SecretAtShare<T(!new)>(F: Field<T>, x: T, xs: seq<T>, ys: seq<T>, t: nat, k: nat)
    requires IsField(F)
    requires k <= |xs| == |ys| && Distinct(xs) && t < |xs| && xs[t] == x
    ensures Secret(F, x, xs, ys, k) == if t < k then ys[t] else F.zero
  {
    hide IsField;
    if k > 0 {
      SecretAtShare(F, x, xs, ys, t, k - 1);
      NumeratorZero(F, x, xs, |xs|);
      MulZero(F, F.inv(Denominator(F, x, xs, k - 1, |xs|)));
      MulZero(F, ys[k - 1]);
      AddZero(F, ys[k - 1]);
      AddZero(F, ys[t]);
      AddZero(F, F.zero);
    }
  }

  /**
    * The interpolation theorem: the sum equals f(x) for every polynomial f with at most as
    * many coefficients as there are shares that passes through all of them.
    */
  lemma InterpolationIsExact<T(!new)>(F: Field<T>, x: T, xs: seq<T>, ys: seq<T>, f: seq<T>)
    requires IsField(F)
    requires |xs| == |ys| && Distinct(xs) && |f| <= |xs|
    requires forall i :: 0 <= i < |xs| ==> ys[i] == Eval(F, f, xs[i])
    ensures Secret(F, x, xs, ys, |xs|) == Eval(F, f, x)
  {
    hide IsField, Secret, Differences, Eval;
    if x in xs {
      var t :| 0 <= t < |xs| && xs[t] == x;
      SecretAtShare(F, x, xs, ys, t, |xs|);
    } else {
      var fx, num := Eval(F, f, x), Numerator(F, x, xs, |xs|);
      var z, v := [x] + xs, [fx] + ys;
      DifferencesVanish(F, z, f, v);
      SecretIsDifference(F, x, xs, ys, fx, |xs|);
      NumeratorZero(F, x, xs, |xs|);
      MulZero(F, num);
      MulComm(F, num, F.mul(fx, F.inv(num)));
      MulAssoc(F, fx, F.inv(num), num);
      MulComm(F, F.inv(num), num);
      MulInv(F, num);
      MulOne(F, fx);
      AddIsZero(F, fx, Secret(F, x, xs, ys, |xs|));
    }
  }

  // ----- Every set of shares with distinct indices lies on such a polynomial

  ghost function PolyAdd<T(!new)>(F: Field<T>, p: seq<T>, q: seq<T>): (r: seq<T>)
    ensures |r| == if |p| < |q| then |q| else |p|
  {
    if p == [] then q else if q == [] then p else [F.add(p[0], q[0])] + PolyAdd(F, p[1..], q[1..])
  }

  ghost function PolyScale<T(!new)>(F: Field<T>, p: seq<T>, c: T): (r: seq<T>)
    ensures |r| == |p|
  {
    if p == [] then [] else [F.mul(c, p[0])] + PolyScale(F, p[1..], c)
  }

  lemma {:induction false} EvalAdd<T(!new)>(F: Field<T>, p: seq<T>, q: seq<T>, t: T)
    requires IsField(F)
    ensures Eval(F, PolyAdd(F, p, q), t) == F.add(Eval(F, p, t), Eval(F, q, t))
  {
    hide IsField;
    AddZero(F, Eval(F, p, t));
    AddZero(F, Eval(F, q, t));
    if p != [] && q != [] {
      var p', q' := p[1..], q[1..];
      EvalAdd(F, p', q', t);
      assert PolyAdd(F, p, q)[1..] == PolyAdd(F, p', q');
      MulAddRight(F, t, Eval(F, p', t), Eval(F, q', t));
      AddSwap(F, p[0], q[0], F.mul(t, Eval(F, p', t)), F.mul(t, Eval(F, q', t)));
    }
  }

  lemma {:induction false} EvalScale<T(!new)>(F: Field<T>, p: seq<T>, c: T, t: T)
    requires IsField(F)
    ensures Eval(F, PolyScale(F, p, c), t) == F.mul(c, Eval(F, p, t))
  {
    hide IsField;
    MulZero(F, c);
    if p != [] {
      var e := Eval(F, p[1..], t);
      EvalScale(F, p[1..], c, t);
      assert PolyScale(F, p, c)[1..] == PolyScale(F, p[1..], c);
      MulAssoc(F, t, c, e); MulComm(F, t, c); MulAssoc(F, c, t, e);
      MulAddRight(F, c, p[0], F.mul(t, e));
    }
  }

  /** The product of t + xs[j] over j below k. */
  ghost function Nodal<T(!new)>(F: Field<T>, xs: seq<T>, k: nat): (p: seq<T>)
    requires k <= |xs|
    ensures |p| == k + 1
  {
    if k == 0 then [F.one] else
      var p := Nodal(F, xs, k - 1);
      PolyAdd(F, [F.zero] + p, PolyScale(F, p, xs[k - 1]))
  }

  lemma {:induction false} EvalNodal<T(!new)>(F: Field<T>, xs: seq<T>, k: nat, t: T)
    requires IsField(F)
    requires k <= |xs|
    ensures Eval(F, Nodal(F, xs, k), t) == Numerator(F, t, xs, k)
  {
    hide IsField;
    if k == 0 {
      MulZero(F, t);
      AddZero(F, F.one);
      assert Nodal(F, xs, 0)[1..] == [];
    } else {
      EvalNodal(F, xs, k - 1, t);
      var p, x := Nodal(F, xs, k - 1), xs[k - 1];
      var z := [F.zero] + p;
      assert z[1..] == p;
      EvalAdd(F, z, PolyScale(F, p, x), t);
      EvalScale(F, p, x, t);
      AddZero(F, F.mul(t, Eval(F, p, t)));
      MulAddLeft(F, t, x, Eval(F, p, t));
      MulComm(F, F.add(t, x), Eval(F, p, t));
    }
  }

  /** The polynomial through the first k points, in Newton's form. */
  ghost function Interpolant<T(!new)>(F: Field<T>, xs: seq<T>, ys: seq<T>, k: nat): (p: seq<T>)
    requires k <= |xs| == |ys|
    ensures |p| == k
  {
    if k == 0 then [] else
      var p, n, x := Interpolant(F, xs, ys, k - 1), Nodal(F, xs, k - 1), xs[k - 1];
      PolyAdd(F, p, PolyScale(F, n, F.mul(F.add(ys[k - 1], Eval(F, p, x)), F.inv(Eval(F, n, x)))))
  }

  lemma Correction<T(!new)>(F: Field<T>, y: T, v: T, n: T)
    requires IsField(F)
    requires n != F.zero
    ensures F.add(v, F.mul(F.mul(F.add(y, v), F.inv(n)), n)) == y
  {
    hide IsField;
    var d := F.add(y, v);
    AddComm(F, y, v);
    AddAssoc(F, v, v, y);
    AddZero(F, v);
    AddZero(F, y);
    MulAssoc(F, d, F.inv(n), n);
    MulComm(F, F.inv(n), n);
    MulInv(F, n);
    MulOne(F, d);
  }

  lemma {:induction false} InterpolantFits<T(!new)>(F: Field<T>, xs: seq<T>, ys: seq<T>, k: nat, i: nat)
    requires IsField(F)
    requires i < k <= |xs| == |ys| && Distinct(xs)
    ensures Eval(F, Interpolant(F, xs, ys, k), xs[i]) == ys[i]
  {
    hide IsField, Eval;
    var p, n, x := Interpolant(F, xs, ys, k - 1), Nodal(F, xs, k - 1), xs[k - 1];
    var c := F.mul(F.add(ys[k - 1], Eval(F, p, x)), F.inv(Eval(F, n, x)));
    EvalAdd(F, p, PolyScale(F, n, c), xs[i]);
    EvalScale(F, n, c, xs[i]);
    EvalNodal(F, xs, k - 1, xs[i]);
    NumeratorZero(F, xs[i], xs, k - 1);
    if i == k - 1 {
      Correction(F, ys[i], Eval(F, p, x), Eval(F, n, x));
    } else {
      InterpolantFits(F, xs, ys, k - 1, i);
      MulZero(F, c);
      AddZero(F, ys[i]);
    }
  }
}
