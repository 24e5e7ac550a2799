/** Fields of characteristic two, given by their operations and laws. */
module Fields {
  datatype Field<!T> = Field(zero: T, one: T, add: (T, T) -> T, mul: (T, T) -> T, inv: T -> T)

  ghost predicate Additive<T(!new)>(F: Field<T>) {
    && (forall a, b :: F.add(a, b) == F.add(b, a))
    && (forall a, b, c :: F.add(F.add(a, b), c) == F.add(a, F.add(b, c)))
    && (forall a :: F.add(a, F.zero) == a)
    && (forall a :: F.add(a, a) == F.zero)
  }

  ghost predicate Multiplicative<T(!new)>(F: Field<T>) {
    && (forall a, b :: F.mul(a, b) == F.mul(b, a))
    && (forall a, b, c :: F.mul(F.mul(a, b), c) == F.mul(a, F.mul(b, c)))
    && (forall a :: F.mul(a, F.one) == a)
    && (forall a, b, c :: F.mul(a, F.add(b, c)) == F.add(F.mul(a, b), F.mul(a, c)))
    && (forall a :: a != F.zero ==> F.mul(a, F.inv(a)) == F.one)
    && F.one != F.zero
  }

  ghost predicate IsField<T(!new)>(F: Field<T>) { Additive(F) && Multiplicative(F) }

  // ----- The laws, one instance at a time

  lemma AddComm<T(!new)>(F: Field<T>, a: T, b: T)
    requires IsField(F)
    ensures F.add(a, b) == F.add(b, a)
  {
    hide Multiplicative;
  }

  lemma AddAssoc<T(!new)>(F: Field<T>, a: T, b: T, c: T)
    requires IsField(F)
    ensures F.add(F.add(a, b), c) == F.add(a, F.add(b, c))
  {
    hide Multiplicative;
  }

  lemma AddZero<T(!new)>(F: Field<T>, a: T)
    requires IsField(F)
    ensures F.add(a, F.zero) == a && F.add(F.zero, a) == a && F.add(a, a) == F.zero
  {
    hide Multiplicative;
    AddComm(F, a, F.zero);
  }

  lemma AddSwap<T(!new)>(F: Field<T>, a: T, b: T, c: T, d: T)
    requires IsField(F)
    ensures F.add(F.add(a, b), F.add(c, d)) == F.add(F.add(a, c), F.add(b, d))
  {
    hide IsField;
    AddAssoc(F, a, b, F.add(c, d));
    AddAssoc(F, b, c, d);
    AddComm(F, b, c);
    AddAssoc(F, c, b, d);
    AddAssoc(F, a, c, F.add(b, d));
  }

  lemma AddIsZero<T(!new)>(F: Field<T>, a: T, b: T)
    requires IsField(F)
    ensures F.add(a, b) == F.zero <==> a == b
  {
    hide IsField;
    AddZero(F, a);
    AddZero(F, b);
    AddAssoc(F, a, b, b);
  }

  lemma MulComm<T(!new)>(F: Field<T>, a: T, b: T)
    requires IsField(F)
    ensures F.mul(a, b) == F.mul(b, a)
  {
    hide Additive;
  }

  lemma MulAssoc<T(!new)>(F: Field<T>, a: T, b: T, c: T)
    requires IsField(F)
    ensures F.mul(F.mul(a, b), c) == F.mul(a, F.mul(b, c))
  {
    hide Additive;
  }

  lemma MulOne<T(!new)>(F: Field<T>, a: T)
    requires IsField(F)
    ensures F.mul(F.one, a) == a && F.mul(a, F.one) == a
  {
    hide Additive;
    MulComm(F, a, F.one);
  }

  lemma MulAddRight<T(!new)>(F: Field<T>, a: T, b: T, c: T)
    requires IsField(F)
    ensures F.mul(a, F.add(b, c)) == F.add(F.mul(a, b), F.mul(a, c))
  {
    hide Additive;
  }

  lemma MulAddLeft<T(!new)>(F: Field<T>, a: T, b: T, c: T)
    requires IsField(F)
    ensures F.mul(F.add(a, b), c) == F.add(F.mul(a, c), F.mul(b, c))
  {
    hide IsField;
    MulAddRight(F, c, a, b);
    MulComm(F, F.add(a, b), c);
    MulComm(F, a, c);
    MulComm(F, b, c);
  }

  lemma MulZero<T(!new)>(F: Field<T>, a: T)
    requires IsField(F)
    ensures F.mul(a, F.zero) == F.zero && F.mul(F.zero, a) == F.zero
  {
    hide IsField;
    MulAddRight(F, a, F.zero, F.zero);
    AddZero(F, F.zero);
    AddZero(F, F.mul(a, F.zero));
    MulComm(F, a, F.zero);
  }

  lemma MulInv<T(!new)>(F: Field<T>, a: T)
    requires IsField(F)
    ensures a != F.zero ==> F.mul(a, F.inv(a)) == F.one
  {
    hide Additive;
  }

  lemma OneIsNotZero<T(!new)>(F: Field<T>)
    requires IsField(F)
    ensures F.one != F.zero
  {
    hide Additive;
  }

  lemma MulCancel<T(!new)>(F: Field<T>, a: T, b: T, c: T)
    requires IsField(F) && c != F.zero && F.mul(a, c) == F.mul(b, c)
    ensures a == b
  {
    hide IsField;
    MulInv(F, c);
    MulAssoc(F, a, c, F.inv(c));
    MulAssoc(F, b, c, F.inv(c));
    MulOne(F, a);
    MulOne(F, b);
  }

  lemma NoZeroDivisors<T(!new)>(F: Field<T>, a: T, b: T)
    requires IsField(F)
    ensures F.mul(a, b) == F.zero <==> a == F.zero || b == F.zero
  {
    hide IsField;
    MulZero(F, a);
    MulZero(F, b);
    if b != F.zero && F.mul(a, b) == F.zero { MulCancel(F, a, F.zero, b); }
  }

  lemma InvMul<T(!new)>(F: Field<T>, a: T, b: T)
    requires IsField(F) && a != F.zero && b != F.zero
    ensures F.inv(F.mul(a, b)) == F.mul(F.inv(a), F.inv(b))
  {
    hide IsField;
    var c, x, y := F.mul(a, b), F.inv(a), F.inv(b);
    NoZeroDivisors(F, a, b);
    MulInv(F, a);
    MulInv(F, b);
    MulInv(F, c);
    MulComm(F, F.inv(c), c);
    MulAssoc(F, F.mul(x, y), b, a);
    MulAssoc(F, x, y, b);
    MulComm(F, a, b);
    MulComm(F, y, b);
    MulComm(F, x, a);
    MulOne(F, x);
    MulCancel(F, F.inv(c), F.mul(x, y), c);
  }
}
