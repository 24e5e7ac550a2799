/** The operations of Gf256 make up a field, so that what holds in every field holds of them. */
module GfField {
  import Fields
  import opened Gf256

  ghost function GF(): Fields.Field<Gf> { Fields.Field(Zero, One, Add, Mul, Inv) }

  lemma GfOps(a: Gf, b: Gf)
    ensures GF().add(a, b) == Add(a, b) && GF().mul(a, b) == Mul(a, b) && GF().inv(a) == Inv(a)
    ensures GF().zero == Zero && GF().one == One
  {
    hide Add, Mul, Inv;
  }

  lemma GfAdditive()
    ensures Fields.Additive(GF())
  {
    hide Add, Mul, Inv, GF;
    var F := GF();
    forall a, b ensures F.add(a, b) == F.add(b, a) { GfOps(a, b); GfOps(b, a); AddComm(a, b); }
    forall a, b, c ensures F.add(F.add(a, b), c) == F.add(a, F.add(b, c)) {
      GfOps(a, b); GfOps(b, c); GfOps(Add(a, b), c); GfOps(a, Add(b, c));
      AddAssoc(a, b, c);
    }
    forall a ensures F.add(a, F.zero) == a && F.add(a, a) == F.zero { GfOps(a, Zero); GfOps(a, a); AddZero(a); }
  }

  lemma GfMultiplicative()
    ensures Fields.Multiplicative(GF())
  {
    hide Add, Mul, Inv, GF;
    var F := GF();
    forall a, b ensures F.mul(a, b) == F.mul(b, a) { GfOps(a, b); GfOps(b, a); MulComm(a, b); }
    forall a, b, c ensures F.mul(F.mul(a, b), c) == F.mul(a, F.mul(b, c)) {
      GfOps(a, b); GfOps(b, c); GfOps(Mul(a, b), c); GfOps(a, Mul(b, c));
      MulAssoc(a, b, c);
    }
    forall a ensures F.mul(a, F.one) == a { GfOps(a, One); MulOne(a); }
    forall a, b, c ensures F.mul(a, F.add(b, c)) == F.add(F.mul(a, b), F.mul(a, c)) {
      GfOps(b, c); GfOps(a, b); GfOps(a, c); GfOps(a, Add(b, c)); GfOps(Mul(a, b), Mul(a, c));
      MulAddRight(a, b, c);
    }
    forall a ensures a != F.zero ==> F.mul(a, F.inv(a)) == F.one { GfOps(a, Inv(a)); MulInv(a); }
    GfOps(One, Zero);
    assert One != Zero;
  }

  /** GF(2^8) is a field of characteristic two, with x^254 for the inverse. */
  lemma GfIsField()
    ensures Fields.IsField(GF())
  {
    GfAdditive();
    GfMultiplicative();
    hide Fields.Additive, Fields.Multiplicative, GF;
  }
}
