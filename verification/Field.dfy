/** Fields given by their operations, with the laws that the curve formulas need. */
module Field {

  datatype Fld<!F(!new)> = Fld(zero: F, one: F, add: (F, F) -> F, sub: (F, F) -> F, mul: (F, F) -> F, inv: F -> F)

  /** Always true: the field laws are instantiated at the triples it is asserted of. */
  ghost predicate At<F(!new)>(x: F, y: F, z: F) { true }

  ghost predicate IsField<F(!new)>(f: Fld<F>) {
    && f.zero != f.one
    && (forall x, y, z {:trigger At(x, y, z)} :: At(x, y, z) ==> Laws(f, x, y, z))
  }

  ghost predicate Laws<F(!new)>(f: Fld<F>, x: F, y: F, z: F) {
    && f.add(f.add(x, y), z) == f.add(x, f.add(y, z))
    && f.add(x, y) == f.add(y, x)
    && f.add(x, f.zero) == x
    && f.add(f.sub(x, y), y) == x
    && f.mul(f.mul(x, y), z) == f.mul(x, f.mul(y, z))
    && f.mul(x, y) == f.mul(y, x)
    && f.mul(x, f.one) == x
    && f.mul(x, f.add(y, z)) == f.add(f.mul(x, y), f.mul(x, z))
    && (x != f.zero ==> f.mul(x, f.inv(x)) == f.one)
  }

  // ----- addition

  lemma AddAssoc<F(!new)>(f: Fld<F>, x: F, y: F, z: F)
    requires IsField(f)
    ensures f.add(f.add(x, y), z) == f.add(x, f.add(y, z))
  {
    assert At(x, y, z);
  }

  lemma AddComm<F(!new)>(f: Fld<F>, x: F, y: F)
    requires IsField(f)
    ensures f.add(x, y) == f.add(y, x)
  {
    assert At(x, y, x);
  }

  lemma AddZero<F(!new)>(f: Fld<F>, x: F)
    requires IsField(f)
    ensures f.add(x, f.zero) == x && f.add(f.zero, x) == x
  {
    assert At(x, f.zero, x);
  }

  lemma SubAdd<F(!new)>(f: Fld<F>, x: F, y: F)
    requires IsField(f)
    ensures f.add(f.sub(x, y), y) == x
  {
    assert At(x, y, x);
  }

  /** Equal summands on the right can be cancelled. */
  lemma AddCancel<F(!new)>(f: Fld<F>, x: F, y: F, z: F)
    requires IsField(f) && f.add(x, z) == f.add(y, z)
    ensures x == y
  {
    var n := f.sub(f.zero, z);
    SubAdd(f, f.zero, z);
    AddComm(f, n, z);
    AddAssoc(f, x, z, n);
    AddAssoc(f, y, z, n);
    AddZero(f, x);
    AddZero(f, y);
  }

  /** x - y = z exactly when x = z + y. */
  lemma SubIs<F(!new)>(f: Fld<F>, x: F, y: F, z: F)
    requires IsField(f)
    ensures f.sub(x, y) == z <==> x == f.add(z, y)
  {
    SubAdd(f, x, y);
    if x == f.add(z, y) { AddCancel(f, f.sub(x, y), z, y); }
  }

  lemma SubSelf<F(!new)>(f: Fld<F>, x: F)
    requires IsField(f)
    ensures f.sub(x, x) == f.zero && f.sub(x, f.zero) == x
  {
    AddZero(f, x);
    SubIs(f, x, x, f.zero);
    SubIs(f, x, f.zero, x);
  }

  lemma SubZeroIff<F(!new)>(f: Fld<F>, x: F, y: F)
    requires IsField(f)
    ensures f.sub(x, y) == f.zero <==> x == y
  {
    SubIs(f, x, y, f.zero);
    AddZero(f, y);
  }

  /** (x + y) + z = (x + z) + y */
  lemma AddSwap<F(!new)>(f: Fld<F>, x: F, y: F, z: F)
    requires IsField(f)
    ensures f.add(f.add(x, y), z) == f.add(f.add(x, z), y)
  {
    AddAssoc(f, x, y, z);
    AddComm(f, y, z);
    AddAssoc(f, x, z, y);
  }

  /** (x - y) - z = (x - z) - y */
  lemma SubSwap<F(!new)>(f: Fld<F>, x: F, y: F, z: F)
    requires IsField(f)
    ensures f.sub(f.sub(x, y), z) == f.sub(f.sub(x, z), y)
  {
    var d := f.sub(f.sub(x, y), z);
    SubAdd(f, x, y);
    SubAdd(f, f.sub(x, y), z);
    AddSwap(f, d, z, y);
    SubIs(f, x, z, f.add(d, y));
    SubIs(f, f.sub(x, z), y, d);
  }

  /** ((x + (y - z)) - y) - y = (x - y) - z */
  lemma AddSubSub<F(!new)>(f: Fld<F>, x: F, y: F, z: F)
    requires IsField(f)
    ensures f.sub(f.sub(f.add(x, f.sub(y, z)), y), y) == f.sub(f.sub(x, y), z)
  {
    // x + (y - z) = (x - z) + y
    var s := f.add(x, f.sub(y, z));
    SubAdd(f, x, z);
    SubAdd(f, y, z);
    AddAssoc(f, f.sub(x, z), z, f.sub(y, z));
    AddComm(f, z, f.sub(y, z));
    SubIs(f, s, y, f.sub(x, z));
    SubSwap(f, x, y, z);
  }

  // ----- multiplication

  lemma MulAssoc<F(!new)>(f: Fld<F>, x: F, y: F, z: F)
    requires IsField(f)
    ensures f.mul(f.mul(x, y), z) == f.mul(x, f.mul(y, z))
  {
    assert At(x, y, z);
  }

  lemma MulComm<F(!new)>(f: Fld<F>, x: F, y: F)
    requires IsField(f)
    ensures f.mul(x, y) == f.mul(y, x)
  {
    assert At(x, y, x);
  }

  lemma MulOne<F(!new)>(f: Fld<F>, x: F)
    requires IsField(f)
    ensures f.mul(x, f.one) == x && f.mul(f.one, x) == x
  {
    assert At(x, f.one, x);
  }

  lemma Distribute<F(!new)>(f: Fld<F>, x: F, y: F, z: F)
    requires IsField(f)
    ensures f.mul(x, f.add(y, z)) == f.add(f.mul(x, y), f.mul(x, z))
    ensures f.mul(f.add(y, z), x) == f.add(f.mul(y, x), f.mul(z, x))
  {
    assert At(x, y, z);
    MulComm(f, x, f.add(y, z));
    MulComm(f, x, y);
    MulComm(f, x, z);
  }

  lemma DistributeSub<F(!new)>(f: Fld<F>, x: F, y: F, z: F)
    requires IsField(f)
    ensures f.mul(x, f.sub(y, z)) == f.sub(f.mul(x, y), f.mul(x, z))
    ensures f.mul(f.sub(y, z), x) == f.sub(f.mul(y, x), f.mul(z, x))
  {
    SubAdd(f, y, z);
    Distribute(f, x, f.sub(y, z), z);
    SubIs(f, f.mul(x, y), f.mul(x, z), f.mul(x, f.sub(y, z)));
    MulComm(f, x, f.sub(y, z));
    MulComm(f, x, y);
    MulComm(f, x, z);
  }

  lemma MulZero<F(!new)>(f: Fld<F>, x: F)
    requires IsField(f)
    ensures f.mul(x, f.zero) == f.zero && f.mul(f.zero, x) == f.zero
  {
    SubSelf(f, f.zero);
    DistributeSub(f, x, f.zero, f.zero);
    SubSelf(f, f.mul(x, f.zero));
    MulComm(f, x, f.zero);
  }

  /** (x y) z = (x z) y */
  lemma MulSwap<F(!new)>(f: Fld<F>, x: F, y: F, z: F)
    requires IsField(f)
    ensures f.mul(f.mul(x, y), z) == f.mul(f.mul(x, z), y)
  {
    MulAssoc(f, x, y, z);
    MulComm(f, y, z);
    MulAssoc(f, x, z, y);
  }

  /** (x y) (u v) = (x u) (y v) */
  lemma MulInterchange<F(!new)>(f: Fld<F>, x: F, y: F, u: F, v: F)
    requires IsField(f)
    ensures f.mul(f.mul(x, y), f.mul(u, v)) == f.mul(f.mul(x, u), f.mul(y, v))
  {
    MulAssoc(f, f.mul(x, y), u, v);
    MulSwap(f, x, y, u);
    MulAssoc(f, f.mul(x, u), y, v);
  }

  /** A nonzero factor can be cancelled. */
  lemma MulCancel<F(!new)>(f: Fld<F>, x: F, y: F, z: F)
    requires IsField(f) && z != f.zero && f.mul(x, z) == f.mul(y, z)
    ensures x == y
  {
    assert At(z, z, z);
    MulAssoc(f, x, z, f.inv(z));
    MulAssoc(f, y, z, f.inv(z));
    MulOne(f, x);
    MulOne(f, y);
  }

  lemma NonzeroProduct<F(!new)>(f: Fld<F>, x: F, y: F)
    requires IsField(f) && x != f.zero && y != f.zero
    ensures f.mul(x, y) != f.zero
  {
    MulZero(f, y);
    if f.mul(x, y) == f.zero { MulCancel(f, x, f.zero, y); }
  }

  /** x / y multiplied by y. */
  lemma DivMul<F(!new)>(f: Fld<F>, x: F, y: F)
    requires IsField(f) && y != f.zero
    ensures f.mul(f.mul(x, f.inv(y)), y) == x
  {
    MulAssoc(f, x, f.inv(y), y);
    MulComm(f, f.inv(y), y);
    assert At(y, y, y);
    MulOne(f, x);
  }
}
