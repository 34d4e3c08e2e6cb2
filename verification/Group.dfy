/** Abelian groups of prime exponent, standing for the pairing groups G1 and G2 of mcl. */
module Group {
  import opened Arith

  datatype Grp<!G(!new)> = Grp(zero: G, add: (G, G) -> G)

  function Smul<G(!new)>(g: Grp<G>, k: nat, x: G): G
  {
    if k == 0 then g.zero else g.add(x, Smul(g, k - 1, x))
  }

  /** Always true: the group laws are instantiated at the triples it is asserted of. */
  ghost predicate At<G(!new)>(x: G, y: G, z: G) { true }

  /** A commutative group in which r annihilates every element. */
  ghost predicate IsGroup<G(!new)>(g: Grp<G>, r: nat)
  {
    && r >= 2
    && (forall x, y, z {:trigger At(x, y, z)} :: At(x, y, z) ==>
          && g.add(g.add(x, y), z) == g.add(x, g.add(y, z))
          && g.add(x, y) == g.add(y, x)
          && g.add(g.zero, x) == x
          && Smul(g, r, x) == g.zero)
  }

  lemma Assoc<G(!new)>(g: Grp<G>, r: nat, x: G, y: G, z: G)
    requires IsGroup(g, r)
    ensures g.add(g.add(x, y), z) == g.add(x, g.add(y, z))
  {
    assert At(x, y, z);
  }

  lemma Zero<G(!new)>(g: Grp<G>, r: nat, x: G)
    requires IsGroup(g, r)
    ensures g.add(g.zero, x) == x && g.add(x, g.zero) == x
    ensures Smul(g, r, x) == g.zero && Smul(g, 1, x) == x
  {
    assert At(x, g.zero, x);
    assert Smul(g, 1, x) == g.add(x, Smul(g, 0, x));
  }

  lemma {:induction false} SmulAdd<G(!new)>(g: Grp<G>, r: nat, j: nat, k: nat, x: G)
    requires IsGroup(g, r)
    ensures Smul(g, j + k, x) == g.add(Smul(g, j, x), Smul(g, k, x))
  {
    if j == 0 {
      Zero(g, r, Smul(g, k, x));
    } else {
      SmulAdd(g, r, j - 1, k, x);
      Assoc(g, r, x, Smul(g, j - 1, x), Smul(g, k, x));
    }
  }

  lemma {:induction false} SmulZero<G(!new)>(g: Grp<G>, r: nat, k: nat)
    requires IsGroup(g, r)
    ensures Smul(g, k, g.zero) == g.zero
  {
    if k > 0 {
      SmulZero(g, r, k - 1);
      Zero(g, r, g.zero);
    }
  }

  lemma {:induction false} SmulMul<G(!new)>(g: Grp<G>, r: nat, j: nat, k: nat, x: G)
    requires IsGroup(g, r)
    ensures j * k >= 0 && Smul(g, j * k, x) == Smul(g, j, Smul(g, k, x))
  {
    if j == 0 {
      assert j * k == 0;
    } else {
      SmulMul(g, r, j - 1, k, x);
      assert j * k == k + (j - 1) * k;
      SmulAdd(g, r, k, (j - 1) * k, x);
    }
  }

  /** Multiples of the exponent do not matter. */
  lemma SmulShift<G(!new)>(g: Grp<G>, r: nat, q: nat, m: nat, x: G)
    requires IsGroup(g, r)
    ensures q * r >= 0 && Smul(g, q * r + m, x) == Smul(g, m, x)
  {
    SmulMul(g, r, q, r, x);
    SmulAdd(g, r, q * r, m, x);
    SmulZero(g, r, q);
    Zero(g, r, x);
    Zero(g, r, Smul(g, m, x));
  }

  /** Scalars act modulo the exponent. */
  lemma SmulMod<G(!new)>(g: Grp<G>, r: nat, k: nat, x: G)
    requires IsGroup(g, r)
    ensures Smul(g, k, x) == Smul(g, k % r, x)
  {
    SmulShift(g, r, k / r, k % r, x);
    assert k == (k / r) * r + k % r;
  }

  lemma SmulCongruent<G(!new)>(g: Grp<G>, r: nat, j: nat, k: nat, x: G)
    requires IsGroup(g, r) && j % r == k % r
    ensures Smul(g, j, x) == Smul(g, k, x)
  {
    SmulMod(g, r, j, x);
    SmulMod(g, r, k, x);
  }

  /** A scalar that is nonzero modulo the prime exponent annihilates only zero. */
  lemma SmulNonzero<G(!new)>(g: Grp<G>, r: nat, d: nat, x: G)
    requires IsGroup(g, r) && Prime(r) && d % r != 0 && Smul(g, d, x) == g.zero
    ensures x == g.zero
  {
    SmulMod(g, r, d, x);
    var m := d % r;
    var e := Inverse(m, r);
    SmulMul(g, r, e, m, x);
    SmulZero(g, r, e);
    assert e * m == m * e;
    Small(1, r);
    SmulCongruent(g, r, e * m, 1, x);
    Zero(g, r, x);
  }

  /** If j x = k x then the difference of the scalars annihilates x. */
  lemma SmulDifference<G(!new)>(g: Grp<G>, r: nat, j: nat, k: nat, neg: nat, x: G)
    requires IsGroup(g, r) && Smul(g, j, x) == Smul(g, k, x) && (k + neg) % r == 0
    ensures Smul(g, j + neg, x) == g.zero
  {
    SmulAdd(g, r, j, neg, x);
    SmulAdd(g, r, k, neg, x);
    SmulMod(g, r, k + neg, x);
  }

  /** Equal multiples of a nonzero element of prime exponent have congruent scalars. */
  lemma SmulInjective<G(!new)>(g: Grp<G>, r: nat, j: nat, k: nat, x: G)
    requires IsGroup(g, r) && Prime(r) && x != g.zero
    ensures Smul(g, j, x) == Smul(g, k, x) <==> j % r == k % r
  {
    if j % r == k % r {
      SmulCongruent(g, r, j, k, x);
    } else if Smul(g, j, x) == Smul(g, k, x) {
      var neg := (r - 1) * k;
      Annihilator(j, k, neg, r);
      SmulDifference(g, r, j, k, neg, x);
      SmulNonzero(g, r, j + neg, x);
    }
  }

  lemma Annihilator(j: nat, k: nat, neg: int, r: nat)
    requires r >= 2 && neg == (r - 1) * k && j % r != k % r
    ensures neg >= 0 && (k + neg) % r == 0 && (j + neg) % r != 0
  {
    NegFacts(k, r);
    ShiftMod(0, k, r);
    Small(0, r);
    ShiftMod(j - k, k, r);
    CongIffDiff(j, k, r);
  }

  lemma NegFacts(k: nat, r: nat)
    requires r >= 1
    ensures (r - 1) * k == k * r - k && (r - 1) * k >= 0
  {}
}
