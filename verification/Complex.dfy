/** The prime field and its quadratic extension by a root of -1: the Complex operations of
    POC/OnlineOp.hpp, and the proof that both are fields. */
module Complex {
  import opened Arith
  import NumberTheory
  import opened Field

  type Modulus = p: int | p > 2 witness 3

  /** The modulus of the base field; nothing is assumed of it but what a lemma requires. */
  const P: Modulus

  type Fp = x: int | 0 <= x < P

  function Reduce(x: int): Fp { x % P }

  function FpAdd(a: Fp, b: Fp): Fp { Reduce(a + b) }
  function FpSub(a: Fp, b: Fp): Fp { Reduce(a - b) }
  function FpMul(a: Fp, b: Fp): Fp { Reduce(a * b) }
  function FpInv(a: Fp): Fp { Reduce(Pow(a, P - 2)) }

  function PrimeField(): Fld<Fp> {
    Fld(0, 1, FpAdd, FpSub, FpMul, FpInv)
  }

  lemma ReducedOperands(x: int, y: int)
    ensures FpMul(Reduce(x), Reduce(y)) == Reduce(x * y)
    ensures FpAdd(Reduce(x), Reduce(y)) == Reduce(x + y)
    ensures FpSub(Reduce(x), Reduce(y)) == Reduce(x - y)
  {
    MulModBoth(x, y, P);
    AddModBoth(x, y, P);
    SubModBoth(x, y, P);
  }

  lemma Reduced(x: Fp)
    ensures Reduce(x) == x
  {
    Small(x, P);
  }

  lemma FpAddLaws(x: Fp, y: Fp, z: Fp)
    ensures FpAdd(FpAdd(x, y), z) == FpAdd(x, FpAdd(y, z))
    ensures FpAdd(x, y) == FpAdd(y, x) && FpAdd(x, 0) == x && FpAdd(FpSub(x, y), y) == x
  {
    hide FpAdd, FpSub, FpMul, Reduce;
    FpAddAssoc(x, y, z);
    Reduced(x);
    Reduced(y);
    Reduced(0);
    ReducedOperands(x, y);
    ReducedOperands(y, x);
    ReducedOperands(x, 0);
    ReducedOperands(x - y, y);
  }

  lemma FpAddAssoc(x: Fp, y: Fp, z: Fp)
    ensures FpAdd(FpAdd(x, y), z) == FpAdd(x, FpAdd(y, z))
  {
    hide FpAdd, Reduce;
    Reduced(x);
    Reduced(y);
    Reduced(z);
    ReducedOperands(x, y);
    ReducedOperands(x + y, z);
    ReducedOperands(y, z);
    ReducedOperands(x, y + z);
  }

  lemma FpMulLaws(x: Fp, y: Fp, z: Fp)
    ensures FpMul(FpMul(x, y), z) == FpMul(x, FpMul(y, z))
    ensures FpMul(x, y) == FpMul(y, x) && FpMul(x, 1) == x
  {
    hide FpAdd, FpSub, FpMul, Reduce;
    Reduced(x);
    Reduced(y);
    Reduced(z);
    Reduced(1);
    ReducedOperands(x, y);
    ReducedOperands(x * y, z);
    ReducedOperands(y, z);
    ReducedOperands(x, y * z);
    ReducedOperands(y, x);
    ReducedOperands(x, 1);
    Commutes(x, y, z);
  }

  lemma Commutes(x: int, y: int, z: int)
    ensures (x * y) * z == x * (y * z) && x * y == y * x && x * 1 == x
  {}

  lemma FpDistribute(x: Fp, y: Fp, z: Fp)
    ensures FpMul(x, FpAdd(y, z)) == FpAdd(FpMul(x, y), FpMul(x, z))
  {
    hide FpAdd, FpSub, FpMul, Reduce;
    Reduced(x);
    Reduced(y);
    Reduced(z);
    ReducedOperands(y, z);
    ReducedOperands(x, y + z);
    ReducedOperands(x, y);
    ReducedOperands(x, z);
    ReducedOperands(x * y, x * z);
    MulDistributes(x, y, z);
  }

  lemma FpInverse(x: Fp)
    requires Prime(P) && x != 0
    ensures FpMul(x, FpInv(x)) == 1
  {
    Small(x, P);
    NumberTheory.Fermat(x, P);
    MulModBoth(x, Pow(x, P - 2), P);
    assert Pow(x, P - 1) == x * Pow(x, P - 2);
  }

  lemma PrimeLaws(x: Fp, y: Fp, z: Fp)
    requires Prime(P)
    ensures Laws(PrimeField(), x, y, z)
  {
    FpAddLaws(x, y, z);
    FpMulLaws(x, y, z);
    FpDistribute(x, y, z);
    if x != 0 { FpInverse(x); }
  }

  /** The integers modulo a prime are a field. */
  lemma PrimeFieldIsField()
    requires Prime(P)
    ensures IsField(PrimeField())
  {
    forall x: Fp, y: Fp, z: Fp | At(x, y, z) ensures Laws(PrimeField(), x, y, z) {
      PrimeLaws(x, y, z);
    }
  }

  // ----- the extension

  datatype Cpx = Cpx(re: Fp, im: Fp)

  function CAdd(a: Cpx, b: Cpx): Cpx { Cpx(FpAdd(a.re, b.re), FpAdd(a.im, b.im)) }
  function CSub(a: Cpx, b: Cpx): Cpx { Cpx(FpSub(a.re, b.re), FpSub(a.im, b.im)) }

  function CMul(a: Cpx, b: Cpx): Cpx {
    Cpx(FpSub(FpMul(a.re, b.re), FpMul(a.im, b.im)), FpAdd(FpMul(a.re, b.im), FpMul(a.im, b.re)))
  }

  function Norm(a: Cpx): Fp { FpAdd(FpMul(a.re, a.re), FpMul(a.im, a.im)) }

  function CInv(a: Cpx): Cpx {
    var rr := FpInv(Norm(a));
    Cpx(FpMul(a.re, rr), FpMul(a.im, FpMul(rr, Reduce(-1))))
  }

  function QuadraticField(): Fld<Cpx> {
    Fld(Cpx(0, 0), Cpx(1, 0), CAdd, CSub, CMul, CInv)
  }

  /** A product as a reduced pair of integers. */
  lemma CMulReduced(a: Cpx, b: Cpx)
    ensures CMul(a, b) == Cpx(Reduce(a.re * b.re - a.im * b.im), Reduce(a.re * b.im + a.im * b.re))
  {
    Reduced(a.re);
    Reduced(a.im);
    CMulCongruent(a, a.re, a.im, b);
  }

  lemma CMulCongruent(a: Cpx, r: int, i: int, b: Cpx)
    requires a.re == Reduce(r) && a.im == Reduce(i)
    ensures CMul(a, b) == Cpx(Reduce(r * b.re - i * b.im), Reduce(r * b.im + i * b.re))
  {
    hide FpAdd, FpSub, FpMul, Reduce;
    Reduced(b.re);
    Reduced(b.im);
    ReducedOperands(r, b.re);
    ReducedOperands(i, b.im);
    ReducedOperands(r, b.im);
    ReducedOperands(i, b.re);
    ReducedOperands(r * b.re, i * b.im);
    ReducedOperands(r * b.im, i * b.re);
  }

  lemma CMulComm(a: Cpx, b: Cpx)
    ensures CMul(a, b) == CMul(b, a)
  {
    hide CMul, Reduce;
    CMulReduced(a, b);
    CMulReduced(b, a);
    assert a.re * b.im + a.im * b.re == b.re * a.im + b.im * a.re;
    assert a.re * b.re - a.im * b.im == b.re * a.re - b.im * a.im;
  }

  lemma CMulAssoc(a: Cpx, b: Cpx, c: Cpx)
    ensures CMul(CMul(a, b), c) == CMul(a, CMul(b, c))
  {
    hide CMul, Reduce;
    CMulReduced(a, b);
    CMulCongruent(CMul(a, b), a.re * b.re - a.im * b.im, a.re * b.im + a.im * b.re, c);
    CMulReduced(b, c);
    CMulComm(a, CMul(b, c));
    CMulCongruent(CMul(b, c), b.re * c.re - b.im * c.im, b.re * c.im + b.im * c.re, a);
    AssocParts(a.re, a.im, b.re, b.im, c.re, c.im);
  }

  lemma AssocParts(a: int, a': int, b: int, b': int, c: int, c': int)
    ensures (a * b - a' * b') * c - (a * b' + a' * b) * c' == (b * c - b' * c') * a - (b * c' + b' * c) * a'
    ensures (a * b - a' * b') * c' + (a * b' + a' * b) * c == (b * c - b' * c') * a' + (b * c' + b' * c) * a
  {
    Expand(a * b, a' * b', c);
    Expand(a * b, a' * b', c');
    Expand(a * b', -a' * b, c);
    Expand(a * b', -a' * b, c');
    Expand(b * c, b' * c', a);
    Expand(b * c, b' * c', a');
    Expand(b * c', -b' * c, a);
    Expand(b * c', -b' * c, a');
    Rotate(a, b, c);
    Rotate(a, b, c');
    Rotate(a, b', c);
    Rotate(a, b', c');
    Rotate(a', b, c);
    Rotate(a', b, c');
    Rotate(a', b', c);
    Rotate(a', b', c');
  }

  lemma Expand(x: int, y: int, z: int)
    ensures (x - y) * z == x * z - y * z
  {}

  lemma Rotate(x: int, y: int, z: int)
    ensures (x * y) * z == (y * z) * x
    ensures (-x * y) * z == -((x * y) * z)
    ensures (-y * z) * x == -((y * z) * x)
  {
    assert (-x * y) * z == (-(x * y)) * z;
    assert (-y * z) * x == (-(y * z)) * x;
  }

  lemma CDistribute(a: Cpx, b: Cpx, c: Cpx)
    ensures CMul(a, CAdd(b, c)) == CAdd(CMul(a, b), CMul(a, c))
  {
    hide CMul, CAdd, Reduce;
    var r, i := b.re + c.re, b.im + c.im;
    SumReduced(b, c, r, i);
    CMulComm(a, CAdd(b, c));
    CMulCongruent(CAdd(b, c), r, i, a);
    DistributeParts(a.re, a.im, b.re, b.im, c.re, c.im, r, i);
    SumOfProducts(a, b, c);
  }

  lemma SumReduced(b: Cpx, c: Cpx, r: int, i: int)
    requires r == b.re + c.re && i == b.im + c.im
    ensures CAdd(b, c) == Cpx(Reduce(r), Reduce(i))
  {
    Reduced(b.re);
    Reduced(b.im);
    Reduced(c.re);
    Reduced(c.im);
    ReducedOperands(b.re, c.re);
    ReducedOperands(b.im, c.im);
  }

  lemma SumOfProducts(a: Cpx, b: Cpx, c: Cpx)
    ensures CAdd(CMul(a, b), CMul(a, c))
         == Cpx(Reduce((a.re * b.re - a.im * b.im) + (a.re * c.re - a.im * c.im)),
                Reduce((a.re * b.im + a.im * b.re) + (a.re * c.im + a.im * c.re)))
  {
    hide CMul, FpAdd, FpSub, FpMul, Reduce;
    CMulReduced(a, b);
    CMulReduced(a, c);
    ReducedOperands(a.re * b.re - a.im * b.im, a.re * c.re - a.im * c.im);
    ReducedOperands(a.re * b.im + a.im * b.re, a.re * c.im + a.im * c.re);
  }

  lemma DistributeParts(a: int, a': int, b: int, b': int, c: int, c': int, r: int, i: int)
    requires r == b + c && i == b' + c'
    ensures r * a - i * a' == (a * b - a' * b') + (a * c - a' * c')
    ensures r * a' + i * a == (a * b' + a' * b) + (a * c' + a' * c)
  {
    Expand(b, -c, a);
    Expand(b, -c, a');
    Expand(b', -c', a);
    Expand(b', -c', a');
  }

  lemma {:induction false} PowOfMinusOne(e: nat)
    ensures Pow(-1, e) == if e % 2 == 0 then 1 else -1
  {
    if e > 0 { PowOfMinusOne(e - 1); }
  }

  lemma HalfIsOdd(p: int)
    requires p % 4 == 3
    ensures ((p - 1) / 2) % 2 == 1
  {}

  /** -1 is not a square modulo a prime that is 3 modulo 4. */
  lemma MinusOneNotSquare(t: int)
    requires Prime(P) && P % 4 == 3
    ensures (t * t + 1) % P != 0
  {
    if (t * t + 1) % P == 0 {
      CongIffDiff(t * t, -1, P);
      var s := t % P;
      ModMod(t, P);
      MulModBoth(t, t, P);
      assert NumberTheory.IsSquare(-1, P);
      NumberTheory.EulerCriterion(-1, P);
      PowOfMinusOne((P - 1) / 2);
      ModUnique(-1, P, -1, P - 1);
      HalfIsOdd(P);
    }
  }

  /** The norm of a nonzero element is nonzero. */
  lemma NormNonzero(a: Cpx)
    requires Prime(P) && P % 4 == 3 && a != Cpx(0, 0)
    ensures Norm(a) != 0
  {
    AddModBoth(a.re * a.re, a.im * a.im, P);
    Small(a.re, P);
    Small(a.im, P);
    if Norm(a) == 0 {
      if a.im == 0 {
        assert a.im * a.im == 0;
        EuclidLemma(a.re, a.re, P);
      } else {
        var i := Inverse(a.im, P);
        var t := a.re * i;
        // (re^2 + im^2) i^2 = t^2 + 1
        var n := a.re * a.re + a.im * a.im;
        Small(0, P);
        CongMul(n, 0, i * i, i * i, P);
        assert n * (i * i) == t * t + (a.im * i) * (a.im * i) by {
          Arith.MulSwap(a.re, i, a.re, i);
          Arith.MulSwap(a.im, i, a.im, i);
        }
        Small(1, P);
        CongMul(a.im * i, 1, a.im * i, 1, P);
        CongAdd(t * t, t * t, (a.im * i) * (a.im * i), 1, P);
        MinusOneNotSquare(t);
      }
    }
  }

  lemma CInverse(a: Cpx)
    requires Prime(P) && P % 4 == 3 && a != Cpx(0, 0)
    ensures CMul(a, CInv(a)) == Cpx(1, 0)
  {
    NormNonzero(a);
    var n, rr := Norm(a), FpInv(Norm(a));
    PrimeLaws(n, n, n);
    assert (n * rr) % P == 1;
    // the inverse is congruent to (re rr, -im rr)
    MulModBoth(rr, -1, P);
    MulModBoth(a.im, -rr, P);
    CMulComm(a, CInv(a));
    CMulCongruent(CInv(a), a.re * rr, a.im * -rr, a);
    AddModBoth(a.re * a.re, a.im * a.im, P);
    MulModBoth(a.re * a.re + a.im * a.im, rr, P);
    InverseParts(a.re, a.im, rr);
    Small(0, P);
  }

  lemma InverseParts(x: int, y: int, r: int)
    ensures (x * r) * x - (y * -r) * y == (x * x + y * y) * r
    ensures (x * r) * y + (y * -r) * x == 0
  {
    assert (x * r) * x == (x * x) * r;
    assert (y * -r) * y == -((y * y) * r);
    assert (x * r) * y == (x * y) * r;
    assert (y * -r) * x == -((x * y) * r);
  }

  /** The quadratic extension is a field when the prime is 3 modulo 4. */
  lemma QuadraticFieldIsField()
    requires Prime(P) && P % 4 == 3
    ensures IsField(QuadraticField())
  {
    forall x: Cpx, y: Cpx, z: Cpx | At(x, y, z) ensures Laws(QuadraticField(), x, y, z) {
      PrimeLaws(x.re, y.re, z.re);
      PrimeLaws(x.im, y.im, z.im);
      CMulAssoc(x, y, z);
      CMulComm(x, y);
      CMulComm(y, x);
      CDistribute(x, y, z);
      CMulReduced(x, Cpx(1, 0));
      Small(x.re, P);
      Small(x.im, P);
      if x != Cpx(0, 0) { CInverse(x); }
    }
  }

  // ----- the operations on output references

  class Cell {
    var re: Fp
    var im: Fp

    constructor (c: Cpx)
      ensures Val() == c
    {
      re, im := c.re, c.im;
    }

    ghost function Val(): Cpx
      reads this
    {
      Cpx(re, im)
    }

    method Assign(v: Cell)
      modifies this
      ensures Val() == old(v.Val())
    {
      re, im := v.re, v.im;
    }
  }

  /** Which operand of a product, if any, its output is. */
  datatype Aliasing = Apart | First | Second | Both

  function AliasingOf(c: Cell, a: Cell, b: Cell): Aliasing {
    if c == a then (if c == b then Both else First) else if c == b then Second else Apart
  }

  /** What the multiplication leaves in its output.  The real part is written before the imaginary part
      is computed, and the imaginary part is written before its second summand is. */
  function ProductInto(k: Aliasing, a: Cpx, b: Cpx): Cpx {
    var r := FpSub(FpMul(a.re, b.re), FpMul(a.im, b.im));
    Cpx(r, match k
           case Apart => FpAdd(FpMul(a.re, b.im), FpMul(a.im, b.re))
           case First => FpAdd(FpMul(r, b.im), FpMul(FpMul(r, b.im), b.re))
           case Second => FpAdd(FpMul(a.re, b.im), FpMul(a.im, r))
           case Both => FpAdd(FpMul(r, a.im), FpMul(FpMul(r, a.im), r)))
  }

  /** The condition on the operands under which the product comes out right. */
  predicate ProductComesOut(k: Aliasing, a: Cpx, b: Cpx) {
    var r := a.re * b.re - a.im * b.im;
    match k
    case Apart => true
    case First => (a.re * b.im * (b.re * b.re + b.re - 1)) % P == (a.im * (b.im * b.im * (b.re + 1) + b.re)) % P
    case Second => a.im == 0 || r % P == b.re
    case Both => a.im == 0 || (r * (r + 1)) % P == (2 * a.re) % P
  }

  method Mul(c: Cell, a: Cell, b: Cell)
    modifies c
    ensures c.Val() == ProductInto(AliasingOf(c, a, b), old(a.Val()), old(b.Val()))
    ensures c != a && c != b ==> c.Val() == CMul(old(a.Val()), old(b.Val()))
  {
    c.re := FpMul(a.re, b.re);
    var tmp := FpMul(a.im, b.im);
    c.re := FpSub(c.re, tmp);
    c.im := FpMul(a.re, b.im);
    tmp := FpMul(a.im, b.re);
    c.im := FpAdd(c.im, tmp);
  }

  lemma TinyValues()
    ensures FpMul(0, 0) == 0 && FpMul(0, 1) == 0 && FpMul(1, 0) == 0 && FpMul(1, 1) == 1
    ensures FpAdd(0, 0) == 0 && FpAdd(0, 1) == 1 && FpAdd(1, 0) == 1 && FpAdd(1, 1) == 2
    ensures FpSub(0, 0) == 0 && FpSub(1, 1) == 0
  {
    Reduced(0);
    Reduced(1);
    Reduced(2);
  }

  /** The imaginary part left behind, as the residue of an integer; r is the unreduced real part. */
  function ImaginaryInto(k: Aliasing, a: Cpx, b: Cpx, r: int): int {
    match k
    case Apart => a.re * b.im + a.im * b.re
    case First => r * b.im + (r * b.im) * b.re
    case Second => a.re * b.im + a.im * r
    case Both => r * a.im + (r * a.im) * r
  }

  lemma ProductIntoReduced(k: Aliasing, a: Cpx, b: Cpx, r: int)
    requires r == a.re * b.re - a.im * b.im
    ensures ProductInto(k, a, b) == Cpx(Reduce(r), Reduce(ImaginaryInto(k, a, b, r)))
  {
    ReducedOperands(a.re * b.re, a.im * b.im);
    Reduced(a.re);
    Reduced(a.im);
    Reduced(b.re);
    Reduced(b.im);
    match k
    case Apart => ReducedOperands(a.re * b.im, a.im * b.re);
    case First =>
      ReducedOperands(r, b.im);
      ReducedOperands(r * b.im, b.re);
      ReducedOperands(r * b.im, (r * b.im) * b.re);
    case Second =>
      ReducedOperands(a.im, r);
      ReducedOperands(a.re * b.im, a.im * r);
    case Both =>
      ReducedOperands(r, a.im);
      ReducedOperands(r * a.im, r);
      ReducedOperands(r * a.im, (r * a.im) * r);
  }

  lemma FirstDifference(a: int, a': int, b: int, b': int, r: int)
    requires r == a * b - a' * b'
    ensures (r * b' + (r * b') * b) - (a * b' + a' * b) == a * b' * (b * b + b - 1) - a' * (b' * b' * (b + 1) + b)
  {
    var x, y := a * b', a' * b';
    assert r * b' == x * b - y * b' by { assert (a * b) * b' == x * b; assert (a' * b') * b' == y * b'; Expand(a * b, y, b'); }
    var u, v := x * b, y * b';
    Expand(u, v, b);
    assert u * b == x * (b * b) && v == a' * (b' * b') && v * b == a' * (b' * b' * b);
    assert x * (b * b + b - 1) == x * (b * b) + x * b - x;
    assert a' * (b' * b' * (b + 1) + b) == a' * (b' * b' * b) + a' * (b' * b') + a' * b by {
      assert b' * b' * (b + 1) == b' * b' * b + b' * b';
      DistributeThree(a', b' * b' * b, b' * b', b);
    }
  }

  lemma DistributeThree(x: int, u: int, v: int, w: int)
    ensures x * (u + v + w) == x * u + x * v + x * w
  {}

  lemma ZeroProductIff(x: int, y: int)
    requires Prime(P)
    ensures Reduce(x * y) == 0 <==> Reduce(x) == 0 || Reduce(y) == 0
  {
    ZeroProductSplits(x, y, x * y);
    if Reduce(x) == 0 || Reduce(y) == 0 {
      ReducedOperands(x, y);
      ZeroTimes(Reduce(x), Reduce(y));
    }
  }

  lemma ZeroProductSplits(x: int, y: int, z: int)
    requires Prime(P) && z == x * y
    ensures Reduce(z) == 0 ==> Reduce(x) == 0 || Reduce(y) == 0
  {
    if z % P == 0 { EuclidLemma(x, y, P); }
  }

  lemma ZeroTimes(x: Fp, y: Fp)
    requires x == 0 || y == 0
    ensures FpMul(x, y) == 0
  {
    assert x * y == 0;
    Small(0, P);
  }

  lemma EqualIffDifference(x: int, y: int)
    ensures Reduce(x) == Reduce(y) <==> Reduce(x - y) == 0
  {
    CongIffDiff(x, y, P);
  }

  /** Exactly when a product comes out right, for every place its output may have. */
  lemma ProductRightIff(k: Aliasing, a: Cpx, b: Cpx)
    requires Prime(P) && (k.Both? ==> a == b)
    ensures ProductInto(k, a, b) == CMul(a, b) <==> ProductComesOut(k, a, b)
  {
    hide ProductInto, CMul, ProductComesOut;
    var r := a.re * b.re - a.im * b.im;
    ProductIntoReduced(k, a, b, r);
    CMulReduced(a, b);
    EqualIffDifference(ImaginaryInto(k, a, b, r), a.re * b.im + a.im * b.re);
    DifferenceVanishesIff(k, a, b, r);
  }

  lemma DifferenceVanishesIff(k: Aliasing, a: Cpx, b: Cpx, r: int)
    requires Prime(P) && (k.Both? ==> a == b) && r == a.re * b.re - a.im * b.im
    ensures Reduce(ImaginaryInto(k, a, b, r) - (a.re * b.im + a.im * b.re)) == 0 <==> ProductComesOut(k, a, b)
  {
    Reduced(a.im);
    Reduced(b.re);
    match k
    case Apart => Reduced(0);
    case First =>
      FirstDifference(a.re, a.im, b.re, b.im, r);
      EqualIffDifference(a.re * b.im * (b.re * b.re + b.re - 1), a.im * (b.im * b.im * (b.re + 1) + b.re));
    case Second =>
      SecondDifference(a.re, a.im, b.re, b.im, r);
      ZeroProductIff(a.im, r - b.re);
      EqualIffDifference(r, b.re);
    case Both =>
      BothDifference(a.re, a.im, r);
      ZeroProductIff(a.im, r * (r + 1) - 2 * a.re);
      EqualIffDifference(r * (r + 1), 2 * a.re);
  }

  lemma SecondDifference(a: int, a': int, b: int, b': int, r: int)
    ensures (a * b' + a' * r) - (a * b' + a' * b) == a' * (r - b)
  {}

  lemma BothDifference(a: int, a': int, r: int)
    ensures (r * a' + (r * a') * r) - (a * a' + a' * a) == a' * (r * (r + 1) - 2 * a)
  {
    assert (r * a') * r == a' * (r * r);
    DistributeThree(a', r * r, r, -2 * a);
    assert r * (r + 1) == r * r + r;
  }

  /** The product is right for all operand values exactly when the output is no operand. */
  lemma ProductRightExactlyApart(k: Aliasing)
    ensures (forall a, b :: (k.Both? ==> a == b) ==> ProductRight(k, a, b)) <==> k.Apart?
  {
    hide ProductRight;
    match k
    case Apart => forall a, b ensures ProductRight(k, a, b) { ApartIsRight(a, b); }
    case First => IntoAnOperand(k);
    case Second => IntoAnOperand(k);
    case Both => SquareOfOnePlusI(k);
  }

  lemma ApartIsRight(a: Cpx, b: Cpx)
    ensures ProductRight(Apart, a, b)
  {}

  /** i times 1 comes out 0 into either operand. */
  lemma IntoAnOperand(k: Aliasing)
    requires k.First? || k.Second?
    ensures !ProductRight(k, Cpx(0, 1), Cpx(1, 0))
  {
    hide FpMul, FpAdd, FpSub;
    TinyValues();
    assert ProductInto(k, Cpx(0, 1), Cpx(1, 0)) == Cpx(0, 0) && CMul(Cpx(0, 1), Cpx(1, 0)) == Cpx(0, 1);
  }

  /** The square of 1 + i comes out 0 into itself. */
  lemma SquareOfOnePlusI(k: Aliasing)
    requires k.Both?
    ensures !ProductRight(k, Cpx(1, 1), Cpx(1, 1))
  {
    hide FpMul, FpAdd, FpSub;
    TinyValues();
    assert ProductInto(k, Cpx(1, 1), Cpx(1, 1)) == Cpx(0, 0) && CMul(Cpx(1, 1), Cpx(1, 1)) == Cpx(0, 2);
  }

  predicate ProductRight(k: Aliasing, a: Cpx, b: Cpx) { ProductInto(k, a, b) == CMul(a, b) }

  method MulInplace(c: Cell, a: Cell)
    modifies c
    ensures c.Val() == CMul(old(c.Val()), old(a.Val()))
  {
    var tmp := new Cell(Cpx(0, 0));
    Mul(tmp, c, a);
    c.Assign(tmp);
  }

  /** The variant with an opened operand keeps the real part back and is right for every output. */
  method MulPlain(c: Cell, a: Cell, b: Cpx)
    modifies c
    ensures c.Val() == CMul(old(a.Val()), b)
  {
    var tmpre := FpMul(a.re, b.re);
    var tmpim := FpMul(a.im, b.im);
    var cre := FpSub(tmpre, tmpim);
    tmpre := FpMul(a.re, b.im);
    tmpim := FpMul(a.im, b.re);
    c.im := FpAdd(tmpre, tmpim);
    c.re := cre;
  }

  /** What squaring leaves in its output, which may be the operand. */
  function SquareInto(same: bool, a: Cpx): Cpx {
    var r := FpSub(FpMul(a.re, a.re), FpMul(a.im, a.im));
    var i := if same then FpMul(r, FpMul(a.im, a.im)) else FpMul(a.re, a.im);
    Cpx(r, FpAdd(i, i))
  }

  method Sqr(aa: Cell, a: Cell)
    modifies aa
    ensures aa.Val() == SquareInto(aa == a, old(a.Val()))
    ensures aa != a ==> aa.Val() == CMul(old(a.Val()), old(a.Val()))
  {
    aa.re := FpMul(a.re, a.re);
    aa.im := FpMul(a.im, a.im);
    aa.re := FpSub(aa.re, aa.im);
    aa.im := FpMul(a.re, a.im);
    assert old(a.re) * old(a.im) == old(a.im) * old(a.re);
    aa.im := FpAdd(aa.im, aa.im);
  }

  /** Squaring into the operand is right exactly for real numbers and when (re^2 - im^2) im = re. */
  lemma SquareRightIff(a: Cpx)
    requires Prime(P)
    ensures SquareInto(false, a) == CMul(a, a)
    ensures SquareInto(true, a) == CMul(a, a) <==>
            a.im == 0 || Reduce((a.re * a.re - a.im * a.im) * a.im) == a.re
  {
    hide SquareInto, CMul, FpMul, Reduce;
    var r := a.re * a.re - a.im * a.im;
    SquareIntoReduced(a, r);
    var i := r * (a.im * a.im);
    CMulReduced(a, a);
    EqualIffDifference(i + i, a.re * a.im + a.im * a.re);
    SquareDifference(a.re, a.im, r);
    ZeroProductIff(2, a.im * (r * a.im - a.re));
    Reduced(2);
    ZeroProductIff(a.im, r * a.im - a.re);
    EqualIffDifference(r * a.im, a.re);
    Reduced(a.re);
    Reduced(a.im);
  }

  lemma SquareIntoReduced(a: Cpx, r: int)
    requires r == a.re * a.re - a.im * a.im
    ensures SquareInto(false, a) == CMul(a, a)
    ensures SquareInto(true, a) == Cpx(Reduce(r), Reduce(r * (a.im * a.im) + r * (a.im * a.im)))
  {
    assert a.re * a.im == a.im * a.re;
    var i := r * (a.im * a.im);
    ReducedOperands(a.re * a.re, a.im * a.im);
    ReducedOperands(r, a.im * a.im);
    ReducedOperands(i, i);
  }

  lemma SquareDifference(a: int, a': int, r: int)
    ensures 2 * (r * (a' * a')) - (a * a' + a' * a) == 2 * (a' * (r * a' - a))
  {
    assert r * (a' * a') == a' * (r * a');
    assert a' * (r * a' - a) == a' * (r * a') - a' * a;
  }

  /** The square is right for all operands exactly when the output is not the operand. */
  lemma SquareRightExactlyApart(same: bool)
    ensures (forall a :: SquareInto(same, a) == CMul(a, a)) <==> !same
  {
    hide SquareInto, CMul;
    SquareOfOnePlusIFails();
    if !same {
      forall a ensures SquareInto(same, a) == CMul(a, a) { SquareIntoReduced(a, a.re * a.re - a.im * a.im); }
    }
  }

  lemma SquareOfOnePlusIFails()
    ensures SquareInto(true, Cpx(1, 1)) == Cpx(0, 0) && CMul(Cpx(1, 1), Cpx(1, 1)) == Cpx(0, 2)
  {
    hide FpMul, FpAdd, FpSub;
    TinyValues();
  }

  method Add(c: Cell, a: Cell, b: Cell)
    modifies c
    ensures c.Val() == CAdd(old(a.Val()), old(b.Val()))
  {
    c.re := FpAdd(a.re, b.re);
    c.im := FpAdd(a.im, b.im);
  }

  method AddInplace(c: Cell, a: Cell)
    modifies c
    ensures c.Val() == CAdd(old(c.Val()), old(a.Val()))
  {
    var tmp := new Cell(Cpx(0, 0));
    Add(tmp, c, a);
    c.Assign(tmp);
  }

  method Sub(c: Cell, a: Cell, b: Cell)
    modifies c
    ensures c.Val() == CSub(old(a.Val()), old(b.Val()))
  {
    c.im := FpSub(a.im, b.im);
    c.re := FpSub(a.re, b.re);
  }

  method SubPlain(c: Cell, a: Cell, b: Cpx)
    modifies c
    ensures c.Val() == CSub(old(a.Val()), b)
  {
    c.im := FpSub(a.im, b.im);
    c.re := FpSub(a.re, b.re);
  }

  method SubInplace(c: Cell, a: Cell)
    modifies c
    ensures c.Val() == CSub(old(c.Val()), old(a.Val()))
  {
    var tmp := new Cell(Cpx(0, 0));
    Sub(tmp, c, a);
    c.Assign(tmp);
  }

  /** Inversion through the norm, whose own inversion opens it times the random mask r; the operand
      is passed by value. */
  method Inv(ia: Cell, a: Cpx, r: Fp) returns (ok: bool)
    requires Prime(P)
    modifies ia
    ensures ok <==> Norm(a) != 0 && r != 0
    ensures ok ==> ia.Val() == CInv(a)
    ensures ok && P % 4 == 3 ==> CMul(a, ia.Val()) == Cpx(1, 0)
  {
    ia.re := FpMul(a.re, a.re);
    ia.im := FpMul(a.im, a.im);
    ia.re := FpAdd(ia.re, ia.im);
    var n := ia.re;
    var rr;
    ok, rr := InvMasked(n, r);
    if !ok {
      return;
    }
    ia.re := FpMul(a.re, rr);
    rr := FpMul(rr, Reduce(-1));
    ia.im := FpMul(a.im, rr);
    if P % 4 == 3 && a != Cpx(0, 0) { CInverse(a); }
    if a == Cpx(0, 0) { Small(0, P); }
  }

  /** The quotient through the inverse, in place; r is the mask of the inversion. */
  method DivInplace(c: Cell, a: Cell, r: Fp) returns (ok: bool)
    requires Prime(P)
    modifies c
    ensures ok <==> Norm(old(a.Val())) != 0 && r != 0
    ensures c.Val() == if ok then CMul(old(c.Val()), CInv(old(a.Val()))) else old(c.Val())
  {
    var tmp := new Cell(Cpx(0, 0));
    ok := Inv(tmp, Cpx(a.re, a.im), r);
    if ok {
      MulInplace(tmp, c);
      CMulComm(tmp.Val(), c.Val());
      c.Assign(tmp);
    }
  }

  /** The inverse of n from the opened product r n. */
  method InvMasked(n: Fp, r: Fp) returns (ok: bool, ia: Fp)
    requires Prime(P)
    ensures ok <==> n != 0 && r != 0
    ensures ok ==> ia == FpInv(n)
  {
    var ra := FpMul(r, n);
    Small(r, P);
    Small(n, P);
    if n == 0 || r == 0 { Small(0, P); } else { Arith.NonzeroProduct(r, n, P); }
    if ra == 0 {
      return false, 0;
    }
    var ira := FpInv(ra);
    ia := FpMul(r, ira);
    ok := true;
    PrimeFieldIsField();
    var f := PrimeField();
    assert At(ra, ra, ra) && At(n, n, n);
    // n (r ira) = 1 = n n^-1
    Field.MulAssoc(f, n, r, ira);
    Field.MulComm(f, n, r);
    Field.MulComm(f, n, ia);
    Field.MulComm(f, n, FpInv(n));
    Field.MulCancel(f, ia, FpInv(n), n);
  }
}
