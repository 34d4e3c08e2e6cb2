/** The formulas of point addition in affine, Jacobian and projective coordinates, over any field and
    on values.  The assignments that compute them are in PointOps for the prime field and in G2Ops for
    its quadratic extension. */
module Curve {
  import opened Field

  datatype Affine<F> = Affine(x: F, y: F)
  datatype Triple<F> = Triple(X: F, Y: F, Z: F)

  function Sq<F(!new)>(f: Fld<F>, x: F): F { f.mul(x, x) }

  function Cube<F(!new)>(f: Fld<F>, x: F): F { f.mul(Sq(f, x), x) }

  // ----- the chord sum of two affine points

  function Slope<F(!new)>(f: Fld<F>, p: Affine<F>, q: Affine<F>): F {
    f.mul(f.sub(p.y, q.y), f.inv(f.sub(p.x, q.x)))
  }

  /** The third intersection of the line through p and q with the curve, reflected. */
  function Chord<F(!new)>(f: Fld<F>, p: Affine<F>, q: Affine<F>): Affine<F> {
    var m := Slope(f, p, q);
    var x3 := f.sub(f.sub(Sq(f, m), p.x), q.x);
    Affine(x3, f.sub(f.mul(f.sub(p.x, x3), m), p.y))
  }

  /** What the affine addition leaves in its output.  Into the first operand, the difference of the old
      and the new x-coordinate is taken after the new one has been written, and y comes out 0. */
  function ChordInto<F(!new)>(f: Fld<F>, first: bool, p: Affine<F>, q: Affine<F>): Affine<F> {
    var r := Chord(f, p, q);
    if first then Affine(r.x, f.zero) else r
  }

  /** The affine addition is right for all operands exactly when its output is not the first one. */
  lemma ChordRightExactlyApart<F(!new)>(f: Fld<F>, first: bool)
    requires IsField(f)
    ensures (forall p: Affine<F>, q: Affine<F> :: p.x != q.x ==> ChordInto(f, first, p, q) == Chord(f, p, q)) <==> !first
  {
    var p, q := Affine(f.zero, f.one), Affine(f.one, f.one);
    HorizontalChord(f, p, q);
    if first { assert ChordInto(f, first, p, q) != Chord(f, p, q); }
  }

  /** The chord sum of two points with the same y is not on the axis unless y = 0. */
  lemma HorizontalChord<F(!new)>(f: Fld<F>, p: Affine<F>, q: Affine<F>)
    requires IsField(f) && p.x != q.x && p.y == q.y && p.y != f.zero
    ensures Chord(f, p, q).y != f.zero
  {
    var m, r := Slope(f, p, q), Chord(f, p, q);
    SubSelf(f, p.y);
    MulZero(f, f.inv(f.sub(p.x, q.x)));
    MulZero(f, f.sub(p.x, r.x));
    SubZeroIff(f, f.zero, p.y);
  }

  /** y^2 = x^3 + b */
  ghost predicate OnCurve<F(!new)>(f: Fld<F>, b: F, p: Affine<F>) {
    Sq(f, p.y) == f.add(Cube(f, p.x), b)
  }

  // ----- identities

  lemma SubChain<F(!new)>(f: Fld<F>, x: F, y: F, z: F)
    requires IsField(f)
    ensures f.add(f.sub(x, y), f.sub(y, z)) == f.sub(x, z)
  {
    var s := f.add(f.sub(x, y), f.sub(y, z));
    AddAssoc(f, f.sub(x, y), f.sub(y, z), z);
    SubAdd(f, y, z);
    SubAdd(f, x, y);
    SubIs(f, x, z, s);
  }

  lemma MulLeftSwap<F(!new)>(f: Fld<F>, x: F, y: F, z: F)
    requires IsField(f)
    ensures f.mul(x, f.mul(y, z)) == f.mul(y, f.mul(x, z))
  {
    MulAssoc(f, x, y, z);
    MulComm(f, x, y);
    MulAssoc(f, y, x, z);
  }

  /** a^2 - b^2 = (a - b)(a + b) */
  lemma DiffSquares<F(!new)>(f: Fld<F>, a: F, b: F)
    requires IsField(f)
    ensures f.sub(Sq(f, a), Sq(f, b)) == f.mul(f.sub(a, b), f.add(a, b))
  {
    Distribute(f, f.sub(a, b), a, b);
    DistributeSub(f, a, a, b);
    DistributeSub(f, b, a, b);
    MulComm(f, a, b);
    SubChain(f, Sq(f, a), f.mul(a, b), Sq(f, b));
  }

  function Quad<F(!new)>(f: Fld<F>, a: F, b: F): F {
    f.add(f.add(Sq(f, a), f.mul(a, b)), Sq(f, b))
  }

  /** a^3 - b^3 = (a - b)(a^2 + a b + b^2) */
  lemma DiffCubes<F(!new)>(f: Fld<F>, a: F, b: F)
    requires IsField(f)
    ensures f.sub(Cube(f, a), Cube(f, b)) == f.mul(f.sub(a, b), Quad(f, a, b))
  {
    var d, aa, ab, bb := f.sub(a, b), Sq(f, a), f.mul(a, b), Sq(f, b);
    var aab, abb := f.mul(aa, b), f.mul(ab, b);
    Distribute(f, d, f.add(aa, ab), bb);
    Distribute(f, d, aa, ab);
    DistributeSub(f, aa, a, b);
    MulComm(f, a, aa);
    MulComm(f, b, aa);
    DistributeSub(f, ab, a, b);
    MulComm(f, a, ab);
    MulComm(f, b, ab);
    MulAssoc(f, a, a, b);
    DistributeSub(f, bb, a, b);
    MulAssoc(f, a, b, b);
    MulComm(f, b, bb);
    SubChain(f, Cube(f, a), aab, abb);
    SubChain(f, Cube(f, a), abb, Cube(f, b));
  }

  /** Numbers that differ only in sign have one square. */
  lemma SquareOfNegative<F(!new)>(f: Fld<F>, x: F, y: F)
    requires IsField(f) && f.add(x, y) == f.zero
    ensures Sq(f, x) == Sq(f, y)
  {
    Distribute(f, x, x, y);
    Distribute(f, y, x, y);
    MulComm(f, x, y);
    MulZero(f, x);
    MulZero(f, y);
    AddComm(f, f.mul(x, y), Sq(f, y));
    AddCancel(f, Sq(f, x), Sq(f, y), f.mul(x, y));
  }

  // ----- the chord sum stays on the curve

  /** For a point on the line of slope m through (x1, y1) on the curve, lying on the curve is the
      vanishing of (x - x1) times the second factor. */
  lemma LineMeetsCurve<F(!new)>(f: Fld<F>, b: F, x1: F, y1: F, m: F, x: F, l: F)
    requires IsField(f) && OnCurve(f, b, Affine(x1, y1))
    requires f.sub(l, y1) == f.mul(m, f.sub(x, x1))
    ensures OnCurve(f, b, Affine(x, l)) <==>
            f.mul(f.mul(m, f.add(l, y1)), f.sub(x, x1)) == f.mul(Quad(f, x, x1), f.sub(x, x1))
  {
    var d := f.sub(x, x1);
    DiffSquares(f, l, y1);
    DiffCubes(f, x, x1);
    MulSwap(f, m, d, f.add(l, y1));
    MulComm(f, d, Quad(f, x, x1));
    var left, right := f.sub(Sq(f, l), Sq(f, y1)), f.sub(Cube(f, x), Cube(f, x1));
    // l^2 = left + (x1^3 + b) and x^3 + b = right + (x1^3 + b)
    SubAdd(f, Sq(f, l), Sq(f, y1));
    SubAdd(f, Cube(f, x), Cube(f, x1));
    AddAssoc(f, right, Cube(f, x1), b);
    if OnCurve(f, b, Affine(x, l)) { AddCancel(f, left, right, f.add(Cube(f, x1), b)); }
  }

  /** Moving along the line by d changes both factors alike, once x + x2 + x1 = m^2. */
  lemma FactorsMoveTogether<F(!new)>(f: Fld<F>, x1: F, y1: F, m: F, x2: F, y2: F, x3: F, l3: F)
    requires IsField(f)
    requires f.sub(l3, y2) == f.mul(m, f.sub(x3, x2))
    requires f.mul(m, f.add(y2, y1)) == Quad(f, x2, x1)
    requires f.add(f.add(x3, x2), x1) == Sq(f, m)
    ensures f.mul(m, f.add(l3, y1)) == Quad(f, x3, x1)
  {
    var d := f.sub(x3, x2);
    // m (l3 + y1) = m^2 d + m (y2 + y1)
    SubAdd(f, l3, y2);
    AddAssoc(f, f.mul(m, d), y2, y1);
    Distribute(f, m, f.mul(m, d), f.add(y2, y1));
    MulAssoc(f, m, m, d);
    // x3^2 + x3 x1 = m^2 d + (x2^2 + x2 x1)
    QuadMoves(f, x3, x2, x1, d);
    MulComm(f, Sq(f, m), d);
    AddAssoc(f, f.mul(d, Sq(f, m)), f.add(Sq(f, x2), f.mul(x2, x1)), Sq(f, x1));
  }

  lemma QuadMoves<F(!new)>(f: Fld<F>, x3: F, x2: F, x1: F, d: F)
    requires IsField(f) && d == f.sub(x3, x2)
    ensures f.add(Sq(f, x3), f.mul(x3, x1))
         == f.add(f.mul(d, f.add(f.add(x3, x2), x1)), f.add(Sq(f, x2), f.mul(x2, x1)))
  {
    var s := f.add(x3, x2);
    DiffSquares(f, x3, x2);
    SubAdd(f, Sq(f, x3), Sq(f, x2));
    SubAdd(f, x3, x2);
    Distribute(f, x1, d, x2);
    Distribute(f, d, s, x1);
    // (ds + x2^2) + (dx1 + x2x1) = (ds + dx1) + (x2^2 + x2x1)
    AddInterchange(f, f.mul(d, s), Sq(f, x2), f.mul(d, x1), f.mul(x2, x1));
  }

  lemma AddInterchange<F(!new)>(f: Fld<F>, x: F, y: F, u: F, v: F)
    requires IsField(f)
    ensures f.add(f.add(x, y), f.add(u, v)) == f.add(f.add(x, u), f.add(y, v))
  {
    AddAssoc(f, f.add(x, y), u, v);
    AddSwap(f, x, y, u);
    AddAssoc(f, f.add(x, u), y, v);
  }

  /** -(x - y) = y - x, as products with m */
  lemma OppositeProducts<F(!new)>(f: Fld<F>, x: F, y: F, m: F)
    requires IsField(f)
    ensures f.add(f.mul(f.sub(x, y), m), f.mul(m, f.sub(y, x))) == f.zero
  {
    MulComm(f, f.sub(x, y), m);
    Distribute(f, m, f.sub(x, y), f.sub(y, x));
    SubChain(f, x, y, x);
    SubSelf(f, x);
    MulZero(f, m);
  }

  /** The chord sum of two points of the curve with different x is a point of the curve. */
  lemma ChordOnCurve<F(!new)>(f: Fld<F>, b: F, p: Affine<F>, q: Affine<F>)
    requires IsField(f) && OnCurve(f, b, p) && OnCurve(f, b, q) && p.x != q.x
    ensures OnCurve(f, b, Chord(f, p, q))
  {
    var m, r := Slope(f, p, q), Chord(f, p, q);
    SubZeroIff(f, p.x, q.x);
    DivMul(f, f.sub(p.y, q.y), f.sub(p.x, q.x));
    SecondPointOnLine(f, p, q, m);
    // the second point makes the second factor vanish
    LineMeetsCurve(f, b, p.x, p.y, m, q.x, q.y);
    SubZeroIff(f, q.x, p.x);
    MulCancel(f, f.mul(m, f.add(q.y, p.y)), Quad(f, q.x, p.x), f.sub(q.x, p.x));
    // the third point
    var l3 := f.add(f.mul(m, f.sub(r.x, p.x)), p.y);
    SubIs(f, l3, p.y, f.mul(m, f.sub(r.x, p.x)));
    ThirdFromSecond(f, p, q, m, r.x, l3);
    SumOfRoots(f, m, p.x, q.x, r.x);
    FactorsMoveTogether(f, p.x, p.y, m, q.x, q.y, r.x, l3);
    LineMeetsCurve(f, b, p.x, p.y, m, r.x, l3);
    NegatedOrdinate(f, p, m, r.x, r.y, l3);
    SquareOfNegative(f, r.y, l3);
  }

  /** The two points and the reflected chord sum lie on one line, and the x-coordinates add up to the square
      of its slope; stated without a quotient. */
  lemma ChordOnLine<F(!new)>(f: Fld<F>, p: Affine<F>, q: Affine<F>)
    requires IsField(f) && p.x != q.x
    ensures var r := Chord(f, p, q);
            && f.mul(f.sub(f.sub(f.zero, r.y), p.y), f.sub(q.x, p.x)) == f.mul(f.sub(q.y, p.y), f.sub(r.x, p.x))
            && f.mul(f.add(f.add(r.x, q.x), p.x), Sq(f, f.sub(q.x, p.x))) == Sq(f, f.sub(q.y, p.y))
  {
    var m, r, d := Slope(f, p, q), Chord(f, p, q), f.sub(q.x, p.x);
    SubZeroIff(f, p.x, q.x);
    DivMul(f, f.sub(p.y, q.y), f.sub(p.x, q.x));
    SecondPointOnLine(f, p, q, m);
    var rise := f.mul(m, f.sub(r.x, p.x));
    var l3 := f.add(rise, p.y);
    NegatedOrdinate(f, p, m, r.x, r.y, l3);
    AddComm(f, r.y, l3);
    SubIs(f, f.zero, r.y, l3);
    SubIs(f, l3, p.y, rise);
    MulSwap(f, m, f.sub(r.x, p.x), d);
    SumOfRoots(f, m, p.x, q.x, r.x);
    MulInterchange(f, m, m, d, d);
  }

  /** For points of one curve, the affine addition into the first operand is wrong, and leaves the curve,
      unless the y-coordinate of the sum is 0. */
  lemma IntoFirstLeavesCurve<F(!new)>(f: Fld<F>, b: F, p: Affine<F>, q: Affine<F>)
    requires IsField(f) && OnCurve(f, b, p) && OnCurve(f, b, q) && p.x != q.x
    ensures ChordInto(f, true, p, q) == Chord(f, p, q) <==> Chord(f, p, q).y == f.zero
    ensures OnCurve(f, b, ChordInto(f, true, p, q)) <==> Chord(f, p, q).y == f.zero
  {
    var y := Chord(f, p, q).y;
    ChordOnCurve(f, b, p, q);
    MulZero(f, f.zero);
    if Sq(f, y) == f.zero && y != f.zero { Field.NonzeroProduct(f, y, y); }
  }

  /** (0, 1) and (-1, 0) on y^2 = x^3 + 1: the y-coordinate of the sum is -3. */
  lemma WrongOnOneCurve<F(!new)>(f: Fld<F>)
    requires IsField(f)
    ensures var p, q := Affine(f.zero, f.one), Affine(f.sub(f.zero, f.one), f.zero);
            && OnCurve(f, f.one, p) && OnCurve(f, f.one, q) && p.x != q.x
            && (ChordInto(f, true, p, q) == Chord(f, p, q) <==> f.add(f.add(f.one, f.one), f.one) == f.zero)
  {
    var zero, one, n := f.zero, f.one, f.sub(f.zero, f.one);
    var p, q := Affine(zero, one), Affine(n, zero);
    MulOne(f, one);
    MulZero(f, zero);
    AddZero(f, one);
    MinusOneSquared(f);
    MulOne(f, n);
    SubAdd(f, zero, one);
    AddComm(f, n, one);
    SubIs(f, zero, n, one);
    assert At(one, one, one);
    MulOne(f, f.inv(one));
    assert Slope(f, p, q) == one by { SubSelf(f, one); }
    // x = 1 - 0 - (-1) = 2 and y = (0 - 2) - 1
    var two := f.add(one, one);
    SubSelf(f, one);
    SubIs(f, one, n, two);
    AddAssoc(f, one, one, n);
    MulOne(f, f.sub(zero, two));
    assert Chord(f, p, q) == Affine(two, f.sub(f.sub(zero, two), one));
    SubZeroIff(f, f.sub(zero, two), one);
    SubIs(f, zero, two, one);
    AddComm(f, one, two);
    IntoFirstLeavesCurve(f, one, p, q);
  }

  lemma MinusOneSquared<F(!new)>(f: Fld<F>)
    requires IsField(f)
    ensures var n := f.sub(f.zero, f.one); f.mul(n, n) == f.one && n != f.zero
  {
    var n := f.sub(f.zero, f.one);
    SubZeroIff(f, f.zero, f.one);
    DistributeSub(f, n, f.zero, f.one);
    MulZero(f, n);
    MulOne(f, n);
    // 0 - (0 - 1) = 1
    SubAdd(f, f.zero, f.one);
    AddComm(f, n, f.one);
    SubIs(f, f.zero, n, f.one);
  }

  lemma SecondPointOnLine<F(!new)>(f: Fld<F>, p: Affine<F>, q: Affine<F>, m: F)
    requires IsField(f) && f.mul(m, f.sub(p.x, q.x)) == f.sub(p.y, q.y)
    ensures f.sub(q.y, p.y) == f.mul(m, f.sub(q.x, p.x))
  {
    var u, v := f.sub(p.x, q.x), f.sub(q.x, p.x);
    OppositeProducts(f, p.x, q.x, m);
    MulComm(f, u, m);
    SubChain(f, p.y, q.y, p.y);
    SubSelf(f, p.y);
    AddComm(f, f.sub(p.y, q.y), f.sub(q.y, p.y));
    AddComm(f, f.mul(m, u), f.mul(m, v));
    AddCancel(f, f.sub(q.y, p.y), f.mul(m, v), f.sub(p.y, q.y));
  }

  lemma ThirdFromSecond<F(!new)>(f: Fld<F>, p: Affine<F>, q: Affine<F>, m: F, x3: F, l3: F)
    requires IsField(f) && f.sub(q.y, p.y) == f.mul(m, f.sub(q.x, p.x))
    requires f.sub(l3, p.y) == f.mul(m, f.sub(x3, p.x))
    ensures f.sub(l3, q.y) == f.mul(m, f.sub(x3, q.x))
  {
    SubChain(f, x3, q.x, p.x);
    Distribute(f, m, f.sub(x3, q.x), f.sub(q.x, p.x));
    SubChain(f, l3, q.y, p.y);
    AddCancel(f, f.sub(l3, q.y), f.mul(m, f.sub(x3, q.x)), f.sub(q.y, p.y));
  }

  lemma SumOfRoots<F(!new)>(f: Fld<F>, m: F, x1: F, x2: F, x3: F)
    requires IsField(f) && x3 == f.sub(f.sub(Sq(f, m), x1), x2)
    ensures f.add(f.add(x3, x2), x1) == Sq(f, m)
  {
    SubAdd(f, f.sub(Sq(f, m), x1), x2);
    SubAdd(f, Sq(f, m), x1);
  }

  lemma NegatedOrdinate<F(!new)>(f: Fld<F>, p: Affine<F>, m: F, x3: F, y3: F, l3: F)
    requires IsField(f) && y3 == f.sub(f.mul(f.sub(p.x, x3), m), p.y)
    requires l3 == f.add(f.mul(m, f.sub(x3, p.x)), p.y)
    ensures f.add(y3, l3) == f.zero
  {
    var u, v := f.mul(f.sub(p.x, x3), m), f.mul(m, f.sub(x3, p.x));
    AddComm(f, v, p.y);
    AddAssoc(f, y3, p.y, v);
    SubAdd(f, u, p.y);
    OppositeProducts(f, p.x, x3, m);
  }

  // ----- Jacobian coordinates

  /** (X, Y, Z) stands for (X / Z^2, Y / Z^3). */
  ghost predicate Jacobian<F(!new)>(f: Fld<F>, a: Triple<F>, p: Affine<F>) {
    a.Z != f.zero && a.X == f.mul(p.x, Sq(f, a.Z)) && a.Y == f.mul(p.y, Cube(f, a.Z))
  }

  /** What a sum in Jacobian coordinates must be: the chord sum for points with different x, and the
      point at infinity otherwise. */
  ghost predicate JacobianSum<F(!new)>(f: Fld<F>, a: Triple<F>, b: Triple<F>, c: Triple<F>) {
    forall p, q :: Jacobian(f, a, p) && Jacobian(f, b, q) ==>
      if p.x == q.x then c.Z == f.zero else Jacobian(f, c, Chord(f, p, q))
  }

  lemma SquareOfProduct<F(!new)>(f: Fld<F>, x: F, y: F)
    requires IsField(f)
    ensures Sq(f, f.mul(x, y)) == f.mul(Sq(f, x), Sq(f, y))
  {
    MulInterchange(f, x, y, x, y);
  }

  lemma CubeOfProduct<F(!new)>(f: Fld<F>, x: F, y: F)
    requires IsField(f)
    ensures Cube(f, f.mul(x, y)) == f.mul(Cube(f, x), Cube(f, y))
  {
    SquareOfProduct(f, x, y);
    MulInterchange(f, Sq(f, x), Sq(f, y), x, y);
  }

  /** X1 Z2^2 = x1 (Z1 Z2)^2 and Y1 Z2^3 = y1 (Z1 Z2)^3 */
  lemma CommonDenominator<F(!new)>(f: Fld<F>, a: Triple<F>, p: Affine<F>, z2: F)
    requires IsField(f) && Jacobian(f, a, p)
    ensures f.mul(a.X, Sq(f, z2)) == f.mul(p.x, Sq(f, f.mul(a.Z, z2)))
    ensures f.mul(f.mul(Sq(f, z2), a.Y), z2) == f.mul(p.y, Cube(f, f.mul(a.Z, z2)))
  {
    SquareOfProduct(f, a.Z, z2);
    MulAssoc(f, p.x, Sq(f, a.Z), Sq(f, z2));
    CubeOfProduct(f, a.Z, z2);
    MulSwap(f, Sq(f, z2), a.Y, z2);
    MulComm(f, Cube(f, z2), a.Y);
    MulAssoc(f, p.y, Cube(f, a.Z), Cube(f, z2));
  }

  /** The part of the formulas that both coordinate systems share: with V = x1 W and G = x1 W - x2 W,
      the combination R^2 + G - 2V is x3 W. */
  lemma AbscissaScaled<F(!new)>(f: Fld<F>, p: Affine<F>, q: Affine<F>, m: F, w: F)
    requires IsField(f)
    ensures var v, g := f.mul(p.x, w), f.sub(f.mul(p.x, w), f.mul(q.x, w));
            (f.sub(f.sub(f.add(f.mul(Sq(f, m), w), g), v), v)
             == f.mul(f.sub(f.sub(Sq(f, m), p.x), q.x), w))
  {
    AddSubSub(f, f.mul(Sq(f, m), w), f.mul(p.x, w), f.mul(q.x, w));
    DistributeSub(f, w, f.sub(Sq(f, m), p.x), q.x);
    DistributeSub(f, w, Sq(f, m), p.x);
  }

  /** (x1 W - x3 W)(m k) - y1 (W k) = y3 (W k) */
  lemma OrdinateScaled<F(!new)>(f: Fld<F>, x1: F, x3: F, y1: F, m: F, w: F, k: F)
    requires IsField(f)
    ensures f.sub(f.mul(f.sub(f.mul(x1, w), f.mul(x3, w)), f.mul(m, k)), f.mul(y1, f.mul(w, k)))
         == f.mul(f.sub(f.mul(f.sub(x1, x3), m), y1), f.mul(w, k))
  {
    DistributeSub(f, w, x1, x3);
    MulInterchange(f, f.sub(x1, x3), w, m, k);
    DistributeSub(f, f.mul(w, k), f.mul(f.sub(x1, x3), m), y1);
  }

  /** The formulas on coordinates with a common denominator z = Z1 Z2. */
  lemma JacobianFormula<F(!new)>(f: Fld<F>, p: Affine<F>, q: Affine<F>, z: F, c: Triple<F>)
    requires IsField(f) && z != f.zero
    requires var u1, u2 := f.mul(p.x, Sq(f, z)), f.mul(q.x, Sq(f, z));
             var s1, s2 := f.mul(p.y, Cube(f, z)), f.mul(q.y, Cube(f, z));
             c == FromParts(f, u1, u2, s1, s2, z)
    ensures if p.x == q.x then c.Z == f.zero else Jacobian(f, c, Chord(f, p, q))
  {
    var s := Sq(f, z);
    var dx, dy, m := f.sub(p.x, q.x), f.sub(p.y, q.y), Slope(f, p, q);
    var h := f.sub(f.mul(p.x, s), f.mul(q.x, s));
    DistributeSub(f, s, p.x, q.x);
    assert h == f.mul(dx, s);
    SubZeroIff(f, p.x, q.x);
    if p.x == q.x {
      MulZero(f, s);
      MulZero(f, z);
    } else {
      Field.NonzeroProduct(f, z, z);
      Field.NonzeroProduct(f, dx, s);
      Field.NonzeroProduct(f, z, h);
      var w := f.mul(z, h);
      JacobianSlope(f, p, q, z, h, w, m);
      JacobianX(f, p, q, z, h, w, m);
      JacobianY(f, p, q, z, h, w, m);
    }
  }

  /** The final assignments of the addition from U1, U2, S1, S2 and Z1 Z2. */
  function FromParts<F(!new)>(f: Fld<F>, u1: F, u2: F, s1: F, s2: F, z: F): Triple<F> {
    var r, h := f.sub(s1, s2), f.sub(u1, u2);
    var hh := Sq(f, h);
    var g, v := f.mul(hh, h), f.mul(hh, u1);
    var x := f.sub(f.sub(f.add(Sq(f, r), g), v), v);
    Triple(x, f.sub(f.mul(f.sub(v, x), r), f.mul(s1, g)), f.mul(z, h))
  }

  /** R = m w */
  lemma JacobianSlope<F(!new)>(f: Fld<F>, p: Affine<F>, q: Affine<F>, z: F, h: F, w: F, m: F)
    requires IsField(f) && p.x != q.x && m == Slope(f, p, q)
    requires h == f.mul(f.sub(p.x, q.x), Sq(f, z)) && w == f.mul(z, h)
    ensures f.sub(f.mul(p.y, Cube(f, z)), f.mul(q.y, Cube(f, z))) == f.mul(m, w)
  {
    var dx, dy, s := f.sub(p.x, q.x), f.sub(p.y, q.y), Sq(f, z);
    SubZeroIff(f, p.x, q.x);
    DistributeSub(f, Cube(f, z), p.y, q.y);
    DivMul(f, dy, dx);
    MulAssoc(f, m, dx, Cube(f, z));
    MulAssoc(f, dx, s, z);
    MulComm(f, h, z);
  }

  /** V = x1 w^2 and G = x1 w^2 - x2 w^2 */
  lemma JacobianVG<F(!new)>(f: Fld<F>, p: Affine<F>, q: Affine<F>, z: F, h: F, w: F)
    requires IsField(f) && w == f.mul(z, h)
    requires h == f.sub(f.mul(p.x, Sq(f, z)), f.mul(q.x, Sq(f, z)))
    ensures f.mul(Sq(f, h), f.mul(p.x, Sq(f, z))) == f.mul(p.x, Sq(f, w))
    ensures f.mul(Sq(f, h), h) == f.sub(f.mul(p.x, Sq(f, w)), f.mul(q.x, Sq(f, w)))
  {
    var s, hh := Sq(f, z), Sq(f, h);
    SquareOfProduct(f, z, h);
    MulComm(f, s, hh);
    MulLeftSwap(f, hh, p.x, s);
    MulLeftSwap(f, hh, q.x, s);
    DistributeSub(f, hh, f.mul(p.x, s), f.mul(q.x, s));
  }

  lemma JacobianX<F(!new)>(f: Fld<F>, p: Affine<F>, q: Affine<F>, z: F, h: F, w: F, m: F)
    requires IsField(f) && w == f.mul(z, h)
    requires h == f.sub(f.mul(p.x, Sq(f, z)), f.mul(q.x, Sq(f, z)))
    ensures var v := f.mul(Sq(f, h), f.mul(p.x, Sq(f, z)));
            (f.sub(f.sub(f.add(Sq(f, f.mul(m, w)), f.mul(Sq(f, h), h)), v), v)
             == f.mul(f.sub(f.sub(Sq(f, m), p.x), q.x), Sq(f, w)))
  {
    JacobianVG(f, p, q, z, h, w);
    SquareOfProduct(f, m, w);
    AbscissaScaled(f, p, q, m, Sq(f, w));
  }

  lemma JacobianY<F(!new)>(f: Fld<F>, p: Affine<F>, q: Affine<F>, z: F, h: F, w: F, m: F)
    requires IsField(f) && w == f.mul(z, h)
    requires h == f.sub(f.mul(p.x, Sq(f, z)), f.mul(q.x, Sq(f, z)))
    ensures var v, x3 := f.mul(Sq(f, h), f.mul(p.x, Sq(f, z))), f.sub(f.sub(Sq(f, m), p.x), q.x);
            (f.sub(f.mul(f.sub(v, f.mul(x3, Sq(f, w))), f.mul(m, w)),
                  f.mul(f.mul(p.y, Cube(f, z)), f.mul(Sq(f, h), h)))
             == f.mul(f.sub(f.mul(f.sub(p.x, x3), m), p.y), Cube(f, w)))
  {
    var x3 := f.sub(f.sub(Sq(f, m), p.x), q.x);
    JacobianVG(f, p, q, z, h, w);
    CubeOfProduct(f, z, h);
    MulAssoc(f, p.y, Cube(f, z), Cube(f, h));
    OrdinateScaled(f, p.x, x3, p.y, m, Sq(f, w), w);
  }

  /** The whole Jacobian addition on values. */
  function JacobianResult<F(!new)>(f: Fld<F>, a: Triple<F>, b: Triple<F>): Triple<F> {
    FromParts(f, f.mul(a.X, Sq(f, b.Z)), f.mul(b.X, Sq(f, a.Z)),
              f.mul(f.mul(Sq(f, b.Z), a.Y), b.Z), f.mul(f.mul(Sq(f, a.Z), b.Y), a.Z), f.mul(a.Z, b.Z))
  }

  /** It represents the chord sum of the points its operands represent. */
  lemma JacobianResultIsSum<F(!new)>(f: Fld<F>, a: Triple<F>, b: Triple<F>)
    requires IsField(f)
    ensures JacobianSum(f, a, b, JacobianResult(f, a, b))
  {
    forall p, q | Jacobian(f, a, p) && Jacobian(f, b, q)
      ensures var c := JacobianResult(f, a, b);
              if p.x == q.x then c.Z == f.zero else Jacobian(f, c, Chord(f, p, q))
    {
      CommonDenominator(f, a, p, b.Z);
      CommonDenominator(f, b, q, a.Z);
      MulComm(f, a.Z, b.Z);
      Field.NonzeroProduct(f, a.Z, b.Z);
      JacobianFormula(f, p, q, f.mul(a.Z, b.Z), JacobianResult(f, a, b));
    }
  }

  /** A triple that is the sum stands for the chord sum of the operands' points and for no other point. */
  lemma JacobianSumStandsFor<F(!new)>(f: Fld<F>, a: Triple<F>, b: Triple<F>, c: Triple<F>, p: Affine<F>, q: Affine<F>)
    requires IsField(f) && JacobianSum(f, a, b, c) && Jacobian(f, a, p) && Jacobian(f, b, q)
    ensures p.x == q.x ==> c.Z == f.zero
    ensures p.x != q.x ==> forall r :: Jacobian(f, c, r) <==> r == Chord(f, p, q)
  {
    if p.x != q.x {
      var s := Chord(f, p, q);
      PowersZeroIff(f, c.Z);
      forall r | Jacobian(f, c, r) ensures r == s {
        MulCancel(f, r.x, s.x, Sq(f, c.Z));
        MulCancel(f, r.y, s.y, Cube(f, c.Z));
      }
    }
  }

  /** With Z = m h, and n h in its place: whether (X, Y, n h) still stands for the same point. */
  predicate ZComesOut<F(!new, ==)>(f: Fld<F>, x: F, y: F, m: F, n: F) {
    && n != f.zero
    && (x == f.zero || Sq(f, n) == Sq(f, m))
    && (y == f.zero || Cube(f, n) == Cube(f, m))
  }

  lemma MulEqualIff<F(!new)>(f: Fld<F>, x: F, u: F, v: F)
    requires IsField(f)
    ensures f.mul(x, u) == f.mul(x, v) <==> x == f.zero || u == v
    ensures f.mul(u, x) == f.mul(v, x) <==> x == f.zero || u == v
  {
    MulComm(f, x, u);
    MulComm(f, x, v);
    MulZero(f, u);
    MulZero(f, v);
    if x != f.zero && f.mul(u, x) == f.mul(v, x) { MulCancel(f, u, v, x); }
  }

  lemma ProductZeroIff<F(!new)>(f: Fld<F>, x: F, y: F)
    requires IsField(f)
    ensures f.mul(x, y) == f.zero <==> x == f.zero || y == f.zero
  {
    MulZero(f, x);
    MulZero(f, y);
    if x != f.zero && y != f.zero { Field.NonzeroProduct(f, x, y); }
  }

  lemma OtherZ<F(!new)>(f: Fld<F>, r: Affine<F>, j: Triple<F>, m: F, n: F, h: F)
    requires IsField(f) && Jacobian(f, j, r) && j.Z == f.mul(m, h)
    ensures Jacobian(f, Triple(j.X, j.Y, f.mul(n, h)), r) <==> ZComesOut(f, j.X, j.Y, m, n)
  {
    var z := f.mul(n, h);
    ProductZeroIff(f, m, h);
    ProductZeroIff(f, n, h);
    PowersZeroIff(f, h);
    PowersZeroIff(f, j.Z);
    SquareOfProduct(f, m, h);
    SquareOfProduct(f, n, h);
    CubeOfProduct(f, m, h);
    CubeOfProduct(f, n, h);
    MulEqualIff(f, Sq(f, h), Sq(f, m), Sq(f, n));
    MulEqualIff(f, Cube(f, h), Cube(f, m), Cube(f, n));
    MulEqualIff(f, r.x, Sq(f, j.Z), Sq(f, z));
    MulEqualIff(f, r.y, Cube(f, j.Z), Cube(f, z));
    ProductZeroIff(f, r.x, Sq(f, j.Z));
    ProductZeroIff(f, r.y, Cube(f, j.Z));
  }

  lemma PowersZeroIff<F(!new)>(f: Fld<F>, x: F)
    requires IsField(f)
    ensures (Sq(f, x) == f.zero <==> x == f.zero) && (Cube(f, x) == f.zero <==> x == f.zero)
  {
    ProductZeroIff(f, x, x);
    ProductZeroIff(f, Sq(f, x), x);
  }

  /** For a point off both axes only the same Z will do. */
  lemma OnlySameZ<F(!new)>(f: Fld<F>, x: F, y: F, m: F, n: F)
    requires IsField(f) && x != f.zero && y != f.zero && m != f.zero
    ensures ZComesOut(f, x, y, m, n) <==> n == m
  {
    PowersZeroIff(f, m);
    if Sq(f, n) == Sq(f, m) && Cube(f, n) == Cube(f, m) { MulEqualIff(f, Sq(f, m), n, m); }
  }

  /** The point a triple stands for. */
  function AffineOf<F(!new)>(f: Fld<F>, a: Triple<F>): Affine<F> {
    Affine(f.mul(a.X, f.inv(Sq(f, a.Z))), f.mul(a.Y, f.inv(Cube(f, a.Z))))
  }

  lemma AffineOfStands<F(!new)>(f: Fld<F>, a: Triple<F>)
    requires IsField(f) && a.Z != f.zero
    ensures Jacobian(f, a, AffineOf(f, a))
  {
    PowersZeroIff(f, a.Z);
    DivMul(f, a.X, Sq(f, a.Z));
    DivMul(f, a.Y, Cube(f, a.Z));
  }

  // ----- projective coordinates

  /** (X, Y, Z) stands for (X / Z, Y / Z). */
  ghost predicate Projective<F(!new)>(f: Fld<F>, a: Triple<F>, p: Affine<F>) {
    a.Z != f.zero && a.X == f.mul(p.x, a.Z) && a.Y == f.mul(p.y, a.Z)
  }

  ghost predicate ProjectiveSum<F(!new)>(f: Fld<F>, a: Triple<F>, b: Triple<F>, c: Triple<F>) {
    forall p, q :: Projective(f, a, p) && Projective(f, b, q) ==>
      if p.x == q.x then c.Z == f.zero else Projective(f, c, Chord(f, p, q))
  }

  /** The final assignments of the projective addition from U1, U2, S1, S2 and T = Z1 Z2. */
  function FromProjectiveParts<F(!new)>(f: Fld<F>, u1: F, u2: F, s1: F, s2: F, t: F): Triple<F> {
    var r, h := f.sub(s1, s2), f.sub(u1, u2);
    var hh := Sq(f, h);
    var v, g := f.mul(u1, hh), f.mul(hh, h);
    var w := f.sub(f.sub(f.add(f.mul(Sq(f, r), t), g), v), v);
    Triple(f.mul(h, w), f.sub(f.mul(f.sub(v, w), r), f.mul(s1, g)), f.mul(t, g))
  }

  lemma ProjectiveFormula<F(!new)>(f: Fld<F>, p: Affine<F>, q: Affine<F>, z: F, c: Triple<F>)
    requires IsField(f) && z != f.zero
    requires c == FromProjectiveParts(f, f.mul(p.x, z), f.mul(q.x, z), f.mul(p.y, z), f.mul(q.y, z), z)
    ensures if p.x == q.x then c.Z == f.zero else Projective(f, c, Chord(f, p, q))
  {
    var dx, dy, m := f.sub(p.x, q.x), f.sub(p.y, q.y), Slope(f, p, q);
    var h := f.sub(f.mul(p.x, z), f.mul(q.x, z));
    var hh := Sq(f, h);
    DistributeSub(f, z, p.x, q.x);
    SubZeroIff(f, p.x, q.x);
    if p.x == q.x {
      MulZero(f, z);
      MulZero(f, hh);
    } else {
      Field.NonzeroProduct(f, dx, z);
      Field.NonzeroProduct(f, h, h);
      Field.NonzeroProduct(f, hh, h);
      Field.NonzeroProduct(f, z, f.mul(hh, h));
      ProjectiveSlope(f, p, q, z, m);
      ProjectiveW(f, p, q, z, h, m);
      ProjectiveY(f, p, q, z, h, m);
      // X3 = h (x3 k) = x3 (k h)
      var k := f.mul(z, hh);
      MulAssoc(f, z, hh, h);
      MulLeftSwap(f, h, Chord(f, p, q).x, k);
      MulComm(f, h, k);
    }
  }

  /** R = m H */
  lemma ProjectiveSlope<F(!new)>(f: Fld<F>, p: Affine<F>, q: Affine<F>, z: F, m: F)
    requires IsField(f) && p.x != q.x && m == Slope(f, p, q)
    ensures f.sub(f.mul(p.y, z), f.mul(q.y, z)) == f.mul(m, f.sub(f.mul(p.x, z), f.mul(q.x, z)))
  {
    SubZeroIff(f, p.x, q.x);
    DistributeSub(f, z, p.y, q.y);
    DistributeSub(f, z, p.x, q.x);
    DivMul(f, f.sub(p.y, q.y), f.sub(p.x, q.x));
    MulAssoc(f, m, f.sub(p.x, q.x), z);
  }

  /** V = x1 (z h^2) and G = x1 (z h^2) - x2 (z h^2) */
  lemma ProjectiveVG<F(!new)>(f: Fld<F>, p: Affine<F>, q: Affine<F>, z: F, h: F)
    requires IsField(f) && h == f.sub(f.mul(p.x, z), f.mul(q.x, z))
    ensures var k := f.mul(z, Sq(f, h));
            && f.mul(f.mul(p.x, z), Sq(f, h)) == f.mul(p.x, k)
            && f.mul(Sq(f, h), h) == f.sub(f.mul(p.x, k), f.mul(q.x, k))
  {
    var hh := Sq(f, h);
    MulAssoc(f, p.x, z, hh);
    MulAssoc(f, q.x, z, hh);
    MulComm(f, hh, f.mul(p.x, z));
    MulComm(f, hh, f.mul(q.x, z));
    DistributeSub(f, hh, f.mul(p.x, z), f.mul(q.x, z));
  }

  lemma ProjectiveW<F(!new)>(f: Fld<F>, p: Affine<F>, q: Affine<F>, z: F, h: F, m: F)
    requires IsField(f) && h == f.sub(f.mul(p.x, z), f.mul(q.x, z))
    ensures var v := f.mul(f.mul(p.x, z), Sq(f, h));
            (f.sub(f.sub(f.add(f.mul(Sq(f, f.mul(m, h)), z), f.mul(Sq(f, h), h)), v), v)
             == f.mul(f.sub(f.sub(Sq(f, m), p.x), q.x), f.mul(z, Sq(f, h))))
  {
    var hh := Sq(f, h);
    ProjectiveVG(f, p, q, z, h);
    SquareOfProduct(f, m, h);
    MulAssoc(f, Sq(f, m), hh, z);
    MulComm(f, hh, z);
    AbscissaScaled(f, p, q, m, f.mul(z, hh));
  }

  lemma ProjectiveY<F(!new)>(f: Fld<F>, p: Affine<F>, q: Affine<F>, z: F, h: F, m: F)
    requires IsField(f) && h == f.sub(f.mul(p.x, z), f.mul(q.x, z))
    ensures var v, x3 := f.mul(f.mul(p.x, z), Sq(f, h)), f.sub(f.sub(Sq(f, m), p.x), q.x);
            (f.sub(f.mul(f.sub(v, f.mul(x3, f.mul(z, Sq(f, h)))), f.mul(m, h)),
                  f.mul(f.mul(p.y, z), f.mul(Sq(f, h), h)))
             == f.mul(f.sub(f.mul(f.sub(p.x, x3), m), p.y), f.mul(z, f.mul(Sq(f, h), h))))
  {
    var hh, x3 := Sq(f, h), f.sub(f.sub(Sq(f, m), p.x), q.x);
    ProjectiveVG(f, p, q, z, h);
    MulAssoc(f, p.y, z, f.mul(hh, h));
    MulAssoc(f, z, hh, h);
    OrdinateScaled(f, p.x, x3, p.y, m, f.mul(z, hh), h);
  }

  function ProjectiveResult<F(!new)>(f: Fld<F>, a: Triple<F>, b: Triple<F>): Triple<F> {
    FromProjectiveParts(f, f.mul(a.X, b.Z), f.mul(b.X, a.Z), f.mul(a.Y, b.Z), f.mul(b.Y, a.Z), f.mul(a.Z, b.Z))
  }

  lemma ProjectiveResultIsSum<F(!new)>(f: Fld<F>, a: Triple<F>, b: Triple<F>)
    requires IsField(f)
    ensures ProjectiveSum(f, a, b, ProjectiveResult(f, a, b))
  {
    forall p, q | Projective(f, a, p) && Projective(f, b, q)
      ensures var c := ProjectiveResult(f, a, b);
              if p.x == q.x then c.Z == f.zero else Projective(f, c, Chord(f, p, q))
    {
      MulAssoc(f, p.x, a.Z, b.Z);
      MulAssoc(f, p.y, a.Z, b.Z);
      MulAssoc(f, q.x, b.Z, a.Z);
      MulAssoc(f, q.y, b.Z, a.Z);
      MulComm(f, a.Z, b.Z);
      Field.NonzeroProduct(f, a.Z, b.Z);
      ProjectiveFormula(f, p, q, f.mul(a.Z, b.Z), ProjectiveResult(f, a, b));
    }
  }

  /** A triple that is the sum stands for the chord sum of the operands' points and for no other point. */
  lemma ProjectiveSumStandsFor<F(!new)>(f: Fld<F>, a: Triple<F>, b: Triple<F>, c: Triple<F>, p: Affine<F>, q: Affine<F>)
    requires IsField(f) && ProjectiveSum(f, a, b, c) && Projective(f, a, p) && Projective(f, b, q)
    ensures p.x == q.x ==> c.Z == f.zero
    ensures p.x != q.x ==> forall r :: Projective(f, c, r) <==> r == Chord(f, p, q)
  {
    if p.x != q.x {
      var s := Chord(f, p, q);
      forall r | Projective(f, c, r) ensures r == s {
        MulCancel(f, r.x, s.x, c.Z);
        MulCancel(f, r.y, s.y, c.Z);
      }
    }
  }
}
