/** The point additions of the second group, POC/Group.hpp: the same formulas on cells of the quadratic
    extension.  Its product writes the real part before it has read its operands for the last time, so
    here it matters which output references are operands of which operation. */
module G2Ops {
  import Arith
  import opened Field
  import opened Curve
  import opened Complex

  class AffineCells {
    const x: Cell
    const y: Cell

    constructor (x: Cell, y: Cell)
      ensures this.x == x && this.y == y
    {
      this.x, this.y := x, y;
    }

    function Cells(): set<Cell> { {x, y} }

    ghost function Val(): Affine<Cpx>
      reads x, y
    {
      Affine(x.Val(), y.Val())
    }
  }

  class TripleCells {
    const X: Cell
    const Y: Cell
    const Z: Cell

    constructor (x: Cell, y: Cell, z: Cell)
      ensures X == x && Y == y && Z == z
    {
      X, Y, Z := x, y, z;
    }

    function Cells(): set<Cell> { {X, Y, Z} }

    ghost function Val(): Triple<Cpx>
      reads X, Y, Z
    {
      Triple(X.Val(), Y.Val(), Z.Val())
    }
  }

  predicate IsAffine(a: AffineCells) { a.x != a.y }

  predicate IsTriple(a: TripleCells) { a.X != a.Y && a.Y != a.Z && a.X != a.Z }

  /** Two references to points name the same point or points with no coordinate in common. */
  predicate AffineOrApart(c: AffineCells, a: AffineCells) { c == a || c.Cells() !! a.Cells() }

  predicate TripleOrApart(c: TripleCells, a: TripleCells) { c == a || c.Cells() !! a.Cells() }

  function ZERO(): Cpx { Cpx(0, 0) }

  ghost predicate ExtensionFits() {
    Arith.Prime(P) && P % 4 == 3
  }

  method NewAffine() returns (p: AffineCells)
    ensures IsAffine(p) && fresh(p.x) && fresh(p.y) && fresh(p)
  {
    var x := new Cell(ZERO());
    var y := new Cell(ZERO());
    p := new AffineCells(x, y);
  }

  method NewTriple() returns (p: TripleCells)
    ensures IsTriple(p) && fresh(p.X) && fresh(p.Y) && fresh(p.Z) && fresh(p)
  {
    var x := new Cell(ZERO());
    var y := new Cell(ZERO());
    var z := new Cell(ZERO());
    p := new TripleCells(x, y, z);
  }

  /** Affine addition: wrong exactly into the first operand, as over the prime field. */
  method AddAff(c: AffineCells, a: AffineCells, b: AffineCells, r: Fp) returns (ok: bool)
    requires ExtensionFits() && IsAffine(a) && IsAffine(b) && IsAffine(c)
    requires AffineOrApart(c, a) && AffineOrApart(c, b)
    modifies c.x, c.y
    ensures ok <==> old(a.x.Val()) != old(b.x.Val()) && r != 0
    ensures !ok ==> unchanged(c.x) && unchanged(c.y)
    ensures ok ==> c.Val() == ChordInto(QuadraticField(), c == a, old(a.Val()), old(b.Val()))
  {
    hide CMul, CSub, CInv, Norm;
    ghost var p, q := a.Val(), b.Val();
    var m := new Cell(ZERO());
    var dx := new Cell(ZERO());
    var mm := new Cell(ZERO());
    Sub(m, a.y, b.y);
    Sub(dx, a.x, b.x);
    NormOfDifference(p.x, q.x);
    ok := DivInplace(m, dx, r);
    if !ok {
      return;
    }
    Sqr(mm, m);
    SubInplace(mm, a.x);
    Sub(c.x, mm, b.x);
    Sub(c.y, a.x, c.x);
    MulInplace(c.y, m);
    SubInplace(c.y, a.y);
    FinalOrdinate(p, m.Val(), c.x.Val());
  }

  lemma NormOfDifference(x: Cpx, y: Cpx)
    requires ExtensionFits()
    ensures Norm(CSub(x, y)) != 0 <==> x != y
  {
    QuadraticFieldIsField();
    SubZeroIff(QuadraticField(), x, y);
    if x != y { NormNonzero(CSub(x, y)); }
    NormZero();
  }

  lemma NormZero()
    ensures Norm(Cpx(0, 0)) == 0
  {
    hide FpMul, FpAdd;
    TinyValues();
  }

  /** (x - x) m = 0 and 0 - 0 = 0 */
  lemma FinalOrdinate(p: Affine<Cpx>, m: Cpx, x: Cpx)
    requires ExtensionFits()
    ensures CMul(CSub(x, x), m) == ZERO() && CSub(ZERO(), ZERO()) == ZERO()
  {
    QuadraticFieldIsField();
    var f := QuadraticField();
    SubSelf(f, x);
    MulZero(f, m);
    SubSelf(f, ZERO());
  }

  /** The variant with an opened second operand. */
  method AddPlainAff(c: AffineCells, a: AffineCells, b: Affine<Cpx>, r: Fp) returns (ok: bool)
    requires ExtensionFits() && IsAffine(a) && IsAffine(c) && AffineOrApart(c, a)
    modifies c.x, c.y
    ensures ok <==> old(a.x.Val()) != b.x && r != 0
    ensures !ok ==> unchanged(c.x) && unchanged(c.y)
    ensures ok ==> c.Val() == ChordInto(QuadraticField(), c == a, old(a.Val()), b)
  {
    hide CMul, CSub, CInv, Norm;
    ghost var p := a.Val();
    var m := new Cell(ZERO());
    var dx := new Cell(ZERO());
    var mm := new Cell(ZERO());
    SubPlain(m, a.y, b.y);
    SubPlain(dx, a.x, b.x);
    NormOfDifference(p.x, b.x);
    ok := DivInplace(m, dx, r);
    if !ok {
      return;
    }
    Sqr(mm, m);
    SubInplace(mm, a.x);
    SubPlain(c.x, mm, b.x);
    Sub(c.y, a.x, c.x);
    MulInplace(c.y, m);
    SubInplace(c.y, a.y);
    FinalOrdinate(p, m.Val(), c.x.Val());
  }

  /** The in-place variants go through a temporary. */
  method AddAffInplace(c: AffineCells, a: AffineCells, r: Fp) returns (ok: bool)
    requires ExtensionFits() && IsAffine(a) && IsAffine(c) && AffineOrApart(c, a)
    modifies c.x, c.y
    ensures ok <==> old(c.x.Val()) != old(a.x.Val()) && r != 0
    ensures !ok ==> unchanged(c.x) && unchanged(c.y)
    ensures ok ==> c.Val() == Chord(QuadraticField(), old(c.Val()), old(a.Val()))
  {
    hide Chord;
    var tmp := NewAffine();
    ok := AddAff(tmp, c, a, r);
    if ok {
      c.x.Assign(tmp.x);
      c.y.Assign(tmp.y);
    }
  }

  method AddPlainAffInplace(c: AffineCells, a: Affine<Cpx>, r: Fp) returns (ok: bool)
    requires ExtensionFits() && IsAffine(c)
    modifies c.x, c.y
    ensures ok <==> old(c.x.Val()) != a.x && r != 0
    ensures !ok ==> unchanged(c.x) && unchanged(c.y)
    ensures ok ==> c.Val() == Chord(QuadraticField(), old(c.Val()), a)
  {
    hide Chord;
    var tmp := NewAffine();
    ok := AddPlainAff(tmp, c, a, r);
    if ok {
      c.x.Assign(tmp.x);
      c.y.Assign(tmp.y);
    }
  }

  // ----- Jacobian coordinates

  /** X1 Z2^2 and Y1 Z2^3 */
  function U(a: Triple<Cpx>, b: Triple<Cpx>): Cpx { CMul(a.X, CMul(b.Z, b.Z)) }

  function S(a: Triple<Cpx>, b: Triple<Cpx>): Cpx { CMul(CMul(CMul(b.Z, b.Z), a.Y), b.Z) }

  /** Vanishes exactly when the points have the same x-coordinate. */
  function JacobianH(a: Triple<Cpx>, b: Triple<Cpx>): Cpx { CSub(U(a, b), U(b, a)) }

  /** What the Jacobian addition leaves in its output: the product of the two Z goes straight into the
      output's Z, everything else goes through temporaries. */
  function JacobianInto(k: Aliasing, a: Triple<Cpx>, b: Triple<Cpx>): Triple<Cpx> {
    FromParts(QuadraticField(), U(a, b), U(b, a), S(a, b), S(b, a), ProductInto(k, a.Z, b.Z))
  }

  /** The last assignments of the Jacobian addition. */
  function Finish(z: Cpx, s1: Cpx, r: Cpx, h: Cpx, v: Cpx, g: Cpx): Triple<Cpx> {
    var x := CSub(CSub(CAdd(CMul(r, r), g), v), v);
    Triple(x, CSub(CMul(CSub(v, x), r), CMul(s1, g)), CMul(z, h))
  }

  lemma FinishIsFromParts(u1: Cpx, u2: Cpx, s1: Cpx, s2: Cpx, z: Cpx)
    ensures var r, h := CSub(s1, s2), CSub(u1, u2);
            Finish(z, s1, r, h, CMul(CMul(h, h), u1), CMul(CMul(h, h), h))
            == FromParts(QuadraticField(), u1, u2, s1, s2, z)
  {
    hide CMul, CSub, CAdd;
  }

  lemma JacobianIntoApart(a: Triple<Cpx>, b: Triple<Cpx>)
    ensures JacobianInto(Apart, a, b) == JacobianResult(QuadraticField(), a, b)
  {
    hide CMul, CSub, CAdd, ProductInto, FromParts;
    ApartIsRight(a.Z, b.Z);
  }

  /** Exactly when the triple comes out as into a separate output.  Doubling a point into itself gives the
      point at infinity anyway. */
  lemma JacobianRightIff(k: Aliasing, a: Triple<Cpx>, b: Triple<Cpx>)
    requires ExtensionFits() && (k.Both? ==> a == b)
    ensures JacobianInto(k, a, b) == JacobianResult(QuadraticField(), a, b) <==>
            JacobianH(a, b) == ZERO() || ProductComesOut(k, a.Z, b.Z)
    ensures k.Both? ==> JacobianH(a, b) == ZERO()
  {
    hide CMul, CSub, ProductInto, ProductComesOut;
    var f, h := QuadraticField(), JacobianH(a, b);
    QuadraticFieldIsField();
    ProductRightIff(k, a.Z, b.Z);
    MulZero(f, ProductInto(k, a.Z, b.Z));
    MulZero(f, CMul(a.Z, b.Z));
    SubSelf(f, U(a, b));
    JacobianIntoApart(a, b);
    ApartIsRight(a.Z, b.Z);
    if h != ZERO() && CMul(ProductInto(k, a.Z, b.Z), h) == CMul(CMul(a.Z, b.Z), h) {
      MulCancel(f, ProductInto(k, a.Z, b.Z), CMul(a.Z, b.Z), h);
    }
  }

  /** Exactly when the triple stands for the sum, for every place its output may have: another Z than the
      right one will do only for a sum on one of the axes. */
  lemma JacobianSumIff(k: Aliasing, a: Triple<Cpx>, b: Triple<Cpx>)
    requires ExtensionFits() && (k.Both? ==> a == b)
    ensures var f, j := QuadraticField(), JacobianResult(QuadraticField(), a, b);
            JacobianSum(f, a, b, JacobianInto(k, a, b)) <==>
            || a.Z == ZERO() || b.Z == ZERO() || JacobianH(a, b) == ZERO()
            || ZComesOut(f, j.X, j.Y, CMul(a.Z, b.Z), ProductInto(k, a.Z, b.Z))
    ensures var j := JacobianResult(QuadraticField(), a, b);
            a.Z != ZERO() && b.Z != ZERO() && j.X != ZERO() && j.Y != ZERO() ==>
            (ZComesOut(QuadraticField(), j.X, j.Y, CMul(a.Z, b.Z), ProductInto(k, a.Z, b.Z))
             <==> ProductComesOut(k, a.Z, b.Z))
  {
    hide CMul, CSub, ProductInto, ProductComesOut, ZComesOut, JacobianResult, JacobianInto, Jacobian;
    var f, j := QuadraticField(), JacobianResult(QuadraticField(), a, b);
    var m, n := CMul(a.Z, b.Z), ProductInto(k, a.Z, b.Z);
    QuadraticFieldIsField();
    Curve.ProductZeroIff(f, a.Z, b.Z);
    if a.Z == ZERO() || b.Z == ZERO() {
      NoPointAtZero(f, a, b, JacobianInto(k, a, b));
    } else {
      AffineOfStands(f, a);
      AffineOfStands(f, b);
      var p, q := AffineOf(f, a), AffineOf(f, b);
      forall p, q | Jacobian(f, a, p) && Jacobian(f, b, q)
        ensures (if p.x == q.x then JacobianInto(k, a, b).Z == f.zero else Jacobian(f, JacobianInto(k, a, b), Chord(f, p, q)))
            <==> JacobianH(a, b) == ZERO() || ZComesOut(f, j.X, j.Y, m, n)
      {
        SumOfPair(k, a, b, p, q);
      }
      if j.X != ZERO() && j.Y != ZERO() {
        OnlySameZ(f, j.X, j.Y, m, n);
        ProductRightIff(k, a.Z, b.Z);
      }
    }
  }

  /** A triple with Z = 0 stands for no affine point. */
  lemma NoPointAtZero(f: Fld<Cpx>, a: Triple<Cpx>, b: Triple<Cpx>, c: Triple<Cpx>)
    requires a.Z == f.zero || b.Z == f.zero
    ensures JacobianSum(f, a, b, c)
  {}

  lemma SumOfPair(k: Aliasing, a: Triple<Cpx>, b: Triple<Cpx>, p: Affine<Cpx>, q: Affine<Cpx>)
    requires ExtensionFits() && Jacobian(QuadraticField(), a, p) && Jacobian(QuadraticField(), b, q)
    ensures var f, j, c := QuadraticField(), JacobianResult(QuadraticField(), a, b), JacobianInto(k, a, b);
            (if p.x == q.x then c.Z == f.zero else Jacobian(f, c, Chord(f, p, q))) <==>
            JacobianH(a, b) == ZERO() || ZComesOut(f, j.X, j.Y, CMul(a.Z, b.Z), ProductInto(k, a.Z, b.Z))
  {
    hide CMul, CSub, ProductInto, Chord, ZComesOut;
    var f, j, c := QuadraticField(), JacobianResult(QuadraticField(), a, b), JacobianInto(k, a, b);
    var m, n, h := CMul(a.Z, b.Z), ProductInto(k, a.Z, b.Z), JacobianH(a, b);
    QuadraticFieldIsField();
    ZOfSum(k, a, b);
    JacobianResultIsSum(f, a, b);
    Curve.ProductZeroIff(f, a.Z, b.Z);
    Curve.ProductZeroIff(f, m, h);
    MulZero(f, n);
    if p.x != q.x {
      OtherZ(f, Chord(f, p, q), j, m, n, h);
    }
  }

  /** The aliased triple differs from the right one in the first factor of Z only. */
  lemma ZOfSum(k: Aliasing, a: Triple<Cpx>, b: Triple<Cpx>)
    ensures var j, c := JacobianResult(QuadraticField(), a, b), JacobianInto(k, a, b);
            && j.Z == CMul(CMul(a.Z, b.Z), JacobianH(a, b)) && c.X == j.X && c.Y == j.Y
            && c.Z == CMul(ProductInto(k, a.Z, b.Z), JacobianH(a, b))
  {
    hide CMul, CSub, CAdd, ProductInto;
  }

  /** Any two points with different x have coordinates whose sum, put into one of the operands, comes out
      as the point at infinity. */
  lemma SumLost(k: Aliasing, p: Affine<Cpx>, q: Affine<Cpx>, a: Triple<Cpx>, b: Triple<Cpx>)
    requires ExtensionFits() && (k.First? || k.Second?)
    requires var i := Cpx(0, 1); var f := QuadraticField();
             a == Triple(CMul(p.x, Sq(f, i)), CMul(p.y, Cube(f, i)), i) && b == Triple(q.x, q.y, Cpx(1, 0))
    ensures Jacobian(QuadraticField(), a, p) && Jacobian(QuadraticField(), b, q)
    ensures JacobianInto(k, a, b).Z == ZERO()
    ensures p.x != q.x ==> !JacobianSum(QuadraticField(), a, b, JacobianInto(k, a, b))
  {
    hide CMul, CSub, ProductInto, AliasingOf;
    var f := QuadraticField();
    QuadraticFieldIsField();
    MulOne(f, q.x);
    MulOne(f, q.y);
    MulOne(f, f.one);
    LostProduct(k);
    MulZero(f, JacobianH(a, b));
  }

  lemma LostProduct(k: Aliasing)
    requires k.First? || k.Second?
    ensures ProductInto(k, Cpx(0, 1), Cpx(1, 0)) == ZERO()
  {
    hide FpMul, FpAdd, FpSub;
    TinyValues();
  }

  /** The Jacobian addition represents the sum for all operands exactly when its output is neither of two
      different operands. */
  lemma JacobianRightExactly(k: Aliasing)
    requires ExtensionFits()
    ensures (forall a, b :: (k.Both? ==> a == b) ==> JacobianSum(QuadraticField(), a, b, JacobianInto(k, a, b)))
            <==> k.Apart? || k.Both?
  {
    hide CMul, CSub, ProductInto, JacobianInto, JacobianResult;
    var f := QuadraticField();
    QuadraticFieldIsField();
    if k.Apart? || k.Both? {
      forall a, b | k.Both? ==> a == b ensures JacobianSum(f, a, b, JacobianInto(k, a, b)) {
        JacobianRightIff(k, a, b);
        JacobianResultIsSum(f, a, b);
      }
    } else {
      var i, p, q := Cpx(0, 1), Affine(Cpx(0, 0), Cpx(0, 0)), Affine(Cpx(1, 0), Cpx(0, 0));
      SumLost(k, p, q, Triple(CMul(p.x, Sq(f, i)), CMul(p.y, Cube(f, i)), i), Triple(q.x, q.y, Cpx(1, 0)));
    }
  }

  method AddJac(c: TripleCells, a: TripleCells, b: TripleCells)
    requires ExtensionFits() && IsTriple(a) && IsTriple(b) && IsTriple(c)
    requires TripleOrApart(c, a) && TripleOrApart(c, b)
    modifies c.X, c.Y, c.Z
    ensures c.Val() == JacobianInto(AliasingOf(c.Z, a.Z, b.Z), old(a.Val()), old(b.Val()))
    ensures c != a && c != b ==> JacobianSum(QuadraticField(), old(a.Val()), old(b.Val()), c.Val())
  {
    hide CMul, CSub, ProductInto, FromParts, Finish, JacobianSum;
    ghost var p, q := a.Val(), b.Val();
    QuadraticFieldIsField();
    JacobianIntoApart(p, q);
    JacobianResultIsSum(QuadraticField(), p, q);
    var S1, S2, U1, U2 := JacobianOperands(a, b);
    var R, H, V, G := CommonParts(S1, S2, U1, U2);
    Mul(c.Z, a.Z, b.Z);
    FinishIsFromParts(U(p, q), U(q, p), S(p, q), S(q, p), c.Z.Val());
    FinishJac(c, S1, R, H, V, G);
  }

  method JacobianOperands(a: TripleCells, b: TripleCells) returns (S1: Cell, S2: Cell, U1: Cell, U2: Cell)
    ensures fresh({S1, S2, U1, U2})
    ensures S1.Val() == S(a.Val(), b.Val()) && S2.Val() == S(b.Val(), a.Val())
    ensures U1.Val() == U(a.Val(), b.Val()) && U2.Val() == U(b.Val(), a.Val())
  {
    hide CMul, ProductInto, AliasingOf;
    S1 := new Cell(ZERO());
    S2 := new Cell(ZERO());
    U1 := new Cell(ZERO());
    U2 := new Cell(ZERO());
    Sqr(S2, a.Z);
    Sqr(S1, b.Z);
    Mul(U2, b.X, S2);
    Mul(U1, a.X, S1);
    MulInplace(S2, b.Y);
    MulInplace(S2, a.Z);
    MulInplace(S1, a.Y);
    MulInplace(S1, b.Z);
  }

  /** R = S1 - S2, H = U1 - U2, V = U1 H^2 and G = H^3. */
  method CommonParts(S1: Cell, S2: Cell, U1: Cell, U2: Cell) returns (R: Cell, H: Cell, V: Cell, G: Cell)
    ensures fresh({R, H, V, G})
    ensures R.Val() == CSub(S1.Val(), S2.Val()) && H.Val() == CSub(U1.Val(), U2.Val())
    ensures var hh := CMul(H.Val(), H.Val()); V.Val() == CMul(hh, U1.Val()) && G.Val() == CMul(hh, H.Val())
  {
    hide ProductInto, AliasingOf;
    hide CMul, CSub;
    R := new Cell(ZERO());
    H := new Cell(ZERO());
    V := new Cell(ZERO());
    G := new Cell(ZERO());
    Sub(R, S1, S2);
    Sub(H, U1, U2);
    Sqr(V, H);
    Mul(G, V, H);
    MulInplace(V, U1);
  }

  /** Z3 = Z1 Z2 H, X3 = R^2 + G - 2V and Y3 = R (V - X3) - S1 G. */
  method FinishJac(c: TripleCells, S1: Cell, R: Cell, H: Cell, V: Cell, G: Cell)
    requires IsTriple(c) && c.Cells() !! {S1, R, H, V, G}
    modifies c.X, c.Y, c.Z
    ensures c.Val() == Finish(old(c.Z.Val()), S1.Val(), R.Val(), H.Val(), V.Val(), G.Val())
  {
    hide CMul, CSub, CAdd;
    MulInplace(c.Z, H);
    var tmp := new Cell(ZERO());
    Sqr(tmp, R);
    Add(c.X, tmp, G);
    SubInplace(c.X, V);
    SubInplace(c.X, V);
    Mul(tmp, S1, G);
    Sub(c.Y, V, c.X);
    MulInplace(c.Y, R);
    SubInplace(c.Y, tmp);
  }

  /** The variant with an opened second operand multiplies by opened values only; every output is right. */
  method AddPlainJac(c: TripleCells, a: TripleCells, b: Triple<Cpx>)
    requires ExtensionFits() && IsTriple(a) && IsTriple(c) && TripleOrApart(c, a)
    modifies c.X, c.Y, c.Z
    ensures c.Val() == JacobianResult(QuadraticField(), old(a.Val()), b)
    ensures JacobianSum(QuadraticField(), old(a.Val()), b, c.Val())
  {
    hide CMul, CSub, ProductInto, FromParts, Finish, JacobianSum;
    ghost var p := a.Val();
    QuadraticFieldIsField();
    JacobianIntoApart(p, b);
    ApartIsRight(p.Z, b.Z);
    JacobianResultIsSum(QuadraticField(), p, b);
    var S1, S2, U1, U2 := PlainJacobianOperands(a, b);
    var R, H, V, G := CommonParts(S1, S2, U1, U2);
    MulPlain(c.Z, a.Z, b.Z);
    FinishIsFromParts(U(p, b), U(b, p), S(p, b), S(b, p), c.Z.Val());
    FinishJac(c, S1, R, H, V, G);
  }

  /** The same four values with the products grouped around the opened ones. */
  method PlainJacobianOperands(a: TripleCells, b: Triple<Cpx>) returns (S1: Cell, S2: Cell, U1: Cell, U2: Cell)
    requires ExtensionFits()
    ensures fresh({S1, S2, U1, U2})
    ensures S1.Val() == S(a.Val(), b) && S2.Val() == S(b, a.Val())
    ensures U1.Val() == U(a.Val(), b) && U2.Val() == U(b, a.Val())
  {
    hide CMul, ProductInto, AliasingOf;
    PlainGrouping(a.Val(), b);
    S1 := new Cell(ZERO());
    S2 := new Cell(ZERO());
    U1 := new Cell(ZERO());
    U2 := new Cell(ZERO());
    var t := new Cell(ZERO());
    Sqr(S2, a.Z);
    var bZ3 := CMul(b.Z, b.Z);
    MulPlain(U2, S2, b.X);
    MulPlain(U1, a.X, bZ3);
    MulPlain(t, S2, b.Y);
    Mul(S2, t, a.Z);
    bZ3 := CMul(bZ3, b.Z);
    MulPlain(S1, a.Y, bZ3);
  }

  lemma PlainGrouping(a: Triple<Cpx>, b: Triple<Cpx>)
    requires ExtensionFits()
    ensures U(b, a) == CMul(CMul(a.Z, a.Z), b.X)
    ensures S(a, b) == CMul(a.Y, CMul(CMul(b.Z, b.Z), b.Z))
  {
    hide CMul;
    QuadraticFieldIsField();
    var f := QuadraticField();
    MulComm(f, CMul(a.Z, a.Z), b.X);
    Field.MulSwap(f, CMul(b.Z, b.Z), a.Y, b.Z);
    MulComm(f, CMul(CMul(b.Z, b.Z), b.Z), a.Y);
  }

  method AddJacInplace(c: TripleCells, a: TripleCells)
    requires ExtensionFits() && IsTriple(a) && IsTriple(c) && TripleOrApart(c, a)
    modifies c.X, c.Y, c.Z
    ensures c.Val() == JacobianResult(QuadraticField(), old(c.Val()), old(a.Val()))
    ensures JacobianSum(QuadraticField(), old(c.Val()), old(a.Val()), c.Val())
  {
    hide JacobianInto, JacobianResult, JacobianSum;
    var tmp := NewTriple();
    JacobianIntoApart(c.Val(), a.Val());
    AddJac(tmp, c, a);
    AssignTriple(c, tmp);
  }

  method AddPlainJacInplace(c: TripleCells, a: Triple<Cpx>)
    requires ExtensionFits() && IsTriple(c)
    modifies c.X, c.Y, c.Z
    ensures c.Val() == JacobianResult(QuadraticField(), old(c.Val()), a)
    ensures JacobianSum(QuadraticField(), old(c.Val()), a, c.Val())
  {
    hide JacobianResult, JacobianSum;
    var tmp := NewTriple();
    AddPlainJac(tmp, c, a);
    AssignTriple(c, tmp);
  }

  method AssignTriple(c: TripleCells, v: TripleCells)
    requires IsTriple(c) && c.Cells() !! v.Cells()
    modifies c.X, c.Y, c.Z
    ensures c.Val() == v.Val()
  {
    c.X.Assign(v.X);
    c.Y.Assign(v.Y);
    c.Z.Assign(v.Z);
  }

  // ----- projective coordinates

  /** Projective addition: Z1 Z2 goes through a temporary, and no operand is read after the first
      coordinate of the output is written, so every output is right. */
  method AddProj(c: TripleCells, a: TripleCells, b: TripleCells)
    requires ExtensionFits() && IsTriple(a) && IsTriple(b) && IsTriple(c)
    requires TripleOrApart(c, a) && TripleOrApart(c, b)
    modifies c.X, c.Y, c.Z
    ensures c.Val() == ProjectiveResult(QuadraticField(), old(a.Val()), old(b.Val()))
    ensures ProjectiveSum(QuadraticField(), old(a.Val()), old(b.Val()), c.Val())
  {
    hide CMul, FromProjectiveParts, ProjectiveResult, ProjectiveSum;
    ghost var p, q := a.Val(), b.Val();
    QuadraticFieldIsField();
    ProjectiveResultIsSum(QuadraticField(), p, q);
    ProjectiveResultIs(p, q);
    var S1, S2, U1, U2, T := ProjectiveOperands(a, b);
    FinishProj(c, U1, U2, S1, S2, T);
  }

  lemma ProjectiveResultIs(a: Triple<Cpx>, b: Triple<Cpx>)
    ensures ProjectiveResult(QuadraticField(), a, b)
         == FromProjectiveParts(QuadraticField(), CMul(a.X, b.Z), CMul(b.X, a.Z), CMul(a.Y, b.Z), CMul(b.Y, a.Z),
                                CMul(a.Z, b.Z))
  {
    hide CMul, FromProjectiveParts;
  }

  method ProjectiveOperands(a: TripleCells, b: TripleCells)
    returns (S1: Cell, S2: Cell, U1: Cell, U2: Cell, T: Cell)
    ensures fresh({S1, S2, U1, U2, T})
    ensures S1.Val() == CMul(a.Y.Val(), b.Z.Val()) && S2.Val() == CMul(b.Y.Val(), a.Z.Val())
    ensures U1.Val() == CMul(a.X.Val(), b.Z.Val()) && U2.Val() == CMul(b.X.Val(), a.Z.Val())
    ensures T.Val() == CMul(a.Z.Val(), b.Z.Val())
  {
    hide CMul, ProductInto, AliasingOf;
    S1 := new Cell(ZERO());
    S2 := new Cell(ZERO());
    U1 := new Cell(ZERO());
    U2 := new Cell(ZERO());
    T := new Cell(ZERO());
    Mul(S2, b.Y, a.Z);
    Mul(S1, a.Y, b.Z);
    Mul(U2, b.X, a.Z);
    Mul(U1, a.X, b.Z);
    Mul(T, a.Z, b.Z);
  }

  method AddPlainProj(c: TripleCells, a: TripleCells, b: Triple<Cpx>)
    requires ExtensionFits() && IsTriple(a) && IsTriple(c) && TripleOrApart(c, a)
    modifies c.X, c.Y, c.Z
    ensures c.Val() == ProjectiveResult(QuadraticField(), old(a.Val()), b)
    ensures ProjectiveSum(QuadraticField(), old(a.Val()), b, c.Val())
  {
    hide CMul, FromProjectiveParts, ProjectiveResult, ProjectiveSum;
    ghost var p := a.Val();
    QuadraticFieldIsField();
    ProjectiveResultIsSum(QuadraticField(), p, b);
    ProjectiveResultIs(p, b);
    var S1, S2, U1, U2, T := PlainProjectiveOperands(a, b);
    FinishProj(c, U1, U2, S1, S2, T);
  }

  method PlainProjectiveOperands(a: TripleCells, b: Triple<Cpx>)
    returns (S1: Cell, S2: Cell, U1: Cell, U2: Cell, T: Cell)
    ensures fresh({S1, S2, U1, U2, T})
    ensures S1.Val() == CMul(a.Y.Val(), b.Z) && S2.Val() == CMul(b.Y, a.Z.Val())
    ensures U1.Val() == CMul(a.X.Val(), b.Z) && U2.Val() == CMul(b.X, a.Z.Val())
    ensures T.Val() == CMul(a.Z.Val(), b.Z)
  {
    hide CMul;
    CMulComm(a.Z.Val(), b.Y);
    CMulComm(a.Z.Val(), b.X);
    S1 := new Cell(ZERO());
    S2 := new Cell(ZERO());
    U1 := new Cell(ZERO());
    U2 := new Cell(ZERO());
    T := new Cell(ZERO());
    MulPlain(S2, a.Z, b.Y);
    MulPlain(S1, a.Y, b.Z);
    MulPlain(U2, a.Z, b.X);
    MulPlain(U1, a.X, b.Z);
    MulPlain(T, a.Z, b.Z);
  }

  /** The common second half of both projective additions. */
  method FinishProj(c: TripleCells, U1: Cell, U2: Cell, S1: Cell, S2: Cell, T: Cell)
    requires IsTriple(c) && c.Cells() !! {U1, U2, S1, S2, T}
    modifies c.X, c.Y, c.Z
    ensures c.Val() == FromProjectiveParts(QuadraticField(), U1.Val(), U2.Val(), S1.Val(), S2.Val(), T.Val())
  {
    hide CMul, CSub, CAdd, FromProjectiveParts, FinishP;
    FinishIsFromProjectiveParts(U1.Val(), U2.Val(), S1.Val(), S2.Val(), T.Val());
    var R, H, V, G := ProjectiveParts(U1, U2, S1, S2);
    var w := ProjectiveW(R, T, G, V);
    WriteProj(c, S1, T, R, H, V, G, w);
  }

  /** R = S1 - S2, H = U1 - U2, V = U1 H^2 and G = H^3. */
  method ProjectiveParts(U1: Cell, U2: Cell, S1: Cell, S2: Cell) returns (R: Cell, H: Cell, V: Cell, G: Cell)
    ensures fresh({R, H, V, G})
    ensures R.Val() == CSub(S1.Val(), S2.Val()) && H.Val() == CSub(U1.Val(), U2.Val())
    ensures var hh := CMul(H.Val(), H.Val()); V.Val() == CMul(U1.Val(), hh) && G.Val() == CMul(hh, H.Val())
  {
    hide CMul, CSub;
    R := new Cell(ZERO());
    H := new Cell(ZERO());
    V := new Cell(ZERO());
    G := new Cell(ZERO());
    var H2 := new Cell(ZERO());
    Sub(R, S1, S2);
    Sub(H, U1, U2);
    Sqr(H2, H);
    Mul(V, U1, H2);
    Mul(G, H2, H);
  }

  function FinishP(t: Cpx, s1: Cpx, r: Cpx, h: Cpx, v: Cpx, g: Cpx, w: Cpx): Triple<Cpx> {
    Triple(CMul(h, w), CSub(CMul(CSub(v, w), r), CMul(s1, g)), CMul(t, g))
  }

  function W(r: Cpx, t: Cpx, g: Cpx, v: Cpx): Cpx {
    CSub(CSub(CAdd(CMul(CMul(r, r), t), g), v), v)
  }

  lemma FinishIsFromProjectiveParts(u1: Cpx, u2: Cpx, s1: Cpx, s2: Cpx, t: Cpx)
    ensures var r, h := CSub(s1, s2), CSub(u1, u2);
            var v, g := CMul(u1, CMul(h, h)), CMul(CMul(h, h), h);
            FinishP(t, s1, r, h, v, g, W(r, t, g, v)) == FromProjectiveParts(QuadraticField(), u1, u2, s1, s2, t)
  {
    hide CMul, CSub, CAdd;
  }

  /** W = R^2 T + G - 2V */
  method ProjectiveW(R: Cell, T: Cell, G: Cell, V: Cell) returns (w: Cell)
    ensures fresh(w) && w.Val() == W(R.Val(), T.Val(), G.Val(), V.Val())
  {
    hide CMul, CSub, CAdd, ProductInto, AliasingOf;
    var R2 := new Cell(ZERO());
    w := new Cell(ZERO());
    Sqr(R2, R);
    Mul(w, R2, T);
    AddInplace(w, G);
    SubInplace(w, V);
    SubInplace(w, V);
  }

  /** Z3 = T G, Y3 = R (V - W) - S1 G and X3 = H W. */
  method WriteProj(c: TripleCells, S1: Cell, T: Cell, R: Cell, H: Cell, V: Cell, G: Cell, w: Cell)
    requires IsTriple(c) && c.Cells() !! {S1, T, R, H, V, G, w}
    modifies c.X, c.Y, c.Z
    ensures c.Val() == FinishP(T.Val(), S1.Val(), R.Val(), H.Val(), V.Val(), G.Val(), w.Val())
  {
    hide CMul, CSub, ProductInto, AliasingOf;
    Mul(c.Z, T, G);
    var tmp := new Cell(ZERO());
    Mul(tmp, S1, G);
    Sub(c.Y, V, w);
    MulInplace(c.Y, R);
    SubInplace(c.Y, tmp);
    Mul(c.X, H, w);
  }

  method AddProjInplace(c: TripleCells, a: TripleCells)
    requires ExtensionFits() && IsTriple(a) && IsTriple(c) && TripleOrApart(c, a)
    modifies c.X, c.Y, c.Z
    ensures c.Val() == ProjectiveResult(QuadraticField(), old(c.Val()), old(a.Val()))
    ensures ProjectiveSum(QuadraticField(), old(c.Val()), old(a.Val()), c.Val())
  {
    hide ProjectiveResult, ProjectiveSum;
    var tmp := NewTriple();
    AddProj(tmp, c, a);
    AssignTriple(c, tmp);
  }

  method AddPlainProjInplace(c: TripleCells, a: Triple<Cpx>)
    requires ExtensionFits() && IsTriple(c)
    modifies c.X, c.Y, c.Z
    ensures c.Val() == ProjectiveResult(QuadraticField(), old(c.Val()), a)
    ensures ProjectiveSum(QuadraticField(), old(c.Val()), a, c.Val())
  {
    hide ProjectiveResult, ProjectiveSum;
    var tmp := NewTriple();
    AddPlainProj(tmp, c, a);
    AssignTriple(c, tmp);
  }
}
