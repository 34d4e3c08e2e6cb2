/** The point additions of the first group as the assignments that POC/Group.hpp performs on its output
    references.  Points are objects, so that an output may be one of the inputs; coordinates are
    elements of the prime field, whose operations read their operands before they write. */
module PointOps {
  import Arith
  import opened Field
  import opened Curve
  import opened Complex

  class AffinePoint {
    var x: Fp
    var y: Fp

    constructor (x: Fp, y: Fp)
      ensures this.x == x && this.y == y
    {
      this.x, this.y := x, y;
    }

    ghost function Val(): Affine<Fp>
      reads this
    {
      Affine(x, y)
    }
  }

  class TriplePoint {
    var X: Fp
    var Y: Fp
    var Z: Fp

    constructor (x: Fp, y: Fp, z: Fp)
      ensures X == x && Y == y && Z == z
    {
      X, Y, Z := x, y, z;
    }

    ghost function Val(): Triple<Fp>
      reads this
    {
      Triple(X, Y, Z)
    }
  }

  /** Affine addition.  The division opens dx times a random mask and fails when that is zero.  An
      output that is the first operand loses its y-coordinate: a.x has been overwritten by the
      time the new y is computed. */
  method AddAff(c: AffinePoint, a: AffinePoint, b: AffinePoint, r: Fp)
    returns (ok: bool)
    requires Arith.Prime(P)
    modifies c
    ensures ok <==> old(a.x) != old(b.x) && r != 0
    ensures !ok ==> unchanged(c)
    ensures ok ==> c.Val() == ChordInto(PrimeField(), c == a, old(a.Val()), old(b.Val()))
  {
    var f := PrimeField();
    PrimeFieldIsField();
    var m := f.sub(a.y, b.y);
    var dx := f.sub(a.x, b.x);
    SubZeroIff(f, a.x, b.x);
    var idx;
    ok, idx := InvMasked(dx, r);
    if !ok {
      return;
    }
    m := f.mul(m, idx);
    var mm := f.mul(m, m);
    mm := f.sub(mm, a.x);
    c.x := f.sub(mm, b.x);
    c.y := f.sub(a.x, c.x);
    c.y := f.mul(c.y, m);
    SubSelf(f, c.x);
    MulZero(f, m);
    SubSelf(f, c.y);
    c.y := f.sub(c.y, a.y);
  }

  /** The variant with an opened second operand. */
  method AddPlainAff(c: AffinePoint, a: AffinePoint, b: Affine<Fp>, r: Fp)
    returns (ok: bool)
    requires Arith.Prime(P)
    modifies c
    ensures ok <==> old(a.x) != b.x && r != 0
    ensures !ok ==> unchanged(c)
    ensures ok ==> c.Val() == ChordInto(PrimeField(), c == a, old(a.Val()), b)
  {
    var f := PrimeField();
    PrimeFieldIsField();
    var m := f.sub(a.y, b.y);
    var dx := f.sub(a.x, b.x);
    SubZeroIff(f, a.x, b.x);
    var idx;
    ok, idx := InvMasked(dx, r);
    if !ok {
      return;
    }
    m := f.mul(m, idx);
    var mm := f.mul(m, m);
    mm := f.sub(mm, a.x);
    c.x := f.sub(mm, b.x);
    c.y := f.sub(a.x, c.x);
    c.y := f.mul(c.y, m);
    SubSelf(f, c.x);
    MulZero(f, m);
    SubSelf(f, c.y);
    c.y := f.sub(c.y, a.y);
  }

  method AddPlainAffInplace(c: AffinePoint, a: Affine<Fp>, r: Fp) returns (ok: bool)
    requires Arith.Prime(P)
    modifies c
    ensures ok <==> old(c.x) != a.x && r != 0
    ensures !ok ==> unchanged(c)
    ensures ok ==> c.Val() == Chord(PrimeField(), old(c.Val()), a)
  {
    var tmp := new AffinePoint(0, 0);
    ok := AddPlainAff(tmp, c, a, r);
    if ok {
      c.x, c.y := tmp.x, tmp.y;
    }
  }

  /** The in-place variant goes through a temporary, so it is right for every operand. */
  method AddAffInplace(c: AffinePoint, a: AffinePoint, r: Fp) returns (ok: bool)
    requires Arith.Prime(P)
    modifies c
    ensures ok <==> old(c.x) != old(a.x) && r != 0
    ensures !ok ==> unchanged(c)
    ensures ok ==> c.Val() == Chord(PrimeField(), old(c.Val()), old(a.Val()))
  {
    var tmp := new AffinePoint(0, 0);
    ok := AddAff(tmp, c, a, r);
    if ok {
      c.x, c.y := tmp.x, tmp.y;
    }
  }

  /** Jacobian addition; the output may be either operand. */
  method AddJac(c: TriplePoint, a: TriplePoint, b: TriplePoint)
    requires Arith.Prime(P)
    modifies c
    ensures c.Val() == JacobianResult(PrimeField(), old(a.Val()), old(b.Val()))
    ensures JacobianSum(PrimeField(), old(a.Val()), old(b.Val()), c.Val())
  {
    var f := PrimeField();
    PrimeFieldIsField();
    JacobianResultIsSum(f, a.Val(), b.Val());
    var S2 := Sq(f, a.Z);
    var S1 := Sq(f, b.Z);
    var U2 := f.mul(b.X, S2);
    var U1 := f.mul(a.X, S1);
    S2 := f.mul(S2, b.Y);
    S2 := f.mul(S2, a.Z);
    S1 := f.mul(S1, a.Y);
    S1 := f.mul(S1, b.Z);
    var R := f.sub(S1, S2);
    var H := f.sub(U1, U2);
    var V := Sq(f, H);
    var G := f.mul(V, H);
    V := f.mul(V, U1);
    c.Z := f.mul(a.Z, b.Z);
    c.Z := f.mul(c.Z, H);
    var tmp := Sq(f, R);
    c.X := f.add(tmp, G);
    c.X := f.sub(c.X, V);
    c.X := f.sub(c.X, V);
    tmp := f.mul(S1, G);
    c.Y := f.sub(V, c.X);
    c.Y := f.mul(c.Y, R);
    c.Y := f.sub(c.Y, tmp);
  }

  /** The variant with an opened second operand groups its products differently. */
  method AddPlainJac(c: TriplePoint, a: TriplePoint, b: Triple<Fp>)
    requires Arith.Prime(P)
    modifies c
    ensures c.Val() == JacobianResult(PrimeField(), old(a.Val()), b)
    ensures JacobianSum(PrimeField(), old(a.Val()), b, c.Val())
  {
    var f := PrimeField();
    PrimeFieldIsField();
    JacobianResultIsSum(f, a.Val(), b);
    var S2 := Sq(f, a.Z);
    var bZ3 := f.mul(b.Z, b.Z);
    MulComm(f, S2, b.X);
    var U2 := f.mul(S2, b.X);
    var U1 := f.mul(a.X, bZ3);
    var S := f.mul(S2, b.Y);
    S2 := f.mul(S, a.Z);
    MulSwap(f, bZ3, a.Y, b.Z);
    bZ3 := f.mul(bZ3, b.Z);
    MulComm(f, a.Y, bZ3);
    var S1 := f.mul(a.Y, bZ3);
    var R := f.sub(S1, S2);
    var H := f.sub(U1, U2);
    var V := Sq(f, H);
    var G := f.mul(V, H);
    V := f.mul(V, U1);
    c.Z := f.mul(a.Z, b.Z);
    c.Z := f.mul(c.Z, H);
    var tmp := Sq(f, R);
    c.X := f.add(tmp, G);
    c.X := f.sub(c.X, V);
    c.X := f.sub(c.X, V);
    tmp := f.mul(S1, G);
    c.Y := f.sub(V, c.X);
    c.Y := f.mul(c.Y, R);
    c.Y := f.sub(c.Y, tmp);
  }

  method AddJacInplace(c: TriplePoint, a: TriplePoint)
    requires Arith.Prime(P)
    modifies c
    ensures c.Val() == JacobianResult(PrimeField(), old(c.Val()), old(a.Val()))
    ensures JacobianSum(PrimeField(), old(c.Val()), old(a.Val()), c.Val())
  {
    var tmp := new TriplePoint(0, 0, 0);
    AddJac(tmp, c, a);
    c.X, c.Y, c.Z := tmp.X, tmp.Y, tmp.Z;
  }

  /** Projective addition; the output may be either operand. */
  method AddProj(c: TriplePoint, a: TriplePoint, b: TriplePoint)
    requires Arith.Prime(P)
    modifies c
    ensures c.Val() == ProjectiveResult(PrimeField(), old(a.Val()), old(b.Val()))
    ensures ProjectiveSum(PrimeField(), old(a.Val()), old(b.Val()), c.Val())
  {
    var f := PrimeField();
    PrimeFieldIsField();
    ProjectiveResultIsSum(f, a.Val(), b.Val());
    var S2 := f.mul(b.Y, a.Z);
    var S1 := f.mul(a.Y, b.Z);
    var U2 := f.mul(b.X, a.Z);
    var U1 := f.mul(a.X, b.Z);
    FinishProj(c, U1, U2, S1, S2, f.mul(a.Z, b.Z));
  }

  method AddPlainProj(c: TriplePoint, a: TriplePoint, b: Triple<Fp>)
    requires Arith.Prime(P)
    modifies c
    ensures c.Val() == ProjectiveResult(PrimeField(), old(a.Val()), b)
    ensures ProjectiveSum(PrimeField(), old(a.Val()), b, c.Val())
  {
    var f := PrimeField();
    PrimeFieldIsField();
    ProjectiveResultIsSum(f, a.Val(), b);
    MulComm(f, a.Z, b.Y);
    MulComm(f, a.Z, b.X);
    var S2 := f.mul(a.Z, b.Y);
    var S1 := f.mul(a.Y, b.Z);
    var U2 := f.mul(a.Z, b.X);
    var U1 := f.mul(a.X, b.Z);
    FinishProj(c, U1, U2, S1, S2, f.mul(a.Z, b.Z));
  }

  /** The common second half of both projective additions. */
  method FinishProj(c: TriplePoint, U1: Fp, U2: Fp, S1: Fp, S2: Fp, T: Fp)
    modifies c
    ensures c.Val() == FromProjectiveParts(PrimeField(), U1, U2, S1, S2, T)
  {
    var f := PrimeField();
    var R := f.sub(S1, S2);
    var H := f.sub(U1, U2);
    var H2 := Sq(f, H);
    var V := f.mul(U1, H2);
    var G := f.mul(H2, H);
    var R2 := Sq(f, R);
    var W := f.mul(R2, T);
    W := f.add(W, G);
    W := f.sub(W, V);
    W := f.sub(W, V);
    c.Z := f.mul(T, G);
    var tmp := f.mul(S1, G);
    c.Y := f.sub(V, W);
    c.Y := f.mul(c.Y, R);
    c.Y := f.sub(c.Y, tmp);
    c.X := f.mul(H, W);
  }

  method AddProjInplace(c: TriplePoint, a: TriplePoint)
    requires Arith.Prime(P)
    modifies c
    ensures c.Val() == ProjectiveResult(PrimeField(), old(c.Val()), old(a.Val()))
    ensures ProjectiveSum(PrimeField(), old(c.Val()), old(a.Val()), c.Val())
  {
    var tmp := new TriplePoint(0, 0, 0);
    AddProj(tmp, c, a);
    c.X, c.Y, c.Z := tmp.X, tmp.Y, tmp.Z;
  }
}
