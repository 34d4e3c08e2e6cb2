/** Residues modulo a prime held in limb arrays, in plain or in Montgomery representation:
    Math/Zp_Data.cpp (the constants) and Math/modp.hpp (the operations). */
module Modp {
  import opened Arith
  import opened Limbs
  import opened Montgomery

  // ----- the Montgomery constant

  /** A modulus with an inverse modulo B is prime to every power of B. */
  lemma {:induction false} PowerOfBNonzero(p: int, pi: int, t: nat)
    requires Prime(p) && (pi * p) % LIMB == LIMB - 1
    ensures PowB(t) % p != 0
  {
    Small(1, p);
    if t > 0 {
      PowerOfBNonzero(p, pi, t - 1);
      if LIMB % p == 0 {
        var k := (pi * p) / LIMB + 1;
        assert 1 == k * LIMB + (-pi) * p;
        Small(0, p);
        CongMul(k, k, LIMB, 0, p);
        ShiftMod(k * LIMB, -pi, p);
        assert false;
      }
      NonzeroProduct(LIMB, PowB(t - 1), p);
    }
  }

  /** r - p^-1 has lowest limb -1/p when r is a positive power of B. */
  lemma NegativeInverseLimb(p: int, inv: int, t: nat)
    requires t >= 1 && (inv * p) % PowB(t) == 1
    ensures (((PowB(t) - inv) % LIMB) * p) % LIMB == LIMB - 1
  {
    var r := PowB(t);
    var m := (inv * p) / r;
    assert inv * p == m * r + 1;
    MulModBoth(r - inv, p, LIMB);
    assert r == PowB(t - 1) * LIMB;
    calc {
      (r - inv) * p;
      r * p - inv * p;
      r * (p - m) - 1;
      { assert (PowB(t - 1) * LIMB) * (p - m) == (PowB(t - 1) * (p - m)) * LIMB; }
      -1 + (PowB(t - 1) * (p - m)) * LIMB;
    }
    ShiftMod(-1, PowB(t - 1) * (p - m), LIMB);
  }

  /** The residue that v stands for, when ri is the inverse of the representation factor. */
  function Residue(v: int, ri: int, p: int): int
    requires p > 0
  {
    (v * ri) % p
  }

  lemma ResidueOfProduct(z: int, x: int, y: int, r: int, ri: int, p: int)
    requires p > 1 && (r * ri) % p == 1 && (z * r) % p == (x * y) % p
    ensures Residue(z, ri, p) == (Residue(x, ri, p) * Residue(y, ri, p)) % p
  {
    MulModBoth(x * ri, y * ri, p);
    MulSwap(x, ri, y, ri);
    CongMul(z * r, x * y, ri * ri, ri * ri, p);
    assert (z * r) * (ri * ri) == (z * ri) * (r * ri);
    Small(1, p);
    CongMul(z * ri, z * ri, r * ri, 1, p);
  }

  /** A product with the factor r recovers the number, modulo p. */
  lemma ResidueOfScaled(v: int, a: int, r: int, ri: int, p: int)
    requires p > 1 && (r * ri) % p == 1 && v % p == (a * r) % p
    ensures Residue(v, ri, p) == a % p
  {
    CongMul(v, a * r, ri, ri, p);
    assert (a * r) * ri == a * (r * ri);
    Small(1, p);
    CongMul(a, a, r * ri, 1, p);
  }

  lemma ResidueInjective(v: int, w: int, r: int, ri: int, p: int)
    requires p > 1 && (r * ri) % p == 1 && 0 <= v < p && 0 <= w < p
    ensures Residue(v, ri, p) == Residue(w, ri, p) <==> v == w
  {
    if Residue(v, ri, p) == Residue(w, ri, p) {
      CongMul(v * ri, w * ri, r, r, p);
      Small(1, p);
      assert v * ri * r == v * (r * ri) && w * ri * r == w * (r * ri);
      CongMul(v, v, r * ri, 1, p);
      CongMul(w, w, r * ri, 1, p);
      Small(v, p);
      Small(w, p);
    }
  }

  lemma PowersOfFactor(b: int, p: int)
    requires p > 0
    ensures ((b % p) * (b % p)) % p == (b * b) % p
    ensures (((b * b) % p) * (b % p)) % p == (b * b * b) % p
  {
    MulModBoth(b, b, p);
    MulModBoth(b * b, b, p);
  }

  lemma ResidueOfNegative(v: int, ri: int, p: int)
    requires p > 0
    ensures Residue(p - v, ri, p) == (-Residue(v, ri, p)) % p
  {
    SubModBoth(0, v * ri, p);
    assert (p - v) * ri == -(v * ri) + ri * p;
    ShiftMod(-(v * ri), ri, p);
  }

  /** A Montgomery product with r^2 puts a number into Montgomery form. */
  lemma ScaledBySquare(w: int, v: int, r: int, ri: int, p: int)
    requires Prime(p) && r % p != 0 && (r * ri) % p == 1
    requires (w * r) % p == (v * ((r * r) % p)) % p
    ensures Residue(w, ri, p) == v % p
  {
    MulModBoth(v, r * r, p);
    assert v * (r * r) == r * (v * r) && w * r == r * w;
    Cancel(w, v * r, r, p);
    ResidueOfScaled(w, v, r, ri, p);
  }

  /** A Montgomery product with 1 takes a number out of Montgomery form. */
  lemma Unscaled(a: int, v: int, r: int, ri: int, p: int)
    requires p > 1 && (r * ri) % p == 1 && 0 <= a < p && (a * r) % p == (v * 1) % p
    ensures a == Residue(v, ri, p)
  {
    CongMul(a * r, v, ri, ri, p);
    assert (a * r) * ri == a * (r * ri);
    Small(1, p);
    CongMul(a, a, r * ri, 1, p);
    Small(a, p);
  }

  lemma PositiveCofactor(c: int, s: int, v: int, p: int)
    requires p > 1 && (c * v) % p == 1 && s == (if c < 0 then p + c else c)
    ensures (s * v) % p == 1
  {
    if c < 0 {
      assert s * v == c * v + v * p;
      ShiftMod(c * v, v, p);
    }
  }

  lemma PlainInverse(s: int, v: int, ri: int, p: int)
    requires p > 1 && (1 * ri) % p == 1 && (s * v) % p == 1
    ensures (Residue(s, ri, p) * Residue(v, ri, p)) % p == 1
  {
    ResidueOfScaled(s, s, 1, ri, p);
    ResidueOfScaled(v, v, 1, ri, p);
    MulModBoth(s, v, p);
  }

  datatype PowerResult = Done | NotImplemented

  /** -1/p modulo B, from the inverse of p modulo B^n. */
  function NegatedInverse(p: int, inv: int, n: nat, mont: bool): (pi: limb)
    requires mont ==> n >= 1 && (inv * p) % PowB(n) == 1
    ensures mont ==> (pi * p) % LIMB == LIMB - 1
  {
    if mont then NegativeInverseLimb(p, inv, n); (PowB(n) - inv) % LIMB else (PowB(n) - inv) % LIMB
  }

  /** The limbs of p and of b, b^2 and b^3 modulo p. */
  method LimbTables(b: int, p: int, n: nat) returns (a: array<limb>, r1: array<limb>, r2: array<limb>, r3: array<limb>)
    requires 0 < p < PowB(n)
    ensures fresh(a) && a.Length == n + 1 && ValAt(a[..], 0, n + 1) == p
    ensures fresh(r1) && fresh(r2) && fresh(r3) && r1.Length == r2.Length == r3.Length == n
    ensures ValAt(r1[..], 0, n) == b % p && ValAt(r2[..], 0, n) == (b * b) % p && ValAt(r3[..], 0, n) == (b * b * b) % p
  {
    var v1 := b % p;
    var v2 := (v1 * v1) % p;
    var v3 := (v2 * v1) % p;
    PowersOfFactor(b, p);
    assert p < PowB(n + 1) by { assert PowB(n + 1) == LIMB * PowB(n); }
    a := FromNumber(p, n + 1);
    r1 := FromNumber(v1, n);
    r2 := FromNumber(v2, n);
    r3 := FromNumber(v3, n);
  }

  lemma ModulusOf(a: seq<limb>, p: int, mont: bool, inv: int, n: nat)
    requires 1 <= n <= MAX_MOD_SZ && |a| == n + 1 && ValAt(a, 0, n + 1) == p && 0 < p < PowB(n)
    requires mont ==> (inv * p) % PowB(n) == 1
    ensures mont ==> Modulus(a, NegatedInverse(p, inv, n, mont), n, p)
  {}

  class ZpData {
    var montgomery: bool
    var pr: int
    var t: nat
    var pi: limb
    var prA: array<limb>
    var R: array<limb>
    var R2: array<limb>
    var R3: array<limb>

    ghost predicate Valid()
      reads this, prA, R, R2, R3
    {
      && Prime(pr) && pr > 2 && 1 <= t <= MAX_MOD_SZ
      && prA.Length == t + 1 && ValAt(prA[..], 0, t + 1) == pr && pr < PowB(t)
      && R.Length == t && R2.Length == t && R3.Length == t
      && (montgomery ==>
            && Modulus(prA[..], pi, t, pr) && Fits(pr, t)
            && ValAt(R[..], 0, t) == PowB(t) % pr
            && ValAt(R2[..], 0, t) == (PowB(t) * PowB(t)) % pr
            && ValAt(R3[..], 0, t) == (PowB(t) * PowB(t) * PowB(t)) % pr)
    }

    /** The tables that the operations read and never write. */
    ghost function Tables(): set<object>
      reads this
    {
      {prA, R, R2, R3}
    }

    /** The factor every stored number carries: B^t in Montgomery representation, 1 otherwise. */
    ghost function Factor(): int
      reads this
    {
      if montgomery then PowB(t) else 1
    }

    ghost function FactorInverse(): (ri: int)
      requires Valid()
      reads this, prA, R, R2, R3
      ensures (Factor() * ri) % pr == 1
    {
      Small(1, pr);
      if montgomery then
        PowerOfBNonzero(pr, pi, t);
        var ri := Inverse(PowB(t) % pr, pr);
        MulModBoth(PowB(t), ri, pr);
        ri
      else 1
    }

    /** x holds a reduced number. */
    ghost predicate Reduced(x: array<limb>)
      requires Valid()
      reads this, prA, R, R2, R3, x
    {
      x.Length >= t && ValAt(x[..], 0, t) < pr
    }

    /** The residue that the limbs of x stand for. */
    ghost function Abs(x: seq<limb>): (a: int)
      requires Valid() && |x| >= t
      reads this, prA, R, R2, R3
      ensures 0 <= a < pr
    {
      Residue(ValAt(x, 0, t), FactorInverse(), pr)
    }

    /** `inv` stands for the result of the library's inversion of p modulo B^t. */
    constructor (p: int, mont: bool, inv: int)
      requires Prime(p) && p > 2 && LimbCount(p) <= MAX_MOD_SZ
      requires mont ==> Fits(p, LimbCount(p)) && 0 <= inv < PowB(LimbCount(p)) && (inv * p) % PowB(LimbCount(p)) == 1
      ensures Valid() && pr == p && montgomery == mont && fresh(Tables())
      ensures t == LimbCount(p)
    {
      hide Prime, LimbCount, NegatedInverse, Fits, ValAt, PowB, Montgomery.Modulus;
      var n := LimbCount(p);
      var a, a1, a2, a3 := LimbTables(PowB(n), p, n);
      ModulusOf(a[..], p, mont, inv, n);
      montgomery, pr, t := mont, p, n;
      pi := NegatedInverse(p, inv, n, mont);
      prA, R, R2, R3 := a, a1, a2, a3;
    }

    /** Stores the number n in the first t limbs of x. */
    method Store(x: array<limb>, n: nat)
      requires Valid() && x !in Tables() && x.Length >= t && n < pr
      modifies x
      ensures Valid() && Reduced(x) && ValAt(x[..], 0, t) == n
      ensures Factor() == old(Factor()) && FactorInverse() == old(FactorInverse())
    {
      var a := FromNumber(n, t);
      Copy(x, a, 0, t);
    }

    method AssignOne(x: array<limb>)
      requires Valid() && x !in Tables() && x.Length >= t
      modifies x
      ensures Valid() && Reduced(x) && Abs(x[..]) == 1
    {
      ghost var ri := FactorInverse();
      if montgomery {
        Copy(x, R, 0, t);
        ModMod(PowB(t), pr);
        ResidueOfScaled(ValAt(x[..], 0, t), 1, PowB(t), ri, pr);
      } else {
        Store(x, 1);
        ResidueOfScaled(1, 1, 1, ri, pr);
      }
      Small(1, pr);
    }

    method IsOne(x: array<limb>) returns (b: bool)
      requires Valid() && Reduced(x)
      ensures b <==> Abs(x[..]) == 1
    {
      ghost var ri, v := FactorInverse(), ValAt(x[..], 0, t);
      Small(1, pr);
      if montgomery {
        var c := Cmp(x, 0, R, t);
        ModMod(PowB(t), pr);
        ResidueOfScaled(PowB(t) % pr, 1, PowB(t), ri, pr);
        ResidueInjective(v, PowB(t) % pr, PowB(t), ri, pr);
        b := c == 0;
      } else {
        var one := FromNumber(1, t);
        var c := Cmp(x, 0, one, t);
        ResidueOfScaled(1, 1, 1, ri, pr);
        ResidueInjective(v, 1, 1, ri, pr);
        b := c == 0;
      }
    }

    method IsZero(x: array<limb>) returns (b: bool)
      requires Valid() && Reduced(x)
      ensures b <==> Abs(x[..]) == 0
    {
      Small(0, pr);
      ResidueInjective(ValAt(x[..], 0, t), 0, Factor(), FactorInverse(), pr);
      var i := 0;
      while i < t
        invariant 0 <= i <= t
        invariant forall j :: 0 <= j < i ==> x[j] == 0
      {
        if x[i] != 0 {
          NonzeroLimb(x[..][0..0 + t], i);
          return false;
        }
        i := i + 1;
      }
      ValZeros(x[..][0..0 + t]);
      b := true;
    }

    method AreEqual(x: array<limb>, y: array<limb>) returns (b: bool)
      requires Valid() && Reduced(x) && Reduced(y)
      ensures b <==> Abs(x[..]) == Abs(y[..])
    {
      var c := Cmp(x, 0, y, t);
      ResidueInjective(ValAt(x[..], 0, t), ValAt(y[..], 0, t), Factor(), FactorInverse(), pr);
      b := c == 0;
    }

    /** ans may be x or y. */
    method Mul(ans: array<limb>, x: array<limb>, y: array<limb>)
      requires Valid() && Reduced(x) && Reduced(y)
      requires ans !in Tables() && ans.Length >= t
      modifies ans
      ensures Valid() && Reduced(ans)
      ensures Abs(ans[..]) == (Abs(old(x[..])) * Abs(old(y[..]))) % pr
    {
      ghost var u, v, ri := ValAt(x[..], 0, t), ValAt(y[..], 0, t), FactorInverse();
      if montgomery {
        MontMult(ans, x, y, prA, pi, t, pr);
        ResidueOfProduct(ValAt(ans[..], 0, t), u, v, PowB(t), ri, pr);
      } else {
        var xs, ys := ValAt(x[..], 0, t), ValAt(y[..], 0, t);
        Store(ans, (xs * ys) % pr);
        ModMod(xs * ys, pr);
        ResidueOfProduct(ValAt(ans[..], 0, t), u, v, 1, ri, pr);
      }
    }

    method Sqr(ans: array<limb>, x: array<limb>)
      requires Valid() && Reduced(x)
      requires ans !in Tables() && ans.Length >= t
      modifies ans
      ensures Valid() && Reduced(ans)
      ensures Abs(ans[..]) == (Abs(old(x[..])) * Abs(old(x[..]))) % pr
    {
      Mul(ans, x, x);
    }

    method Negate(ans: array<limb>, x: array<limb>)
      requires Valid() && Reduced(x)
      requires ans !in Tables() && ans.Length >= t
      modifies ans
      ensures Valid() && Reduced(ans)
      ensures Abs(ans[..]) == (-Abs(old(x[..]))) % pr
    {
      hide Prime, ValAt, PowB;
      ghost var v, ri := ValAt(x[..], 0, t), FactorInverse();
      var zero := IsZero(x);
      Small(0, pr);
      ResidueInjective(v, 0, Factor(), ri, pr);
      if zero {
        if ans != x { Copy(ans, x, 0, t); }
      } else {
        LowLimbs();
        var borrow := SubN(ans, prA, 0, x, t);
        ValAtBound(ans[..], 0, t);
        UniqueDifference(pr - v, ValAt(ans[..], 0, t), 0, borrow, PowB(t));
        ResidueOfNegative(v, ri, pr);
      }
    }

    lemma LowLimbs()
      requires Valid()
      ensures ValAt(prA[..], 0, t) == pr
    {
      ValAtExtend(prA[..], 0, t);
      NoTop(pr, ValAt(prA[..], 0, t), prA[t], PowB(t));
    }

    /** The residue of any integer.  The remainder of the integer is taken towards zero and a
        negative one is subtracted from the prime. */
    method ToModp(ans: array<limb>, x: int)
      requires Valid() && ans !in Tables() && ans.Length >= t
      modifies ans
      ensures Valid() && Reduced(ans) && Abs(ans[..]) == x % pr
    {
      hide Prime;
      Small(0, pr);
      Small(1, pr);
      if x == 0 {
        Store(ans, 0);
      } else if x == 1 {
        AssignOne(ans);
      } else {
        var xx := if x >= 0 then x % pr else -((-x) % pr);
        var v := if xx < 0 then pr + xx else xx;
        ReducedTowardsZero(x, pr);
        Store(ans, v);
        ToRepresentation(ans, v);
        ModMod(x, pr);
      }
    }

    lemma ReducedTowardsZero(x: int, p: int)
      requires p > 0
      ensures var xx := if x >= 0 then x % p else -((-x) % p);
              (if xx < 0 then p + xx else xx) == x % p
    {
      if x < 0 {
        var q, r := (-x) / p, (-x) % p;
        if r == 0 { ModUnique(x, p, -q, 0); } else { ModUnique(x, p, -q - 1, p - r); }
      }
    }

    /** The last step of the conversion: multiplication by R2 in Montgomery representation. */
    method ToRepresentation(ans: array<limb>, ghost v: int)
      requires Valid() && ans !in Tables() && Reduced(ans) && ValAt(ans[..], 0, t) == v
      modifies ans
      ensures Valid() && Reduced(ans) && Abs(ans[..]) == v % pr
    {
      ghost var ri := FactorInverse();
      if montgomery {
        ModMod(PowB(t) * PowB(t), pr);
        MontMult(ans, ans, R2, prA, pi, t, pr);
        PowerOfBNonzero(pr, pi, t);
        ScaledBySquare(ValAt(ans[..], 0, t), v, PowB(t), ri, pr);
      } else {
        ResidueOfScaled(v, v, 1, ri, pr);
      }
    }

    /** The number in [0, p) that x stands for. */
    method ToBigint(x: array<limb>) returns (a: int)
      requires Valid() && Reduced(x)
      ensures a == Abs(x[..])
    {
      ghost var v, ri := ValAt(x[..], 0, t), FactorInverse();
      if montgomery {
        var one := FromNumber(1, t);
        var res := new limb[t];
        MontMult(res, x, one, prA, pi, t, pr);
        a := ValAt(res[..], 0, t);
        Unscaled(a, v, PowB(t), ri, pr);
      } else {
        a := ValAt(x[..], 0, t);
        ResidueOfScaled(v, v, 1, ri, pr);
        Small(v, pr);
      }
    }

    /** `cofactor` stands for the signed Bezout cofactor the library's extended gcd returns. */
    method Inv(ans: array<limb>, x: array<limb>, cofactor: int)
      requires Valid() && Reduced(x) && Abs(x[..]) != 0
      requires -pr < cofactor < pr && (cofactor * ValAt(x[..], 0, t)) % pr == 1
      requires ans !in Tables() && ans.Length >= t
      modifies ans
      ensures Valid() && Reduced(ans)
      ensures (Abs(ans[..]) * Abs(old(x[..]))) % pr == 1
    {
      ghost var v, ri := ValAt(x[..], 0, t), FactorInverse();
      var s := if cofactor < 0 then pr + cofactor else cofactor;
      PositiveCofactor(cofactor, s, v, pr);
      Store(ans, s);
      if montgomery {
        ghost var r := PowB(t);
        ModMod(r * r * r, pr);
        MontMult(ans, ans, R3, prA, pi, t, pr);
        MulModBoth(s, r * r * r, pr);
        PowerOfBNonzero(pr, pi, t);
        InverseRepresentation(ValAt(ans[..], 0, t), s, v, r, ri, pr);
      } else {
        PlainInverse(s, v, ri, pr);
      }
    }

    /** ans = x^exp. */
    method Power(ans: array<limb>, x: array<limb>, exp: int) returns (res: PowerResult)
      requires Valid() && Reduced(x)
      requires ans !in Tables() && ans.Length >= t
      modifies ans
      ensures Valid()
      ensures res.Done? <==> exp >= 0
      ensures exp >= 0 ==> Reduced(ans) && Abs(ans[..]) == Pow(Abs(old(x[..])), exp) % pr
    {
      ghost var a := Abs(x[..]);
      Small(a, pr);
      if exp == 1 {
        if ans != x {
          Copy(ans, x, 0, t);
        }
        assert Pow(a, 1) == a;
        return Done;
      }
      if exp == 0 {
        AssignOne(ans);
        Small(1, pr);
        return Done;
      }
      if exp < 0 {
        return NotImplemented;
      }
      var sq := new limb[t];
      Copy(sq, x, 0, t);
      AssignOne(ans);
      PowerLoop(ans, sq, exp);
      res := Done;
    }

    /** ans sq^exp, binary exponentiation from the low end. */
    method PowerLoop(ans: array<limb>, sq: array<limb>, exp: nat)
      requires Valid() && Reduced(ans) && Reduced(sq) && ans != sq && Abs(ans[..]) == 1
      requires ans !in Tables() && sq !in Tables() && ans.Length >= t && sq.Length >= t
      modifies ans, sq
      ensures Valid() && Reduced(ans) && Abs(ans[..]) == Pow(Abs(old(sq[..])), exp) % pr
    {
      ghost var a := Abs(sq[..]);
      var e := exp;
      while e != 0
        invariant Valid() && Reduced(ans) && Reduced(sq)
        invariant (Abs(ans[..]) * Pow(Abs(sq[..]), e)) % pr == Pow(a, exp) % pr
        decreases e
        modifies ans, sq
      {
        ghost var b, s := Abs(ans[..]), Abs(sq[..]);
        SquareAndMultiply(b, s, e, pr);
        if e % 2 == 1 {
          Mul(ans, ans, sq);
        }
        e := e / 2;
        Sqr(sq, sq);
      }
      Small(Abs(ans[..]), pr);
    }
  }

  lemma {:induction false} NonzeroLimb(s: seq<limb>, i: nat)
    requires i < |s| && s[i] != 0
    ensures Val(s) != 0
  {
    if i > 0 { NonzeroLimb(s[1..], i - 1); }
  }

  /** One step of binary exponentiation keeps ans * sq^e. */
  lemma SquareAndMultiply(b: int, s: int, e: nat, p: int)
    requires p > 0 && e > 0
    ensures var b' := if e % 2 == 1 then (b * s) % p else b;
            (b' * Pow((s * s) % p, e / 2)) % p == (b * Pow(s, e)) % p
  {
    var h := e / 2;
    ModMod(s * s, p);
    CongPow((s * s) % p, s * s, h, p);
    Pow2Split(s, h);
    var sq := Pow(s * s, h);
    if e % 2 == 1 {
      assert Pow(s, e) == s * sq;
      ModMod(b * s, p);
      CongMul((b * s) % p, b * s, Pow((s * s) % p, h), sq, p);
      assert (b * s) * sq == b * (s * sq);
    } else {
      CongMul(b, b, Pow((s * s) % p, h), sq, p);
    }
  }

  /** w r = s r^3 and s v = 1 make w the Montgomery form of the inverse of v's residue. */
  lemma InverseRepresentation(w: int, s: int, v: int, r: int, ri: int, p: int)
    requires Prime(p) && r % p != 0 && (r * ri) % p == 1
    requires (w * r) % p == (s * (r * r * r)) % p && (s * v) % p == 1
    ensures (Residue(w, ri, p) * Residue(v, ri, p)) % p == 1
  {
    assert w * r == r * w && s * (r * r * r) == r * (s * (r * r));
    Cancel(w, s * (r * r), r, p);
    MulModBoth(w * ri, v * ri, p);
    MulSwap(w, ri, v, ri);
    CongMul(w, s * (r * r), v, v, p);
    CongMul(w * v, s * (r * r) * v, ri * ri, ri * ri, p);
    InverseShuffle(s, v, r, ri);
    Small(1, p);
    CongMul(r * ri, 1, r * ri, 1, p);
    CongMul(s * v, 1, (r * ri) * (r * ri), 1, p);
  }

  lemma InverseShuffle(s: int, v: int, r: int, ri: int)
    ensures s * (r * r) * v * (ri * ri) == (s * v) * ((r * ri) * (r * ri))
  {
    MulSwap(r, r, ri, ri);
    assert s * (r * r) * v == (s * v) * (r * r);
    assert (s * v) * (r * r) * (ri * ri) == (s * v) * ((r * r) * (ri * ri));
  }
}
