/** The number theory the kernels rest on: Fermat's theorem, the bound on the number of roots of a
    polynomial modulo a prime, and Euler's criterion in both directions. */
module NumberTheory {
  import opened Arith

  // ----- binomial coefficients and Fermat's theorem

  function Choose(n: nat, k: nat): nat
  {
    if k == 0 then 1 else if n == 0 then 0 else Choose(n - 1, k - 1) + Choose(n - 1, k)
  }

  lemma {:induction false} ChooseBeyond(n: nat, k: nat)
    requires k > n
    ensures Choose(n, k) == 0
  {
    if n > 0 {
      ChooseBeyond(n - 1, k - 1);
      ChooseBeyond(n - 1, k);
    }
  }

  lemma {:induction false} ChooseAll(n: nat)
    ensures Choose(n, n) == 1
  {
    if n > 0 {
      ChooseAll(n - 1);
      ChooseBeyond(n - 1, n);
    }
  }

  /** k C(n, k) = n C(n-1, k-1) */
  lemma {:induction false} Absorption(n: nat, k: nat)
    requires n >= 1 && k >= 1
    ensures k * Choose(n, k) == n * Choose(n - 1, k - 1)
  {
    if n == 1 {
      if k > 1 { ChooseBeyond(0, k - 1); ChooseBeyond(1, k); }
    } else if k == 1 {
      Absorption(n - 1, 1);
    } else {
      Absorption(n - 1, k - 1);
      Absorption(n - 1, k);
      var x, y, z := Choose(n - 1, k - 1), Choose(n - 1, k), Choose(n - 2, k - 2);
      var w := Choose(n - 2, k - 1);
      AbsorptionStep(n, k, x, y, z, w);
    }
  }

  lemma AbsorptionStep(n: int, k: int, x: int, y: int, z: int, w: int)
    requires (k - 1) * x == (n - 1) * z && k * y == (n - 1) * w && x == z + w
    ensures k * (x + y) == n * x
  {
    assert k * (x + y) == (k - 1) * x + x + k * y;
    assert (n - 1) * z + (n - 1) * w == (n - 1) * (z + w);
  }

  lemma PrimeDividesChoose(p: int, k: nat)
    requires Prime(p) && 0 < k < p
    ensures Choose(p, k) % p == 0
  {
    Absorption(p, k);
    var c, d := Choose(p, k), Choose(p - 1, k - 1);
    assert k * c == 0 + d * p;
    ShiftMod(0, d, p);
    Small(0, p);
    Small(k, p);
    EuclidLemma(k, c, p);
  }

  /** C(n,k) + C(n,k+1) x + ... + C(n,n) x^(n-k) */
  function BinomialTail(n: nat, k: nat, x: int): int
    decreases n + 1 - k
  {
    if k > n then 0 else Choose(n, k) + x * BinomialTail(n, k + 1, x)
  }

  lemma TailShuffle(x: int, c: int, c': int, t: int, t': int, both: int)
    requires both == t + t'
    ensures (c + c') + x * both == (c + x * t) + (c' + x * t')
  {
    MulDistributes(x, t, t');
  }

  lemma {:induction false} BinomialTailStep(n: nat, k: nat, x: int)
    requires k <= n + 1
    ensures BinomialTail(n + 1, k + 1, x) == BinomialTail(n, k, x) + BinomialTail(n, k + 1, x)
    decreases n + 1 - k
  {
    if k < n + 1 {
      BinomialTailStep(n, k + 1, x);
      if k + 1 > n { ChooseBeyond(n, k + 1); }
      TailShuffle(x, Choose(n, k), Choose(n, k + 1), BinomialTail(n, k + 1, x), BinomialTail(n, k + 2, x),
                  BinomialTail(n + 1, k + 2, x));
    }
  }

  lemma {:induction false} BinomialTheorem(n: nat, x: int)
    ensures BinomialTail(n, 0, x) == Pow(1 + x, n)
  {
    if n > 0 {
      BinomialTheorem(n - 1, x);
      BinomialTailStep(n - 1, 0, x);
      WholeTail(n, x);
      WholeTail(n - 1, x);
      TheoremStep(x, BinomialTail(n - 1, 0, x), BinomialTail(n - 1, 1, x), BinomialTail(n, 0, x));
    } else {
      assert BinomialTail(0, 1, x) == 0;
    }
  }

  lemma WholeTail(n: nat, x: int)
    ensures BinomialTail(n, 0, x) == 1 + x * BinomialTail(n, 1, x)
  {}

  lemma TheoremStep(x: int, s: int, t: int, full: int)
    requires s == 1 + x * t && full == 1 + x * (s + t)
    ensures full == (1 + x) * s
  {
    MulDistributes(x, s, t);
  }

  lemma {:induction false} BinomialTailModPrime(p: int, k: nat, x: int)
    requires Prime(p) && 1 <= k <= p
    ensures BinomialTail(p, k, x) % p == Pow(x, p - k) % p
    decreases p - k
  {
    if k == p {
      ChooseAll(p);
      assert BinomialTail(p, p + 1, x) == 0;
    } else {
      BinomialTailModPrime(p, k + 1, x);
      PrimeDividesChoose(p, k);
      Small(0, p);
      var t, u := BinomialTail(p, k + 1, x), Pow(x, p - k - 1);
      CongMul(x, x, t, u, p);
      CongAdd(Choose(p, k), 0, x * t, x * u, p);
    }
  }

  lemma {:induction false} FermatSelf(x: nat, p: int)
    requires Prime(p)
    ensures Pow(x, p) % p == x % p
  {
    if x > 0 {
      FermatSelf(x - 1, p);
      var y := x - 1;
      BinomialTheorem(p, y);
      BinomialTailModPrime(p, 1, y);
      CongMul(y, y, BinomialTail(p, 1, y), Pow(y, p - 1), p);
      CongAdd(1, 1, y * BinomialTail(p, 1, y), y * Pow(y, p - 1), p);
      CongAdd(1, 1, Pow(y, p), y, p);
    }
  }

  /** Fermat's theorem. */
  lemma Fermat(a: int, p: int)
    requires Prime(p) && a % p != 0
    ensures Pow(a, p - 1) % p == 1
  {
    var x := a % p;
    FermatSelf(x, p);
    ModMod(a, p);
    CongPow(a, x, p - 1, p);
    assert (x * Pow(x, p - 1)) % p == (x * 1) % p;
    Cancel(Pow(x, p - 1), 1, x, p);
    Small(1, p);
  }

  // ----- polynomials, constant coefficient first

  function Eval(c: seq<int>, x: int): int
  {
    if |c| == 0 then 0 else c[0] + x * Eval(c[1..], x)
  }

  /** The sum of two polynomials. */
  function AddPoly(a: seq<int>, b: seq<int>): (c: seq<int>)
    requires |a| == |b|
    ensures |c| == |a|
  {
    seq(|a|, i requires 0 <= i < |a| => a[i] + b[i])
  }

  lemma {:induction false} EvalAddPoly(a: seq<int>, b: seq<int>, x: int)
    requires |a| == |b|
    ensures Eval(AddPoly(a, b), x) == Eval(a, x) + Eval(b, x)
  {
    if |a| > 0 {
      EvalAddPoly(a[1..], b[1..], x);
      assert AddPoly(a, b)[1..] == AddPoly(a[1..], b[1..]);
      MulDistributes(x, Eval(a[1..], x), Eval(b[1..], x));
    }
  }

  lemma {:induction false} EvalZeros(n: nat, x: int)
    ensures Eval(seq(n, _ => 0), x) == 0
  {
    if n > 0 {
      EvalZeros(n - 1, x);
      assert seq(n, _ => 0)[1..] == seq(n - 1, _ => 0);
    }
  }

  /** Synthetic division by X - r. */
  function Divide(c: seq<int>, r: int): (q: seq<int>)
    requires |c| >= 1
    ensures |q| == |c| - 1
  {
    if |c| == 1 then [] else [Eval(c[1..], r)] + Divide(c[1..], r)
  }

  lemma {:induction false} DivideCorrect(c: seq<int>, r: int, x: int)
    requires |c| >= 1
    ensures Eval(c, x) == Eval(Divide(c, r), x) * (x - r) + Eval(c, r)
  {
    if |c| == 1 {
      assert Eval(c[1..], x) == 0 && Eval(c[1..], r) == 0;
    } else {
      DivideCorrect(c[1..], r, x);
      var q := Divide(c, r);
      assert q[1..] == Divide(c[1..], r);
      var t, tr, qq := Eval(c[1..], x), Eval(c[1..], r), Eval(q[1..], x);
      assert t == qq * (x - r) + tr;
      DivideStep(c[0], t, tr, qq, r, x);
    }
  }

  lemma DivideStep(c0: int, t: int, tr: int, q: int, r: int, x: int)
    requires t == q * (x - r) + tr
    ensures c0 + x * t == (tr + x * q) * (x - r) + (c0 + r * tr)
  {
    calc {
      (tr + x * q) * (x - r) + (c0 + r * tr);
      tr * x - tr * r + (x * q) * (x - r) + c0 + r * tr;
      { assert (x * q) * (x - r) == x * (q * (x - r)); }
      tr * x + x * (t - tr) + c0;
      { assert x * (t - tr) == x * t - x * tr; }
      c0 + x * t;
    }
  }

  lemma {:induction false} DivideLeading(c: seq<int>, r: int)
    requires |c| >= 2
    ensures Divide(c, r)[|c| - 2] == c[|c| - 1]
  {
    if |c| == 2 {
      assert c[1..][1..] == [];
    } else {
      DivideLeading(c[1..], r);
    }
  }

  ghost predicate DistinctRoots(c: seq<int>, roots: seq<int>, p: int)
    requires p > 0
  {
    && (forall i :: 0 <= i < |roots| ==> Eval(c, roots[i]) % p == 0)
    && (forall i, j :: 0 <= i < j < |roots| ==> (roots[j] - roots[i]) % p != 0)
  }

  lemma EvalConstant(c: seq<int>, x: int)
    requires |c| == 1
    ensures Eval(c, x) == c[0]
  {
    assert Eval(c[1..], x) == 0;
  }

  /** A polynomial of degree d over the integers modulo a prime has at most d roots. */
  lemma {:induction false} RootBound(c: seq<int>, roots: seq<int>, p: int)
    requires Prime(p) && |c| >= 1 && c[|c| - 1] % p != 0
    requires DistinctRoots(c, roots, p)
    ensures |roots| < |c|
    decreases |c|
  {
    if |roots| > 0 {
      if |c| == 1 {
        EvalConstant(c, roots[0]);
      } else {
        var r, rest, q := roots[0], roots[1..], Divide(c, roots[0]);
        forall i | 0 <= i < |rest| ensures Eval(q, rest[i]) % p == 0 {
          var s := rest[i];
          assert s == roots[i + 1];
          DivideCorrect(c, r, s);
          CongSub(Eval(c, s), 0, Eval(c, r), 0, p);
          EuclidLemma(Eval(q, s), s - r, p);
        }
        DivideLeading(c, r);
        RootBound(q, rest, p);
      }
    }
  }

  // ----- Euler's criterion

  /** X^h - 1 as a coefficient sequence. */
  function PowerMinusOne(h: nat): (c: seq<int>)
    requires h >= 1
    ensures |c| == h + 1 && c[h] == 1
  {
    [-1] + Monomial(h - 1)
  }

  function Monomial(h: nat): (c: seq<int>)
    ensures |c| == h + 1 && c[h] == 1
  {
    if h == 0 then [1] else [0] + Monomial(h - 1)
  }

  lemma {:induction false} EvalMonomial(h: nat, x: int)
    ensures Eval(Monomial(h), x) == Pow(x, h)
  {
    if h == 0 {
      assert Eval([1][1..], x) == 0;
    } else {
      EvalMonomial(h - 1, x);
      assert Monomial(h)[1..] == Monomial(h - 1);
    }
  }

  lemma EvalPowerMinusOne(h: nat, x: int)
    requires h >= 1
    ensures Eval(PowerMinusOne(h), x) == Pow(x, h) - 1
  {
    EvalMonomial(h - 1, x);
    assert PowerMinusOne(h)[1..] == Monomial(h - 1);
  }

  predicate IsSquare(a: int, p: int)
    requires p > 0
  {
    exists s :: 0 <= s < p && (s * s) % p == a % p
  }

  predicate OddPrime(p: int) {
    Prime(p) && p > 2
  }

  lemma OddPrimeIsOdd(p: int)
    requires OddPrime(p)
    ensures p == 2 * ((p - 1) / 2) + 1 && (p - 1) / 2 >= 1
  {
    assert p % 2 != 0;
  }

  /** The squares 1, 4, 9, ..., h^2 with h = (p-1)/2. */
  function SquaresUpTo(h: nat): (s: seq<int>)
    ensures |s| == h
    ensures forall i :: 0 <= i < h ==> s[i] == (i + 1) * (i + 1)
  {
    if h == 0 then [] else SquaresUpTo(h - 1) + [h * h]
  }

  lemma PowerIsOneOrMinusOne(a: int, p: int)
    requires OddPrime(p) && a % p != 0
    ensures var x := Pow(a, (p - 1) / 2) % p; x == 1 || x == p - 1
  {
    OddPrimeIsOdd(p);
    var h := (p - 1) / 2;
    Fermat(a, p);
    Pow2Split(a, h);
    RootsOfOne(Pow(a, h), p);
  }

  lemma SquareHasPowerOne(a: int, p: int)
    requires OddPrime(p) && a % p != 0 && IsSquare(a, p)
    ensures Pow(a, (p - 1) / 2) % p == 1
  {
    OddPrimeIsOdd(p);
    var h := (p - 1) / 2;
    var s :| 0 <= s < p && (s * s) % p == a % p;
    CongPow(a, s * s, h, p);
    Pow2Split(s, h);
    if s % p == 0 {
      Small(s, p);
      Small(0, p);
    }
    Fermat(s, p);
  }

  lemma SmallSquaresDistinct(i: int, j: int, p: int)
    requires OddPrime(p) && 1 <= i < j <= (p - 1) / 2
    ensures (j * j - i * i) % p != 0
  {
    OddPrimeIsOdd(p);
    assert (j - i) * (j + i) == j * j - i * i;
    Small(j - i, p);
    Small(j + i, p);
    NonzeroProduct(j - i, j + i, p);
  }

  lemma PowerOneIsSquare(a: int, p: int)
    requires OddPrime(p) && Pow(a, (p - 1) / 2) % p == 1
    ensures IsSquare(a, p)
  {
    OddPrimeIsOdd(p);
    var h := (p - 1) / 2;
    if !IsSquare(a, p) {
      var c, squares := PowerMinusOne(h), SquaresUpTo(h);
      var roots := [a] + squares;
      Small(1, p);
      forall i | 0 <= i < |roots| ensures Eval(c, roots[i]) % p == 0 {
        EvalPowerMinusOne(h, roots[i]);
        if i > 0 {
          Pow2Split(i, h);
          Small(i, p);
          Fermat(i, p);
        }
        CongIffDiff(Pow(roots[i], h), 1, p);
      }
      forall i, j | 0 <= i < j < |roots| ensures (roots[j] - roots[i]) % p != 0 {
        if i == 0 {
          assert roots[j] == j * j;
          CongIffDiff(j * j, a, p);
        } else {
          SmallSquaresDistinct(i, j, p);
        }
      }
      RootBound(c, roots, p);
      assert false;
    }
  }

  lemma ZeroPower(a: int, p: int)
    requires OddPrime(p) && a % p == 0
    ensures Pow(a, (p - 1) / 2) % p == 0
  {
    OddPrimeIsOdd(p);
    Small(0, p);
    CongPow(a, 0, (p - 1) / 2, p);
    assert Pow(0, (p - 1) / 2) == 0;
  }

  /** The Legendre symbol by its meaning. */
  function Legendre(a: int, p: int): int
    requires p > 0
  {
    if a % p == 0 then 0 else if IsSquare(a, p) then 1 else -1
  }

  /** Euler's criterion: a^((p-1)/2) is the Legendre symbol of a modulo p. */
  lemma EulerCriterion(a: int, p: int)
    requires OddPrime(p)
    ensures Pow(a, (p - 1) / 2) % p == Legendre(a, p) % p
    ensures Legendre(a, p) == 1 <==> Pow(a, (p - 1) / 2) % p == 1
    ensures Legendre(a, p) == -1 <==> Pow(a, (p - 1) / 2) % p == p - 1
  {
    Small(0, p);
    Small(1, p);
    ModUnique(-1, p, -1, p - 1);
    if a % p == 0 {
      ZeroPower(a, p);
    } else if IsSquare(a, p) {
      SquareHasPowerOne(a, p);
    } else {
      PowerIsOneOrMinusOne(a, p);
      if Pow(a, (p - 1) / 2) % p == 1 { PowerOneIsSquare(a, p); }
    }
  }

  lemma LegendreMultiplicative(a: int, b: int, p: int)
    requires OddPrime(p)
    ensures Legendre(a * b, p) == Legendre(a, p) * Legendre(b, p)
  {
    var h, l, k := (p - 1) / 2, Legendre(a, p), Legendre(b, p);
    EulerCriterion(a, p);
    EulerCriterion(b, p);
    EulerCriterion(a * b, p);
    PowProduct(a, b, h);
    CongMul(Pow(a, h), l, Pow(b, h), k, p);
    Small(0, p);
    Small(1, p);
    ModUnique(-1, p, -1, p - 1);
  }

  /** Every odd prime has a number that is no square modulo it. */
  lemma NonResidueExists(p: int) returns (n: int)
    requires OddPrime(p)
    ensures 0 < n < p && Legendre(n, p) == -1
  {
    OddPrimeIsOdd(p);
    var h := (p - 1) / 2;
    if forall i :: 0 < i < p ==> Legendre(i, p) == 1 {
      var roots := seq(p - 1, i => i + 1);
      forall i | 0 <= i < |roots| ensures Eval(PowerMinusOne(h), roots[i]) % p == 0 {
        EvalPowerMinusOne(h, i + 1);
        assert Legendre(i + 1, p) == 1;
        EulerCriterion(i + 1, p);
        Small(1, p);
        CongIffDiff(Pow(i + 1, h), 1, p);
      }
      forall i, j | 0 <= i < j < |roots| ensures (roots[j] - roots[i]) % p != 0 {
        Small(j - i, p);
      }
      RootBound(PowerMinusOne(h), roots, p);
      assert false;
    }
    n :| 0 < n < p && Legendre(n, p) != 1;
    Small(n, p);
  }
}
