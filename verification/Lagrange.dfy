/** Lagrange recombination at zero from the points 1..n: Math/Lagrange.cpp. */
module Lagrange {
  import opened Arith
  import opened NumberTheory
  import opened OnlineOp

  // ----- iterated differences of a polynomial

  /** The n-th forward difference at x. */
  function Diff(c: seq<int>, n: nat, x: int): int
    decreases n
  {
    if n == 0 then Eval(c, x) else Diff(c, n - 1, x + 1) - Diff(c, n - 1, x)
  }

  /** Differences of c_0 + X g. */
  lemma {:induction false} DiffHorner(c: seq<int>, n: nat, x: int)
    requires |c| >= 1 && n >= 1
    ensures Diff(c, n, x) == x * Diff(c[1..], n, x) + n * Diff(c[1..], n - 1, x + 1)
  {
    var g := c[1..];
    if n == 1 {
      assert Diff(g, 1, x) == Eval(g, x + 1) - Eval(g, x);
      assert Diff(c, 1, x) == Eval(c, x + 1) - Eval(c, x);
      assert (x + 1) * Eval(g, x + 1) - x * Eval(g, x) == x * (Eval(g, x + 1) - Eval(g, x)) + Eval(g, x + 1);
    } else {
      DiffHorner(c, n - 1, x + 1);
      DiffHorner(c, n - 1, x);
      DiffShuffle(x, n, Diff(g, n - 1, x + 1), Diff(g, n - 1, x), Diff(g, n - 2, x + 2), Diff(g, n - 2, x + 1));
    }
  }

  lemma DiffShuffle(x: int, n: int, a: int, b: int, d: int, e: int)
    requires a == d - e
    ensures ((x + 1) * a + (n - 1) * d) - (x * b + (n - 1) * e) == x * (a - b) + n * a
  {
    assert (n - 1) * d - (n - 1) * e == (n - 1) * (d - e);
    assert (x + 1) * a - x * b == x * (a - b) + a;
    assert n * a == (n - 1) * a + a;
  }

  function Factorial(n: nat): (f: nat)
    ensures f >= 1
  {
    if n == 0 then 1 else n * Factorial(n - 1)
  }

  /** The n-th difference kills degrees below n and turns X^n into n!. */
  lemma {:induction false} DiffTop(c: seq<int>, n: nat, x: int)
    requires |c| <= n + 1
    ensures Diff(c, n, x) == if |c| == n + 1 then Factorial(n) * c[n] else 0
    decreases |c|, n
  {
    if |c| == 0 {
      DiffZero(c, n, x);
    } else if n == 0 {
      EvalConstant(c, x);
    } else {
      DiffHorner(c, n, x);
      DiffTop(c[1..], n, x);
      DiffTop(c[1..], n - 1, x + 1);
      if |c| == n + 1 {
        assert n * (Factorial(n - 1) * c[n]) == Factorial(n) * c[n];
      }
    }
  }

  lemma {:induction false} DiffZero(c: seq<int>, n: nat, x: int)
    requires |c| == 0
    ensures Diff(c, n, x) == 0
    decreases n
  {
    if n > 0 {
      DiffZero(c, n - 1, x + 1);
      DiffZero(c, n - 1, x);
    }
  }

  // ----- the alternating binomial sum

  function Sign(i: nat): int { if i % 2 == 0 then 1 else -1 }

  /** The sum of (-1)^i C(n,i) f(x+i) over i < k. */
  function AltSum(c: seq<int>, n: nat, x: int, k: nat): int
  {
    if k == 0 then 0 else AltSum(c, n, x, k - 1) + Sign(k - 1) * Choose(n, k - 1) * Eval(c, x + k - 1)
  }

  lemma {:induction false} AltSumPascal(c: seq<int>, n: nat, x: int, k: nat)
    ensures AltSum(c, n + 1, x, k + 1) == AltSum(c, n, x, k + 1) - AltSum(c, n, x + 1, k)
    decreases k
  {
    if k == 0 {
      assert AltSum(c, n + 1, x, 0) == 0 && AltSum(c, n, x, 0) == 0;
    } else {
      AltSumPascal(c, n, x, k - 1);
      var f := Eval(c, x + k);
      assert x + (k + 1) - 1 == x + k && x + 1 + k - 1 == x + k;
      SignStep(Sign(k), Choose(n, k - 1), Choose(n, k), f);
      assert Sign(k - 1) == -Sign(k);
    }
  }

  lemma SignStep(s: int, a: int, b: int, f: int)
    ensures s * (a + b) * f == s * b * f - (-s) * a * f
  {
    assert s * (a + b) * f == (s * a + s * b) * f;
  }

  lemma {:induction false} AltSumIsDiff(c: seq<int>, n: nat, x: int)
    ensures AltSum(c, n, x, n + 1) == Sign(n) * Diff(c, n, x)
    decreases n
  {
    if n == 0 {
      assert AltSum(c, 0, x, 0) == 0;
    } else {
      hide AltSum, Diff;
      AltSumPascal(c, n - 1, x, n);
      AltSumIsDiff(c, n - 1, x);
      AltSumIsDiff(c, n - 1, x + 1);
      LastTermVanishes(c, n, x);
      DiffUnfold(c, n, x);
      OppositeSigns(Sign(n - 1), Sign(n), Diff(c, n - 1, x), Diff(c, n - 1, x + 1));
    }
  }

  lemma DiffUnfold(c: seq<int>, n: nat, x: int)
    requires n >= 1
    ensures Diff(c, n, x) == Diff(c, n - 1, x + 1) - Diff(c, n - 1, x)
  {}

  lemma LastTermVanishes(c: seq<int>, n: nat, x: int)
    requires n >= 1
    ensures AltSum(c, n - 1, x, n + 1) == AltSum(c, n - 1, x, n)
  {
    ChooseBeyond(n - 1, n);
    assert Sign(n) * Choose(n - 1, n) * Eval(c, x + n) == 0;
  }

  lemma OppositeSigns(s': int, s: int, d: int, e: int)
    requires s' == -s
    ensures s' * d - s' * e == s * (e - d)
  {}

  // ----- the weights

  /** The integer Lagrange weight of point i among 1..n, at zero. */
  function Weight(n: nat, i: nat): int
    requires i >= 1
  {
    Sign(i - 1) * Choose(n, i)
  }

  /** The product of -k over k <= m other than i. */
  function Numerator(m: nat, i: nat): int
  {
    if m == 0 then 1 else if m == i then Numerator(m - 1, i) else Numerator(m - 1, i) * (0 - m)
  }

  /** The product of i - k over k <= m other than i. */
  function Denominator(m: nat, i: nat): int
  {
    if m == 0 then 1 else if m == i then Denominator(m - 1, i) else Denominator(m - 1, i) * (i - m)
  }

  lemma SignedFactorial(s': int, s: int, f: int, m: int)
    requires s == -s'
    ensures (s' * f) * (0 - m) == s * (m * f)
  {
    assert (s' * f) * (0 - m) == s' * -(m * f) by { assert s' * (f * (0 - m)) == (s' * f) * (0 - m); }
    assert s' * -(m * f) == (-s') * (m * f);
  }

  lemma {:induction false} NumeratorBelow(m: nat, i: nat)
    requires m < i
    ensures Numerator(m, i) == Sign(m) * Factorial(m)
  {
    if m > 0 {
      NumeratorBelow(m - 1, i);
      SignedFactorial(Sign(m - 1), Sign(m), Factorial(m - 1), m);
    }
  }

  lemma {:induction false} DenominatorBelow(m: nat, i: nat)
    requires m < i
    ensures Denominator(m, i) * Factorial(i - 1 - m) == Factorial(i - 1)
  {
    if m > 0 {
      DenominatorBelow(m - 1, i);
      Regroup(Denominator(m - 1, i), i - m, Factorial(i - 1 - m), Factorial(i - m), Factorial(i - 1));
    }
  }

  lemma Regroup(d: int, k: int, f: int, kf: int, total: int)
    requires kf == k * f && d * kf == total
    ensures (d * k) * f == total
  {
    assert d * (k * f) == (d * k) * f;
  }

  /** (n+1-i) C(n+1,i) = (n+1) C(n,i) */
  lemma UpperAbsorption(n: nat, i: nat)
    requires i >= 1
    ensures (n + 1 - i) * Choose(n + 1, i) == (n + 1) * Choose(n, i)
  {
    Absorption(n + 1, i);
    AbsorptionShuffle(n, i, Choose(n, i - 1), Choose(n, i));
  }

  lemma AbsorptionShuffle(n: int, i: int, a: int, b: int)
    requires i * (a + b) == (n + 1) * a
    ensures (n + 1 - i) * (a + b) == (n + 1) * b
  {
    MulDistributes(n + 1, a, b);
    assert (n + 1 - i) * (a + b) == (n + 1) * (a + b) - i * (a + b);
  }

  /** The weight is the quotient of the two products. */
  lemma {:induction false} WeightIsQuotient(n: nat, i: nat)
    requires 1 <= i <= n
    ensures Numerator(n, i) == Weight(n, i) * Denominator(n, i)
    decreases n
  {
    if n == i {
      NumeratorBelow(i - 1, i);
      DenominatorBelow(i - 1, i);
      ChooseAll(i);
      assert Factorial(0) == 1;
    } else {
      WeightIsQuotient(n - 1, i);
      UpperAbsorption(n - 1, i);
      WeightStep(n, i, Sign(i - 1), Choose(n - 1, i), Choose(n, i), Denominator(n - 1, i));
    }
  }

  lemma WeightStep(n: int, i: int, s: int, c0: int, c: int, d: int)
    requires (n - i) * c == n * c0
    ensures (s * c0) * d * -n == (s * c) * (d * (i - n))
  {
    assert (s * c) * (d * (i - n)) == (s * d) * -((n - i) * c) by {
      assert (i - n) * c == -((n - i) * c);
      assert (s * c) * (d * (i - n)) == (s * d) * ((i - n) * c);
    }
    assert (s * c0) * d * -n == (s * d) * -(n * c0);
  }

  lemma {:induction false} DenominatorNonzero(m: nat, i: nat, r: int)
    requires Prime(r) && 1 <= i < r && m < r
    ensures Denominator(m, i) % r != 0
  {
    Small(1, r);
    if m > 0 {
      DenominatorNonzero(m - 1, i, r);
      if m != i {
        if i > m { Small(i - m, r); } else { ModUnique(i - m, r, -1, i - m + r); }
        NonzeroProduct(Denominator(m - 1, i), i - m, r);
      }
    }
  }

  lemma {:induction false} NumeratorNonzero(m: nat, i: nat, r: int)
    requires Prime(r) && m < r
    ensures Numerator(m, i) % r != 0
  {
    Small(1, r);
    if m > 0 {
      NumeratorNonzero(m - 1, i, r);
      var neg: int := 0 - m;
      ModUnique(neg, r, -1, r - m);
      if m != i { NonzeroProduct(Numerator(m - 1, i), neg, r); }
    }
  }

  /** No weight vanishes modulo a prime above the number of points. */
  lemma WeightNonzero(n: nat, i: nat, r: int)
    requires Prime(r) && 1 <= i <= n < r
    ensures Weight(n, i) % r != 0
  {
    WeightIsQuotient(n, i);
    NumeratorNonzero(n, i, r);
    if Weight(n, i) % r == 0 {
      Small(0, r);
      CongMul(Weight(n, i), 0, Denominator(n, i), Denominator(n, i), r);
    }
  }

  /** The Lagrange coefficient of the point pos among 1..n. */
  method GetLagrangeCoeff(n: nat, pos: nat, r: int) returns (lc: Outcome<int>)
    requires Prime(r) && n < r
    ensures lc.InvalidLength? <==> pos <= 0 || pos > n
    ensures lc.Ok? ==> lc.value == Weight(n, pos) % r
  {
    if pos <= 0 || pos > n {
      return InvalidLength;
    }
    var nume, deno := 1, 1;
    var xi := pos % r;
    Small(pos, r);
    Small(1, r);
    for k := 1 to n + 1
      invariant nume == Numerator(k - 1, pos) % r && deno == Denominator(k - 1, pos) % r
    {
      if k != pos {
        var xk := (-k) % r;
        MulModBoth(Numerator(k - 1, pos), -k, r);
        nume := Mul(nume, xk, r);
        AddModBoth(pos, -k, r);
        xk := Add(xi, xk, r);
        MulModBoth(Denominator(k - 1, pos), pos - k, r);
        deno := Mul(deno, xk, r);
      }
    }
    DenominatorNonzero(n, pos, r);
    var inv := Inverse(deno, r);
    QuotientModPrime(Numerator(n, pos), Denominator(n, pos), Weight(n, pos), inv, r) by {
      WeightIsQuotient(n, pos);
      MulModBoth(Denominator(n, pos), inv, r);
    }
    lc := Ok(Mul(inv, nume, r));
  }

  lemma QuotientModPrime(nume: int, deno: int, w: int, inv: int, r: int)
    requires r > 1 && nume == w * deno && (deno * inv) % r == 1
    ensures Mul(inv, nume % r, r) == w % r
  {
    MulModBoth(inv, nume, r);
    assert inv * nume == w * (deno * inv);
    Small(1, r);
    CongMul(w, w, deno * inv, 1, r);
  }

  // ----- sharing and recovering

  /** Shares are the values of the polynomial at 1..n. */
  function Shares(c: seq<int>, n: nat, r: int): (s: seq<int>)
    requires r > 0
    ensures |s| == n
  {
    seq(n, i requires 0 <= i < n => Eval(c, i + 1) % r)
  }

  function Weights(n: nat, r: int): (s: seq<int>)
    requires r > 0
    ensures |s| == n
  {
    seq(n, i requires 0 <= i < n => Weight(n, i + 1) % r)
  }

  /** The shares of s under the polynomial with the random coefficients rnd. */
  method SetShare(s: int, n: nat, rnd: seq<int>, r: int) returns (sh: seq<int>)
    requires r > 1 && 0 <= s < r && n < r && forall i :: 0 <= i < |rnd| ==> 0 <= rnd[i] < r
    ensures sh == Shares([s] + rnd, n, r)
    ensures |sh| == n && forall i :: 0 <= i < n ==> sh[i] == Eval([s] + rnd, i + 1) % r
  {
    var coeff := [s] + rnd;
    sh := [];
    for pos := 0 to n
      invariant |sh| == pos && forall j :: 0 <= j < pos ==> sh[j] == Eval(coeff, j + 1) % r
    {
      var xi := (pos + 1) % r;
      Small(pos + 1, r);
      var k := |coeff| - 1;
      var v := coeff[k];
      EvalConstant(coeff[k..], xi);
      Small(v, r);
      while k > 0
        invariant 0 <= k < |coeff|
        invariant v == Eval(coeff[k..], xi) % r
      {
        var rest := Eval(coeff[k..], xi);
        assert coeff[k - 1..][1..] == coeff[k..];
        MulModBoth(xi, rest, r);
        AddModBoth(xi * rest, coeff[k - 1], r);
        assert v * xi == xi * v;
        v := Add(Mul(v, xi, r), coeff[k - 1], r);
        k := k - 1;
      }
      assert coeff[0..] == coeff;
      sh := sh + [v];
    }
  }

  function Dot(a: seq<int>, b: seq<int>, k: nat): int
    requires k <= |a| && k <= |b|
  {
    if k == 0 then 0 else Dot(a, b, k - 1) + a[k - 1] * b[k - 1]
  }

  method RecoverShare(coeff: seq<int>, share: seq<int>, r: int) returns (secret: Outcome<int>)
    requires r > 1 && |coeff| >= 1
    ensures secret.InvalidLength? <==> |coeff| != |share|
    ensures secret.Ok? ==> secret.value == Dot(coeff, share, |coeff|) % r
  {
    if |coeff| != |share| {
      return InvalidLength;
    }
    var x := Mul(coeff[0], share[0], r);
    assert Dot(coeff, share, 1) == Dot(coeff, share, 0) + coeff[0] * share[0];
    for i := 1 to |coeff|
      invariant x == Dot(coeff, share, i) % r
    {
      AddModBoth(Dot(coeff, share, i), coeff[i] * share[i], r);
      x := Add(x, Mul(coeff[i], share[i], r), r);
    }
    secret := Ok(x);
  }

  /** The weighted sum of the values at 1..k, over the integers. */
  function WeightedSum(c: seq<int>, n: nat, k: nat): int
  {
    if k == 0 then 0 else WeightedSum(c, n, k - 1) + Weight(n, k) * Eval(c, k)
  }

  lemma {:induction false} WeightedIsAlternating(c: seq<int>, n: nat, k: nat)
    ensures WeightedSum(c, n, k) == Eval(c, 0) - AltSum(c, n, 0, k + 1)
  {
    if k == 0 {
      assert AltSum(c, n, 0, 0) == 0;
      assert AltSum(c, n, 0, 1) == Sign(0) * Choose(n, 0) * Eval(c, 0);
    } else {
      WeightedIsAlternating(c, n, k - 1);
      assert Sign(k - 1) == -Sign(k);
      var b, f := Choose(n, k), Eval(c, k);
      assert 0 + (k + 1) - 1 == k;
      assert (-Sign(k) * b) * f == -(Sign(k) * b * f);
    }
  }

  lemma {:induction false} DotIsWeighted(c: seq<int>, n: nat, k: nat, r: int)
    requires r > 0 && k <= n
    ensures Dot(Weights(n, r), Shares(c, n, r), k) % r == WeightedSum(c, n, k) % r
  {
    if k > 0 {
      DotIsWeighted(c, n, k - 1, r);
      var w, f := Weight(n, k), Eval(c, k);
      MulModBoth(w, f, r);
      CongAdd(Dot(Weights(n, r), Shares(c, n, r), k - 1), WeightedSum(c, n, k - 1), (w % r) * (f % r), w * f, r);
    }
  }

  /** Recombination over the integers is exact up to the coefficient of X^n. */
  lemma WeightedSumValue(c: seq<int>, n: nat)
    requires |c| <= n + 1
    ensures WeightedSum(c, n, n) == Eval(c, 0) - (if |c| == n + 1 then Sign(n) * (Factorial(n) * c[n]) else 0)
  {
    WeightedIsAlternating(c, n, n);
    AltSumIsDiff(c, n, 0);
    DiffTop(c, n, 0);
  }

  /** With fewer coefficients than shares, the weighted sum of the shares is the value at zero. */
  lemma RecombinationAtZero(c: seq<int>, n: nat, r: int)
    requires r > 0 && |c| <= n
    ensures Dot(Weights(n, r), Shares(c, n, r), n) % r == Eval(c, 0) % r
  {
    DotIsWeighted(c, n, n, r);
    WeightedSumValue(c, n);
  }

  lemma {:induction false} FactorialNonzero(n: nat, r: int)
    requires Prime(r) && n < r
    ensures Factorial(n) % r != 0
  {
    Small(1, r);
    if n > 0 {
      FactorialNonzero(n - 1, r);
      Small(n, r);
      NonzeroProduct(n, Factorial(n - 1), r);
    }
  }

  /** A threshold equal to the number of parties passes the constructor's check, but then the
      recovered value is the secret only if the leading coefficient happens to be zero. */
  lemma RecombinationAtFullThreshold(c: seq<int>, n: nat, r: int)
    requires Prime(r) && n < r && |c| == n + 1
    ensures Dot(Weights(n, r), Shares(c, n, r), n) % r == Eval(c, 0) % r <==> c[n] % r == 0
  {
    hide Prime, Factorial, Eval, Dot, Weights, Shares;
    DotIsWeighted(c, n, n, r);
    WeightedSumValue(c, n);
    FactorialNonzero(n, r);
    var fc := Factorial(n) * c[n];
    MultipleVanishesIff(Factorial(n), c[n], fc, r);
    SignKeepsZero(Eval(c, 0), Sign(n), fc, WeightedSum(c, n, n), r);
  }

  lemma SignKeepsZero(v: int, s: int, fc: int, w: int, r: int)
    requires r > 0 && (s == 1 || s == -1) && w == v - s * fc
    ensures w % r == v % r <==> fc % r == 0
  {
    CongIffDiff(w, v, r);
    NegationKeepsZero(fc, r);
    assert w - v == if s == 1 then -fc else fc;
  }

  lemma MultipleVanishesIff(f: int, c: int, fc: int, r: int)
    requires Prime(r) && f % r != 0 && fc == f * c
    ensures fc % r == 0 <==> c % r == 0
  {
    if c % r == 0 {
      Small(0, r);
      CongMul(f, f, c, 0, r);
    } else {
      NonzeroProduct(f, c, r);
    }
  }

  lemma NegationKeepsZero(x: int, r: int)
    requires r > 0
    ensures x % r == 0 <==> (-x) % r == 0
  {
    Small(0, r);
    if x % r == 0 { CongSub(0, 0, x, 0, r); }
    if (-x) % r == 0 { CongSub(0, 0, -x, 0, r); }
  }
}
