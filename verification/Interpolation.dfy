/** Lagrange coefficients at zero for arbitrary points, POC/vss.cpp. */
module Interpolation {
  import opened Arith
  import opened NumberTheory
  import opened OnlineOp
  import opened Lagrange

  function Without(xs: seq<int>, i: nat): (r: seq<int>)
    requires i < |xs|
    ensures |r| == |xs| - 1
  {
    xs[..i] + xs[i + 1..]
  }

  /** The product of all x - y. */
  function Product(ys: seq<int>, x: int): int {
    if |ys| == 0 then 1 else Product(ys[..|ys| - 1], x) * (x - ys[|ys| - 1])
  }

  lemma ProductSnoc(ys: seq<int>, x: int, k: nat)
    requires k < |ys|
    ensures Product(ys[..k + 1], x) == Product(ys[..k], x) * (x - ys[k])
  {
    assert ys[..k + 1][..k] == ys[..k];
  }

  lemma {:induction false} ProductZero(ys: seq<int>, k: nat)
    requires k < |ys|
    ensures Product(ys, ys[k]) == 0
  {
    if k < |ys| - 1 { ProductZero(ys[..|ys| - 1], k); }
  }

  // ----- the polynomial with given roots

  function Scaled(c: seq<int>, k: int): (r: seq<int>)
    ensures |r| == |c|
  {
    seq(|c|, i requires 0 <= i < |c| => k * c[i])
  }

  lemma {:induction false} EvalScaled(c: seq<int>, k: int, x: int)
    ensures Eval(Scaled(c, k), x) == k * Eval(c, x)
  {
    if |c| > 0 {
      EvalScaled(c[1..], k, x);
      assert Scaled(c, k)[1..] == Scaled(c[1..], k);
      ScaleStep(c[0], x, Eval(c[1..], x), k);
    }
  }

  lemma ScaleStep(c: int, x: int, e: int, k: int)
    ensures k * c + x * (k * e) == k * (c + x * e)
  {
    MulDistributes(k, c, x * e);
    assert x * (k * e) == k * (x * e);
  }

  lemma {:induction false} EvalExtended(c: seq<int>, x: int)
    ensures Eval(c + [0], x) == Eval(c, x)
  {
    if |c| == 0 {
      EvalConstant([0], x);
      assert c + [0] == [0];
    } else {
      EvalExtended(c[1..], x);
      assert (c + [0])[1..] == c[1..] + [0];
    }
  }

  /** X c - y c */
  function TimesLinear(c: seq<int>, y: int): (r: seq<int>)
    ensures |r| == |c| + 1
  {
    AddPoly([0] + c, Scaled(c + [0], -y))
  }

  lemma EvalTimesLinear(c: seq<int>, y: int, x: int)
    ensures Eval(TimesLinear(c, y), x) == Eval(c, x) * (x - y)
  {
    EvalAddPoly([0] + c, Scaled(c + [0], -y), x);
    EvalScaled(c + [0], -y, x);
    EvalExtended(c, x);
    assert ([0] + c)[1..] == c;
    LinearFactor(Eval(c, x), x, y);
  }

  lemma LinearFactor(e: int, x: int, y: int)
    ensures x * e + (-y) * e == e * (x - y)
  {}

  function WithRoots(ys: seq<int>): (c: seq<int>)
    ensures |c| == |ys| + 1
  {
    if |ys| == 0 then [1] else TimesLinear(WithRoots(ys[..|ys| - 1]), ys[|ys| - 1])
  }

  lemma {:induction false} EvalWithRoots(ys: seq<int>, x: int)
    ensures Eval(WithRoots(ys), x) == Product(ys, x)
  {
    if |ys| == 0 {
      EvalConstant([1], x);
    } else {
      EvalWithRoots(ys[..|ys| - 1], x);
      EvalTimesLinear(WithRoots(ys[..|ys| - 1]), ys[|ys| - 1], x);
    }
  }

  // ----- interpolation

  /** The sum of w_i times the i-th basis polynomial over the first k points. */
  function Combination(xs: seq<int>, w: seq<int>, k: nat): (c: seq<int>)
    requires k <= |xs| == |w|
    ensures |c| == |xs|
  {
    if k == 0 then seq(|xs|, _ => 0)
    else AddPoly(Combination(xs, w, k - 1), Scaled(WithRoots(Without(xs, k - 1)), w[k - 1]))
  }

  function CombinationValue(xs: seq<int>, w: seq<int>, k: nat, x: int): int
    requires k <= |xs| == |w|
  {
    if k == 0 then 0 else CombinationValue(xs, w, k - 1, x) + w[k - 1] * Product(Without(xs, k - 1), x)
  }

  lemma {:induction false} EvalCombination(xs: seq<int>, w: seq<int>, k: nat, x: int)
    requires k <= |xs| == |w|
    ensures Eval(Combination(xs, w, k), x) == CombinationValue(xs, w, k, x)
  {
    if k == 0 {
      EvalZeros(|xs|, x);
    } else {
      var b := WithRoots(Without(xs, k - 1));
      EvalCombination(xs, w, k - 1, x);
      EvalAddPoly(Combination(xs, w, k - 1), Scaled(b, w[k - 1]), x);
      EvalScaled(b, w[k - 1], x);
      EvalWithRoots(Without(xs, k - 1), x);
    }
  }

  /** At a point only that point's own basis polynomial counts. */
  lemma {:induction false} CombinationAtPoint(xs: seq<int>, w: seq<int>, k: nat, h: nat)
    requires k <= |xs| == |w| && h < |xs|
    ensures CombinationValue(xs, w, k, xs[h]) == if h < k then w[h] * Product(Without(xs, h), xs[h]) else 0
  {
    if k > 0 {
      CombinationAtPoint(xs, w, k - 1, h);
      if k - 1 != h {
        var ys := Without(xs, k - 1);
        ProductZero(ys, if h < k - 1 then h else h - 1);
        assert w[k - 1] * 0 == 0;
      }
    }
  }

  /** A polynomial with as many distinct roots modulo p as coefficients vanishes everywhere. */
  lemma {:induction false} ManyRootsVanish(c: seq<int>, roots: seq<int>, p: int, x: int)
    requires Prime(p) && |c| <= |roots| && DistinctRoots(c, roots, p)
    ensures Eval(c, x) % p == 0
    decreases |c|
  {
    Small(0, p);
    if |c| > 0 {
      var r, rest, q := roots[0], roots[1..], Divide(c, roots[0]);
      forall i | 0 <= i < |rest| ensures Eval(q, rest[i]) % p == 0 {
        QuotientRoot(c, r, roots[i + 1], p);
      }
      ManyRootsVanish(q, rest, p, x);
      DivideCorrect(c, r, x);
      CongMul(Eval(q, x), 0, x - r, x - r, p);
      CongAdd(Eval(q, x) * (x - r), 0, Eval(c, r), 0, p);
    }
  }

  lemma QuotientRoot(c: seq<int>, r: int, s: int, p: int)
    requires Prime(p) && |c| >= 1 && Eval(c, r) % p == 0 && Eval(c, s) % p == 0 && (s - r) % p != 0
    ensures Eval(Divide(c, r), s) % p == 0
  {
    Small(0, p);
    DivideCorrect(c, r, s);
    CongSub(Eval(c, s), 0, Eval(c, r), 0, p);
    EuclidLemma(Eval(Divide(c, r), s), s - r, p);
  }

  ghost predicate DistinctPoints(xs: seq<int>, r: int)
    requires r > 0
  {
    forall i, j :: 0 <= i < j < |xs| ==> (xs[i] - xs[j]) % r != 0
  }

  lemma NegatedNonzero(x: int, r: int)
    requires r > 0 && x % r != 0
    ensures (-x) % r != 0
  {
    if (-x) % r == 0 {
      Small(0, r);
      CongSub(0, 0, -x, 0, r);
    }
  }

  lemma DifferenceNonzero(xs: seq<int>, i: nat, j: nat, r: int)
    requires r > 0 && DistinctPoints(xs, r) && i < |xs| && j < |xs| && i != j
    ensures (xs[i] - xs[j]) % r != 0
  {
    if j < i { NegatedNonzero(xs[j] - xs[i], r); }
  }

  /** The denominators are invertible. */
  lemma {:induction false} DenominatorInvertible(xs: seq<int>, i: nat, k: nat, r: int)
    requires Prime(r) && DistinctPoints(xs, r) && i < |xs| && k < |xs|
    ensures Product(Without(xs, i)[..k], xs[i]) % r != 0
  {
    if k == 0 {
      Small(1, r);
    } else {
      var ys := Without(xs, i);
      DenominatorInvertible(xs, i, k - 1, r);
      ProductSnoc(ys, xs[i], k - 1);
      DifferenceNonzero(xs, i, if k - 1 < i then k - 1 else k, r);
      NonzeroProduct(Product(ys[..k - 1], xs[i]), xs[i] - ys[k - 1], r);
    }
  }

  function NumeratorOf(xs: seq<int>, i: nat): int
    requires i < |xs|
  {
    Product(Without(xs, i), 0)
  }

  function DenominatorOf(xs: seq<int>, i: nat): int
    requires i < |xs|
  {
    Product(Without(xs, i), xs[i])
  }

  /** The coefficients are the quotients of the two products. */
  ghost predicate Coefficients(lc: seq<int>, xs: seq<int>, r: int) {
    && r > 0 && |lc| == |xs|
    && forall i :: 0 <= i < |xs| ==> (lc[i] * DenominatorOf(xs, i)) % r == NumeratorOf(xs, i) % r
  }

  /** Marks the point at which a statement about all points is used. */
  predicate Point(i: int) { true }

  /** With the weights w the combination takes the values of c at the points. */
  ghost predicate Interpolates(w: seq<int>, c: seq<int>, xs: seq<int>, r: int) {
    && r > 0 && |w| == |xs|
    && forall i {:trigger Point(i)} :: Point(i) && 0 <= i < |xs| ==> (w[i] * DenominatorOf(xs, i)) % r == Eval(c, xs[i]) % r
  }

  /** The weights that make the combination take the values of c. */
  lemma InterpolationWeights(c: seq<int>, xs: seq<int>, r: int) returns (w: seq<int>)
    requires Prime(r) && DistinctPoints(xs, r)
    ensures Interpolates(w, c, xs, r)
  {
    w := [];
    for i := 0 to |xs|
      invariant |w| == i
      invariant forall k :: 0 <= k < i ==> (w[k] * DenominatorOf(xs, k)) % r == Eval(c, xs[k]) % r
    {
      DenominatorInvertible(xs, i, |xs| - 1, r);
      assert Without(xs, i)[..|xs| - 1] == Without(xs, i);
      var v := Solve(Eval(c, xs[i]), DenominatorOf(xs, i), r);
      w := w + [v];
    }
  }

  lemma Solve(e: int, d: int, r: int) returns (w: int)
    requires Prime(r) && d % r != 0
    ensures (w * d) % r == e % r
  {
    var inv := Inverse(d % r, r);
    w := e * inv;
    MulModBoth(d, inv, r);
    Small(1, r);
    CongMul(e, e, d * inv, 1, r);
    assert (e * inv) * d == e * (d * inv);
  }

  /** The combination takes the values of c everywhere. */
  lemma CombinationIsPolynomial(c: seq<int>, xs: seq<int>, w: seq<int>, r: int, x: int)
    requires Prime(r) && DistinctPoints(xs, r) && |c| <= |xs| == |w|
    requires Interpolates(w, c, xs, r)
    ensures CombinationValue(xs, w, |xs|, x) % r == Eval(c, x) % r
  {
    var d, v, e := Eval(DifferencePolynomial(c, xs, w), x), CombinationValue(xs, w, |xs|, x), Eval(c, x);
    assert d % r == 0 by {
      RootsOfDifference(c, xs, w, r);
      ManyRootsVanish(DifferencePolynomial(c, xs, w), xs, r, x);
    }
    assert d == v - e by { DifferenceValue(c, xs, w, x); }
    VanishingDifference(d, v, e, r);
  }

  lemma VanishingDifference(d: int, v: int, e: int, r: int)
    requires r > 0 && d % r == 0 && d == v - e
    ensures v % r == e % r
  {
    CongIffDiff(v, e, r);
  }

  lemma RootsOfDifference(c: seq<int>, xs: seq<int>, w: seq<int>, r: int)
    requires r > 0 && DistinctPoints(xs, r) && |c| <= |xs| == |w| && Interpolates(w, c, xs, r)
    ensures DistinctRoots(DifferencePolynomial(c, xs, w), xs, r)
  {
    var d := DifferencePolynomial(c, xs, w);
    forall h | 0 <= h < |xs| ensures Eval(d, xs[h]) % r == 0 {
      assert Point(h);
      VanishesAtPoint(c, xs, w, h, r);
    }
    forall i, j | 0 <= i < j < |xs| ensures (xs[j] - xs[i]) % r != 0 {
      DifferenceNonzero(xs, j, i, r);
    }
  }

  /** The combination minus c, with as many coefficients as points. */
  function DifferencePolynomial(c: seq<int>, xs: seq<int>, w: seq<int>): (d: seq<int>)
    requires |c| <= |xs| == |w|
    ensures |d| == |xs|
  {
    AddPoly(Combination(xs, w, |xs|), Scaled(c + seq(|xs| - |c|, _ => 0), -1))
  }

  lemma VanishesAtPoint(c: seq<int>, xs: seq<int>, w: seq<int>, h: nat, r: int)
    requires r > 0 && |c| <= |xs| == |w| && h < |xs| && (w[h] * DenominatorOf(xs, h)) % r == Eval(c, xs[h]) % r
    ensures Eval(DifferencePolynomial(c, xs, w), xs[h]) % r == 0
  {
    DifferenceValue(c, xs, w, xs[h]);
    CombinationAtPoint(xs, w, |xs|, h);
    CongIffDiff(w[h] * DenominatorOf(xs, h), Eval(c, xs[h]), r);
  }

  lemma DifferenceValue(c: seq<int>, xs: seq<int>, w: seq<int>, x: int)
    requires |c| <= |xs| == |w|
    ensures Eval(DifferencePolynomial(c, xs, w), x) == CombinationValue(xs, w, |xs|, x) - Eval(c, x)
  {
    var padded := c + seq(|xs| - |c|, _ => 0);
    EvalAddPoly(Combination(xs, w, |xs|), Scaled(padded, -1), x);
    EvalCombination(xs, w, |xs|, x);
    EvalScaled(padded, -1, x);
    EvalPadded(c, |xs| - |c|, x);
  }

  lemma {:induction false} EvalPadded(c: seq<int>, n: nat, x: int)
    ensures Eval(c + seq(n, _ => 0), x) == Eval(c, x)
  {
    if n == 0 {
      assert c + seq(n, _ => 0) == c;
    } else {
      EvalPadded(c, n - 1, x);
      EvalExtended(c + seq(n - 1, _ => 0), x);
      assert c + seq(n, _ => 0) == c + seq(n - 1, _ => 0) + [0];
    }
  }

  /** The values of c at the points. */
  function ValuesAt(c: seq<int>, xs: seq<int>): (v: seq<int>)
    ensures |v| == |xs|
  {
    seq(|xs|, i requires 0 <= i < |xs| => Eval(c, xs[i]))
  }

  lemma {:induction false} DotIsCombination(lc: seq<int>, c: seq<int>, xs: seq<int>, w: seq<int>, k: nat, r: int)
    requires Prime(r) && DistinctPoints(xs, r) && Coefficients(lc, xs, r) && k <= |xs|
    requires |w| == |xs|
    requires Interpolates(w, c, xs, r)
    ensures Dot(lc, ValuesAt(c, xs), k) % r == CombinationValue(xs, w, k, 0) % r
  {
    if k > 0 {
      DotIsCombination(lc, c, xs, w, k - 1, r);
      assert Point(k - 1);
      SameTerm(lc[k - 1], w[k - 1], NumeratorOf(xs, k - 1), DenominatorOf(xs, k - 1), Eval(c, xs[k - 1]), r);
      CongAdd(Dot(lc, ValuesAt(c, xs), k - 1), CombinationValue(xs, w, k - 1, 0),
              lc[k - 1] * Eval(c, xs[k - 1]), w[k - 1] * NumeratorOf(xs, k - 1), r);
    }
  }

  lemma SameTerm(l: int, w: int, nume: int, deno: int, e: int, r: int)
    requires r > 0 && (l * deno) % r == nume % r && (w * deno) % r == e % r
    ensures (l * e) % r == (w * nume) % r
  {
    CongMul(l, l, w * deno, e, r);
    CongMul(w, w, l * deno, nume, r);
    assert l * (w * deno) == w * (l * deno);
  }

  /** Recombination from any n points that are distinct modulo the prime: the weighted sum of the values
      of a polynomial with at most n coefficients is its value at zero. */
  lemma RecombinationFromPoints(lc: seq<int>, c: seq<int>, xs: seq<int>, r: int)
    requires Prime(r) && DistinctPoints(xs, r) && Coefficients(lc, xs, r) && |c| <= |xs|
    ensures Dot(lc, ValuesAt(c, xs), |xs|) % r == Eval(c, 0) % r
  {
    var w := InterpolationWeights(c, xs, r);
    DotIsCombination(lc, c, xs, w, |xs|, r);
    CombinationIsPolynomial(c, xs, w, r, 0);
  }

  datatype CoefficientResult = Coeffs(value: seq<int>) | ZeroElement

  /** The two running products of the inner loop. */
  method Products(val: seq<int>, i: nat, r: int) returns (nume: int, deno: int)
    requires r > 1 && i < |val|
    ensures 0 <= nume < r && 0 <= deno < r
    ensures nume == NumeratorOf(val, i) % r && deno == DenominatorOf(val, i) % r
  {
    var xi := val[i] % r;
    nume, deno := 1, 1;
    Small(1, r);
    ghost var ys := Without(val, i);
    for j := 0 to |val|
      invariant nume == Product(ys[..if j <= i then j else j - 1], 0) % r
      invariant deno == Product(ys[..if j <= i then j else j - 1], val[i]) % r
    {
      if j != i {
        ghost var k := if j < i then j else j - 1;
        var negated := (-val[j]) % r;
        ProductSnoc(ys, 0, k);
        ProductSnoc(ys, val[i], k);
        MulModBoth(Product(ys[..k], 0), -val[j], r);
        nume := Mul(nume, negated, r);
        AddModBoth(val[i], -val[j], r);
        var tmp := Add(xi, negated, r);
        MulModBoth(Product(ys[..k], val[i]), val[i] - val[j], r);
        deno := Mul(deno, tmp, r);
      }
    }
    assert ys[..|val| - 1] == ys;
  }

  /** The coefficients for the points in val, which are distinct; a zero among them is refused. */
  method LagrangeCoeff(val: seq<int>, r: int) returns (res: CoefficientResult)
    requires Prime(r) && DistinctPoints(val, r)
    ensures res.ZeroElement? <==> exists i :: 0 <= i < |val| && val[i] == 0
    ensures res.Coeffs? ==> Coefficients(res.value, val, r)
  {
    for i := 0 to |val|
      invariant forall j :: 0 <= j < i ==> val[j] != 0
    {
      if val[i] == 0 { return ZeroElement; }
    }
    var lc: seq<int> := [];
    for i := 0 to |val|
      invariant |lc| == i
      invariant forall j :: 0 <= j < i ==> (lc[j] * DenominatorOf(val, j)) % r == NumeratorOf(val, j) % r
    {
      var nume, deno := Products(val, i, r);
      DenominatorInvertible(val, i, |val| - 1, r);
      assert Without(val, i)[..|val| - 1] == Without(val, i);
      var inv := Inverse(deno, r);
      QuotientCorrect(NumeratorOf(val, i), DenominatorOf(val, i), inv, r);
      lc := lc + [Mul(nume, inv, r)];
    }
    res := Coeffs(lc);
  }

  lemma QuotientCorrect(nume: int, deno: int, inv: int, r: int)
    requires r > 1 && ((deno % r) * inv) % r == 1
    ensures (Mul(nume % r, inv, r) * deno) % r == nume % r
  {
    MulModBoth(nume, inv, r);
    MulModBoth(deno, inv, r);
    MulModBoth(nume * inv, deno, r);
    Small(1, r);
    CongMul(nume, nume, deno * inv, 1, r);
    assert (nume * inv) * deno == nume * (deno * inv);
  }
}
