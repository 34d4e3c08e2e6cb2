/** Square roots modulo an odd prime, Math/bigint.cpp. */
module Shanks {
  import opened Arith
  import opened NumberTheory

  datatype RootResult = Root(value: int) | NotASquare

  // ----- powers of two

  lemma DoubleExponent(b: int, k: nat, p: int)
    requires p > 0
    ensures Pow(b, Pow2(k + 1)) == Pow(b, Pow2(k)) * Pow(b, Pow2(k))
  {
    PowAdd(b, Pow2(k), Pow2(k));
  }

  /** (b^(2^j))^(2^k) = b^(2^(j+k)) */
  lemma TowerOfPowers(b: int, j: nat, k: nat)
    ensures Pow(Pow(b, Pow2(j)), Pow2(k)) == Pow(b, Pow2(j + k))
  {
    Pow2Add(j, k);
    PowPow(b, Pow2(j), Pow2(k));
  }

  /** Both factors of a product are raised to the power, and -1 times -1 is 1. */
  lemma ProductOfMinusOnes(b: int, y: int, k: nat, p: int)
    requires p > 2 && Pow(b, Pow2(k)) % p == p - 1 && Pow(y, Pow2(k)) % p == p - 1
    ensures Pow((b * y) % p, Pow2(k)) % p == 1
  {
    var e := Pow2(k);
    ModMod(b * y, p);
    CongPow((b * y) % p, b * y, e, p);
    PowProduct(b, y, e);
    ModUnique(-1, p, -1, p - 1);
    CongMul(Pow(b, e), -1, Pow(y, e), -1, p);
    Small(1, p);
  }

  // ----- the case p = 3 modulo 4

  /** a^((p+1)/4) is a root of a square a when p = 3 modulo 4. */
  lemma RootByPower(a: int, p: int)
    requires OddPrime(p) && p % 4 == 3 && Legendre(a, p) == 1
    ensures var x := Pow(a, (p + 1) / 4) % p; (x * x) % p == a % p
  {
    var e, h := (p + 1) / 4, (p - 1) / 2;
    assert 2 * e == h + 1;
    EulerCriterion(a, p);
    Pow2Split(a, e);
    MulModBoth(Pow(a, e), Pow(a, e), p);
    assert Pow(a, h + 1) == a * Pow(a, h);
    Small(1, p);
    CongMul(a, a, Pow(a, h), 1, p);
  }

  // ----- the loop invariant of the general case

  /** x^2 = a b, y has order exactly 2^r, and the order of b divides 2^(r-1). */
  ghost predicate ShanksInvariant(a: int, p: int, x: int, y: int, b: int, r: int)
    requires p > 2
  {
    && 0 <= x < p && 0 <= y < p && 0 <= b < p
    && r >= 1
    && (x * x) % p == (a * b) % p
    && Pow(y, Pow2(r - 1)) % p == p - 1
    && Pow(b, Pow2(r - 1)) % p == 1
  }

  lemma ShanksStart(a: int, n: int, p: int, q: nat, e: nat, y: int, x0: int, x: int, b: int)
    requires OddPrime(p) && Legendre(a, p) == 1 && Legendre(n, p) == -1
    requires e >= 1 && q % 2 == 1 && q * Pow2(e) == p - 1
    requires y == Pow(n, q) % p && x0 == Pow(a, (q - 1) / 2) % p
    requires b == (a * x0 * x0) % p && x == (a * x0) % p
    ensures ShanksInvariant(a, p, x, y, b, e)
  {
    hide Prime, Pow, Pow2;
    HalfExponent(p, q, e);
    StartRelation(a, p, x0, x, b);
    StartOddPower(n, p, q, e - 1, y);
    EulerCriterion(n, p);
    OddPowerOf(a, p, q, x0, b);
    StartOddPower(a, p, q, e - 1, b);
    EulerCriterion(a, p);
    ModMod(a * x0, p);
  }

  lemma HalfExponent(p: int, q: nat, e: nat)
    requires e >= 1 && q * Pow2(e) == p - 1
    ensures q * Pow2(e - 1) == (p - 1) / 2
  {
    DoubleProduct(q, Pow2(e - 1), Pow2(e));
  }

  lemma DoubleProduct(q: int, h: int, w: int)
    requires w == 2 * h
    ensures q * w == 2 * (q * h)
  {}

  lemma StartRelation(a: int, p: int, x0: int, x: int, b: int)
    requires p > 2 && b == (a * x0 * x0) % p && x == (a * x0) % p
    ensures (x * x) % p == (a * b) % p
  {
    MulModBoth(a * x0, a * x0, p);
    MulModBoth(a, a * x0 * x0, p);
    assert (a * x0) * (a * x0) == a * (a * x0 * x0);
  }

  /** (n^q)^(2^k) = n^(q 2^k) */
  lemma StartOddPower(n: int, p: int, q: nat, k: nat, y: int)
    requires p > 2 && y == Pow(n, q) % p
    ensures q * Pow2(k) >= 0 && Pow(y, Pow2(k)) % p == Pow(n, q * Pow2(k)) % p
    ensures 0 <= y < p
  {
    ModMod(Pow(n, q), p);
    CongPow(y, Pow(n, q), Pow2(k), p);
    PowPow(n, q, Pow2(k));
  }

  /** a (a^((q-1)/2))^2 = a^q for odd q. */
  lemma OddPowerOf(a: int, p: int, q: nat, x0: int, b: int)
    requires p > 2 && q % 2 == 1 && x0 == Pow(a, (q - 1) / 2) % p && b == (a * x0 * x0) % p
    ensures b == Pow(a, q) % p
  {
    var z := Pow(a, (q - 1) / 2);
    MulModBoth(z, z, p);
    Pow2Split(a, (q - 1) / 2);
    assert Pow(a, q) == a * Pow(a, q - 1);
    assert a * x0 * x0 == a * (x0 * x0);
    CongMul(a, a, x0 * x0, z * z, p);
  }

  /** One pass of the outer loop: m is the order exponent of b, and r drops to m. */
  lemma ShanksStep(a: int, p: int, x: int, y: int, b: int, r: int, m: int, t: int)
    requires OddPrime(p) && ShanksInvariant(a, p, x, y, b, r)
    requires 1 <= m < r
    requires Pow(b, Pow2(m)) % p == 1 && Pow(b, Pow2(m - 1)) % p != 1
    requires 0 <= t < p && t == Pow(y, Pow2(r - m - 1)) % p
    ensures ShanksInvariant(a, p, (x * t) % p, (t * t) % p, (b * ((t * t) % p)) % p, m)
  {
    var y', x', b' := (t * t) % p, (x * t) % p, (b * ((t * t) % p)) % p;
    NewRootRelation(a, p, x, b, t);
    // y' = y^(2^(r-m)), so y'^(2^(m-1)) = y^(2^(r-1)) = -1
    var u := Pow(y, Pow2(r - m - 1));
    MulModBoth(u, u, p);
    DoubleExponent(y, r - m - 1, p);
    ModMod(Pow(y, Pow2(r - m)), p);
    CongPow(y', Pow(y, Pow2(r - m)), Pow2(m - 1), p);
    TowerOfPowers(y, r - m, m - 1);
    // b^(2^(m-1)) is a square root of 1 other than 1
    DoubleExponent(b, m - 1, p);
    RootsOfOne(Pow(b, Pow2(m - 1)), p);
    ProductOfMinusOnes(b, y', m - 1, p);
    ModMod(x * t, p);
    ModMod(t * t, p);
    ModMod(b * y', p);
  }

  lemma NewRootRelation(a: int, p: int, x: int, b: int, t: int)
    requires p > 2 && (x * x) % p == (a * b) % p
    ensures var x', b' := (x * t) % p, (b * ((t * t) % p)) % p;
            (x' * x') % p == (a * b') % p
  {
    MulModBoth(x * t, x * t, p);
    MulSwap(x, t, x, t);
    CongMul(x * x, a * b, t * t, t * t, p);
    assert (a * b) * (t * t) == a * (b * (t * t));
    MulModBoth(b, t * t, p);
    MulModBoth(a, b * (t * t), p);
  }

  /** Splits p - 1 into an odd part and a power of two. */
  method SplitPowerOfTwo(p: int) returns (q: int, e: int)
    requires OddPrime(p)
    ensures q >= 1 && e >= 1 && q % 2 == 1 && q * Pow2(e) == p - 1
  {
    q, e := p - 1, 0;
    OddPrimeIsOdd(p);
    while q % 2 == 0
      invariant q >= 1 && e >= 0 && q * Pow2(e) == p - 1
      invariant e == 0 ==> q % 2 == 0
      decreases q
    {
      assert q * Pow2(e) == (q / 2) * Pow2(e + 1) by {
        assert q == 2 * (q / 2);
        assert (2 * (q / 2)) * Pow2(e) == (q / 2) * (2 * Pow2(e));
      }
      e, q := e + 1, q / 2;
    }
  }

  /** The least m >= 1 with b^(2^m) = 1, found by repeated squaring. */
  method OrderExponent(b: int, p: int, r: int) returns (m: int)
    requires p > 2 && 0 <= b < p && r >= 1 && b != 1
    requires Pow(b, Pow2(r - 1)) % p == 1
    ensures 1 <= m < r
    ensures Pow(b, Pow2(m)) % p == 1 && Pow(b, Pow2(m - 1)) % p != 1
  {
    m := 1;
    var temp := (b * b) % p;
    assert Pow2(1) == 2 && Pow(b, 2) == b * b && Pow(b, 1) == b;
    Small(b, p);
    if r == 1 { assert false; }
    while temp != 1
      invariant 1 <= m < r
      invariant temp == Pow(b, Pow2(m)) % p
      invariant Pow(b, Pow2(m - 1)) % p != 1
      decreases r - m
    {
      MulModBoth(Pow(b, Pow2(m)), Pow(b, Pow2(m)), p);
      DoubleExponent(b, m, p);
      temp, m := (temp * temp) % p, m + 1;
    }
  }

  /** `draws` are the random numbers below p that the search for a non-residue consumes; the first
      one that is a non-residue is used.  The result is a root of every nonzero square and the
      error for every non-square. */
  method SqrRootMod(a: int, p: int, draws: seq<int>) returns (ans: RootResult)
    requires OddPrime(p) && a >= 0
    requires exists i :: 0 <= i < |draws| && Legendre(draws[i], p) == -1
    ensures ans.Root? <==> a == 0 || Legendre(a, p) == 1
    ensures ans.Root? ==> 0 <= ans.value < p && (ans.value * ans.value) % p == a % p
    ensures a < p ==> (ans.Root? <==> IsSquare(a, p))
  {
    Small(0, p);
    if a < p { Small(a, p); }
    if a == 0 {
      assert (0 * 0) % p == a % p;
      return Root(0);
    }
    if Legendre(a, p) != 1 {
      return NotASquare;
    }
    if (p / 2) % 2 == 1 {
      OddPrimeIsOdd(p);
      RootByPower(a, p);
      ModMod(Pow(a, (p + 1) / 4), p);
      return Root(Pow(a, (p + 1) / 4) % p);
    }
    var i := 0;
    while Legendre(draws[i], p) != -1
      invariant 0 <= i < |draws|
      invariant exists j :: i <= j < |draws| && Legendre(draws[j], p) == -1
      decreases |draws| - i
    {
      i := i + 1;
    }
    var n := draws[i];
    var q, e := SplitPowerOfTwo(p);
    var r := e;
    var y := Pow(n, q) % p;
    var x := Pow(a, (q - 1) / 2) % p;
    var b := (a * x * x) % p;
    ghost var x0 := x;
    x := (a * x) % p;
    ShanksStart(a, n, p, q, e, y, x0, x, b);
    while b != 1
      invariant ShanksInvariant(a, p, x, y, b, r)
      decreases r
    {
      var m := OrderExponent(b, p, r);
      var t := y;
      Small(y, p);
      assert Pow2(0) == 1 && Pow(y, 1) == y;
      for k := 0 to r - m - 1
        invariant 0 <= t < p && t == Pow(y, Pow2(k)) % p
      {
        MulModBoth(Pow(y, Pow2(k)), Pow(y, Pow2(k)), p);
        DoubleExponent(y, k, p);
        t := (t * t) % p;
      }
      ShanksStep(a, p, x, y, b, r, m, t);
      y := (t * t) % p;
      r := m;
      x := (x * t) % p;
      b := (b * y) % p;
    }
    ans := Root(x);
  }
}
