/** Integers modulo m: congruence, powers, primes and inverses.
    A congruence is written as equality of remainders, `a % m == b % m`, so that chains of
    congruences are chains of equalities. */
module Arith {

  function Pow(b: int, e: nat): int
  {
    if e == 0 then 1 else b * Pow(b, e - 1)
  }

  predicate Prime(p: int) {
    p >= 2 && forall d {:trigger p % d} :: 1 < d < p ==> p % d != 0
  }

  // ----- quotients and remainders

  lemma ModUnique(x: int, m: int, q: int, r: int)
    requires 0 <= r < m && x == q * m + r
    ensures x % m == r && x / m == q
  {
    var q', r' := x / m, x % m;
    assert x == q' * m + r';
    assert (q - q') * m == r' - r;
    assert (q' - q) * m == r - r';
    if q - q' >= 1 {
      MulAtLeast(q - q', m);
    } else if q' - q >= 1 {
      MulAtLeast(q' - q, m);
    }
  }

  lemma MulAtLeast(k: int, m: int)
    requires k >= 1 && m >= 0
    ensures k * m >= m
  {}

  lemma MulDistributes(x: int, s: int, t: int)
    ensures x * (s + t) == x * s + x * t
  {}

  lemma ShiftMod(a: int, k: int, m: int)
    requires m > 0
    ensures (a + k * m) % m == a % m
  {
    var q, r := a / m, a % m;
    assert a + k * m == (q + k) * m + r;
    ModUnique(a + k * m, m, q + k, r);
  }

  /** Congruent numbers differ by a multiple of the modulus, and conversely. */
  lemma Multiple(a: int, b: int, m: int) returns (k: int)
    requires m > 0 && a % m == b % m
    ensures a == b + k * m
  {
    k := a / m - b / m;
    assert a == (a / m) * m + a % m;
    assert b == (b / m) * m + b % m;
  }

  lemma Small(a: int, m: int)
    requires 0 <= a < m
    ensures a % m == a
  {
    ModUnique(a, m, 0, a);
  }

  lemma ModMod(a: int, m: int)
    requires m > 0
    ensures (a % m) % m == a % m && 0 <= a % m < m
  {
    Small(a % m, m);
  }

  lemma CongAdd(a: int, a': int, b: int, b': int, m: int)
    requires m > 0 && a % m == a' % m && b % m == b' % m
    ensures (a + b) % m == (a' + b') % m
  {
    var k := Multiple(a, a', m);
    var l := Multiple(b, b', m);
    assert a + b == (a' + b') + (k + l) * m;
    ShiftMod(a' + b', k + l, m);
  }

  lemma CongSub(a: int, a': int, b: int, b': int, m: int)
    requires m > 0 && a % m == a' % m && b % m == b' % m
    ensures (a - b) % m == (a' - b') % m
  {
    var k := Multiple(a, a', m);
    var l := Multiple(b, b', m);
    assert a - b == (a' - b') + (k - l) * m;
    ShiftMod(a' - b', k - l, m);
  }

  lemma CongMul(a: int, a': int, b: int, b': int, m: int)
    requires m > 0 && a % m == a' % m && b % m == b' % m
    ensures (a * b) % m == (a' * b') % m
  {
    var k := Multiple(a, a', m);
    var l := Multiple(b, b', m);
    calc {
      a * b;
      (a' + k * m) * (b' + l * m);
      a' * b' + a' * (l * m) + (k * m) * b' + (k * m) * (l * m);
      a' * b' + (a' * l + k * b' + k * m * l) * m;
    }
    ShiftMod(a' * b', a' * l + k * b' + k * m * l, m);
  }

  /** Reducing the factors of a product first does not change its remainder. */
  lemma MulModBoth(a: int, b: int, m: int)
    requires m > 0
    ensures ((a % m) * (b % m)) % m == (a * b) % m
    ensures ((a % m) * b) % m == (a * b) % m
    ensures (a * (b % m)) % m == (a * b) % m
  {
    ModMod(a, m);
    ModMod(b, m);
    CongMul(a % m, a, b % m, b, m);
    CongMul(a % m, a, b, b, m);
    CongMul(a, a, b % m, b, m);
  }

  lemma AddModBoth(a: int, b: int, m: int)
    requires m > 0
    ensures ((a % m) + (b % m)) % m == (a + b) % m
    ensures ((a % m) + b) % m == (a + b) % m
    ensures (a + (b % m)) % m == (a + b) % m
  {
    ModMod(a, m);
    ModMod(b, m);
    CongAdd(a % m, a, b % m, b, m);
    CongAdd(a % m, a, b, b, m);
    CongAdd(a, a, b % m, b, m);
  }

  lemma SubModBoth(a: int, b: int, m: int)
    requires m > 0
    ensures ((a % m) - (b % m)) % m == (a - b) % m
    ensures ((a % m) - b) % m == (a - b) % m
    ensures (a - (b % m)) % m == (a - b) % m
  {
    ModMod(a, m);
    ModMod(b, m);
    CongSub(a % m, a, b % m, b, m);
    CongSub(a % m, a, b, b, m);
    CongSub(a, a, b % m, b, m);
  }

  /** Subtraction and congruence: a = b modulo m exactly when m divides a - b. */
  lemma CongIffDiff(a: int, b: int, m: int)
    requires m > 0
    ensures a % m == b % m <==> (a - b) % m == 0
  {
    if a % m == b % m {
      CongSub(a, b, b, b, m);
      Small(0, m);
    }
    if (a - b) % m == 0 {
      Small(0, m);
      CongAdd(a - b, 0, b, b, m);
    }
  }

  // ----- powers

  lemma {:induction false} PowAdd(b: int, d: nat, e: nat)
    ensures Pow(b, d + e) == Pow(b, d) * Pow(b, e)
  {
    if d > 0 {
      PowAdd(b, d - 1, e);
      assert b * (Pow(b, d - 1) * Pow(b, e)) == (b * Pow(b, d - 1)) * Pow(b, e);
    }
  }

  lemma {:induction false} PowProduct(a: int, b: int, e: nat)
    ensures Pow(a * b, e) == Pow(a, e) * Pow(b, e)
  {
    if e > 0 {
      PowProduct(a, b, e - 1);
      MulSwap(a, b, Pow(a, e - 1), Pow(b, e - 1));
    }
  }

  lemma MulSwap(a: int, b: int, x: int, y: int)
    ensures (a * b) * (x * y) == (a * x) * (b * y)
  {
    calc {
      (a * b) * (x * y);
      a * (b * (x * y));
      a * (x * (b * y));
      (a * x) * (b * y);
    }
  }

  lemma {:induction false} PowPow(b: int, d: nat, e: nat)
    ensures d * e >= 0 && Pow(Pow(b, d), e) == Pow(b, d * e)
  {
    if e == 0 {
      assert d * e == 0;
    } else {
      PowPow(b, d, e - 1);
      assert d * e == d + d * (e - 1);
      PowAdd(b, d, d * (e - 1));
    }
  }

  lemma {:induction false} CongPow(a: int, a': int, e: nat, m: int)
    requires m > 0 && a % m == a' % m
    ensures Pow(a, e) % m == Pow(a', e) % m
  {
    if e > 0 {
      CongPow(a, a', e - 1, m);
      CongMul(a, a', Pow(a, e - 1), Pow(a', e - 1), m);
    }
  }

  lemma Pow2Split(b: int, e: nat)
    ensures Pow(b, 2 * e) == Pow(b, e) * Pow(b, e) == Pow(b * b, e)
  {
    PowAdd(b, e, e);
    PowProduct(b, b, e);
  }

  function Pow2(k: nat): (r: int)
    ensures r >= 1
  {
    if k == 0 then 1 else 2 * Pow2(k - 1)
  }

  lemma {:induction false} Pow2Add(j: nat, k: nat)
    ensures Pow2(j + k) == Pow2(j) * Pow2(k)
  {
    if j > 0 {
      Pow2Add(j - 1, k);
      assert 2 * (Pow2(j - 1) * Pow2(k)) == (2 * Pow2(j - 1)) * Pow2(k);
    }
  }

  // ----- primes

  /** The inverse of a nonzero residue modulo a prime, by the recursion p = (p / a) a + p % a. */
  function Inverse(a: int, p: int): (b: int)
    requires Prime(p) && 0 < a < p
    ensures 0 < b < p && (a * b) % p == 1
    decreases a
  {
    if a == 1 then Small(1, p); 1
    else
      var r := p % a;
      assert 0 < r < a;
      var s := Inverse(r, p);
      var b := (-(p / a) * s) % p;
      InverseStep(a, p, r, s);
      b
  }

  lemma InverseStep(a: int, p: int, r: int, s: int)
    requires p >= 2 && 0 < a < p && r == p % a && (r * s) % p == 1
    ensures var b := (-(p / a) * s) % p; 0 < b < p && (a * b) % p == 1
  {
    var q := p / a;
    var c := -q * s;
    var b := c % p;
    assert p == q * a + r;
    assert a * c == r * s + (-s) * p by {
      assert a * (-q * s) == -(q * a) * s;
      assert -(q * a) * s == (r - p) * s;
    }
    ShiftMod(r * s, -s, p);
    MulModBoth(a, c, p);
    if b == 0 {
      assert a * b == 0;
      Small(0, p);
    }
  }

  lemma EuclidLemma(a: int, b: int, p: int)
    requires Prime(p) && (a * b) % p == 0
    ensures a % p == 0 || b % p == 0
  {
    if a % p != 0 {
      var c := Inverse(a % p, p);
      MulModBoth(a, b, p);
      MulModBoth(a, c, p);
      // c * (a * b) is both 0 and b modulo p
      Small(0, p);
      CongMul(a * b, 0, c, c, p);
      Small(1, p);
      CongMul(a * c, 1, b, b, p);
      assert (a * b) * c == (a * c) * b;
    }
  }

  /** A nonzero factor can be cancelled modulo a prime. */
  lemma Cancel(a: int, b: int, c: int, p: int)
    requires Prime(p) && c % p != 0 && (c * a) % p == (c * b) % p
    ensures a % p == b % p
  {
    CongIffDiff(c * a, c * b, p);
    assert c * (a - b) == c * a - c * b;
    EuclidLemma(c, a - b, p);
    CongIffDiff(a, b, p);
  }

  lemma NonzeroProduct(a: int, b: int, p: int)
    requires Prime(p) && a % p != 0 && b % p != 0
    ensures (a * b) % p != 0
  {
    if (a * b) % p == 0 { EuclidLemma(a, b, p); }
  }

  /** Modulo a prime, 1 has exactly the square roots 1 and -1. */
  lemma RootsOfOne(x: int, p: int)
    requires Prime(p) && (x * x) % p == 1
    ensures x % p == 1 || x % p == p - 1
  {
    Small(1, p);
    CongIffDiff(x * x, 1, p);
    assert (x - 1) * (x + 1) == x * x - 1;
    EuclidLemma(x - 1, x + 1, p);
    if (x - 1) % p == 0 {
      CongIffDiff(x, 1, p);
    } else {
      CongIffDiff(x, -1, p);
      ModUnique(-1, p, -1, p - 1);
    }
  }
}
