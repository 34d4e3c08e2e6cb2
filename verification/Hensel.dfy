/** Inverses and square roots modulo 2^K found bit by bit, Math/Z2k.hpp. */
module Hensel {
  import opened Arith

  datatype InvertResult = Inverted(value: int) | DivisionByZero

  /** Bit i of the natural number a. */
  function GetBit(a: nat, i: nat): (b: int)
    ensures 0 <= b <= 1
  {
    (a / Pow2(i)) % 2
  }

  /** The lowest digit that e = f p can have modulo w = 2 n p decides e modulo 2 p. */
  lemma LowestDigit(e: int, p: int, n: int, w: int) returns (c: int)
    requires p > 0 && n > 0 && w == (2 * n) * p && e % p == 0
    ensures w > 0 && e == (((e % w) / p) % 2 + 2 * c) * p
  {
    var f := e / p;
    var q, g := f / (2 * n), f % (2 * n);
    assert f == q * (2 * n) + g;
    MulAtLeast(2 * n, p);
    DigitBounds(e, f, q, g, p, n, w);
    ModUnique(e, w, q, g * p);
    ModUnique(g * p, p, g, 0);
    c := g / 2 + q * n;
    assert q * (2 * n) == 2 * (q * n);
    assert f == g % 2 + 2 * c;
  }

  lemma DigitBounds(e: int, f: int, q: int, g: int, p: int, n: int, w: int)
    requires p > 0 && w == (2 * n) * p && 0 <= g < 2 * n && f == q * (2 * n) + g && e == f * p
    ensures e == q * w + g * p && 0 <= g * p < w
  {
    assert (q * (2 * n) + g) * p == q * ((2 * n) * p) + g * p;
    MulAtLeast(2 * n - g, p);
    assert (2 * n - g) * p == w - g * p;
  }

  lemma BitDecides(e: int, i: nat, k: nat) returns (c: int)
    requires i < k && e % Pow2(i) == 0
    ensures e % Pow2(k) >= 0 && e == (GetBit(e % Pow2(k), i) + 2 * c) * Pow2(i)
  {
    Pow2Add(k - i, i);
    c := LowestDigit(e, Pow2(i), Pow2(k - i - 1), Pow2(k));
  }

  /** Adding the deciding bit keeps the inverse correct one bit further. */
  lemma InvertStep(a: int, res: int, i: nat, k: nat)
    requires i < k && a % 2 == 1 && (1 - a * res) % Pow2(i) == 0
    ensures (1 - a * res) % Pow2(k) >= 0
    ensures var bit := GetBit((1 - a * res) % Pow2(k), i);
            (1 - a * (res + bit * Pow2(i))) % Pow2(i + 1) == 0
  {
    var e, p := 1 - a * res, Pow2(i);
    var c := BitDecides(e, i, k);
    var bit := GetBit(e % Pow2(k), i);
    var h := (a - 1) / 2;
    InvertShuffle(a, res, e, bit, c, h, p);
    ModUnique(1 - a * (res + bit * p), 2 * p, c - h * bit, 0);
  }

  lemma InvertShuffle(a: int, res: int, e: int, bit: int, c: int, h: int, p: int)
    requires e == 1 - a * res && e == (bit + 2 * c) * p && a == 2 * h + 1
    ensures 1 - a * (res + bit * p) == (c - h * bit) * (2 * p)
  {
    calc {
      1 - a * (res + bit * p);
      { assert a * (res + bit * p) == a * res + a * (bit * p); }
      e - a * (bit * p);
      { assert a * (bit * p) == (h * bit) * (2 * p) + bit * p; }
      e - (h * bit) * (2 * p) - bit * p;
      { assert (bit + 2 * c) * p == bit * p + c * (2 * p); }
      c * (2 * p) - (h * bit) * (2 * p);
      (c - h * bit) * (2 * p);
    }
  }

  lemma CongruentResidual(a: int, r: int, r': int, m: int, k: int)
    requires m > 0 && k > 0 && r' % (k * m) == r % (k * m) && (1 - a * r) % m == 0
    ensures (1 - a * r') % m == 0
  {
    assert k * m > 0;
    var q := Multiple(r', r, k * m);
    assert 1 - a * r' == (1 - a * r) + (-a * q * k) * m;
    ShiftMod(1 - a * r, -a * q * k, m);
  }

  /** The inverse of an odd a modulo 2^K. */
  method Invert(a: int, K: nat) returns (r: InvertResult)
    requires K >= 1 && 0 <= a < Pow2(K)
    ensures r.DivisionByZero? <==> a % 2 == 0
    ensures r.Inverted? ==> 0 <= r.value < Pow2(K) && (a * r.value) % Pow2(K) == 1 % Pow2(K)
  {
    assert GetBit(a, 0) == a % 2 by { assert Pow2(0) == 1; }
    if GetBit(a, 0) != 1 {
      return DivisionByZero;
    }
    var res := 1 % Pow2(K);
    for i := 0 to K
      invariant 0 <= res < Pow2(K)
      invariant (1 - a * res) % Pow2(i) == 0
    {
      var e := (1 - a * res) % Pow2(K);
      InvertStep(a, res, i, K);
      var next := res + GetBit(e, i) * Pow2(i);
      res := next % Pow2(K);
      ModMod(next, Pow2(K));
      Pow2Add(K - i - 1, i + 1);
      CongruentResidual(a, next, res, Pow2(i + 1), Pow2(K - i - 1));
    }
    CongIffDiff(1, a * res, Pow2(K));
    r := Inverted(res);
  }

  // ----- square roots

  /** Adding the deciding bit at i >= 2 keeps the root correct one bit further. */
  lemma RootStep(a: int, res: int, i: nat, k: nat)
    requires i + 1 < k && i >= 2 && res % 2 == 1 && (a - res * res) % Pow2(i + 1) == 0
    ensures (a - res * res) % Pow2(k) >= 0
    ensures var s := res + GetBit((a - res * res) % Pow2(k), i + 1) * Pow2(i);
            (a - s * s) % Pow2(i + 2) == 0 && s % 2 == 1
  {
    var e, u, h := a - res * res, Pow2(i - 2), (res - 1) / 2;
    var c := BitDecides(e, i + 1, k);
    var bit := GetBit(e % Pow2(k), i + 1);
    assert Pow2(i) == 4 * u && Pow2(i + 1) == 8 * u && Pow2(i + 2) == 16 * u;
    RootConclusion(a, res, bit, c, h, u, Pow2(i), Pow2(i + 1), Pow2(i + 2));
  }

  lemma RootConclusion(a: int, res: int, bit: int, c: int, h: int, u: int, p: int, p2: int, p4: int)
    requires a - res * res == (bit + 2 * c) * p2 && res == 2 * h + 1 && 0 <= bit <= 1 && u >= 1
    requires p == 4 * u && p2 == 8 * u && p4 == 16 * u
    ensures var s := res + bit * p; (a - s * s) % p4 == 0 && s % 2 == 1
  {
    RootShuffle(a, res, bit, c, h, u);
    var s := res + bit * p;
    ModUnique(a - s * s, p4, c - h * bit - bit * u, 0);
    if bit == 1 { assert s == 2 * (h + 2 * u) + 1; }
  }

  lemma RootShuffle(a: int, res: int, bit: int, c: int, h: int, u: int)
    requires a - res * res == (bit + 2 * c) * (8 * u) && res == 2 * h + 1 && 0 <= bit <= 1
    ensures var s := res + bit * (4 * u); a - s * s == (c - h * bit - bit * u) * (16 * u)
  {
    if bit == 1 {
      assert (res + 4 * u) * (res + 4 * u) == res * res + (2 * h + 1) * (8 * u) + u * (16 * u);
      assert (2 * h + 1) * (8 * u) == h * (16 * u) + 8 * u;
      assert (1 + 2 * c) * (8 * u) == 8 * u + c * (16 * u);
      assert (c - h - u) * (16 * u) == c * (16 * u) - h * (16 * u) - u * (16 * u);
    } else {
      assert (2 * c) * (8 * u) == c * (16 * u);
    }
  }

  lemma CongruentSquareResidual(a: int, r: int, r': int, m: int, k: int)
    requires m > 0 && k > 0 && r' % (k * m) == r % (k * m) && (a - r * r) % m == 0
    ensures (a - r' * r') % m == 0
  {
    assert k * m > 0;
    var q := Multiple(r', r, k * m);
    ShiftMod(r, q * k, m);
    assert r' == r + (q * k) * m;
    CongMul(r', r, r', r, m);
    CongSub(a, a, r' * r', r * r, m);
  }

  /** For the first two positions the bit looked at is 0, so the candidate 1 stays. */
  lemma LowBitsVanish(a: int, i: nat, k: nat)
    requires i <= 1 && i + 1 < k && a % 8 == 1
    ensures GetBit((a - 1) % Pow2(k), i + 1) == 0
  {
    ResidualMultiple(a, k);
    BitOfMultiple((a - 1) % Pow2(k), i);
  }

  lemma ResidualMultiple(a: int, k: nat)
    requires k >= 2 && a % 8 == 1
    ensures ((a - 1) % Pow2(k)) % 8 == 0
  {
    SmallPowersOfTwo();
    if k > 2 {
      Pow2Add(k - 3, 3);
      DivideOut(a - 1, Pow2(k - 3), Pow2(k));
    } else {
      DivideOutHalf(a - 1);
    }
  }

  lemma SmallPowersOfTwo()
    ensures Pow2(0) == 1 && Pow2(1) == 2 && Pow2(2) == 4 && Pow2(3) == 8
  {
    assert Pow2(0) == 1;
  }

  lemma DivideOutHalf(x: int)
    requires x % 8 == 0
    ensures (x % 4) % 8 == 0
  {}

  lemma BitOfMultiple(d: nat, i: nat)
    requires i <= 1 && d % 8 == 0
    ensures GetBit(d, i + 1) == 0
  {
    assert Pow2(0) == 1 && Pow2(1) == 2 && Pow2(2) == 4;
    if i == 0 { assert d / 2 == 2 * (d / 4); } else { assert d / 4 == 2 * (d / 8); }
  }

  lemma DivideOut(x: int, n: int, w: int)
    requires w > 0 && w == n * 8 && x % 8 == 0
    ensures (x % w) % 8 == 0
  {
    var q, r := x / w, x % w;
    assert x == q * w + r;
    assert q * w == (q * n) * 8;
    ModUnique(r, 8, x / 8 - q * n, 0);
  }

  /** A square root of a modulo 2^K for a = 1 modulo 8. */
  method SqrRoot(a: int, K: nat) returns (res: int)
    requires K >= 1 && 0 <= a < Pow2(K) && a % 8 == 1
    ensures 0 <= res < Pow2(K) && (res * res) % Pow2(K) == a % Pow2(K)
  {
    hide GetBit;
    res := 1 % Pow2(K);
    assert K >= 1 ==> Pow2(K) >= 2;
    Small(1, Pow2(K));
    for i := 0 to K - 1
      invariant 0 <= res < Pow2(K) && res % 2 == 1
      invariant i <= 2 ==> res == 1
      invariant (a - res * res) % Pow2(i + 1) == 0 && (i >= 2 ==> i + 1 <= K)
    {
      var e := (a - res * res) % Pow2(K);
      var bit := GetBit(e, i + 1);
      var next := res + bit * Pow2(i);
      if i <= 1 {
        LowBitsVanish(a, i, K);
        Small(1, Pow2(K));
        assert Pow2(i + 2) <= 8 by { assert Pow2(0) == 1; }
        SmallModulus(a, i);
      } else {
        RootStep(a, res, i, K);
        Pow2Add(K - i - 2, i + 2);
        CongruentSquareResidual(a, next, next % Pow2(K), Pow2(i + 2), Pow2(K - i - 2)) by {
          ModMod(next, Pow2(K));
        }
        OddStays(next, K);
      }
      res := next % Pow2(K);
    }
    CongIffDiff(a, res * res, Pow2(K));
  }

  lemma SmallModulus(a: int, i: nat)
    requires i <= 1 && a % 8 == 1
    ensures (a - 1) % Pow2(i + 2) == 0
  {
    assert Pow2(0) == 1 && Pow2(1) == 2 && Pow2(2) == 4 && Pow2(3) == 8;
  }

  lemma OddStays(x: int, k: nat)
    requires k >= 1 && x % 2 == 1
    ensures (x % Pow2(k)) % 2 == 1
  {
    EvenDivisor(x, Pow2(k - 1));
  }

  lemma EvenDivisor(x: int, w: int)
    requires w > 0 && x % 2 == 1
    ensures (x % (2 * w)) % 2 == 1
  {
    var q, r := x / (2 * w), x % (2 * w);
    assert x == q * (2 * w) + r;
    assert q * (2 * w) == 2 * (q * w);
    ModUnique(r, 2, x / 2 - q * w, 1);
  }
}
