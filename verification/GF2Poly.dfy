/** Polynomials over GF(2) as natural numbers: bit i is the coefficient of X^i. */
module GF2Poly {

  // ----- addition

  function Xor(a: nat, b: nat): nat
    decreases a + b
  {
    if a == 0 then b else if b == 0 then a else 2 * Xor(a / 2, b / 2) + (a + b) % 2
  }

  /** The recursion without its shortcuts. */
  lemma {:induction false} XorUnfold(a: nat, b: nat)
    ensures Xor(a, b) == 2 * Xor(a / 2, b / 2) + (a + b) % 2
  {}

  lemma XorZero(a: nat)
    ensures Xor(a, 0) == a && Xor(0, a) == a
  {}

  lemma {:induction false} XorSelf(a: nat)
    ensures Xor(a, a) == 0
  {
    if a > 0 { XorSelf(a / 2); }
  }

  lemma {:induction false} XorComm(a: nat, b: nat)
    ensures Xor(a, b) == Xor(b, a)
    decreases a + b
  {
    if a > 0 && b > 0 { XorComm(a / 2, b / 2); }
  }

  lemma XorParts(a: nat, b: nat)
    ensures Xor(a, b) / 2 == Xor(a / 2, b / 2) && Xor(a, b) % 2 == (a + b) % 2
  {
    XorUnfold(a, b);
  }

  lemma {:induction false} XorAssoc(a: nat, b: nat, c: nat)
    ensures Xor(Xor(a, b), c) == Xor(a, Xor(b, c))
    decreases a + b + c
  {
    if a == 0 || b == 0 || c == 0 {
      XorZeroAny(a, b, c);
    } else {
      XorAssoc(a / 2, b / 2, c / 2);
      var p, q := Xor(a, b), Xor(b, c);
      XorParts(a, b);
      XorParts(b, c);
      XorParts(p, c);
      XorParts(a, q);
      SameParity(p, q, a, b, c);
    }
  }

  lemma SameParity(p: nat, q: nat, a: nat, b: nat, c: nat)
    requires p % 2 == (a + b) % 2 && q % 2 == (b + c) % 2
    ensures (p + c) % 2 == (a + q) % 2
  {}

  lemma XorZeroAny(a: nat, b: nat, c: nat)
    requires a == 0 || b == 0 || c == 0
    ensures Xor(Xor(a, b), c) == Xor(a, Xor(b, c))
  {
    XorZero(a);
    XorZero(b);
    XorZero(c);
    XorZero(Xor(a, b));
    XorZero(Xor(b, c));
  }

  /** (a + b) + b = a */
  lemma XorCancel(a: nat, b: nat)
    ensures Xor(Xor(a, b), b) == a
    ensures Xor(b, Xor(a, b)) == a
  {
    XorAssoc(a, b, b);
    XorSelf(b);
    XorZero(a);
    XorComm(b, Xor(a, b));
  }

  /** (a + b) + c = (a + c) + b */
  lemma XorSwap(a: nat, b: nat, c: nat)
    ensures Xor(Xor(a, b), c) == Xor(Xor(a, c), b)
  {
    XorAssoc(a, b, c);
    XorComm(b, c);
    XorAssoc(a, c, b);
  }

  /** (a + b) + (c + d) = (a + c) + (b + d) */
  lemma XorInterchange(a: nat, b: nat, c: nat, d: nat)
    ensures Xor(Xor(a, b), Xor(c, d)) == Xor(Xor(a, c), Xor(b, d))
  {
    XorAssoc(Xor(a, b), c, d);
    XorSwap(a, b, c);
    XorAssoc(Xor(a, c), b, d);
  }

  lemma XorDouble(a: nat, b: nat)
    ensures Xor(2 * a, 2 * b) == 2 * Xor(a, b)
  {
    XorUnfold(2 * a, 2 * b);
    EvenNumber(a);
    EvenNumber(b);
    EvenNumber(a + b);
  }

  lemma EvenNumber(a: nat)
    ensures (2 * a) / 2 == a && (2 * a) % 2 == 0
  {}

  lemma TwiceHalf(a: nat)
    requires a % 2 == 0
    ensures 2 * (a / 2) == a
  {}

  lemma XorIsZero(a: nat, b: nat)
    requires Xor(a, b) == 0
    ensures a == b
  {
    XorCancel(a, b);
    XorZero(b);
  }

  // ----- shifts

  function Shl(a: nat, k: nat): nat { if k == 0 then a else 2 * Shl(a, k - 1) }

  function Shr(a: nat, k: nat): nat { if k == 0 then a else Shr(a / 2, k - 1) }

  /** The bits of a below position k. */
  function Low(a: nat, k: nat): nat { if k == 0 then 0 else a % 2 + 2 * Low(a / 2, k - 1) }

  /** X^k */
  function Term(k: nat): (r: nat)
    ensures r >= 1
  {
    Shl1Positive(k);
    Shl(1, k)
  }

  lemma {:induction false} Shl1Positive(k: nat)
    ensures Shl(1, k) >= 1
  {
    if k > 0 { Shl1Positive(k - 1); }
  }

  lemma {:induction false} ShlShl(a: nat, j: nat, k: nat)
    ensures Shl(Shl(a, j), k) == Shl(a, j + k)
  {
    if k > 0 { ShlShl(a, j, k - 1); }
  }

  lemma {:induction false} ShlXor(a: nat, b: nat, k: nat)
    ensures Shl(Xor(a, b), k) == Xor(Shl(a, k), Shl(b, k))
  {
    if k > 0 {
      ShlXor(a, b, k - 1);
      XorDouble(Shl(a, k - 1), Shl(b, k - 1));
    }
  }

  lemma {:induction false} ShlZero(k: nat)
    ensures Shl(0, k) == 0
  {
    if k > 0 { ShlZero(k - 1); }
  }

  lemma {:induction false} ShlAdd(a: nat, b: nat, k: nat)
    ensures Shl(a + b, k) == Shl(a, k) + Shl(b, k)
  {
    if k > 0 { ShlAdd(a, b, k - 1); }
  }

  lemma {:induction false} ShlMonotone(a: nat, b: nat, k: nat)
    requires a < b
    ensures Shl(a, k) < Shl(b, k)
  {
    if k > 0 { ShlMonotone(a, b, k - 1); }
  }

  /** a < X^j shifted by k is below X^(j+k). */
  lemma ShlBound(a: nat, j: nat, k: nat)
    requires a < Term(j)
    ensures Shl(a, k) < Term(j + k)
  {
    ShlMonotone(a, Term(j), k);
    ShlShl(1, j, k);
  }

  /** A number is its low bits plus its shifted high bits, as polynomials and as integers. */
  lemma {:induction false} SplitBits(a: nat, k: nat)
    ensures a == Xor(Low(a, k), Shl(Shr(a, k), k))
    ensures a == Low(a, k) + Shl(Shr(a, k), k)
    ensures Low(a, k) < Term(k)
  {
    if k == 0 {
      XorZero(a);
    } else {
      SplitBits(a / 2, k - 1);
      AddLowest(a, Low(a / 2, k - 1), Shl(Shr(a / 2, k - 1), k - 1));
    }
  }

  lemma AddLowest(a: nat, l: nat, s: nat)
    requires a / 2 == Xor(l, s) == l + s
    ensures a == Xor(a % 2 + 2 * l, 2 * s) == a % 2 + 2 * l + 2 * s
  {
    XorUnfold(a % 2 + 2 * l, 2 * s);
  }

  /** Low bits and shifted high bits determine each other. */
  lemma {:induction false} JoinBits(l: nat, h: nat, k: nat)
    requires l < Term(k)
    ensures Xor(l, Shl(h, k)) == l + Shl(h, k)
    ensures Low(l + Shl(h, k), k) == l && Shr(l + Shl(h, k), k) == h
  {
    hide Xor;
    if k == 0 {
      XorZero(h);
    } else {
      JoinBits(l / 2, h, k - 1);
      XorUnfold(l, 2 * Shl(h, k - 1));
      assert (l + 2 * Shl(h, k - 1)) / 2 == l / 2 + Shl(h, k - 1);
    }
  }

  lemma ShrSmall(a: nat, k: nat)
    ensures Shr(a, k) == 0 <==> a < Term(k)
  {
    SplitBits(a, k);
    ShlZero(k);
    if Shr(a, k) > 0 { ShlAdd(1, Shr(a, k) - 1, k); }
    if a < Term(k) { JoinBits(a, 0, k); }
  }

  lemma ShrBound(a: nat, j: nat, k: nat)
    requires a < Term(j + k)
    ensures Shr(a, k) < Term(j)
  {
    SplitBits(a, k);
    if Shr(a, k) >= Term(j) {
      ShlShl(1, j, k);
      if Shr(a, k) > Term(j) { ShlMonotone(Term(j), Shr(a, k), k); }
    }
  }

  lemma {:induction false} XorBound(a: nat, b: nat, k: nat)
    requires a < Term(k) && b < Term(k)
    ensures Xor(a, b) < Term(k)
  {
    if k == 0 {
      XorZero(0);
    } else {
      XorBound(a / 2, b / 2, k - 1);
      XorUnfold(a, b);
    }
  }

  lemma {:induction false} TermMonotone(j: nat, k: nat)
    requires j <= k
    ensures Term(j) <= Term(k)
    decreases k
  {
    if j < k { TermMonotone(j, k - 1); }
  }

  // ----- multiplication

  /** The carry-less product. */
  function PMul(a: nat, b: nat): nat
    decreases b
  {
    if b == 0 then 0 else Xor(if b % 2 == 1 then a else 0, 2 * PMul(a, b / 2))
  }

  lemma {:induction false} PMulXorLeft(a: nat, a': nat, b: nat)
    ensures PMul(Xor(a, a'), b) == Xor(PMul(a, b), PMul(a', b))
    decreases b
  {
    if b > 0 {
      PMulXorLeft(a, a', b / 2);
      var x, y := PMul(a, b / 2), PMul(a', b / 2);
      XorDouble(x, y);
      if b % 2 == 1 { XorInterchange(a, a', 2 * x, 2 * y); }
    }
  }

  lemma {:induction false} PMulDoubleLeft(a: nat, b: nat)
    ensures PMul(2 * a, b) == 2 * PMul(a, b)
    decreases b
  {
    if b > 0 {
      PMulDoubleLeft(a, b / 2);
      XorDouble(if b % 2 == 1 then a else 0, 2 * PMul(a, b / 2));
    }
  }

  lemma PMulDoubleRight(a: nat, b: nat)
    ensures PMul(a, 2 * b) == 2 * PMul(a, b)
  {
    XorZero(2 * PMul(a, b));
  }

  /** The multiple of a by a single bit. */
  function Times(a: nat, bit: nat): nat { if bit == 1 then a else 0 }

  lemma TimesXor(a: nat, b: nat, b': nat, c: nat)
    requires c % 2 == (b + b') % 2
    ensures Times(a, c % 2) == Xor(Times(a, b % 2), Times(a, b' % 2))
  {
    XorZero(a);
    XorSelf(a);
  }

  lemma {:induction false} PMulXorRight(a: nat, b: nat, b': nat)
    ensures PMul(a, Xor(b, b')) == Xor(PMul(a, b), PMul(a, b'))
    decreases b + b'
  {
    if b == 0 || b' == 0 {
      XorZero(b + b');
      XorZero(PMul(a, b + b'));
    } else {
      var c := Xor(b, b');
      PMulXorRight(a, b / 2, b' / 2);
      XorParts(b, b');
      PMulStep(a, b);
      PMulStep(a, b');
      PMulStep(a, c);
      var x, y := PMul(a, b / 2), PMul(a, b' / 2);
      XorDouble(x, y);
      TimesXor(a, b, b', c);
      XorInterchange(Times(a, b % 2), 2 * x, Times(a, b' % 2), 2 * y);
    }
  }

  lemma PMulStep(a: nat, b: nat)
    ensures PMul(a, b) == Xor(Times(a, b % 2), 2 * PMul(a, b / 2))
  {}

  lemma {:induction false} PMulZero(b: nat)
    ensures PMul(0, b) == 0 && PMul(b, 0) == 0
    decreases b
  {
    if b > 0 { PMulZero(b / 2); }
  }

  /** A number is its lowest bit plus twice the rest. */
  lemma LowestBit(b: nat)
    ensures b == Xor(b % 2, 2 * (b / 2))
  {
    XorUnfold(b % 2, 2 * (b / 2));
    XorZero(b / 2);
  }

  lemma {:induction false} PMulOne(a: nat)
    ensures PMul(a, 1) == a && PMul(1, a) == a
    decreases a
  {
    XorZero(a);
    PMulStep(a, 1);
    PMulZero(a);
    if a > 0 {
      PMulOne(a / 2);
      PMulStep(1, a);
      LowestBit(a);
    }
  }

  lemma {:induction false} PMulComm(a: nat, b: nat)
    ensures PMul(a, b) == PMul(b, a)
    decreases b
  {
    if b == 0 {
      PMulZero(a);
    } else {
      PMulComm(a, b / 2);
      LowestBit(b);
      PMulXorLeft(b % 2, 2 * (b / 2), a);
      PMulDoubleLeft(b / 2, a);
      PMulOne(a);
      PMulZero(a);
      PMulStep(a, b);
    }
  }

  lemma {:induction false} PMulAssoc(a: nat, b: nat, c: nat)
    ensures PMul(PMul(a, b), c) == PMul(a, PMul(b, c))
    decreases c
  {
    if c > 0 {
      PMulAssoc(a, b, c / 2);
      var w := PMul(b, c / 2);
      PMulXorRight(a, if c % 2 == 1 then b else 0, 2 * w);
      PMulDoubleRight(a, w);
      PMulZero(a);
    }
  }

  lemma {:induction false} PMulShl(a: nat, b: nat, k: nat)
    ensures PMul(Shl(a, k), b) == Shl(PMul(a, b), k)
    ensures PMul(a, Shl(b, k)) == Shl(PMul(a, b), k)
  {
    if k > 0 {
      PMulShl(a, b, k - 1);
      PMulDoubleLeft(Shl(a, k - 1), b);
      PMulDoubleRight(a, Shl(b, k - 1));
    }
  }

  lemma {:induction false} PMulBound(a: nat, b: nat, j: nat, k: nat)
    requires a < Term(j) && b < Term(k) && k >= 1
    ensures PMul(a, b) < Term(j + k - 1)
    decreases k
  {
    TermMonotone(j, j + k - 1);
    if k == 1 {
      PMulZero(a);
      PMulOne(a);
    } else {
      PMulBound(a, b / 2, j, k - 1);
      PMulStep(a, b);
      XorBound(Times(a, b % 2), 2 * PMul(a, b / 2), j + k - 1);
    }
  }

  lemma PMulParity(a: nat, b: nat)
    ensures PMul(a, b) % 2 == (a % 2) * (b % 2)
  {
    PMulStep(a, b);
    XorParts(Times(a, b % 2), 2 * PMul(a, b / 2));
    ParityOfSum(Times(a, b % 2), PMul(a, b / 2));
    assert Times(a, b % 2) % 2 == (a % 2) * (b % 2);
  }

  lemma ParityOfSum(x: nat, y: nat)
    ensures (x + 2 * y) % 2 == x % 2
  {}

  // ----- degrees

  /** The number of bits, one more than the degree. */
  function Len(a: nat): nat { if a == 0 then 0 else 1 + Len(a / 2) }

  lemma {:induction false} LenBound(a: nat, k: nat)
    ensures Len(a) <= k <==> a < Term(k)
    decreases a, k
  {
    if a > 0 && k > 0 { LenBound(a / 2, k - 1); }
  }

  lemma XorLonger(a: nat, b: nat)
    requires Len(a) > Len(b)
    ensures Len(Xor(a, b)) == Len(a)
  {
    hide Len, Xor, Term;
    var k := Len(a);
    LenBound(a, k);
    LenBound(b, k - 1);
    LenBound(a, k - 1);
    TermMonotone(k - 1, k);
    XorBound(a, b, k);
    LenBound(Xor(a, b), k);
    if Len(Xor(a, b)) < k {
      LenBound(Xor(a, b), k - 1);
      XorBound(Xor(a, b), b, k - 1);
      XorCancel(a, b);
      assert false;
    }
  }

  lemma LenDouble(t: nat)
    requires t > 0
    ensures Len(2 * t) == 1 + Len(t)
  {}

  /** Degrees add up. */
  lemma {:induction false} LenProduct(a: nat, b: nat)
    requires a > 0 && b > 0
    ensures PMul(a, b) > 0 && Len(PMul(a, b)) == Len(a) + Len(b) - 1
    decreases b
  {
    if b == 1 {
      PMulOne(a);
    } else {
      LenProduct(a, b / 2);
      PMulStep(a, b);
      var t := PMul(a, b / 2);
      LenDouble(t);
      if b % 2 == 1 {
        XorLonger(2 * t, a);
        XorComm(2 * t, a);
      } else {
        XorZero(2 * t);
      }
    }
  }

  // ----- congruence modulo a polynomial

  /** x = y modulo m */
  ghost predicate Congruent(x: nat, y: nat, m: nat) {
    exists k: nat :: Xor(x, y) == PMul(k, m)
  }

  lemma CongruentBy(x: nat, y: nat, m: nat, k: nat)
    requires x == Xor(y, PMul(k, m))
    ensures Congruent(x, y, m)
  {
    XorComm(y, PMul(k, m));
    XorCancel(PMul(k, m), y);
  }

  lemma CongruentSelf(x: nat, m: nat)
    ensures Congruent(x, x, m)
  {
    XorSelf(x);
    PMulZero(m);
    assert Xor(x, x) == PMul(0, m);
  }

  lemma CongruentSymmetric(x: nat, y: nat, m: nat)
    requires Congruent(x, y, m)
    ensures Congruent(y, x, m)
  {
    XorComm(x, y);
  }

  lemma CongruentXor(x: nat, y: nat, x': nat, y': nat, m: nat)
    requires Congruent(x, y, m) && Congruent(x', y', m)
    ensures Congruent(Xor(x, x'), Xor(y, y'), m)
  {
    var k: nat :| Xor(x, y) == PMul(k, m);
    var l: nat :| Xor(x', y') == PMul(l, m);
    XorInterchange(x, x', y, y');
    PMulXorLeft(k, l, m);
    assert Xor(Xor(x, x'), Xor(y, y')) == PMul(Xor(k, l), m);
  }

  lemma CongruentTransitive(x: nat, y: nat, z: nat, m: nat)
    requires Congruent(x, y, m) && Congruent(y, z, m)
    ensures Congruent(x, z, m)
  {
    CongruentXor(x, y, y, z, m);
    var k: nat :| Xor(Xor(x, y), Xor(y, z)) == PMul(k, m);
    XorAssoc(Xor(x, y), y, z);
    XorCancel(x, y);
    assert Xor(x, z) == PMul(k, m);
  }

  /** Two congruent polynomials of degree below that of the modulus are equal. */
  lemma UniqueRepresentative(x: nat, y: nat, m: nat, n: nat)
    requires Congruent(x, y, m) && x < Term(n) && y < Term(n) && Len(m) == n + 1
    ensures x == y
  {
    var k: nat :| Xor(x, y) == PMul(k, m);
    XorBound(x, y, n);
    LenBound(Xor(x, y), n);
    if k > 0 { LenProduct(k, m); }
    PMulZero(m);
    XorIsZero(x, y);
  }
}
