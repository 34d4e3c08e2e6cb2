/** The fields GF(2^n) with n below the word size, Math/gf2n.cpp.  A word is a natural number below
    2^64; shifts to the left drop the bits beyond the word. */
module GF2n {
  import opened GF2Poly

  const WORD: nat := 64

  function ShlWord(a: nat, k: nat): nat { Low(Shl(a, k), WORD) }

  lemma {:induction false} LowWhole(a: nat, k: nat)
    requires a < Term(k)
    ensures Low(a, k) == a
  {
    JoinBits(a, 0, k);
    ShlZero(k);
  }

  /** A shift that stays within the word loses nothing. */
  lemma NoLoss(a: nat, j: nat, k: nat)
    requires a < Term(j) && j + k <= WORD
    ensures ShlWord(a, k) == Shl(a, k)
  {
    ShlBound(a, j, k);
    TermMonotone(j + k, WORD);
    LowWhole(Shl(a, k), WORD);
  }

  // ----- the multiplication tables and their combination

  /** One entry of the table of byte products. */
  method TableEntry(i: nat, j: nat) returns (r: nat)
    requires i < 256 && j < 256
    ensures r == PMul(j, i)
  {
    var ii, jj := i, j;
    r := 0;
    XorZero(PMul(j, i));
    while ii != 0
      invariant Xor(r, PMul(jj, ii)) == PMul(j, i)
      decreases ii
    {
      PMulStep(jj, ii);
      PMulDoubleLeft(jj, ii / 2);
      XorAssoc(r, Times(jj, ii % 2), 2 * PMul(jj, ii / 2));
      XorZero(r);
      if ii % 2 == 1 {
        r := Xor(r, jj);
      }
      jj := 2 * jj;
      ii := ii / 2;
    }
    PMulZero(jj);
    XorZero(r);
  }

  /** Schoolbook multiplication of numbers split at bit k. */
  lemma SplitProduct(x: nat, y: nat, k: nat)
    ensures var xl, xh, yl, yh := Low(x, k), Shr(x, k), Low(y, k), Shr(y, k);
            PMul(x, y) == Xor(Xor(PMul(xl, yl), Shl(Xor(PMul(xl, yh), PMul(xh, yl)), k)), Shl(PMul(xh, yh), k + k))
  {
    var xl, xh, yl, yh := Low(x, k), Shr(x, k), Low(y, k), Shr(y, k);
    var ll, lh, hl, hh := PMul(xl, yl), PMul(xl, yh), PMul(xh, yl), PMul(xh, yh);
    SplitBits(x, k);
    SplitBits(y, k);
    PMulXorLeft(xl, Shl(xh, k), y);
    PMulXorRight(xl, yl, Shl(yh, k));
    PMulXorRight(Shl(xh, k), yl, Shl(yh, k));
    PMulShl(xl, yh, k);
    PMulShl(xh, yl, k);
    PMulShl(xh, Shl(yh, k), k);
    PMulShl(xh, yh, k);
    ShlShl(hh, k, k);
    ShlXor(lh, hl, k);
    // (ll + lh') + (hl' + hh') = (ll + (lh' + hl')) + hh'
    XorAssoc(Xor(ll, Shl(lh, k)), Shl(hl, k), Shl(hh, k + k));
    XorAssoc(ll, Shl(lh, k), Shl(hl, k));
  }

  /** The 16-bit product as one word. */
  method Mul16(x: nat, y: nat) returns (ans: nat)
    requires x < Term(16) && y < Term(16)
    ensures ans == PMul(x, y)
  {
    var a1, b1, a2, b2 := Low(x, 8), Low(y, 8), Shr(x, 8), Shr(y, 8);
    Bytes(x);
    Bytes(y);
    SplitProduct(x, y, 8);
    var t22 := TableEntry(b2, a2);
    var t12 := TableEntry(b2, a1);
    var t21 := TableEntry(b1, a2);
    var t11 := TableEntry(b1, a1);
    ans := Shl(t22, 8);
    ans := Xor(ans, Xor(t12, t21));
    ans := Shl(ans, 8);
    ans := Xor(ans, t11);
    ShlXor(Shl(t22, 8), Xor(t12, t21), 8);
    ShlShl(t22, 8, 8);
    var m, h := Shl(Xor(t12, t21), 8), Shl(t22, 16);
    XorComm(Xor(h, m), t11);
    XorComm(h, m);
    XorAssoc(t11, m, h);
  }

  lemma Bytes(x: nat)
    requires x < Term(16)
    ensures Low(x, 8) < 256 && Shr(x, 8) < 256
  {
    assert Term(8) == 256;
    SplitBits(x, 8);
    ShrBound(x, 8, 8);
  }

  /** The 16-bit product as two 16-bit words. */
  method Mul16Split(x: nat, y: nat) returns (c0: nat, c1: nat)
    requires x < Term(16) && y < Term(16)
    ensures Xor(c0, Shl(c1, 16)) == PMul(x, y)
  {
    var a1, b1, a2, b2 := Low(x, 8), Low(y, 8), Shr(x, 8), Shr(y, 8);
    Bytes(x);
    Bytes(y);
    SplitProduct(x, y, 8);
    c0 := TableEntry(b1, a1);
    c1 := TableEntry(b2, a2);
    var t12 := TableEntry(b2, a1);
    var t21 := TableEntry(b1, a2);
    var te := Xor(t12, t21);
    ghost var ll, hh := c0, c1;
    c0 := Xor(c0, Shl(Low(te, 8), 8));
    c1 := Xor(c1, Shr(te, 8));
    SplitMiddle(ll, te, hh, 8);
  }

  /** Distributing the middle term over the two halves. */
  lemma SplitMiddle(ll: nat, mid: nat, hh: nat, k: nat)
    ensures Xor(Xor(ll, Shl(Low(mid, k), k)), Shl(Xor(hh, Shr(mid, k)), k + k))
         == Xor(Xor(ll, Shl(mid, k)), Shl(hh, k + k))
  {
    var l, h := Low(mid, k), Shr(mid, k);
    SplitBits(mid, k);
    ShlXor(l, Shl(h, k), k);
    ShlShl(h, k, k);
    ShlXor(hh, h, k + k);
    XorComm(Shl(hh, k + k), Shl(h, k + k));
    XorAssoc(Xor(ll, Shl(l, k)), Shl(h, k + k), Shl(hh, k + k));
    XorAssoc(ll, Shl(l, k), Shl(h, k + k));
  }

  /** The 32-bit product. */
  method Mul32(x: nat, y: nat) returns (ans: nat)
    requires x < Term(32) && y < Term(32)
    ensures ans == PMul(x, y)
  {
    var a1, b1, a2, b2 := Low(x, 16), Low(y, 16), Shr(x, 16), Shr(y, 16);
    SplitBits(x, 16);
    SplitBits(y, 16);
    ShrBound(x, 16, 16);
    ShrBound(y, 16, 16);
    SplitProduct(x, y, 16);
    ans := Mul16(a1, b1);
    var upp := Mul16(a2, b2);
    ghost var ll, hh := ans, upp;
    var c0, c1 := Mul16Split(a1, b2);
    ans := Xor(ans, Shl(c0, 16));
    upp := Xor(upp, c1);
    ghost var d0, d1 := c0, c1;
    c0, c1 := Mul16Split(a2, b1);
    ans := Xor(ans, Shl(c0, 16));
    upp := Xor(upp, c1);
    ans := Xor(ans, Shl(upp, 32));
    CollectMiddle(ll, hh, d0, d1, c0, c1);
  }

  lemma CollectMiddle(ll: nat, hh: nat, c: nat, c': nat, d: nat, d': nat)
    ensures Xor(Xor(Xor(ll, Shl(c, 16)), Shl(d, 16)), Shl(Xor(Xor(hh, c'), d'), 32))
         == Xor(Xor(ll, Shl(Xor(Xor(c, Shl(c', 16)), Xor(d, Shl(d', 16))), 16)), Shl(hh, 32))
  {
    var s, t := Xor(c, d), Xor(c', d');
    XorInterchange(c, Shl(c', 16), d, Shl(d', 16));
    ShlXor(c', d', 16);
    ShlXor(s, Shl(t, 16), 16);
    ShlShl(t, 16, 16);
    XorAssoc(ll, Shl(c, 16), Shl(d, 16));
    ShlXor(c, d, 16);
    XorAssoc(hh, c', d');
    ShlXor(hh, t, 32);
    XorComm(Shl(hh, 32), Shl(t, 32));
    XorAssoc(Xor(ll, Shl(s, 16)), Shl(t, 32), Shl(hh, 32));
    XorAssoc(ll, Shl(s, 16), Shl(t, 32));
  }

  /** The middle term of Karatsuba's multiplication. */
  lemma KaratsubaMiddle(xl: nat, xh: nat, yl: nat, yh: nat)
    ensures Xor(Xor(PMul(xl, yl), PMul(Xor(xl, xh), Xor(yl, yh))), PMul(xh, yh))
         == Xor(PMul(xl, yh), PMul(xh, yl))
  {
    var ll, lh, hl, hh := PMul(xl, yl), PMul(xl, yh), PMul(xh, yl), PMul(xh, yh);
    PMulXorLeft(xl, xh, Xor(yl, yh));
    PMulXorRight(xl, yl, yh);
    PMulXorRight(xh, yl, yh);
    // ll + ((ll + lh) + (hl + hh)) + hh = lh + hl
    XorAssoc(Xor(ll, lh), hl, hh);
    var m := Xor(Xor(ll, lh), hl);
    XorAssoc(ll, m, hh);
    XorCancel(Xor(ll, m), hh);
    XorAssoc(ll, lh, hl);
    XorComm(ll, Xor(lh, hl));
    XorCancel(Xor(lh, hl), ll);
  }

  /** The 64-bit product as a low and a high word, with three 32-bit products. */
  method Mul64(x: nat, y: nat) returns (lo: nat, hi: nat)
    requires x < Term(64) && y < Term(64)
    ensures lo < Term(64) && Xor(lo, Shl(hi, 64)) == PMul(x, y)
  {
    var xl, yl, xh, yh := Low(x, 32), Low(y, 32), Shr(x, 32), Shr(y, 32);
    SplitBits(x, 32);
    SplitBits(y, 32);
    ShrBound(x, 32, 32);
    ShrBound(y, 32, 32);
    XorBound(xl, xh, 32);
    XorBound(yl, yh, 32);
    var c := Mul32(xl, yl);
    var d := Mul32(xh, yh);
    var e := Mul32(Xor(xl, xh), Xor(yl, yh));
    var t := Xor(Xor(c, e), d);
    lo := Xor(c, ShlWord(t, 32));
    hi := Xor(d, Shr(t, 32));
    KaratsubaMiddle(xl, xh, yl, yh);
    SplitProduct(x, y, 32);
    TruncatedShift(t);
    SplitMiddle(c, t, d, 32);
    LowWordBound(xl, yl, t);
  }

  lemma LowWordBound(x: nat, y: nat, t: nat)
    requires x < Term(32) && y < Term(32)
    ensures Xor(PMul(x, y), Shl(Low(t, 32), 32)) < Term(64)
  {
    PMulBound(x, y, 32, 32);
    TermMonotone(63, 64);
    SplitBits(t, 32);
    ShlBound(Low(t, 32), 32, 32);
    XorBound(PMul(x, y), Shl(Low(t, 32), 32), 64);
  }

  /** Shifting by half a word keeps exactly the low half. */
  lemma TruncatedShift(t: nat)
    ensures ShlWord(t, 32) == Shl(Low(t, 32), 32)
  {
    SplitBits(t, 32);
    ShlAdd(Low(t, 32), Shl(Shr(t, 32), 32), 32);
    ShlShl(Shr(t, 32), 32, 32);
    ShlBound(Low(t, 32), 32, 32);
    JoinBits(Shl(Low(t, 32), 32), Shr(t, 32), 64);
  }

  // ----- the modulus and the reduction

  /** 1 + X^t1 + ... over the first i exponents. */
  function TailUpTo(ts: seq<nat>, i: nat): nat
    requires i <= |ts|
  {
    if i == 0 then 1 else Xor(TailUpTo(ts, i - 1), Term(ts[i - 1]))
  }

  function Tail(ts: seq<nat>): nat { TailUpTo(ts, |ts|) }

  /** X^n + 1 + X^t1 + ... */
  function Modulus(n: nat, ts: seq<nat>): nat { Xor(Term(n), Tail(ts)) }

  ghost predicate ValidField(n: nat, ts: seq<nat>) {
    && 1 <= n < WORD
    && (forall i :: 0 <= i < |ts| ==> 0 < ts[i] < n)
    && (forall i, j :: 0 <= i < j < |ts| ==> ts[j] < ts[i])
  }

  /** The condition under which no shift of a reduction leaves the word. */
  predicate FitsWord(n: nat, ts: seq<nat>) { forall i :: 0 <= i < |ts| ==> n + ts[i] <= WORD + 1 }

  lemma {:induction false} TailBound(n: nat, ts: seq<nat>, i: nat)
    requires ValidField(n, ts) && i <= |ts|
    ensures TailUpTo(ts, i) < Term(n) && TailUpTo(ts, i) % 2 == 1
  {
    if i == 0 {
      TermMonotone(1, n);
      assert Term(1) == 2;
    } else {
      TailBound(n, ts, i - 1);
      AddTailTerm(TailUpTo(ts, i - 1), ts[i - 1], n);
    }
  }

  lemma AddTailTerm(s: nat, t: nat, n: nat)
    requires s < Term(n) && s % 2 == 1 && 0 < t < n
    ensures Xor(s, Term(t)) < Term(n) && Xor(s, Term(t)) % 2 == 1
  {
    TermMonotone(t + 1, n);
    XorBound(s, Term(t), n);
    assert Term(t) == 2 * Term(t - 1);
    XorParts(s, Term(t));
  }

  lemma LenOfTerm(n: nat)
    ensures Len(Term(n)) == n + 1
  {
    LenBound(Term(n), n);
    LenBound(Term(n), n + 1);
  }

  lemma ModulusShape(n: nat, ts: seq<nat>)
    requires ValidField(n, ts)
    ensures Len(Modulus(n, ts)) == n + 1 && Modulus(n, ts) % 2 == 1 && Modulus(n, ts) < Term(n + 1)
  {
    TailBound(n, ts, |ts|);
    AddTopTerm(Tail(ts), n);
  }

  lemma AddTopTerm(tail: nat, n: nat)
    requires tail < Term(n) && tail % 2 == 1 && n >= 1
    ensures Len(Xor(Term(n), tail)) == n + 1 && Xor(Term(n), tail) % 2 == 1 && Xor(Term(n), tail) < Term(n + 1)
  {
    hide Len, Xor;
    LenBound(tail, n);
    LenOfTerm(n);
    XorLonger(Term(n), tail);
    LenBound(Xor(Term(n), tail), n + 1);
    XorParts(Term(n), tail);
    assert Term(n) == 2 * Term(n - 1);
  }

  /** x X^n = x (1 + X^t1 + ...) modulo the field polynomial. */
  lemma TopFolds(x: nat, n: nat, ts: seq<nat>)
    ensures Congruent(Shl(x, n), PMul(x, Tail(ts)), Modulus(n, ts))
  {
    var m := Modulus(n, ts);
    PMulShl(x, 1, n);
    PMulOne(x);
    PMulXorRight(x, Term(n), Tail(ts));
    // x X^n + x tail = x m
    assert Xor(Shl(x, n), PMul(x, Tail(ts))) == PMul(x, m);
  }

  /** The word a after x shifted by k and by k + t for the first i exponents was added in. */
  function Folded(a: nat, x: nat, k: nat, ts: seq<nat>, i: nat): nat
    requires i <= |ts|
  {
    if i == 0 then Xor(a, ShlWord(x, k)) else Xor(Folded(a, x, k, ts, i - 1), ShlWord(x, k + ts[i - 1]))
  }

  /** One more exponent in the tail adds one more shift. */
  lemma TailStep(x: nat, s: nat, t: nat, k: nat)
    ensures Shl(PMul(x, Xor(s, Term(t))), k) == Xor(Shl(PMul(x, s), k), Shl(x, k + t))
  {
    PMulXorRight(x, s, Term(t));
    PMulShl(x, 1, t);
    PMulOne(x);
    ShlXor(PMul(x, s), Shl(x, t), k);
    ShlShl(x, t, k);
  }

  /** The bits that the first i shifts of x push out of the word. */
  function LostUpTo(x: nat, k: nat, ts: seq<nat>, i: nat): nat
    requires i <= |ts|
  {
    if i == 0 then 0 else Xor(LostUpTo(x, k, ts, i - 1), Shr(Shl(x, k + ts[i - 1]), WORD))
  }

  lemma PutBack(f: nat, l: nat, whole: nat)
    ensures Xor(Xor(f, Low(whole, WORD)), Shl(Xor(l, Shr(whole, WORD)), WORD)) == Xor(Xor(f, Shl(l, WORD)), whole)
  {
    var gone := Shr(whole, WORD);
    SplitBits(whole, WORD);
    ShlXor(l, gone, WORD);
    XorInterchange(f, Low(whole, WORD), Shl(l, WORD), Shl(gone, WORD));
  }

  /** With the lost bits put back, folding multiplies the high word by the tail of the modulus. */
  lemma {:induction false} FoldedAndLost(a: nat, x: nat, k: nat, ts: seq<nat>, i: nat)
    requires i <= |ts| && ShlWord(x, k) == Shl(x, k)
    ensures Xor(Folded(a, x, k, ts, i), Shl(LostUpTo(x, k, ts, i), WORD)) == Xor(a, Shl(PMul(x, TailUpTo(ts, i)), k))
  {
    if i == 0 {
      PMulOne(x);
      ShlZero(WORD);
      XorZero(Xor(a, Shl(x, k)));
    } else {
      FoldedAndLost(a, x, k, ts, i - 1);
      var t, s := ts[i - 1], TailUpTo(ts, i - 1);
      TailStep(x, s, t, k);
      XorAssoc(a, Shl(PMul(x, s), k), Shl(x, k + t));
      PutBack(Folded(a, x, k, ts, i - 1), LostUpTo(x, k, ts, i - 1), Shl(x, k + t));
    }
  }

  lemma {:induction false} NothingLost(x: nat, h: nat, k: nat, ts: seq<nat>, i: nat)
    requires i <= |ts| && x < Term(h)
    requires forall j :: 0 <= j < |ts| ==> h + k + ts[j] <= WORD
    ensures LostUpTo(x, k, ts, i) == 0
  {
    if i > 0 {
      NothingLost(x, h, k, ts, i - 1);
      ShlBound(x, h, k + ts[i - 1]);
      TermMonotone(h + k + ts[i - 1], WORD);
      ShrSmall(Shl(x, k + ts[i - 1]), WORD);
    }
  }

  /** When no shift leaves the word nothing needs to be put back. */
  lemma FoldedValue(a: nat, x: nat, h: nat, k: nat, ts: seq<nat>)
    requires x < Term(h) && h + k <= WORD && forall j :: 0 <= j < |ts| ==> h + k + ts[j] <= WORD
    ensures Folded(a, x, k, ts, |ts|) == Xor(a, Shl(PMul(x, Tail(ts)), k))
  {
    NoLoss(x, h, k);
    FoldedAndLost(a, x, k, ts, |ts|);
    NothingLost(x, h, k, ts, |ts|);
    ShlZero(WORD);
    XorZero(Folded(a, x, k, ts, |ts|));
  }

  method AddShifted(a0: nat, x: nat, k: nat, ts: seq<nat>) returns (a: nat)
    ensures a == Folded(a0, x, k, ts, |ts|)
  {
    a := Xor(a0, ShlWord(x, k));
    for i := 0 to |ts|
      invariant a == Folded(a0, x, k, ts, i)
    {
      a := Xor(a, ShlWord(x, k + ts[i]));
    }
  }

  /** Folding the part above X^n back in. */
  lemma FoldStep(a: nat, n: nat, ts: seq<nat>, next: nat)
    requires ValidField(n, ts) && a < Term(WORD) && Shr(a, n) != 0
    requires next == Folded(Low(a, n), Shr(a, n), 0, ts, |ts|)
    ensures Congruent(next, a, Modulus(n, ts)) && next < Term(WORD)
    ensures Len(Shr(next, n)) < Len(Shr(a, n))
  {
    var hi, m := Shr(a, n), Modulus(n, ts);
    SplitBits(a, n);
    ShrBound(a, WORD - n, n);
    FoldedValue(Low(a, n), hi, WORD - n, 0, ts);
    TopFolds(hi, n, ts);
    CongruentSelf(Low(a, n), m);
    CongruentSymmetric(Shl(hi, n), PMul(hi, Tail(ts)), m);
    CongruentXor(Low(a, n), Low(a, n), PMul(hi, Tail(ts)), Shl(hi, n), m);
    TailBound(n, ts, |ts|);
    FoldDegree(Low(a, n), hi, Tail(ts), n);
  }

  /** Multiplying the high part by a polynomial of degree below n lowers its degree. */
  lemma FoldDegree(low: nat, hi: nat, tail: nat, n: nat)
    requires 1 <= n < WORD && low < Term(n) && 0 < hi < Term(WORD - n) && tail < Term(n)
    ensures Xor(low, PMul(hi, tail)) < Term(WORD)
    ensures Len(Shr(Xor(low, PMul(hi, tail)), n)) < Len(hi)
  {
    hide Xor, PMul, Shr, Term;
    var l, next := Len(hi), Xor(low, PMul(hi, tail));
    LenBound(hi, l);
    LenBound(hi, WORD - n);
    FoldedSum(low, hi, tail, l, n);
    ShrBound(next, l - 1, n);
    LenBound(Shr(next, n), l - 1);
    TermMonotone(l + n - 1, WORD);
  }

  lemma FoldedSum(low: nat, hi: nat, tail: nat, l: nat, n: nat)
    requires low < Term(n) && hi < Term(l) && tail < Term(n) && l >= 1 && n >= 1
    ensures Xor(low, PMul(hi, tail)) < Term(l + n - 1)
  {
    PMulBound(hi, tail, l, n);
    TermMonotone(n, l + n - 1);
    XorBound(low, PMul(hi, tail), l + n - 1);
  }

  /** The bits that all shifts push out of the word. */
  function Lost(x: nat, n: nat, ts: seq<nat>): nat
    requires n <= WORD
  {
    LostUpTo(x, WORD - n, ts, |ts|)
  }

  /** Both reductions: one exponent for a trinomial, three for a pentanomial.  The result is the
      representative of the two words with the lost bits added. */
  method Reduce(xh: nat, xl: nat, n: nat, ts: seq<nat>) returns (a: nat)
    requires ValidField(n, ts) && xl < Term(WORD) && xh < Term(n)
    ensures a < Term(n)
    ensures Congruent(a, Xor(Xor(xl, Shl(xh, WORD)), Shl(Lost(xh, n, ts), WORD)), Modulus(n, ts))
  {
    a := AddShifted(xl, xh, WORD - n, ts);
    HighWordFolds(xh, xl, n, ts, a);
    ghost var target, m := Xor(Xor(xl, Shl(xh, WORD)), Shl(Lost(xh, n, ts), WORD)), Modulus(n, ts);
    var hi := Shr(a, n);
    while hi != 0
      invariant a < Term(WORD) && hi == Shr(a, n)
      invariant Congruent(a, target, m)
      decreases Len(hi)
    {
      ghost var before := a;
      a := Low(a, n);
      a := AddShifted(a, hi, 0, ts);
      FoldStep(before, n, ts, a);
      CongruentTransitive(a, before, target, m);
      hi := Shr(a, n);
    }
    ShrSmall(a, n);
  }

  lemma HighWordFolds(xh: nat, xl: nat, n: nat, ts: seq<nat>, a: nat)
    requires ValidField(n, ts) && xl < Term(WORD) && xh < Term(n)
    requires a == Folded(xl, xh, WORD - n, ts, |ts|)
    ensures a < Term(WORD)
    ensures Congruent(a, Xor(Xor(xl, Shl(xh, WORD)), Shl(Lost(xh, n, ts), WORD)), Modulus(n, ts))
  {
    var k, m := WORD - n, Modulus(n, ts);
    NoLoss(xh, n, k);
    FoldedAndLost(xl, xh, k, ts, |ts|);
    var f, gone := Shl(PMul(xh, Tail(ts)), k), Shl(Lost(xh, n, ts), WORD);
    TopFolds(Shl(xh, k), n, ts);
    ShlShl(xh, k, n);
    PMulShl(xh, Tail(ts), k);
    CongruentSelf(xl, m);
    CongruentSelf(gone, m);
    CongruentSymmetric(Shl(xh, WORD), f, m);
    CongruentXor(xl, xl, f, Shl(xh, WORD), m);
    CongruentXor(Xor(xl, f), Xor(xl, Shl(xh, WORD)), gone, gone, m);
    XorCancel(a, gone);
    FoldedBound(xl, xh, k, ts, |ts|);
  }

  lemma {:induction false} FoldedBound(a: nat, x: nat, k: nat, ts: seq<nat>, i: nat)
    requires i <= |ts| && a < Term(WORD)
    ensures Folded(a, x, k, ts, i) < Term(WORD)
  {
    if i == 0 {
      SplitBits(Shl(x, k), WORD);
      XorBound(a, ShlWord(x, k), WORD);
    } else {
      FoldedBound(a, x, k, ts, i - 1);
      SplitBits(Shl(x, k + ts[i - 1]), WORD);
      XorBound(Folded(a, x, k, ts, i - 1), ShlWord(x, k + ts[i - 1]), WORD);
    }
  }

  /** What the reduction of the product of x and y drops, as a polynomial. */
  function Dropped(x: nat, y: nat, n: nat, ts: seq<nat>): nat
    requires n <= WORD
  {
    Shl(Lost(Shr(PMul(x, y), WORD), n, ts), WORD)
  }

  lemma HighWordBound(x: nat, y: nat, n: nat)
    requires 1 <= n < WORD && x < Term(n) && y < Term(n)
    ensures Shr(PMul(x, y), WORD) < Term(if 2 * n - 1 >= WORD then 2 * n - 1 - WORD else 0)
    ensures Shr(PMul(x, y), WORD) < Term(n)
  {
    var h := if 2 * n - 1 >= WORD then 2 * n - 1 - WORD else 0;
    PMulBound(x, y, n, n);
    TermMonotone(2 * n - 1, h + WORD);
    ShrBound(PMul(x, y), h, WORD);
    TermMonotone(h, n);
  }

  lemma NothingDropped(x: nat, y: nat, n: nat, ts: seq<nat>)
    requires ValidField(n, ts) && FitsWord(n, ts) && x < Term(n) && y < Term(n)
    ensures Dropped(x, y, n, ts) == 0
  {
    HighWordBound(x, y, n);
    NothingLost(Shr(PMul(x, y), WORD), if 2 * n - 1 >= WORD then 2 * n - 1 - WORD else 0, WORD - n, ts, |ts|);
    ShlZero(WORD);
  }

  /** The instruction by its definition: bit i of the 128-bit result is the parity of the products of
      bits that add up to i, delivered as two words. */
  method CarryLessInstruction(x: nat, y: nat) returns (lo: nat, hi: nat)
    requires x < Term(WORD) && y < Term(WORD)
    ensures lo < Term(WORD) && Xor(lo, Shl(hi, WORD)) == PMul(x, y)
  {
    lo, hi := Low(PMul(x, y), WORD), Shr(PMul(x, y), WORD);
    SplitBits(PMul(x, y), WORD);
  }

  /** Field multiplication, with the table (useC) or the carry-less instruction, and for a field that fits
      the word: the unique polynomial of degree below n that is congruent to the product. */
  method Multiply(x: nat, y: nat, n: nat, ts: seq<nat>, useC: bool) returns (r: nat)
    requires ValidField(n, ts) && x < Term(n) && y < Term(n)
    ensures r < Term(n) && Congruent(r, Xor(PMul(x, y), Dropped(x, y, n, ts)), Modulus(n, ts))
    ensures FitsWord(n, ts) ==> Congruent(r, PMul(x, y), Modulus(n, ts))
    ensures FitsWord(n, ts) ==> forall s: nat :: s < Term(n) && Congruent(s, PMul(x, y), Modulus(n, ts)) ==> s == r
  {
    TermMonotone(n, WORD);
    var lo, hi;
    if useC {
      lo, hi := Mul64(x, y);
    } else {
      lo, hi := CarryLessInstruction(x, y);
    }
    JoinBits(lo, hi, WORD);
    HighWordBound(x, y, n);
    r := Reduce(hi, lo, n, ts);
    if FitsWord(n, ts) {
      NothingDropped(x, y, n, ts);
      XorZero(PMul(x, y));
      OnlyRepresentative(r, PMul(x, y), n, ts);
    }
  }

  lemma OnlyRepresentative(r: nat, x: nat, n: nat, ts: seq<nat>)
    requires ValidField(n, ts) && r < Term(n) && Congruent(r, x, Modulus(n, ts))
    ensures forall s: nat :: s < Term(n) && Congruent(s, x, Modulus(n, ts)) ==> s == r
  {
    var m := Modulus(n, ts);
    ModulusShape(n, ts);
    CongruentSymmetric(r, x, m);
    forall s: nat | s < Term(n) && Congruent(s, x, m) ensures s == r {
      CongruentTransitive(s, x, r, m);
      UniqueRepresentative(s, r, m, n);
    }
  }

  // ----- exactly which fields are multiplied correctly

  /** The reduction of the product of x and y represents the product. */
  ghost predicate Exact(x: nat, y: nat, n: nat, ts: seq<nat>)
    requires n <= WORD
  {
    Congruent(Xor(PMul(x, y), Dropped(x, y, n, ts)), PMul(x, y), Modulus(n, ts))
  }

  /** The lost part of the square of X^(n-1) has the degree of its first, largest, term. */
  lemma {:induction false} LostOfTopTerm(n: nat, ts: seq<nat>, i: nat)
    requires ValidField(n, ts) && 1 <= i <= |ts| && n + ts[0] > WORD + 1
    ensures Len(LostUpTo(Term(2 * n - 2 - WORD), WORD - n, ts, i)) == n + ts[0] - WORD - 1
  {
    var x, t := Term(2 * n - 2 - WORD), ts[i - 1];
    LostTermLength(n, t);
    var gone := Shr(Shl(x, WORD - n + t), WORD);
    if i == 1 {
      XorZero(gone);
    } else {
      LostOfTopTerm(n, ts, i - 1);
      LongerStays(LostUpTo(x, WORD - n, ts, i - 1), gone, n + ts[0] - WORD - 1);
    }
  }

  lemma LostTermLength(n: nat, t: nat)
    requires n <= WORD <= 2 * n - 2
    ensures Len(Shr(Shl(Term(2 * n - 2 - WORD), WORD - n + t), WORD)) == if n - 2 + t >= WORD then n + t - WORD - 1 else 0
  {
    ShlShl(1, 2 * n - 2 - WORD, WORD - n + t);
    TopTermShifted(n - 2 + t);
  }

  lemma LongerStays(a: nat, b: nat, l: nat)
    requires Len(a) == l > Len(b)
    ensures Len(Xor(a, b)) == l
  {
    XorLonger(a, b);
  }

  lemma TopTermShifted(e: nat)
    ensures Len(Shr(Term(e), WORD)) == if e >= WORD then e - WORD + 1 else 0
  {
    if e >= WORD {
      TermShiftedDown(e - WORD);
      LenOfTerm(e - WORD);
    } else {
      TermMonotone(e + 1, WORD);
      ShrSmall(Term(e), WORD);
    }
  }

  /** X is invertible modulo an odd polynomial. */
  lemma {:induction false} CancelShift(x: nat, k: nat, m: nat)
    requires m % 2 == 1 && Congruent(Shl(x, k), 0, m)
    ensures Congruent(x, 0, m)
  {
    if k > 0 {
      HalveCongruence(Shl(x, k - 1), 0, m);
      CancelShift(x, k - 1, m);
    }
  }

  lemma TopSquare(n: nat)
    requires n >= 1
    ensures PMul(Term(n - 1), Term(n - 1)) == Term(2 * n - 2)
    ensures 2 * n - 2 >= WORD ==> Shr(Term(2 * n - 2), WORD) == Term(2 * n - 2 - WORD)
  {
    SquareOfTerm(n - 1);
    if 2 * n - 2 >= WORD { TermShiftedDown(2 * n - 2 - WORD); }
  }

  lemma SquareOfTerm(k: nat)
    ensures PMul(Term(k), Term(k)) == Term(k + k)
  {
    PMulShl(Term(k), 1, k);
    PMulOne(Term(k));
    ShlShl(1, k, k);
  }

  lemma TermShiftedDown(e: nat)
    ensures Shr(Term(e + WORD), WORD) == Term(e)
  {
    ShlShl(1, e, WORD);
    JoinBits(0, Term(e), WORD);
  }

  /** Only a loss of nothing goes unnoticed modulo m. */
  lemma LossIsNoticed(p: nat, l: nat, m: nat, n: nat)
    requires Congruent(Xor(p, Shl(l, WORD)), p, m) && m % 2 == 1 && Len(m) == n + 1 && l < Term(n)
    ensures l == 0
  {
    CongruentSelf(p, m);
    CongruentXor(Xor(p, Shl(l, WORD)), p, p, p, m);
    XorComm(p, Shl(l, WORD));
    XorCancel(Shl(l, WORD), p);
    XorSelf(p);
    CancelShift(l, WORD, m);
    UniqueRepresentative(l, 0, m, n);
  }

  lemma SquareOfTopTermIsWrong(n: nat, ts: seq<nat>)
    requires ValidField(n, ts) && |ts| > 0 && n + ts[0] > WORD + 1
    ensures !Exact(Term(n - 1), Term(n - 1), n, ts)
  {
    var l := Lost(Term(2 * n - 2 - WORD), n, ts);
    TopSquare(n);
    LostOfTopTerm(n, ts, |ts|);
    LenBound(l, n);
    ModulusShape(n, ts);
    if Exact(Term(n - 1), Term(n - 1), n, ts) {
      LossIsNoticed(Term(2 * n - 2), l, Modulus(n, ts), n);
    }
  }

  /** A field multiplies correctly exactly when it fits the word. */
  lemma ExactIffFits(n: nat, ts: seq<nat>)
    requires ValidField(n, ts)
    ensures (forall x: nat, y: nat :: x < Term(n) && y < Term(n) ==> Exact(x, y, n, ts)) <==> FitsWord(n, ts)
  {
    if FitsWord(n, ts) {
      forall x: nat, y: nat | x < Term(n) && y < Term(n) ensures Exact(x, y, n, ts) {
        NothingDropped(x, y, n, ts);
        XorZero(PMul(x, y));
        CongruentSelf(PMul(x, y), Modulus(n, ts));
      }
    } else {
      SquareOfTopTermIsWrong(n, ts);
      assert Term(n) == 2 * Term(n - 1);
      assert Term(n - 1) < Term(n);
    }
  }

  /** The check of the field initialization on the size of the shifts. */
  predicate AcceptedByInit(n: nat, t1: nat) { 2 * (n - 1) - 64 + t1 < 64 }

  /** It accepts a shape that multiplies wrongly.  Initialization refuses sizes that are not in its table
      before it comes to this check, so with the table as it is the check decides nothing. */
  lemma InitCheckIsTooWeak()
    ensures ValidField(50, [29]) && AcceptedByInit(50, 29) && !Exact(Term(49), Term(49), 50, [29])
  {
    SquareOfTopTermIsWrong(50, [29]);
  }

  lemma TableFieldsFit()
    ensures ValidField(4, [1]) && FitsWord(4, [1])
    ensures ValidField(8, [4, 3, 1]) && FitsWord(8, [4, 3, 1])
    ensures ValidField(28, [1]) && FitsWord(28, [1])
    ensures ValidField(40, [20, 15, 10]) && FitsWord(40, [20, 15, 10])
    ensures AcceptedByInit(4, 1) && AcceptedByInit(8, 4) && AcceptedByInit(28, 1) && AcceptedByInit(40, 20)
  {}

  // ----- inversion

  ghost predicate Divides(d: nat, x: nat) {
    exists q: nat :: x == PMul(q, d)
  }

  ghost predicate Coprime(x: nat, y: nat) {
    forall d: nat :: Divides(d, x) && Divides(d, y) ==> d == 1
  }

  /** Every common divisor of u and v divides a and m. */
  ghost predicate DivisorsDescend(u: nat, v: nat, a: nat, m: nat) {
    forall d: nat :: Divides(d, u) && Divides(d, v) ==> Divides(d, a) && Divides(d, m)
  }

  lemma DividesDouble(d: nat, x: nat)
    requires Divides(d, x)
    ensures Divides(d, 2 * x)
  {
    var q: nat :| x == PMul(q, d);
    PMulDoubleLeft(q, d);
    assert 2 * x == PMul(2 * q, d);
  }

  lemma DividesXor(d: nat, x: nat, y: nat)
    requires Divides(d, x) && Divides(d, y)
    ensures Divides(d, Xor(x, y))
  {
    var q: nat :| x == PMul(q, d);
    var q': nat :| y == PMul(q', d);
    PMulXorLeft(q, q', d);
    assert Xor(x, y) == PMul(Xor(q, q'), d);
  }

  lemma DividesItselfAndZero(d: nat)
    ensures Divides(d, d) && Divides(d, 0)
  {
    PMulOne(d);
    PMulZero(d);
    assert d == PMul(1, d) && 0 == PMul(0, d);
  }

  /** The multiplier after one halving step. */
  function Halve(b: nat, m: nat): nat {
    (if b % 2 == 1 then Xor(b, m) else b) / 2
  }

  lemma HalveBound(b: nat, m: nat, n: nat)
    requires b < Term(n) && m < Term(n + 1) && n >= 1
    ensures Halve(b, m) < Term(n)
  {
    TermMonotone(n, n + 1);
    XorBound(b, m, n + 1);
    assert Term(n + 1) == 2 * Term(n);
  }

  lemma EvenFactor(k: nat, m: nat)
    requires m % 2 == 1 && PMul(k, m) % 2 == 0
    ensures PMul(k, m) == 2 * PMul(k / 2, m)
  {
    PMulParity(k, m);
    PMulDoubleLeft(k / 2, m);
  }

  /** An even congruence can be halved modulo an odd m. */
  lemma HalveCongruence(x: nat, y: nat, m: nat)
    requires m % 2 == 1 && Congruent(2 * x, 2 * y, m)
    ensures Congruent(x, y, m)
  {
    var k: nat :| Xor(2 * x, 2 * y) == PMul(k, m);
    XorDouble(x, y);
    EvenFactor(k, m);
    assert Xor(x, y) == PMul(k / 2, m);
  }

  lemma AddModulusToFactor(a: nat, b: nat, u: nat, m: nat)
    requires Congruent(PMul(a, b), u, m)
    ensures Congruent(PMul(a, Xor(b, m)), u, m)
  {
    PMulXorRight(a, b, m);
    CongruentBy(PMul(a, Xor(b, m)), PMul(a, b), m, a);
    CongruentTransitive(PMul(a, Xor(b, m)), PMul(a, b), u, m);
  }

  /** One half of the state of the binary Euclidean algorithm: a b = u modulo m. */
  ghost predicate Half(a: nat, m: nat, n: nat, u: nat, b: nat) {
    u < Term(n + 1) && b < Term(n) && Congruent(PMul(a, b), u, m)
  }

  lemma HalveHalf(a: nat, m: nat, n: nat, u: nat, b: nat)
    requires m % 2 == 1 && m < Term(n + 1) && n >= 1 && Half(a, m, n, u, b) && u % 2 == 0
    ensures Half(a, m, n, u / 2, Halve(b, m))
  {
    HalveBound(b, m, n);
    HalveDoubles(b, m);
    if b % 2 == 1 { AddModulusToFactor(a, b, u, m); }
    HalveProduct(a, Halve(b, m), u / 2, m);
  }

  lemma HalveDoubles(b: nat, m: nat)
    requires m % 2 == 1
    ensures 2 * Halve(b, m) == if b % 2 == 1 then Xor(b, m) else b
  {
    if b % 2 == 1 {
      XorParts(b, m);
      EvenSum(b, m);
      TwiceHalf(Xor(b, m));
    } else {
      TwiceHalf(b);
    }
  }

  lemma HalveProduct(a: nat, b: nat, u: nat, m: nat)
    requires m % 2 == 1 && Congruent(PMul(a, 2 * b), 2 * u, m)
    ensures Congruent(PMul(a, b), u, m)
  {
    PMulDoubleRight(a, b);
    HalveCongruence(PMul(a, b), u, m);
  }

  lemma AddHalves(a: nat, m: nat, n: nat, u: nat, v: nat, b: nat, d: nat)
    requires Half(a, m, n, u, b) && Half(a, m, n, v, d)
    ensures Half(a, m, n, Xor(u, v), Xor(b, d))
  {
    PMulXorRight(a, b, d);
    CongruentXor(PMul(a, b), u, PMul(a, d), v, m);
    XorBound(u, v, n + 1);
    XorBound(b, d, n);
  }

  /** Every divisor of u divides u'. */
  ghost predicate DivisorsOf(u: nat, u': nat) {
    forall d: nat :: Divides(d, u) ==> Divides(d, u')
  }

  /** The inner loop: shifting out the trailing zeros of u while keeping a b = u modulo m. */
  method MakeOdd(u0: nat, b0: nat, m: nat, ghost a: nat, ghost n: nat) returns (u: nat, b: nat)
    requires m % 2 == 1 && m < Term(n + 1) && n >= 1 && Half(a, m, n, u0, b0) && u0 > 0
    ensures Half(a, m, n, u, b) && DivisorsOf(u, u0)
    ensures u % 2 == 1 && (if u0 % 2 == 0 then Len(u) < Len(u0) else u == u0 && b == b0)
  {
    u, b := u0, b0;
    while u % 2 == 0
      invariant 0 < u <= u0 && Half(a, m, n, u, b) && DivisorsOf(u, u0)
      invariant (u == u0 && b == b0) || (u0 % 2 == 0 && Len(u) < Len(u0))
      decreases u
    {
      HalveHalf(a, m, n, u, b);
      forall d: nat | Divides(d, u / 2) ensures Divides(d, u0) {
        DividesDouble(d, u / 2);
      }
      u := u / 2;
      if b % 2 != 0 {
        b := Xor(b, m);
      }
      b := b / 2;
    }
  }

  lemma EuclidStart(a: nat, m: nat, n: nat)
    requires m < Term(n + 1) && n >= 1 && 0 < a < Term(n)
    ensures Half(a, m, n, m, 0) && Half(a, m, n, a, 1)
  {
    PMulZero(a);
    PMulOne(a);
    PMulOne(m);
    XorZero(m);
    assert Xor(PMul(a, 0), m) == PMul(1, m);
    CongruentSelf(a, m);
    TermMonotone(n, n + 1);
    TermMonotone(1, n);
    assert Term(1) == 2;
  }

  lemma DescendThrough(u: nat, v: nat, u': nat, v': nat, a: nat, m: nat)
    requires DivisorsDescend(u, v, a, m) && DivisorsOf(u', u) && DivisorsOf(v', v)
    ensures DivisorsDescend(u', v', a, m)
  {}

  /** Adding one of two numbers to the other keeps their common divisors. */
  lemma DescendSum(u: nat, v: nat, a: nat, m: nat)
    requires DivisorsDescend(u, v, a, m)
    ensures DivisorsDescend(Xor(u, v), v, a, m) && DivisorsDescend(u, Xor(v, u), a, m)
  {
    forall d: nat | Divides(d, Xor(u, v)) && Divides(d, v) ensures Divides(d, a) && Divides(d, m) {
      DividesXor(d, Xor(u, v), v);
      XorCancel(u, v);
    }
    forall d: nat | Divides(d, u) && Divides(d, Xor(v, u)) ensures Divides(d, a) && Divides(d, m) {
      DividesXor(d, Xor(v, u), u);
      XorCancel(v, u);
    }
  }

  lemma LenXor(u: nat, v: nat)
    requires u >= v
    ensures Len(Xor(u, v)) <= Len(u)
  {
    var k := Len(u);
    LenBound(u, k);
    LenBound(v, k);
    XorBound(u, v, k);
    LenBound(Xor(u, v), k);
  }

  /** Subtracting the smaller of two odd numbers from the larger. */
  lemma SubtractStep(u: nat, v: nat, b: nat, d: nat, a: nat, m: nat, n: nat)
    requires u >= v && u % 2 == 1 && v % 2 == 1 && Half(a, m, n, u, b) && Half(a, m, n, v, d)
    ensures Half(a, m, n, Xor(u, v), Xor(b, d))
    ensures Len(Xor(u, v)) <= Len(u) && Xor(u, v) % 2 == 0 && (u != v ==> Xor(u, v) > 0)
  {
    AddHalves(a, m, n, u, v, b, d);
    OddDifference(u, v);
  }

  lemma OddDifference(u: nat, v: nat)
    requires u >= v && u % 2 == 1 && v % 2 == 1
    ensures Len(Xor(u, v)) <= Len(u) && Xor(u, v) % 2 == 0 && (u != v ==> Xor(u, v) > 0)
  {
    LenXor(u, v);
    XorParts(u, v);
    EvenSum(u, v);
    if u != v { DifferentXor(u, v); }
  }

  lemma EvenSum(u: nat, v: nat)
    requires u % 2 == 1 && v % 2 == 1
    ensures (u + v) % 2 == 0
  {}

  lemma DifferentXor(u: nat, v: nat)
    requires u != v
    ensures Xor(u, v) > 0
  {
    if Xor(u, v) == 0 { XorIsZero(u, v); }
  }

  datatype InvertResult = Inverse(value: nat) | DivisionByZero

  lemma DividesProduct(d: nat, x: nat, y: nat)
    requires Divides(d, y)
    ensures Divides(d, PMul(x, y)) && Divides(d, PMul(y, x))
  {
    var q: nat :| y == PMul(q, d);
    PMulAssoc(x, q, d);
    PMulComm(x, y);
    assert PMul(x, y) == PMul(PMul(x, q), d);
  }

  /** The only divisor of 1 is 1. */
  lemma UnitDivisor(d: nat)
    requires Divides(d, 1)
    ensures d == 1
  {
    var q: nat :| 1 == PMul(q, d);
    PMulZero(q);
    PMulZero(d);
    LenProduct(q, d);
    LenBound(d, 1);
    assert Len(1) == 1;
    assert Term(1) == 2;
  }

  /** What has an inverse modulo m is coprime to m. */
  lemma InvertibleIsCoprime(a: nat, b: nat, m: nat)
    requires Congruent(PMul(a, b), 1, m)
    ensures Coprime(a, m)
  {
    var p := PMul(a, b);
    var k: nat :| Xor(p, 1) == PMul(k, m);
    forall d: nat | Divides(d, a) && Divides(d, m) ensures d == 1 {
      DividesProduct(d, b, a);
      DividesProduct(d, k, m);
      DividesXor(d, p, Xor(p, 1));
      XorComm(p, 1);
      XorCancel(1, p);
      UnitDivisor(d);
    }
  }

  /** The inverse of a nonzero element, correct exactly when the element is coprime to the field
      polynomial, as every nonzero element of a field is. */
  method Invert(a: nat, n: nat, ts: seq<nat>) returns (r: InvertResult)
    requires ValidField(n, ts) && a < Term(n)
    ensures r.DivisionByZero? <==> a == 0
    ensures r.Inverse? ==> r.value < Term(n)
    ensures r.Inverse? ==> (Congruent(PMul(a, r.value), 1, Modulus(n, ts)) <==> Coprime(a, Modulus(n, ts)))
  {
    var m := Modulus(n, ts);
    ModulusShape(n, ts);
    if a == 1 {
      PMulOne(1);
      CongruentSelf(1, m);
      InvertibleIsCoprime(1, 1, m);
      return Inverse(1);
    }
    if a == 0 {
      return DivisionByZero;
    }
    var v, D := EuclidLoop(a, m, n);
    if Congruent(PMul(a, D), 1, m) { InvertibleIsCoprime(a, D, m); }
    r := Inverse(D);
  }

  method EuclidLoop(a: nat, m: nat, n: nat) returns (v: nat, D: nat)
    requires m % 2 == 1 && m < Term(n + 1) && n >= 1 && 0 < a < Term(n)
    ensures Half(a, m, n, v, D) && Divides(v, a) && Divides(v, m)
  {
    var u: nat, B: nat := m, 0;
    v, D := a, 1;
    EuclidStart(a, m, n);
    while u != 0
      invariant v > 0 && Half(a, m, n, u, B) && Half(a, m, n, v, D)
      invariant DivisorsDescend(u, v, a, m)
      decreases Len(u) + Len(v), u % 2 + v % 2
    {
      ghost var u0, v0 := u, v;
      u, B := MakeOdd(u, B, m, a, n);
      v, D := MakeOdd(v, D, m, a, n);
      DescendThrough(u0, v0, u, v, a, m);
      DescendSum(u, v, a, m);
      if u >= v {
        SubtractStep(u, v, B, D, a, m, n);
        u, B := Xor(u, v), Xor(B, D);
      } else {
        SubtractStep(v, u, D, B, a, m, n);
        v, D := Xor(v, u), Xor(D, B);
      }
    }
    DividesItselfAndZero(v);
  }
}
