/** Multi-limb naturals in arrays of 64-bit limbs, least significant limb first, and the word-level
    routines the modular arithmetic calls (Math/mpn_fixed.h stands for GMP's mpn layer). */
module Limbs {
  import opened Arith

  const LIMB: int := 0x1_0000_0000_0000_0000

  type limb = x: int | 0 <= x < LIMB

  function Val(s: seq<limb>): (v: int)
    ensures v >= 0
  {
    if |s| == 0 then 0 else s[0] + LIMB * Val(s[1..])
  }

  function PowB(k: nat): (r: int)
    ensures r >= 1
  {
    if k == 0 then 1 else LIMB * PowB(k - 1)
  }

  lemma {:induction false} ValAppend(s: seq<limb>, t: seq<limb>)
    ensures Val(s + t) == Val(s) + PowB(|s|) * Val(t)
  {
    if |s| == 0 {
      assert s + t == t;
    } else {
      ValAppend(s[1..], t);
      assert (s + t)[1..] == s[1..] + t;
      assert LIMB * (PowB(|s| - 1) * Val(t)) == PowB(|s|) * Val(t);
    }
  }

  lemma ValSnoc(s: seq<limb>, k: nat)
    requires k < |s|
    ensures Val(s[..k + 1]) == Val(s[..k]) + s[k] * PowB(k)
  {
    assert s[..k + 1] == s[..k] + [s[k]];
    ValAppend(s[..k], [s[k]]);
    assert Val([s[k]]) == s[k] by { assert Val([s[k]][1..]) == 0; }
    assert PowB(k) * s[k] == s[k] * PowB(k);
  }

  lemma {:induction false} ValBound(s: seq<limb>)
    ensures 0 <= Val(s) < PowB(|s|)
  {
    if |s| > 0 { ValBound(s[1..]); }
  }

  function ToLimbs(n: nat, k: nat): (s: seq<limb>)
    ensures |s| == k
  {
    if k == 0 then [] else [n % LIMB] + ToLimbs(n / LIMB, k - 1)
  }

  lemma {:induction false} ToLimbsVal(n: nat, k: nat)
    requires n < PowB(k)
    ensures Val(ToLimbs(n, k)) == n
  {
    if k > 0 { ToLimbsVal(n / LIMB, k - 1); }
  }

  method FromNumber(n: nat, k: nat) returns (a: array<limb>)
    requires n < PowB(k)
    ensures fresh(a) && a.Length == k && ValAt(a[..], 0, k) == n
  {
    var s := ToLimbs(n, k);
    a := new limb[k](i requires 0 <= i < k => s[i]);
    ToLimbsVal(n, k);
    assert a[..][0..0 + k] == s;
  }

  lemma {:induction false} ValZeros(s: seq<limb>)
    requires forall i :: 0 <= i < |s| ==> s[i] == 0
    ensures Val(s) == 0
  {
    if |s| > 0 { ValZeros(s[1..]); }
  }

  /** The value of the n limbs of s from position i. */
  function ValAt(s: seq<limb>, i: nat, n: nat): (v: int)
    requires i + n <= |s|
    ensures v >= 0
  {
    Val(s[i..i + n])
  }

  lemma ValAtExtend(s: seq<limb>, i: nat, n: nat)
    requires i + n < |s|
    ensures ValAt(s, i, n + 1) == ValAt(s, i, n) + s[i + n] * PowB(n)
  {
    ValSnoc(s[i..i + n + 1], n);
    assert s[i..i + n + 1][..n] == s[i..i + n];
    assert s[i..i + n + 1][..n + 1] == s[i..i + n + 1];
  }

  lemma ValAtShift(s: seq<limb>, i: nat, n: nat)
    requires i + n < |s|
    ensures ValAt(s, i, n + 1) == s[i] + LIMB * ValAt(s, i + 1, n)
  {
    assert s[i..i + n + 1][1..] == s[i + 1..i + 1 + n];
  }

  lemma ValAtFrame(s: seq<limb>, s': seq<limb>, i: nat, n: nat)
    requires i + n <= |s| && |s| == |s'|
    requires forall j :: i <= j < i + n ==> s[j] == s'[j]
    ensures ValAt(s, i, n) == ValAt(s', i, n)
  {
    assert s[i..i + n] == s'[i..i + n];
  }

  lemma ValAtBound(s: seq<limb>, i: nat, n: nat)
    requires i + n <= |s|
    ensures 0 <= ValAt(s, i, n) < PowB(n)
  {
    ValBound(s[i..i + n]);
  }

  lemma CarryStep(low: int, c: int, pk: int, prod: int, old_: int, s: int, b: int, sum: int)
    requires low + LIMB * c == sum
    requires sum == s * b + old_ + prod
    ensures low * pk + c * (LIMB * pk) == (s * b) * pk + old_ * pk + prod * pk
  {
    assert low * pk + c * (LIMB * pk) == (low + LIMB * c) * pk;
    assert (s * b + old_ + prod) * pk == (s * b) * pk + old_ * pk + prod * pk;
  }

  /** dst[off..off+n] += src[..n] * b; the carry out is returned. */
  method AddMul1(dst: array<limb>, off: nat, src: array<limb>, n: nat, b: limb) returns (carry: limb)
    requires dst != src && off + n <= dst.Length && n <= src.Length
    modifies dst
    ensures ValAt(dst[..], off, n) + carry * PowB(n) == ValAt(old(dst[..]), off, n) + ValAt(src[..], 0, n) * b
    ensures forall j :: 0 <= j < dst.Length && !(off <= j < off + n) ==> dst[j] == old(dst[j])
  {
    carry := 0;
    ghost var was := dst[..];
    for k := 0 to n
      invariant ValAt(dst[..], off, k) + carry * PowB(k) == ValAt(was, off, k) + ValAt(src[..], 0, k) * b
      invariant forall j :: 0 <= j < dst.Length && !(off <= j < off + k) ==> dst[j] == was[j]
    {
      ghost var before, c0 := dst[..], carry;
      var sum := src[k] * b + dst[off + k] + carry;
      ProductBound(src[k], b);
      dst[off + k], carry := sum % LIMB, sum / LIMB;
      ValAtFrame(before, dst[..], off, k);
      ValAtExtend(dst[..], off, k);
      ValAtExtend(was, off, k);
      ValAtExtend(src[..], 0, k);
      CarryStep(dst[off + k], carry, PowB(k), c0, was[off + k], src[k], b, sum);
      Distribute(ValAt(src[..], 0, k), src[k], PowB(k), b);
    }
  }

  lemma Distribute(v: int, s: int, pk: int, b: int)
    ensures (v + s * pk) * b == v * b + (s * b) * pk
  {
    assert (s * pk) * b == (s * b) * pk;
  }

  lemma ProductBound(a: limb, b: limb)
    ensures 0 <= a * b <= (LIMB - 1) * (LIMB - 1)
  {
    MulMonotone(a, LIMB - 1, b, LIMB - 1);
  }

  lemma MulMonotone(a: int, a': int, b: int, b': int)
    requires 0 <= a <= a' && 0 <= b <= b'
    ensures 0 <= a * b <= a' * b'
  {
    assert a * b <= a' * b;
    assert a' * b <= a' * b';
  }

  /** dst[..n] = src[..n] * b; the carry out is returned. */
  method Mul1(dst: array<limb>, src: array<limb>, n: nat, b: limb) returns (carry: limb)
    requires dst != src && n <= dst.Length && n <= src.Length
    modifies dst
    ensures ValAt(dst[..], 0, n) + carry * PowB(n) == ValAt(src[..], 0, n) * b
    ensures forall j :: n <= j < dst.Length ==> dst[j] == old(dst[j])
  {
    Zero(dst, 0, n);
    ValZeros(dst[..][0..n]);
    carry := AddMul1(dst, 0, src, n, b);
  }

  method Zero(dst: array<limb>, off: nat, n: nat)
    requires off + n <= dst.Length
    modifies dst
    ensures forall j :: off <= j < off + n ==> dst[j] == 0
    ensures forall j :: 0 <= j < dst.Length && !(off <= j < off + n) ==> dst[j] == old(dst[j])
  {
    for k := 0 to n
      invariant forall j :: off <= j < off + k ==> dst[j] == 0
      invariant forall j :: 0 <= j < dst.Length && !(off <= j < off + k) ==> dst[j] == old(dst[j])
    {
      dst[off + k] := 0;
    }
  }

  method Copy(dst: array<limb>, src: array<limb>, off: nat, n: nat)
    requires dst != src && n <= dst.Length && off + n <= src.Length
    modifies dst
    ensures ValAt(dst[..], 0, n) == ValAt(src[..], off, n)
    ensures forall j :: n <= j < dst.Length ==> dst[j] == old(dst[j])
  {
    for k := 0 to n
      invariant forall j :: 0 <= j < k ==> dst[j] == src[off + j]
      invariant forall j :: n <= j < dst.Length ==> dst[j] == old(dst[j])
    {
      dst[k] := src[off + k];
    }
    assert dst[..][0..0 + n] == src[..][off..off + n];
  }

  /** Compares a[off..off+n] with b[..n], most significant limb first. */
  method Cmp(a: array<limb>, off: nat, b: array<limb>, n: nat) returns (c: int)
    requires off + n <= a.Length && n <= b.Length
    ensures c < 0 <==> ValAt(a[..], off, n) < ValAt(b[..], 0, n)
    ensures c > 0 <==> ValAt(a[..], off, n) > ValAt(b[..], 0, n)
  {
    ghost var x, y := a[..][off..off + n], b[..][0..0 + n];
    var k := n;
    while k > 0
      invariant 0 <= k <= n
      invariant forall j :: k <= j < n ==> x[j] == y[j]
    {
      k := k - 1;
      if a[off + k] != b[k] {
        if a[off + k] < b[k] {
          TopDecides(x, y, k);
          return -1;
        }
        TopDecides(y, x, k);
        return 1;
      }
    }
    assert x == y;
    c := 0;
  }

  lemma TopDecides(x: seq<limb>, y: seq<limb>, k: nat)
    requires |x| == |y| && k < |x| && x[k] < y[k]
    requires forall j :: k < j < |x| ==> x[j] == y[j]
    ensures Val(x) < Val(y)
  {
    assert x == x[..k + 1] + x[k + 1..] && y == y[..k + 1] + y[k + 1..];
    assert x[k + 1..] == y[k + 1..];
    ValAppend(x[..k + 1], x[k + 1..]);
    ValAppend(y[..k + 1], y[k + 1..]);
    assert Val(x[..k + 1]) < Val(y[..k + 1]) by {
      ValSnoc(x, k);
      ValSnoc(y, k);
      ValBound(x[..k]);
      ValBound(y[..k]);
      TopTerm(Val(x[..k]), Val(y[..k]), x[k], y[k], PowB(k));
    }
  }

  lemma TopTerm(u: int, v: int, x: int, y: int, pk: int)
    requires 0 <= u < pk && 0 <= v && x < y
    ensures u + x * pk < v + y * pk
  {
    MulAtLeast(y - x, pk);
    assert (y - x) * pk == y * pk - x * pk;
  }

  /** dst[..n] = a[off..off+n] - b[..n] modulo B^n; the borrow out is returned.  dst may be a or b
      when off is 0. */
  method SubN(dst: array<limb>, a: array<limb>, off: nat, b: array<limb>, n: nat) returns (borrow: int)
    requires n <= dst.Length && off + n <= a.Length && n <= b.Length
    requires dst == a ==> off == 0
    modifies dst
    ensures 0 <= borrow <= 1
    ensures ValAt(dst[..], 0, n) - borrow * PowB(n) == ValAt(old(a[..]), off, n) - ValAt(old(b[..]), 0, n)
    ensures forall j :: n <= j < dst.Length ==> dst[j] == old(dst[j])
  {
    ghost var x, y := a[..], b[..];
    borrow := 0;
    for k := 0 to n
      invariant 0 <= borrow <= 1
      invariant ValAt(dst[..], 0, k) - borrow * PowB(k) == ValAt(x, off, k) - ValAt(y, 0, k)
      invariant forall j :: off + k <= j < off + n ==> a[j] == x[j]
      invariant forall j :: k <= j < n ==> b[j] == y[j]
      invariant forall j :: n <= j < dst.Length ==> dst[j] == old(dst[j])
    {
      ghost var before, b0 := dst[..], borrow;
      var diff := a[off + k] - b[k] - borrow;
      dst[k], borrow := if diff < 0 then diff + LIMB else diff, if diff < 0 then 1 else 0;
      ValAtFrame(before, dst[..], 0, k);
      ValAtExtend(dst[..], 0, k);
      ValAtExtend(x, off, k);
      ValAtExtend(y, 0, k);
      BorrowStep(dst[k], borrow, b0, x[off + k], y[k], PowB(k));
    }
  }

  lemma BorrowStep(d: int, c: int, c0: int, x: int, y: int, pk: int)
    requires d - LIMB * c == x - y - c0
    ensures d * pk - c * (LIMB * pk) == x * pk - y * pk - c0 * pk
  {
    assert d * pk - c * (LIMB * pk) == (d - LIMB * c) * pk;
    assert (x - y - c0) * pk == x * pk - y * pk - c0 * pk;
  }
}
