/** The arithmetic-circuit operations of POC/OnlineOp.hpp.  A share is the field element it hides,
    an integer in [0, p); a shared bit is a field element that is 0 or 1. */
module OnlineOp {
  import opened Arith

  datatype Outcome<T> = Ok(value: T) | InvalidLength

  // ----- field operations

  function Add(a: int, b: int, p: int): int requires p > 0 { (a + b) % p }
  function Sub(a: int, b: int, p: int): int requires p > 0 { (a - b) % p }
  function Mul(a: int, b: int, p: int): int requires p > 0 { (a * b) % p }

  function XorOf(a: int, b: int, p: int): int
    requires p > 0
  {
    var tmp := Mul(a, b, p);
    Sub(Sub(Add(a, b, p), tmp, p), tmp, p)
  }

  function OrOf(a: int, b: int, p: int): int
    requires p > 0
  {
    Sub(Add(a, b, p), Mul(a, b, p), p)
  }

  predicate Bit(b: int) { b == 0 || b == 1 }

  predicate Bits(s: seq<int>) {
    forall i :: 0 <= i < |s| ==> Bit(s[i])
  }

  /** On bits the arithmetic formulas are exclusive or, or, and. */
  lemma BitFormulas(a: int, b: int, p: int)
    requires p > 2 && Bit(a) && Bit(b)
    ensures XorOf(a, b, p) == if a == b then 0 else 1
    ensures OrOf(a, b, p) == if a == 1 || b == 1 then 1 else 0
    ensures Mul(a, b, p) == if a == 1 && b == 1 then 1 else 0
  {
    Small(0, p);
    Small(1, p);
    Small(2, p);
  }

  /** The number with the given bits, least significant first. */
  function BitsVal(s: seq<int>): int
  {
    if |s| == 0 then 0 else s[0] + 2 * BitsVal(s[1..])
  }

  lemma {:induction false} BitsValAppend(s: seq<int>, t: seq<int>)
    ensures BitsVal(s + t) == BitsVal(s) + Pow2(|s|) * BitsVal(t)
  {
    if |s| == 0 {
      assert s + t == t;
    } else {
      BitsValAppend(s[1..], t);
      assert (s + t)[1..] == s[1..] + t;
      assert 2 * (Pow2(|s| - 1) * BitsVal(t)) == Pow2(|s|) * BitsVal(t);
    }
  }

  lemma BitsValSnoc(s: seq<int>, k: nat)
    requires k < |s|
    ensures BitsVal(s[..k + 1]) == BitsVal(s[..k]) + s[k] * Pow2(k)
  {
    assert s[..k + 1] == s[..k] + [s[k]];
    BitsValAppend(s[..k], [s[k]]);
    assert BitsVal([s[k]]) == s[k] by { assert BitsVal([s[k]][1..]) == 0; }
    assert Pow2(k) * s[k] == s[k] * Pow2(k);
  }

  lemma {:induction false} BitsValBound(s: seq<int>)
    requires Bits(s)
    ensures 0 <= BitsVal(s) < Pow2(|s|)
  {
    if |s| > 0 { BitsValBound(s[1..]); }
  }

  lemma {:induction false} BitsValInjective(s: seq<int>, t: seq<int>)
    requires Bits(s) && Bits(t) && |s| == |t| && BitsVal(s) == BitsVal(t)
    ensures s == t
  {
    if |s| > 0 {
      BitsValInjective(s[1..], t[1..]);
      assert s == [s[0]] + s[1..] && t == [t[0]] + t[1..];
    }
  }

  // ----- vector operations

  method XorVec(a: seq<int>, b: seq<int>, k: nat, p: int) returns (c: Outcome<seq<int>>)
    requires p > 2
    ensures c.InvalidLength? <==> |a| != k || |b| != k
    ensures c.Ok? ==> |c.value| == k && forall i :: 0 <= i < k ==> c.value[i] == XorOf(a[i], b[i], p)
    ensures c.Ok? && Bits(a) && Bits(b) ==>
              Bits(c.value) && forall i :: 0 <= i < k ==> (c.value[i] == 1 <==> a[i] != b[i])
  {
    if |a| != k || |b| != k {
      return InvalidLength;
    }
    var r: seq<int> := [];
    for i := 0 to k
      invariant |r| == i
      invariant forall j :: 0 <= j < i ==> r[j] == XorOf(a[j], b[j], p)
      invariant Bits(a) && Bits(b) ==> Bits(r) && forall j :: 0 <= j < i ==> (r[j] == 1 <==> a[j] != b[j])
    {
      if Bit(a[i]) && Bit(b[i]) { BitFormulas(a[i], b[i], p); }
      r := r + [XorOf(a[i], b[i], p)];
    }
    c := Ok(r);
  }

  method OrVec(a: seq<int>, b: seq<int>, k: nat, p: int) returns (c: Outcome<seq<int>>)
    requires p > 2
    ensures c.InvalidLength? <==> |a| != k || |b| != k
    ensures c.Ok? ==> |c.value| == k && forall i :: 0 <= i < k ==> c.value[i] == OrOf(a[i], b[i], p)
    ensures c.Ok? && Bits(a) && Bits(b) ==>
              Bits(c.value) && forall i :: 0 <= i < k ==> (c.value[i] == 1 <==> a[i] == 1 || b[i] == 1)
  {
    if |a| != k || |b| != k {
      return InvalidLength;
    }
    var r: seq<int> := [];
    for i := 0 to k
      invariant |r| == i
      invariant forall j :: 0 <= j < i ==> r[j] == OrOf(a[j], b[j], p)
      invariant Bits(a) && Bits(b) ==>
                  Bits(r) && forall j :: 0 <= j < i ==> (r[j] == 1 <==> a[j] == 1 || b[j] == 1)
    {
      if Bit(a[i]) && Bit(b[i]) { BitFormulas(a[i], b[i], p); }
      r := r + [OrOf(a[i], b[i], p)];
    }
    c := Ok(r);
  }

  /** The even-indexed and odd-indexed elements of the first 2h elements of a. */
  method SplitPairs(a: seq<int>, h: nat) returns (even: seq<int>, odd: seq<int>)
    requires 2 * h <= |a|
    ensures |even| == h && |odd| == h
    ensures forall i :: 0 <= i < h ==> even[i] == a[2 * i] && odd[i] == a[2 * i + 1]
  {
    even, odd := [], [];
    for i := 0 to h
      invariant |even| == i && |odd| == i
      invariant forall j :: 0 <= j < i ==> even[j] == a[2 * j] && odd[j] == a[2 * j + 1]
    {
      even := even + [a[2 * i]];
      odd := odd + [a[2 * i + 1]];
    }
  }

  /** The number of ones, whose parity the exclusive or of all bits is. */
  function Ones(a: seq<int>): int
  {
    if |a| == 0 then 0 else a[0] + Ones(a[1..])
  }

  /** Replacing neighbours by their exclusive or keeps the parity. */
  lemma FirstTwoOnes(a: seq<int>)
    requires |a| >= 2
    ensures Ones(a) == a[0] + a[1] + Ones(a[2..])
  {
    assert a[1..][1..] == a[2..];
  }

  lemma {:induction false} PairsKeepParity(a: seq<int>, c: seq<int>)
    requires Bits(a) && Bits(c) && |c| == (|a| + 1) / 2
    requires forall i :: 0 <= i < |a| / 2 ==> (c[i] == 1 <==> a[2 * i] != a[2 * i + 1])
    requires |a| % 2 == 1 ==> c[|c| - 1] == a[|a| - 1]
    ensures Ones(c) % 2 == Ones(a) % 2
  {
    if |a| >= 2 {
      var a', c' := a[2..], c[1..];
      assert forall i :: 0 <= i < |a'| / 2 ==> c'[i] == c[i + 1] && a'[2 * i] == a[2 * (i + 1)]
                                               && a'[2 * i + 1] == a[2 * (i + 1) + 1];
      PairsKeepParity(a', c');
      FirstTwoOnes(a);
      assert c[0] == 1 <==> a[0] != a[1] by { assert a[2 * 0] == a[0] && a[2 * 0 + 1] == a[1]; }
      assert Ones(c) == c[0] + Ones(c') && Bit(a[0]) && Bit(a[1]) && Bit(c[0]);
    } else if |a| == 1 {
      assert a[1..] == [] && c[1..] == [];
    }
  }

  /** Replacing neighbours by their or keeps whether there is a one. */
  lemma PairsKeepAny(a: seq<int>, c: seq<int>)
    requires Bits(a) && Bits(c) && |c| == (|a| + 1) / 2
    requires forall i :: 0 <= i < |a| / 2 ==> (c[i] == 1 <==> a[2 * i] == 1 || a[2 * i + 1] == 1)
    requires |a| % 2 == 1 ==> c[|c| - 1] == a[|a| - 1]
    ensures (exists i :: 0 <= i < |a| && a[i] == 1) <==> (exists i :: 0 <= i < |c| && c[i] == 1)
  {
    if i :| 0 <= i < |a| && a[i] == 1 {
      var j := i / 2;
      assert i == 2 * j || i == 2 * j + 1;
      assert c[j] == 1;
    }
    if j :| 0 <= j < |c| && c[j] == 1 {
      assert a[2 * j] == 1 || a[2 * j + 1] == 1;
    }
  }

  /** The exclusive or of k bits, by a tree of pairwise operations. */
  method KXor(a: seq<int>, k: nat, p: int) returns (c: Outcome<int>)
    requires p > 2 && Bits(a) && k >= 1
    ensures c.InvalidLength? <==> |a| != k
    ensures c.Ok? ==> c.value == Ones(a) % 2
    decreases k
  {
    if |a| != k {
      return InvalidLength;
    }
    if k == 1 {
      assert a[1..] == [];
      return Ok(a[0]);
    }
    var even, odd := SplitPairs(a, k / 2);
    var half := XorVec(even, odd, k / 2, p);
    var next := half.value;
    if k % 2 == 1 {
      next := next + [a[k - 1]];
    }
    PairsKeepParity(a, next);
    c := KXor(next, (k + 1) / 2, p);
  }

  /** The or of k bits, by a tree of pairwise operations. */
  method KOr(a: seq<int>, k: nat, p: int) returns (c: Outcome<int>)
    requires p > 2 && Bits(a) && k >= 1
    ensures c.InvalidLength? <==> |a| != k
    ensures c.Ok? ==> Bit(c.value) && (c.value == 1 <==> exists i :: 0 <= i < k && a[i] == 1)
    decreases k
  {
    if |a| != k {
      return InvalidLength;
    }
    if k == 1 {
      return Ok(a[0]);
    }
    var even, odd := SplitPairs(a, k / 2);
    var half := OrVec(even, odd, k / 2, p);
    var next := half.value;
    if k % 2 == 1 {
      next := next + [a[k - 1]];
    }
    PairsKeepAny(a, next);
    c := KOr(next, (k + 1) / 2, p);
  }

  predicate AnyOne(a: seq<int>, i: nat)
    requires i < |a|
  {
    exists j :: 0 <= j <= i && a[j] == 1
  }

  /** c[i] is the or of a[0..i], by divide and conquer. */
  method PrefixOr(a: seq<int>, k: nat, p: int) returns (c: Outcome<seq<int>>)
    requires p > 2 && Bits(a) && k >= 1
    ensures c.InvalidLength? <==> |a| != k
    ensures c.Ok? ==> |c.value| == k && Bits(c.value)
    ensures c.Ok? ==> forall i :: 0 <= i < k ==> (c.value[i] == 1 <==> AnyOne(a, i))
    decreases k
  {
    if |a| != k {
      return InvalidLength;
    }
    if k == 1 {
      return Ok([a[0]]);
    }
    var half := k / 2;
    var low, high := a[..half], a[half..];
    var c0 := PrefixOr(low, half, p);
    var c1 := PrefixOr(high, k - half, p);
    var last := c0.value[half - 1];
    var tmp := OrVec(seq(k - half, _ => last), c1.value, k - half, p);
    var r := c0.value + tmp.value;
    forall i | 0 <= i < k ensures r[i] == 1 <==> AnyOne(a, i) {
      if i < half {
        PrefixSame(a, half, i);
      } else {
        PrefixSplit(a, half, i);
      }
    }
    c := Ok(r);
  }

  lemma PrefixSame(a: seq<int>, half: nat, i: nat)
    requires i < half <= |a|
    ensures AnyOne(a[..half], i) <==> AnyOne(a, i)
  {
    if AnyOne(a, i) {
      var j :| 0 <= j <= i && a[j] == 1;
      assert a[..half][j] == 1;
    }
  }

  lemma PrefixSplit(a: seq<int>, half: nat, i: nat)
    requires 1 <= half <= i < |a|
    ensures AnyOne(a, i) <==> AnyOne(a[..half], half - 1) || AnyOne(a[half..], i - half)
  {
    if AnyOne(a, i) {
      var j :| 0 <= j <= i && a[j] == 1;
      if j < half { assert a[..half][j] == 1; } else { assert a[half..][j - half] == 1; }
    }
    if AnyOne(a[half..], i - half) {
      var j :| 0 <= j <= i - half && a[half..][j] == 1;
      assert a[half + j] == 1;
    }
  }

  // ----- comparison

  function Reverse(s: seq<int>): (r: seq<int>)
    ensures |r| == |s|
  {
    seq(|s|, i requires 0 <= i < |s| => s[|s| - 1 - i])
  }

  /** The highest position below k at which a and b differ, or -1. */
  function TopDifference(a: seq<int>, b: seq<int>, k: nat): (m: int)
    requires k <= |a| && k <= |b|
    ensures -1 <= m < k
    ensures m >= 0 ==> a[m] != b[m]
    ensures forall j :: m < j < k ==> a[j] == b[j]
  {
    if k == 0 then -1 else if a[k - 1] != b[k - 1] then k - 1 else TopDifference(a, b, k - 1)
  }

  /** Integer order of bit vectors is decided at the highest differing position. */
  lemma {:induction false} TopDecides(a: seq<int>, b: seq<int>, k: nat)
    requires Bits(a) && Bits(b) && k <= |a| && k <= |b|
    ensures var m := TopDifference(a, b, k);
            && (BitsVal(a[..k]) < BitsVal(b[..k]) <==> m >= 0 && b[m] == 1)
            && (BitsVal(a[..k]) == BitsVal(b[..k]) <==> m == -1)
  {
    if k > 0 {
      TopDecides(a, b, k - 1);
      BitsValSnoc(a, k - 1);
      BitsValSnoc(b, k - 1);
      BitsValBound(a[..k - 1]);
      BitsValBound(b[..k - 1]);
      TopBit(BitsVal(a[..k - 1]), BitsVal(b[..k - 1]), a[k - 1], b[k - 1], Pow2(k - 1));
    }
  }

  lemma TopBit(u: int, v: int, x: int, y: int, q: int)
    requires 0 <= u < q && 0 <= v < q && Bit(x) && Bit(y)
    ensures x == y ==> (u + x * q < v + y * q <==> u < v) && (u + x * q == v + y * q <==> u == v)
    ensures x != y ==> (u + x * q < v + y * q <==> y == 1) && u + x * q != v + y * q
  {}

  /** Among the differences from the top down to i there is a one exactly when i is not above the
      highest difference. */
  lemma SuffixOr(a: seq<int>, b: seq<int>, c: seq<int>, i: nat)
    requires |a| == |b| == |c| && i < |a|
    requires forall j :: 0 <= j < |c| ==> (c[j] == 1 <==> a[j] != b[j])
    ensures AnyOne(Reverse(c), |a| - 1 - i) <==> i <= TopDifference(a, b, |a|)
  {
    var m := TopDifference(a, b, |a|);
    if i <= m {
      assert c[m] == 1;
      ReversedOne(c, Reverse(c), i, m);
    } else {
      ReversedZeros(c, Reverse(c), i);
    }
  }

  lemma ReversedOne(c: seq<int>, rev: seq<int>, i: nat, m: nat)
    requires |rev| == |c| && forall j {:trigger rev[j]} :: 0 <= j < |c| ==> rev[j] == c[|c| - 1 - j]
    requires i <= m < |c| && c[m] == 1
    ensures AnyOne(rev, |c| - 1 - i)
  {
    assert rev[|c| - 1 - m] == 1;
  }

  lemma ReversedZeros(c: seq<int>, rev: seq<int>, i: nat)
    requires |rev| == |c| && forall j {:trigger rev[j]} :: 0 <= j < |c| ==> rev[j] == c[|c| - 1 - j]
    requires i < |c| && forall j :: i <= j < |c| ==> c[j] != 1
    ensures !AnyOne(rev, |c| - 1 - i)
  {}

  /** 1 if a < b as integers, otherwise 0. */
  method Lt(a: seq<int>, b: seq<int>, k: nat, p: int) returns (bit: Outcome<int>)
    requires p > 2 && Bits(a) && Bits(b) && k >= 1
    ensures bit.InvalidLength? <==> |a| != k || |b| != k
    ensures bit.Ok? ==> bit.value == if BitsVal(a) < BitsVal(b) then 1 else 0
  {
    var c := XorVec(a, b, k, p);
    if c.InvalidLength? {
      return InvalidLength;
    }
    var pre := PrefixOr(Reverse(c.value), k, p);
    var d := Reverse(pre.value);
    ghost var m := TopDifference(a, b, k);
    forall i | 0 <= i < k ensures d[i] == if i <= m then 1 else 0 {
      SuffixOr(a, b, c.value, i);
      assert d[i] == pre.value[k - 1 - i];
    }
    var e: seq<int> := [];
    Small(0, p);
    Small(1, p);
    for i := 0 to k - 1
      invariant |e| == i && forall j :: 0 <= j < i ==> e[j] == if j == m then 1 else 0
    {
      e := e + [Sub(d[i], d[i + 1], p)];
    }
    e := e + [d[k - 1]];
    var sum := Mul(e[0], b[0], p);
    for i := 1 to k
      invariant sum == if 0 <= m < i && b[m] == 1 then 1 else 0
    {
      sum := Add(sum, Mul(e[i], b[i], p), p);
    }
    TopDecides(a, b, k);
    assert a[..k] == a && b[..k] == b;
    bit := Ok(sum);
  }

  // ----- addition of bit vectors

  function CarryOut(x: int, y: int, ci: int, p: int): int
    requires p > 0
  {
    XorOf(Mul(XorOf(y, ci, p), XorOf(x, ci, p), p), ci, p)
  }

  function SumOut(x: int, y: int, ci: int, p: int): int
    requires p > 0
  {
    XorOf(XorOf(x, y, p), ci, p)
  }

  lemma FullAdder(x: int, y: int, ci: int, p: int)
    requires p > 2 && Bit(x) && Bit(y) && Bit(ci)
    ensures Bit(CarryOut(x, y, ci, p)) && Bit(SumOut(x, y, ci, p))
    ensures 2 * CarryOut(x, y, ci, p) + SumOut(x, y, ci, p) == x + y + ci
  {
    BitFormulas(x, y, p);
    BitFormulas(XorOf(x, y, p), ci, p);
    BitFormulas(x, ci, p);
    BitFormulas(y, ci, p);
    BitFormulas(XorOf(y, ci, p), XorOf(x, ci, p), p);
    BitFormulas(Mul(XorOf(y, ci, p), XorOf(x, ci, p), p), ci, p);
  }

  /** Ripple-carry addition.  The carry variable that becomes the top bit starts as 0 and is only
      written from position 1 on, so a carry out of a one-bit addition is lost. */
  method AddBit(a: seq<int>, b: seq<int>, p: int) returns (c: Outcome<seq<int>>)
    requires p > 2 && Bits(a) && Bits(b) && |a| >= 1
    ensures c.InvalidLength? <==> |a| != |b|
    ensures c.Ok? ==> |c.value| == |a| + 1 && Bits(c.value)
    ensures c.Ok? ==> (BitsVal(c.value) == BitsVal(a) + BitsVal(b) <==> !(|a| == 1 && a[0] == 1 && b[0] == 1))
  {
    if |a| != |b| {
      return InvalidLength;
    }
    BitFormulas(a[0], b[0], p);
    var caIn, caOut := Mul(a[0], b[0], p), 0;
    var r := [XorOf(a[0], b[0], p)];
    var n := |a|;
    BitsValSnoc(a, 0);
    BitsValSnoc(b, 0);
    BitsValSnoc(r, 0);
    assert r[..1] == r && a[..0] == [] && b[..0] == [] && r[..0] == [];
    for i := 1 to n
      invariant |r| == i && Bits(r) && Bit(caIn) && (if i == 1 then caOut == 0 else caOut == caIn)
      invariant i == 1 ==> (caIn == 1 <==> a[0] == 1 && b[0] == 1)
      invariant BitsVal(r) + caIn * Pow2(i) == BitsVal(a[..i]) + BitsVal(b[..i])
    {
      FullAdder(a[i], b[i], caIn, p);
      var s;
      s, caOut := SumOut(a[i], b[i], caIn, p), CarryOut(a[i], b[i], caIn, p);
      BitsValSnoc(a, i);
      BitsValSnoc(b, i);
      BitsValSnoc(r + [s], i);
      assert (r + [s])[..i] == r && (r + [s])[..i + 1] == r + [s];
      RippleStep(a[i], b[i], caIn, s, caOut, Pow2(i));
      r, caIn := r + [s], caOut;
    }
    assert a[..n] == a && b[..n] == b;
    BitsValSnoc(r + [caOut], n);
    assert (r + [caOut])[..n] == r && (r + [caOut])[..n + 1] == r + [caOut];
    c := Ok(r + [caOut]);
  }

  lemma RippleStep(x: int, y: int, ci: int, s: int, co: int, q: int)
    requires 2 * co + s == x + y + ci
    ensures s * q + co * (2 * q) == x * q + y * q + ci * q
  {
    assert s * q + co * (2 * q) == (2 * co + s) * q;
  }

  // ----- conversions

  /** The lowest k bits of a nonnegative integer. */
  method Decompose(x: nat, k: nat) returns (bits: seq<int>)
    requires k >= 1
    ensures |bits| == k && Bits(bits) && BitsVal(bits) == x % Pow2(k)
  {
    var tmp := x;
    bits := [tmp % 2];
    assert BitsVal(bits) == x % 2 by { assert BitsVal(bits[1..]) == 0; }
    assert Pow2(1) == 2 * Pow2(0);
    for i := 1 to k
      invariant |bits| == i && Bits(bits) && tmp >= 0
      invariant BitsVal(bits) + (tmp / 2) * Pow2(i) == x
    {
      ghost var was, h := bits, tmp / 2;
      bits := bits + [(tmp / 2) % 2];
      tmp := tmp / 2;
      BitsValSnoc(bits, i);
      assert bits[..i] == was && bits[..i + 1] == bits;
      assert h == h % 2 + 2 * (h / 2);
      RippleStep(h, 0, 0, h % 2, h / 2, Pow2(i));
    }
    BitsValBound(bits);
    ModUnique(x, Pow2(k), tmp / 2, BitsVal(bits));
  }

  /** a^exp by repeated multiplication.  For exp = 0 the original sets the base to 0 and so yields 0. */
  method Power(a: int, exp: nat, p: int) returns (r: int)
    requires p > 1 && 0 <= a < p
    ensures r == if exp == 0 then 0 else Pow(a, exp) % p
  {
    hide Pow;
    r := if exp == 0 then 0 else a;
    var tmp := r;
    Small(a, p);
    FirstPower(a);
    var i := 1;
    while i < exp
      invariant 1 <= i && (exp >= 1 ==> i <= exp)
      invariant exp == 0 ==> r == 0
      invariant exp >= 1 ==> r == Pow(a, i) % p && tmp == a
    {
      NextPowerMod(a, i, p);
      r := Mul(r, tmp, p);
      i := i + 1;
    }
  }

  lemma FirstPower(a: int)
    ensures Pow(a, 1) == a
  {
    assert Pow(a, 1) == a * Pow(a, 0);
  }

  lemma NextPowerMod(a: int, i: nat, p: int)
    requires p > 1 && 0 <= a < p
    ensures Mul(Pow(a, i) % p, a, p) == Pow(a, i + 1) % p
  {
    ProductMod(a, Pow(a, i), Pow(a, i + 1), p);
  }

  lemma ProductMod(a: int, v: int, w: int, p: int)
    requires p > 1 && 0 <= a < p && w == a * v
    ensures Mul(v % p, a, p) == w % p
  {
    Small(a, p);
    MulModBoth(v, a, p);
    assert v * a == a * v;
  }

  /** The field element with the given bits. */
  method B2A(bits: seq<int>, k: nat, p: int) returns (c: int)
    requires p > 2 && Bits(bits) && 1 <= k <= |bits|
    ensures c == BitsVal(bits[..k]) % p
  {
    c := bits[0];
    Small(c, p);
    BitsValSnoc(bits, 0);
    assert bits[..0] == [] && Pow2(0) == 1;
    for i := 1 to k
      invariant c == BitsVal(bits[..i]) % p
    {
      var pow := Power(2, i, p);
      PowerOfTwo(i);
      BitsValSnoc(bits, i);
      MulModBoth(bits[i], Pow2(i), p);
      AddModBoth(BitsVal(bits[..i]), bits[i] * Pow2(i), p);
      c := Add(c, Mul(bits[i], pow, p), p);
    }
  }

  lemma {:induction false} PowerOfTwo(i: nat)
    ensures Pow(2, i) == Pow2(i)
  {
    if i > 0 { PowerOfTwo(i - 1); }
  }

  /** `draws` are the vectors of random bits the loop fetches; the first one below the prime is
      accepted. */
  method PreRand(draws: seq<seq<int>>, n: nat, p: int) returns (r: int, bitr: seq<int>)
    requires 2 < p < Pow2(n) && n >= 1
    requires forall i :: 0 <= i < |draws| ==> |draws[i]| == n && Bits(draws[i])
    requires exists i :: 0 <= i < |draws| && BitsVal(draws[i]) < p
    ensures |bitr| == n && Bits(bitr) && 0 <= r < p && r == BitsVal(bitr)
    ensures bitr in draws
  {
    var pbits := Decompose(p, n);
    Small(p, Pow2(n));
    var i := 0;
    while true
      invariant 0 <= i < |draws|
      invariant exists j :: i <= j < |draws| && BitsVal(draws[j]) < p
      decreases |draws| - i
    {
      bitr := draws[i];
      var flag := Lt(bitr, pbits, n, p);
      if flag.value == 1 {
        r := B2A(bitr, n, p);
        assert bitr[..n] == bitr;
        BitsValBound(bitr);
        Small(BitsVal(bitr), p);
        return;
      }
      i := i + 1;
    }
  }

  /** The constant added when r + c wraps around the prime is c - p modulo 2^n. */
  lemma WrapConstant(c: int, p: int, w: int)
    requires 0 < c < p < w
    ensures (2 * w + c - p) % w == w + c - p
  {
    ModUnique(2 * w + c - p, w, 1, w + c - p);
  }

  /** The bits of the integer a, from a random mask below p. */
  method A2B(a: int, draws: seq<seq<int>>, n: nat, p: int) returns (bits: seq<int>)
    requires 2 < p < Pow2(n) && n >= 2 && 0 <= a < p
    requires forall i :: 0 <= i < |draws| ==> |draws[i]| == n && Bits(draws[i])
    requires exists i :: 0 <= i < |draws| && BitsVal(draws[i]) < p
    ensures |bits| == n && Bits(bits) && BitsVal(bits) == a
  {
    hide BitsVal, Pow2;
    var r, bitr := PreRand(draws, n, p);
    var c := Sub(a, r, p);
    if a >= r { Small(a - r, p); } else { ModUnique(a - r, p, -1, a - r + p); }
    if c == 0 {
      return bitr;
    }
    var bound := Decompose(p - c, n);
    Small(p - c, Pow2(n));
    var lt := Lt(bitr, bound, n, p);
    var factor := lt.value;
    // share of 1 - factor
    factor := Add(Sub(factor, Mul(factor, 2, p), p), 1, p);
    Small(0, p);
    Small(1, p);
    Small(2, p);
    ModUnique(-1, p, -1, p - 1);
    ShiftMod(0, 1, p);
    assert factor == if r + c < p then 0 else 1;
    var f := Decompose(c, n);
    var tf := Decompose(2 * Pow2(n) + c - p, n);
    Small(c, Pow2(n));
    WrapConstant(c, p, Pow2(n));
    var tg: seq<int> := [];
    for i := 0 to n
      invariant |tg| == i && forall j :: 0 <= j < i ==> tg[j] == if factor == 1 then tf[j] else f[j]
    {
      Select(factor, tf[i], f[i], p);
      tg := tg + [Add(Mul(factor, tf[i] - f[i], p), f[i], p)];
    }
    assert tg == if factor == 1 then tf else f;
    var sum := AddBit(tg, bitr, p);
    DropTop(sum.value, n, a);
    bits := sum.value[..n];
  }

  lemma Select(factor: int, x: int, y: int, p: int)
    requires p > 2 && Bit(factor) && Bit(x) && Bit(y)
    ensures Add(Mul(factor, x - y, p), y, p) == if factor == 1 then x else y
  {
    AddModBoth(factor * (x - y), y, p);
    Small(x, p);
    Small(y, p);
  }

  /** Dropping the top bit of a sum that is a or 2^n + a leaves the bits of a. */
  lemma DropTop(s: seq<int>, n: nat, a: int)
    requires |s| == n + 1 && Bits(s) && 0 <= a < Pow2(n)
    requires BitsVal(s) == a || BitsVal(s) == Pow2(n) + a
    ensures BitsVal(s[..n]) == a
  {
    hide BitsVal;
    BitsValSnoc(s, n);
    assert s[..n + 1] == s;
    BitsValBound(s[..n]);
  }
}
