/** The universal hash and the Legendre PRF of the custody bit: POC/OnlineOp.hpp and POC/poc.hpp. */
module Custody {
  import opened Arith
  import opened NumberTheory
  import opened OnlineOp

  /** A preprocessed pair (s, s^2). */
  datatype SquareTuple = SquareTuple(s: int, ss: int)

  ghost predicate IsSquareTuple(t: SquareTuple, p: int)
    requires p > 0
  {
    0 <= t.s < p && t.ss == (t.s * t.s) % p
  }

  /** a^2 by opening a - s. */
  method Sqr(a: int, t: SquareTuple, p: int) returns (aa: int)
    requires p > 1 && IsSquareTuple(t, p)
    ensures aa == (a * a) % p
  {
    var opened_ := Sub(a, t.s, p);
    var tmp := Mul(t.s, opened_, p);
    aa := Add(Add(Add(t.ss, tmp, p), tmp, p), Mul(opened_, opened_, p), p);
    SquareFromTuple(a, t.s, p);
  }

  lemma SquareFromTuple(a: int, s: int, p: int)
    requires p > 1
    ensures var e := Sub(a, s, p);
            var tmp := Mul(s, e, p);
            Add(Add(Add((s * s) % p, tmp, p), tmp, p), Mul(e, e, p), p) == (a * a) % p
  {
    var d, e := a - s, Sub(a, s, p);
    MulModBoth(s, d, p);
    MulModBoth(d, d, p);
    ThreeSums(s * s, s * d, d * d, p);
    SquareOfSum(s, d);
  }

  lemma ThreeSums(x: int, y: int, z: int, p: int)
    requires p > 0
    ensures Add(Add(Add(x % p, y % p, p), y % p, p), z % p, p) == (x + y + y + z) % p
  {
    SumStep(x, y, p);
    SumStep(x + y, y, p);
    SumStep(x + y + y, z, p);
  }

  lemma SumStep(x: int, y: int, p: int)
    requires p > 0
    ensures Add(x % p, y % p, p) == (x + y) % p
  {
    AddModBoth(x, y, p);
  }

  lemma SquareOfSum(s: int, d: int)
    ensures (s + d) * (s + d) == s * s + s * d + s * d + d * d
  {}

  // ----- the Legendre PRF

  /** The Legendre symbol of x, read off the opened product of x with a random square. */
  method LegendreOf(x: int, t: SquareTuple, p: int) returns (l: int)
    requires OddPrime(p) && IsSquareTuple(t, p)
    ensures l == if t.s == 0 then 0 else Legendre(x, p)
  {
    var opened_ := Mul(t.ss, x, p);
    l := Legendre(opened_, p);
    Small(t.s, p);
    MaskedLegendre(x, t.s, t.ss, p);
  }

  lemma LegendreCongruent(a: int, b: int, p: int)
    requires p > 0 && a % p == b % p
    ensures Legendre(a, p) == Legendre(b, p)
  {}

  lemma MaskedLegendre(x: int, s: int, ss: int, p: int)
    requires OddPrime(p) && ss == (s * s) % p
    ensures Legendre((ss * x) % p, p) == if s % p == 0 then 0 else Legendre(x, p)
  {
    ModMod(ss * x, p);
    MulModBoth(s * s, x, p);
    LegendreCongruent((ss * x) % p, (s * s) * x, p);
    LegendreMultiplicative(s * s, x, p);
    LegendreMultiplicative(s, s, p);
  }

  /** ceil((l + 1) / 2): 0 for a non-square, 1 for a square, and 1 for zero. */
  function RoundUpHalf(l: int): int { (l + 2) / 2 }

  method LegendrePrf(key: int, x: int, t: SquareTuple, p: int) returns (res: int)
    requires OddPrime(p) && IsSquareTuple(t, p)
    ensures res == 0 || res == 1
    ensures res == 1 <==> t.s == 0 || IsSquare(key + x, p)
  {
    var tmp := Add(key, x, p);
    var l := LegendreOf(tmp, t, p);
    ModMod(key + x, p);
    LegendreCongruent(tmp, key + x, p);
    ZeroIsSquare(key + x, p);
    res := RoundUpHalf(l);
  }

  lemma ZeroIsSquare(a: int, p: int)
    requires p > 0
    ensures a % p == 0 ==> IsSquare(a, p)
  {
    if a % p == 0 { assert (0 * 0) % p == a % p; }
  }

  // ----- powers of the keys

  /** The power of a key that multiplies chunk i: the keys take turns. */
  function KeyPower(keys: seq<int>, i: nat): int
    requires |keys| > 0
  {
    Pow(keys[i % |keys|], i)
  }

  ghost predicate KeyPowers(pre: seq<int>, keys: seq<int>, p: int)
    requires p > 0 && |keys| > 0
  {
    forall i :: 0 <= i < |pre| ==> pre[i] == KeyPower(keys, i + 1) % p
  }

  /** The power c further on in the same turn is the power times the c-th power of its key. */
  lemma NextPower(keys: seq<int>, i: nat, x: int, kc: int, p: int)
    requires p > 0 && |keys| > 0 && x == KeyPower(keys, i) % p
    requires kc == Pow(keys[i % |keys|], |keys|) % p
    ensures (x * kc) % p == KeyPower(keys, i + |keys|) % p
  {
    var c, k := |keys|, keys[i % |keys|];
    MulModBoth(Pow(k, i), Pow(k, c), p);
    PowAdd(k, i, c);
    ShiftMod(i, 1, c);
  }

  lemma SmallPowers(k: int)
    ensures Pow(k, 0) == 1 && Pow(k, 1) == k && Pow(k, 2) == k * k && Pow(k, 3) == k * k * k
  {
    assert Pow(k, 1) == k * Pow(k, 0);
    assert Pow(k, 2) == k * Pow(k, 1);
    assert Pow(k, 3) == k * Pow(k, 2);
  }

  lemma FirstPower(keys: seq<int>, p: int)
    requires |keys| >= 2 && 0 <= keys[1] < p
    ensures keys[1] == KeyPower(keys, 1) % p
  {
    Small(1, |keys|);
    SmallPowers(keys[1]);
    Small(keys[1], p);
  }

  /** The offline table for two keys: s1, s0^2, s1^3, s0^4, ... */
  method Offline(keys: seq<int>, n: nat, tuples: seq<SquareTuple>, p: int) returns (pre: Outcome<seq<int>>)
    requires p > 1 && n >= 2 && |tuples| == 2 && forall i :: 0 <= i < 2 ==> IsSquareTuple(tuples[i], p)
    requires forall i :: 0 <= i < |keys| ==> 0 <= keys[i] < p
    ensures pre.InvalidLength? <==> |keys| != 2
    ensures pre.Ok? ==> |pre.value| == n && KeyPowers(pre.value, keys, p)
    ensures pre.Ok? ==> forall i :: 0 <= i < n ==> pre.value[i] == Pow(keys[(i + 1) % 2], i + 1) % p
  {
    if |keys| != 2 {
      return InvalidLength;
    }
    var sq0 := Sqr(keys[0], tuples[0], p);
    CubeFromSquare(keys[0], sq0, p);
    var sq1 := Sqr(keys[1], tuples[1], p);
    CubeFromSquare(keys[1], sq1, p);
    var r := [keys[1], sq0];
    FirstPower(keys, p);
    for i := 2 to n
      invariant |r| == i && KeyPowers(r, keys, p)
    {
      ghost var last := r[i - 2];
      if i % 2 == 0 {
        NextPower(keys, i - 1, last, sq1, p);
        r := r + [Mul(r[i - 2], sq1, p)];
      } else {
        NextPower(keys, i - 1, last, sq0, p);
        r := r + [Mul(r[i - 2], sq0, p)];
      }
    }
    pre := Ok(r);
  }

  lemma CubeFromSquare(k: int, sq: int, p: int)
    requires p > 1 && sq == (k * k) % p
    ensures (k * sq) % p == Pow(k, 3) % p && sq == Pow(k, 2) % p
  {
    SmallPowers(k);
    MulModBoth(k, k * k, p);
    assert k * (k * k) == k * k * k;
  }

  lemma FirstPowers(keys: seq<int>, square2: int, cube0: int, p: int)
    requires p > 1 && |keys| == 3 && 0 <= keys[1] < p
    requires square2 == Pow(keys[2], 2) % p && cube0 == Pow(keys[0], 3) % p
    ensures KeyPowers([keys[1], square2, cube0], keys, p)
  {
    FirstPower(keys, p);
    assert 2 % 3 == 2 && 3 % 3 == 0;
  }

  /** The offline table for three keys: s1, s2^2, s0^3, s1^4, ... */
  method Offline2Primes(keys: seq<int>, n: nat, tuples: seq<SquareTuple>, p: int) returns (pre: Outcome<seq<int>>)
    requires p > 1 && n >= 3 && |tuples| == 3 && forall i :: 0 <= i < 3 ==> IsSquareTuple(tuples[i], p)
    requires forall i :: 0 <= i < |keys| ==> 0 <= keys[i] < p
    ensures pre.InvalidLength? <==> |keys| != 3
    ensures pre.Ok? ==> |pre.value| == n && KeyPowers(pre.value, keys, p)
    ensures pre.Ok? ==> forall i :: 0 <= i < n ==> pre.value[i] == Pow(keys[(i + 1) % 3], i + 1) % p
  {
    if |keys| != 3 {
      return InvalidLength;
    }
    var cube0 := Sqr(keys[0], tuples[0], p);
    CubeFromSquare(keys[0], cube0, p);
    cube0 := Mul(keys[0], cube0, p);
    var cube1 := Sqr(keys[1], tuples[1], p);
    CubeFromSquare(keys[1], cube1, p);
    cube1 := Mul(keys[1], cube1, p);
    var cube2 := Sqr(keys[2], tuples[2], p);
    CubeFromSquare(keys[2], cube2, p);
    var square2 := cube2;
    cube2 := Mul(keys[2], cube2, p);
    FirstPowers(keys, square2, cube0, p);
    var r := [keys[1], square2, cube0];
    for i := 3 to n
      invariant |r| == i && KeyPowers(r, keys, p)
    {
      var cube := if i % 3 == 0 then cube1 else if i % 3 == 1 then cube2 else cube0;
      NextPower(keys, i - 2, r[i - 3], cube, p);
      r := r + [Mul(r[i - 3], cube, p)];
    }
    pre := Ok(r);
  }

  // ----- the hash

  /** m_0 + m_1 s^1 + ... over the first k chunks, with the keys taking turns. */
  function HashSum(msg: seq<int>, keys: seq<int>, k: nat): int
    requires |keys| > 0 && k <= |msg|
  {
    if k == 0 then 0 else HashSum(msg, keys, k - 1) + msg[k - 1] * KeyPower(keys, k - 1)
  }

  /** The universal hash: the sum over all chunks plus the power of the next key. */
  function Hash(msg: seq<int>, keys: seq<int>): int
    requires |keys| > 0
  {
    HashSum(msg, keys, |msg|) + KeyPower(keys, |msg|)
  }

  /** Of the zero message the hash is the power of the next key alone. */
  lemma HashOfZeros(n: nat, keys: seq<int>)
    requires |keys| > 0
    ensures Hash(seq(n, _ => 0), keys) == Pow(keys[n % |keys|], n)
  {
    SumOfZeros(n, keys, n);
  }

  lemma {:induction false} SumOfZeros(n: nat, keys: seq<int>, k: nat)
    requires |keys| > 0 && k <= n
    ensures HashSum(seq(n, _ => 0), keys, k) == 0
  {
    if k > 0 { SumOfZeros(n, keys, k - 1); }
  }

  /** Another chunk i changes the hash by the difference times the i-th power of the key whose turn it is. */
  lemma HashOfReplaced(msg: seq<int>, keys: seq<int>, i: nat, x: int)
    requires |keys| > 0 && i < |msg|
    ensures Hash(msg[i := x], keys) == Hash(msg, keys) + (x - msg[i]) * Pow(keys[i % |keys|], i)
  {
    SumOfReplaced(msg, keys, i, x, |msg|);
  }

  lemma {:induction false} SumOfReplaced(msg: seq<int>, keys: seq<int>, i: nat, x: int, k: nat)
    requires |keys| > 0 && i < |msg| && k <= |msg|
    ensures HashSum(msg[i := x], keys, k)
         == HashSum(msg, keys, k) + if i < k then (x - msg[i]) * Pow(keys[i % |keys|], i) else 0
  {
    if k > 0 {
      SumOfReplaced(msg, keys, i, x, k - 1);
      DifferenceTimes(x, msg[i], Pow(keys[i % |keys|], i));
    }
  }

  lemma DifferenceTimes(x: int, y: int, w: int)
    ensures (x - y) * w == x * w - y * w
  {}

  /** With one repeated key it is the polynomial of the chunks and a leading 1 at that key. */
  lemma HashWithOneKey(msg: seq<int>, keys: seq<int>, s: int)
    requires |keys| > 0 && forall i :: 0 <= i < |keys| ==> keys[i] == s
    ensures Hash(msg, keys) == Eval(msg + [1], s)
  {
    SumWithOneKey(msg, keys, s, |msg|);
    assert msg[..|msg|] == msg;
    EvalSnoc(msg, 1, s);
  }

  lemma {:induction false} SumWithOneKey(msg: seq<int>, keys: seq<int>, s: int, k: nat)
    requires |keys| > 0 && k <= |msg| && forall i :: 0 <= i < |keys| ==> keys[i] == s
    ensures HashSum(msg, keys, k) == Eval(msg[..k], s)
  {
    if k > 0 {
      SumWithOneKey(msg, keys, s, k - 1);
      EvalSnoc(msg[..k - 1], msg[k - 1], s);
      assert msg[..k] == msg[..k - 1] + [msg[k - 1]];
    }
  }

  lemma {:induction false} EvalSnoc(c: seq<int>, a: int, x: int)
    ensures Eval(c + [a], x) == Eval(c, x) + a * Pow(x, |c|)
  {
    if |c| == 0 {
      assert c + [a] == [a] && [a][1..] == [];
      EvalConstant([a], x);
    } else {
      EvalSnoc(c[1..], a, x);
      assert (c + [a])[1..] == c[1..] + [a];
      PowerMoves(x, Eval(c[1..], x), a, Pow(x, |c| - 1), Pow(x, |c|));
    }
  }

  lemma PowerMoves(x: int, e: int, a: int, w: int, w': int)
    requires w' == x * w
    ensures x * (e + a * w) == x * e + a * w'
  {
    assert x * (a * w) == a * (x * w);
  }

  /** The shared first part of both online methods: the hash from the table. */
  method HashFromTable(pre: seq<int>, msg: seq<int>, ghost keys: seq<int>, p: int) returns (h: int)
    requires p > 1 && |keys| > 0 && |pre| == |msg| >= 2 && KeyPowers(pre, keys, p)
    ensures h == Hash(msg, keys) % p
  {
    h := Add(Mul(pre[0], msg[1], p), msg[0], p);
    FirstTerms(pre, msg, keys, p);
    for i := 2 to |msg|
      invariant h == HashSum(msg, keys, i) % p
    {
      HashStep(pre[i - 1], msg[i], KeyPower(keys, i), HashSum(msg, keys, i), p);
      h := Add(h, Mul(pre[i - 1], msg[i], p), p);
    }
    AddModBoth(HashSum(msg, keys, |msg|), KeyPower(keys, |msg|), p);
    h := Add(h, pre[|pre| - 1], p);
  }

  lemma HashStep(x: int, m: int, power: int, sum: int, p: int)
    requires p > 1 && x == power % p
    ensures Add(sum % p, Mul(x, m, p), p) == (sum + m * power) % p
  {
    MulModBoth(power, m, p);
    AddModBoth(sum, power * m, p);
    assert power * m == m * power;
  }

  lemma FirstTerms(pre: seq<int>, msg: seq<int>, keys: seq<int>, p: int)
    requires p > 1 && |keys| > 0 && |pre| == |msg| >= 2 && KeyPowers(pre, keys, p)
    ensures Add(Mul(pre[0], msg[1], p), msg[0], p) == HashSum(msg, keys, 2) % p
  {
    var k := KeyPower(keys, 1);
    assert HashSum(msg, keys, 0) == 0;
    assert HashSum(msg, keys, 1) == msg[0] * KeyPower(keys, 0) == msg[0];
    assert HashSum(msg, keys, 2) == msg[0] + msg[1] * k;
    MulModBoth(k, msg[1], p);
    AddModBoth(k * msg[1], msg[0], p);
    assert k * msg[1] == msg[1] * k;
  }

  /** The custody bit with two keys; the first table entry is the PRF key. */
  method Online(pre: seq<int>, msg: seq<int>, ghost keys: seq<int>, n: nat, t: SquareTuple, p: int)
    returns (bit: Outcome<int>)
    requires OddPrime(p) && n >= 2 && |keys| == 2 && |pre| == n && KeyPowers(pre, keys, p)
    requires IsSquareTuple(t, p)
    ensures bit.InvalidLength? <==> |msg| != n
    ensures bit.Ok? ==> (bit.value == 1 <==> t.s == 0 || IsSquare(keys[1] + Hash(msg, keys), p))
    ensures bit.Ok? ==> bit.value == 0 || bit.value == 1
  {
    if |msg| != n {
      return InvalidLength;
    }
    var h := HashFromTable(pre, msg, keys, p);
    SmallPowers(keys[1]);
    AddModBoth(keys[1], Hash(msg, keys), p);
    var res := LegendrePrf(pre[0], h, t, p);
    bit := Ok(res);
  }

  /** The PRF answers 1 at offset i: the shifted number is a square, or the mask is zero. */
  ghost predicate Hit(tuples: seq<SquareTuple>, x: int, i: nat, p: int)
    requires p > 0 && i < |tuples|
  {
    tuples[i].s == 0 || IsSquare(x + i, p)
  }

  ghost predicate AnyHit(tuples: seq<SquareTuple>, x: int, k: nat, p: int)
    requires p > 0 && k <= |tuples|
  {
    exists i :: 0 <= i < k && Hit(tuples, x, i, p)
  }

  /** Some answer is 1 exactly when a mask is zero or a shifted number is a square. */
  lemma AnyHitMeans(tuples: seq<SquareTuple>, x: int, k: nat, p: int)
    requires p > 0 && k <= |tuples|
    ensures AnyHit(tuples, x, k, p) <==> exists i :: 0 <= i < k && (tuples[i].s == 0 || IsSquare(x + i, p))
  {
    if AnyHit(tuples, x, k, p) {
      var i :| 0 <= i < k && Hit(tuples, x, i, p);
      assert tuples[i] in tuples;
    } else if i :| 0 <= i < k && (tuples[i].s == 0 || IsSquare(x + i, p)) {
      assert Hit(tuples, x, i, p);
    }
  }

  /** The or of ten PRF bits of the hash. */
  method Online2Primes(pre: seq<int>, key: int, msg: seq<int>, ghost keys: seq<int>, n: nat,
                       tuples: seq<SquareTuple>, p: int)
    returns (bit: Outcome<int>)
    requires OddPrime(p) && n >= 3 && |keys| == 3 && |pre| == n && KeyPowers(pre, keys, p)
    requires |tuples| == 10 && forall i :: 0 <= i < 10 ==> IsSquareTuple(tuples[i], p)
    ensures bit.InvalidLength? <==> |msg| != n
    ensures bit.Ok? ==> bit.value == 0 || bit.value == 1
    ensures bit.Ok? ==>
              (bit.value == 1 <==> AnyHit(tuples, key + Hash(msg, keys), 10, p))
  {
    if |msg| != n {
      return InvalidLength;
    }
    var h := HashFromTable(pre, msg, keys, p);
    var res := 0;
    ghost var target := key + Hash(msg, keys);
    for i := 0 to 10
      invariant res == 0 || res == 1
      invariant res == 1 <==> AnyHit(tuples, target, i, p)
    {
      var x := Add(h, i, p);
      SameOffset(key, h, Hash(msg, keys), i, p);
      var r := LegendrePrf(key, x, tuples[i], p);
      assert r == 1 <==> Hit(tuples, target, i, p);
      res := if res == 1 || r == 1 then 1 else 0;
    }
    bit := Ok(res);
  }

  lemma SameOffset(key: int, h: int, hash: int, i: nat, p: int)
    requires p > 0 && h == hash % p
    ensures IsSquare(key + Add(h, i, p), p) <==> IsSquare(key + hash + i, p)
  {
    AddModBoth(hash, i, p);
    AddModBoth(key, hash + i, p);
    SquareCongruent(key + Add(h, i, p), key + (hash + i), p);
  }

  lemma SquareCongruent(a: int, b: int, p: int)
    requires p > 0 && a % p == b % p
    ensures IsSquare(a, p) <==> IsSquare(b, p)
  {}

  /** The one-step variant: a plain polynomial hash with one key and the PRF with the other. */
  method Uhf(key: int, chunks: seq<int>, size: nat, p: int) returns (out: Outcome<int>)
    requires p > 1 && size >= 2
    ensures out.InvalidLength? <==> |chunks| != size
    ensures out.Ok? ==> out.value == Eval(chunks, key) % p
  {
    if |chunks| != size {
      return InvalidLength;
    }
    var x := Add(Mul(key, chunks[size - 1], p), chunks[size - 2], p);
    var i := size - 2;
    TopTwo(key, chunks, p);
    while i > 0
      invariant 0 <= i <= size - 2
      invariant x == Eval(chunks[i..], key) % p
    {
      i := i - 1;
      ghost var rest := Eval(chunks[i + 1..], key);
      assert chunks[i..][1..] == chunks[i + 1..];
      MulModBoth(key, rest, p);
      AddModBoth(key * rest, chunks[i], p);
      assert x * key == key * x;
      x := Add(Mul(x, key, p), chunks[i], p);
    }
    assert chunks[0..] == chunks;
    out := Ok(x);
  }

  lemma TopTwo(key: int, chunks: seq<int>, p: int)
    requires p > 1 && |chunks| >= 2
    ensures Add(Mul(key, chunks[|chunks| - 1], p), chunks[|chunks| - 2], p) == Eval(chunks[|chunks| - 2..], key) % p
  {
    var s := chunks[|chunks| - 2..];
    assert s == [chunks[|chunks| - 2], chunks[|chunks| - 1]];
    EvalConstant(s[1..], key);
    AddModBoth(key * chunks[|chunks| - 1], chunks[|chunks| - 2], p);
  }

  method ComputeCustodyBit(keys: seq<int>, msg: seq<int>, n: nat, t: SquareTuple, p: int) returns (bit: Outcome<int>)
    requires OddPrime(p) && n >= 2 && IsSquareTuple(t, p)
    ensures bit.InvalidLength? <==> |keys| != 2 || |msg| != n
    ensures bit.Ok? ==> (bit.value == 1 <==> t.s == 0 || IsSquare(keys[1] + Eval(msg, keys[0]), p))
    ensures bit.Ok? ==> bit.value == 0 || bit.value == 1
  {
    if |keys| != 2 {
      return InvalidLength;
    }
    var h := Uhf(keys[0], msg, n, p);
    if h.InvalidLength? {
      return InvalidLength;
    }
    AddModBoth(keys[1], Eval(msg, keys[0]), p);
    var res := LegendrePrf(keys[1], h.value, t, p);
    bit := Ok(res);
  }
}
