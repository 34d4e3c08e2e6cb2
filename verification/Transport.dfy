/** Moving an ephemeral key from the field of p to the field of q through masked bits:
    POC/poc.hpp (shared_rand_bits_*, decompose_and_reveal, xor_and_combine) and the two phases of
    POC/RunPoc.hpp.  Sizes are parameters; the original has n = PSIZE and m = QSIZE. */
module Transport {
  import opened Arith
  import opened OnlineOp

  const PSIZE: nat := 381
  const QSIZE: nat := 254

  /** Both coordinates together split into three keys. */
  lemma SizesMatch()
    ensures 2 * PSIZE == 3 * QSIZE
  {}

  // ----- specification

  function XorBit(a: int, b: int): int { if a == b then 0 else 1 }

  function XorBits(a: seq<int>, b: seq<int>): (c: seq<int>)
    requires |a| == |b|
    ensures |c| == |a|
  {
    seq(|a|, i requires 0 <= i < |a| => XorBit(a[i], b[i]))
  }

  function BitsOf(x: nat, k: nat): (s: seq<int>)
    ensures |s| == k
  {
    if k == 0 then [] else [x % 2] + BitsOf(x / 2, k - 1)
  }

  lemma {:induction false} BitsOfValue(x: nat, k: nat)
    requires x < Pow2(k)
    ensures Bits(BitsOf(x, k)) && BitsVal(BitsOf(x, k)) == x
  {
    if k > 0 { BitsOfValue(x / 2, k - 1); }
  }

  /** Bit i of a number is what is left of it by 2^i, modulo 2. */
  lemma {:induction false} BitsOfAt(x: nat, k: nat, i: nat)
    requires i < k
    ensures BitsOf(x, k)[i] == (x / Pow2(i)) % 2
  {
    if i > 0 {
      BitsOfAt(x / 2, k - 1, i - 1);
      HalfThenDivide(x, Pow2(i - 1));
    }
  }

  lemma HalfThenDivide(x: nat, w: nat)
    requires w >= 1
    ensures (x / 2) / w == x / (2 * w)
  {
    var q, rest := (x / 2) / w, 2 * ((x / 2) % w) + x % 2;
    assert x / 2 == q * w + (x / 2) % w;
    assert x == q * (2 * w) + rest && 0 <= rest < 2 * w;
    ModUnique(x, 2 * w, q, rest);
  }

  /** The bit j of every party. */
  function Column(local: seq<seq<int>>, j: nat): (c: seq<int>)
    requires forall i :: 0 <= i < |local| ==> j < |local[i]|
    ensures |c| == |local|
  {
    seq(|local|, i requires 0 <= i < |local| => local[i][j])
  }

  ghost predicate LocalBits(local: seq<seq<int>>, len: nat) {
    |local| >= 1 && forall i :: 0 <= i < |local| ==> |local[i]| == len && Bits(local[i])
  }

  /** The joint mask: the parity of the parties' bits, which no field enters. */
  function Mask(local: seq<seq<int>>, len: nat): (s: seq<int>)
    requires forall i :: 0 <= i < |local| ==> |local[i]| == len
    ensures |s| == len && Bits(s)
  {
    seq(len, j requires 0 <= j < len => Ones(Column(local, j)) % 2)
  }

  /** Flipping bit j of one party flips bit j of the mask and no other. */
  lemma FlipFlipsMask(local: seq<seq<int>>, len: nat, i: nat, j: nat)
    requires LocalBits(local, len) && i < |local| && j < len
    ensures var flipped := local[i := local[i][j := 1 - local[i][j]]];
            && LocalBits(flipped, len)
            && Mask(flipped, len) == Mask(local, len)[j := 1 - Mask(local, len)[j]]
  {
    var flipped := local[i := local[i][j := 1 - local[i][j]]];
    forall k | 0 <= k < len
      ensures Mask(flipped, len)[k] == Mask(local, len)[j := 1 - Mask(local, len)[j]][k]
    {
      if k == j {
        assert Column(flipped, j) == Column(local, j)[i := 1 - local[i][j]];
        OnesReplaced(Column(local, j), i, 1 - local[i][j]);
      } else {
        assert Column(flipped, k) == Column(local, k);
      }
    }
  }

  lemma {:induction false} OnesReplaced(a: seq<int>, i: nat, x: int)
    requires i < |a|
    ensures Ones(a[i := x]) == Ones(a) + x - a[i]
  {
    if i > 0 {
      assert a[i := x][1..] == a[1..][i - 1 := x];
      OnesReplaced(a[1..], i - 1, x);
    } else {
      assert a[i := x][1..] == a[1..];
    }
  }

  /** Without any bit set the mask is empty. */
  lemma MaskOfZeros(local: seq<seq<int>>, len: nat)
    requires LocalBits(local, len) && forall i, j :: 0 <= i < |local| && 0 <= j < len ==> local[i][j] == 0
    ensures forall j :: 0 <= j < len ==> Mask(local, len)[j] == 0
  {
    forall j | 0 <= j < len ensures Mask(local, len)[j] == 0 {
      OnesOfZeros(Column(local, j));
    }
  }

  lemma {:induction false} OnesOfZeros(a: seq<int>)
    requires forall i :: 0 <= i < |a| ==> a[i] == 0
    ensures Ones(a) == 0
  {
    if |a| > 0 { OnesOfZeros(a[1..]); }
  }

  // ----- the steps

  /** Every party inputs its bits; they are combined position by position. */
  method SharedRandBits(local: seq<seq<int>>, len: nat, p: int) returns (shared: seq<int>)
    requires p > 2 && LocalBits(local, len)
    ensures shared == Mask(local, len)
    ensures |shared| == len && forall j :: 0 <= j < len ==>
      shared[j] == Ones(seq(|local|, i requires 0 <= i < |local| => local[i][j])) % 2
  {
    shared := [];
    for j := 0 to len
      invariant |shared| == j
      invariant forall i :: 0 <= i < j ==> shared[i] == Mask(local, len)[i]
      invariant forall k :: 0 <= k < j ==> shared[k] == Ones(seq(|local|, i requires 0 <= i < |local| => local[i][k])) % 2
    {
      var sbit: seq<int> := [];
      for i := 0 to |local|
        invariant |sbit| == i && forall l :: 0 <= l < i ==> sbit[l] == local[l][j]
      {
        sbit := sbit + [local[i][j]];
      }
      assert sbit == Column(local, j) == seq(|local|, i requires 0 <= i < |local| => local[i][j]);
      var bit := KXor(sbit, |sbit|, p);
      shared := shared + [bit.value];
    }
  }

  lemma XorIsSum(x: int, bit: int)
    requires Bit(bit)
    ensures XorBit(x % 2, bit) == (x + bit) % 2
  {}

  /** The masked bits of both coordinates by plain arithmetic. */
  lemma RevealedMeans(re: nat, im: nat, shared: seq<int>, n: nat)
    requires |shared| == 2 * n && Bits(shared)
    ensures XorBits(BitsOf(re, n) + BitsOf(im, n), shared)
         == seq(n, i requires 0 <= i < n => (re / Pow2(i) + shared[i]) % 2)
            + seq(n, i requires 0 <= i < n => (im / Pow2(i) + shared[n + i]) % 2)
  {
    hide Pow2, BitsOf, XorBits;
    assert shared == shared[..n] + shared[n..];
    XorAppend(BitsOf(re, n), BitsOf(im, n), shared[..n], shared[n..]);
    MaskedMeans(re, shared[..n], n);
    MaskedMeans(im, shared[n..], n);
    assert seq(n, i requires 0 <= i < n => (re / Pow2(i) + shared[..n][i]) % 2)
        == seq(n, i requires 0 <= i < n => (re / Pow2(i) + shared[i]) % 2);
    assert seq(n, i requires 0 <= i < n => (im / Pow2(i) + shared[n..][i]) % 2)
        == seq(n, i requires 0 <= i < n => (im / Pow2(i) + shared[n + i]) % 2);
  }

  lemma XorAppend(a: seq<int>, b: seq<int>, c: seq<int>, d: seq<int>)
    requires |a| == |c| && |b| == |d|
    ensures XorBits(a + b, c + d) == XorBits(a, c) + XorBits(b, d)
  {}

  lemma MaskedMeans(x: nat, mask: seq<int>, n: nat)
    requires |mask| == n && Bits(mask)
    ensures XorBits(BitsOf(x, n), mask) == seq(n, i requires 0 <= i < n => (x / Pow2(i) + mask[i]) % 2)
  {
    forall i | 0 <= i < n ensures XorBits(BitsOf(x, n), mask)[i] == (x / Pow2(i) + mask[i]) % 2 {
      BitsOfAt(x, n, i);
      XorIsSum(x / Pow2(i), mask[i]);
    }
  }

  method DecomposeAndReveal(keys: seq<int>, shared: seq<int>, draws: seq<seq<seq<int>>>, n: nat, p: int)
    returns (out: Outcome<seq<int>>)
    requires 2 < p < Pow2(n) && n >= 2 && Bits(shared)
    requires forall i :: 0 <= i < |keys| ==> 0 <= keys[i] < p
    requires |draws| == 2 && forall i :: 0 <= i < 2 ==> Acceptable(draws[i], n, p)
    ensures out.InvalidLength? <==> |keys| != 2 || |shared| != 2 * n
    ensures out.Ok? ==> out.value == XorBits(BitsOf(keys[0], n) + BitsOf(keys[1], n), shared)
    ensures out.Ok? ==>
      out.value == seq(n, i requires 0 <= i < n => (keys[0] / Pow2(i) + shared[i]) % 2)
                   + seq(n, i requires 0 <= i < n => (keys[1] / Pow2(i) + shared[n + i]) % 2)
  {
    if |keys| != 2 || |shared| != 2 * n {
      return InvalidLength;
    }
    var deco := A2B(keys[0], draws[0], n, p);
    var tmp := A2B(keys[1], draws[1], n, p);
    BitsUnique(deco, keys[0]);
    BitsUnique(tmp, keys[1]);
    deco := deco + tmp;
    ghost var expected := XorBits(deco, shared);
    ghost var bits := deco;
    for i := 0 to |shared|
      invariant |deco| == 2 * n
      invariant forall j :: 0 <= j < i ==> deco[j] == expected[j]
      invariant forall j :: i <= j < 2 * n ==> deco[j] == bits[j]
    {
      BitFormulas(deco[i], shared[i], p);
      deco := deco[i := XorOf(deco[i], shared[i], p)];
    }
    assert deco == expected;
    RevealedMeans(keys[0], keys[1], shared, n);
    out := Ok(deco);
  }

  ghost predicate Acceptable(draws: seq<seq<int>>, n: nat, p: int) {
    && (forall i :: 0 <= i < |draws| ==> |draws[i]| == n && Bits(draws[i]))
    && (exists i :: 0 <= i < |draws| && BitsVal(draws[i]) < p)
  }

  lemma BitsUnique(s: seq<int>, x: nat)
    requires Bits(s) && BitsVal(s) == x
    ensures s == BitsOf(x, |s|)
  {
    BitsValBound(s);
    BitsOfValue(x, |s|);
    BitsValInjective(s, BitsOf(x, |s|));
  }

  /** The three chunks of a bit vector, as numbers. */
  function Chunks(s: seq<int>, m: nat): seq<int>
    requires |s| == 3 * m
  {
    [BitsVal(s[..m]), BitsVal(s[m..2 * m]), BitsVal(s[2 * m..])]
  }

  /** The chunks of the unmasked bits by plain indexing. */
  lemma ChunksMean(a: seq<int>, b: seq<int>, m: nat)
    requires |a| == |b| == 3 * m && Bits(a) && Bits(b)
    ensures Chunks(XorBits(a, b), m)
         == [BitsVal(seq(m, i requires 0 <= i < m => (a[i] + b[i]) % 2)),
             BitsVal(seq(m, i requires 0 <= i < m => (a[m + i] + b[m + i]) % 2)),
             BitsVal(seq(m, i requires 0 <= i < m => (a[2 * m + i] + b[2 * m + i]) % 2))]
  {
    var c := XorBits(a, b);
    assert c[..m] == seq(m, i requires 0 <= i < m => (a[i] + b[i]) % 2);
    assert c[m..2 * m] == seq(m, i requires 0 <= i < m => (a[m + i] + b[m + i]) % 2);
    assert c[2 * m..] == seq(m, i requires 0 <= i < m => (a[2 * m + i] + b[2 * m + i]) % 2);
  }

  method XorAndCombine(shared: seq<int>, revealed: seq<int>, m: nat, q: int) returns (keys: Outcome<seq<int>>)
    requires q > 2 && m >= 1 && Pow2(m) <= q && Bits(shared) && Bits(revealed)
    ensures keys.InvalidLength? <==> |shared| != 3 * m || |revealed| != 3 * m
    ensures keys.Ok? ==> keys.value == Chunks(XorBits(shared, revealed), m)
    ensures keys.Ok? ==>
      && |keys.value| == 3
      && keys.value[0] == BitsVal(seq(m, i requires 0 <= i < m => (shared[i] + revealed[i]) % 2))
      && keys.value[1] == BitsVal(seq(m, i requires 0 <= i < m => (shared[m + i] + revealed[m + i]) % 2))
      && keys.value[2] == BitsVal(seq(m, i requires 0 <= i < m => (shared[2 * m + i] + revealed[2 * m + i]) % 2))
  {
    if |shared| != 3 * m || |revealed| != 3 * m {
      return InvalidLength;
    }
    var tmp: seq<int> := [];
    for i := 0 to |shared|
      invariant |tmp| == i && forall j :: 0 <= j < i ==> tmp[j] == XorBit(shared[j], revealed[j])
    {
      BitFormulas(shared[i], revealed[i], q);
      tmp := tmp + [XorOf(shared[i], revealed[i], q)];
    }
    assert tmp == XorBits(shared, revealed);
    var r: seq<int> := [];
    for i := 0 to 3
      invariant |r| == i && forall j :: 0 <= j < i ==> r[j] == BitsVal(tmp[j * m..(j + 1) * m])
    {
      var out := tmp[i * m..(i + 1) * m];
      var key := B2A(out, m, q);
      assert out[..m] == out;
      BitsValBound(out);
      Small(BitsVal(out), q);
      r := r + [key];
    }
    assert tmp[0 * m..1 * m] == tmp[..m] && tmp[2 * m..3 * m] == tmp[2 * m..];
    ChunksMean(shared, revealed, m);
    keys := Ok(r);
  }

  // ----- the two phases

  /** Phase one, over the field of p: the masked bits of both coordinates are revealed. */
  method PhaseOne(re: int, im: int, local: seq<seq<int>>, draws: seq<seq<seq<int>>>, n: nat, p: int)
    returns (revealed: seq<int>)
    requires 2 < p < Pow2(n) && n >= 2 && 0 <= re < p && 0 <= im < p
    requires LocalBits(local, 2 * n)
    requires |draws| == 2 && forall i :: 0 <= i < 2 ==> Acceptable(draws[i], n, p)
    ensures revealed == XorBits(BitsOf(re, n) + BitsOf(im, n), Mask(local, 2 * n))
  {
    var shared := SharedRandBits(local, 2 * n, p);
    var r := DecomposeAndReveal([re, im], shared, draws, n, p);
    revealed := r.value;
  }

  /** Phase two, over the field of q: the mask is removed and the bits are regrouped. */
  method PhaseTwo(local: seq<seq<int>>, revealed: seq<int>, m: nat, q: int) returns (keys: seq<int>)
    requires q > 2 && m >= 1 && Pow2(m) <= q
    requires LocalBits(local, 3 * m) && |revealed| == 3 * m && Bits(revealed)
    ensures keys == Chunks(XorBits(Mask(local, 3 * m), revealed), m)
  {
    var shared := SharedRandBits(local, 3 * m, q);
    var r := XorAndCombine(shared, revealed, m, q);
    keys := r.value;
  }

  lemma MaskCancels(bits: seq<int>, mask: seq<int>)
    requires |bits| == |mask| && Bits(bits) && Bits(mask)
    ensures XorBits(mask, XorBits(bits, mask)) == bits
  {}

  lemma ChunksValue(s: seq<int>, m: nat)
    requires |s| == 3 * m
    ensures var k := Chunks(s, m);
            BitsVal(s) == k[0] + Pow2(m) * k[1] + Pow2(2 * m) * k[2]
  {
    assert s == s[..m] + (s[m..2 * m] + s[2 * m..]);
    ThreeParts(s[..m], s[m..2 * m], s[2 * m..]);
    assert |s[..m]| == m;
  }

  lemma ThreeParts(x: seq<int>, y: seq<int>, z: seq<int>)
    requires |x| == |y|
    ensures BitsVal(x + (y + z)) == BitsVal(x) + Pow2(|x|) * BitsVal(y) + Pow2(2 * |x|) * BitsVal(z)
  {
    BitsValAppend(x, y + z);
    BitsValAppend(y, z);
    Pow2Add(|x|, |x|);
    Regroup(BitsVal(x + (y + z)), BitsVal(x), BitsVal(y + z), Pow2(|x|), Pow2(2 * |x|), BitsVal(y), BitsVal(z));
  }

  lemma Regroup(total: int, x: int, rest: int, w: int, ww: int, y: int, z: int)
    requires total == x + w * rest && rest == y + w * z && ww == w * w
    ensures total == x + w * y + ww * z
  {
    assert w * (y + w * z) == w * y + w * (w * z);
    assert w * (w * z) == (w * w) * z;
  }

  lemma ChunksBounded(s: seq<int>, m: nat)
    requires |s| == 3 * m && Bits(s)
    ensures var k := Chunks(s, m);
            0 <= k[0] < Pow2(m) && 0 <= k[1] < Pow2(m) && 0 <= k[2] < Pow2(m)
  {
    BitsValBound(s[..m]);
    BitsValBound(s[m..2 * m]);
    BitsValBound(s[2 * m..]);
  }

  /** The three recovered numbers are the key, as integers, whatever the parties' bits were. */
  lemma KeyPreserved(re: nat, im: nat, mask: seq<int>, n: nat, m: nat)
    requires 2 * n == 3 * m && re < Pow2(n) && im < Pow2(n)
    requires |mask| == 2 * n && Bits(mask)
    ensures var bits := BitsOf(re, n) + BitsOf(im, n);
            var k := Chunks(XorBits(mask, XorBits(bits, mask)), m);
            && k[0] + Pow2(m) * k[1] + Pow2(2 * m) * k[2] == re + Pow2(n) * im
            && 0 <= k[0] < Pow2(m) && 0 <= k[1] < Pow2(m) && 0 <= k[2] < Pow2(m)
  {
    var bits := BitsOf(re, n) + BitsOf(im, n);
    BitsOfValue(re, n);
    BitsOfValue(im, n);
    assert Bits(bits);
    BitsValAppend(BitsOf(re, n), BitsOf(im, n));
    MaskCancels(bits, mask);
    ChunksValue(bits, m);
    ChunksBounded(bits, m);
  }

  /** Both phases in sequence. */
  method TransportSized(re: int, im: int, local: seq<seq<int>>, draws: seq<seq<seq<int>>>, n: nat, m: nat, p: int, q: int)
    returns (keys: seq<int>)
    requires 2 * n == 3 * m && n >= 2 && 2 < p < Pow2(n) && 2 < q && Pow2(m) <= q && 0 <= re < p && 0 <= im < p
    requires LocalBits(local, 2 * n)
    requires |draws| == 2 && forall i :: 0 <= i < 2 ==> Acceptable(draws[i], n, p)
    ensures |keys| == 3 && forall i :: 0 <= i < 3 ==> 0 <= keys[i] < Pow2(m)
    ensures keys[0] + Pow2(m) * keys[1] + Pow2(2 * m) * keys[2] == re + Pow2(n) * im
  {
    var revealed := PhaseOne(re, im, local, draws, n, p);
    keys := PhaseTwo(local, revealed, m, q);
    KeyPreserved(re, im, Mask(local, 2 * n), n, m);
  }

  /** With the sizes of the original. */
  method TransportKey(re: int, im: int, local: seq<seq<int>>, draws: seq<seq<seq<int>>>, p: int, q: int)
    returns (keys: seq<int>)
    requires 2 < p < Pow2(PSIZE) && 2 < q && Pow2(QSIZE) <= q && 0 <= re < p && 0 <= im < p
    requires LocalBits(local, 2 * PSIZE)
    requires |draws| == 2 && forall i :: 0 <= i < 2 ==> Acceptable(draws[i], PSIZE, p)
    ensures |keys| == 3 && forall i :: 0 <= i < 3 ==> 0 <= keys[i] < Pow2(QSIZE)
    ensures keys[0] + Pow2(QSIZE) * keys[1] + Pow2(2 * QSIZE) * keys[2] == re + Pow2(PSIZE) * im
  {
    SizesMatch();
    keys := TransportSized(re, im, local, draws, PSIZE, QSIZE, p, q);
  }
}
