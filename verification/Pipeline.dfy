/** The two-prime custody bit from key generation to the answer, Source/poc_main.cpp and POC/poc.hpp: the
    x-coordinate of the joint signature leaves the field of p as masked bits, is split into three keys
    in the field of q, and feeds the hash and the PRF. */
module Pipeline {
  import opened Arith
  import opened OnlineOp
  import opened Transport
  import opened Custody
  import NumberTheory
  import opened Group
  import opened Threshold
  import opened Signing
  import Curve
  import Complex
  import G2Ops

  /** The three keys as a function of the ephemeral key alone. */
  function KeysOf(re: nat, im: nat, n: nat, m: nat): (k: seq<int>)
    requires 2 * n == 3 * m
    ensures |k| == 3
  {
    Chunks(BitsOf(re, n) + BitsOf(im, n), m)
  }

  /** They are the digits of re + 2^n im in base 2^m, and no others are. */
  lemma KeysAreDigits(re: nat, im: nat, n: nat, m: nat, k: seq<int>)
    requires 2 * n == 3 * m && re < Pow2(n) && im < Pow2(n)
    requires |k| == 3 && forall i :: 0 <= i < 3 ==> 0 <= k[i] < Pow2(m)
    ensures k[0] + Pow2(m) * k[1] + Pow2(2 * m) * k[2] == re + Pow2(n) * im <==> k == KeysOf(re, im, n, m)
  {
    var bits := BitsOf(re, n) + BitsOf(im, n);
    BitsOfValue(re, n);
    BitsOfValue(im, n);
    assert Bits(bits);
    BitsValAppend(BitsOf(re, n), BitsOf(im, n));
    ChunksValue(bits, m);
    ChunksBounded(bits, m);
    var d := KeysOf(re, im, n, m);
    Pow2Add(m, m);
    SameDigits(k[0], k[1], k[2], d[0], d[1], d[2], Pow2(m), Pow2(2 * m));
  }

  lemma SameDigits(a: int, b: int, c: int, a': int, b': int, c': int, w: int, ww: int)
    requires ww == w * w && 0 <= a < w && 0 <= b < w && 0 <= a' < w && 0 <= b' < w
    ensures a + w * b + ww * c == a' + w * b' + ww * c' <==> a == a' && b == b' && c == c'
  {
    if a + w * b + ww * c == a' + w * b' + ww * c' {
      Nested(a, b, c, w, ww);
      Nested(a', b', c', w, ww);
      LowDigitSame(a, b + w * c, a', b' + w * c', w);
      LowDigitSame(b, c, b', c', w);
    }
  }

  lemma Nested(a: int, b: int, c: int, w: int, ww: int)
    requires ww == w * w
    ensures a + w * b + ww * c == a + w * (b + w * c)
  {
    MulDistributes(w, b, w * c);
    assert w * (w * c) == (w * w) * c;
  }

  lemma LowDigitSame(a: int, b: int, a': int, b': int, w: int)
    requires 0 <= a < w && 0 <= a' < w && a + w * b == a' + w * b'
    ensures a == a' && b == b'
  {
    assert a + w * b == b * w + a && a' + w * b' == b' * w + a';
    ModUnique(a + w * b, w, b, a);
    ModUnique(a + w * b, w, b', a');
  }

  /** The PRF answers 1 at offset i. */
  ghost predicate Answers(x: int, i: nat, q: int)
    requires q > 0
  {
    NumberTheory.IsSquare(x + i, q)
  }

  /** One of the ten numbers from x on is a square modulo q. */
  ghost predicate AnyAnswer(x: int, q: int)
    requires q > 0
  {
    exists i: nat :: i < 10 && Answers(x, i, q)
  }

  /** Spelt out. */
  lemma TenAnswers(x: int, q: int)
    requires q > 0
    ensures AnyAnswer(x, q) <==>
      || NumberTheory.IsSquare(x, q) || NumberTheory.IsSquare(x + 1, q) || NumberTheory.IsSquare(x + 2, q)
      || NumberTheory.IsSquare(x + 3, q) || NumberTheory.IsSquare(x + 4, q) || NumberTheory.IsSquare(x + 5, q)
      || NumberTheory.IsSquare(x + 6, q) || NumberTheory.IsSquare(x + 7, q) || NumberTheory.IsSquare(x + 8, q)
      || NumberTheory.IsSquare(x + 9, q)
  {
    hide NumberTheory.IsSquare;
    assert Answers(x, 0, q) <==> NumberTheory.IsSquare(x, q);
    if i: nat :| i < 10 && Answers(x, i, q) {
      assert i in {0, 1, 2, 3, 4, 5, 6, 7, 8, 9};
    }
    if !AnyAnswer(x, q) {
      assert !Answers(x, 0, q) && !Answers(x, 1, q) && !Answers(x, 2, q) && !Answers(x, 3, q) && !Answers(x, 4, q);
      assert !Answers(x, 5, q) && !Answers(x, 6, q) && !Answers(x, 7, q) && !Answers(x, 8, q) && !Answers(x, 9, q);
    }
  }

  /** The whole run, with the first of the three keys as the PRF key.  With nonzero square masks the answer
      depends on the ephemeral key and the message only, not on the parties' bits or the masks of the
      conversions. */
  method CustodyBit(re: int, im: int, msg: seq<int>, chunks: nat, local: seq<seq<int>>, draws: seq<seq<seq<int>>>,
                    squares: seq<SquareTuple>, masks: seq<SquareTuple>, n: nat, m: nat, p: int, q: int)
    returns (bit: Outcome<int>)
    requires 2 * n == 3 * m && n >= 2 && 2 < p < Pow2(n) && Pow2(m) <= q && 0 <= re < p && 0 <= im < p
    requires NumberTheory.OddPrime(q) && chunks >= 3 && LocalBits(local, 2 * n)
    requires |draws| == 2 && forall i :: 0 <= i < 2 ==> Acceptable(draws[i], n, p)
    requires |squares| == 3 && forall i :: 0 <= i < 3 ==> IsSquareTuple(squares[i], q)
    requires |masks| == 10 && forall i :: 0 <= i < 10 ==> IsSquareTuple(masks[i], q)
    ensures bit.InvalidLength? <==> |msg| != chunks
    ensures bit.Ok? ==> (bit.value == 0 || bit.value == 1)
    ensures bit.Ok? && (forall i :: 0 <= i < 10 ==> masks[i].s != 0) ==>
      var k := KeysOf(re, im, n, m); (bit.value == 1 <==> AnyAnswer(k[0] + Hash(msg, k), q))
  {
    var keys := TransportSized(re, im, local, draws, n, m, p, q);
    KeysAreDigits(re, im, n, m, keys);
    var pre := Offline2Primes(keys, chunks, squares, q);
    bit := Online2Primes(pre.value, keys[0], msg, keys, chunks, masks, q);
    if bit.Ok? && forall i :: 0 <= i < 10 ==> masks[i].s != 0 {
      HitsAreAnswers(masks, keys[0] + Hash(msg, keys), q);
    }
  }

  lemma HitsAreAnswers(masks: seq<SquareTuple>, x: int, q: int)
    requires q > 0 && |masks| == 10 && forall i :: 0 <= i < 10 ==> masks[i].s != 0
    ensures AnyHit(masks, x, 10, q) <==> AnyAnswer(x, q)
  {
    if AnyHit(masks, x, 10, q) {
      var i: nat :| i < 10 && Hit(masks, x, i, q);
      assert Answers(x, i, q);
    }
    if i: nat :| i < 10 && Answers(x, i, q) {
      assert Hit(masks, x, i, q);
    }
  }

  datatype RunResult = Finished(bit: Outcome<int>) | NoSignature

  /** The program from key generation to the custody bit: the coordinates of the joint signature's x are the
      ephemeral key.  With nonzero square masks the answer depends on the dealt secrets, the hashed nonce
      and the message only. */
  method KeygenToCustodyBit<G(!new, ==), C(!new)>(
      s: Setup<G>, g2: Grp<G>, coord: G -> Curve.Affine<Complex.Cpx>, sch: Scheme<G, C>, parties: seq<Bls<G>>, cs: seq<seq<int>>,
      coins: seq<int>, threshold: nat, h: G, divMasks: seq<Complex.Fp>, msg: seq<int>, chunks: nat, local: seq<seq<int>>,
      draws: seq<seq<seq<int>>>, squares: seq<SquareTuple>, masks: seq<SquareTuple>, n: nat, m: nat, q: int)
    returns (res: RunResult)
    requires G2Ops.ExtensionFits() && ValidSetup(s) && IsGroup(g2, s.r) && Coordinates(g2, coord) && Correct(sch)
    requires threshold < |parties| < s.r && |parties| == |divMasks| + 1 && DistinctParties(parties)
    requires |cs| == |coins| == |parties| && Polynomials(cs, threshold + 1, s.r)
    requires 2 * n == 3 * m && n >= 2 && Complex.P < Pow2(n) && Pow2(m) <= q
    requires NumberTheory.OddPrime(q) && chunks >= 3 && LocalBits(local, 2 * n)
    requires |draws| == 2 && forall i :: 0 <= i < 2 ==> Acceptable(draws[i], n, Complex.P)
    requires |squares| == 3 && forall i :: 0 <= i < 3 ==> IsSquareTuple(squares[i], q)
    requires |masks| == 10 && forall i :: 0 <= i < 10 ==> IsSquareTuple(masks[i], q)
    modifies parties
    ensures res.NoSignature? <==> NoKey(g2, h, Joint(cs, threshold + 1, |cs|), divMasks, s.r)
    ensures res.Finished? ==> (res.bit.InvalidLength? <==> |msg| != chunks)
    ensures res.Finished? && res.bit.Ok? ==> (res.bit.value == 0 || res.bit.value == 1)
    ensures res.Finished? && res.bit.Ok? && (forall i :: 0 <= i < 10 ==> masks[i].s != 0) ==>
      var e := coord(Smul(g2, SumEval(cs, 0, |cs|) % s.r, h)).x;
      var k := KeysOf(e.re, e.im, n, m);
      (res.bit.value == 1 <==> AnyAnswer(k[0] + Hash(msg, k), q))
  {
    hide Coordinates, IsGroup, ValidSetup, NoKey, AnyAnswer, KeysOf, Hash;
    var sig := KeygenAndSign(s, g2, coord, sch, parties, cs, coins, threshold, h, divMasks);
    if !sig.Signed? {
      return NoSignature;
    }
    var e := sig.sig.x;
    var bit := CustodyBit(e.re, e.im, msg, chunks, local, draws, squares, masks, n, m, Complex.P, q);
    res := Finished(bit);
  }
}
