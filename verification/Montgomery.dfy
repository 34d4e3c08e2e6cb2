/** Montgomery multiplication on limb arrays, Math/Zp_Data.cpp. */
module Montgomery {
  import opened Arith
  import opened Limbs

  const MAX_MOD_SZ := 10

  /** The number of limbs of n. */
  function LimbCount(n: nat): (t: nat)
    ensures n < PowB(t)
    ensures n > 0 ==> t >= 1 && PowB(t - 1) <= n
  {
    if n == 0 then 0
    else
      var t := LimbCount(n / LIMB);
      assert n / LIMB == 0 ==> t == 0 by { if n / LIMB == 0 { assert LimbCount(0) == 0; } }
      t + 1
  }

  /** The condition under which no partial sum of the multiplication outgrows its t+1 limbs. */
  predicate Fits(p: int, t: nat) {
    t == 1 || (LIMB + 1) * p <= PowB(t + 1)
  }

  /** It holds of every modulus whose top limb is not all ones. */
  lemma TopLimbFits(p: int, t: nat)
    requires t >= 1 && 0 <= p <= (LIMB - 1) * PowB(t - 1)
    ensures Fits(p, t)
  {
    assert PowB(t + 1) == LIMB * PowB(t) && PowB(t) == LIMB * PowB(t - 1);
  }

  lemma {:induction false} PowBMonotone(j: nat, k: nat)
    requires j <= k
    ensures PowB(j) <= PowB(k)
    decreases k
  {
    if j < k { PowBMonotone(j, k - 1); }
  }

  lemma LimbCountIs(p: nat, t: nat)
    requires t >= 1 && PowB(t - 1) <= p < PowB(t)
    ensures LimbCount(p) == t
  {
    var l := LimbCount(p);
    PowBMonotone(0, t - 1);
    if l < t { PowBMonotone(l, t - 1); }
    if l > t { PowBMonotone(t, l - 1); }
  }

  /** Primes of 381 bits in six limbs and of 255 bits in four leave the room. */
  lemma CurvePrimesFit(p: nat)
    requires (PowB(5) <= p && 8 * p < PowB(6)) || (PowB(3) <= p && 2 * p < PowB(4))
    ensures Fits(p, LimbCount(p))
  {
    var t := if PowB(5) <= p && 8 * p < PowB(6) then 6 else 4;
    PowBMonotone(0, t - 1);
    LimbCountIs(p, t);
    assert PowB(t) == LIMB * PowB(t - 1);
    TopLimbFits(p, t);
  }

  // ----- one digit of the multiplication

  /** With pi = -1/p modulo B, the chosen multiple of p clears the lowest limb. */
  lemma LowLimbVanishes(s: int, s0: int, xi: int, y: int, y0: int, p: int, pi: int)
    requires s % LIMB == s0 % LIMB && y % LIMB == y0 % LIMB && (pi * p) % LIMB == LIMB - 1
    ensures var u := ((s0 + xi * y0) * pi) % LIMB; (s + xi * y + u * p) % LIMB == 0
  {
    var w0, w := s0 + xi * y0, s + xi * y;
    var u := (w0 * pi) % LIMB;
    CongMul(xi, xi, y, y0, LIMB);
    CongAdd(s, s0, xi * y, xi * y0, LIMB);
    MulModBoth(w0 * pi, p, LIMB);
    assert (w0 * pi) * p == w0 * (pi * p);
    CongMul(w0, w0, pi * p, -1, LIMB);
    assert w0 * -1 == -w0;
    CongAdd(w, w0, u * p, -w0, LIMB);
  }

  /** The accumulated value stays below 2p. */
  lemma StaysBelowTwice(s: int, xi: int, y: int, u: int, p: int)
    requires 0 <= s < 2 * p && 0 <= xi < LIMB && 0 <= y < p && 0 <= u < LIMB
    ensures 0 <= s + xi * y + u * p < 2 * p * LIMB
  {
    MulMonotone(xi, LIMB - 1, y, p - 1);
    MulMonotone(u, LIMB - 1, p, p);
  }

  /** s B^i = x_i y + q p extended by one digit. */
  lemma DigitRelation(s: int, s': int, pi_: int, xl: int, xi: int, y: int, q: int, u: int, p: int)
    requires s * pi_ == xl * y + q * p
    requires LIMB * s' == s + xi * y + u * p
    ensures s' * (LIMB * pi_) == (xl + xi * pi_) * y + (q + u * pi_) * p
  {
    calc {
      s' * (LIMB * pi_);
      (LIMB * s') * pi_;
      (s + xi * y + u * p) * pi_;
      s * pi_ + (xi * y) * pi_ + (u * p) * pi_;
    }
    assert (xi * y) * pi_ == (xi * pi_) * y;
    assert (u * p) * pi_ == (u * pi_) * p;
    assert (xl + xi * pi_) * y == xl * y + (xi * pi_) * y;
    assert (q + u * pi_) * p == q * p + (u * pi_) * p;
  }

  /** The shared end of every pass: u p is added at limb i and the running value moves up one limb. */
  method Reduce(ans: array<limb>, i: nat, prA: array<limb>, t: nat, u: limb, ghost n: int, ghost p: int)
    requires ans != prA && i + t + 1 < ans.Length && prA.Length == t + 1 && p == ValAt(prA[..], 0, t + 1)
    requires n == ValAt(ans[..], i, t + 1) && (n + u * p) % LIMB == 0
    modifies ans
    ensures LIMB * ValAt(ans[..], i + 1, t + 1) == n + u * p
  {
    var d := AddMul1(ans, i, prA, t + 1, u);
    ghost var mid := ans[..];
    ans[t + i + 1] := d;
    ValAtFrame(mid, ans[..], i, t + 1);
    ValAtExtend(ans[..], i, t + 1);
    ValAtShift(ans[..], i, t + 1);
    MulCommutes(p, u);
    MultipleOfLimb(n + u * p, ans[i], ValAt(ans[..], i + 1, t + 1));
  }

  lemma MulCommutes(a: int, b: int)
    ensures a * b == b * a
  {}

  lemma MultipleOfLimb(n: int, low: limb, high: int)
    requires n == low + LIMB * high && n % LIMB == 0
    ensures low == 0
  {
    ModUnique(n, LIMB, high, low);
  }

  /** ans[t+i] += carry of ans[i..] += x_i y, which drops what does not fit into the top limb. */
  method AddRow(ans: array<limb>, i: nat, xi: limb, y: array<limb>, t: nat, ghost w: int)
    requires ans != y && 1 <= t <= y.Length && i + t < ans.Length && w == ValAt(ans[..], i, t + 1)
    modifies ans
    ensures ValAt(ans[..], i, t + 1) == (w + xi * ValAt(y[..], 0, t)) % PowB(t + 1)
  {
    ghost var before, yv := ans[..], ValAt(y[..], 0, t);
    ValAtExtend(before, i, t);
    var c := AddMul1(ans, i, y, t, xi);
    ghost var mid := ans[..];
    ghost var top, low := before[i + t], ValAt(mid, i, t);
    CollectTop(low, ValAt(before, i, t), top, c, PowB(t), yv, xi, w);
    ValAtBound(mid, i, t);
    TopWraps(low, top + c, PowB(t), PowB(t + 1), w + xi * yv);
    ans[t + i] := (ans[t + i] + c) % LIMB;
    ValAtExtend(ans[..], i, t);
    ValAtFrame(mid, ans[..], i, t);
  }

  lemma TopWraps(low: int, top: int, pt: int, full: int, n: int)
    requires 0 <= low < pt && top >= 0 && full == LIMB * pt && n == low + top * pt
    ensures low + (top % LIMB) * pt == n % full
  {
    var q, r := top / LIMB, top % LIMB;
    MulMonotone(r, LIMB - 1, pt, pt);
    MulMonotone(0, r, pt, pt);
    Regrouped(q, r, pt, full, top);
    ModUnique(n, full, q, low + r * pt);
  }

  lemma Regrouped(q: int, r: int, pt: int, full: int, top: int)
    requires top == LIMB * q + r && full == LIMB * pt
    ensures top * pt == q * full + r * pt
  {
    assert (LIMB * q + r) * pt == LIMB * q * pt + r * pt;
    assert q * (LIMB * pt) == LIMB * q * pt;
  }

  lemma CollectTop(low: int, low0: int, top: int, c: int, pt: int, y: int, xi: int, s: int)
    requires low + c * pt == low0 + y * xi && s == low0 + top * pt
    ensures low + (top + c) * pt == s + xi * y
  {
    assert (top + c) * pt == top * pt + c * pt;
  }

  // ----- the running value

  /** The multiple of p that a pass over the digit xi adds. */
  function Digit(s: int, xi: int, y: int, pi: int): int {
    ((s % LIMB + xi * (y % LIMB)) * pi) % LIMB
  }

  /** The running value after k digits of x if no limb overflows. */
  ghost function Running(xs: seq<limb>, y: int, p: int, pi: int, k: nat): int
    requires k <= |xs|
  {
    if k == 0 then 0
    else var s := Running(xs, y, p, pi, k - 1); (s + xs[k - 1] * y + Digit(s, xs[k - 1], y, pi) * p) / LIMB
  }

  /** The addition for digit k outgrows the t + 1 limbs of the running value. */
  ghost predicate Wraps(xs: seq<limb>, y: int, p: int, pi: int, t: nat, k: nat)
    requires k < |xs|
  {
    Running(xs, y, p, pi, k) + xs[k] * y >= PowB(t + 1)
  }

  ghost predicate NoneWraps(xs: seq<limb>, y: int, p: int, pi: int, t: nat, n: nat)
    requires n <= |xs|
  {
    forall k :: 1 <= k < n ==> !Wraps(xs, y, p, pi, t, k)
  }

  /** A pass divides exactly and keeps the running value below 2p. */
  lemma RunningStep(xs: seq<limb>, y: int, p: int, pi: int, k: nat)
    requires k < |xs| && (pi * p) % LIMB == LIMB - 1 && 0 <= y < p && 0 <= Running(xs, y, p, pi, k) < 2 * p
    ensures var s, s' := Running(xs, y, p, pi, k), Running(xs, y, p, pi, k + 1);
            LIMB * s' == s + xs[k] * y + Digit(s, xs[k], y, pi) * p && 0 <= s' < 2 * p
  {
    hide Digit;
    var s := Running(xs, y, p, pi, k);
    var u := Digit(s, xs[k], y, pi);
    DigitVanishes(s, xs[k], y, u, p, pi);
    StaysBelowTwice(s, xs[k], y, u, p);
    ExactQuotient(s + xs[k] * y + u * p, p);
  }

  lemma DigitVanishes(s: int, xi: int, y: int, u: int, p: int, pi: int)
    requires (pi * p) % LIMB == LIMB - 1 && u == Digit(s, xi, y, pi)
    ensures (s + xi * y + u * p) % LIMB == 0 && 0 <= u < LIMB
  {
    ModMod(s, LIMB);
    ModMod(y, LIMB);
    LowLimbVanishes(s, s % LIMB, xi, y, y % LIMB, p, pi);
  }

  lemma ExactQuotient(n: int, p: int)
    requires n % LIMB == 0 && 0 <= n < 2 * p * LIMB
    ensures LIMB * (n / LIMB) == n && 0 <= n / LIMB < 2 * p
  {}

  lemma {:induction false} RunningBelowTwice(xs: seq<limb>, y: int, p: int, pi: int, k: nat)
    requires k <= |xs| && (pi * p) % LIMB == LIMB - 1 && 0 <= y < p
    ensures 0 <= Running(xs, y, p, pi, k) < 2 * p
  {
    if k > 0 {
      RunningBelowTwice(xs, y, p, pi, k - 1);
      RunningStep(xs, y, p, pi, k - 1);
    }
  }

  /** For a modulus that leaves the room no pass overflows. */
  lemma FitsNeverWraps(xs: seq<limb>, y: int, p: int, pi: int, t: nat)
    requires t <= |xs| && (pi * p) % LIMB == LIMB - 1 && 0 <= y < p && Fits(p, t)
    ensures NoneWraps(xs, y, p, pi, t, t)
  {
    forall k | 1 <= k < t ensures !Wraps(xs, y, p, pi, t, k) {
      RunningBelowTwice(xs, y, p, pi, k);
      MulMonotone(xs[k], LIMB - 1, y, p - 1);
    }
  }

  /** The running value w in the limbs against the true one s: f counts what was dropped so far. */
  lemma DropStep(s: int, w: int, f: int, n: int, m: int, u: int, p: int, s': int, w': int, full: int, at: int, at': int, pi_: int)
    requires 0 <= w < full && 0 <= m < full
    requires n == s + m && LIMB * s' == n + u * p && LIMB * w' == (w + m) % full + u * p && s == w + f * at
    requires at == LIMB * at' && full == LIMB * pi_ * at'
    ensures w + m < full ==> s' == w' + f * at'
    ensures w + m >= full ==> s' == w' + (f + pi_) * at'
  {
    if w + m < full {
      Small(w + m, full);
      DropNothing(s', w', f, at', at, f * at);
    } else {
      ModUnique(w + m, full, 1, w + m - full);
      DropNothing(s', w', f + pi_, at', at, (f + pi_) * at);
      assert (f + pi_) * at == f * at + pi_ * at;
      assert pi_ * at == full by { assert pi_ * (LIMB * at') == LIMB * pi_ * at'; }
    }
  }

  lemma DropNothing(s': int, w': int, f: int, at': int, at: int, gap: int)
    requires at == LIMB * at' && gap == f * at
    ensures LIMB * s' == LIMB * w' + gap ==> s' == w' + f * at'
  {
    assert f * (LIMB * at') == LIMB * (f * at');
  }

  /** What the multiplication needs to know about the modulus p in prA and the constant pi. */
  ghost predicate Modulus(prA: seq<limb>, pi: limb, t: nat, p: int)
  {
    && 1 <= t <= MAX_MOD_SZ && |prA| == t + 1
    && p == ValAt(prA, 0, t + 1) && 0 < p < PowB(t)
    && (pi * p) % LIMB == LIMB - 1
  }

  /** z = x y / B^t modulo p, for any t-limb x and y below p, exactly when no pass overflows; a modulus that
      leaves the room never overflows.  z may be x or y. */
  method MontMult(z: array<limb>, x: array<limb>, y: array<limb>, prA: array<limb>, pi: limb, t: nat, ghost p: int)
    requires Modulus(prA[..], pi, t, p)
    requires t <= x.Length && t <= y.Length && t <= z.Length && z != prA
    requires ValAt(y[..], 0, t) < p
    modifies z
    ensures ValAt(z[..], 0, t) < p
    ensures (ValAt(z[..], 0, t) * PowB(t)) % p == (ValAt(old(x[..]), 0, t) * ValAt(old(y[..]), 0, t)) % p
            <==> NoneWraps(old(x[..]), ValAt(old(y[..]), 0, t), p, pi, t, t)
    ensures Fits(p, t) ==>
      (ValAt(z[..], 0, t) * PowB(t)) % p == (ValAt(old(x[..]), 0, t) * ValAt(old(y[..]), 0, t)) % p
    ensures forall j :: t <= j < z.Length ==> z[j] == old(z[j])
  {
    hide Fits, ValAt, PowB, NoneWraps;
    ghost var xs, xv, yv := x[..], ValAt(x[..], 0, t), ValAt(y[..], 0, t);
    var ans;
    ghost var s, w, q, f;
    ans, s, w, q, f := Accumulate(x, y, prA, pi, t, p);
    ValAtBound(ans[..], t, t + 1);
    StoredBelow(s, w, f, PowB(2));
    Finish(z, ans, prA, pi, t, w, p);
    if Fits(p, t) { FitsNeverWraps(xs, yv, p, pi, t); } else { LargeModulus(p, t); }
    WrongByDrops(s, w, f, q, xv * yv, p, pi, t);
  }

  lemma StoredBelow(s: int, w: int, f: int, k: int)
    requires s == w + f * k && f >= 0 && k >= 0
    ensures w <= s
  {}

  lemma LargeModulus(p: int, t: nat)
    requires t >= 1 && !Fits(p, t)
    ensures PowB(t - 1) < p
  {
    assert PowB(t + 1) == LIMB * PowB(t) && PowB(t) == LIMB * PowB(t - 1);
  }

  /** With the running value s = w + f B^2, the result from w is right exactly when f = 0. */
  lemma WrongByDrops(s: int, w: int, f: int, q: int, xy: int, p: int, pi: int, t: nat)
    requires p > 0 && (pi * p) % LIMB == LIMB - 1 && t >= 1 && 0 <= f && (f == 0 || f < p)
    requires s == w + f * PowB(2) && s * PowB(t) == xy + q * p
    ensures (w * PowB(t)) % p == xy % p <==> f == 0
  {
    hide PowB;
    var b, g := PowB(t), f * PowB(2);
    ShiftMod(xy, q, p);
    DropShows(s, w, g, b, p);
    if (g * b) % p == 0 {
      CancelLimbs(g, t, p, pi);
      CancelLimbs(f, 2, p, pi);
      Small(f, p);
    }
  }

  lemma DropShows(s: int, w: int, g: int, b: int, p: int)
    requires p > 0 && s == w + g
    ensures (w * b) % p == (s * b) % p <==> (g * b) % p == 0
    ensures g == 0 ==> (g * b) % p == 0
  {
    CongIffDiff(s * b, w * b, p);
    assert s * b - w * b == g * b;
    Small(0, p);
  }

  /** Powers of B are invertible modulo p. */
  lemma {:induction false} CancelLimbs(f: int, k: nat, p: int, pi: int)
    requires p > 0 && (pi * p) % LIMB == LIMB - 1 && (f * PowB(k)) % p == 0
    ensures f % p == 0
  {
    if k > 0 {
      assert f * (LIMB * PowB(k - 1)) == (f * PowB(k - 1)) * LIMB;
      CancelLimb(f * PowB(k - 1), p, pi);
      CancelLimbs(f, k - 1, p, pi);
    }
  }

  lemma CancelLimb(g: int, p: int, pi: int)
    requires p > 0 && (pi * p) % LIMB == LIMB - 1 && (g * LIMB) % p == 0
    ensures g % p == 0
  {
    // q B = 1 + pi p
    var q := (pi * p) / LIMB + 1;
    assert q * LIMB == 1 + pi * p;
    Small(0, p);
    CongMul(g * LIMB, 0, q, q, p);
    assert (g * LIMB) * q == g * (q * LIMB);
    assert g * (1 + pi * p) == g + (g * pi) * p;
    ShiftMod(g, g * pi, p);
  }

  /** After i digits: the true running value s, the stored one w, the multiple q of p added so far, and f,
      which counts what was dropped. */
  ghost predicate Tracks(xs: seq<limb>, y: int, p: int, pi: int, t: nat, i: nat, s: int, w: int, q: int, f: int)
    requires 1 <= i <= t <= |xs|
  {
    && 0 <= s < 2 * p && s == Running(xs, y, p, pi, i) && s * PowB(i) == ValAt(xs, 0, i) * y + q * p
    && s == w + f * PowB(t + 2 - i) && 0 <= f < PowB(i - 1) && (f == 0 <==> NoneWraps(xs, y, p, pi, t, i))
  }

  /** The passes over all digits of x leave the running value in ans[t..]. */
  method Accumulate(x: array<limb>, y: array<limb>, prA: array<limb>, pi: limb, t: nat, ghost p: int)
    returns (ans: array<limb>, ghost s: int, ghost w: int, ghost q: int, ghost f: int)
    requires Modulus(prA[..], pi, t, p)
    requires t <= x.Length && t <= y.Length && ValAt(y[..], 0, t) < p
    ensures fresh(ans) && ans.Length == 2 * MAX_MOD_SZ + 1
    ensures w == ValAt(ans[..], t, t + 1) && Tracks(x[..], ValAt(y[..], 0, t), p, pi, t, t, s, w, q, f)
  {
    hide ValAt, Tracks, Digit, PowB;
    ghost var yv, xs := ValAt(y[..], 0, t), x[..];
    ans := new limb[2 * MAX_MOD_SZ + 1];
    w, q := FirstPass(ans, x[0], y, prA, pi, t, p);
    s, f := w, 0;
    FirstTracks(xs, yv, p, pi, t, s, q);
    for i := 1 to t
      invariant w == ValAt(ans[..], i, t + 1) && Tracks(xs, yv, p, pi, t, i, s, w, q, f)
    {
      ValAtBound(ans[..], i, t + 1);
      ghost var w' := Pass(ans, i, x[i], y, prA, pi, t, w, p);
      s, q, f := NextTracks(xs, yv, p, pi, t, i, s, w, q, f, w');
      w := w';
    }
  }

  lemma FirstTracks(xs: seq<limb>, y: int, p: int, pi: int, t: nat, s: int, u: int)
    requires 1 <= t <= |xs| && 0 <= s < 2 * p
    requires u == Digit(0, xs[0], y, pi) && LIMB * s == xs[0] * y + u * p
    ensures Tracks(xs, y, p, pi, t, 1, s, s, u, 0)
  {
    hide Digit;
    FirstRunning(xs, y, p, pi, s, u);
    DigitRelation(0, s, 1, 0, xs[0], y, 0, u, p);
    FirstDigit(xs);
  }

  /** One pass on the true and the stored running value. */
  lemma NextTracks(xs: seq<limb>, y: int, p: int, pi: limb, t: nat, i: nat, s: int, w: int, q: int, f: int, w': int)
    returns (s': int, q': int, f': int)
    requires 1 <= i < t <= |xs| && 0 <= y < p < PowB(t) && (pi * p) % LIMB == LIMB - 1
    requires Tracks(xs, y, p, pi, t, i, s, w, q, f) && 0 <= w < PowB(t + 1)
    requires LIMB * w' == (w + xs[i] * y) % PowB(t + 1) + Digit(w, xs[i], y, pi) * p
    ensures Tracks(xs, y, p, pi, t, i + 1, s', w', q', f')
  {
    hide Running, NoneWraps, Digit;
    var u := Digit(s, xs[i], y, pi);
    s' := Running(xs, y, p, pi, i + 1);
    RunningStep(xs, y, p, pi, i);
    q' := q + u * PowB(i);
    DigitRelation(s, s', PowB(i), ValAt(xs, 0, i), xs[i], y, q, u, p);
    ValAtExtend(xs, 0, i);
    f' := NextDrop(y, p, pi, t, i, s, w, f, u, s', w', xs[i]);
    NoneWrapsStep(xs, y, p, pi, t, i, w, f, f');
  }

  lemma NextDrop(y: int, p: int, pi: limb, t: nat, i: nat, s: int, w: int, f: int, u: int, s': int, w': int, xi: limb)
    returns (f': int)
    requires 1 <= i < t && 0 <= y < p < PowB(t) && u == Digit(s, xi, y, pi) && LIMB * s' == s + xi * y + u * p
    requires s == w + f * PowB(t + 2 - i) && 0 <= f < PowB(i - 1) && 0 <= w < PowB(t + 1)
    requires LIMB * w' == (w + xi * y) % PowB(t + 1) + Digit(w, xi, y, pi) * p
    ensures s' == w' + f' * PowB(t + 1 - i) && 0 <= f' < PowB(i)
    ensures f' == if w + xi * y < PowB(t + 1) then f else f + PowB(i - 1)
  {
    var at', full, m := PowB(t + 1 - i), PowB(t + 1), xi * y;
    assert PowB(t + 2 - i) == LIMB * at' && PowB(i) == LIMB * PowB(i - 1);
    LowLimbSame(s, w, f, at');
    PowBAdd(i - 1, t + 1 - i);
    ProductFits(xi, y, p, PowB(t), m);
    DropStep(s, w, f, s + m, m, u, p, s', w', full, PowB(t + 2 - i), at', PowB(i - 1));
    f' := if w + m < full then f else f + PowB(i - 1);
  }

  lemma LowLimbSame(s: int, w: int, f: int, at': int)
    requires s == w + f * (LIMB * at')
    ensures s % LIMB == w % LIMB
  {
    assert f * (LIMB * at') == (f * at') * LIMB;
    ShiftMod(w, f * at', LIMB);
  }

  lemma ProductFits(xi: limb, y: int, p: int, pt: int, m: int)
    requires 0 <= y < p < pt && m == xi * y
    ensures 0 <= m < LIMB * pt
  {
    MulMonotone(xi, LIMB - 1, y, p - 1);
    MulMonotone(0, xi, 0, y);
  }

  lemma NoneWrapsStep(xs: seq<limb>, y: int, p: int, pi: int, t: nat, i: nat, w: int, f: int, f': int)
    requires 1 <= i < t <= |xs| && f >= 0 && (f == 0 <==> NoneWraps(xs, y, p, pi, t, i))
    requires f == 0 ==> w == Running(xs, y, p, pi, i)
    requires f' == if w + xs[i] * y < PowB(t + 1) then f else f + PowB(i - 1)
    ensures f' == 0 <==> NoneWraps(xs, y, p, pi, t, i + 1)
  {
    hide Running;
    if f == 0 {
      assert Wraps(xs, y, p, pi, t, i) <==> w + xs[i] * y >= PowB(t + 1);
    }
  }

  /** A two-limb modulus with an all-ones top limb, 2^128 - 159, for which squaring p - 1 overflows. */
  lemma TopLimbOverflows()
    ensures var p, pi, xs := 0xFFFFFFFFFFFFFFFFFFFFFFFFFFFFFF61, 0xB5EFE63D2EB11B5F, [0xFFFFFFFFFFFFFF60, 0xFFFFFFFFFFFFFFFF];
            && p < PowB(2) && (pi * p) % LIMB == LIMB - 1 && ValAt(xs, 0, 2) == p - 1
            && !NoneWraps(xs, p - 1, p, pi, 2, 2)
  {
    var p: int, pi: int := 0xFFFFFFFFFFFFFFFFFFFFFFFFFFFFFF61, 0xB5EFE63D2EB11B5F;
    var x0: limb, x1: limb := 0xFFFFFFFFFFFFFF60, 0xFFFFFFFFFFFFFFFF;
    var xs: seq<limb> := [x0, x1];
    TwoLimbs(x0, x1);
    ModUnique(p - 1, LIMB, 0xFFFFFFFFFFFFFFFF, 0xFFFFFFFFFFFFFF60);
    Small(0, LIMB);
    var u := 0xB5EFE63D2EB11C00;
    ModUnique(x0 * 0xFFFFFFFFFFFFFF60 * pi, LIMB, 0xB5EFE63D2EB11A7B94203385A29E1051, u);
    assert Digit(0, x0, p - 1, pi) == u;
    FirstRunning(xs, p - 1, p, pi, 0x1B5EFE63D2EB11B5FFFFFFFFFFFFFFEEF, u);
    assert PowB(3) == LIMB * PowB(2);
    assert Wraps(xs, p - 1, p, pi, 2, 1);
  }

  lemma TwoLimbs(x: limb, y: limb)
    ensures ValAt([x, y], 0, 2) == x + LIMB * y && PowB(2) == LIMB * LIMB
  {
    assert [x, y][0..2] == [x, y] && [x, y][1..] == [y] && [y][1..] == [];
    assert Val([y]) == y + LIMB * Val([]) && Val([x, y]) == x + LIMB * Val([y]);
    assert PowB(1) == LIMB && PowB(2) == LIMB * PowB(1);
  }

  lemma {:induction false} PowBAdd(j: nat, k: nat)
    ensures PowB(j + k + 1) == LIMB * PowB(j) * PowB(k)
  {
    if j > 0 {
      PowBAdd(j - 1, k);
      NestedLimbs(PowB(j - 1), PowB(j), PowB(k), PowB(j + k));
    }
  }

  lemma NestedLimbs(a: int, b: int, c: int, d: int)
    requires b == LIMB * a && d == LIMB * a * c
    ensures LIMB * d == LIMB * b * c
  {
    assert b * c == d by { assert (LIMB * a) * c == LIMB * a * c; }
    assert LIMB * b * c == LIMB * (b * c);
  }

  lemma FirstRunning(xs: seq<limb>, y: int, p: int, pi: int, s: int, u: int)
    requires |xs| >= 1 && u == Digit(0, xs[0], y, pi) && LIMB * s == xs[0] * y + u * p
    ensures s == Running(xs, y, p, pi, 1)
  {
    assert Running(xs, y, p, pi, 0) == 0;
  }

  lemma LowDigit(a: seq<limb>, i: nat, t: nat)
    requires t >= 1 && i + t <= |a|
    ensures ValAt(a, i, t) % LIMB == a[i] % LIMB
  {
    ValAtShift(a, i, t - 1);
    ShiftMod(a[i], ValAt(a, i + 1, t - 1), LIMB);
  }

  lemma FirstDigit(xs: seq<limb>)
    requires |xs| >= 1
    ensures ValAt(xs, 0, 1) == xs[0] && PowB(1) == LIMB && PowB(0) == 1
  {
    ValAtExtend(xs, 0, 0);
    assert PowB(1) == LIMB * PowB(0);
  }

  lemma FirstFacts(y: seq<limb>, t: nat, x0: limb, p: int, pi: limb, u: limb, product: int)
    requires 1 <= t <= |y| && 0 <= ValAt(y, 0, t) < p && (pi * p) % LIMB == LIMB - 1
    requires u == (x0 * y[0] * pi) % LIMB && product == x0 * ValAt(y, 0, t)
    ensures (product + u * p) % LIMB == 0 && 0 <= product + u * p < 2 * p * LIMB && product >= 0
    ensures u == Digit(0, x0, ValAt(y, 0, t), pi)
  {
    hide ValAt;
    var yv := ValAt(y, 0, t);
    LowDigit(y, 0, t);
    Small(y[0], LIMB);
    DigitVanishes(0, x0, yv, u, p, pi);
    StaysBelowTwice(0, x0, yv, u, p);
    MulMonotone(0, x0, 0, yv);
  }

  lemma PassDigit(a: seq<limb>, y: seq<limb>, i: nat, t: nat, xi: limb, pi: limb, u: limb)
    requires 1 <= t <= |y| && i + t + 1 <= |a| && u == ((a[i] + xi * y[0]) * pi) % LIMB
    ensures u == Digit(ValAt(a, i, t + 1), xi, ValAt(y, 0, t), pi)
  {
    LowDigit(a, i, t + 1);
    LowDigit(y, 0, t);
    Small(a[i], LIMB);
    Small(y[0], LIMB);
  }

  /** The pass for the lowest digit, which also initialises the accumulator. */
  method FirstPass(ans: array<limb>, x0: limb, y: array<limb>, prA: array<limb>, pi: limb, t: nat, ghost p: int)
    returns (ghost s: int, ghost u': int)
    requires Modulus(prA[..], pi, t, p)
    requires ans != y && ans != prA && t <= y.Length && t + 1 < ans.Length && ValAt(y[..], 0, t) < p
    modifies ans
    ensures s == ValAt(ans[..], 1, t + 1) && 0 <= s < 2 * p
    ensures LIMB * s == x0 * ValAt(y[..], 0, t) + u' * p && u' == Digit(0, x0, ValAt(y[..], 0, t), pi)
  {
    ghost var yv := ValAt(y[..], 0, t);
    hide Digit;
    var u: limb := (x0 * y[0] * pi) % LIMB;
    FirstFacts(y[..], t, x0, p, pi, u, x0 * yv);
    ans[t] := Mul1(ans, y, t, x0);
    ValAtExtend(ans[..], 0, t);
    MulCommutes(yv, x0);
    hide Modulus, ValAt;
    Reduce(ans, 0, prA, t, u, x0 * yv, p);
    s, u' := ValAt(ans[..], 1, t + 1), u;
  }

  /** One pass of the main loop: the stored value w becomes ((w + x_i y) mod B^(t+1) + u p) / B. */
  method Pass(ans: array<limb>, i: nat, xi: limb, y: array<limb>, prA: array<limb>, pi: limb, t: nat, ghost w: int, ghost p: int)
    returns (ghost w': int)
    requires t >= 2 && prA.Length == t + 1 && p == ValAt(prA[..], 0, t + 1) && (pi * p) % LIMB == LIMB - 1
    requires ans != y && ans != prA && t <= y.Length && i + t + 1 < ans.Length && w == ValAt(ans[..], i, t + 1)
    modifies ans
    ensures w' == ValAt(ans[..], i + 1, t + 1)
    ensures LIMB * w' == (w + xi * ValAt(y[..], 0, t)) % PowB(t + 1) + Digit(w, xi, ValAt(y[..], 0, t), pi) * p
  {
    hide Digit, PowB, ValAt;
    ghost var yv := ValAt(y[..], 0, t);
    var u: limb := ((ans[i] + xi * y[0]) * pi) % LIMB;
    PassDigit(ans[..], y[..], i, t, xi, pi, u);
    AddRow(ans, i, xi, y, t, w);
    ghost var n := (w + xi * yv) % PowB(t + 1);
    StoredVanishes(w, xi, yv, u, p, pi, t, n);
    Reduce(ans, i, prA, t, u, n, p);
    w' := ValAt(ans[..], i + 1, t + 1);
  }

  /** The dropped part does not touch the lowest limb. */
  lemma StoredVanishes(w: int, xi: int, y: int, u: int, p: int, pi: int, t: nat, r: int)
    requires (pi * p) % LIMB == LIMB - 1 && u == Digit(w, xi, y, pi) && r == (w + xi * y) % PowB(t + 1)
    ensures (r + u * p) % LIMB == 0 && r >= 0
  {
    hide Digit;
    var n := w + xi * y;
    DigitVanishes(w, xi, y, u, p, pi);
    var full := PowB(t + 1);
    var k := n / full;
    assert r == n - k * full;
    LowOfReduced(n, r, k, full, PowB(t), u * p);
  }

  lemma LowOfReduced(n: int, r: int, k: int, full: int, pt: int, up: int)
    requires full == LIMB * pt && r == n - k * full && (n + up) % LIMB == 0
    ensures (r + up) % LIMB == 0
  {
    assert k * (LIMB * pt) == (k * pt) * LIMB;
    ShiftMod(n + up, -(k * pt), LIMB);
    assert (-(k * pt)) * LIMB == -((k * pt) * LIMB);
  }

  /** The conditional subtraction that brings a value below 2p below p. */
  method Finish(z: array<limb>, ans: array<limb>, prA: array<limb>, pi: limb, t: nat, ghost s: int, ghost p: int)
    requires Modulus(prA[..], pi, t, p) && t <= z.Length && z != prA && z != ans && ans != prA
    requires 2 * t < ans.Length && s == ValAt(ans[..], t, t + 1) < 2 * p
    modifies z
    ensures ValAt(z[..], 0, t) == if s >= p then s - p else s
    ensures ValAt(z[..], 0, t) < p
    ensures (ValAt(z[..], 0, t) * PowB(t)) % p == (s * PowB(t)) % p
    ensures forall j :: t <= j < z.Length ==> z[j] == old(z[j])
  {
    ghost var pt, top := PowB(t), ans[t + t];
    ValAtExtend(ans[..], t, t);
    ValAtExtend(prA[..], 0, t);
    ValAtBound(ans[..], t, t);
    ValAtBound(prA[..], 0, t);
    NoTop(p, ValAt(prA[..], 0, t), prA[t], pt);
    var cmp := Cmp(ans, t, prA, t + 1);
    if cmp >= 0 {
      var borrow := SubN(z, ans, t, prA, t);
      ValAtBound(z[..], 0, t);
      UniqueDifference(s - p, ValAt(z[..], 0, t), top, borrow, pt);
      CongruentScaled(s, p, pt);
    } else {
      NoTop(s, ValAt(ans[..], t, t), top, pt);
      Copy(z, ans, t, t);
    }
  }

  lemma CongruentScaled(s: int, p: int, k: int)
    requires p > 0
    ensures ((s - p) * k) % p == (s * k) % p
  {
    assert (s - p) * k == s * k + (-k) * p;
    ShiftMod(s * k, -k, p);
  }

  lemma NoTop(v: int, low: int, top: int, pt: int)
    requires v == low + top * pt && low >= 0 && top >= 0 && 0 < pt && v < pt
    ensures top == 0 && v == low
  {
    if top >= 1 { MulAtLeast(top, pt); }
  }

  lemma UniqueDifference(d: int, v: int, top: int, borrow: int, pt: int)
    requires 0 <= d < pt && 0 <= v < pt && v - borrow * pt == d - top * pt
    ensures v == d
  {
    assert v + (top - borrow) * pt == d;
    Small(d, pt);
    Small(v, pt);
    ShiftMod(v, top - borrow, pt);
  }
}
