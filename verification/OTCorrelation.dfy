/** Oblivious-transfer multiplication: correlation of two parties' random OTs, OT/OTCorrelator.hpp and
    OT/Rectangle.hpp, and the triples of n parties, OT/NPartyTripleGenerator.hpp. */
module OTCorrelation {
  import opened Arith
  import opened OnlineOp
  import opened Lagrange

  // ----- sums with the weights 1, 2, 4, ...

  /** The weighted sum is linear. */
  lemma {:induction false} WeightedLinear(w: seq<int>, u: seq<int>, v: seq<int>, c: int)
    requires |w| == |u| == |v| && forall i :: 0 <= i < |w| ==> w[i] == u[i] + v[i] * c
    ensures BitsVal(w) == BitsVal(u) + BitsVal(v) * c
  {
    if |w| > 0 {
      WeightedLinear(w[1..], u[1..], v[1..], c);
      assert 2 * (BitsVal(v[1..]) * c) == (2 * BitsVal(v[1..])) * c;
    }
  }

  lemma {:induction false} WeightedCong(s: seq<int>, t: seq<int>, m: int)
    requires m > 0 && |s| == |t| && forall i :: 0 <= i < |s| ==> s[i] % m == t[i] % m
    ensures BitsVal(s) % m == BitsVal(t) % m
  {
    if |s| > 0 {
      WeightedCong(s[1..], t[1..], m);
      CongMul(2, 2, BitsVal(s[1..]), BitsVal(t[1..]), m);
      CongAdd(s[0], t[0], 2 * BitsVal(s[1..]), 2 * BitsVal(t[1..]), m);
    }
  }

  /** Positions from k on do not matter modulo 2^k. */
  lemma WeightedTruncated(s: seq<int>, k: nat)
    requires k <= |s|
    ensures BitsVal(s) % Pow2(k) == BitsVal(s[..k]) % Pow2(k)
  {
    hide BitsVal, Pow2;
    assert s == s[..k] + s[k..];
    BitsValAppend(s[..k], s[k..]);
    HighPartVanishes(BitsVal(s), BitsVal(s[..k]), BitsVal(s[k..]), Pow2(k));
  }

  lemma HighPartVanishes(total: int, low: int, high: int, w: int)
    requires w > 0 && total == low + w * high
    ensures total % w == low % w
  {
    ShiftMod(low, high, w);
    assert w * high == high * w;
  }

  // ----- rectangles: rows modulo m

  type Square = seq<int>

  method RSub(rows: Square, other: Square, m: int) returns (r: Square)
    requires m > 0 && |rows| == |other|
    ensures |r| == |rows| && forall i :: 0 <= i < |r| ==> r[i] == Sub(other[i], rows[i], m)
  {
    r := rows;
    for i := 0 to |rows|
      invariant |r| == |rows|
      invariant forall j :: 0 <= j < |rows| ==> r[j] == if j < i then Sub(other[j], rows[j], m) else rows[j]
    {
      r := r[i := Sub(other[i], r[i], m)];
    }
  }

  method SubConstant(rows: Square, x: int, m: int) returns (r: Square)
    requires m > 0
    ensures |r| == |rows| && forall i :: 0 <= i < |r| ==> r[i] == Sub(rows[i], x, m)
  {
    r := rows;
    for i := 0 to |rows|
      invariant |r| == |rows|
      invariant forall j :: 0 <= j < |rows| ==> r[j] == if j < i then Sub(rows[j], x, m) else rows[j]
    {
      r := r[i := Sub(r[i], x, m)];
    }
  }

  /** Adds the rows of `other` for which the condition bit is set. */
  method ConditionalAdd(rows: Square, conditions: seq<int>, other: Square, at: nat, m: int) returns (r: Square)
    requires m > 0 && |rows| == |other| && at + |rows| <= |conditions|
    ensures |r| == |rows|
    ensures forall i :: 0 <= i < |r| ==> r[i] == if conditions[at + i] == 1 then Add(rows[i], other[i], m) else rows[i]
  {
    r := rows;
    for i := 0 to |rows|
      invariant |r| == |rows|
      invariant forall j :: 0 <= j < |rows| ==>
        r[j] == if j < i && conditions[at + j] == 1 then Add(rows[j], other[j], m) else rows[j]
    {
      if conditions[at + i] == 1 {
        r := r[i := Add(r[i], other[i], m)];
      }
    }
  }

  /** The element of width k whose bits the rows are shares of. */
  method To(rows: Square, k: nat) returns (result: int)
    ensures 0 <= result < Pow2(k) && result % Pow2(k) == BitsVal(rows) % Pow2(k)
  {
    var m := Pow2(k);
    var n := if |rows| < k then |rows| else k;
    result := 0;
    Small(0, m);
    for i := 0 to n
      invariant 0 <= result < m && result % m == BitsVal(rows[..i]) % m
    {
      BitsValSnoc(rows, i);
      AddModBoth(result, BitsVal(rows[..i]), m);
      ShiftedTerm(result, BitsVal(rows[..i]), rows[i], Pow2(i), m);
      result := Add(result, (rows[i] * Pow2(i)) % m, m);
    }
    if |rows| < k {
      assert rows[..n] == rows;
    } else {
      WeightedTruncated(rows, k);
    }
  }

  lemma ShiftedTerm(r: int, s: int, x: int, w: int, m: int)
    requires m > 0 && r % m == s % m
    ensures Add(r, (x * w) % m, m) % m == (s + x * w) % m && 0 <= Add(r, (x * w) % m, m) < m
  {
    AddModBoth(r, x * w, m);
    ModMod(r + x * w, m);
    CongAdd(r, s, x * w, x * w, m);
  }

  // ----- the correlation of one row

  /** The sender's row after the adjustment. */
  function Adjusted(got: int, bit: int, u: int, m: int): int
    requires m > 0
  {
    if bit == 1 then Add(got, u, m) else got
  }

  /** What the receiver sends for a row. */
  function Message(t0: int, t1: int, x: int, m: int): int
    requires m > 0
  {
    Sub(Sub(t0, t1, m), x, m)
  }

  lemma MessageValue(t0: int, t1: int, x: int, m: int)
    requires m > 0
    ensures Message(t0, t1, x, m) % m == (t0 - t1 - x) % m
  {
    var d := Sub(t0, t1, m);
    ModMod(t0 - t1, m);
    CongSub(d, t0 - t1, x, x, m);
    ModMod(d - x, m);
  }

  /** t0 - (t_bit + bit (t0 - t1 - x)) = bit x */
  lemma RowCorrelation(t0: int, t1: int, x: int, bit: int, got: int, q: int, m: int)
    requires m > 0 && Bit(bit) && got == (if bit == 1 then t1 else t0) && q == Adjusted(got, bit, Message(t0, t1, x, m), m)
    ensures (t0 - q) % m == (bit * x) % m
  {
    var u := Message(t0, t1, x, m);
    if bit == 1 {
      MessageValue(t0, t1, x, m);
      CongAdd(t1, t1, u, t0 - t1 - x, m);
      ModMod(t1 + u, m);
      CongSub(t0, t0, q, t0 - x, m);
    }
  }

  // ----- slices of a matrix

  ghost predicate Uniform(a: seq<Square>, n: nat) { forall j :: 0 <= j < |a| ==> |a[j]| == n }

  method SliceRSub(bm: seq<Square>, other: seq<Square>, start: nat, end: nat, n: nat, m: int) returns (r: seq<Square>)
    requires m > 0 && Uniform(bm, n) && Uniform(other, n) && |bm| == |other| && start <= end <= |bm|
    ensures |r| == |bm| && Uniform(r, n) && r[..start] == bm[..start] && r[end..] == bm[end..]
    ensures forall j, i :: start <= j < end && 0 <= i < n ==> r[j][i] == Sub(other[j][i], bm[j][i], m)
  {
    r := bm;
    for j := start to end
      invariant |r| == |bm| && Uniform(r, n) && r[..start] == bm[..start] && r[j..] == bm[j..]
      invariant forall k, i :: start <= k < j && 0 <= i < n ==> r[k][i] == Sub(other[k][i], bm[k][i], m)
    {
      assert r[j] == r[j..][0] == bm[j];
      var row := RSub(r[j], other[j], m);
      r := r[j := row];
      assert r[j + 1..] == bm[j..][1..];
    }
  }

  /** The input that square j belongs to when each serves `repeat` squares. */
  function InputOf(x: seq<int>, j: nat, repeat: nat): int {
    if repeat >= 1 && j / repeat < |x| then x[j / repeat] else 0
  }

  /** Marks the row at which a statement about all rows is used. */
  predicate Row(i: int) { true }

  ghost predicate SubtractedSquare(r: Square, s: Square, x: int, m: int) {
    m > 0 && |r| == |s| && forall i {:trigger Row(i)} :: Row(i) && 0 <= i < |r| ==> r[i] == Sub(s[i], x, m)
  }

  ghost predicate MessageSquare(u: Square, t0: Square, t1: Square, x: int, m: int) {
    && m > 0 && |u| == |t0| == |t1|
    && forall i {:trigger Row(i)} :: Row(i) && 0 <= i < |u| ==> u[i] == Message(t0[i], t1[i], x, m)
  }

  method SliceSub(bm: seq<Square>, x: seq<int>, repeat: nat, start: nat, end: nat, n: nat, m: int) returns (r: seq<Square>)
    requires m > 0 && Uniform(bm, n) && start <= end <= |bm| && repeat >= 1 && end <= |x| * repeat
    ensures |r| == |bm| && Uniform(r, n) && r[..start] == bm[..start] && r[end..] == bm[end..]
    ensures forall j :: start <= j < end ==> SubtractedSquare(r[j], bm[j], InputOf(x, j, repeat), m)
  {
    r := bm;
    for j := start to end
      invariant |r| == |bm| && Uniform(r, n) && r[..start] == bm[..start] && r[j..] == bm[j..]
      invariant forall k :: start <= k < j ==> SubtractedSquare(r[k], bm[k], InputOf(x, k, repeat), m)
    {
      QuotientBelow(j, |x|, repeat);
      assert r[j] == r[j..][0] == bm[j];
      var row := SubConstant(r[j], x[j / repeat], m);
      r := r[j := row];
      assert r[j + 1..] == bm[j..][1..];
    }
  }

  /** u is what the receiving half makes of t1 on the squares from start to end. */
  ghost predicate Messages(u: seq<Square>, t0: seq<Square>, t1: seq<Square>, x: seq<int>, repeat: nat,
                           start: nat, end: nat, m: int) {
    && |u| == |t0| == |t1| && start <= end <= |u|
    && forall j {:trigger Row(j)} :: Row(j) && start <= j < end ==> MessageSquare(u[j], t0[j], t1[j], InputOf(x, j, repeat), m)
  }

  /** r is q with the received squares us adjusted in from square start on; square j uses the condition
      bits from offset * j on. */
  ghost predicate Adjustments(r: seq<Square>, q: seq<Square>, us: seq<Square>, bits: seq<int>, offset: nat,
                              start: nat, m: int) {
    && |r| == |q| && start + |us| <= |r|
    && forall j {:trigger Row(j)} :: Row(j) && start <= j < start + |us| ==>
         AdjustedSquare(r[j], q[j], us[j - start], bits, offset * j, m)
  }

  method SliceConditionalAdd(bm: seq<Square>, conditions: seq<int>, other: seq<Square>, start: nat, end: nat,
                             useOffset: bool, stride: nat, n: nat, m: int) returns (r: seq<Square>)
    requires m > 0 && |bm| == |other| && start <= end <= |bm| && Uniform(bm, n) && Uniform(other[start..end], n)
    requires n <= stride && stride * |bm| <= |conditions|
    ensures |r| == |bm| && Uniform(r, n) && r[..start] == bm[..start] && r[end..] == bm[end..]
    ensures Adjustments(r, bm, other[start..end], conditions, if useOffset then stride else 0, start, m)
  {
    r := bm;
    for j := start to end
      invariant |r| == |bm| && Uniform(r, n) && r[..start] == bm[..start] && r[j..] == bm[j..]
      invariant forall k :: start <= k < j ==>
        AdjustedSquare(r[k], bm[k], other[k], conditions, (if useOffset then stride else 0) * k, m)
    {
      assert r[j] == r[j..][0] == bm[j];
      assert |other[j]| == |other[start..end][j - start]| == n;
      StrideFits(stride, j, |bm|, n);
      StrideFits(stride, 0, |bm|, n);
      assert stride * 0 == 0 * j;
      var row := ConditionalAdd(r[j], conditions, other[j], (if useOffset then stride else 0) * j, m);
      r := r[j := row];
      assert r[j + 1..] == bm[j..][1..];
    }
  }

  /** r is q adjusted by u under the bits from position `at`. */
  ghost predicate AdjustedSquare(r: Square, q: Square, u: Square, bits: seq<int>, at: nat, m: int) {
    && m > 0 && |r| == |q| == |u| && at + |r| <= |bits|
    && forall i {:trigger Row(i)} :: Row(i) && 0 <= i < |r| ==> r[i] == Adjusted(q[i], bits[at + i], u[i], m)
  }

  lemma MessageMeans(v: int, t0: Square, t1: Square, u: Square, x: seq<int>, j: nat, repeat: nat, i: nat, m: int)
    requires MessageSquare(u, t0, t1, InputOf(x, j, repeat), m) && repeat >= 1 && j < |x| * repeat && i < |u| && v == u[i]
    ensures 0 <= j / repeat < |x| && v % m == (t0[i] - t1[i] - x[j / repeat]) % m
  {
    assert Row(i);
    QuotientBelow(j, |x|, repeat);
    MessageValue(t0[i], t1[i], x[j / repeat], m);
  }

  /** Subtracting from t0 and then subtracting the inputs makes the messages. */
  lemma SlicesMakeMessages(u: seq<Square>, half: seq<Square>, t0: seq<Square>, t1: seq<Square>, x: seq<int>, repeat: nat,
                           start: nat, end: nat, n: nat, m: int)
    requires m > 0 && |u| == |half| == |t0| == |t1| && start <= end <= |u|
    requires Uniform(u, n) && Uniform(half, n) && Uniform(t0, n) && Uniform(t1, n)
    requires forall j, i :: start <= j < end && 0 <= i < n ==> half[j][i] == Sub(t0[j][i], t1[j][i], m)
    requires forall j :: start <= j < end ==> SubtractedSquare(u[j], half[j], InputOf(x, j, repeat), m)
    ensures Messages(u, t0, t1, x, repeat, start, end, m)
  {
    hide InputOf;
    forall j, i | start <= j < end && 0 <= i < n ensures u[j][i] == Message(t0[j][i], t1[j][i], InputOf(x, j, repeat), m) {
      assert SubtractedSquare(u[j], half[j], InputOf(x, j, repeat), m) && Row(i);
    }
  }

  /** The messages by plain indexing. */
  lemma MessagesMean(u: seq<Square>, t0: seq<Square>, t1: seq<Square>, x: seq<int>, repeat: nat,
                     start: nat, end: nat, n: nat, m: int)
    requires m > 0 && Messages(u, t0, t1, x, repeat, start, end, m) && repeat >= 1 && end <= |x| * repeat
    requires Uniform(u, n) && Uniform(t0, n) && Uniform(t1, n)
    ensures forall j, i :: start <= j < end && 0 <= i < n ==>
      0 <= j / repeat < |x| && u[j][i] % m == (t0[j][i] - t1[j][i] - x[j / repeat]) % m
  {
    hide MessageSquare, InputOf;
    forall j, i | start <= j < end && 0 <= i < n
      ensures 0 <= j / repeat < |x| && u[j][i] % m == (t0[j][i] - t1[j][i] - x[j / repeat]) % m
    {
      assert Row(j) && |u[j]| == n;
      MessageMeans(u[j][i], t0[j], t1[j], u[j], x, j, repeat, i, m);
    }
  }

  /** A row of the sender after the adjustment. */
  lemma AdjustmentMeans(r: Square, q: Square, u: Square, bits: seq<int>, at: nat, i: nat, m: int)
    requires AdjustedSquare(r, q, u, bits, at, m) && i < |r|
    ensures r[i] % m == (q[i] + (if bits[at + i] == 1 then u[i] else 0)) % m
  {
    assert Row(i);
    ModMod(q[i] + u[i], m);
  }

  /** The adjusted squares by plain indexing. */
  lemma AdjustmentsMean(r: seq<Square>, q: seq<Square>, us: seq<Square>, bits: seq<int>, offset: nat, start: nat, n: nat, m: int)
    requires m > 0 && Adjustments(r, q, us, bits, offset, start, m) && Uniform(r, n) && Uniform(q, n) && Uniform(us, n)
    ensures forall j, i :: start <= j < start + |us| && 0 <= i < n ==>
      r[j][i] % m == (q[j][i] + (if 0 <= offset * j + i < |bits| && bits[offset * j + i] == 1 then us[j - start][i] else 0)) % m
  {
    forall j, i | start <= j < start + |us| && 0 <= i < n
      ensures r[j][i] % m
        == (q[j][i] + (if 0 <= offset * j + i < |bits| && bits[offset * j + i] == 1 then us[j - start][i] else 0)) % m
    {
      assert Row(j) && |r[j]| == n;
      AdjustmentMeans(r[j], q[j], us[j - start], bits, offset * j, i, m);
    }
  }

  // ----- the correlator

  /** t0 and q differ, weighted, by v. */
  ghost predicate DifferBy(t0: Square, q: Square, v: int, m: int) {
    m > 0 && (BitsVal(t0) - BitsVal(q)) % m == v % m
  }

  class OTCorrelator {
    const m: int
    const n: nat        // rows of a square
    const stride: nat   // rows allocated for a square
    var baseReceiverInput: seq<int>
    var receiverOutput: seq<Square>   // t0
    var t1: seq<Square>
    var u: seq<Square>
    var senderOutput: seq<Square>

    ghost predicate Valid()
      reads this
    {
      && m > 0 && n <= stride
      && |receiverOutput| == |t1| == |u| == |senderOutput|
      && Uniform(receiverOutput, n) && Uniform(t1, n) && Uniform(senderOutput, n)
      && stride * |t1| <= |baseReceiverInput| && Bits(baseReceiverInput)
    }

    constructor (m: int, n: nat, stride: nat)
      requires m > 0 && n <= stride
      ensures Valid() && this.m == m && this.n == n && this.stride == stride
    {
      this.m, this.n, this.stride := m, n, stride;
      baseReceiverInput, receiverOutput, t1, u, senderOutput := [], [], [], [], [];
    }

    method SetUpForCorrelation(bits: seq<int>, base0: seq<Square>, base1: seq<Square>, got: seq<Square>)
      requires m > 0 && n <= stride && |base0| == |base1| == |got|
      requires Uniform(base0, n) && Uniform(base1, n) && Uniform(got, n)
      requires stride * |got| <= |bits| && Bits(bits)
      modifies this
      ensures Valid() && baseReceiverInput == bits && receiverOutput == base0 && t1 == base1 && senderOutput == got
    {
      baseReceiverInput, receiverOutput, t1, senderOutput := bits, base0, base1, got;
      u := seq(|base1|, _ => []);
    }

    /** The receiving half: t1 becomes t0 - t1 - x, each input serving `repeat` squares, and is sent. */
    method CorrelateAsReceiver(start: nat, slice: nat, x: seq<int>, repeat: nat) returns (os: Outcome<seq<Square>>)
      requires Valid() && repeat >= 1
      modifies this`t1
      ensures Valid()
      ensures os.InvalidLength? <==> start + slice > |receiverOutput| || start + slice > |x| * repeat
      ensures os.Ok? ==> os.value == t1[start..start + slice]
      ensures os.Ok? ==> Messages(t1, receiverOutput, old(t1), x, repeat, start, start + slice, m)
      ensures os.Ok? ==> forall j, i :: start <= j < start + slice && 0 <= i < n ==>
        0 <= j / repeat < |x| && t1[j][i] % m == (receiverOutput[j][i] - old(t1)[j][i] - x[j / repeat]) % m
      ensures os.Ok? ==> t1[..start] == old(t1)[..start] && t1[start + slice..] == old(t1)[start + slice..]
      ensures start + slice > |receiverOutput| ==> t1 == old(t1)
    {
      var end := start + slice;
      if end > |receiverOutput| { return InvalidLength; }
      t1 := SliceRSub(t1, receiverOutput, start, end, n, m);
      if end > |x| * repeat { return InvalidLength; }
      ghost var half := t1;
      t1 := SliceSub(t1, x, repeat, start, end, n, m);
      SlicesMakeMessages(t1, half, receiverOutput, old(t1), x, repeat, start, end, n, m);
      MessagesMean(t1, receiverOutput, old(t1), x, repeat, start, end, n, m);
      os := Ok(t1[start..end]);
    }

    /** The sending half: u is received and added where the receiver bits of this party are set. */
    method CorrelateAsSender(start: nat, slice: nat, os: seq<Square>, useConstantBase: bool) returns (r: Outcome<()>)
      requires Valid() && |os| == slice && Uniform(os, n)
      modifies this`u, this`senderOutput
      ensures Valid()
      ensures r.InvalidLength? <==> start + slice > |t1|
      ensures r.Ok? ==> Adjustments(senderOutput, old(senderOutput), os, baseReceiverInput,
                                    if useConstantBase then 0 else stride, start, m)
      ensures r.Ok? ==> var offset := if useConstantBase then 0 else stride;
        forall j, i :: start <= j < start + slice && 0 <= i < n ==>
          senderOutput[j][i] % m
          == (old(senderOutput)[j][i] + (if 0 <= offset * j + i < |baseReceiverInput| && baseReceiverInput[offset * j + i] == 1
                                         then os[j - start][i] else 0)) % m
      ensures r.Ok? ==> u == old(u)[..start] + os + old(u)[start + slice..]
      ensures r.Ok? ==> senderOutput[..start] == old(senderOutput)[..start]
                        && senderOutput[start + slice..] == old(senderOutput)[start + slice..]
      ensures r.InvalidLength? ==> u == old(u) && senderOutput == old(senderOutput)
    {
      hide Adjustments;
      var end := start + slice;
      if end > |t1| { return InvalidLength; }
      u := u[..start] + os + u[end..];
      assert u[start..end] == os;
      senderOutput := SliceConditionalAdd(senderOutput, baseReceiverInput, u, start, end, !useConstantBase, stride, n, m);
      AdjustmentsMean(senderOutput, old(senderOutput), os, baseReceiverInput, if useConstantBase then 0 else stride, start, n, m);
      r := Ok(());
    }

    /** The local results: receiver's minus sender's rows, weighted. */
    method ReduceSquares(k: nat, nTriples: nat, start: nat) returns (output: Outcome<seq<int>>)
      requires Valid() && m == Pow2(k)
      modifies this`senderOutput
      ensures output.InvalidLength? <==> |receiverOutput| < nTriples + start
      ensures output.Ok? ==> |output.value| == nTriples
      ensures output.Ok? ==> forall j :: 0 <= j < nTriples ==>
        DifferBy(receiverOutput[j + start], old(senderOutput)[j + start], output.value[j], m)
      ensures output.InvalidLength? ==> senderOutput == old(senderOutput)
    {
      if |receiverOutput| < nTriples + start { return InvalidLength; }
      var out: seq<int> := [];
      for j := 0 to nTriples
        invariant Valid() && |out| == j
        invariant forall i :: j + start <= i < |senderOutput| ==> senderOutput[i] == old(senderOutput)[i]
        invariant forall i :: 0 <= i < j ==>
          DifferBy(receiverOutput[i + start], old(senderOutput)[i + start], out[i], m)
      {
        var diff := RSub(senderOutput[j + start], receiverOutput[j + start], m);
        DifferenceValue(diff, receiverOutput[j + start], senderOutput[j + start], m);
        senderOutput := senderOutput[j + start := diff];
        var value := To(diff, k);
        out := out + [value];
      }
      output := Ok(out);
    }
  }

  lemma QuotientBelow(j: nat, len: nat, repeat: nat)
    requires repeat >= 1 && j < len * repeat
    ensures 0 <= j / repeat < len
  {
    var q := j / repeat;
    assert j == q * repeat + j % repeat;
    if q >= len { ProductMonotone(len, q, repeat); }
  }

  lemma ProductMonotone(a: int, b: int, c: nat)
    requires a <= b
    ensures a * c <= b * c
  {}

  lemma StrideFits(stride: nat, offset: nat, count: nat, n: nat)
    requires n <= stride && offset < count
    ensures stride * offset + n <= stride * count
  {
    assert stride * count == stride * offset + stride * (count - offset);
    MulAtLeast(count - offset, stride);
  }

  lemma DifferenceValue(d: seq<int>, a: seq<int>, b: seq<int>, m: int)
    requires m > 0 && |d| == |a| == |b| && forall i :: 0 <= i < |d| ==> d[i] == Sub(a[i], b[i], m)
    ensures BitsVal(d) % m == (BitsVal(a) - BitsVal(b)) % m
  {
    var w := seq(|d|, i requires 0 <= i < |d| => a[i] - b[i]);
    forall i | 0 <= i < |d| ensures d[i] % m == w[i] % m { ModMod(a[i] - b[i], m); }
    WeightedCong(d, w, m);
    WeightedLinear(w, a, b, -1);
  }

  // ----- two parties

  /** What random OT provides: for every row the one of the peer's two values chosen by the bit. */
  ghost predicate TransferredSquare(got: Square, t0: Square, t1: Square, bits: seq<int>, at: nat) {
    && |got| == |t0| == |t1| && at + |got| <= |bits|
    && forall i {:trigger Row(i)} :: Row(i) && 0 <= i < |got| ==> got[i] == if bits[at + i] == 1 then t1[i] else t0[i]
  }

  /** The correlation of one square: its weighted difference is the product of bits and input. */
  lemma SquareCorrelation(t0: Square, t1: Square, got: Square, u: Square, q: Square, bits: seq<int>, at: nat, x: int, m: int)
    requires TransferredSquare(got, t0, t1, bits, at) && MessageSquare(u, t0, t1, x, m) && Bits(bits)
    requires AdjustedSquare(q, got, u, bits, at, m)
    ensures (BitsVal(t0) - BitsVal(q)) % m == (BitsVal(bits[at..at + |q|]) * x) % m
  {
    var own := bits[at..at + |q|];
    forall i | 0 <= i < |q| ensures RowDiffers(t0, q, own, x, i, m) {
      RowOfSquare(t0, t1, got, u, q, bits, at, x, m, i);
    }
    WeightedProduct(t0, q, own, x, m);
  }

  /** In row i the difference of t and q is the bit times x. */
  ghost predicate RowDiffers(t: seq<int>, q: seq<int>, bits: seq<int>, x: int, i: int, m: int)
    requires |t| == |q| == |bits|
  {
    m > 0 && 0 <= i < |q| && (t[i] - q[i]) % m == (bits[i] * x) % m
  }

  lemma RowOfSquare(t0: Square, t1: Square, got: Square, u: Square, q: Square, bits: seq<int>, at: nat, x: int, m: int, i: nat)
    requires TransferredSquare(got, t0, t1, bits, at) && MessageSquare(u, t0, t1, x, m) && Bits(bits)
    requires AdjustedSquare(q, got, u, bits, at, m) && i < |q|
    ensures RowDiffers(t0, q, bits[at..at + |q|], x, i, m)
  {
    assert Row(i) && Bit(bits[at + i]);
    RowCorrelation(t0[i], t1[i], x, bits[at + i], got[i], q[i], m);
  }

  lemma {:induction false} WeightedProduct(t: seq<int>, q: seq<int>, bits: seq<int>, x: int, m: int)
    requires m > 0 && |t| == |q| == |bits|
    requires forall i :: 0 <= i < |q| ==> RowDiffers(t, q, bits, x, i, m)
    ensures (BitsVal(t) - BitsVal(q)) % m == (BitsVal(bits) * x) % m
  {
    if |q| > 0 {
      forall i | 0 <= i < |q| - 1 ensures RowDiffers(t[1..], q[1..], bits[1..], x, i, m) {
        assert RowDiffers(t, q, bits, x, i + 1, m);
      }
      assert RowDiffers(t, q, bits, x, 0, m);
      WeightedProduct(t[1..], q[1..], bits[1..], x, m);
      WeightedStep(t[0], BitsVal(t[1..]), q[0], BitsVal(q[1..]), bits[0], BitsVal(bits[1..]), x, m);
    }
  }

  lemma WeightedStep(t: int, tt: int, q: int, qq: int, b: int, bb: int, x: int, m: int)
    requires m > 0 && (t - q) % m == (b * x) % m && (tt - qq) % m == (bb * x) % m
    ensures ((t + 2 * tt) - (q + 2 * qq)) % m == ((b + 2 * bb) * x) % m
  {
    CongMul(2, 2, tt - qq, bb * x, m);
    CongAdd(t - q, b * x, 2 * (tt - qq), 2 * (bb * x), m);
    assert b * x + 2 * (bb * x) == (b + 2 * bb) * x;
  }

  /** D + a_P b_Q and -D + a_Q b_P add up to the cross products. */
  lemma SharesCancel(zP: int, zQ: int, t0P: int, qP: int, t0Q: int, qQ: int, x: int, y: int, m: int)
    requires m > 0 && zP % m == (t0P - qP) % m && zQ % m == (t0Q - qQ) % m
    requires (t0Q - qP) % m == x % m && (t0P - qQ) % m == y % m
    ensures (zP + zQ) % m == (x + y) % m
  {
    CongAdd(zP, t0P - qP, zQ, t0Q - qQ, m);
    CongAdd(t0Q - qP, x, t0P - qQ, y, m);
    assert (t0P - qP) + (t0Q - qQ) == (t0Q - qP) + (t0P - qQ);
  }

  /** The number whose bits a party used for square j. */
  function InputBits(bits: seq<int>, stride: nat, j: nat, n: nat): int {
    if stride * j + n <= |bits| then BitsVal(bits[stride * j..stride * j + n]) else 0
  }

  /** A party's random OTs with its peer are what the functionality gives. */
  ghost predicate Connected(got: seq<Square>, t0: seq<Square>, t1: seq<Square>, bits: seq<int>, stride: nat) {
    && |got| == |t0| == |t1|
    && forall j {:trigger Row(j)} :: Row(j) && 0 <= j < |got| ==> TransferredSquare(got[j], t0[j], t1[j], bits, stride * j)
  }

  /** What one square contributes to the party whose choice bits were used. */
  lemma Contribution(t0: Square, t1: Square, got: Square, u: Square, q: Square, bits: seq<int>, at: nat, x: int, n: nat, m: int)
    requires TransferredSquare(got, t0, t1, bits, at) && MessageSquare(u, t0, t1, x, m) && Bits(bits)
    requires AdjustedSquare(q, got, u, bits, at, m) && |q| == n
    ensures DifferBy(t0, q, BitsVal(bits[at..at + n]) * x, m)
  {
    SquareCorrelation(t0, t1, got, u, q, bits, at, x, m);
  }

  lemma SharesOf(zP: int, zQ: int, p0: Square, pAdj: Square, q0: Square, qAdj: Square, x: int, y: int, m: int)
    requires DifferBy(p0, pAdj, zP, m) && DifferBy(q0, qAdj, zQ, m)
    requires DifferBy(q0, pAdj, x, m) && DifferBy(p0, qAdj, y, m)
    ensures (zP + zQ) % m == (x + y) % m
  {
    SharesCancel(zP, zQ, BitsVal(p0), BitsVal(pAdj), BitsVal(q0), BitsVal(qAdj), x, y, m);
  }

  function CrossTerms(aP: seq<int>, bP: seq<int>, aQ: seq<int>, bQ: seq<int>, stride: nat, n: nat, j: nat, repeat: nat): int {
    InputBits(aP, stride, j, n) * InputOf(bQ, j, repeat) + InputBits(aQ, stride, j, n) * InputOf(bP, j, repeat)
  }

  /** The state of one direction after the run: the peer's inputs x came in as u under this party's bits. */
  ghost predicate Ran(t0: seq<Square>, t1: seq<Square>, got: seq<Square>, u: seq<Square>, q: seq<Square>,
                      bits: seq<int>, stride: nat, n: nat, x: seq<int>, repeat: nat, m: int) {
    && |t0| == |t1| == |got| == |u| == |q| && Bits(bits)
    && forall j {:trigger Row(j)} :: Row(j) && 0 <= j < |q| ==>
      && |q[j]| == n && TransferredSquare(got[j], t0[j], t1[j], bits, stride * j)
      && MessageSquare(u[j], t0[j], t1[j], InputOf(x, j, repeat), m)
      && AdjustedSquare(q[j], got[j], u[j], bits, stride * j, m)
  }

  lemma HasRun(t0: seq<Square>, t1: seq<Square>, got: seq<Square>, u: seq<Square>, q: seq<Square>,
               bits: seq<int>, stride: nat, n: nat, x: seq<int>, repeat: nat, m: int)
    requires Connected(got, t0, t1, bits, stride) && Messages(u, t0, t1, x, repeat, 0, |u|, m)
    requires Adjustments(q, got, u, bits, stride, 0, m) && |u| == |q| && Uniform(q, n) && Bits(bits)
    ensures Ran(t0, t1, got, u, q, bits, stride, n, x, repeat, m)
  {
    forall j | 0 <= j < |q|
      ensures TransferredSquare(got[j], t0[j], t1[j], bits, stride * j)
      ensures MessageSquare(u[j], t0[j], t1[j], InputOf(x, j, repeat), m) && AdjustedSquare(q[j], got[j], u[j], bits, stride * j, m)
    {
      assert Row(j);
    }
  }

  ghost predicate Reduced(t0: seq<Square>, q: seq<Square>, z: seq<int>, m: int) {
    |t0| == |q| == |z| && forall j {:trigger Row(j)} :: Row(j) && 0 <= j < |z| ==> DifferBy(t0[j], q[j], z[j], m)
  }

  lemma RanContribution(t0: seq<Square>, t1: seq<Square>, got: seq<Square>, u: seq<Square>, q: seq<Square>,
                        bits: seq<int>, stride: nat, n: nat, x: seq<int>, repeat: nat, m: int, j: nat)
    requires Ran(t0, t1, got, u, q, bits, stride, n, x, repeat, m) && j < |q|
    ensures DifferBy(t0[j], q[j], InputBits(bits, stride, j, n) * InputOf(x, j, repeat), m)
  {
    assert Row(j);
    Contribution(t0[j], t1[j], got[j], u[j], q[j], bits, stride * j, InputOf(x, j, repeat), n, m);
  }

  /** Both parties run the correlation on all squares and reduce: their outputs are additive shares of
      a_P b_Q + a_Q b_P, where the a are given by the OT choice bits and each b serves `repeat` squares. */
  method MultiplyPair(p: OTCorrelator, q: OTCorrelator, bP: seq<int>, bQ: seq<int>, repeat: nat, k: nat)
    returns (zP: seq<int>, zQ: seq<int>)
    requires p != q && p.Valid() && q.Valid() && p.m == q.m == Pow2(k) && p.n == q.n && p.stride == q.stride
    requires |p.t1| == |q.t1| <= |bP| * repeat && |bP| == |bQ| && repeat >= 1
    requires Connected(p.senderOutput, q.receiverOutput, q.t1, p.baseReceiverInput, p.stride)
    requires Connected(q.senderOutput, p.receiverOutput, p.t1, q.baseReceiverInput, q.stride)
    modifies p, q
    ensures |zP| == |zQ| == old(|p.t1|)
    ensures forall j :: 0 <= j < |zP| ==>
      (zP[j] + zQ[j]) % p.m == CrossTerms(old(p.baseReceiverInput), bP, old(q.baseReceiverInput), bQ, p.stride, p.n, j, repeat) % p.m
    ensures forall j :: 0 <= j < |zP| ==>
      && 0 <= p.stride * j && p.stride * j + p.n <= |old(p.baseReceiverInput)| && p.stride * j + p.n <= |old(q.baseReceiverInput)|
      && 0 <= j / repeat < |bP|
      && (zP[j] + zQ[j]) % p.m
         == (BitsVal(old(p.baseReceiverInput)[p.stride * j..p.stride * j + p.n]) * bQ[j / repeat]
             + BitsVal(old(q.baseReceiverInput)[p.stride * j..p.stride * j + p.n]) * bP[j / repeat]) % p.m
  {
    ghost var p0, p1, pGot, q0, q1, qGot, uP, uQ, pAdj, qAdj;
    zP, zQ, p0, p1, pGot, q0, q1, qGot, uP, uQ, pAdj, qAdj := RunPair(p, q, bP, bQ, repeat, k);
    ghost var aP, aQ := old(p.baseReceiverInput), old(q.baseReceiverInput);
    forall j | 0 <= j < |zP|
      ensures (zP[j] + zQ[j]) % p.m == CrossTerms(aP, bP, aQ, bQ, p.stride, p.n, j, repeat) % p.m
    {
      RanContribution(q0, q1, pGot, uQ, pAdj, aP, p.stride, p.n, bQ, repeat, p.m, j);
      RanContribution(p0, p1, qGot, uP, qAdj, aQ, p.stride, p.n, bP, repeat, p.m, j);
      assert Row(j);
      SharesOf(zP[j], zQ[j], p0[j], pAdj[j], q0[j], qAdj[j],
               InputBits(aP, p.stride, j, p.n) * InputOf(bQ, j, repeat), InputBits(aQ, p.stride, j, p.n) * InputOf(bP, j, repeat), p.m);
    }
    forall j | 0 <= j < |zP|
      ensures && 0 <= p.stride * j && p.stride * j + p.n <= |aP| && p.stride * j + p.n <= |aQ| && 0 <= j / repeat < |bP|
              && CrossTerms(aP, bP, aQ, bQ, p.stride, p.n, j, repeat)
                 == BitsVal(aP[p.stride * j..p.stride * j + p.n]) * bQ[j / repeat]
                    + BitsVal(aQ[p.stride * j..p.stride * j + p.n]) * bP[j / repeat]
    {
      CrossTermsMean(aP, bP, aQ, bQ, p.stride, p.n, j, repeat, |zP|);
    }
  }

  /** The input of square j is x[j / repeat], and its choice bits are those from stride * j on. */
  lemma InputsMean(bits: seq<int>, x: seq<int>, stride: nat, n: nat, j: nat, repeat: nat, count: nat)
    requires n <= stride && j < count && stride * count <= |bits| && count <= |x| * repeat && repeat >= 1
    ensures 0 <= stride * j && stride * j + n <= |bits| && 0 <= j / repeat < |x|
    ensures InputBits(bits, stride, j, n) == BitsVal(bits[stride * j..stride * j + n]) && InputOf(x, j, repeat) == x[j / repeat]
  {
    StrideFits(stride, j, count, n);
    QuotientBelow(j, |x|, repeat);
  }

  lemma CrossTermsMean(aP: seq<int>, bP: seq<int>, aQ: seq<int>, bQ: seq<int>, stride: nat, n: nat, j: nat, repeat: nat, count: nat)
    requires n <= stride && j < count && repeat >= 1 && |bP| == |bQ| && count <= |bP| * repeat
    requires stride * count <= |aP| && stride * count <= |aQ|
    ensures 0 <= stride * j && stride * j + n <= |aP| && stride * j + n <= |aQ| && 0 <= j / repeat < |bP|
    ensures CrossTerms(aP, bP, aQ, bQ, stride, n, j, repeat)
         == BitsVal(aP[stride * j..stride * j + n]) * bQ[j / repeat] + BitsVal(aQ[stride * j..stride * j + n]) * bP[j / repeat]
  {
    InputsMean(aP, bQ, stride, n, j, repeat, count);
    InputsMean(aQ, bP, stride, n, j, repeat, count);
  }

  /** The run itself, with the intermediate matrices. */
  method RunPair(p: OTCorrelator, q: OTCorrelator, bP: seq<int>, bQ: seq<int>, repeat: nat, k: nat)
    returns (zP: seq<int>, zQ: seq<int>, ghost p0: seq<Square>, ghost p1: seq<Square>, ghost pGot: seq<Square>,
             ghost q0: seq<Square>, ghost q1: seq<Square>, ghost qGot: seq<Square>,
             ghost uP: seq<Square>, ghost uQ: seq<Square>, ghost pAdj: seq<Square>, ghost qAdj: seq<Square>)
    requires p != q && p.Valid() && q.Valid() && p.m == q.m == Pow2(k) && p.n == q.n && p.stride == q.stride
    requires |p.t1| == |q.t1| <= |bP| * repeat && |bP| == |bQ| && repeat >= 1
    requires Connected(p.senderOutput, q.receiverOutput, q.t1, p.baseReceiverInput, p.stride)
    requires Connected(q.senderOutput, p.receiverOutput, p.t1, q.baseReceiverInput, q.stride)
    modifies p, q
    ensures |zP| == |zQ| == old(|p.t1|)
    ensures Ran(q0, q1, pGot, uQ, pAdj, old(p.baseReceiverInput), p.stride, p.n, bQ, repeat, p.m)
    ensures Ran(p0, p1, qGot, uP, qAdj, old(q.baseReceiverInput), p.stride, p.n, bP, repeat, p.m)
    ensures Reduced(p0, pAdj, zP, p.m) && Reduced(q0, qAdj, zQ, p.m)
  {
    hide Adjustments, Messages, Connected, Ran, DifferBy;
    var count := |p.t1|;
    p0, p1, pGot := p.receiverOutput, p.t1, p.senderOutput;
    q0, q1, qGot := q.receiverOutput, q.t1, q.senderOutput;
    var fromP := p.CorrelateAsReceiver(0, count, bP, repeat);
    var fromQ := q.CorrelateAsReceiver(0, count, bQ, repeat);
    uP, uQ := p.t1, q.t1;
    assert fromP.value == uP && fromQ.value == uQ;
    var okP := p.CorrelateAsSender(0, count, fromQ.value, false);
    var okQ := q.CorrelateAsSender(0, count, fromP.value, false);
    pAdj, qAdj := p.senderOutput, q.senderOutput;
    HasRun(q0, q1, pGot, uQ, pAdj, p.baseReceiverInput, p.stride, p.n, bQ, repeat, p.m);
    HasRun(p0, p1, qGot, uP, qAdj, q.baseReceiverInput, p.stride, p.n, bP, repeat, p.m);
    var outP := p.ReduceSquares(k, count, 0);
    var outQ := q.ReduceSquares(k, count, 0);
    zP, zQ := outP.value, outQ.value;
  }

  // ----- n parties

  function Sum(s: seq<int>): int { if |s| == 0 then 0 else Sum(s[..|s| - 1]) + s[|s| - 1] }

  lemma SumSnoc(s: seq<int>, i: nat)
    requires i < |s|
    ensures Sum(s[..i + 1]) == Sum(s[..i]) + s[i]
  {
    assert s[..i + 1][..i] == s[..i];
  }

  datatype Triple = Triple(a: int, b: int, c: int)

  /** The local end of a round: c is the own product and the outputs of the multipliers. */
  method PlainTripleRound(a: seq<int>, b: seq<int>, cOutput: seq<seq<int>>, nAmplify: nat, m: int)
    returns (triples: seq<Triple>)
    requires m > 0 && nAmplify >= 1 && |a| <= |b| * nAmplify
    requires forall i :: 0 <= i < |cOutput| ==> |cOutput[i]| == |a|
    ensures |triples| == |a|
    ensures forall j :: 0 <= j < |a| ==>
      && triples[j].a == a[j] && triples[j].b == InputOf(b, j, nAmplify)
      && triples[j].c % m == (a[j] * InputOf(b, j, nAmplify) + Sum(At(cOutput, j))) % m
    ensures forall j :: 0 <= j < |a| ==>
      && 0 <= j / nAmplify < |b| && triples[j].a == a[j] && triples[j].b == b[j / nAmplify]
      && triples[j].c % m
         == (a[j] * b[j / nAmplify] + Sum(seq(|cOutput|, i requires 0 <= i < |cOutput| => cOutput[i][j]))) % m
  {
    triples := [];
    for j := 0 to |a|
      invariant |triples| == j
      invariant forall i :: 0 <= i < j ==>
        && triples[i].a == a[i] && triples[i].b == InputOf(b, i, nAmplify)
        && triples[i].c % m == (a[i] * InputOf(b, i, nAmplify) + Sum(At(cOutput, i))) % m
    {
      QuotientBelow(j, |b|, nAmplify);
      var c := Mul(a[j], b[j / nAmplify], m);
      ghost var terms := At(cOutput, j);
      ModMod(a[j] * b[j / nAmplify], m);
      for i := 0 to |cOutput|
        invariant c % m == (a[j] * b[j / nAmplify] + Sum(terms[..i])) % m
      {
        SumSnoc(terms, i);
        AccumulateTerm(c, a[j] * b[j / nAmplify] + Sum(terms[..i]), cOutput[i][j], m);
        c := Add(c, cOutput[i][j], m);
      }
      assert terms[..|cOutput|] == terms;
      triples := triples + [Triple(a[j], b[j / nAmplify], c)];
    }
    forall j | 0 <= j < |a|
      ensures 0 <= j / nAmplify < |b| && InputOf(b, j, nAmplify) == b[j / nAmplify]
      ensures At(cOutput, j) == seq(|cOutput|, i requires 0 <= i < |cOutput| => cOutput[i][j])
    {
      QuotientBelow(j, |b|, nAmplify);
    }
  }

  /** A sum of nothing but zeros is zero, and another summand changes it by the difference. */
  lemma {:induction false} SumOfZeros(n: nat)
    ensures Sum(seq(n, _ => 0)) == 0
  {
    if n > 0 {
      SumOfZeros(n - 1);
      assert seq(n, _ => 0)[..n - 1] == seq(n - 1, _ => 0);
    }
  }

  lemma {:induction false} SumOfReplaced(s: seq<int>, i: nat, x: int)
    requires i < |s|
    ensures Sum(s[i := x]) == Sum(s) + x - s[i]
  {
    var k := |s| - 1;
    if i < k {
      SumOfReplaced(s[..k], i, x);
      assert s[i := x][..k] == s[..k][i := x];
    } else {
      assert s[i := x][..k] == s[..k];
    }
  }

  lemma AccumulateTerm(c: int, s: int, x: int, m: int)
    requires m > 0 && c % m == s % m
    ensures Add(c, x, m) % m == (s + x) % m
  {
    ModMod(c + x, m);
    CongAdd(c, s, x, x, m);
  }

  /** Position j of every list. */
  ghost function At(lists: seq<seq<int>>, j: nat): (r: seq<int>)
    requires forall i :: 0 <= i < |lists| ==> j < |lists[i]|
    ensures |r| == |lists|
  {
    seq(|lists|, i requires 0 <= i < |lists| => lists[i][j])
  }

  /** The thread of party p that talks to party q. */
  function Thread(p: nat, q: nat): nat
    requires p != q
  {
    if q > p then q - 1 else q
  }

  /** The other party of a thread, as the constructor assigns them. */
  function OtherPlayer(my: nat, i: nat): nat { if i >= my then i + 1 else i }

  /** The threads of a party other than `my` and the other parties are numbered alike. */
  lemma ThreadsMatchPlayers(my: nat)
    ensures forall i: nat :: OtherPlayer(my, i) != my && Thread(my, OtherPlayer(my, i)) == i
    ensures forall q: nat :: q != my ==> OtherPlayer(my, Thread(my, q)) == q
  {}

  /** Every party has one thread for each other party. */
  ghost predicate Threads(outs: seq<seq<int>>) { forall p :: 0 <= p < |outs| ==> |outs[p]| == |outs| - 1 }

  /** outs[p] lists the outputs of party p's threads; every pair shares its cross products. */
  ghost predicate PairsMultiply(outs: seq<seq<int>>, a: seq<int>, b: seq<int>, m: int) {
    && m > 0 && |outs| == |a| == |b|
    && Threads(outs)
    && forall p: nat, q: nat {:trigger PairSum(outs, p, q)} :: p < q < |outs| ==>
         PairSum(outs, p, q) % m == (a[p] * b[q] + a[q] * b[p]) % m
  }

  ghost function PairSum(outs: seq<seq<int>>, p: nat, q: nat): int
    requires p < q < |outs| && Threads(outs)
  {
    outs[p][Thread(p, q)] + outs[q][Thread(q, p)]
  }

  /** Sum over the parties below k of what their threads with parties below k hold. */
  ghost function Among(outs: seq<seq<int>>, rows: nat, k: nat): int
    requires rows <= |outs| && k <= |outs| && Threads(outs)
  {
    if rows == 0 then 0 else Among(outs, rows - 1, k) + Sum(outs[rows - 1][..if k < rows then k else k - 1])
  }

  /** What party k's column and row add for the parties below `rows`. */
  ghost function Column(outs: seq<seq<int>>, rows: nat, k: nat): int
    requires rows <= k < |outs| && Threads(outs)
  {
    Among(outs, rows, k + 1) + Sum(outs[k][..rows]) - Among(outs, rows, k)
  }

  lemma ColumnSnoc(outs: seq<seq<int>>, p: nat, k: nat)
    requires p < k < |outs| && Threads(outs)
    ensures Column(outs, p + 1, k) == Column(outs, p, k) + PairSum(outs, p, k)
  {
    SumSnoc(outs[p], k - 1);
    SumSnoc(outs[k], p);
  }

  lemma {:induction false} AddColumn(outs: seq<seq<int>>, a: seq<int>, b: seq<int>, rows: nat, k: nat, m: int)
    requires PairsMultiply(outs, a, b, m) && rows <= k < |outs|
    ensures Column(outs, rows, k) % m == (Sum(a[..rows]) * b[k] + a[k] * Sum(b[..rows])) % m
  {
    if rows > 0 {
      var p := rows - 1;
      AddColumn(outs, a, b, p, k, m);
      ColumnSnoc(outs, p, k);
      SumSnoc(a, p);
      SumSnoc(b, p);
      ColumnStep(Column(outs, p, k), PairSum(outs, p, k), Column(outs, rows, k), Sum(a[..p]), a[p], Sum(a[..rows]), b[k], a[k],
                 Sum(b[..p]), b[p], Sum(b[..rows]), m);
    }
  }

  lemma ColumnStep(left: int, pair: int, left': int, sa: int, a: int, sa': int, bk: int, ak: int, sb: int, b: int, sb': int, m: int)
    requires m > 0 && left % m == (sa * bk + ak * sb) % m && pair % m == (a * bk + ak * b) % m
    requires left' == left + pair && sa' == sa + a && sb' == sb + b
    ensures left' % m == (sa' * bk + ak * sb') % m
  {
    CongAdd(left, sa * bk + ak * sb, pair, a * bk + ak * b, m);
    MulDistributes(bk, sa, a);
    MulDistributes(ak, sb, b);
    assert (sa * bk + ak * sb) + (a * bk + ak * b) == sa' * bk + ak * sb';
  }

  lemma {:induction false} OwnProducts(outs: seq<seq<int>>, a: seq<int>, b: seq<int>, k: nat, m: int)
    requires PairsMultiply(outs, a, b, m) && k <= |outs|
    ensures (Among(outs, k, k) + Dot(a, b, k)) % m == (Sum(a[..k]) * Sum(b[..k])) % m
  {
    if k > 0 {
      var p := k - 1;
      OwnProducts(outs, a, b, p, m);
      AddColumn(outs, a, b, p, p, m);
      SumSnoc(a, p);
      SumSnoc(b, p);
      ProductStep(Among(outs, p, p) + Dot(a, b, p), Column(outs, p, p), Among(outs, k, k) + Dot(a, b, k),
                  Sum(a[..p]), Sum(b[..p]), a[p], b[p], Sum(a[..k]), Sum(b[..k]), m);
    }
  }

  lemma ProductStep(total: int, column: int, total': int, sa: int, sb: int, a: int, b: int, sa': int, sb': int, m: int)
    requires m > 0 && total % m == (sa * sb) % m && column % m == (sa * b + a * sb) % m
    requires total' == total + column + a * b && sa' == sa + a && sb' == sb + b
    ensures total' % m == (sa' * sb') % m
  {
    CongAdd(total, sa * sb, column, sa * b + a * sb, m);
    CongAdd(total + column, sa * sb + (sa * b + a * sb), a * b, a * b, m);
    ProductOfSums(sa, a, sb, b);
  }

  lemma ProductOfSums(sa: int, a: int, sb: int, b: int)
    ensures sa * sb + (sa * b + a * sb) + a * b == (sa + a) * (sb + b)
  {}

  /** Every party's c is its own product and the outputs of its threads. */
  ghost predicate LocalTriples(outs: seq<seq<int>>, a: seq<int>, b: seq<int>, c: seq<int>, m: int) {
    && m > 0 && |a| == |b| == |c| == |outs|
    && forall p {:trigger Row(p)} :: Row(p) && 0 <= p < |outs| ==> c[p] % m == (a[p] * b[p] + Sum(outs[p])) % m
  }

  lemma {:induction false} AmongAll(outs: seq<seq<int>>, a: seq<int>, b: seq<int>, c: seq<int>, k: nat, m: int)
    requires LocalTriples(outs, a, b, c, m) && k <= |outs| && Threads(outs)
    ensures Sum(c[..k]) % m == (Among(outs, k, |outs|) + Dot(a, b, k)) % m
  {
    hide Sum, Among;
    if k == 0 {
      NothingAmong(outs, c);
    } else {
      var p := k - 1;
      AmongAll(outs, a, b, c, p, m);
      SumSnoc(c, p);
      AmongSnoc(outs, p);
      LocalSum(outs, a, b, c, p, m);
      AddOwn(Sum(c[..p]), Among(outs, p, |outs|), Dot(a, b, p), c[p], a[p] * b[p], Sum(outs[p]), m);
    }
  }

  lemma NothingAmong(outs: seq<seq<int>>, c: seq<int>)
    requires Threads(outs)
    ensures Sum(c[..0]) == 0 && Among(outs, 0, |outs|) == 0
  {}

  lemma AmongSnoc(outs: seq<seq<int>>, p: nat)
    requires p < |outs| && Threads(outs)
    ensures Among(outs, p + 1, |outs|) == Among(outs, p, |outs|) + Sum(outs[p])
  {
    WholeList(outs[p]);
  }

  lemma LocalSum(outs: seq<seq<int>>, a: seq<int>, b: seq<int>, c: seq<int>, p: nat, m: int)
    requires LocalTriples(outs, a, b, c, m) && p < |outs|
    ensures c[p] % m == (a[p] * b[p] + Sum(outs[p])) % m
  {
    assert Row(p);
  }

  lemma WholeList(s: seq<int>)
    ensures Sum(s[..|s|]) == Sum(s)
  {
    assert s[..|s|] == s;
  }

  lemma AddOwn(s: int, among: int, dot: int, c: int, own: int, outs: int, m: int)
    requires m > 0 && s % m == (among + dot) % m && c % m == (own + outs) % m
    ensures (s + c) % m == (among + outs + (dot + own)) % m
  {
    CongAdd(s, among + dot, c, own + outs, m);
  }

  lemma WholeSums(a: seq<int>, b: seq<int>, c: seq<int>, total: int, n: nat, m: int)
    requires m > 0 && |a| == |b| == |c| == n
    requires total % m == (Sum(a[..n]) * Sum(b[..n])) % m && Sum(c[..n]) % m == total % m
    ensures Sum(c) % m == (Sum(a) * Sum(b)) % m
  {
    assert a[..n] == a;
    assert b[..n] == b;
    assert c[..n] == c;
  }

  /** The parties' c are shares of the product of what their a and b are shares of. */
  lemma TriplesMultiply(outs: seq<seq<int>>, a: seq<int>, b: seq<int>, c: seq<int>, m: int)
    requires PairsMultiply(outs, a, b, m) && |c| == |outs|
    requires LocalTriples(outs, a, b, c, m)
    ensures Sum(c) % m == (Sum(a) * Sum(b)) % m
  {
    var n := |outs|;
    OwnProducts(outs, a, b, n, m);
    AmongAll(outs, a, b, c, n, m);
    WholeSums(a, b, c, Among(outs, n, n) + Dot(a, b, n), n, m);
  }

  /** The parties' shares of a, b and c. */
  ghost function As(t: seq<Triple>): seq<int> { seq(|t|, p requires 0 <= p < |t| => t[p].a) }
  ghost function Bs(t: seq<Triple>): seq<int> { seq(|t|, p requires 0 <= p < |t| => t[p].b) }
  ghost function Cs(t: seq<Triple>): seq<int> { seq(|t|, p requires 0 <= p < |t| => t[p].c) }

  /** What one party holds at position j after the round: a from its choice bits, b from its inputs. */
  ghost predicate RoundAt(t: Triple, outputs: seq<int>, bits: seq<int>, b: seq<int>, stride: nat, n: nat, repeat: nat, j: nat, m: int) {
    && m > 0 && t.a == InputBits(bits, stride, j, n) && t.b == InputOf(b, j, repeat)
    && t.c % m == (t.a * t.b + Sum(outputs)) % m
  }

  /** Position j of a round of any number of parties: if every pair of parties multiplied as MultiplyPair
      does and every party ended with PlainTripleRound, the triples' shares multiply. */
  lemma RoundIsCorrect(triples: seq<Triple>, outs: seq<seq<int>>, bits: seq<seq<int>>, bs: seq<seq<int>>,
                       stride: nat, n: nat, repeat: nat, j: nat, m: int)
    requires m > 0 && |triples| == |outs| == |bits| == |bs| && Threads(outs)
    requires forall p :: 0 <= p < |triples| ==> RoundAt(triples[p], outs[p], bits[p], bs[p], stride, n, repeat, j, m)
    requires forall p: nat, q: nat {:trigger PairSum(outs, p, q)} :: p < q < |outs| ==>
      PairSum(outs, p, q) % m == CrossTerms(bits[p], bs[p], bits[q], bs[q], stride, n, j, repeat) % m
    ensures Sum(Cs(triples)) % m == (Sum(As(triples)) * Sum(Bs(triples))) % m
  {
    var a, b, c := As(triples), Bs(triples), Cs(triples);
    forall p | 0 <= p < |outs| ensures c[p] % m == (a[p] * b[p] + Sum(outs[p])) % m {
      assert RoundAt(triples[p], outs[p], bits[p], bs[p], stride, n, repeat, j, m);
    }
    forall p: nat, q: nat {:trigger PairSum(outs, p, q)} | p < q < |outs|
      ensures PairSum(outs, p, q) % m == (a[p] * b[q] + a[q] * b[p]) % m
    {
      assert RoundAt(triples[p], outs[p], bits[p], bs[p], stride, n, repeat, j, m);
      assert RoundAt(triples[q], outs[q], bits[q], bs[q], stride, n, repeat, j, m);
    }
    TriplesMultiply(outs, a, b, c, m);
  }

  // ----- a whole round

  /** What a party holds of the random OTs with one other party. */
  datatype Base = Base(t0: seq<Square>, t1: seq<Square>, got: seq<Square>)

  /** The sizes of a round: rows allocated and used for a square, squares per b, and squares. */
  datatype Sizes = Sizes(stride: nat, n: nat, repeat: nat, count: nat)

  /** A party's choice bits and its inputs b. */
  datatype Input = Input(bits: seq<int>, b: seq<int>)

  ghost predicate InputFits(x: Input, z: Sizes) {
    Bits(x.bits) && z.stride * z.count <= |x.bits| && z.count <= |x.b| * z.repeat
  }

  ghost predicate BaseFits(base: Base, peer: Base, bits: seq<int>, z: Sizes) {
    && |base.t0| == |base.t1| == |base.got| == z.count
    && Uniform(base.t0, z.n) && Uniform(base.t1, z.n) && Uniform(base.got, z.n)
    && Connected(base.got, peer.t0, peer.t1, bits, z.stride)
  }

  ghost predicate RoundFits(inputs: seq<Input>, base: (nat, nat) -> Base, z: Sizes) {
    && z.repeat >= 1 && z.n <= z.stride
    && (forall p :: 0 <= p < |inputs| ==> InputFits(inputs[p], z) && |inputs[p].b| == |inputs[0].b|)
    && forall p: nat, q: nat :: p < |inputs| && q < |inputs| && p != q ==> BaseFits(base(p, q), base(q, p), inputs[p].bits, z)
  }

  /** The outputs of two parties' threads with each other share the cross products. */
  ghost predicate Shared(zP: seq<int>, zQ: seq<int>, p: Input, q: Input, z: Sizes, m: int) {
    && m > 0 && |zP| == |zQ| == z.count
    && forall j {:trigger Row(j)} :: Row(j) && 0 <= j < z.count ==>
         (zP[j] + zQ[j]) % m == CrossTerms(p.bits, p.b, q.bits, q.b, z.stride, z.n, j, z.repeat) % m
  }

  /** The threads of two parties with each other. */
  method RunThreads(p: Input, q: Input, baseP: Base, baseQ: Base, z: Sizes, k: nat) returns (zP: seq<int>, zQ: seq<int>)
    requires z.repeat >= 1 && z.n <= z.stride && InputFits(p, z) && InputFits(q, z) && |p.b| == |q.b|
    requires BaseFits(baseP, baseQ, p.bits, z) && BaseFits(baseQ, baseP, q.bits, z)
    ensures Shared(zP, zQ, p, q, z, Pow2(k))
  {
    var cP := new OTCorrelator(Pow2(k), z.n, z.stride);
    var cQ := new OTCorrelator(Pow2(k), z.n, z.stride);
    cP.SetUpForCorrelation(p.bits, baseP.t0, baseP.t1, baseP.got);
    cQ.SetUpForCorrelation(q.bits, baseQ.t0, baseQ.t1, baseQ.got);
    zP, zQ := MultiplyPair(cP, cQ, p.b, q.b, z.repeat, k);
  }

  ghost predicate PairDone(c: map<(nat, nat), seq<int>>, inputs: seq<Input>, p: nat, q: nat, z: Sizes, m: int)
    requires p < |inputs| && q < |inputs|
  {
    (p, q) in c && (q, p) in c && Shared(c[(p, q)], c[(q, p)], inputs[p], inputs[q], z, m)
  }

  /** Every pair of parties. */
  method AllPairs(inputs: seq<Input>, base: (nat, nat) -> Base, z: Sizes, k: nat) returns (c: map<(nat, nat), seq<int>>)
    requires RoundFits(inputs, base, z)
    ensures forall p: nat, q: nat :: p < q < |inputs| ==> PairDone(c, inputs, p, q, z, Pow2(k))
  {
    hide Shared, InputFits, BaseFits;
    c := map[];
    for p: nat := 0 to |inputs|
      invariant forall i: nat, j: nat :: i < p && i < j < |inputs| ==> PairDone(c, inputs, i, j, z, Pow2(k))
    {
      for q: nat := p + 1 to |inputs|
        invariant forall i: nat, j: nat :: i < p && i < j < |inputs| ==> PairDone(c, inputs, i, j, z, Pow2(k))
        invariant forall j: nat :: p < j < q ==> PairDone(c, inputs, p, j, z, Pow2(k))
      {
        var zP, zQ := RunThreads(inputs[p], inputs[q], base(p, q), base(q, p), z, k);
        ghost var before := c;
        c := c[(p, q) := zP][(q, p) := zQ];
        forall i: nat, j: nat | i < j < |inputs| && (i < p || (i == p && j < q)) ensures PairDone(c, inputs, i, j, z, Pow2(k)) {
          assert PairDone(before, inputs, i, j, z, Pow2(k));
        }
      }
    }
  }

  /** Column j of the parties' triples. */
  ghost function Holdings(t: seq<seq<Triple>>, j: nat): (r: seq<Triple>)
    requires forall p :: 0 <= p < |t| ==> j < |t[p]|
    ensures |r| == |t|
  {
    seq(|t|, p requires 0 <= p < |t| => t[p][j])
  }

  /** Every thread has an output for every square. */
  ghost predicate Complete(c: map<(nat, nat), seq<int>>, parties: nat, count: nat) {
    forall p: nat, q: nat :: p < parties && q < parties && p != q ==> (p, q) in c && |c[(p, q)]| == count
  }

  /** What the threads of party `my` hold for square j. */
  ghost function Outputs(c: map<(nat, nat), seq<int>>, parties: nat, count: nat, my: nat, j: nat): (r: seq<int>)
    requires Complete(c, parties, count) && my < parties && j < count
    ensures |r| == parties - 1
  {
    seq(parties - 1, i requires 0 <= i < parties - 1 => c[(my, OtherPlayer(my, i))][j])
  }

  /** The local end of one party: the outputs of its threads by the number of the other player. */
  method PartyEnd(my: nat, parties: nat, input: Input, c: map<(nat, nat), seq<int>>, z: Sizes, m: int)
    returns (triples: seq<Triple>)
    requires m > 0 && my < parties && Complete(c, parties, z.count) && z.repeat >= 1 && InputFits(input, z)
    ensures |triples| == z.count
    ensures forall j :: 0 <= j < z.count ==>
      RoundAt(triples[j], Outputs(c, parties, z.count, my, j), input.bits, input.b, z.stride, z.n, z.repeat, j, m)
  {
    var a := seq(z.count, j requires 0 <= j < z.count => InputBits(input.bits, z.stride, j, z.n));
    var cOutput: seq<seq<int>> := [];
    for i := 0 to parties - 1
      invariant |cOutput| == i && forall l :: 0 <= l < i ==> cOutput[l] == c[(my, OtherPlayer(my, l))]
      invariant forall l :: 0 <= l < i ==> |cOutput[l]| == z.count
    {
      cOutput := cOutput + [c[(my, OtherPlayer(my, i))]];
    }
    triples := PlainTripleRound(a, input.b, cOutput, z.repeat, m);
    forall j | 0 <= j < z.count
      ensures RoundAt(triples[j], Outputs(c, parties, z.count, my, j), input.bits, input.b, z.stride, z.n, z.repeat, j, m)
    {
      assert At(cOutput, j) == Outputs(c, parties, z.count, my, j);
    }
  }

  /** A round of any number of parties: every party's a and b are its choice bits and inputs, and in every
      position the c add up to the product of the sums of the a and the b. */
  method PlainTriples(inputs: seq<Input>, base: (nat, nat) -> Base, z: Sizes, k: nat) returns (t: seq<seq<Triple>>)
    requires RoundFits(inputs, base, z)
    ensures |t| == |inputs| && forall p :: 0 <= p < |t| ==> |t[p]| == z.count
    ensures forall p, j :: 0 <= p < |t| && 0 <= j < z.count ==>
      && 0 <= z.stride * j && z.stride * j + z.n <= |inputs[p].bits| && 0 <= j / z.repeat < |inputs[p].b|
      && t[p][j].a == BitsVal(inputs[p].bits[z.stride * j..z.stride * j + z.n]) && t[p][j].b == inputs[p].b[j / z.repeat]
    ensures forall j {:trigger Row(j)} :: Row(j) && 0 <= j < z.count ==>
      Sum(seq(|t|, p requires 0 <= p < |t| => t[p][j].c)) % Pow2(k)
      == (Sum(seq(|t|, p requires 0 <= p < |t| => t[p][j].a)) * Sum(seq(|t|, p requires 0 <= p < |t| => t[p][j].b))) % Pow2(k)
  {
    hide Shared, InputFits, BaseFits, Outputs, RoundAt, InputBits, InputOf;
    var m := Pow2(k);
    var c := AllPairs(inputs, base, z, k);
    PairsComplete(c, inputs, z, m);
    t := [];
    for p: nat := 0 to |inputs|
      invariant |t| == p && forall i :: 0 <= i < p ==> |t[i]| == z.count && Ended(t[i], c, inputs, i, z, m)
    {
      var own := PartyEnd(p, |inputs|, inputs[p], c, z, m);
      t := t + [own];
    }
    forall p, j | 0 <= p < |t| && 0 <= j < z.count
      ensures && 0 <= z.stride * j && z.stride * j + z.n <= |inputs[p].bits| && 0 <= j / z.repeat < |inputs[p].b|
              && t[p][j].a == BitsVal(inputs[p].bits[z.stride * j..z.stride * j + z.n]) && t[p][j].b == inputs[p].b[j / z.repeat]
    {
      HoldingMeans(t[p], c, inputs, p, z, j, m);
    }
    forall j {:trigger Row(j)} | Row(j) && 0 <= j < z.count
      ensures Sum(seq(|t|, p requires 0 <= p < |t| => t[p][j].c)) % m
        == (Sum(seq(|t|, p requires 0 <= p < |t| => t[p][j].a)) * Sum(seq(|t|, p requires 0 <= p < |t| => t[p][j].b))) % m
    {
      PositionIsCorrect(t, c, inputs, z, j, m);
    }
  }

  /** What a party holds at position j, by plain indexing. */
  lemma HoldingMeans(own: seq<Triple>, c: map<(nat, nat), seq<int>>, inputs: seq<Input>, p: nat, z: Sizes, j: nat, m: int)
    requires p < |inputs| && Complete(c, |inputs|, z.count) && Ended(own, c, inputs, p, z, m) && j < z.count == |own|
    requires InputFits(inputs[p], z) && z.repeat >= 1 && z.n <= z.stride
    ensures 0 <= z.stride * j && z.stride * j + z.n <= |inputs[p].bits| && 0 <= j / z.repeat < |inputs[p].b|
    ensures own[j].a == BitsVal(inputs[p].bits[z.stride * j..z.stride * j + z.n]) && own[j].b == inputs[p].b[j / z.repeat]
  {
    hide Outputs;
    assert RoundAt(own[j], Outputs(c, |inputs|, z.count, p, j), inputs[p].bits, inputs[p].b, z.stride, z.n, z.repeat, j, m);
    InputsMean(inputs[p].bits, inputs[p].b, z.stride, z.n, j, z.repeat, z.count);
  }

  lemma PairsComplete(c: map<(nat, nat), seq<int>>, inputs: seq<Input>, z: Sizes, m: int)
    requires forall p: nat, q: nat :: p < q < |inputs| ==> PairDone(c, inputs, p, q, z, m)
    ensures Complete(c, |inputs|, z.count)
  {
    forall p: nat, q: nat | p < |inputs| && q < |inputs| && p != q ensures (p, q) in c && |c[(p, q)]| == z.count {
      if p < q { assert PairDone(c, inputs, p, q, z, m); } else { assert PairDone(c, inputs, q, p, z, m); }
    }
  }

  /** Party p's triples are what its local end makes of the outputs. */
  ghost predicate Ended(own: seq<Triple>, c: map<(nat, nat), seq<int>>, inputs: seq<Input>, p: nat, z: Sizes, m: int)
    requires p < |inputs| && Complete(c, |inputs|, z.count)
  {
    |own| == z.count && forall j :: 0 <= j < z.count ==>
      RoundAt(own[j], Outputs(c, |inputs|, z.count, p, j), inputs[p].bits, inputs[p].b, z.stride, z.n, z.repeat, j, m)
  }

  lemma PositionIsCorrect(t: seq<seq<Triple>>, c: map<(nat, nat), seq<int>>, inputs: seq<Input>, z: Sizes, j: nat, m: int)
    requires m > 0 && |t| == |inputs| && j < z.count && Complete(c, |inputs|, z.count)
    requires forall p: nat, q: nat :: p < q < |inputs| ==> PairDone(c, inputs, p, q, z, m)
    requires forall i :: 0 <= i < |t| ==> |t[i]| == z.count && Ended(t[i], c, inputs, i, z, m)
    ensures Sum(seq(|t|, p requires 0 <= p < |t| => t[p][j].c)) % m
         == (Sum(seq(|t|, p requires 0 <= p < |t| => t[p][j].a)) * Sum(seq(|t|, p requires 0 <= p < |t| => t[p][j].b))) % m
  {
    hide PairDone, Ended, Sum;
    HoldingsMultiply(t, c, inputs, z, j, m);
    ColumnsOfHoldings(t, j);
  }

  lemma ColumnsOfHoldings(t: seq<seq<Triple>>, j: nat)
    requires forall p :: 0 <= p < |t| ==> j < |t[p]|
    ensures As(Holdings(t, j)) == seq(|t|, p requires 0 <= p < |t| => t[p][j].a)
    ensures Bs(Holdings(t, j)) == seq(|t|, p requires 0 <= p < |t| => t[p][j].b)
    ensures Cs(Holdings(t, j)) == seq(|t|, p requires 0 <= p < |t| => t[p][j].c)
  {}

  lemma HoldingsMultiply(t: seq<seq<Triple>>, c: map<(nat, nat), seq<int>>, inputs: seq<Input>, z: Sizes, j: nat, m: int)
    requires m > 0 && |t| == |inputs| && j < z.count && Complete(c, |inputs|, z.count)
    requires forall p: nat, q: nat :: p < q < |inputs| ==> PairDone(c, inputs, p, q, z, m)
    requires forall i :: 0 <= i < |t| ==> |t[i]| == z.count && Ended(t[i], c, inputs, i, z, m)
    ensures var h := Holdings(t, j); Sum(Cs(h)) % m == (Sum(As(h)) * Sum(Bs(h))) % m
  {
    hide InputFits, BaseFits;
    var n := |inputs|;
    var outs := seq(n, p requires 0 <= p < n => Outputs(c, n, z.count, p, j));
    var bits := seq(n, p requires 0 <= p < n => inputs[p].bits);
    var bs := seq(n, p requires 0 <= p < n => inputs[p].b);
    assert Threads(outs);
    forall p: nat, q: nat {:trigger PairSum(outs, p, q)} | p < q < n
      ensures PairSum(outs, p, q) % m == CrossTerms(bits[p], bs[p], bits[q], bs[q], z.stride, z.n, j, z.repeat) % m
    {
      assert PairDone(c, inputs, p, q, z, m) && Row(j);
      ThreadsMatchPlayers(p);
      ThreadsMatchPlayers(q);
    }
    var h := Holdings(t, j);
    forall p | 0 <= p < n ensures RoundAt(h[p], outs[p], bits[p], bs[p], z.stride, z.n, z.repeat, j, m) {
      assert Ended(t[p], c, inputs, p, z, m);
    }
    RoundIsCorrect(h, outs, bits, bs, z.stride, z.n, z.repeat, j, m);
  }
}
