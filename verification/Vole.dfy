/** Vector oblivious linear evaluation, OT/OTVole.hpp: both parties multiply their vector with the
    other's choice bits. */
module Vole {
  import opened Arith
  import opened OnlineOp
  import opened OTCorrelation

  type Line = seq<int>

  // ----- componentwise operations modulo m

  function AddRow(a: Line, b: Line, m: int): (r: Line)
    requires m > 0 && |a| == |b|
    ensures |r| == |a|
  {
    seq(|a|, i requires 0 <= i < |a| => Add(a[i], b[i], m))
  }

  function SubRow(a: Line, b: Line, m: int): (r: Line)
    requires m > 0 && |a| == |b|
    ensures |r| == |a|
  {
    seq(|a|, i requires 0 <= i < |a| => Sub(a[i], b[i], m))
  }

  function ShlRow(a: Line, k: nat, m: int): (r: Line)
    requires m > 0
    ensures |r| == |a|
  {
    seq(|a|, i requires 0 <= i < |a| => (a[i] * Pow2(k)) % m)
  }

  ghost predicate Lines(rows: seq<Line>, n: nat) { forall i :: 0 <= i < |rows| ==> |rows[i]| == n }

  /** Component j of every row. */
  ghost function Component(rows: seq<Line>, j: nat): (r: seq<int>)
    requires forall i :: 0 <= i < |rows| ==> j < |rows[i]|
    ensures |r| == |rows|
  {
    At(rows, j)
  }

  lemma ComponentPrefix(rows: seq<Line>, i: nat, j: nat)
    requires i < |rows| && forall i :: 0 <= i < |rows| ==> j < |rows[i]|
    ensures BitsVal(Component(rows, j)[..i + 1]) == BitsVal(Component(rows, j)[..i]) + rows[i][j] * Pow2(i)
  {
    BitsValSnoc(Component(rows, j), i);
  }

  /** The four hashes that the sender provides for one challenge. */
  datatype Hashes = Hashes(h00: int, h01: int, h10: int, h11: int) {
    function Get(a: int, b: int): int {
      if a == 1 then (if b == 1 then h11 else h10) else (if b == 1 then h01 else h00)
    }
  }

  class OTVole {
    const S: nat
    const m: int
    var baseReceiverInput: seq<int>
    var corrPrime: Line
    var t0: seq<Line>
    var t1: seq<Line>
    var u: seq<Line>
    var t: seq<Line>
    var a: seq<Line>

    constructor (S: nat, m: int, bits: seq<int>)
      requires m > 0 && |bits| == S && Bits(bits)
      ensures this.S == S && this.m == m && baseReceiverInput == bits
    {
      this.S, this.m, baseReceiverInput := S, m, bits;
      corrPrime, t0, t1, u, t, a := [], [], [], [], [], [];
    }

    /** x + t1 + t0 for every row; the drawn rows are parameters. */
    method SendCorrections(input: seq<int>, extra: int, rnd0: seq<Line>, rnd1: seq<Line>) returns (os: seq<Line>)
      requires m > 0 && |rnd0| == |rnd1| == S && Lines(rnd0, |input| + 1) && Lines(rnd1, |input| + 1)
      modifies this`corrPrime, this`t0, this`t1
      ensures t0 == rnd0 && t1 == rnd1 && corrPrime == input + [extra]
      ensures Corrections(os, t0, t1, corrPrime, m)
      ensures |os| == S && Lines(os, |input| + 1)
      ensures forall k, j :: 0 <= k < S && 0 <= j < |input| + 1 ==>
        os[k][j] == ((if j < |input| then input[j] else extra) + t1[k][j] + t0[k][j]) % m
    {
      corrPrime := input + [extra];
      t0, t1, os := rnd0, rnd1, [];
      for i := 0 to S
        invariant |os| == i && Lines(os, |corrPrime|)
        invariant forall k {:trigger Row(k)} :: Row(k) && 0 <= k < i ==> os[k] == AddRow(AddRow(corrPrime, t1[k], m), t0[k], m)
      {
        os := os + [AddRow(AddRow(corrPrime, t1[i], m), t0[i], m)];
      }
      CorrectionsMean(os, t0, t1, input, extra, m);
    }

    method ReceiveCorrections(os: seq<Line>, rnd: seq<Line>, n: nat)
      requires m > 0 && |os| == |rnd| == S == |baseReceiverInput| && Lines(os, n) && Lines(rnd, n)
      modifies this`u, this`t, this`a
      ensures u == os && t == rnd && Received(a, u, t, baseReceiverInput, m)
      ensures |a| == S && forall k :: 0 <= k < S ==>
        a[k] == if baseReceiverInput[k] == 1 then seq(n, j requires 0 <= j < n => (os[k][j] - rnd[k][j]) % m) else rnd[k]
    {
      u, t, a := os, rnd, [];
      for i := 0 to S
        invariant |a| == i && u == os && t == rnd
        invariant forall k {:trigger Row(k)} :: Row(k) && 0 <= k < i ==> a[k] == Chosen(u[k], t[k], baseReceiverInput[k], m)
      {
        if baseReceiverInput[i] == 1 {
          a := a + [SubRow(u[i], t[i], m)];
        } else {
          a := a + [t[i]];
        }
      }
      forall k | 0 <= k < S
        ensures a[k] == if baseReceiverInput[k] == 1 then seq(n, j requires 0 <= j < n => (os[k][j] - rnd[k][j]) % m) else rnd[k]
      {
        assert Row(k);
        DifferenceMeans(os[k], rnd[k], n, m);
      }
    }

    /** The output: the received rows minus the own t0, weighted.  A shift by the element width or more
        is refused. */
    method Output(n: nat, width: nat) returns (output: Outcome<Line>)
      requires m > 0 && |a| == |t0| == S && Lines(a, n + 1) && Lines(t0, n + 1)
      ensures output.InvalidLength? <==> S > width
      ensures output.Ok? ==> Weighed(output.value, a, t0, n, m)
      ensures output.Ok? ==> |output.value| == n && var got, own := a, t0; forall j :: 0 <= j < n ==>
        output.value[j] % m
        == (BitsVal(seq(S, k requires 0 <= k < S => got[k][j])) - BitsVal(seq(S, k requires 0 <= k < S => own[k][j]))) % m
    {
      hide Component, Pow2, Add, Sub;
      if S > width { return InvalidLength; }
      var res: Line := seq(n + 1, _ => 0);
      for i := 0 to S
        invariant |res| == n + 1
        invariant forall j :: 0 <= j < n + 1 ==> res[j] % m == BitsVal(Component(a, j)[..i]) % m
      {
        forall j | 0 <= j < n + 1
          ensures Add(res[j], (a[i][j] * Pow2(i)) % m, m) % m == BitsVal(Component(a, j)[..i + 1]) % m
        {
          ComponentPrefix(a, i, j);
          ShiftedTerm(res[j], BitsVal(Component(a, j)[..i]), a[i][j], Pow2(i), m);
        }
        res := AddRow(res, ShlRow(a[i], i, m), m);
      }
      for i := 0 to S
        invariant |res| == n + 1
        invariant forall j :: 0 <= j < n + 1 ==>
          res[j] % m == (BitsVal(Component(a, j)[..S]) - BitsVal(Component(t0, j)[..i])) % m
      {
        forall j | 0 <= j < n + 1
          ensures Sub(res[j], (t0[i][j] * Pow2(i)) % m, m) % m
               == (BitsVal(Component(a, j)[..S]) - BitsVal(Component(t0, j)[..i + 1])) % m
        {
          ComponentPrefix(t0, i, j);
          SubtractedTerm(res[j], BitsVal(Component(a, j)[..S]) - BitsVal(Component(t0, j)[..i]), t0[i][j], Pow2(i), m);
        }
        res := SubRow(res, ShlRow(t0[i], i, m), m);
      }
      forall j | 0 <= j < n ensures res[j] % m == (BitsVal(Component(a, j)) - BitsVal(Component(t0, j))) % m {
        assert Component(a, j)[..S] == Component(a, j);
        assert Component(t0, j)[..S] == Component(t0, j);
      }
      ghost var got, own := a, t0;
      forall j | 0 <= j < n
        ensures res[j] % m
                == (BitsVal(seq(S, k requires 0 <= k < S => got[k][j])) - BitsVal(seq(S, k requires 0 <= k < S => own[k][j]))) % m
      {
        ComponentMeans(got, S, j);
        ComponentMeans(own, S, j);
      }
      output := Ok(res[..n]);
    }

    /** The sender's side of the check; `hash` is the keyed hash of a row. */
    method SendHashes(challenges: seq<seq<nat>>, hash: Line -> int, n: nat) returns (os: seq<seq<Hashes>>)
      requires m > 0 && |t0| == |t1| == S && Lines(t0, n) && Lines(t1, n) && ValidChallenges(challenges, S)
      ensures |os| == S && forall k :: 0 <= k < S ==> |os[k]| == |challenges[k]|
      ensures forall k, i :: 0 <= k < S && 0 <= i < |challenges[k]| ==>
        os[k][i] == HashesFor(t0[k], t1[k], t0[challenges[k][i]], t1[challenges[k][i]], hash, m)
      ensures forall k, i :: 0 <= k < S && 0 <= i < |challenges[k]| ==>
        var b := challenges[k][i]; var x0, x1, y0, y1 := t0[k], t1[k], t0[b], t1[b];
        && os[k][i].Get(0, 0) == hash(seq(n, j requires 0 <= j < n => (x0[j] - y0[j]) % m))
        && os[k][i].Get(0, 1) == hash(seq(n, j requires 0 <= j < n => (x0[j] - y1[j]) % m))
        && os[k][i].Get(1, 0) == hash(seq(n, j requires 0 <= j < n => (x1[j] - y0[j]) % m))
        && os[k][i].Get(1, 1) == hash(seq(n, j requires 0 <= j < n => (x1[j] - y1[j]) % m))
    {
      os := [];
      for alpha := 0 to S
        invariant |os| == alpha && forall k :: 0 <= k < alpha ==> |os[k]| == |challenges[k]|
        invariant forall k, i :: 0 <= k < alpha && 0 <= i < |challenges[k]| ==>
          os[k][i] == HashesFor(t0[k], t1[k], t0[challenges[k][i]], t1[challenges[k][i]], hash, m)
      {
        var row: seq<Hashes> := [];
        for i := 0 to |challenges[alpha]|
          invariant |row| == i
          invariant forall k :: 0 <= k < i ==>
            row[k] == HashesFor(t0[alpha], t1[alpha], t0[challenges[alpha][k]], t1[challenges[alpha][k]], hash, m)
        {
          var beta := challenges[alpha][i];
          var h00 := hash(SubRow(t0[alpha], t0[beta], m));
          var h01 := hash(SubRow(t0[alpha], t1[beta], m));
          var h10 := hash(SubRow(t1[alpha], t0[beta], m));
          var h11 := hash(SubRow(t1[alpha], t1[beta], m));
          row := row + [Hashes(h00, h01, h10, h11)];
        }
        os := os + [row];
      }
      forall k, i | 0 <= k < S && 0 <= i < |challenges[k]|
        ensures var b := challenges[k][i]; var x0, x1, y0, y1 := t0[k], t1[k], t0[b], t1[b];
                && os[k][i].Get(0, 0) == hash(seq(n, j requires 0 <= j < n => (x0[j] - y0[j]) % m))
                && os[k][i].Get(0, 1) == hash(seq(n, j requires 0 <= j < n => (x0[j] - y1[j]) % m))
                && os[k][i].Get(1, 0) == hash(seq(n, j requires 0 <= j < n => (x1[j] - y0[j]) % m))
                && os[k][i].Get(1, 1) == hash(seq(n, j requires 0 <= j < n => (x1[j] - y1[j]) % m))
      {
        HashesMean(t0[k], t1[k], t0[challenges[k][i]], t1[challenges[k][i]], hash, n, m);
      }
    }

    /** The receiver's side: false stands for the exception. */
    method CheckHashes(os: seq<seq<Hashes>>, challenges: seq<seq<nat>>, hash: Line -> int, n: nat) returns (ok: bool)
      requires m > 0 && |u| == |t| == |baseReceiverInput| == S && Lines(u, n) && Lines(t, n)
      requires ValidChallenges(challenges, S) && |os| == S && forall k :: 0 <= k < S ==> |os[k]| == |challenges[k]|
      ensures ok <==> forall k, i :: 0 <= k < S && 0 <= i < |challenges[k]| ==>
        Passes(os[k][i], k, challenges[k][i], u, t, baseReceiverInput, hash, m)
      ensures ok <==> forall k, i :: 0 <= k < S && 0 <= i < |challenges[k]| ==>
        var b, bits := challenges[k][i], baseReceiverInput; var ta, tb, ua, ub := t[k], t[b], u[k], u[b];
        && os[k][i].Get(bits[k], bits[b]) == hash(seq(n, j requires 0 <= j < n => (ta[j] - tb[j]) % m))
        && os[k][i].Get(1 - bits[k], 1 - bits[b])
           == hash(seq(n, j requires 0 <= j < n => (ua[j] - ub[j] - ta[j] + tb[j]) % m))
        && (k == b || ua != ub)
    {
      forall k, i | 0 <= k < S && 0 <= i < |challenges[k]|
        ensures var b, bits := challenges[k][i], baseReceiverInput; var ta, tb, ua, ub := t[k], t[b], u[k], u[b];
                Passes(os[k][i], k, b, u, t, bits, hash, m) <==>
                  && os[k][i].Get(bits[k], bits[b]) == hash(seq(n, j requires 0 <= j < n => (ta[j] - tb[j]) % m))
                  && os[k][i].Get(1 - bits[k], 1 - bits[b])
                     == hash(seq(n, j requires 0 <= j < n => (ua[j] - ub[j] - ta[j] + tb[j]) % m))
                  && (k == b || ua != ub)
      {
        PassesMeans(os[k][i], k, challenges[k][i], u, t, baseReceiverInput, hash, n, m);
      }
      for alpha := 0 to S
        invariant forall k, i :: 0 <= k < alpha && 0 <= i < |challenges[k]| ==>
          Passes(os[k][i], k, challenges[k][i], u, t, baseReceiverInput, hash, m)
      {
        for i := 0 to |challenges[alpha]|
          invariant forall k :: 0 <= k < i ==>
            Passes(os[alpha][k], alpha, challenges[alpha][k], u, t, baseReceiverInput, hash, m)
        {
          var beta := challenges[alpha][i];
          var choiceAlpha, choiceBeta := baseReceiverInput[alpha], baseReceiverInput[beta];
          var diff := hash(SubRow(t[alpha], t[beta], m));
          var other := hash(AddRow(SubRow(SubRow(u[alpha], u[beta], m), t[alpha], m), t[beta], m));
          if os[alpha][i].Get(choiceAlpha, choiceBeta) != diff { return false; }
          if os[alpha][i].Get(1 - choiceAlpha, 1 - choiceBeta) != other { return false; }
          if alpha != beta && u[alpha] == u[beta] { return false; }
        }
      }
      ok := true;
    }
  }

  lemma SubtractedTerm(r: int, s: int, x: int, w: int, m: int)
    requires m > 0 && r % m == s % m
    ensures Sub(r, (x * w) % m, m) % m == (s - x * w) % m
  {
    SubModBoth(r, x * w, m);
    ModMod(r - x * w, m);
    CongSub(r, s, x * w, x * w, m);
  }

  // ----- what the two halves establish

  function Chosen(u: Line, t: Line, bit: int, m: int): Line
    requires m > 0 && |u| == |t|
  {
    if bit == 1 then SubRow(u, t, m) else t
  }

  ghost predicate Corrections(us: seq<Line>, t0: seq<Line>, t1: seq<Line>, x: Line, m: int) {
    && m > 0 && |us| == |t0| == |t1| && Lines(t0, |x|) && Lines(t1, |x|) && Lines(us, |x|)
    && forall k {:trigger Row(k)} :: Row(k) && 0 <= k < |us| ==> us[k] == AddRow(AddRow(x, t1[k], m), t0[k], m)
  }

  ghost predicate Received(a: seq<Line>, us: seq<Line>, t: seq<Line>, bits: seq<int>, m: int) {
    && m > 0 && |a| == |us| == |t| == |bits|
    && forall k {:trigger Row(k)} :: Row(k) && 0 <= k < |a| ==>
      |us[k]| == |t[k]| && a[k] == Chosen(us[k], t[k], bits[k], m)
  }

  /** What the base OTs give: by each bit, the rows are the peer's t0 or t1. */
  ghost predicate BaseTransferred(t: seq<Line>, t0: seq<Line>, t1: seq<Line>, bits: seq<int>) {
    && |t| == |t0| == |t1| == |bits|
    && forall k {:trigger Row(k)} :: Row(k) && 0 <= k < |t| ==> t[k] == if bits[k] == 1 then t1[k] else t0[k]
  }

  ghost predicate Weighed(z: Line, a: seq<Line>, t0: seq<Line>, n: nat, m: int) {
    && m > 0 && |z| == n && Lines(a, n + 1) && Lines(t0, n + 1)
    && forall j :: 0 <= j < n ==> z[j] % m == (BitsVal(Component(a, j)) - BitsVal(Component(t0, j))) % m
  }

  ghost predicate ValidChallenges(challenges: seq<seq<nat>>, S: nat) {
    |challenges| == S && forall k, i :: 0 <= k < S && 0 <= i < |challenges[k]| ==> challenges[k][i] < S
  }

  ghost function HashesFor(t0a: Line, t1a: Line, t0b: Line, t1b: Line, hash: Line -> int, m: int): Hashes
    requires m > 0 && |t0a| == |t1a| == |t0b| == |t1b|
  {
    Hashes(hash(SubRow(t0a, t0b, m)), hash(SubRow(t0a, t1b, m)), hash(SubRow(t1a, t0b, m)), hash(SubRow(t1a, t1b, m)))
  }

  ghost predicate Passes(h: Hashes, alpha: nat, beta: nat, u: seq<Line>, t: seq<Line>, bits: seq<int>, hash: Line -> int, m: int)
    requires m > 0 && alpha < |u| && beta < |u| && |u| == |t| == |bits|
    requires |u[alpha]| == |u[beta]| == |t[alpha]| == |t[beta]|
  {
    && h.Get(bits[alpha], bits[beta]) == hash(SubRow(t[alpha], t[beta], m))
    && h.Get(1 - bits[alpha], 1 - bits[beta])
       == hash(AddRow(SubRow(SubRow(u[alpha], u[beta], m), t[alpha], m), t[beta], m))
    && !(alpha != beta && u[alpha] == u[beta])
  }

  // ----- the same by plain indexing

  lemma DifferenceMeans(a: Line, b: Line, n: nat, m: int)
    requires m > 0 && |a| == |b| == n
    ensures SubRow(a, b, m) == seq(n, j requires 0 <= j < n => (a[j] - b[j]) % m)
  {}

  lemma ComponentMeans(rows: seq<Line>, S: nat, j: nat)
    requires |rows| == S && forall i :: 0 <= i < S ==> j < |rows[i]|
    ensures Component(rows, j) == seq(S, k requires 0 <= k < S => rows[k][j])
  {}

  lemma CorrectionsMean(us: seq<Line>, t0: seq<Line>, t1: seq<Line>, input: seq<int>, extra: int, m: int)
    requires Corrections(us, t0, t1, input + [extra], m)
    ensures forall k, j :: 0 <= k < |us| && 0 <= j < |input| + 1 ==>
      us[k][j] == ((if j < |input| then input[j] else extra) + t1[k][j] + t0[k][j]) % m
  {
    forall k, j | 0 <= k < |us| && 0 <= j < |input| + 1
      ensures us[k][j] == ((if j < |input| then input[j] else extra) + t1[k][j] + t0[k][j]) % m
    {
      assert Row(k);
      var x := (input + [extra])[j];
      CorrectionComponent(x, t0[k][j], t1[k][j], m);
      ModMod(Add(x, t1[k][j], m) + t0[k][j], m);
    }
  }

  lemma HashesMean(t0a: Line, t1a: Line, t0b: Line, t1b: Line, hash: Line -> int, n: nat, m: int)
    requires m > 0 && |t0a| == |t1a| == |t0b| == |t1b| == n
    ensures var h := HashesFor(t0a, t1a, t0b, t1b, hash, m);
            && h.Get(0, 0) == hash(seq(n, j requires 0 <= j < n => (t0a[j] - t0b[j]) % m))
            && h.Get(0, 1) == hash(seq(n, j requires 0 <= j < n => (t0a[j] - t1b[j]) % m))
            && h.Get(1, 0) == hash(seq(n, j requires 0 <= j < n => (t1a[j] - t0b[j]) % m))
            && h.Get(1, 1) == hash(seq(n, j requires 0 <= j < n => (t1a[j] - t1b[j]) % m))
  {
    DifferenceMeans(t0a, t0b, n, m);
    DifferenceMeans(t0a, t1b, n, m);
    DifferenceMeans(t1a, t0b, n, m);
    DifferenceMeans(t1a, t1b, n, m);
  }

  lemma PassesMeans(h: Hashes, alpha: nat, beta: nat, u: seq<Line>, t: seq<Line>, bits: seq<int>, hash: Line -> int, n: nat, m: int)
    requires m > 0 && alpha < |u| && beta < |u| && |u| == |t| == |bits|
    requires |u[alpha]| == |u[beta]| == |t[alpha]| == |t[beta]| == n
    ensures var ta, tb, ua, ub := t[alpha], t[beta], u[alpha], u[beta];
            Passes(h, alpha, beta, u, t, bits, hash, m) <==>
              && h.Get(bits[alpha], bits[beta]) == hash(seq(n, j requires 0 <= j < n => (ta[j] - tb[j]) % m))
              && h.Get(1 - bits[alpha], 1 - bits[beta])
                 == hash(seq(n, j requires 0 <= j < n => (ua[j] - ub[j] - ta[j] + tb[j]) % m))
              && (alpha == beta || ua != ub)
  {
    DifferenceMeans(t[alpha], t[beta], n, m);
    OtherRowMeans(u[alpha], u[beta], t[alpha], t[beta], n, m);
  }

  lemma OtherRowMeans(ua: Line, ub: Line, ta: Line, tb: Line, n: nat, m: int)
    requires m > 0 && |ua| == |ub| == |ta| == |tb| == n
    ensures AddRow(SubRow(SubRow(ua, ub, m), ta, m), tb, m)
         == seq(n, j requires 0 <= j < n => (ua[j] - ub[j] - ta[j] + tb[j]) % m)
  {
    forall j | 0 <= j < n
      ensures Add(Sub(Sub(ua[j], ub[j], m), ta[j], m), tb[j], m) == (ua[j] - ub[j] - ta[j] + tb[j]) % m
    {
      DifferenceOfFour(ua[j], ub[j], ta[j], tb[j], m);
    }
  }

  lemma DifferenceOfFour(ua: int, ub: int, ta: int, tb: int, m: int)
    requires m > 0
    ensures Add(Sub(Sub(ua, ub, m), ta, m), tb, m) == (ua - ub - ta + tb) % m
  {
    var v := Sub(ua, ub, m);
    var w := Sub(v, ta, m);
    ModMod(ua - ub, m);
    CongSub(v, ua - ub, ta, ta, m);
    ModMod(v - ta, m);
    CongAdd(w, ua - ub - ta, tb, tb, m);
  }

  // ----- the product

  /** a = t0 + bit x, one component of one row. */
  lemma ChosenComponent(x: int, t0: int, t1: int, bit: int, a: int, m: int)
    requires m > 0 && Bit(bit)
    requires a == if bit == 1 then Sub(Add(Add(x, t1, m), t0, m), t1, m) else t0
    ensures (a - t0) % m == (bit * x) % m
  {
    if bit == 1 {
      var v := Add(x, t1, m);
      var w := Add(v, t0, m);
      ModMod(x + t1, m);
      CongAdd(v, x + t1, t0, t0, m);
      ModMod(v + t0, m);
      CongSub(w, x + t1 + t0, t1, t1, m);
      ModMod(w - t1, m);
      CongSub(a, x + t0, t0, t0, m);
    }
  }

  /** One direction: the receiver's rows minus the sender's t0 weigh to the choice bits times x. */
  lemma DirectionProduct(a: seq<Line>, us: seq<Line>, t: seq<Line>, bits: seq<int>, t0: seq<Line>, t1: seq<Line>,
                         x: Line, j: nat, m: int)
    requires Received(a, us, t, bits, m) && Corrections(us, t0, t1, x, m) && BaseTransferred(t, t0, t1, bits)
    requires Bits(bits) && j < |x| && Lines(a, |x|)
    ensures (BitsVal(Component(a, j)) - BitsVal(Component(t0, j))) % m == (BitsVal(bits) * x[j]) % m
  {
    var ca, ct := Component(a, j), Component(t0, j);
    forall i | 0 <= i < |bits| ensures RowDiffers(ca, ct, bits, x[j], i, m) {
      ComponentDiffers(a, us, t, bits, t0, t1, x, i, j, m);
    }
    hide Component;
    WeightedProduct(ca, ct, bits, x[j], m);
  }

  lemma ComponentDiffers(a: seq<Line>, us: seq<Line>, t: seq<Line>, bits: seq<int>, t0: seq<Line>, t1: seq<Line>,
                         x: Line, i: nat, j: nat, m: int)
    requires Received(a, us, t, bits, m) && Corrections(us, t0, t1, x, m) && BaseTransferred(t, t0, t1, bits)
    requires Bits(bits) && j < |x| && Lines(a, |x|) && i < |bits|
    ensures RowDiffers(Component(a, j), Component(t0, j), bits, x[j], i, m)
  {
    assert Row(i);
    assert Bit(bits[i]);
    ChosenComponent(x[j], t0[i][j], t1[i][j], bits[i], a[i][j], m);
  }

  /** The outputs of both parties, each a row sum of the received minus the own rows, are shares of
      Delta_P x_Q + Delta_Q x_P in every component. */
  lemma OutputsAddUp(zP: Line, zQ: Line, aP: seq<Line>, t0P: seq<Line>, aQ: seq<Line>, t0Q: seq<Line>, n: nat, j: nat,
                     x: int, y: int, m: int)
    requires Weighed(zP, aP, t0P, n, m) && Weighed(zQ, aQ, t0Q, n, m) && j < n
    requires (BitsVal(Component(aP, j)) - BitsVal(Component(t0Q, j))) % m == x % m
    requires (BitsVal(Component(aQ, j)) - BitsVal(Component(t0P, j))) % m == y % m
    ensures (zP[j] + zQ[j]) % m == (x + y) % m
  {
    var vP, wP, vQ, wQ := BitsVal(Component(aP, j)), BitsVal(Component(t0P, j)), BitsVal(Component(aQ, j)), BitsVal(Component(t0Q, j));
    CongAdd(zP[j], vP - wP, zQ[j], vQ - wQ, m);
    CongAdd(vP - wQ, x, vQ - wP, y, m);
    assert (vP - wP) + (vQ - wQ) == (vP - wQ) + (vQ - wP);
  }

  // ----- the consistency check

  /** u_a - u_b - t_a + t_b = t'_a - t'_b where t' are the rows that were not chosen. */
  lemma OtherComponent(x: int, ta: int, oa: int, tb: int, ob: int, ua: int, ub: int, m: int)
    requires m > 0 && ua % m == (x + ta + oa) % m && ub % m == (x + tb + ob) % m
    ensures Add(Sub(Sub(ua, ub, m), ta, m), tb, m) == Sub(oa, ob, m)
  {
    var v := Sub(ua, ub, m);
    var w := Sub(v, ta, m);
    CongSub(ua, x + ta + oa, ub, x + tb + ob, m);
    ModMod(ua - ub, m);
    CongSub(v, (x + ta + oa) - (x + tb + ob), ta, ta, m);
    ModMod(v - ta, m);
    CongAdd(w, oa - tb - ob, tb, tb, m);
  }

  lemma CorrectionComponent(x: int, t0: int, t1: int, m: int)
    requires m > 0
    ensures Add(Add(x, t1, m), t0, m) % m == (x + t1 + t0) % m
  {
    var v := Add(x, t1, m);
    ModMod(x + t1, m);
    CongAdd(v, x + t1, t0, t0, m);
    ModMod(v + t0, m);
  }

  lemma OtherDifference(us: seq<Line>, t: seq<Line>, bits: seq<int>, t0: seq<Line>, t1: seq<Line>, x: Line,
                        alpha: nat, beta: nat, m: int)
    requires Corrections(us, t0, t1, x, m) && BaseTransferred(t, t0, t1, bits) && alpha < |us| && beta < |us|
    ensures |t[alpha]| == |t[beta]| == |x|
    ensures AddRow(SubRow(SubRow(us[alpha], us[beta], m), t[alpha], m), t[beta], m)
         == SubRow(if bits[alpha] == 1 then t0[alpha] else t1[alpha], if bits[beta] == 1 then t0[beta] else t1[beta], m)
  {
    assert Row(alpha) && Row(beta);
    var oa, ob := if bits[alpha] == 1 then t0[alpha] else t1[alpha], if bits[beta] == 1 then t0[beta] else t1[beta];
    forall j | 0 <= j < |x|
      ensures Add(Sub(Sub(us[alpha][j], us[beta][j], m), t[alpha][j], m), t[beta][j], m) == Sub(oa[j], ob[j], m)
    {
      CorrectionComponent(x[j], t0[alpha][j], t1[alpha][j], m);
      CorrectionComponent(x[j], t0[beta][j], t1[beta][j], m);
      OtherComponent(x[j], t[alpha][j], oa[j], t[beta][j], ob[j], us[alpha][j], us[beta][j], m);
    }
  }

  /** Between honest parties both hash comparisons succeed for every challenge; what remains of the check
      is that two different rows carry different corrections. */
  lemma HonestCheck(us: seq<Line>, t: seq<Line>, bits: seq<int>, t0: seq<Line>, t1: seq<Line>, x: Line,
                    alpha: nat, beta: nat, hash: Line -> int, m: int)
    requires Corrections(us, t0, t1, x, m) && BaseTransferred(t, t0, t1, bits) && Bits(bits)
    requires alpha < |us| && beta < |us|
    ensures |t[alpha]| == |t[beta]| == |x|
    ensures Passes(HashesFor(t0[alpha], t1[alpha], t0[beta], t1[beta], hash, m), alpha, beta, us, t, bits, hash, m)
       <==> alpha == beta || us[alpha] != us[beta]
  {
    assert Row(alpha) && Row(beta) && Bit(bits[alpha]) && Bit(bits[beta]);
    OtherDifference(us, t, bits, t0, t1, x, alpha, beta, m);
  }

  // ----- the run of both parties

  datatype Evaluation = Outputs(p: Line, q: Line) | CheckFailed | InvalidShift

  /** Rows k and l of the sender's random pairs have the same sum. */
  ghost predicate SameSums(t0: seq<Line>, t1: seq<Line>, k: nat, l: nat, m: int)
    requires m > 0 && k < |t0| == |t1| && l < |t0|
  {
    && |t0[k]| == |t1[k]| == |t0[l]| == |t1[l]|
    && forall j :: 0 <= j < |t0[k]| ==> (t0[k][j] + t1[k][j]) % m == (t0[l][j] + t1[l][j]) % m
  }

  /** No two different rows compared by a challenge have the same sum. */
  ghost predicate DistinctSums(t0: seq<Line>, t1: seq<Line>, challenges: seq<seq<nat>>, m: int)
    requires m > 0 && |t0| == |t1|
  {
    forall k, i :: 0 <= k < |challenges| && k < |t0| && 0 <= i < |challenges[k]| && challenges[k][i] < |t0| ==>
      k == challenges[k][i] || !SameSums(t0, t1, k, challenges[k][i], m)
  }

  /** Whatever the sender's vector is, corrections coincide exactly for rows with the same sum. */
  lemma SameCorrections(us: seq<Line>, t0: seq<Line>, t1: seq<Line>, x: Line, k: nat, l: nat, m: int)
    requires Corrections(us, t0, t1, x, m) && k < |us| && l < |us|
    ensures us[k] == us[l] <==> SameSums(t0, t1, k, l, m)
  {
    assert Row(k) && Row(l);
    forall j | 0 <= j < |x|
      ensures us[k][j] == us[l][j] <==> (t0[k][j] + t1[k][j]) % m == (t0[l][j] + t1[l][j]) % m
    {
      CorrectionsAgree(x[j], t0[k][j], t1[k][j], t0[l][j], t1[l][j], m);
    }
  }

  lemma CorrectionsAgree(x: int, t0: int, t1: int, s0: int, s1: int, m: int)
    requires m > 0
    ensures Add(Add(x, t1, m), t0, m) == Add(Add(x, s1, m), s0, m) <==> (t0 + t1) % m == (s0 + s1) % m
  {
    CorrectionComponent(x, t0, t1, m);
    CorrectionComponent(x, s0, s1, m);
    ModMod(Add(x, t1, m) + t0, m);
    ModMod(Add(x, s1, m) + s0, m);
    CongIffDiff(x + t1 + t0, x + s1 + s0, m);
    CongIffDiff(t0 + t1, s0 + s1, m);
  }

  /** Some challenge makes the check fail between honest parties exactly when two rows have the same sum. */
  lemma SomeChallengeFails(t0: seq<Line>, t1: seq<Line>, m: int)
    requires m > 0 && |t0| == |t1|
    ensures (exists ch :: ValidChallenges(ch, |t0|) && !DistinctSums(t0, t1, ch, m)) <==>
            (exists k: nat, l: nat :: k < |t0| && l < |t0| && k != l && SameSums(t0, t1, k, l, m))
  {
    if k: nat, l: nat :| k < |t0| && l < |t0| && k != l && SameSums(t0, t1, k, l, m) {
      var ch: seq<seq<nat>> := seq(|t0|, _ => [l]);
      assert ch[k][0] == l;
      assert ValidChallenges(ch, |t0|) && !DistinctSums(t0, t1, ch, m);
    }
    if ch :| ValidChallenges(ch, |t0|) && !DistinctSums(t0, t1, ch, m) {
      var k: nat, i: nat :| k < |ch| && i < |ch[k]| && k != ch[k][i] && SameSums(t0, t1, k, ch[k][i], m);
      var l: nat := ch[k][i];
      assert SameSums(t0, t1, k, l, m);
    }
  }

  /** Two honest rows of different values that a challenge refuses. */
  lemma HonestRefusal()
    ensures ValidChallenges([[1], [0]], 2) && !DistinctSums([[1], [0]], [[0], [1]], [[1], [0]], 2)
  {
    var t0: seq<Line>, t1: seq<Line>, ch: seq<seq<nat>> := [[1], [0]], [[0], [1]], [[1], [0]];
    assert ch[0][0] == 1 && SameSums(t0, t1, 0, 1, 2);
    assert !DistinctSums(t0, t1, ch, 2);
  }

  /** The check of one direction. */
  method Check(sender: OTVole, receiver: OTVole, challenges: seq<seq<nat>>, hash: Line -> int, n: nat) returns (ok: bool)
    requires sender.m == receiver.m && sender.S == receiver.S == |receiver.baseReceiverInput| && Bits(receiver.baseReceiverInput)
    requires Corrections(receiver.u, sender.t0, sender.t1, sender.corrPrime, sender.m) && |receiver.u| == sender.S
    requires BaseTransferred(receiver.t, sender.t0, sender.t1, receiver.baseReceiverInput) && n == |sender.corrPrime|
    requires ValidChallenges(challenges, sender.S)
    ensures ok <==> DistinctSums(sender.t0, sender.t1, challenges, sender.m)
  {
    var os := sender.SendHashes(challenges, hash, n);
    forall k | 0 <= k < receiver.S ensures |receiver.t[k]| == n { assert Row(k); }
    ok := receiver.CheckHashes(os, challenges, hash, n);
    forall k, i | 0 <= k < sender.S && 0 <= i < |challenges[k]|
      ensures Passes(os[k][i], k, challenges[k][i], receiver.u, receiver.t, receiver.baseReceiverInput, hash, receiver.m)
         <==> (k == challenges[k][i] || !SameSums(sender.t0, sender.t1, k, challenges[k][i], sender.m))
    {
      SameCorrections(receiver.u, sender.t0, sender.t1, sender.corrPrime, k, challenges[k][i], sender.m);
      HonestCheck(receiver.u, receiver.t, receiver.baseReceiverInput, sender.t0, sender.t1, sender.corrPrime,
                  k, challenges[k][i], hash, sender.m);
    }
  }

  /** One direction up to the check. */
  method Transfer(sender: OTVole, receiver: OTVole, x: seq<int>, extra: int, rnd0: seq<Line>, rnd1: seq<Line>, rnd: seq<Line>)
    requires sender != receiver && sender.m == receiver.m > 0 && sender.S == receiver.S == |receiver.baseReceiverInput|
    requires |rnd0| == |rnd1| == |rnd| == sender.S
    requires Lines(rnd0, |x| + 1) && Lines(rnd1, |x| + 1) && BaseTransferred(rnd, rnd0, rnd1, receiver.baseReceiverInput)
    modifies sender`corrPrime, sender`t0, sender`t1, receiver`u, receiver`t, receiver`a
    ensures sender.t0 == rnd0 && sender.t1 == rnd1 && receiver.t == rnd && sender.corrPrime == x + [extra]
    ensures Corrections(receiver.u, sender.t0, sender.t1, sender.corrPrime, sender.m) && |receiver.u| == sender.S
    ensures Received(receiver.a, receiver.u, receiver.t, receiver.baseReceiverInput, receiver.m)
    ensures Lines(receiver.a, |x| + 1)
  {
    var os := sender.SendCorrections(x, extra, rnd0, rnd1);
    forall k | 0 <= k < |rnd| ensures |rnd[k]| == |x| + 1 { assert Row(k); }
    receiver.ReceiveCorrections(os, rnd, |x| + 1);
    forall k | 0 <= k < |receiver.a| ensures |receiver.a[k]| == |x| + 1 { assert Row(k); }
  }

  /** The outputs of both parties are shares of the two products, in every component. */
  ghost predicate SharesOfProducts(zP: Line, zQ: Line, bitsP: seq<int>, bitsQ: seq<int>, xP: seq<int>, xQ: seq<int>, m: int) {
    && m > 0 && |zP| == |zQ| == |xP| == |xQ|
    && forall j {:trigger zP[j]} :: 0 <= j < |zP| ==>
         (zP[j] + zQ[j]) % m == (BitsVal(bitsP) * xQ[j] + BitsVal(bitsQ) * xP[j]) % m
  }

  lemma BothDirections(zP: Line, zQ: Line, aP: seq<Line>, uP: seq<Line>, tP: seq<Line>, bitsP: seq<int>, p0: seq<Line>, p1: seq<Line>,
                       aQ: seq<Line>, uQ: seq<Line>, tQ: seq<Line>, bitsQ: seq<int>, q0: seq<Line>, q1: seq<Line>,
                       xP: seq<int>, xQ: seq<int>, extraP: int, extraQ: int, m: int)
    requires |xP| == |xQ| && Bits(bitsP) && Bits(bitsQ)
    requires Received(aP, uP, tP, bitsP, m) && Corrections(uP, q0, q1, xQ + [extraQ], m) && BaseTransferred(tP, q0, q1, bitsP)
    requires Received(aQ, uQ, tQ, bitsQ, m) && Corrections(uQ, p0, p1, xP + [extraP], m) && BaseTransferred(tQ, p0, p1, bitsQ)
    requires Weighed(zP, aP, p0, |xP|, m) && Weighed(zQ, aQ, q0, |xP|, m)
    ensures SharesOfProducts(zP, zQ, bitsP, bitsQ, xP, xQ, m)
  {
    forall j | 0 <= j < |xP| ensures (zP[j] + zQ[j]) % m == (BitsVal(bitsP) * xQ[j] + BitsVal(bitsQ) * xP[j]) % m {
      DirectionProduct(aP, uP, tP, bitsP, q0, q1, xQ + [extraQ], j, m);
      DirectionProduct(aQ, uQ, tQ, bitsQ, p0, p1, xP + [extraP], j, m);
      OutputsAddUp(zP, zQ, aP, p0, aQ, q0, |xP|, j, BitsVal(bitsP) * xQ[j], BitsVal(bitsQ) * xP[j], m);
    }
  }

  /** Both parties in both roles: with honest parties the evaluation succeeds unless the shift is too
      wide or two compared rows of random pairs have the same sum, and then the outputs are shares of
      Delta_P x_Q + Delta_Q x_P in every component. */
  method Evaluate(p: OTVole, q: OTVole, xP: seq<int>, xQ: seq<int>, extraP: int, extraQ: int,
                  p0: seq<Line>, p1: seq<Line>, pGot: seq<Line>, q0: seq<Line>, q1: seq<Line>, qGot: seq<Line>,
                  challengesP: seq<seq<nat>>, challengesQ: seq<seq<nat>>, hashP: Line -> int, hashQ: Line -> int,
                  passiveOnly: bool, width: nat) returns (r: Evaluation)
    requires p != q && p.m == q.m > 0 && p.S == q.S == |p.baseReceiverInput| == |q.baseReceiverInput| && |xP| == |xQ|
    requires Bits(p.baseReceiverInput) && Bits(q.baseReceiverInput)
    requires |p0| == |p1| == |q0| == |q1| == p.S
    requires Lines(p0, |xP| + 1) && Lines(p1, |xP| + 1) && Lines(q0, |xP| + 1) && Lines(q1, |xP| + 1)
    requires BaseTransferred(pGot, q0, q1, p.baseReceiverInput) && BaseTransferred(qGot, p0, p1, q.baseReceiverInput)
    requires ValidChallenges(challengesP, p.S) && ValidChallenges(challengesQ, p.S)
    modifies p, q
    ensures Corrections(q.u, p0, p1, xP + [extraP], p.m) && Corrections(p.u, q0, q1, xQ + [extraQ], q.m)
    ensures r.CheckFailed? <==>
      !passiveOnly && !(DistinctSums(p0, p1, challengesQ, p.m) && DistinctSums(q0, q1, challengesP, p.m))
    ensures r.InvalidShift? <==> !r.CheckFailed? && p.S > width
    ensures r.Outputs? ==> |r.p| == |r.q| == |xP|
    ensures r.Outputs? ==> forall j {:trigger r.p[j]} :: 0 <= j < |xP| ==>
      (r.p[j] + r.q[j]) % p.m == (BitsVal(old(p.baseReceiverInput)) * xQ[j] + BitsVal(old(q.baseReceiverInput)) * xP[j]) % p.m
  {
    var n := |xP|;
    Transfer(p, q, xP, extraP, p0, p1, qGot);
    Transfer(q, p, xQ, extraQ, q0, q1, pGot);
    if !passiveOnly {
      var okQ := Check(p, q, challengesQ, hashP, n + 1);
      if !okQ { return CheckFailed; }
      var okP := Check(q, p, challengesP, hashQ, n + 1);
      if !okP { return CheckFailed; }
    }
    var zP := p.Output(n, width);
    var zQ := q.Output(n, width);
    if zP.InvalidLength? { return InvalidShift; }
    r := Outputs(zP.value, zQ.value);
    BothDirections(zP.value, zQ.value, p.a, p.u, p.t, p.baseReceiverInput, p0, p1, q.a, q.u, q.t, q.baseReceiverInput, q0, q1,
                   xP, xQ, extraP, extraQ, p.m);
  }
}
