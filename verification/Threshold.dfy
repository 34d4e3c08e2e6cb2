/** Verifiable secret sharing and distributed key generation, POC/vss.cpp and POC/bls.cpp. */
module Threshold {
  import opened Arith
  import opened NumberTheory
  import opened OnlineOp
  import opened Lagrange
  import opened Group

  /** The public parameters: the prime order, the first group and its base point. */
  datatype Setup<!G(!new)> = Setup(g: Grp<G>, base: G, r: nat)

  ghost predicate ValidSetup<G(!new)>(s: Setup<G>) {
    IsGroup(s.g, s.r) && Prime(s.r) && s.base != s.g.zero
  }

  ghost predicate Scalars(c: seq<int>, r: nat) {
    forall i :: 0 <= i < |c| ==> 0 <= c[i] < r
  }

  // ----- commitments to polynomials

  function Commits<G(!new)>(s: Setup<G>, c: seq<int>): (a: seq<G>)
    requires forall i :: 0 <= i < |c| ==> c[i] >= 0
    ensures |a| == |c|
  {
    seq(|c|, i requires 0 <= i < |c| => Smul(s.g, c[i], s.base))
  }

  /** The library's evaluation of a polynomial with group coefficients. */
  function GroupEval<G(!new)>(g: Grp<G>, aux: seq<G>, x: nat): G
  {
    if |aux| == 0 then g.zero else g.add(aux[0], Smul(g, x, GroupEval(g, aux[1..], x)))
  }

  lemma {:induction false} EvalNonnegative(c: seq<int>, x: nat)
    requires forall i :: 0 <= i < |c| ==> c[i] >= 0
    ensures Eval(c, x) >= 0
  {
    if |c| > 0 { EvalNonnegative(c[1..], x); }
  }

  /** Evaluating the commitments commits to the value. */
  lemma {:induction false} CommitmentOfValue<G(!new)>(s: Setup<G>, c: seq<int>, x: nat)
    requires ValidSetup(s) && forall i :: 0 <= i < |c| ==> c[i] >= 0
    ensures Eval(c, x) >= 0 && GroupEval(s.g, Commits(s, c), x) == Smul(s.g, Eval(c, x), s.base)
  {
    EvalNonnegative(c, x);
    if |c| > 0 {
      var rest := c[1..];
      CommitmentOfValue(s, rest, x);
      assert Commits(s, c)[1..] == Commits(s, rest);
      SmulMul(s.g, s.r, x, Eval(rest, x), s.base);
      SmulAdd(s.g, s.r, c[0], x * Eval(rest, x), s.base);
    }
  }

  method VerifyShare<G(!new, ==)>(s: Setup<G>, share: nat, aux: seq<G>, n: nat) returns (res: bool)
    ensures res <==> Smul(s.g, share, s.base) == GroupEval(s.g, aux, n)
    ensures ValidSetup(s) && share < s.r ==>
      forall c :: Scalars(c, s.r) && aux == Commits(s, c) ==> (res <==> share == Eval(c, n) % s.r)
  {
    var ret := Smul(s.g, share, s.base);
    var retEval := GroupEval(s.g, aux, n);
    res := ret == retEval;
    if ValidSetup(s) && share < s.r {
      forall c | Scalars(c, s.r) && aux == Commits(s, c) ensures res <==> share == Eval(c, n) % s.r {
        CheckIsExact(s, c, share, n);
      }
    }
  }

  /** The check accepts a share exactly when it is the value of the committed polynomial. */
  lemma CheckIsExact<G(!new)>(s: Setup<G>, c: seq<int>, share: nat, n: nat)
    requires ValidSetup(s) && Scalars(c, s.r) && share < s.r
    ensures Smul(s.g, share, s.base) == GroupEval(s.g, Commits(s, c), n) <==> share == Eval(c, n) % s.r
  {
    CommitmentOfValue(s, c, n);
    SmulInjective(s.g, s.r, share, Eval(c, n), s.base);
    Small(share, s.r);
  }

  datatype VssResult<G> = Dealt(shares: seq<int>, aux: seq<G>) | InvalidSetting

  /** Deals the polynomial with constant term `secret` and the random coefficients `rnd`, whose
      number is the threshold. */
  method GenShare<G(!new)>(s: Setup<G>, secret: int, rnd: seq<int>, nparty: nat) returns (res: VssResult<G>)
    requires ValidSetup(s) && Scalars([secret] + rnd, s.r) && nparty < s.r
    ensures res.InvalidSetting? <==> |rnd| > nparty
    ensures res.Dealt? ==> res.shares == Shares([secret] + rnd, nparty, s.r)
    ensures res.Dealt? ==> res.aux == Commits(s, [secret] + rnd)
    ensures res.Dealt? ==> |res.shares| == nparty && forall i :: 0 <= i < nparty ==>
      res.shares[i] == Eval([secret] + rnd, i + 1) % s.r
    ensures res.Dealt? ==> |res.aux| == |rnd| + 1 && forall i :: 0 <= i < |res.aux| ==>
      var c := ([secret] + rnd)[i]; c >= 0 && res.aux[i] == Smul(s.g, c, s.base)
  {
    if |rnd| > nparty {
      return InvalidSetting;
    }
    var coeff := [secret] + rnd;
    var aux := [Smul(s.g, coeff[0], s.base)];
    for i := 1 to |coeff|
      invariant |aux| == i && forall j :: 0 <= j < i ==> aux[j] == Smul(s.g, coeff[j], s.base)
    {
      aux := aux + [Smul(s.g, coeff[i], s.base)];
    }
    var shares: seq<int> := [];
    for i := 1 to nparty + 1
      invariant |shares| == i - 1 && forall j :: 0 <= j < i - 1 ==> shares[j] == Eval(coeff, j + 1) % s.r
    {
      shares := shares + [Eval(coeff, i) % s.r];
    }
    assert aux == Commits(s, coeff);
    assert shares == Shares(coeff, nparty, s.r);
    res := Dealt(shares, aux);
  }

  // ----- key generation

  datatype Opening<D> = Opened(data: D) | Rejected

  /** A commitment scheme by its two functions. */
  datatype Scheme<!D(!new), !C(!new)> = Scheme(commit: (D, int) -> C, open: (C, D, int) -> Opening<D>)

  ghost predicate Correct<D(!new), C(!new)>(sch: Scheme<D, C>) {
    forall d, w :: sch.open(sch.commit(d, w), d, w) == Opened(d)
  }

  /** What one party receives from one other: a commitment to the first coefficient and its opening,
      a share, and the commitments to all coefficients. */
  datatype Message<G, C> = Message(comm: C, data: G, coins: int, share: int, aux: seq<G>)

  datatype KeygenResult = KeyOk | InvalidCommitment

  /** The three checks on the message of another party. */
  ghost predicate Passes<G(!new), C(!new)>(s: Setup<G>, sch: Scheme<G, C>, m: Message<G, C>, n: nat)
    requires |m.aux| >= 1 && m.share >= 0
  {
    && sch.open(m.comm, m.data, m.coins) == Opened(m.aux[0])
    && Smul(s.g, m.share, s.base) == GroupEval(s.g, m.aux, n)
  }

  lemma CheckIsPasses<G(!new), C(!new)>(s: Setup<G>, sch: Scheme<G, C>, m: Message<G, C>, n: nat, shareOk: bool)
    requires |m.aux| >= 1 && m.share >= 0
    requires shareOk <==> Smul(s.g, m.share, s.base) == GroupEval(s.g, m.aux, n)
    ensures var opening := sch.open(m.comm, m.data, m.coins);
            Passes(s, sch, m, n) <==> opening.Opened? && shareOk && opening.data == m.aux[0]
  {}

  /** When the message's commitments are those of a polynomial, the checks accept exactly the opening of
      the first one and the polynomial's value as the share. */
  lemma PassesMeans<G(!new), C(!new)>(s: Setup<G>, sch: Scheme<G, C>, m: Message<G, C>, n: nat, c: seq<int>)
    requires ValidSetup(s) && |m.aux| >= 1 && 0 <= m.share < s.r && Scalars(c, s.r) && m.aux == Commits(s, c)
    ensures Passes(s, sch, m, n) <==>
      sch.open(m.comm, m.data, m.coins) == Opened(m.aux[0]) && m.share == Eval(c, n) % s.r
  {
    CheckIsExact(s, c, m.share, n);
  }

  /** The senders of the messages committed to these polynomials. */
  ghost predicate Committed<G(!new), C(!new)>(s: Setup<G>, ms: seq<Message<G, C>>, cs: seq<seq<int>>) {
    |cs| == |ms| && forall i :: 0 <= i < |ms| ==> Scalars(cs[i], s.r) && ms[i].aux == Commits(s, cs[i])
  }

  /** What it says about the messages that the checks pass for all others, or not. */
  lemma OutcomeMeans<G(!new), C(!new)>(s: Setup<G>, sch: Scheme<G, C>, ms: seq<Message<G, C>>, my: nat, ok: bool)
    requires MessagesFit(ms, |ms|, s.r) && my < |ms|
    requires ok <==> forall i :: 0 <= i < |ms| && i != my ==> Passes(s, sch, ms[i], my + 1)
    ensures ok ==> forall i :: 0 <= i < |ms| && i != my ==> sch.open(ms[i].comm, ms[i].data, ms[i].coins) == Opened(ms[i].aux[0])
    ensures ok && ValidSetup(s) ==> forall i, c ::
      0 <= i < |ms| && i != my && Scalars(c, s.r) && ms[i].aux == Commits(s, c) ==> ms[i].share == Eval(c, my + 1) % s.r
    ensures ValidSetup(s) ==> forall cs :: Committed(s, ms, cs) ==>
      (ok <==> forall i :: 0 <= i < |ms| && i != my ==>
        && sch.open(ms[i].comm, ms[i].data, ms[i].coins) == Opened(ms[i].aux[0])
        && ms[i].share == Eval(cs[i], my + 1) % s.r)
  {
    if ok {
      forall i | 0 <= i < |ms| && i != my ensures sch.open(ms[i].comm, ms[i].data, ms[i].coins) == Opened(ms[i].aux[0]) {
        assert Passes(s, sch, ms[i], my + 1);
      }
    }
    if ValidSetup(s) {
      forall i, c | 0 <= i < |ms| && i != my && Scalars(c, s.r) && ms[i].aux == Commits(s, c)
        ensures Passes(s, sch, ms[i], my + 1) <==>
          sch.open(ms[i].comm, ms[i].data, ms[i].coins) == Opened(ms[i].aux[0]) && ms[i].share == Eval(c, my + 1) % s.r
      {
        PassesMeans(s, sch, ms[i], my + 1, c);
      }
      hide Passes, ValidSetup;
      forall cs | Committed(s, ms, cs)
        ensures ok <==> forall i :: 0 <= i < |ms| && i != my ==>
          && sch.open(ms[i].comm, ms[i].data, ms[i].coins) == Opened(ms[i].aux[0])
          && ms[i].share == Eval(cs[i], my + 1) % s.r
      {
        forall i | 0 <= i < |ms| && i != my
          ensures Passes(s, sch, ms[i], my + 1) <==>
            sch.open(ms[i].comm, ms[i].data, ms[i].coins) == Opened(ms[i].aux[0]) && ms[i].share == Eval(cs[i], my + 1) % s.r
        {
          assert Scalars(cs[i], s.r) && ms[i].aux == Commits(s, cs[i]);
        }
      }
    }
  }

  /** The sum of the shares from the first k parties other than `my`. */
  function OtherShares<G, C>(ms: seq<Message<G, C>>, my: nat, k: nat): int
    requires k <= |ms|
  {
    if k == 0 then 0 else OtherShares(ms, my, k - 1) + (if k - 1 == my then 0 else ms[k - 1].share)
  }

  /** Another share in a message counts with the difference, except in the own place. */
  lemma {:induction false} ShareReplaced<G, C>(ms: seq<Message<G, C>>, my: nat, k: nat, i: nat, share: int)
    requires k <= |ms| && i < |ms|
    ensures OtherShares(ms[i := ms[i].(share := share)], my, k)
         == OtherShares(ms, my, k) + if i < k && i != my then share - ms[i].share else 0
  {
    if k > 0 { ShareReplaced(ms, my, k - 1, i, share); }
  }

  lemma {:induction false} SharesOfZero<G, C>(ms: seq<Message<G, C>>, my: nat, k: nat)
    requires k <= |ms| && forall i :: 0 <= i < k ==> ms[i].share == 0
    ensures OtherShares(ms, my, k) == 0
  {
    if k > 0 { SharesOfZero(ms, my, k - 1); }
  }

  /** The verification key: own first commitment plus those of the first k other parties. */
  function JointKey<G(!new), C(!new)>(g: Grp<G>, own: G, ms: seq<Message<G, C>>, my: nat, k: nat): G
    requires k <= |ms| && forall i :: 0 <= i < |ms| ==> |ms[i].aux| >= 1
  {
    if k == 0 then own
    else if k - 1 == my then JointKey(g, own, ms, my, k - 1)
    else g.add(JointKey(g, own, ms, my, k - 1), ms[k - 1].aux[0])
  }

  ghost predicate MessagesFit<G(!new), C(!new)>(ms: seq<Message<G, C>>, nparty: nat, r: nat) {
    |ms| == nparty && forall i :: 0 <= i < |ms| ==> |ms[i].aux| >= 1 && 0 <= ms[i].share < r
  }

  class Bls<G(!new, ==)> {
    var sk: int
    var vk: G
    var sigma: G

    constructor (g: Grp<G>)
    {
      sk, vk, sigma := 0, g.zero, g.zero;
    }

    /** The first half of key generation: deal, and keep the own share and first commitment. */
    method Deal(s: Setup<G>, secret: int, rnd: seq<int>, nparty: nat, my: nat) returns (res: VssResult<G>)
      requires ValidSetup(s) && Scalars([secret] + rnd, s.r) && nparty < s.r && my < nparty
      modifies this`sk, this`vk
      ensures res.InvalidSetting? <==> |rnd| > nparty
      ensures res.Dealt? ==> res.shares == Shares([secret] + rnd, nparty, s.r)
      ensures res.Dealt? ==> res.aux == Commits(s, [secret] + rnd)
      ensures res.Dealt? ==> sk == res.shares[my] == Eval([secret] + rnd, my + 1) % s.r && vk == res.aux[0]
      ensures res.Dealt? ==> secret >= 0 && vk == Smul(s.g, secret, s.base)
    {
      res := GenShare(s, secret, rnd, nparty);
      if res.Dealt? {
        sk, vk := res.shares[my], res.aux[0];
      }
    }

    /** The second half: check every other party's message and add it in. */
    method Combine<C(!new)>(s: Setup<G>, sch: Scheme<G, C>, ms: seq<Message<G, C>>, nparty: nat, my: nat)
      returns (res: KeygenResult)
      requires s.r >= 2 && MessagesFit(ms, nparty, s.r) && my < nparty && 0 <= sk < s.r
      modifies this`sk, this`vk
      ensures res.KeyOk? <==> forall i :: 0 <= i < nparty && i != my ==> Passes(s, sch, ms[i], my + 1)
      ensures res.KeyOk? ==> forall i :: 0 <= i < nparty && i != my ==>
        sch.open(ms[i].comm, ms[i].data, ms[i].coins) == Opened(ms[i].aux[0])
      ensures res.KeyOk? && ValidSetup(s) ==> forall i, c ::
        0 <= i < nparty && i != my && Scalars(c, s.r) && ms[i].aux == Commits(s, c) ==> ms[i].share == Eval(c, my + 1) % s.r
      ensures ValidSetup(s) ==> forall cs :: Committed(s, ms, cs) ==>
        (res.KeyOk? <==> forall i :: 0 <= i < nparty && i != my ==>
          && sch.open(ms[i].comm, ms[i].data, ms[i].coins) == Opened(ms[i].aux[0])
          && ms[i].share == Eval(cs[i], my + 1) % s.r)
      ensures res.KeyOk? ==> sk == (old(sk) + OtherShares(ms, my, nparty)) % s.r
      ensures res.KeyOk? ==> vk == JointKey(s.g, old(vk), ms, my, nparty)
    {
      hide Passes;
      Small(sk, s.r);
      ghost var total := sk;
      for i := 0 to nparty
        invariant forall j :: 0 <= j < i && j != my ==> Passes(s, sch, ms[j], my + 1)
        invariant total == old(sk) + OtherShares(ms, my, i) && sk == total % s.r
        invariant vk == JointKey(s.g, old(vk), ms, my, i)
      {
        if i != my {
          var m := ms[i];
          var opening := sch.open(m.comm, m.data, m.coins);
          var shareOk := VerifyShare(s, m.share, m.aux, my + 1);
          CheckIsPasses(s, sch, m, my + 1, shareOk);
          if opening.Opened? && shareOk && opening.data == m.aux[0] {
            AddModBoth(total, m.share, s.r);
            total := total + m.share;
            sk := Add(sk, m.share, s.r);
            vk := s.g.add(vk, m.aux[0]);
          } else {
            OutcomeMeans(s, sch, ms, my, false);
            return InvalidCommitment;
          }
        }
      }
      res := KeyOk;
      OutcomeMeans(s, sch, ms, my, true);
    }

    /** The signature with the scaled key on the hashed message h of the second group: the multiple by
        `scale` of the party's own signature. */
    method SignScale(g2: Grp<G>, scale: int, h: G, r: nat)
      requires r >= 2 && scale >= 0 && sk >= 0
      modifies this`sigma
      ensures sigma == Smul(g2, (sk * scale) % r, h)
      ensures IsGroup(g2, r) ==> sigma == Smul(g2, scale, Smul(g2, sk, h))
    {
      sigma := h;
      var signSk := Mul(sk, scale, r);
      sigma := Smul(g2, signSk, sigma);
      if IsGroup(g2, r) {
        SmulMul(g2, r, scale, sk, h);
        SmulMod(g2, r, scale * sk, h);
        assert scale * sk == sk * scale;
      }
    }
  }

  // ----- the joint polynomial

  ghost predicate Polynomials(cs: seq<seq<int>>, len: nat, r: nat) {
    forall i :: 0 <= i < |cs| ==> |cs[i]| == len && Scalars(cs[i], r)
  }

  /** The sum of the first k polynomials. */
  function Joint(cs: seq<seq<int>>, len: nat, k: nat): (c: seq<int>)
    requires k <= |cs| && forall i :: 0 <= i < |cs| ==> |cs[i]| == len
    ensures |c| == len
  {
    if k == 0 then seq(len, _ => 0) else AddPoly(Joint(cs, len, k - 1), cs[k - 1])
  }

  function SumEval(cs: seq<seq<int>>, x: int, k: nat): int
    requires k <= |cs|
  {
    if k == 0 then 0 else SumEval(cs, x, k - 1) + Eval(cs[k - 1], x)
  }

  /** Another polynomial in the sum counts with the difference of the values. */
  lemma {:induction false} SumEvalReplaced(cs: seq<seq<int>>, x: int, k: nat, i: nat, c: seq<int>)
    requires k <= |cs| && i < |cs|
    ensures SumEval(cs[i := c], x, k) == SumEval(cs, x, k) + if i < k then Eval(c, x) - Eval(cs[i], x) else 0
  {
    if k > 0 { SumEvalReplaced(cs, x, k - 1, i, c); }
  }

  lemma {:induction false} SumEvalOfZeros(cs: seq<seq<int>>, x: int, k: nat)
    requires k <= |cs| && forall i :: 0 <= i < k ==> Eval(cs[i], x) == 0
    ensures SumEval(cs, x, k) == 0
  {
    if k > 0 { SumEvalOfZeros(cs, x, k - 1); }
  }

  lemma {:induction false} JointEval(cs: seq<seq<int>>, len: nat, x: int, k: nat)
    requires k <= |cs| && forall i :: 0 <= i < |cs| ==> |cs[i]| == len
    ensures Eval(Joint(cs, len, k), x) == SumEval(cs, x, k)
  {
    if k == 0 {
      EvalZeros(len, x);
    } else {
      JointEval(cs, len, x, k - 1);
      EvalAddPoly(Joint(cs, len, k - 1), cs[k - 1], x);
    }
  }

  // ----- all-honest runs

  /** What party `to` receives from party `from` when everybody follows the protocol. */
  function HonestMessage<G(!new), C(!new)>(s: Setup<G>, sch: Scheme<G, C>, c: seq<int>, coins: int, to: nat)
    : Message<G, C>
    requires s.r > 0 && |c| >= 1 && forall i :: 0 <= i < |c| ==> c[i] >= 0
  {
    var aux := Commits(s, c);
    Message(sch.commit(aux[0], coins), aux[0], coins, Eval(c, to + 1) % s.r, aux)
  }

  ghost predicate HonestMessages<G(!new), C(!new)>(s: Setup<G>, sch: Scheme<G, C>, cs: seq<seq<int>>,
                                                   coins: seq<int>, ms: seq<Message<G, C>>, to: nat, len: nat)
    requires s.r > 0
  {
    && len >= 1 && |coins| == |ms| == |cs| && Polynomials(cs, len, s.r)
    && forall i :: 0 <= i < |cs| ==> ms[i] == HonestMessage(s, sch, cs[i], coins[i], to)
  }

  /** No check fails in an honest run. */
  lemma HonestPasses<G(!new), C(!new)>(s: Setup<G>, sch: Scheme<G, C>, c: seq<int>, coins: int, to: nat)
    requires ValidSetup(s) && Correct(sch) && |c| >= 1 && Scalars(c, s.r)
    ensures Passes(s, sch, HonestMessage(s, sch, c, coins, to), to + 1)
  {
    var m := HonestMessage(s, sch, c, coins, to);
    CheckIsExact(s, c, m.share, to + 1);
  }

  /** The secret keys add up to the value of the joint polynomial at the party's index. */
  lemma {:induction false} HonestShares<G(!new), C(!new)>(s: Setup<G>, sch: Scheme<G, C>, cs: seq<seq<int>>,
      coins: seq<int>, ms: seq<Message<G, C>>, my: nat, len: nat, k: nat)
    requires s.r > 0 && HonestMessages(s, sch, cs, coins, ms, my, len) && k <= |cs| && my < |cs|
    ensures (OtherShares(ms, my, k) + (if k > my then Eval(cs[my], my + 1) else 0)) % s.r
         == SumEval(cs, my + 1, k) % s.r
  {
    if k > 0 {
      HonestShares(s, sch, cs, coins, ms, my, len, k - 1);
      var v := Eval(cs[k - 1], my + 1);
      if k - 1 == my {
        CongAdd(OtherShares(ms, my, k - 1), SumEval(cs, my + 1, k - 1), v, v, s.r);
      } else {
        AddShare(OtherShares(ms, my, k - 1), if k - 1 > my then Eval(cs[my], my + 1) else 0, SumEval(cs, my + 1, k - 1), v, s.r);
      }
    }
  }

  lemma AddShare(others: int, own: int, total: int, v: int, r: int)
    requires r > 0 && (others + own) % r == total % r
    ensures (others + v % r + own) % r == (total + v) % r
  {
    ModMod(v, r);
    CongAdd(others + own, total, v % r, v, r);
  }

  /** The sum of the secrets of the first k parties, leaving out `my` unless it is included. */
  function SecretSum(cs: seq<seq<int>>, my: nat, k: nat): (n: int)
    requires k <= |cs| && my < |cs| && forall i :: 0 <= i < |cs| ==> |cs[i]| >= 1 && cs[i][0] >= 0
    ensures n >= cs[my][0]
  {
    if k == 0 then cs[my][0] else SecretSum(cs, my, k - 1) + (if k - 1 == my then 0 else cs[k - 1][0])
  }

  /** The joint key is the base point times the sum of the secrets. */
  lemma {:induction false} HonestKey<G(!new), C(!new)>(s: Setup<G>, sch: Scheme<G, C>, cs: seq<seq<int>>,
      coins: seq<int>, ms: seq<Message<G, C>>, my: nat, len: nat, k: nat)
    requires ValidSetup(s) && HonestMessages(s, sch, cs, coins, ms, my, len) && k <= |cs| && my < |cs|
    ensures JointKey(s.g, Commits(s, cs[my])[0], ms, my, k) == Smul(s.g, SecretSum(cs, my, k), s.base)
  {
    if k > 0 {
      HonestKey(s, sch, cs, coins, ms, my, len, k - 1);
      if k - 1 != my {
        SmulAdd(s.g, s.r, SecretSum(cs, my, k - 1), cs[k - 1][0], s.base);
      }
    }
  }

  lemma {:induction false} SecretSumValue(cs: seq<seq<int>>, my: nat, k: nat)
    requires k <= |cs| && my < |cs| && forall i :: 0 <= i < |cs| ==> |cs[i]| >= 1 && cs[i][0] >= 0
    ensures SecretSum(cs, my, k) == SumEval(cs, 0, k) + (if k > my then 0 else cs[my][0])
  {
    if k > 0 { SecretSumValue(cs, my, k - 1); }
  }

  lemma HonestOutcome<G(!new), C(!new)>(s: Setup<G>, sch: Scheme<G, C>, cs: seq<seq<int>>, coins: seq<int>,
      ms: seq<Message<G, C>>, my: nat, len: nat)
    requires ValidSetup(s) && Correct(sch) && HonestMessages(s, sch, cs, coins, ms, my, len) && my < |cs|
    ensures MessagesFit(ms, |cs|, s.r)
    ensures forall i :: 0 <= i < |cs| ==> Passes(s, sch, ms[i], my + 1)
    ensures var joint := Joint(cs, len, |cs|);
            && (Eval(cs[my], my + 1) % s.r + OtherShares(ms, my, |cs|)) % s.r == Eval(joint, my + 1) % s.r
            && JointKey(s.g, Commits(s, cs[my])[0], ms, my, |cs|) == Smul(s.g, Eval(joint, 0) % s.r, s.base)
  {
    var n := |cs|;
    forall i | 0 <= i < n ensures Passes(s, sch, ms[i], my + 1) && 0 <= ms[i].share < s.r {
      HonestPasses(s, sch, cs[i], coins[i], my);
      ModMod(Eval(cs[i], my + 1), s.r);
    }
    HonestShares(s, sch, cs, coins, ms, my, len, n);
    AddModBoth(Eval(cs[my], my + 1), OtherShares(ms, my, n), s.r);
    JointEval(cs, len, my + 1, n);
    HonestKey(s, sch, cs, coins, ms, my, len, n);
    SecretSumValue(cs, my, n);
    JointEval(cs, len, 0, n);
    SmulMod(s.g, s.r, SecretSum(cs, my, n), s.base);
  }

  ghost predicate DistinctParties<G(!new)>(parties: seq<Bls<G>>) {
    forall i, j :: 0 <= i < j < |parties| ==> parties[i] != parties[j]
  }

  ghost predicate HasDealt<G(!new)>(s: Setup<G>, party: Bls<G>, c: seq<int>, my: nat)
    requires s.r > 0 && |c| >= 1 && forall i :: 0 <= i < |c| ==> c[i] >= 0
    reads party
  {
    party.sk == Eval(c, my + 1) % s.r && party.vk == Commits(s, c)[0]
  }

  ghost predicate HasKey<G(!new)>(s: Setup<G>, party: Bls<G>, joint: seq<int>, my: nat)
    requires s.r > 0
    reads party
  {
    party.sk == Eval(joint, my + 1) % s.r && party.vk == Smul(s.g, Eval(joint, 0) % s.r, s.base)
  }

  method DealAll<G(!new, ==)>(s: Setup<G>, parties: seq<Bls<G>>, cs: seq<seq<int>>, threshold: nat) returns (ok: bool)
    requires ValidSetup(s) && 1 <= |parties| < s.r && DistinctParties(parties)
    requires |cs| == |parties| && Polynomials(cs, threshold + 1, s.r)
    modifies parties
    ensures ok <==> threshold <= |parties|
    ensures ok ==> forall i :: 0 <= i < |parties| ==> HasDealt(s, parties[i], cs[i], i)
  {
    for i := 0 to |parties|
      invariant i > 0 ==> threshold <= |parties|
      invariant forall j :: 0 <= j < i ==> HasDealt(s, parties[j], cs[j], j)
    {
      assert cs[i] == [cs[i][0]] + cs[i][1..];
      var res := parties[i].Deal(s, cs[i][0], cs[i][1..], |parties|, i);
      if res.InvalidSetting? {
        return false;
      }
    }
    ok := true;
  }

  /** One party's second half in an honest run. */
  method CombineHonest<G(!new, ==), C(!new)>(s: Setup<G>, sch: Scheme<G, C>, party: Bls<G>, cs: seq<seq<int>>,
      coins: seq<int>, my: nat, len: nat)
    requires ValidSetup(s) && Correct(sch) && len >= 1
    requires |cs| == |coins| && my < |cs| && Polynomials(cs, len, s.r) && HasDealt(s, party, cs[my], my)
    modifies party
    ensures HasKey(s, party, Joint(cs, len, |cs|), my)
  {
    var n := |cs|;
    var ms := seq(n, j requires 0 <= j < n => HonestMessage(s, sch, cs[j], coins[j], my));
    HonestOutcome(s, sch, cs, coins, ms, my, len);
    ModMod(Eval(cs[my], my + 1), s.r);
    var res := party.Combine(s, sch, ms, n, my);
  }

  /** A complete run in which every party follows the protocol. */
  method HonestKeygen<G(!new, ==), C(!new)>(s: Setup<G>, sch: Scheme<G, C>, parties: seq<Bls<G>>,
      cs: seq<seq<int>>, coins: seq<int>, threshold: nat)
    returns (ok: bool)
    requires ValidSetup(s) && Correct(sch) && 1 <= |parties| < s.r && DistinctParties(parties)
    requires |cs| == |coins| == |parties| && Polynomials(cs, threshold + 1, s.r)
    modifies parties
    ensures ok <==> threshold <= |parties|
    ensures ok ==> forall i :: 0 <= i < |parties| ==> HasKey(s, parties[i], Joint(cs, threshold + 1, |cs|), i)
    ensures ok ==> forall i :: 0 <= i < |parties| ==>
      && parties[i].sk == SumEval(cs, i + 1, |cs|) % s.r
      && parties[i].vk == Smul(s.g, SumEval(cs, 0, |cs|) % s.r, s.base)
  {
    ok := DealAll(s, parties, cs, threshold);
    if !ok {
      return;
    }
    ghost var joint := Joint(cs, threshold + 1, |cs|);
    for i := 0 to |parties|
      invariant forall j :: i <= j < |parties| ==> HasDealt(s, parties[j], cs[j], j)
      invariant forall j :: 0 <= j < i ==> HasKey(s, parties[j], joint, j)
    {
      CombineHonest(s, sch, parties[i], cs, coins, i, threshold + 1);
    }
    forall i | 0 <= i < |parties|
      ensures parties[i].sk == SumEval(cs, i + 1, |cs|) % s.r && parties[i].vk == Smul(s.g, SumEval(cs, 0, |cs|) % s.r, s.base)
    {
      JointEval(cs, threshold + 1, i + 1, |cs|);
      JointEval(cs, threshold + 1, 0, |cs|);
    }
  }
}
