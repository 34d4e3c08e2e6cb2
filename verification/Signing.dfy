/** Threshold signing, POC/bls.h: every party signs with its weighted key, and the partial signatures are
    added up in affine coordinates over the quadratic extension. */
module Signing {
  import opened Arith
  import opened NumberTheory
  import opened Lagrange
  import opened Group
  import opened Curve
  import opened Complex
  import opened G2Ops
  import opened Threshold

  /** The two affine coordinates of the joint signature, or why there is none. */
  datatype SignResult = Signed(sig: Affine<Cpx>) | NoCoordinates | AdditionFailed

  /** Always true: the laws of the coordinates are instantiated at the pairs it is asserted of. */
  ghost predicate Pair<G(!new)>(x: G, y: G) { true }

  /** What ties the group to its affine coordinates: nonzero elements share their x-coordinate exactly when
      they are equal or opposite, and otherwise the chord formula adds them. */
  ghost predicate Coordinates<G(!new)>(g: Grp<G>, coord: G -> Affine<Cpx>) {
    forall x, y {:trigger Pair(x, y)} :: Pair(x, y) && x != g.zero && y != g.zero ==>
      && (coord(x).x == coord(y).x <==> x == y || g.add(x, y) == g.zero)
      && (coord(x).x != coord(y).x ==> coord(g.add(x, y)) == Chord(QuadraticField(), coord(x), coord(y)))
  }

  /** Adding the multiples of h by d and s in affine coordinates. */
  lemma AddMultiples<G(!new)>(g: Grp<G>, coord: G -> Affine<Cpx>, h: G, r: nat, d: nat, s: nat)
    requires IsGroup(g, r) && Prime(r) && Coordinates(g, coord) && h != g.zero && d % r != 0 && s % r != 0
    ensures var x, y := coord(Smul(g, d % r, h)), coord(Smul(g, s % r, h));
            && (x.x == y.x <==> d % r == s % r || (d + s) % r == 0)
            && (x.x != y.x ==> Chord(QuadraticField(), x, y) == coord(Smul(g, (d + s) % r, h)))
  {
    hide Chord;
    var x, y := Smul(g, d % r, h), Smul(g, s % r, h);
    assert Pair(x, y);
    Small(0, r);
    SmulInjective(g, r, d, 0, h);
    SmulInjective(g, r, s, 0, h);
    SmulInjective(g, r, d, s, h);
    SmulInjective(g, r, d + s, 0, h);
    SmulMod(g, r, d, h);
    SmulMod(g, r, s, h);
    SmulMod(g, r, d + s, h);
    SmulAdd(g, r, d, s, h);
  }

  /** The partial signature i is the same or the opposite multiple of h as the sum of those before it, or
      the mask of that division is zero. */
  ghost predicate StepFails(sks: seq<int>, ws: seq<int>, masks: seq<Fp>, r: nat, i: nat)
    requires r >= 1 && 1 <= i < |sks| == |ws| == |masks| + 1
  {
    var d, s := Dot(ws, sks, i), ws[i] * sks[i];
    d % r == s % r || (d + s) % r == 0 || masks[i - 1] == 0
  }

  /** In coordinates: the partial sum and the next point have the same x-coordinate, or the mask is zero. */
  lemma StepFailsMeans<G(!new)>(g: Grp<G>, coord: G -> Affine<Cpx>, h: G, r: nat, sks: seq<int>, ws: seq<int>,
                                masks: seq<Fp>, i: nat)
    requires IsGroup(g, r) && Prime(r) && Coordinates(g, coord) && h != g.zero
    requires 1 <= i < |sks| == |ws| == |masks| + 1 && Dot(ws, sks, i) >= 0 && ws[i] * sks[i] >= 0
    requires Dot(ws, sks, i) % r != 0 && (ws[i] * sks[i]) % r != 0
    ensures StepFails(sks, ws, masks, r, i) <==>
      || coord(Smul(g, Dot(ws, sks, i) % r, h)).x == coord(Smul(g, (ws[i] * sks[i]) % r, h)).x
      || masks[i - 1] == 0
  {
    AddMultiples(g, coord, h, r, Dot(ws, sks, i), ws[i] * sks[i]);
  }

  method SignAll<G(!new, ==)>(parties: seq<Bls<G>>, g2: Grp<G>, h: G, r: nat, ghost joint: seq<int>)
    requires Prime(r) && |parties| < r && DistinctParties(parties)
    requires forall i :: 0 <= i < |parties| ==> parties[i].sk == Eval(joint, i + 1) % r
    modifies parties
    ensures forall i :: 0 <= i < |parties| ==> parties[i].sk == old(parties[i].sk) && parties[i].vk == old(parties[i].vk)
    ensures forall i :: 0 <= i < |parties| ==>
      parties[i].sigma == Smul(g2, (Shares(joint, |parties|, r)[i] * Weights(|parties|, r)[i]) % r, h)
  {
    var n := |parties|;
    ghost var sks, ws := Shares(joint, n, r), Weights(n, r);
    for i := 0 to n
      invariant forall j :: 0 <= j < n ==> parties[j].sk == sks[j] && parties[j].vk == old(parties[j].vk)
      invariant forall j :: 0 <= j < i ==> parties[j].sigma == Smul(g2, (sks[j] * ws[j]) % r, h)
    {
      var lc := GetLagrangeCoeff(n, i + 1, r);
      parties[i].SignScale(g2, lc.value, h, r);
    }
  }

  /** One addition in place: d h becomes (d + s) h unless the multiples are equal or opposite or the mask
      is zero. */
  method AddStep<G(!new)>(out: AffineCells, a: AffineCells, mask: Fp, ghost g2: Grp<G>, ghost coord: G -> Affine<Cpx>,
      ghost h: G, ghost r: nat, ghost d: nat, ghost s: nat)
    returns (ok: bool)
    requires ExtensionFits() && IsGroup(g2, r) && Prime(r) && Coordinates(g2, coord) && h != g2.zero
    requires IsAffine(out) && IsAffine(a) && out.Cells() !! a.Cells() && d % r != 0 && s % r != 0
    requires out.Val() == coord(Smul(g2, d % r, h)) && a.Val() == coord(Smul(g2, s % r, h))
    modifies out.x, out.y
    ensures ok <==> !(d % r == s % r || (d + s) % r == 0 || mask == 0)
    ensures ok ==> (d + s) % r != 0 && out.Val() == coord(Smul(g2, (d + s) % r, h))
  {
    hide Chord, QuadraticField, ExtensionFits, Coordinates;
    AddMultiples(g2, coord, h, r, d, s);
    ok := AddAffInplace(out, a, mask);
  }

  /** The sum of the points, in place from the second on. */
  method AddSignatures<G(!new)>(ghost g2: Grp<G>, ghost coord: G -> Affine<Cpx>, ac: seq<AffineCells>, masks: seq<Fp>,
      ghost h: G, ghost r: nat, ghost sks: seq<int>, ghost ws: seq<int>)
    returns (res: SignResult)
    requires ExtensionFits() && IsGroup(g2, r) && Prime(r) && Coordinates(g2, coord) && h != g2.zero
    requires 1 <= |ac| == |sks| == |ws| == |masks| + 1 && Scalars(sks, r) && Scalars(ws, r)
    requires forall i :: 0 <= i < |ac| ==> (ws[i] * sks[i]) % r != 0
    requires forall i :: 0 <= i < |ac| ==> IsAffine(ac[i]) && ac[i].Val() == coord(Smul(g2, (ws[i] * sks[i]) % r, h))
    ensures res.AdditionFailed? <==> exists i :: 1 <= i < |ac| && StepFails(sks, ws, masks, r, i)
    ensures !res.NoCoordinates?
    ensures res.Signed? ==>
      Dot(ws, sks, |ac|) % r != 0 && res.sig == coord(Smul(g2, Dot(ws, sks, |ac|) % r, h))
  {
    hide ExtensionFits, Coordinates, IsGroup, Smul, Dot, StepFails, Prime;
    var out := NewAffine();
    out.x.Assign(ac[0].x);
    out.y.Assign(ac[0].y);
    FirstDot(ws, sks);
    for i := 1 to |ac|
      invariant fresh(out.x) && fresh(out.y)
      invariant Dot(ws, sks, i) % r != 0 && out.Val() == coord(Smul(g2, Dot(ws, sks, i) % r, h))
      invariant forall k :: 1 <= k < i ==> !StepFails(sks, ws, masks, r, k)
    {
      DotNonnegative(ws, sks, i, r);
      NextDot(sks, ws, masks, r, i);
      var ok := AddStep(out, ac[i], masks[i - 1], g2, coord, h, r, Dot(ws, sks, i), ws[i] * sks[i]);
      if !ok {
        return AdditionFailed;
      }
    }
    res := Signed(Affine(Cpx(out.x.re, out.x.im), Cpx(out.y.re, out.y.im)));
  }

  lemma FirstDot(ws: seq<int>, sks: seq<int>)
    requires 1 <= |ws| && 1 <= |sks|
    ensures Dot(ws, sks, 1) == ws[0] * sks[0]
  {
    assert Dot(ws, sks, 0) == 0;
  }

  lemma NextDot(sks: seq<int>, ws: seq<int>, masks: seq<Fp>, r: nat, i: nat)
    requires r >= 1 && 1 <= i < |sks| == |ws| == |masks| + 1
    ensures Dot(ws, sks, i + 1) == Dot(ws, sks, i) + ws[i] * sks[i]
    ensures StepFails(sks, ws, masks, r, i) <==>
      || Dot(ws, sks, i) % r == (ws[i] * sks[i]) % r
      || (Dot(ws, sks, i) + ws[i] * sks[i]) % r == 0
      || masks[i - 1] == 0
  {}

  lemma {:induction false} DotNonnegative(ws: seq<int>, sks: seq<int>, k: nat, r: nat)
    requires k <= |ws| && k <= |sks| && Scalars(ws, r) && Scalars(sks, r)
    ensures Dot(ws, sks, k) >= 0 && (k < |ws| && k < |sks| ==> ws[k] * sks[k] >= 0)
  {
    if k > 0 { DotNonnegative(ws, sks, k - 1, r); }
  }

  /** The scalar whose multiple of the hashed message the parties' signatures add up to. */
  function Recombined(joint: seq<int>, n: nat, r: int): int
    requires r > 0
  {
    Dot(Weights(n, r), Shares(joint, n, r), n) % r
  }

  /** It is the value of the joint polynomial at zero, for the largest threshold accepted exactly when the
      leading coefficient vanishes. */
  lemma RecombinedValue(joint: seq<int>, n: nat, r: nat)
    requires Prime(r) && n < r && |joint| <= n + 1
    ensures Recombined(joint, n, r) == Eval(joint, 0) % r <==> |joint| <= n || joint[n] % r == 0
  {
    if |joint| <= n {
      RecombinationAtZero(joint, n, r);
    } else {
      RecombinationAtFullThreshold(joint, n, r);
    }
  }

  /** The share of party i + 1 is zero. */
  ghost predicate ZeroShare(joint: seq<int>, r: nat, i: nat)
    requires r > 0
  {
    Eval(joint, i + 1) % r == 0
  }

  /** The scalar of a partial signature. */
  function Part(joint: seq<int>, n: nat, r: nat, i: nat): nat
    requires r > 0 && i < n
  {
    (Weights(n, r)[i] * Shares(joint, n, r)[i]) % r
  }

  /** A partial signature is the neutral element exactly for the neutral message or a zero share. */
  lemma PartialZero<G(!new)>(g2: Grp<G>, joint: seq<int>, n: nat, r: nat, h: G, i: nat)
    requires IsGroup(g2, r) && Prime(r) && i < n < r
    ensures Part(joint, n, r, i) == 0 <==> ZeroShare(joint, r, i)
    ensures Smul(g2, Part(joint, n, r, i), h) == g2.zero <==> h == g2.zero || ZeroShare(joint, r, i)
  {
    var w, v := Weights(n, r)[i], Shares(joint, n, r)[i];
    WeightNonzero(n, i + 1, r);
    ModMod(Weight(n, i + 1), r);
    ModMod(Eval(joint, i + 1), r);
    if v % r == 0 {
      assert w * v == 0;
      Small(0, r);
    } else {
      Arith.NonzeroProduct(w, v, r);
    }
    ModMod(w * v, r);
    SmulZero(g2, r, (w * v) % r);
    if h != g2.zero { SmulInjective(g2, r, (w * v) % r, 0, h); }
    Small(0, r);
  }

  /** Every party's signature as a point of cells. */
  method ToCoordinates<G(!new, ==)>(g2: Grp<G>, coord: G -> Affine<Cpx>, parties: seq<Bls<G>>, ghost h: G, ghost r: nat,
      ghost joint: seq<int>)
    returns (ok: bool, ac: seq<AffineCells>)
    requires IsGroup(g2, r) && Prime(r) && 1 <= |parties| < r
    requires forall i :: 0 <= i < |parties| ==> parties[i].sigma == Smul(g2, Part(joint, |parties|, r, i), h)
    ensures !ok <==> h == g2.zero || exists i :: 0 <= i < |parties| && ZeroShare(joint, r, i)
    ensures ok ==> |ac| == |parties|
    ensures ok ==> forall i :: 0 <= i < |parties| ==>
      IsAffine(ac[i]) && ac[i].Val() == coord(Smul(g2, Part(joint, |parties|, r, i), h))
  {
    hide IsGroup, Smul, Part, ZeroShare;
    var n := |parties|;
    ac := [];
    for i := 0 to n
      invariant |ac| == i && (i > 0 ==> h != g2.zero)
      invariant forall k :: 0 <= k < i ==> !ZeroShare(joint, r, k)
      invariant forall k :: 0 <= k < i ==> IsAffine(ac[k]) && ac[k].Val() == coord(Smul(g2, Part(joint, n, r, k), h))
    {
      PartialZero(g2, joint, n, r, h, i);
      if parties[i].sigma == g2.zero {
        return false, ac;
      }
      var x := new Cell(coord(parties[i].sigma).x);
      var y := new Cell(coord(parties[i].sigma).y);
      var point := new AffineCells(x, y);
      ac := ac + [point];
    }
    ok := true;
  }

  /** Every party scales its key by its Lagrange coefficient and signs, and the points are added up in
      affine coordinates.  A partial signature that is the neutral element has none: its text has a
      single number, and taking it apart fails. */
  method DstbSign<G(!new, ==)>(g2: Grp<G>, coord: G -> Affine<Cpx>, parties: seq<Bls<G>>, h: G, r: nat,
      masks: seq<Fp>, ghost joint: seq<int>)
    returns (res: SignResult)
    requires ExtensionFits() && IsGroup(g2, r) && Prime(r) && Coordinates(g2, coord)
    requires 1 <= |parties| == |masks| + 1 && |parties| < r && DistinctParties(parties)
    requires forall i :: 0 <= i < |parties| ==> parties[i].sk == Eval(joint, i + 1) % r
    requires |joint| <= |parties| + 1
    modifies parties
    ensures res.NoCoordinates? <==> h == g2.zero || exists i :: 0 <= i < |parties| && ZeroShare(joint, r, i)
    ensures !res.NoCoordinates? ==>
      var n := |parties|;
      (res.AdditionFailed? <==>
       exists i :: 1 <= i < n && StepFails(Shares(joint, n, r), Weights(n, r), masks, r, i))
    ensures res.Signed? ==> res.sig == coord(Smul(g2, Recombined(joint, |parties|, r), h))
    ensures res.Signed? && |joint| <= |parties| ==> res.sig == coord(Smul(g2, Eval(joint, 0) % r, h))
    ensures forall i :: 0 <= i < |parties| ==> parties[i].sk == old(parties[i].sk) && parties[i].vk == old(parties[i].vk)
  {
    hide ExtensionFits, Coordinates, IsGroup, Smul;
    var n := |parties|;
    SignAll(parties, g2, h, r, joint);
    var ok, ac := ToCoordinates(g2, coord, parties, h, r, joint);
    if !ok {
      return NoCoordinates;
    }
    ghost var sks, ws := Shares(joint, n, r), Weights(n, r);
    forall i | 0 <= i < n ensures (ws[i] * sks[i]) % r != 0 { PartialZero(g2, joint, n, r, h, i); }
    res := AddSignatures(g2, coord, ac, masks, h, r, sks, ws);
    RecombinedValue(joint, n, r);
  }

  /** There is no joint signature: the message hashes to the neutral element, a party's share is zero, or a
      step of the affine addition fails. */
  ghost predicate NoKey<G(!new)>(g2: Grp<G>, h: G, joint: seq<int>, masks: seq<Fp>, r: nat)
    requires r >= 1
  {
    var n := |masks| + 1;
    || h == g2.zero
    || (exists i :: 0 <= i < n && ZeroShare(joint, r, i))
    || (exists i :: 1 <= i < n && StepFails(Shares(joint, n, r), Weights(n, r), masks, r, i))
  }

  lemma NoKeyIff<G(!new)>(g2: Grp<G>, h: G, joint: seq<int>, masks: seq<Fp>, r: nat, n: nat)
    requires r >= 1 && n == |masks| + 1
    ensures NoKey(g2, h, joint, masks, r) <==>
      || h == g2.zero
      || (exists i :: 0 <= i < n && ZeroShare(joint, r, i))
      || (exists i :: 1 <= i < n && StepFails(Shares(joint, n, r), Weights(n, r), masks, r, i))
  {
    hide ZeroShare, StepFails;
  }

  /** Key generation and signing in one honest run with a threshold below the number of parties: all
      parties hold the verification key of the sum of the dealt secrets, and the signature is that of
      this sum unless the joint polynomial makes a share zero or a step of the addition fail. */
  method KeygenAndSign<G(!new, ==), C(!new)>(s: Setup<G>, g2: Grp<G>, coord: G -> Affine<Cpx>, sch: Scheme<G, C>,
      parties: seq<Bls<G>>, cs: seq<seq<int>>, coins: seq<int>, threshold: nat, h: G, masks: seq<Fp>)
    returns (res: SignResult)
    requires ExtensionFits() && ValidSetup(s) && IsGroup(g2, s.r) && Coordinates(g2, coord) && Correct(sch)
    requires threshold < |parties| < s.r && |parties| == |masks| + 1 && DistinctParties(parties)
    requires |cs| == |coins| == |parties| && Polynomials(cs, threshold + 1, s.r)
    modifies parties
    ensures res.Signed? <==> !NoKey(g2, h, Joint(cs, threshold + 1, |cs|), masks, s.r)
    ensures res.Signed? ==> res.sig == coord(Smul(g2, SumEval(cs, 0, |cs|) % s.r, h))
    ensures forall i :: 0 <= i < |parties| ==> parties[i].vk == Smul(s.g, SumEval(cs, 0, |cs|) % s.r, s.base)
  {
    hide Coordinates, ExtensionFits, StepFails, ZeroShare, NoKey;
    ghost var joint := Joint(cs, threshold + 1, |cs|);
    var ok := HonestKeygen(s, sch, parties, cs, coins, threshold);
    JointEval(cs, threshold + 1, 0, |cs|);
    res := DstbSign(g2, coord, parties, h, s.r, masks, joint);
    NoKeyIff(g2, h, joint, masks, s.r, |parties|);
  }
}
