# Verified model of the PlatON proof-of-custody MPC stack

The program computes, among several parties, the custody bit of a validator without any party
learning the key. This project models its arithmetic and its protocols in Dafny and proves what they
promise:

- **Custody pipeline** (`OnlineOp`, `Transport`, `Custody`, `Pipeline`): comparison, prefix-or, ripple
  addition and masked conversion of a field element to bits; moving the ephemeral key from the
  381-bit field to the second field through masked bits; the offline tables, the universal hash and
  the Legendre PRF; and the whole run from key generation to custody bit. The code answers with the or
  of ten PRF bits, and this is what is modelled; conformance to a published specification is not claimed.
- **Threshold BLS** (`Group`, `Lagrange`, `Interpolation`, `Threshold`, `Signing`): verifiable secret sharing,
  key generation, signing and recombination at zero.
- **Curve arithmetic** (`Field`, `Curve`, `PointOps`, `Complex`, `G2Ops`): affine, Jacobian and projective
  addition as formulas over any field, and as assignments to output references over the prime field
  (first group) and over its quadratic extension (second group), with what aliasing does there.
- **Number theory** (`Arith`, `NumberTheory`, `Limbs`, `Montgomery`, `Modp`, `Shanks`, `Hensel`,
  `GF2Poly`, `GF2n`): Montgomery multiplication on limbs and the field operations built on it,
  Tonelli-Shanks, lifting modulo 2^K, and multiplication, reduction and inversion in GF(2^n).
- **Oblivious transfer** (`OTCorrelation`, `Vole`): triples of n parties and vector OLE.
- **Stateful pieces** (`LengthField`, `Exchange` in `Exchanger.dfy`, `Ring`, `BitAdder`, `TripleBuffer`).

## How things are modelled

- A share is the field value it hides. Opening a share yields that value; a multiplication with
  preprocessed triples yields the product. Random draws, random bits, square tuples and base OTs are
  parameters, constrained only by the relation the preprocessing guarantees, so every theorem holds
  for every choice of them. A loop that draws until it succeeds takes the list of draws and requires
  that one of them succeeds.
- Exceptions are values (`Outcome`, `RootResult`, `VssResult`, ...). C++ references and in-place
  updates are classes and arrays; where the original lets an output be an operand, so does the method,
  and its contract says what then happens.
- Field elements are integers in `[0, p)` with a modulus that is a parameter (`Complex` has one
  arbitrary constant `P`). Primality is a hypothesis where it is needed.
- The groups of the pairing are abstract commutative groups of prime exponent over one carrier type.
- What the operating system transfers in one call is a parameter of a round of the exchanger, and a
  blocking receive takes effect when its bytes have arrived.

## Results where the code departs from what one would expect

- `Montgomery.MontMult`: a modulus whose top limb is all ones can overflow, and the product is wrong
  exactly when it does (`Montgomery.TopLimbOverflows`); all other moduli are right.
- `G2Ops.AddJac`: over the extension the Jacobian addition into one of two different operands gives another
  triple unless the points have the same x or the product of the two Z comes out
  (`G2Ops.JacobianRightIff`), and that triple stands for another point or none except for some sums on an axis
  (`G2Ops.JacobianSumIff`). The variants with an opened operand, the projective ones and the in-place ones
  are right. Over the prime field every output is right. The repository itself only adds through
  temporaries.
- `Complex.Mul`, `Complex.Sqr`: into an operand they are right exactly under the conditions of
  `Complex.ProductRightIff` and `Complex.SquareRightIff`; the opened and in-place variants always are.
- `PointOps.AddAff`, `G2Ops.AddAff` and their opened variants: into the first operand y comes out 0, which
  is right exactly when the sum's y is 0; otherwise the result is not even on the curve
  (`Curve.IntoFirstLeavesCurve`).
- `Lagrange.RecombinationAtFullThreshold`, `Signing.RecombinedValue`: a threshold equal to the number of
  parties passes the constructor's check but recombines correctly only if the top coefficient is zero.
- `Signing.DstbSign`: honest signing can fail: on a zero share, or when a partial sum meets the same or the
  opposite multiple of the hash, for which the chord is not defined.
- `GF2n.InitCheckIsTooWeak`: the check on the field shape accepts shapes whose reduction drops bits, but
  initialization refuses sizes outside its fixed table first, so with that table the check decides nothing;
  `GF2n.ExactIffFits` gives the exact condition, which all fields of the table satisfy.
- `OnlineOp.AddBit`: the carry of two one-bit vectors is lost; `OnlineOp.Power` yields 0 for exponent 0.
- `Ring.RingIsSafeIff`: passing one buffer around three or more parties can read into the next exchange, exactly
  when some message is two or more bytes longer than the nonempty one it receives; between two endpoints
  lengths do not matter (`Exchange.ExchangeIsCorrect`).
- `BitAdder.ExactIff`: the exact condition under which adding many operands loses no carry.
- `LengthField.LengthRoundTrip`: lengths just below 2^64 are encoded although they do not fit.
- `Custody.LegendrePrf`, `Custody.Online2Primes`: zero counts as a square, and a zero mask answers 1.
- `Vole.Evaluate`: the check can fail between honest parties, exactly when two compared rows of random pairs
  have the same sum (`Vole.HonestRefusal`).

## Model

| member | source | states |
|---|---|---|
| Montgomery.MontMult | Math/Zp_Data.cpp:65-85 | for y < p and any modulus: the result is below p, and times B^t it is x y modulo p exactly when no pass overflows its top limb; always so for a modulus that leaves the room; any limb count, the output may be an operand, limbs beyond t untouched |
| Montgomery.FitsNeverWraps | Math/Zp_Data.cpp:65-85 | a modulus that leaves the room never overflows, whatever the operands |
| Montgomery.TopLimbFits | Math/Zp_Data.cpp:65-85 | every modulus whose top limb is not all ones leaves the room |
| Montgomery.TopLimbOverflows | Math/Zp_Data.cpp:65-85 | for p = 2^128 - 159 squaring p - 1 overflows, so that product comes out wrong |
| Montgomery.CurvePrimesFit | Math/Zp_Data.cpp:10-58 | primes of 381 bits in six limbs and of 255 bits in four leave the room |
| Montgomery.WrongByDrops | Math/Zp_Data.cpp:65-85 | a dropped carry is never made good: the result is right exactly when nothing was dropped |
| Montgomery.Accumulate | Math/Zp_Data.cpp:65-85 | after all passes the true running value is below 2p and (x y + q p) / B^t, and what is stored falls short of it by f B^2 with f = 0 exactly when no pass overflows |
| Montgomery.Pass | Math/Zp_Data.cpp:65-85 | one digit on the limbs: the stored value w becomes ((w + x_i y) mod B^(t+1) + u p) / B |
| Modp.ZpData.constructor | Math/Zp_Data.cpp:10-58 | sets up pi = -1/p modulo B and the tables R, R^2, R^3 of the stated values |
| Modp.NegativeInverseLimb | Math/Zp_Data.cpp:10-58 | the lowest limb of B^t - 1/p is -1/p modulo B |
| Modp.ZpData.ToModp | Math/modp.hpp:171-186 | stores the residue of any integer, negative ones included |
| Modp.ZpData.ToBigint | Math/modp.hpp:101-121 | gives back the residue stored: conversion in and out round-trips |
| Modp.ZpData.Mul | Math/modp.hpp:227-238 | multiplies residues in either representation, output may alias |
| Modp.ZpData.Negate | Math/modp.hpp:43-48 | negates the residue, zero stays reduced |
| Modp.ZpData.Inv | Math/modp.hpp:241-257 | the residue times the original is 1, in either representation |
| Modp.ZpData.Power | Math/modp.hpp:261-274 | x^e for every e >= 0, also into x itself; negative exponents are refused |
| Modp.ZpData.IsZero | Math/modp.hpp:58-64 | answers exactly whether the residue is 0 |
| Modp.ZpData.IsOne | Math/modp.hpp:85-97 | answers exactly whether the residue is 1 |
| Modp.ZpData.AreEqual | Math/modp.hpp:50-56 | equal limbs exactly for equal residues |
| Modp.SquareAndMultiply | Math/modp.hpp:261-274 | one step of binary exponentiation keeps ans sq^e |
| Shanks.SqrRootMod | Math/bigint.cpp:26-79 | terminates, succeeds exactly for squares, and the answer squared is a modulo p; both cases of p modulo 4 |
| Shanks.ShanksStart | Math/bigint.cpp:26-79 | after the initialization x^2 = a b, y has order 2^e and the order of b divides 2^(e-1) |
| Shanks.ShanksStep | Math/bigint.cpp:26-79 | one pass of the outer loop keeps this with a strictly smaller exponent |
| Shanks.OrderExponent | Math/bigint.cpp:26-79 | the inner loop finds the least m with b^(2^m) = 1, which is below r |
| Shanks.RootByPower | Math/bigint.cpp:26-79 | a^((p+1)/4) is a root for p = 3 modulo 4 |
| NumberTheory.EulerCriterion | Math/bigint.cpp:26-79 | a^((p-1)/2) decides squares modulo an odd prime |
| NumberTheory.NonResidueExists | Math/bigint.cpp:26-79 | the search for a non-residue has something to find |
| Hensel.Invert | Math/Z2k.hpp:104-116 | the inverse of every odd value modulo 2^K, even values are refused |
| Hensel.InvertStep | Math/Z2k.hpp:104-116 | the bit looked at makes the inverse correct one bit further |
| Hensel.SqrRoot | Math/Z2k.hpp:118-131 | a square root modulo 2^K of every value that is 1 modulo 8 |
| Hensel.RootStep | Math/Z2k.hpp:118-131 | the bit looked at makes the root correct one bit further |
| GF2n.TableEntry | Math/gf2n.cpp:44-62 | a table entry is the carry-less product of its indices |
| GF2n.Mul16 | Math/gf2n.cpp:135-146 | the 16-bit product from four table lookups |
| GF2n.Mul16Split | Math/gf2n.cpp:122-132 | the same product as two words |
| GF2n.Mul32 | Math/gf2n.cpp:192-209 | the 32-bit product |
| GF2n.Mul64 | Math/gf2n.cpp:212-223 | the 64-bit product as low and high word, with three multiplications and a truncated shift |
| GF2n.KaratsubaMiddle | Math/gf2n.cpp:212-223 | the middle term of the three-multiplication formula |
| GF2n.Reduce | Math/gf2n.cpp:150-189 | both reductions terminate below degree n, congruent to the input plus the bits the shifts drop |
| GF2n.FoldStep | Math/gf2n.cpp:150-189 | folding keeps the congruence and shortens the high part |
| GF2n.Multiply | Math/gf2n.cpp:226-251 | with the table or the instruction, and for a field that fits the word: the unique polynomial of degree below n congruent to the product |
| GF2n.ExactIffFits | Math/gf2n.cpp:105 | all products come out right exactly when n + t <= 65 for every exponent t |
| GF2n.InitCheckIsTooWeak | Math/gf2n.cpp:105 | the inequality alone accepts n = 50, t = 29, which multiplies wrongly (unreachable with the table as it is) |
| GF2n.TableFieldsFit | Math/gf2n.cpp:39-41 | every field in the table satisfies the exact condition and the weaker check |
| GF2n.Invert | Math/gf2n.cpp:259-291 | terminates; refuses 0; the result has degree below n and is the inverse exactly when a is coprime to the modulus |
| GF2n.EuclidLoop | Math/gf2n.cpp:259-291 | the loop ends with a D = v modulo M where v divides a and M |
| GF2n.HalveHalf | Math/gf2n.cpp:259-291 | halving u and the adjusted factor keeps a B = u modulo M |
| GF2Poly.UniqueRepresentative | Math/gf2n.cpp:150-189 | congruent polynomials of degree below the modulus are equal |
| OnlineOp.KXor | POC/OnlineOp.hpp:573-617 | the tree of pairwise operations is the parity of all bits, any length |
| OnlineOp.KOr | POC/OnlineOp.hpp:619-655 | the tree of pairwise operations is the or of all bits |
| OnlineOp.PrefixOr | POC/OnlineOp.hpp:659-691 | divide and conquer gives at each position the or of all bits up to it |
| OnlineOp.TopDecides | POC/OnlineOp.hpp:695-743 | integer order is decided at the highest differing bit |
| OnlineOp.Lt | POC/OnlineOp.hpp:695-743 | 1 exactly when a < b as integers |
| OnlineOp.FullAdder | POC/OnlineOp.hpp:796-805 | the arithmetic formulas are a full adder |
| OnlineOp.AddBit | POC/OnlineOp.hpp:821-837 | integer addition of bit vectors, exact if and only if not 1 + 1 on one bit |
| OnlineOp.PreRand | POC/OnlineOp.hpp:747-794 | the accepted mask is below p and is the value of its bits |
| OnlineOp.Decompose | POC/OnlineOp.hpp:872-886 | the lowest k bits |
| OnlineOp.Power | POC/OnlineOp.hpp:13-21 | a^exp for exp >= 1, and 0 for exponent 0 |
| OnlineOp.B2A | POC/OnlineOp.hpp:890-905 | the value of the bits modulo p |
| OnlineOp.A2B | POC/OnlineOp.hpp:927-978 | exactly the bits of the integer a, for every accepted mask, with and without wrap-around modulo p |
| Transport.SharedRandBits | POC/poc.hpp:112-151 | bit j is the number of set bits j of all parties modulo 2, the same in both fields |
| Transport.FlipFlipsMask | POC/poc.hpp:112-151 | flipping bit j of one party flips joint bit j and no other |
| Transport.MaskOfZeros | POC/poc.hpp:112-151 | without any bit set there is no mask |
| Transport.DecomposeAndReveal | POC/poc.hpp:153-195 | reveals bit i of each coordinate plus the joint bit, modulo 2 |
| Transport.XorAndCombine | POC/poc.hpp:228-259 | the three keys are the numbers of the three chunks of shared plus revealed bits modulo 2 |
| Transport.KeyPreserved | POC/poc.hpp:112-259 | the chunks are re + 2^n im as integers, each below 2^m, for every mask |
| Transport.TransportKey | POC/RunPoc.hpp:110-157 | k0 + 2^254 k1 + 2^508 k2 = re + 2^381 im with no wrap modulo q, for every choice of bits and masks |
| Custody.Sqr | POC/OnlineOp.hpp:230-250 | the square from one preprocessed pair |
| Custody.Offline | POC/poc.hpp:17-51 | pre[i] is Pow(keys[(i + 1) mod 2], i + 1) mod p, two keys |
| Custody.Offline2Primes | POC/poc.hpp:262-312 | the same with three keys |
| Custody.NextPower | POC/poc.hpp:262-312 | one turn further the power is multiplied by the c-th power of the same key |
| Custody.HashFromTable | POC/poc.hpp:54-86 | from the table: the alternating polynomial hash of the chunks plus the power of the next key, any length; what the hash is, is fixed by the next three rows |
| Custody.HashOfZeros | POC/poc.hpp:54-86 | a message of n zeros hashes to the n-th power of the next key |
| Custody.HashOfReplaced | POC/poc.hpp:54-86 | another chunk i changes the hash by the difference times the i-th power of the key whose turn it is |
| Custody.HashWithOneKey | POC/poc.hpp:54-86 | with one repeated key the hash is the polynomial with the chunks and 1 as coefficients at that key |
| Custody.MaskedLegendre | POC/OnlineOp.hpp:998-1012 | multiplying by a nonzero square keeps the Legendre symbol |
| Custody.LegendrePrf | POC/OnlineOp.hpp:1014-1022 | 1 exactly when key + x is a square (0 included) or the mask is zero |
| Custody.Online | POC/poc.hpp:54-86 | the two-key custody bit |
| Custody.Online2Primes | POC/poc.hpp:315-355 | 1 exactly when key + hash + i is a square for some i < 10 or that mask is zero |
| Custody.AnyHitMeans | POC/poc.hpp:315-355 | some PRF bit is 1 exactly when a mask is zero or a shifted number is a square |
| Custody.Uhf | POC/OnlineOp.hpp:982-996 | Horner evaluation of the chunks at the key |
| Custody.ComputeCustodyBit | POC/poc.hpp:89-109 | the one-step variant |
| Pipeline.KeysAreDigits | POC/poc.hpp:228-259 | the three keys are determined by the ephemeral key: its digits in base 2^m and no others |
| Pipeline.CustodyBit | POC/RunPoc.hpp:110-193 | from the ephemeral key on: with nonzero masks the bit is a function of ephemeral key and message only |
| Pipeline.TenAnswers | POC/poc.hpp:315-355 | the ten answers written out: 1 exactly when one of x, x + 1, ..., x + 9 is a square |
| Pipeline.KeygenToCustodyBit | Source/poc_main.cpp:100-143 | the whole run: there is a signature exactly unless the hash is neutral, a share is zero or an addition step fails, and then the bit is a function of the summed dealt secrets, the hashed nonce and the message only |
| Lagrange.GetLagrangeCoeff | Math/Lagrange.cpp:3-30 | the product quotient is (-1)^(i-1) C(n,i) modulo r, positions out of range are refused |
| Lagrange.WeightIsQuotient | Math/Lagrange.cpp:3-30 | the two products divide exactly to that integer |
| Lagrange.WeightNonzero | Math/Lagrange.cpp:3-30 | no coefficient vanishes modulo a prime above the number of points |
| Lagrange.SetShare | Math/Lagrange.cpp:32-53 | share i is the polynomial with the secret and the random coefficients at i + 1 |
| Lagrange.RecoverShare | Math/Lagrange.cpp:55-71 | the dot product, unequal lengths are refused |
| Lagrange.RecombinationAtZero | Math/Lagrange.cpp:3-71 | with fewer coefficients than shares the weighted sum of the shares is the secret: recovering undoes sharing |
| Lagrange.RecombinationAtFullThreshold | POC/vss.h:37-44 | with one coefficient too many it is the secret exactly when that coefficient vanishes |
| Interpolation.LagrangeCoeff | POC/vss.cpp:98-133 | quotients of the two products for any distinct points, a zero among them is refused |
| Interpolation.RecombinationFromPoints | POC/vss.cpp:98-133 | the weighted sum of values at any n distinct points is the value at zero, for every polynomial with at most n coefficients |
| Interpolation.ManyRootsVanish | POC/vss.cpp:98-133 | a polynomial with as many roots as coefficients vanishes everywhere |
| Threshold.GenShare | POC/vss.cpp:25-53 | share i is the polynomial at i + 1, and commitment i is the multiple of the base point by coefficient i; refused for too large a threshold |
| Threshold.VerifyShare | POC/vss.cpp:55-80 | whatever polynomial the coefficients commit to, exactly its value at n is accepted |
| Threshold.CheckIsExact | POC/vss.cpp:55-80 | for the committed polynomial the check accepts exactly its value |
| Threshold.Bls.Deal | POC/bls.cpp:47-56 | the own share is the polynomial at the own index, and the first commitment that of the secret |
| Threshold.Bls.Combine | POC/bls.cpp:141-166 | succeeds only if every other party's opening yields its first commitment and its share is the value of every polynomial it may have committed to; exactly then, when all committed to some; key and verification key are then the sums |
| Threshold.PassesMeans | POC/bls.cpp:147-166 | when the commitments are those of a polynomial, a message passes exactly with the opening of the first one and the polynomial's value |
| Threshold.ShareReplaced | POC/bls.cpp:147-166 | another share changes the sum of the other parties' shares by the difference, the own place not at all |
| Threshold.SharesOfZero | POC/bls.cpp:147-166 | shares of zero leave the key as it is |
| Threshold.SumEvalReplaced | POC/bls.cpp:47-168 | another dealt polynomial changes the joint value by the difference of the values |
| Threshold.SumEvalOfZeros | POC/bls.cpp:47-168 | polynomials that vanish at a point add nothing there |
| Threshold.HonestPasses | POC/bls.cpp:47-168 | no check fails on an honest message |
| Threshold.HonestKeygen | POC/bls.cpp:47-168 | in an honest run each party holds the sum of all polynomials at its index, and all hold the verification key of the sum of the secrets; refused exactly for too large a threshold |
| Threshold.Bls.SignScale | POC/bls.cpp:39-45 | the scale's multiple of the party's own unscaled signature |
| Signing.AddMultiples | POC/bls.h:126-129 | the chord formula on two multiples of the hashed message: undefined exactly for equal or opposite scalars, otherwise the multiple by their sum |
| Signing.AddStep | POC/Group.hpp:488-495 | the same for the addition in place on cells, with the mask of the division |
| Signing.StepFailsMeans | POC/bls.h:122-130 | a step fails exactly when the partial sum and the next point have the same x-coordinate or the mask is zero |
| Signing.AddSignatures | POC/bls.h:122-130 | the loop ends with the point of the recombined multiple, or fails exactly if some step meets equal or opposite scalars or a zero mask |
| Signing.PartialZero | POC/bls.h:73-91 | a partial signature is the neutral element exactly for a neutral hash or a zero share |
| Signing.RecombinedValue | POC/bls.h:102-130 | the recombined scalar is the joint secret, for the largest threshold accepted exactly when the top coefficient vanishes |
| Signing.DstbSign | POC/bls.h:102-143 | when signing fails, on the joint polynomial and the masks alone; otherwise the affine point of the joint signature |
| Signing.KeygenAndSign | POC/bls.cpp:47-168 | key generation and signing together: signed exactly unless one of these conditions holds of the joint polynomial; verification keys and signature belong to the sum of the dealt secrets |
| Group.SmulInjective | POC/vss.cpp:55-80 | equal multiples of a nonzero element of prime exponent have congruent scalars |
| Curve.ChordOnCurve | POC/Group.hpp:38-58 | the affine sum of two points with distinct x stays on y^2 = x^3 + b, over any field |
| Curve.ChordOnLine | POC/Group.hpp:38-58 | both points and the negated sum lie on one line, and the x-coordinates add up to its squared slope |
| Curve.JacobianResultIsSum | POC/Group.hpp:119-159 | over any field the Jacobian formula represents the chord sum, with Z = 0 for equal x |
| Curve.JacobianSumStandsFor | POC/Group.hpp:119-159 | a triple that is the sum stands for the chord sum of the operands' points and for no other |
| Curve.ProjectiveResultIsSum | POC/Group.hpp:223-265 | over any field the projective formula represents the chord sum, with Z = 0 for equal x |
| Curve.ProjectiveSumStandsFor | POC/Group.hpp:223-265 | a triple that is the sum stands for the chord sum of the operands' points and for no other |
| Curve.ChordRightExactlyApart | POC/Group.hpp:38-58 | over any field the affine addition is right for all operands exactly when its output is not the first one |
| Curve.IntoFirstLeavesCurve | POC/Group.hpp:38-58 | for two points of one curve: into the first operand it is wrong, and off the curve, unless the y of the sum is 0 |
| Curve.WrongOnOneCurve | POC/Group.hpp:38-58 | such a wrong sum on y^2 = x^3 + 1, in every field where 3 is not 0 |
| PointOps.AddAff | POC/Group.hpp:38-58 | first group: the chord sum, failing exactly on equal x or a zero mask; an output that is the first operand gets y = 0 |
| PointOps.AddAffInplace | POC/Group.hpp:59-65 | the chord sum for every operand |
| PointOps.AddPlainAff | POC/Group.hpp:9-28 | the same with an opened operand |
| PointOps.AddPlainAffInplace | POC/Group.hpp:30-37 | the in-place variant with an opened operand |
| PointOps.AddJac | POC/Group.hpp:119-159 | first group: represents the chord sum of the represented points for any aliasing |
| PointOps.AddPlainJac | POC/Group.hpp:67-109 | first group: the differently grouped variant computes the same triple |
| PointOps.AddJacInplace | POC/Group.hpp:161-168 | the same triple in place |
| PointOps.AddProjInplace | POC/Group.hpp:267-274 | the projective triple in place |
| PointOps.AddProj | POC/Group.hpp:223-265 | first group: the projective formula represents the chord sum for any aliasing |
| PointOps.AddPlainProj | POC/Group.hpp:170-212 | the variant with an opened operand computes the same triple |
| G2Ops.AddAff | POC/Group.hpp:466-486 | second group: the chord sum, failing exactly on equal x or a zero mask; an output that is the first operand gets y = 0 |
| G2Ops.AddPlainAff | POC/Group.hpp:437-456 | the variant with an opened operand |
| G2Ops.AddAffInplace | POC/Group.hpp:488-495 | the chord sum in place for every operand |
| G2Ops.AddPlainAffInplace | POC/Group.hpp:458-465 | the in-place variant with an opened operand |
| G2Ops.AddJac | POC/Group.hpp:572-612 | X and Y for every output, and Z as the aliased product of the two Z times H; the chord sum when the output is no operand |
| G2Ops.JacobianRightIff | POC/Group.hpp:572-612 | for every output, the exact condition on the operands under which the triple is the one computed into a separate output |
| G2Ops.JacobianSumIff | POC/Group.hpp:572-612 | for every output, the exact condition under which the triple stands for the sum; off the axes that is the former, on an axis a Z with the same square or cube also does |
| G2Ops.JacobianRightExactly | POC/Group.hpp:572-612 | it represents the sum for all operands exactly when the output is neither of two different operands |
| G2Ops.SumLost | POC/Group.hpp:572-612 | any two points with different x have coordinates whose sum, put into an operand, is the point at infinity |
| G2Ops.AddPlainJac | POC/Group.hpp:518-561 | the variant with an opened operand represents the chord sum for every output |
| G2Ops.AddJacInplace | POC/Group.hpp:614-621 | the sum in place for every operand |
| G2Ops.AddPlainJacInplace | POC/Group.hpp:563-570 | the in-place variant with an opened operand |
| G2Ops.AddProj | POC/Group.hpp:676-718 | the projective addition represents the chord sum for every output |
| G2Ops.AddPlainProj | POC/Group.hpp:623-665 | the variant with an opened operand, for every output |
| G2Ops.AddProjInplace | POC/Group.hpp:720-727 | the sum in place for every operand |
| G2Ops.AddPlainProjInplace | POC/Group.hpp:667-674 | the in-place variant with an opened operand |
| Complex.PrimeFieldIsField | POC/Group.hpp:10-274 | integers modulo a prime satisfy the laws the formulas use |
| Complex.QuadraticFieldIsField | POC/OnlineOp.hpp:351-418 | pairs with i^2 = -1 are a field when the prime is 3 modulo 4 |
| Complex.Mul | POC/OnlineOp.hpp:364-375 | what is left in the output, for each of the four ways it can be an operand; the product when it is none |
| Complex.ProductRightIff | POC/OnlineOp.hpp:364-375 | for each of them, the exact condition on the operands under which that is the product |
| Complex.ProductRightExactlyApart | POC/OnlineOp.hpp:364-375 | right for all operand values exactly when the output is no operand |
| Complex.IntoAnOperand | POC/OnlineOp.hpp:364-375 | i times 1 comes out wrong into either operand |
| Complex.SquareOfOnePlusI | POC/OnlineOp.hpp:364-375 | so does 1 + i times itself into itself |
| Complex.MulPlain | POC/OnlineOp.hpp:352-363 | the product for every output |
| Complex.MulInplace | POC/OnlineOp.hpp:377-382 | the product in place |
| Complex.Sqr | POC/OnlineOp.hpp:383-392 | what is left in the output, operand or not; the square when it is not |
| Complex.SquareRightIff | POC/OnlineOp.hpp:383-392 | the exact condition on the operand under which squaring into it is right |
| Complex.SquareRightExactlyApart | POC/OnlineOp.hpp:383-392 | right for all operands exactly when the output is not the operand |
| Complex.SquareOfOnePlusIFails | POC/OnlineOp.hpp:383-392 | 1 + i squared into itself comes out 0 instead of 2i |
| Complex.Inv | POC/OnlineOp.hpp:400-418 | fails exactly for norm 0 or mask 0, else the inverse |
| Complex.DivInplace | POC/OnlineOp.hpp:432-438 | the quotient in place, or nothing changed exactly for norm 0 or mask 0 |
| Complex.InvMasked | POC/OnlineOp.hpp:260-287 | the inverse from the opened masked product |
| OTCorrelation.OTCorrelator.CorrelateAsReceiver | OT/OTCorrelator.hpp:81-97 | on the slice every row of t1 becomes t0 - t1 - x[j / repeat] modulo m and is sent; when it is refused |
| OTCorrelation.OTCorrelator.CorrelateAsSender | OT/OTCorrelator.hpp:99-105 | row i of square j grows by the received row exactly where the choice bit stride * j + i (or i, for a constant base) is set |
| OTCorrelation.OTCorrelator.ReduceSquares | OT/OTCorrelator.hpp:186-198 | the weighted difference of receiver and sender rows |
| OTCorrelation.To | OT/Rectangle.hpp:89-98 | the weighted sum modulo 2^k, also when a square has more rows than bits |
| OTCorrelation.ConditionalAdd | OT/Rectangle.hpp:80-87 | adds exactly the selected rows |
| OTCorrelation.RowCorrelation | OT/OTCorrelator.hpp:68-112 | t0 - (t_bit + bit (t0 - t1 - x)) = bit x |
| OTCorrelation.SquareCorrelation | OT/OTCorrelator.hpp:68-112 | the weighted difference of one square is the choice bits' number times x |
| OTCorrelation.MultiplyPair | OT/OTCorrelator.hpp:68-198 | in every position j the outputs of both parties add up to a_P[j] b_Q[j / repeat] + a_Q[j] b_P[j / repeat] modulo 2^k, each a the number of its slice of choice bits |
| OTCorrelation.PlainTripleRound | OT/NPartyTripleGenerator.hpp:476-527 | c is a[j] b[j / nAmplify] plus the outputs of all multipliers at j, and the triple carries that a and b |
| OTCorrelation.SumOfReplaced | OT/NPartyTripleGenerator.hpp:476-527 | another summand changes the sum of the parties' parts by the difference |
| OTCorrelation.SumOfZeros | OT/NPartyTripleGenerator.hpp:476-527 | parts that are all zero add up to zero |
| OTCorrelation.InputsMean | OT/NPartyTripleGenerator.hpp:476-527 | the input of square j is x[j / repeat] and its choice bits start at stride * j |
| OTCorrelation.TriplesMultiply | OT/NPartyTripleGenerator.hpp:476-527 | for any number of parties sum(c) = sum(a) sum(b) |
| OTCorrelation.RoundIsCorrect | OT/NPartyTripleGenerator.hpp:476-527 | the same for one position from the contracts of the pairwise runs and the local rounds |
| OTCorrelation.RunThreads | OT/OTCorrelator.hpp:68-198 | the two threads of a pair, from their random OTs: outputs share the cross products |
| OTCorrelation.PlainTriples | OT/NPartyTripleGenerator.hpp:476-527 | a round of any number of parties from their random OTs: a is the number of the slice of choice bits, b is b[j / repeat], and in every position the c add up to the product of the sums of the a and the b |
| Vole.OTVole.SendCorrections | OT/OTVole.hpp:18-30 | entry j of every row is x[j] + t1[j] + t0[j] modulo m |
| Vole.OTVole.ReceiveCorrections | OT/OTVole.hpp:31-47 | every row is u - t, entry by entry, where the choice bit is set and t elsewhere |
| Vole.OTVole.Output | OT/OTVole.hpp:54-64 | entry j is the number of the received entries j minus that of the own ones modulo m, refused when a shift is too wide |
| Vole.OTVole.SendHashes | OT/OTVole.hpp:201-230 | for every challenge the four hashes of the differences of the own rows |
| Vole.OTVole.CheckHashes | OT/OTVole.hpp:234-292 | accepts exactly when for every challenge both hashes looked at are those of the stated differences and different rows have different corrections |
| Vole.DirectionProduct | OT/OTVole.hpp:9-64 | received minus sent rows weigh to Delta x in every component |
| Vole.HonestCheck | OT/OTVole.hpp:183-297 | both hash comparisons succeed between honest parties for any challenges and any hash; what remains is distinct corrections |
| Vole.Evaluate | OT/OTVole.hpp:9-64 | both roles: outputs add up to Delta_P x_Q + Delta_Q x_P; fails exactly when two compared rows of random pairs have the same sum, or for too wide a shift |
| Vole.SameCorrections | OT/OTVole.hpp:9-64 | corrections coincide exactly for rows with the same sum, whatever the vector is |
| Vole.SomeChallengeFails | OT/OTVole.hpp:183-297 | some challenge makes the check fail between honest parties exactly when two rows have the same sum |
| Vole.HonestRefusal | OT/OTVole.hpp:183-297 | two different rows of an honest sender that a challenge refuses |
| LengthField.LengthRoundTrip | Networking/data.h:21-44 | which lengths are refused, and that of those written exactly the ones that fit are read back |
| LengthField.LittleEndianAt | Networking/data.h:21-44 | byte i of the field is digit i of the length in base 256, the lowest first |
| Exchange.Exchanger.constructor | Networking/Exchanger.h:32-46 | starts with the length sent and nothing else |
| Exchange.Exchanger.DoOneRound | Networking/Exchanger.h:60-131 | one call is one step of the state machine, with one or two buffers, and says whether to go on |
| Exchange.RoundIsGreedy | Networking/Exchanger.h:60-131 | a round sends all the system takes and receives all that has arrived up to what it may; only a blocking round that has sent everything blocks, and it returns with the rest of the message or the length |
| Exchange.BytesTaken | Networking/Exchanger.h:79-112 | also when an endpoint asks for more than the message has left it gets only the next bytes of it, because the peer cannot have finished |
| Exchange.NextBytesTaken | Networking/Exchanger.h:79-112 | the same with any sender before it: the next bytes of the message arrive if that sender has not finished or the own message is at most one byte longer |
| Exchange.UnsentUntouched | Networking/Exchanger.h:81-88 | bytes not yet sent are never overwritten |
| Exchange.StepKeepsInv | Networking/Exchanger.h:60-131 | every step with every partial transfer keeps the invariant of both endpoints and both channels |
| Exchange.ExchangeIsCorrect | Networking/Exchanger.h:60-131 | in every state of every run: counters in range, received bytes a prefix of the other's message, and exactly that message when done |
| Exchange.NoDeadlock | Networking/Exchanger.h:60-131 | while an endpoint is not done, a round of one of them makes progress |
| Exchange.RunCanFinish | Networking/Exchanger.h:60-131 | from every state of every run there is a continuation in which both endpoints finish |
| Exchange.Exchanger.Finish | Networking/Exchanger.h:48-58 | the stream gets the length received |
| Ring.StepKeepsRing | Networking/Player.cpp:428-438 | every step of any endpoint of a ring keeps the stream invariant of all |
| Ring.RingIsCorrect | Networking/Player.cpp:428-438 | in a ring of any size with agreeing lengths: received bytes are a prefix of the message before, and exactly that message when done |
| Ring.OverreadRun | Networking/Player.h:192 | the run in which an endpoint passing one buffer around takes a byte that is not of this exchange |
| Ring.RingIsSafeIff | Networking/Player.h:192 | with three or more endpoints no run receives too much exactly when no buffer used both ways is two or more bytes longer than a nonempty incoming message |
| BitAdder.Column | GC/BitAdder.hpp:98-109 | the sum bits and renewed carries of one position |
| BitAdder.AddTwo | GC/BitAdder.hpp:53-113 | the bits of every result are the exact integer sum of the two operands of its item, read from the input by plain indexing; other items untouched |
| BitAdder.MultiAdd | GC/BitAdder.hpp:115-166 | the bits of every result are the accumulation of all operands of its item, dropping a carry before every further addition, and for at most as many operands as players their exact sum |
| BitAdder.Add | GC/BitAdder.hpp:53-83 | the dispatch: two operands directly, more through the accumulation; the exact sum of all operands for two or for at most as many as players, others untouched |
| BitAdder.EnoughForPlayers | GC/BitAdder.hpp:115-166 | for at most as many operands as players no carry is lost: the sum is exact |
| BitAdder.SumReplaced | GC/BitAdder.hpp:115-166 | another operand changes the sum by the difference |
| BitAdder.ExactIff | GC/BitAdder.hpp:115-166 | the sum is exact for all operands exactly when m - 1 largest ones fit |
| TripleBuffer.ShiftableTripleBuffer.GetTripleNoCount | GC/ShiftableTripleBuffer.h:32-55 | bit k delivered is the bit of the fetched triple at the position handed out, in order from the buffer or the new triple; bits from n on are zero, c = a and b, and the new fill level |
| TripleBuffer.ServeFromBuffer | GC/ShiftableTripleBuffer.h:39-44 | serving from the buffer keeps this and c = a and b |
| TripleBuffer.ServeFromNew | GC/ShiftableTripleBuffer.h:45-52 | serving from a new triple appends its rest behind the buffered bits |
| TripleBuffer.AtMostOnce | GC/ShiftableTripleBuffer.h:32-55 | no position is delivered twice or both delivered and buffered |
| TripleBuffer.DeliveredOnce | GC/ShiftableTripleBuffer.h:32-55 | in every state of the buffer no position was handed out twice and none handed out is still buffered |

## Left out

- Modp.ZpData.constructor: requires in Montgomery representation that the modulus leaves the room stated by `Montgomery.Fits`, which excludes only moduli whose top limb is all ones (`Montgomery.TopLimbFits`); what the multiplication does for those is in `Montgomery.MontMult`. The inverse of p that the library computes is a parameter with its defining property.
- Modp.ZpData.Inv: the Bezout cofactor returned by the extended gcd of the library is a parameter with its defining property.
- Addition and subtraction of residues in `Math/Zp_Data.h`, and the assembly carry paths: only the limb operations used by the multiplication are modelled.
- Shanks.SqrRootMod: the random search takes its draws from a list that contains a non-residue; `NumberTheory.NonResidueExists` shows that there is one.
- GF2n.Multiply: the 128-bit field is not part of this model; the carry-less multiplication instruction is taken by its definition. The two reductions are one method over the list of exponents. That the table polynomials are irreducible is not proved; inversion is stated through coprimality.
- Hensel.Invert: works on integers below 2^K, not on the limbs that hold them.
- OnlineOp.A2B: the reference passed for the opened value and the batching of openings are not modelled; rejection of random masks is a list of draws.
- Signing.DstbSign: that the chord formula adds the elements of the group, and that elements share an x-coordinate exactly when equal or opposite, is the hypothesis `Coordinates`; that the curve is a group under it is not proved. The text that carries a point between the library and the field is not modelled beyond the neutral element having no coordinates.
- Threshold.HonestKeygen: parties that deviate are covered only by `Threshold.Bls.Combine`, which says what an accepted message must hold. Commitments are a pair of functions in which opening undoes committing; that they bind is not used.
- G2Ops.AddJac: points are cells that are either the same or share nothing, as the members of the original's structures are.
- Pairings, hashing to the curve, verification of a signature, `recover_share` of `POC/vss.cpp` (one library call), hashing, symmetric encryption and SimpleOT are not part of this model.
- OTCorrelation.OTCorrelator.CorrelateAsReceiver: widths are whole bytes, so the length check is on elements; the pseudorandom expansion of base OTs is a parameter.
- OTCorrelation.PlainTripleRound: returns a flat list; grouping into amplification records and writing to files are left out.
- Vole.Evaluate: `hash_row` is an arbitrary function of the row; both sides draw the same challenges. The stream of rows is a list.
- Exchange.Exchanger.constructor: requires that the length encodes; the exception of the encoder is stated in `LengthField.LengthRoundTrip`. The buffer is one sequence whose resizing keeps its bytes, with zeros for uninitialised memory; the raw address the source caches before a resize, sockets, timers and the receive limit of the `int` length argument are not modelled.
- Montgomery.Fits: sufficient for every operand; which of the moduli that break it still never overflow depends on products of their digits with those of the operands, and is stated per operand only (`Montgomery.MontMult`).
- Ring.RingIsCorrect: progress of a ring is not stated.
- BitAdder.MultiAdd: one bit of each word is modelled; thread queues, the supply of triples and the floating-point logarithm (taken as exact) are left out.
- Secrecy, soundness against cheating parties, probabilities and the quality of randomness.
- Sockets, server setup, threads, option parsing, file formats, the bytecode interpreter, `Protocols/*`, `Tools/*`, BMR and FHE.
