# Verification of btclib_ecc

A Dafny 4.11 model of the arithmetic core of btclib_ecc and of the protocols built on it, with
proofs of what they promise. `dafny verify dfyconfig.toml` checks the whole project.

The model has four layers.

* **Integers modulo n.** `Modular`, `Permutations`, `GaussSymbol`, `Residues` and `Polynomials` hold the
  number theory: inverses, primes, a Jacobi symbol defined without factoring its modulus together with
  quadratic reciprocity for it, Euler's criterion, and Lagrange's bound on roots. `NumberTheory` and `Lucas`
  hold the loops of `number_theory.py`, `Primality` what its primality test answers for primes.
* **The curve and its multiplications.** `EllipticCurve` is the affine law over Z_p, `Jacobian` the formulas on
  triples, `JacobianGroup` the proof that they compute it. `CurveGroups` is what a multiplication sees of
  them, so `ScalarMult`, `MultiMult`, `InterleavedWnaf`, `BosCoster` and `Glv` are written over any formulas that
  compute an abelian group. `Recodings` holds the digit expansions, `Endomorphism` the map behind the GLV split.
* **Protocols.** `SchnorrGroup` is a group of prime order with x-only points; `KeyTweak` and `SchnorrAggregate` are the
  algebra MuSig2 and FROST have in common; `Musig2`, `Frost` (over `Interpolation`), `Ecdsa`, and `Borromean` (over
  `RingWalk`). A range proof is `RangeParams`, `RangeChain`, `RangeProofs`,
  `RangeMessage`, `RangeSigning` and `RangeRewind`.
* **Octets.** `Octets`, `Der` and `DerForms`, `RangeOctets` and `RangeLayout`.

What is taken from outside, always as a named hypothesis and never as an axiom:

* `AssociativeLaw`: the affine chord-and-tangent law is associative. Closure, neutrality, inverses and commutativity
  are proved from the formulas (`EllipticCurve.CurveIsGroup`).
* `GoodCurve`: p is a prime above 3 and no point of the curve has y = 0, the case in which an affine y of 0 means
  infinity and nothing else.
* `GlvSetting`: for secp256k1, that N*G is infinity and that (beta*x_G, y_G) is lambda*G. That the map is a
  homomorphism, so multiplies every multiple of G by lambda, is proved.
* `SchnorrGroup.Laws`: a group of prime order n generated by G in which a point and its opposite share their x and
  differ in the parity of y. `Musig2.AbscissaDetermines`: an abscissa determines its point up to sign.
* Hashes, HMAC blocks and random draws are uninterpreted functions or arbitrary arguments. Raised errors are
  `None` (or a false verdict where the caller turns them into one).

Three remarks about the code.

* The comment at `number_theory.py:490` says that |D| is below n when the Selfridge search ends with symbol 0, so that n is
  composite. For a prime the search ends there if and only if n is 5 or 11 (`Primality.SearchEndsAtModulus`), at D = 5
  and at D = -11: the strong Lucas test by itself refuses those two primes (`Primality.FiveIsRefused`,
  `Primality.ElevenIsRefused`) and accepts every other odd one (`Primality.LucasOfPrime`). Its only caller, `_is_prime`
  (`number_theory.py:536-542`), divides by 3, 5, ..., 37 first, so 5 and 11 never arrive there, and it refuses no odd prime at
  all (`Primality.IsOddPrimeVar`).
* `tonelli_var` asks for a prime and checks what it returns only where its loop runs. For a modulus that is 3 modulo 4 the
  answer is the power a^((p+1)/4) wherever the Jacobi symbol is 1, which squares to a if and only if a^((p+1)/2) is a: for
  a = 2, p = 15 it is not (`NumberTheory.FifteenIsNotChecked`). `mod_sqrt_var` squares its answer, so it has no such case.
* `rewind` of a proof it verifies can answer something else than what was signed, or nothing, when the last ring's last key
  is the signer's own and its scalar xored with its draw happens to look like a value encoding. `RangeRewind.RewindExact`
  proves that this is the only case: the answer is exact if and only if that key does not mimic an encoding.
  `RangeRewind.MisreadInput` builds what a rewinder would see of such a proof, signed for 1 and read as 0; that some
  hash makes the walk meet those very challenges is not claimed.

## Model

| member | source | states |
|---|---|---|
| NumberTheory.XgcdVar | src/btclib_ecc/number_theory.py:75-88 | for any two integers, g is a common divisor that every common divisor divides, x and y combine to it, and its sign is that of a (g is b where a is 0), so it is the greatest common divisor of nonnegative operands |
| NumberTheory.ModInv | src/btclib_ecc/number_theory.py:123-175 | the blinded inverse is the plain inverse, for any blinding factor that does not lose one |
| NumberTheory.ModInvBatchVar | src/btclib_ecc/number_theory.py:231-279 | every element's inverse in its place from one inversion, and an error exactly when some element has none |
| NumberTheory.LegendreSymbolVar | src/btclib_ecc/number_theory.py:282-331 | the reciprocity loop answers the Jacobi symbol for every odd modulus, prime or not, and ends for every modulus |
| NumberTheory.JacobiLoop | src/btclib_ecc/number_theory.py:447-460 | the Jacobi symbol of every odd modulus: the same number as the Legendre loop |
| GaussSymbol.Reciprocity | src/btclib_ecc/number_theory.py:282-331 | quadratic reciprocity for odd coprime moduli, which both symbol loops swap by |
| GaussSymbol.SymbolOfTwo | src/btclib_ecc/number_theory.py:308-331 | the second supplementary law, by which factors of two leave either loop |
| GaussSymbol.SymbolMultiplicative | src/btclib_ecc/number_theory.py:282-331 | the symbol is multiplicative in its upper argument, for every odd modulus |
| GaussSymbol.EulerCriterion | src/btclib_ecc/number_theory.py:371-444 | for an odd prime a^((p-1)/2) is the symbol |
| Residues.SymbolIsLegendre | src/btclib_ecc/number_theory.py:282-331 | for an odd prime the symbol is 1 exactly for residues, -1 for non-residues, 0 for multiples of p |
| Residues.SymbolOfProductModulus | src/btclib_ecc/number_theory.py:447-460 | (a/mn) = (a/m)(a/n): the symbol is Jacobi's |
| NumberTheory.TonelliVar | src/btclib_ecc/number_theory.py:371-444 | for a prime a root comes back exactly when a has one, and squares to a; for any other modulus a root that comes back squares to a, except for a modulus that is 3 modulo 4, where the answer is a power and squares to a if and only if a^((p+1)/2) is a |
| NumberTheory.FifteenIsNotChecked | src/btclib_ecc/number_theory.py:386-400 | what the modulus 15 is answered for 2 does not square to 2 |
| NumberTheory.TonelliLoop | src/btclib_ecc/number_theory.py:418-444 | r^2 = a*t is kept while s falls, so the loop ends for every modulus and never raises for a residue of an odd prime |
| NumberTheory.ModSqrtVar | src/btclib_ecc/number_theory.py:334-368 | on every class of p modulo 8 the root squares to a, and for a prime one is found exactly when a has one |
| Lucas.Ladder | src/btclib_ecc/number_theory.py:494-509 | the binary loop ends with (U_d, V_d, Q^d) modulo n of the recurrences with P = 1 |
| Lucas.SelfridgeD | src/btclib_ecc/number_theory.py:484-493 | the first D of 5, -7, 9, ... whose symbol is not 1, the search ending for every odd n above 1 |
| Lucas.IsStrongLucasProbablePrime | src/btclib_ecc/number_theory.py:478-516 | true exactly when the strong Lucas condition holds: U_d = 0 or V_(d*2^r) = 0 for some r below s |
| Primality.SearchEndsAtModulus | src/btclib_ecc/number_theory.py:486-491 | over an odd prime the search ends with symbol 0 if and only if the prime is 5 or 11 |
| Primality.FiveIsRefused | src/btclib_ecc/number_theory.py:486-491 | over the prime 5 the search ends at D = 5 with symbol 0, the branch that answers False |
| Primality.ElevenIsRefused | src/btclib_ecc/number_theory.py:486-491 | over the prime 11 the search ends at D = -11 with symbol 0, the branch that answers False |
| Primality.PrimePower | src/btclib_ecc/number_theory.py:494-509 | modulo an odd prime n, (1 + sqrt(D))^n is 1 + (D/n)*sqrt(D), by the binomial expansion |
| Primality.PrimeDividesU | src/btclib_ecc/number_theory.py:478-516 | a prime n with (D/n) = -1 divides U_(n+1) |
| Primality.LucasOfPrime | src/btclib_ecc/number_theory.py:478-516 | the strong Lucas test answers True for an odd prime if and only if it is neither 5 nor 11 |
| Primality.IsStrongProbablePrimeBase2 | src/btclib_ecc/number_theory.py:463-475 | true exactly when 2^d = 1 or 2^(d*2^r) = -1 for some r below s, as for every odd prime |
| Primality.Base2OfPrime | src/btclib_ecc/number_theory.py:463-475 | every odd prime is a strong probable prime to base 2 |
| Primality.IsOddPrimeVar | src/btclib_ecc/number_theory.py:519-542 | the small primes by division, the rest by the definitions of the two strong tests; no odd prime is refused |
| EllipticCurve.CurveIsGroup | src/btclib_ecc/curves/curve_group.py:575-637 | the affine formulas are closed and commutative with INF neutral and negation inverse, on every curve without points of y = 0 |
| EllipticCurve.ChordCloses | src/btclib_ecc/curves/curve_group.py:575-626 | the sum of two points of different abscissa is on the curve |
| EllipticCurve.TangentCloses | src/btclib_ecc/curves/curve_group.py:628-637 | the double of a point is on the curve |
| EllipticCurve.SumIsMirrored | src/btclib_ecc/curves/curve_group.py:584-637 | the sum is the mirrored third point of the chord, or of the tangent for equal points, as equations without an inverse; opposite points sum to infinity |
| EllipticCurve.MirroredOnce | src/btclib_ecc/curves/curve_group.py:584-637 | those equations have one solution |
| Jacobian.AddRefines | src/btclib_ecc/curves/curve_group.py:379-484 | on all valid operands, infinite, equal and opposite ones included, the triple is valid and its affine form is the affine sum |
| Jacobian.AddAffRefines | src/btclib_ecc/curves/curve_group.py:486-533 | the same with an affine second operand |
| Jacobian.DoubleRefines | src/btclib_ecc/curves/curve_group.py:535-573 | the doubling in each of the three spellings of a is the affine doubling |
| Jacobian.NegateRefines | src/btclib_ecc/curves/curve_group.py:272-281 | negating a triple is negating its point |
| Jacobian.BlindedSame | src/btclib_ecc/curves/curve_group.py:53-79 | blinding keeps the triple valid and the affine point, whatever the draw |
| Jacobian.LiftRefines | src/btclib_ecc/curves/curve_group.py:45-50 | an affine point lifted to Z = 1 is itself again |
| JacobianGroup.AffFromJacBatchVar | src/btclib_ecc/curves/curve_group.py:294-320 | one inversion converts every point, infinity coming back where it stood |
| JacobianGroup.CurveComputes | src/btclib_ecc/curves/curve_group.py:82-727 | every formula a multiplication calls computes the group law of the curve |
| Recodings.ConvertNumberToBase | src/btclib_ecc/curves/curve_group.py:920-926 | digits of the base whose big-endian value is the number, without a leading zero |
| Recodings.WnafOfM | src/btclib_ecc/curves/curve_group.py:936-973 | the loop ends and returns the width-w NAF |
| Recodings.DigitStep | src/btclib_ecc/curves/curve_group.py:929-973 | the number left falls at every step although m - d may exceed m |
| Recodings.WnafValue | src/btclib_ecc/curves/curve_group.py:936-973 | the digits sum to m |
| Recodings.WnafIsWnaf | src/btclib_ecc/curves/curve_group.py:936-973 | nonzero digits are odd and below 2^(w-1), any w consecutive digits hold at most one, and the top digit is not zero |
| Recodings.WnafLength | src/btclib_ecc/curves/curve_group.py:936-973 | at most one digit more than the binary length, for every width |
| Recodings.WnafUnique | src/btclib_ecc/curves/curve_group.py:936-973 | m has a unique width-w NAF |
| Recodings.WidthOne | src/btclib_ecc/curves/curve_group.py:936-973 | width one is the binary NAF, no two adjacent digits being nonzero |
| Recodings.SignedOddDigits | src/btclib_ecc/curves/curve_group.py:976-1031 | the errors exactly, and otherwise the regular recoding |
| Recodings.OddDigitsSum | src/btclib_ecc/curves/curve_group.py:976-1031 | exactly size odd digits within 2^w - 1, the last positive, whose weighted sum is m |
| Recodings.OddDigitsUnique | src/btclib_ecc/curves/curve_group.py:976-1031 | no other list of that many such digits has the value m |
| ScalarMult.MultJacVar | src/btclib_ecc/curves/curve_group.py:826-854 | double and add answers m*Q for every m >= 0 |
| ScalarMult.OddMultiples | src/btclib_ecc/curves/curve_group.py:1034-1047 | entry i is (2i+1)*Q, in one doubling and an addition per further entry |
| ScalarMult.SignedOddMultiplesAff | src/btclib_ecc/curves/curve_group.py:1095-1114 | entry i is (2i+1-2^w)*Q |
| ScalarMult.SignedIndex | src/btclib_ecc/curves/curve_group.py:1401-1429 | every regular digit indexes the table, at the multiple it names |
| ScalarMult.MultRegularWindow | src/btclib_ecc/curves/curve_group.py:1355-1429 | m*Q for even, odd and zero scalars, in counts that only the digit count decides |
| ScalarMult.CountsIgnoreScalar | src/btclib_ecc/curves/curve_group.py:1355-1429 | every scalar within the bit bound is given the same digit count |
| ScalarMult.Secp256k1Counts | src/btclib_ecc/curves/curve_group.py:1367-1373 | 253 doublings and 71 additions at width 4 for every scalar of 256 bits |
| ScalarMult.MultFixedBase | src/btclib_ecc/curves/curve_group.py:1118-1218 | m*Q from one table per position whatever the blinding draw, refused exactly for a scalar the tables do not cover; no doubling after the tables and one addition per position, for every scalar |
| ScalarMult.Secp256k1FixedCounts | src/btclib_ecc/curves/curve_group.py:1149-1162 | 43 positions at width 6, which serve every scalar of 256 bits |
| ScalarMult.FixedBaseServes | src/btclib_ecc/curves/curve_group.py:1118-1146 | every scalar within the bit bound is covered |
| ScalarMult.MultSlidingWindowVar | src/btclib_ecc/curves/curve_group_2.py:140-215 | m*Q, a window's value indexing the half table and the tail being folded in bit by bit |
| ScalarMult.MultWNafVar | src/btclib_ecc/curves/curve_group_2.py:218-261 | m*Q at every width, width one included |
| ScalarMult.NafIndexed | src/btclib_ecc/curves/curve_group_2.py:240-259 | every digit of either sign indexes the table, at the multiple it names |
| MultiMult.DoubleMultRegularWindow | src/btclib_ecc/curves/curve_group_2.py:340-412 | u*H + v*Q in counts that only the digit count decides |
| MultiMult.PairCountsIgnoreScalars | src/btclib_ecc/curves/curve_group_2.py:354-384 | every pair of scalars within the bit bound is given the same digit count |
| MultiMult.PairCounts | src/btclib_ecc/curves/curve_group_2.py:354-362 | 254 doublings and 143 additions for 256 bits at width 4, 126 and 79 for 128 |
| MultiMult.MultiMultPairs | src/btclib_ecc/curves/curve_group.py:1502-1529 | the errors exactly, and otherwise the pairs whose scalar is not zero |
| MultiMult.NonzeroSum | src/btclib_ecc/curves/curve_group.py:1502-1529 | dropping the zero scalars changes no sum |
| InterleavedWnaf.AdditionsByPosition | src/btclib_ecc/curves/curve_group.py:1537-1579 | position j holds the table entries the digits at j name, in the order of the scalars |
| InterleavedWnaf.ColumnSum | src/btclib_ecc/curves/curve_group.py:1537-1579 | those points sum to the digits at j times the points |
| InterleavedWnaf.BuildTables | src/btclib_ecc/curves/curve_group.py:1655-1690 | every table, fixed or converted in the batch and sliced back by offset, holds its point's odd multiples |
| InterleavedWnaf.MultiMultWNafVar | src/btclib_ecc/curves/curve_group.py:1582-1701 | the sum of n_i*P_i for any scalars, points, width and set of fixed points |
| InterleavedWnaf.DoubleMultWNafVar | src/btclib_ecc/curves/curve_group_2.py:264-337 | u*H + v*Q |
| BosCoster.EuclidSum | src/btclib_ecc/curves/curve_group.py:1711-1722 | n1*P1 + n2*P2 = r*P1 + n2*(q*P1 + P2) beside any rest of the heap |
| BosCoster.Step | src/btclib_ecc/curves/curve_group.py:1747-1766 | a step replaces the two largest scalars n1 and n2 by n2 and a nonzero n1 % n2, keeps the sum over the heap and makes the sum of the scalars strictly smaller, on ties too |
| BosCoster.MultiMultBosCosterVar | src/btclib_ecc/curves/curve_group.py:1704-1772 | terminates with the sum of n_i*P_i, whichever entry of largest scalar the heap gives up |
| BosCoster.MultiMultVar | src/btclib_ecc/curves/curve_group.py:1788-1824 | the sum on both sides of the threshold |
| BosCoster.BothAgree | src/btclib_ecc/curves/curve_group.py:1788-1824 | both algorithms refuse the same arguments and answer the same point to the others |
| Glv.SplitShort | src/btclib_ecc/curves/curve_group_2.py:434-465 | every integer splits into halves with m1 + m2*lambda = m modulo n, both below 2^128 in absolute value |
| Glv.BetaIsCubeRoot | src/btclib_ecc/curves/curve_group_2.py:419-426 | beta is a cube root of one modulo p |
| Endomorphism.EndoAdds | src/btclib_ecc/curves/curve_group_2.py:477-503 | (x, y) -> (beta*x, y) respects the addition of any two points of the curve |
| Endomorphism.EndoJacRefines | src/btclib_ecc/curves/curve_group_2.py:491 | one field product on the triple is that map |
| Endomorphism.EndoIsScalar | src/btclib_ecc/curves/curve_group_2.py:477-503 | if it multiplies G by lambda it multiplies every multiple of G by lambda |
| Glv.EndomorphismSplit | src/btclib_ecc/curves/curve_group_2.py:477-503 | m1*P + m2*K = m*Q with both halves unsigned and below 2^128 |
| Glv.EveryMultiple | src/btclib_ecc/curves/curve_group_2.py:477-503 | every multiple of the generator of secp256k1 is a point the split serves |
| Glv.MultEndomorphism | src/btclib_ecc/curves/curve_group_2.py:506-531 | m*Q for every m >= 0, in counts no scalar changes |
| Glv.MultEndomorphismVar | src/btclib_ecc/curves/curve_group_2.py:534-561 | m*Q over the interleaved wNAFs |
| Glv.DoubleMultEndomorphismVar | src/btclib_ecc/curves/curve_group_2.py:564-631 | u*H + v*Q from the four halves interleaved |
| KeyTweak.ApplyTweakKeeps | src/btclib_ecc/ecc/musig2.py:409-440 | every accepted tweak, x-only or plain, keeps Q = gacc*Q_0 + tacc*G with gacc 1 or -1 |
| KeyTweak.TweakAnswers | src/btclib_ecc/ecc/musig2.py:409-440 | refused exactly out of range or at infinity; the even point is tweaked x-only and the point itself plainly, and only an x-only tweak of an odd point negates the accumulators |
| KeyTweak.PlainTweaksAdd | src/btclib_ecc/ecc/frost.py:470-502 | plain tweaks add their sum to the key and to tacc and leave gacc, whatever the parities on the way |
| KeyTweak.TweaksInOrder | src/btclib_ecc/ecc/frost.py:470-502 | tweaks are applied from the first to the last |
| KeyTweak.ApplyTweaksKeep | src/btclib_ecc/ecc/frost.py:470-502 | so does any sequence of tweaks |
| SchnorrAggregate.HonestVerifies | src/btclib_ecc/ecc/musig2.py:807-856 | an honest partial signature passes partial verification, whatever the parities |
| SchnorrAggregate.AggS | src/btclib_ecc/ecc/musig2.py:1102-1125 | refused exactly for a value that is no scalar, otherwise the sum with the tweaks added once |
| SchnorrAggregate.AggregateVerifies | src/btclib_ecc/ecc/frost.py:1083-1104 | partial signatures that verify aggregate to a signature that satisfies BIP340 verification under the tweaked key |
| SchnorrAggregate.SecNonce.Spend | src/btclib_ecc/ecc/frost.py:845-849 | the scalars are handed out once and zeros left in their place |
| Interpolation.DeriveInterpolatingValue | src/btclib_ecc/ecc/frost.py:285-301 | the Lagrange coefficient at -1, the two products' signs cancelling |
| Interpolation.WeightAt | src/btclib_ecc/ecc/frost.py:316-325 | the Lagrange coefficient at any x |
| Interpolation.Interpolates | src/btclib_ecc/ecc/frost.py:285-328 | the weighted values at any distinct identifiers, at least as many as coefficients, are the polynomial's value at any x |
| Frost.EverySubsetSameKey | src/btclib_ecc/ecc/frost.py:331-336 | every set of at least t signers reconstructs the one threshold key |
| Frost.DerivePubshareAt | src/btclib_ecc/ecc/frost.py:304-328 | the shares interpolated at x |
| Frost.ValidateThresholdInfo | src/btclib_ecc/ecc/frost.py:398-432 | accepts exactly when the present shares lie on one polynomial of at most t coefficients whose value at -1 is the key |
| Frost.ValidateSessionParams | src/btclib_ecc/ecc/frost.py:661-686 | accepts exactly the valid parameters |
| Frost.HonestParamsValid | src/btclib_ecc/ecc/frost.py:661-686 | the parameters of honest shares are never refused |
| Frost.Session.SessionValues | src/btclib_ecc/ecc/frost.py:775-819 | memoized: answers what the context derives, b hashing the signers, the nonces, the tweaked key and the message, R = R_1 + b*R_2 or G, e the challenge over R, the key and the message; keeps nothing on an error |
| Frost.Session.Sign | src/btclib_ecc/ecc/frost.py:822-872 | spends the nonce exactly when the session assembles, signs exactly when nothing is refused |
| Frost.Session.PartialSigVerify | src/btclib_ecc/ecc/frost.py:1000-1045 | the verdict of the partial equation, and the listed share where the session carries shares |
| Frost.Session.PartialSigAgg | src/btclib_ecc/ecc/frost.py:1083-1104 | the errors exactly, otherwise the abscissa of R and the aggregate scalar |
| Frost.FrostCompletes | src/btclib_ecc/ecc/frost.py:285-1104 | any t or more signers, any tweaks: honest shares verify and the aggregate satisfies BIP340 under the hashed b and e, R_1 + b*R_2 not being infinity |
| Frost.DerivedAnswers | src/btclib_ecc/ecc/frost.py:775-819 | what a session derives, each hash with its arguments, over the tweaked threshold key |
| Frost.RunSession | src/btclib_ecc/ecc/frost.py:775-1104 | every signer signs with its own nonce, every partial signature is checked and accepted, and the aggregate verifies |
| Musig2.KeyAgg | src/btclib_ecc/ecc/musig2.py:368-406 | the sum of the keys, at 1 for the first key that differs from the first and at the hash of the list and the key for every other, refused exactly for an empty list or infinity |
| Musig2.CoefficientsAreWeights | src/btclib_ecc/ecc/musig2.py:323-343 | the coefficient of a key by whether it is the second of the list, duplicates included |
| Musig2.DerivedKey | src/btclib_ecc/ecc/musig2.py:705-784 | in every session Q = gacc*Q_0 + tacc*G |
| Musig2.DerivedAnswers | src/btclib_ecc/ecc/musig2.py:705-784 | what a session derives: b hashes the nonces with the adaptor in the first, the tweaked key and the message; R and e follow from them |
| Musig2.Session.SessionValues | src/btclib_ecc/ecc/musig2.py:705-784 | memoized: answers exactly that, and keeps nothing on an error |
| Musig2.Session.Sign | src/btclib_ecc/ecc/musig2.py:807-856 | spends the nonce exactly when the session assembles, signs exactly for the nonce's own key |
| Musig2.Session.PartialSigAggAdaptor | src/btclib_ecc/ecc/musig2.py:1148-1165 | the pre-signature (x(R), aggregate), refused exactly without an adaptor, without a session or for a partial signature out of range |
| Musig2.Session.Adapt | src/btclib_ecc/ecc/musig2.py:1168-1192 | the pre-signature's scalar with t, or -t under an odd R, added; refused exactly for t outside 1..n-1 or without a session |
| Musig2.Session.ExtractAdaptor | src/btclib_ecc/ecc/musig2.py:1195-1213 | the scalar that adapting added, read back by the same parity |
| Musig2.HonestAllVerify | src/btclib_ecc/ecc/musig2.py:956-1044 | every honest partial signature verifies, duplicated keys included |
| Musig2.MusigCompletes | src/btclib_ecc/ecc/musig2.py:368-1145 | for any keys, tweaks and message the aggregate satisfies BIP340, R_1 + b*R_2 not being infinity |
| Musig2.AdaptorCompletes | src/btclib_ecc/ecc/musig2.py:1148-1213 | adapting the pre-signature verifies and extraction returns exactly t, for both parities of R |
| Musig2.ExtractUndoesAdapt | src/btclib_ecc/ecc/musig2.py:1168-1213 | extraction undoes adapting on every pair of scalars |
| Musig2.AnySignatureReveals | src/btclib_ecc/ecc/musig2.py:1195-1213 | any signature that completes the pre-signature, however obtained, reveals exactly t |
| Musig2.RunSession | src/btclib_ecc/ecc/musig2.py:705-1145 | every signer signs with its own nonce, every partial signature is checked and accepted, and the aggregate verifies |
| Musig2.RunAdaptorSession | src/btclib_ecc/ecc/musig2.py:705-1213 | the same with an adaptor: the adapted signature verifies and the secret is read back from it |
| RingWalk.SignedCloses | src/btclib_ecc/ecc/borromean.py:587-657 | the forward walk and the wrap-around walk meet: rings signed under matching keys close for the single forward walk |
| RingWalk.CloseRings | src/btclib_ecc/ecc/borromean.py:587-657 | closes exactly where no step of either walk raises, and what is left: forged scalars as drawn, the signer's own from its challenge, e0 from the ends |
| RingWalk.ClosedDetermined | src/btclib_ecc/ecc/borromean.py:587-657 | what is drawn determines e0 and every scalar, and only walks that end close |
| RingWalk.WalkRings | src/btclib_ecc/ecc/rangeproof.py:1216-1265 | accepts exactly rings that close on e0, and answers the challenge of every key |
| RingWalk.ClosesIff | src/btclib_ecc/ecc/borromean.py:839-871 | rings close exactly where some challenges and points satisfy every hash and every sum, and the last points hash to e0 |
| Borromean.Sign | src/btclib_ecc/ecc/borromean.py:494-657 | whatever is drawn, a signature comes back exactly where no step raises, is the one the draws determine, and is accepted if each key is its ring's at the signing position |
| Borromean.AssertAsValid | src/btclib_ecc/ecc/borromean.py:782-871 | accepts exactly well-formed signatures of the rings' shape that close |
| Borromean.AcceptsIff | src/btclib_ecc/ecc/borromean.py:782-871 | the same with the hash written out: each challenge is the hash of the message, the point before, the ring and the position, reduced and not zero |
| RangeParams.MaxValue | src/btclib_ecc/ecc/rangeproof.py:253-280 | the stepwise refusals are exactly the maximum exceeding a uint64 |
| RangeParams.AssertValidHeader | src/btclib_ecc/ecc/rangeproof.py:283-307 | accepts exactly the headers the format has octets for |
| RangeParams.ProveParams | src/btclib_ecc/ecc/rangeproof.py:386-456 | refuses exactly behind its guard, otherwise value = v*scale + floor, min_value <= floor <= value <= maximum <= 2^64-1 and a valid header; the exponent is the largest under which the precision fits 64 bits, v the quotient it leaves |
| RangeParams.ChosenOnce | src/btclib_ecc/ecc/rangeproof.py:386-456 | those conditions leave one answer to a request |
| RangeParams.DigitsOfValue | src/btclib_ecc/ecc/rangeproof.py:450-456 | the base-4 digits sum to v and each is a position of its ring |
| RangeParams.RoomForFloor | src/btclib_ecc/ecc/rangeproof.py:416-448 | where the exponent's last step leaves room for the mantissa it leaves room for the floor |
| RangeChain.PrepContents | src/btclib_ecc/ecc/rangeproof.py:542-576 | the message heads the buffer, the value sits at its one key of the last ring, the rest is zero |
| RangeChain.BufferOctets | src/btclib_ecc/ecc/rangeproof.py:542-576 | the buffer octet by octet: message, zeros, the encoding at the last key or at the one before it where the digit is the last |
| RangeChain.EncodingOctets | src/btclib_ecc/ecc/rangeproof.py:542-576 | the encoding: 128, seven zeros, and the value three times in eight octets |
| RangeChain.Genrand | src/btclib_ecc/ecc/rangeproof.py:579-625 | the chain of the blocks, refused exactly when a draw is no scalar or the blocks run out |
| RangeChain.ChainIff | src/btclib_ecc/ecc/rangeproof.py:579-625 | a chain is exactly this: a block spent unread, the first scalar after it as factor, the next blocks xored with the buffer as draws, ring by ring, the last factor making the sum vanish |
| RangeChain.XorBitAt | src/btclib_ecc/ecc/rangeproof.py:614-622 | the xor, bit by bit |
| RangeChain.ChainLonger | src/btclib_ecc/ecc/rangeproof.py:579-625 | once a prefix of the block stream reaches the last ring, its chain, or that a draw is refused, is that of every longer prefix |
| RangeChain.FactorsCancel | src/btclib_ecc/ecc/rangeproof.py:579-625 | the blinding factors sum to zero modulo n |
| RangeChain.SameSeed | src/btclib_ecc/ecc/rangeproof.py:579-625 | two chains of one seed share their factors, and their draws differ by what was folded in |
| RangeProofs.PubExpand | src/btclib_ecc/ecc/rangeproof.py:459-489 | key j of ring i is its commitment less j*10^exp*4^i times the generator |
| RangeProofs.KeyAtDigit | src/btclib_ecc/ecc/rangeproof.py:465-467 | the key at the digit is the ring's secret times G |
| RangeProofs.PubkRings | src/btclib_ecc/ecc/rangeproof.py:740-792 | the rings of a proof, the last commitment recovered from the value commitment |
| RangeProofs.VerifyRings | src/btclib_ecc/ecc/rangeproof.py:1216-1309 | holds exactly for a valid proof without zero scalars or infinite keys whose rings close over its message, which RangeMessage.HoldsIff spells out |
| RangeMessage.RingMessageStates | src/btclib_ecc/ecc/rangeproof.py:1268-1287 | the octets the signer and the verifier hash: commitment, generator, header, stated commitments and the extra octets, each in its place |
| RangeMessage.RingMessageBinds | src/btclib_ecc/ecc/rangeproof.py:1268-1287 | under a digest without collisions, equal messages have equal commitments, generators, headers, stated commitments and extra octets |
| RangeMessage.HoldsIff | src/btclib_ecc/ecc/rangeproof.py:1216-1309 | a proof holds exactly where some challenges and points over those octets satisfy every hash and every sum, and hash to e0 |
| RangeMessage.HeaderOctetsState | src/btclib_ecc/ecc/rangeproof.py:310-335 | bit 6 says a mantissa follows, bit 5 a floor, the low five are the exponent; the second octet is the mantissa less one |
| RangeMessage.SeedOnce | src/btclib_ecc/ecc/rangeproof.py:338-360 | a chain's seed is of one nonce, commitment, generator and header |
| RangeSigning.SecretsSum | src/btclib_ecc/ecc/rangeproof.py:1147-1154 | the ring secrets sum to the caller's blinding factor |
| RangeSigning.RingsRebuilt | src/btclib_ecc/ecc/rangeproof.py:740-792 | a verifier rebuilds exactly the rings that were signed |
| RangeSigning.Sign | src/btclib_ecc/ecc/rangeproof.py:1059-1190 | a proof comes back exactly where the request can be prepared, its last secret is not zero, its commitments are finite and its walk closes with no zero scalar; it is the one proof made of the parameters, chain and walk described |
| RangeSigning.SeedOfStates | src/btclib_ecc/ecc/rangeproof.py:1130-1145 | the signer's seed: the nonce, then commitment, generator and header |
| RangeSigning.SignedHeader | src/btclib_ecc/ecc/rangeproof.py:1183-1190 | the header of a signed proof is that of its parameters, a floor of zero left out, and its stated commitments are those of its digits |
| RangeSigning.SignedOnce | src/btclib_ecc/ecc/rangeproof.py:1059-1190 | a request has at most one preparation and one proof |
| RangeSigning.SignedSucceeds | src/btclib_ecc/ecc/rangeproof.py:1137-1190 | what is signed meets every one of those conditions |
| RangeSigning.SignedHolds | src/btclib_ecc/ecc/rangeproof.py:1336-1370 | a signed proof holds if and only if no ring key is the point at infinity |
| RangeRewind.RecoversX | src/btclib_ecc/ecc/rangeproof.py:1438-1447 | the scalar is read back out of k - e*x |
| RangeRewind.RecoversK | src/btclib_ecc/ecc/rangeproof.py:1450-1459 | the nonce is read back out of k - e*x |
| RangeRewind.FindsValue | src/btclib_ecc/ecc/rangeproof.py:1475-1493 | the value is found where it was written unless the last key mimics an encoding |
| RangeRewind.Rewind | src/btclib_ecc/ecc/rangeproof.py:1512-1619 | what it answers opens the commitment of a proof that holds; refused exactly unless the proof holds, the raw chain draws and what is read opens the commitment |
| RangeRewind.SeedForStates | src/btclib_ecc/ecc/rangeproof.py:1512-1619 | the rewinder's seed: the nonce it holds, then commitment, generator and the proof's header |
| RangeRewind.RewindExact | src/btclib_ecc/ecc/rangeproof.py:1512-1619 | a rewind of a signed proof answers exactly the blind, the value and the message followed by zeros, if and only if the last key does not mimic an encoding |
| RangeRewind.MisreadInput | src/btclib_ecc/ecc/rangeproof.py:1475-1493 | a view of a signed proof whose last key mimics an encoding: the value is 1 and 0 is read |
| RangeRewind.EndToEnd | src/btclib_ecc/ecc/rangeproof.py:1059-1619 | sign, verify, rewind: when a proof comes back, when it holds and when the rewind is exact, each an equivalence |
| RangeOctets.ParseSerialize | src/btclib_ecc/ecc/rangeproof.py:885-981 | parse undoes serialize on every valid proof with an e0 of 32 octets |
| RangeOctets.SerializeParse | src/btclib_ecc/ecc/rangeproof.py:885-981 | serialize undoes parse on accepted octets if and only if the five low flag bits are zero where bit 6 is clear |
| RangeOctets.StrayInput | src/btclib_ecc/ecc/rangeproof.py:915-981 | octets with flags 1 that are accepted and written back with flags 0 |
| RangeOctets.Serialize | src/btclib_ecc/ecc/rangeproof.py:885-912 | the octets, the sign bits being set in place |
| RangeLayout.SerializedStates | src/btclib_ecc/ecc/rangeproof.py:885-912 | header, sign bits, abscissas, e0 and scalars, each at its offset |
| RangeLayout.HeaderReads | src/btclib_ecc/ecc/rangeproof.py:915-950 | which bit says which field follows, what value each field holds, and when a header is refused |
| RangeOctets.Parse | src/btclib_ecc/ecc/rangeproof.py:915-981 | the stream is read to its end, or the octets refused |
| RangeOctets.UnpackPack | src/btclib_ecc/ecc/rangeproof.py:901-904 | packed sign bits unpack to themselves with clear padding |
| Ecdsa.SignVerifyRecover | src/btclib_ecc/ecc/dsa.py:553-626 | every signature made verifies and its key_id recovers exactly the signer's key, with or without the low-s flip and for x_K at or above n |
| Ecdsa.SignAnswers | src/btclib_ecc/ecc/dsa.py:553-626 | a signature comes back exactly where r and s are not zero; s is the nonce's quotient with its key_id, negated with the parity flipped exactly where a low s is asked for and it is above n/2 |
| Ecdsa.ValidIff | src/btclib_ecc/ecc/dsa.py:1594-1655 | a signature is valid under q*G exactly where some nonce signs it, s being low where that is asked for |
| Ecdsa.HighRefused | src/btclib_ecc/ecc/dsa.py:1594-1655 | a high s is refused by verification and by recovery where a low one is asked for |
| Ecdsa.RecoverIff | src/btclib_ecc/ecc/dsa.py:2215-2361 | a key_id recovers exactly the finite Q of s*K = c*G + r*Q, for the K of its abscissa and parity |
| Ecdsa.RecoverIffVerify | src/btclib_ecc/ecc/dsa.py:2215-2361 | a key verifies a signature if and only if some key_id recovers it |
| Ecdsa.RecoveredVerifies | src/btclib_ecc/ecc/dsa.py:1594-1655 | so step 1.6.2 of SEC 1 section 4.1.6 has nothing left to refuse on a curve of cofactor one |
| Der.ParseSerialize | src/btclib_ecc/ecc/dsa.py:403-500 | strict parsing undoes serialization for all r, s in 1..n-1 |
| Der.StrictIsCanonical | src/btclib_ecc/ecc/dsa.py:413-500 | strict parsing accepts canonical octets only, and lax parsing reads them as the same (r, s) |
| Der.StrictIff | src/btclib_ecc/ecc/dsa.py:143-500 | the octets strict parsing accepts are exactly those serialization writes within 70 octets of data |
| Der.ScalarCanonical | src/btclib_ecc/ecc/dsa.py:143-147 | a written scalar is neither padded nor negative |
| Der.ParseDerSize | src/btclib_ecc/ecc/dsa.py:173-212 | the size and what follows it, short form when strict and CompactSize when lax |
| Der.Parse | src/btclib_ecc/ecc/dsa.py:413-500 | consuming the stream reads what the octets say, trailing octets refused when strict |
| DerForms.SizeIff | src/btclib_ecc/ecc/dsa.py:173-212 | what a size is: one octet below 0x80 when strict, CompactSize of at most five octets when lax |
| DerForms.IntegerIff | src/btclib_ecc/ecc/dsa.py:231-256 | an integer is the tag 0x02, a size and that many octets; a padded or negative one is read as unsigned when lax and refused when strict |
| DerForms.PaddingIgnored | src/btclib_ecc/ecc/dsa.py:231-256 | a zero octet in front does not change what lax parsing reads |
| DerForms.SignatureIff | src/btclib_ecc/ecc/dsa.py:413-500 | a signature is the tag 0x30 and an element that is two integers and nothing else, with or without strict bounds |
| DerForms.LengthForms | src/btclib_ecc/ecc/dsa.py:128-140 | the length octets: short below 128, otherwise 0x80 and the count of the shortest big-endian octets |
| DerForms.WrittenOctets | src/btclib_ecc/ecc/dsa.py:403-411 | a written signature octet by octet |

## Left out

- The libsecp256k1 bindings and the dispatch to them; only the Python arms are modelled.
- Type coercion, error messages, string forms, deprecation, and the encoding of points: a point is a point, and in range proofs its octets are an assumed inverse pair.
- Hash functions, HMAC, RFC 6979, `secrets`: uninterpreted or arbitrary. Timing and wiping, except the operation counts of the regular windows and the zeroing of secret nonces.
- RangeChain.Genrand: the endless block stream is any finite prefix of it, so a run that would draw past the prefix is an error here; what a prefix that reaches the last ring answers is what every longer one answers (`RangeChain.ChainLonger`).
- BosCoster.Pop: the heap is any way of giving up an entry of largest scalar, not the binary heap of `heapq`, which is not part of this model.
- ScalarMult.MultRegularWindow: `math.ceil` of a true division is integer ceiling division, equal to it for the sizes scalars have.
- Memoized tables: a cached table is recomputed, its entries being the same.
- `_mult_aff_var`, the recursive, Montgomery-ladder, base-3 and fixed-window multiplications, and `_double_mult_var`: the same group algebra as the ones modelled, with simpler recodings.
- `mod_inv_batch` (the blinded batch) repeats `mod_inv` over `mod_inv_batch_var`.
- Primality.IsOddPrimeVar: that no composite is accepted is not stated; no proof of it is known beyond 2^64, and below it rests on a published search.
- `deterministic_sign` and the nonce derivations of MuSig2 and FROST: hashing around the `sign` that is modelled. `key_sort` is a sort of octets.
- Curves of cofactor above one in key recovery, and points of y = 0, whose Jacobian and affine readings differ.
- Der.DerLength: sizes of more than 127 octets of length octets, which Python refuses too, are excluded by a precondition.
- `_grind_low_r`, `Signer`, sign-to-contract commitments and anti-exfil: loops and hashes around the signature that is modelled.
- `ssa.py`: BIP340's verification equation is the specification of the aggregate signatures instead. `ellswift.py`, `pedersen.py`'s second generator, `ecies.py`, `dh.py`, `dleq.py`, `kdf.py`: not modelled.
