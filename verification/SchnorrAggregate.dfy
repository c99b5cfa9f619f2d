/** Partial Schnorr signatures over an aggregate nonce, as MuSig2 and FROST make, check and sum them. */
module SchnorrAggregate {
  import opened Modular
  import opened Groups
  import opened SchnorrGroup
  import opened KeyTweak

  datatype PubNonce<+P> = PubNonce(R1: P, R2: P)

  /** What every party of a session derives: the tweaked key, the nonce coefficient, nonce and challenge. */
  datatype SessionValues<P> = SessionValues(Q: P, gacc: int, tacc: int, b: int, R: P, e: int)

  function Combined<P(!new)>(c: Schnorr<P>, b: int, N: PubNonce<P>): P {
    c.g.add(N.R1, Mul(c.g, b, N.R2))
  }

  /** The nonce R_1 + b*R_2, or G where that is infinity. */
  function EffectiveNonce<P(==, !new)>(c: Schnorr<P>, b: int, N: PubNonce<P>): P {
    if Combined(c, b, N) == c.g.zero then c.G else Combined(c, b, N)
  }

  /** A nonce as it enters the equation: negated when the session's R is odd. */
  function Side<P(!new)>(c: Schnorr<P>, v: SessionValues<P>, N: PubNonce<P>): P {
    if c.odd(v.R) then c.g.neg(Combined(c, v.b, N)) else Combined(c, v.b, N)
  }

  function KeyFactor<P(!new)>(c: Schnorr<P>, v: SessionValues<P>): int
    requires c.n > 0
  {
    ParityFactor(c, v.Q) * v.gacc % c.n
  }

  /** s*G = R_s + e*a*g*P, what partial_sig_verify_ answers. */
  function PartialVerifies<P(==, !new)>(c: Schnorr<P>, v: SessionValues<P>, s: int, N: PubNonce<P>, K: P, a: int): bool
    requires c.n > 0
  {
    0 <= s < c.n && Mul(c.g, s, c.G) == c.g.add(Side(c, v, N), Mul(c.g, v.e * a * KeyFactor(c, v) % c.n, K))
  }

  /** The scalar a signer of key d and nonces k1, k2 answers. */
  function PartialSignature<P(!new)>(c: Schnorr<P>, v: SessionValues<P>, k1: int, k2: int, a: int, d: int): int
    requires c.n > 0
  {
    var (l1, l2) := if c.odd(v.R) then (c.n - k1, c.n - k2) else (k1, k2);
    var key := ParityFactor(c, v.Q) * v.gacc * d % c.n;
    (l1 + v.b * l2 + v.e * a * key) % c.n
  }

  lemma PartialInRange<P(!new)>(c: Schnorr<P>, v: SessionValues<P>, k1: int, k2: int, a: int, d: int)
    requires c.n > 0
    ensures 0 <= PartialSignature(c, v, k1, k2, a, d) < c.n
  {
    var (l1, l2) := if c.odd(v.R) then (c.n - k1, c.n - k2) else (k1, k2);
    ModCong(l1 + v.b * l2 + v.e * a * (ParityFactor(c, v.Q) * v.gacc * d % c.n), c.n);
  }

  function NonceOf<P(!new)>(c: Schnorr<P>, k1: int, k2: int): PubNonce<P> {
    PubNonce(Mul(c.g, k1, c.G), Mul(c.g, k2, c.G))
  }

  /** The nonce side of an honest signer, whichever the parity of R. */
  lemma HonestSide<P(!new)>(c: Schnorr<P>, v: SessionValues<P>, k1: int, k2: int)
    requires Laws(c)
    ensures var (l1, l2) := if c.odd(v.R) then (c.n - k1, c.n - k2) else (k1, k2);
            Side(c, v, NonceOf(c, k1, k2)) == Mul(c.g, l1 + v.b * l2, c.G)
  {
    CombinedScalar(c, v.b, k1, k2);
    if c.odd(v.R) {
      CombinedScalar(c, v.b, c.n - k1, c.n - k2);
      MulNeg(c.g, k1 + v.b * k2, c.G);
      NegatedNonce(c.n, v.b, k1, k2);
      SameMultiple(c, (c.n - k1) + v.b * (c.n - k2), -(k1 + v.b * k2), c.G);
    }
  }

  lemma NegatedNonce(n: int, b: int, k1: int, k2: int)
    requires n > 0
    ensures Cong((n - k1) + b * (n - k2), -(k1 + b * k2), n)
  {
    assert b * (n - k2) == b * n - b * k2;
    CongFrom((n - k1) + b * (n - k2), -(k1 + b * k2), 1 + b, n);
  }

  lemma CombinedScalar<P(!new)>(c: Schnorr<P>, b: int, k1: int, k2: int)
    requires Laws(c)
    ensures Combined(c, b, NonceOf(c, k1, k2)) == Mul(c.g, k1 + b * k2, c.G)
  {
    MulMul(c.g, b, k2, c.G);
    MulAdd(c.g, k1, b * k2, c.G);
  }

  /** An honest partial signature verifies. */
  lemma HonestVerifies<P(!new)>(c: Schnorr<P>, v: SessionValues<P>, k1: int, k2: int, a: int, d: int)
    requires Laws(c)
    ensures PartialVerifies(c, v, PartialSignature(c, v, k1, k2, a, d), NonceOf(c, k1, k2), Mul(c.g, d, c.G), a)
  {
    var (l1, l2) := if c.odd(v.R) then (c.n - k1, c.n - k2) else (k1, k2);
    HonestSide(c, v, k1, k2);
    KeySide(c, l1 + v.b * l2, v.e * a, ParityFactor(c, v.Q) * v.gacc, d);
  }

  /** s + u*(f*d) and the signature's two sides agree on the point. */
  lemma KeySide<P(!new)>(c: Schnorr<P>, s: int, u: int, f: int, d: int)
    requires Laws(c)
    ensures Mul(c.g, (s + u * (f * d % c.n)) % c.n, c.G)
         == c.g.add(Mul(c.g, s, c.G), Mul(c.g, u * (f % c.n) % c.n, Mul(c.g, d, c.G)))
    ensures 0 <= (s + u * (f * d % c.n)) % c.n < c.n
  {
    var key, h := f * d % c.n, u * (f % c.n) % c.n;
    ReducedMultiple(c, s + u * key, c.G);
    KeyTerm(c.n, u, f, d);
    MulMul(c.g, h, d, c.G);
    SameMultiple(c, u * key, h * d, c.G);
    MulAdd(c.g, s, u * key, c.G);
  }

  /** e*a*(f*d mod n) and (e*a*(f mod n) mod n)*d agree modulo n. */
  lemma KeyTerm(n: int, u: int, f: int, d: int)
    requires n > 0
    ensures Cong(u * (f * d % n), (u * (f % n) % n) * d, n)
  {
    ModCong(f * d, n);
    CongScale(u, f * d % n, f * d, n);
    ModCong(f, n);
    CongScale(u, f % n, f, n);
    ModCong(u * (f % n), n);
    CongMul(u * (f % n) % n, u * f, d, d, n);
    assert u * (f * d) == (u * f) * d;
  }

  // ---- the aggregate

  function FirstHalves<P>(Ns: seq<PubNonce<P>>): (r: seq<P>)
    ensures |r| == |Ns|
  {
    seq(|Ns|, i requires 0 <= i < |Ns| => Ns[i].R1)
  }

  function SecondHalves<P>(Ns: seq<PubNonce<P>>): (r: seq<P>)
    ensures |r| == |Ns|
  {
    seq(|Ns|, i requires 0 <= i < |Ns| => Ns[i].R2)
  }

  /** The sum of the published nonces, half by half. */
  function NonceAgg<P(!new)>(c: Schnorr<P>, Ns: seq<PubNonce<P>>): PubNonce<P> {
    PubNonce(PointSum(c.g, FirstHalves(Ns)), PointSum(c.g, SecondHalves(Ns)))
  }

  ghost predicate NoncesIn<P>(c: Schnorr<P>, Ns: seq<PubNonce<P>>) {
    forall i :: 0 <= i < |Ns| ==> c.g.has(Ns[i].R1) && c.g.has(Ns[i].R2)
  }

  lemma NonceAggLast<P(!new)>(c: Schnorr<P>, Ns: seq<PubNonce<P>>)
    requires Laws(c) && NoncesIn(c, Ns) && Ns != []
    ensures var n := |Ns| - 1;
            var B := NonceAgg(c, Ns[..n]);
            NonceAgg(c, Ns) == PubNonce(c.g.add(B.R1, Ns[n].R1), c.g.add(B.R2, Ns[n].R2)) && c.g.has(B.R1) && c.g.has(B.R2)
  {
    var n := |Ns| - 1;
    assert FirstHalves(Ns)[..n] == FirstHalves(Ns[..n]);
    assert SecondHalves(Ns)[..n] == SecondHalves(Ns[..n]);
    PointSumIn(c.g, FirstHalves(Ns[..n]));
    PointSumIn(c.g, SecondHalves(Ns[..n]));
  }

  /** The nonce side of a sum is the sum of the nonce sides. */
  lemma SideAdds<P(!new)>(c: Schnorr<P>, v: SessionValues<P>, A: PubNonce<P>, B: PubNonce<P>)
    requires Laws(c) && c.g.has(A.R1) && c.g.has(A.R2) && c.g.has(B.R1) && c.g.has(B.R2)
    ensures Side(c, v, PubNonce(c.g.add(A.R1, B.R1), c.g.add(A.R2, B.R2))) == c.g.add(Side(c, v, A), Side(c, v, B))
  {
    MulPoints(c.g, v.b, A.R2, B.R2);
    Interchange(c.g, A.R1, B.R1, Mul(c.g, v.b, A.R2), Mul(c.g, v.b, B.R2));
    NegAdd(c.g, Combined(c, v.b, A), Combined(c, v.b, B));
  }

  function SumScalars(ss: seq<int>): int {
    if ss == [] then 0 else SumScalars(ss[..|ss| - 1]) + ss[|ss| - 1]
  }

  /** Every partial signature verifies against its nonce, its key and its coefficient. */
  ghost predicate AllVerify<P(!new)>(c: Schnorr<P>, v: SessionValues<P>, ss: seq<int>, Ns: seq<PubNonce<P>>, Ks: seq<P>, as_: seq<int>)
    requires c.n > 0
  {
    && |ss| == |Ns| == |Ks| == |as_|
    && forall i :: 0 <= i < |ss| ==> PartialVerifies(c, v, ss[i], Ns[i], Ks[i], as_[i])
  }

  lemma VerifiedTerm<P(!new)>(c: Schnorr<P>, v: SessionValues<P>, s: int, N: PubNonce<P>, K: P, a: int)
    requires Laws(c) && c.g.has(K) && PartialVerifies(c, v, s, N, K, a)
    ensures Mul(c.g, s, c.G) == c.g.add(Side(c, v, N), Mul(c.g, v.e * KeyFactor(c, v), Mul(c.g, a, K)))
  {
    WeightedKey(c, v.e, a, KeyFactor(c, v), K);
  }

  lemma WeightedKey<P(!new)>(c: Schnorr<P>, e: int, a: int, f: int, K: P)
    requires Laws(c) && c.g.has(K)
    ensures Mul(c.g, e * a * f % c.n, K) == Mul(c.g, e * f, Mul(c.g, a, K))
  {
    ReducedMultiple(c, e * a * f, K);
    MulMul(c.g, e * f, a, K);
    SwapFactors(e, a, f);
  }

  lemma SwapFactors(e: int, a: int, f: int)
    ensures e * f * a == e * a * f
  {
    assert e * f * a == e * (f * a);
  }

  /** Every partial signature is its nonce side and f times its weighted key. */
  ghost predicate Terms<P(!new)>(c: Schnorr<P>, v: SessionValues<P>, f: int, ss: seq<int>, Ns: seq<PubNonce<P>>, Ks: seq<P>, as_: seq<int>) {
    && |ss| == |Ns| == |Ks| == |as_|
    && forall i :: 0 <= i < |ss| ==>
         Mul(c.g, ss[i], c.G) == c.g.add(Side(c, v, Ns[i]), Mul(c.g, f, Mul(c.g, as_[i], Ks[i])))
  }

  lemma VerifiedTerms<P(!new)>(c: Schnorr<P>, v: SessionValues<P>, f: int, ss: seq<int>, Ns: seq<PubNonce<P>>, Ks: seq<P>, as_: seq<int>)
    requires Laws(c) && AllVerify(c, v, ss, Ns, Ks, as_) && AllIn(c.g, Ks) && f == v.e * KeyFactor(c, v)
    ensures Terms(c, v, f, ss, Ns, Ks, as_)
  {
    forall i | 0 <= i < |ss| ensures Mul(c.g, ss[i], c.G) == c.g.add(Side(c, v, Ns[i]), Mul(c.g, f, Mul(c.g, as_[i], Ks[i]))) {
      VerifiedTerm(c, v, ss[i], Ns[i], Ks[i], as_[i]);
    }
  }

  /** The partial signatures sum to the aggregate nonce and f times the sum of the weighted keys. */
  lemma {:induction false} PartialSum<P(!new)>(c: Schnorr<P>, v: SessionValues<P>, f: int, ss: seq<int>, Ns: seq<PubNonce<P>>, Ks: seq<P>, as_: seq<int>)
    requires Laws(c) && Terms(c, v, f, ss, Ns, Ks, as_) && NoncesIn(c, Ns) && AllIn(c.g, Ks)
    ensures Mul(c.g, SumScalars(ss), c.G) == c.g.add(Side(c, v, NonceAgg(c, Ns)), Mul(c.g, f, MulSum(c.g, as_, Ks)))
    decreases |ss|
  {
    if ss == [] {
      MulZero(c.g, v.b);
      MulZero(c.g, f);
      NegZero(c.g);
    } else {
      var n := |ss| - 1;
      PartialSum(c, v, f, ss[..n], Ns[..n], Ks[..n], as_[..n]);
      SidesLast(c, v, Ns, n);
      KeySumLast(c, as_, Ks, f);
      TermAdds(c, SumScalars(ss[..n]), ss[n], Side(c, v, NonceAgg(c, Ns[..n])), Mul(c.g, f, MulSum(c.g, as_[..n], Ks[..n])),
        Side(c, v, Ns[n]), Mul(c.g, f, Mul(c.g, as_[n], Ks[n])));
    }
  }

  /** The nonce side of all is that of all but the last, and the last's. */
  lemma SidesLast<P(!new)>(c: Schnorr<P>, v: SessionValues<P>, Ns: seq<PubNonce<P>>, n: nat)
    requires Laws(c) && NoncesIn(c, Ns) && n == |Ns| - 1
    ensures var A, B := Side(c, v, NonceAgg(c, Ns[..n])), Side(c, v, Ns[n]);
            c.g.has(A) && c.g.has(B) && Side(c, v, NonceAgg(c, Ns)) == c.g.add(A, B)
  {
    NonceAggLast(c, Ns);
    SideAdds(c, v, NonceAgg(c, Ns[..n]), Ns[n]);
  }

  /** (A + K) + (B + L) = (A + B) + (K + L), and the scalars add. */
  lemma TermAdds<P(!new)>(c: Schnorr<P>, a: int, b: int, A: P, K: P, B: P, L: P)
    requires Laws(c) && c.g.has(A) && c.g.has(K) && c.g.has(B) && c.g.has(L)
    requires Mul(c.g, a, c.G) == c.g.add(A, K) && Mul(c.g, b, c.G) == c.g.add(B, L)
    ensures Mul(c.g, a + b, c.G) == c.g.add(c.g.add(A, B), c.g.add(K, L))
  {
    MulAdd(c.g, a, b, c.G);
    Interchange(c.g, A, K, B, L);
  }

  lemma KeySumLast<P(!new)>(c: Schnorr<P>, as_: seq<int>, Ks: seq<P>, f: int)
    requires Laws(c) && AllIn(c.g, Ks) && |as_| == |Ks| > 0
    ensures var n := |as_| - 1;
            var before := MulSum(c.g, as_[..n], Ks[..n]);
            c.g.has(before) && Mul(c.g, f, MulSum(c.g, as_, Ks)) == c.g.add(Mul(c.g, f, before), Mul(c.g, f, Mul(c.g, as_[n], Ks[n])))
  {
    var n := |as_| - 1;
    assert as_ == as_[..n] + [as_[n]] && Ks == Ks[..n] + [Ks[n]];
    MulSumConcat(c.g, as_[..n], Ks[..n], as_[n], Ks[n]);
    assert AllIn(c.g, Ks[..n]);
    MulPoints(c.g, f, MulSum(c.g, as_[..n], Ks[..n]), Mul(c.g, as_[n], Ks[n]));
  }

  /** The sum with the tweaks' contribution, which is added once for the group. */
  function Aggregate<P(!new)>(c: Schnorr<P>, v: SessionValues<P>, ss: seq<int>): int
    requires c.n > 0
  {
    (SumScalars(ss) + v.e * ParityFactor(c, v.Q) * v.tacc) % c.n
  }

  /** _agg_s: None for a partial signature that is not a scalar. */
  method AggS<P(!new)>(c: Schnorr<P>, v: SessionValues<P>, psigs: seq<nat>) returns (r: Option<int>)
    requires c.n > 0
    ensures r.None? <==> exists i :: 0 <= i < |psigs| && psigs[i] >= c.n
    ensures r.Some? ==> r.value == Aggregate(c, v, psigs)
  {
    var s := 0;
    for i := 0 to |psigs|
      invariant Cong(s, SumScalars(psigs[..i]), c.n)
      invariant forall k :: 0 <= k < i ==> psigs[k] < c.n
    {
      if psigs[i] >= c.n { return None; }
      assert psigs[..i + 1][..i] == psigs[..i];
      CongAdd(s, SumScalars(psigs[..i]), psigs[i], psigs[i], c.n);
      ModCong(s + psigs[i], c.n);
      s := (s + psigs[i]) % c.n;
    }
    assert psigs[..|psigs|] == psigs;
    var t := v.e * ParityFactor(c, v.Q) * v.tacc;
    CongAdd(s, SumScalars(psigs), t, t, c.n);
    return Some((s + t) % c.n);
  }

  /** gacc*Q0 + tacc*G, multiplied by e and made even. */
  lemma TweakedKeyTerm<P(!new)>(c: Schnorr<P>, v: SessionValues<P>, Q0: P)
    requires Laws(c) && c.g.has(Q0) && Tweaked(c, Q0, TweakContext(v.Q, v.gacc, v.tacc))
    ensures c.g.add(Mul(c.g, v.e * KeyFactor(c, v), Q0), Mul(c.g, v.e * ParityFactor(c, v.Q) * v.tacc, c.G))
         == Mul(c.g, v.e, Even(c, v.Q))
  {
    var f := ParityFactor(c, v.Q);
    EvenIsMultiple(c, v.Q);
    MulMul(c.g, v.e, f, v.Q);
    FactorOut(c, v.e * f, v.gacc, Q0, v.tacc);
    KeyFactorCong(c.n, v.e, f, v.gacc);
    SameMultiple(c, v.e * KeyFactor(c, v), (v.e * f) * v.gacc, Q0);
  }

  /** u*(a*Q + b*G) = (u*a)*Q + (u*b)*G. */
  lemma FactorOut<P(!new)>(c: Schnorr<P>, u: int, a: int, Q: P, b: int)
    requires Laws(c) && c.g.has(Q)
    ensures Mul(c.g, u, c.g.add(Mul(c.g, a, Q), Mul(c.g, b, c.G))) == c.g.add(Mul(c.g, u * a, Q), Mul(c.g, u * b, c.G))
  {
    MulPoints(c.g, u, Mul(c.g, a, Q), Mul(c.g, b, c.G));
    MulMul(c.g, u, a, Q);
    MulMul(c.g, u, b, c.G);
  }

  lemma KeyFactorCong(n: int, e: int, f: int, gacc: int)
    requires n > 0
    ensures Cong(e * (f * gacc % n), (e * f) * gacc, n)
  {
    ModCong(f * gacc, n);
    CongScale(e, f * gacc % n, f * gacc, n);
    assert e * (f * gacc) == (e * f) * gacc;
  }

  /** The aggregate scalar times G: the aggregate nonce and e times the even tweaked key. */
  lemma AggregateEquation<P(!new)>(c: Schnorr<P>, v: SessionValues<P>, Q0: P, ss: seq<int>, Ns: seq<PubNonce<P>>, Ks: seq<P>, as_: seq<int>)
    requires Laws(c) && AllVerify(c, v, ss, Ns, Ks, as_) && NoncesIn(c, Ns) && AllIn(c.g, Ks)
    requires MulSum(c.g, as_, Ks) == Q0 && Tweaked(c, Q0, TweakContext(v.Q, v.gacc, v.tacc))
    ensures Mul(c.g, Aggregate(c, v, ss), c.G) == c.g.add(Side(c, v, NonceAgg(c, Ns)), Mul(c.g, v.e, Even(c, v.Q)))
  {
    var f, t, E := v.e * KeyFactor(c, v), v.e * ParityFactor(c, v.Q) * v.tacc, Mul(c.g, v.e, Even(c, v.Q));
    KeysIn(c, as_, Ks);
    TweakedKeyTerm(c, v, Q0);
    VerifiedTerms(c, v, f, ss, Ns, Ks, as_);
    AggregateScalar(c, v, f, t, E, ss, Ns, Ks, as_);
  }

  lemma KeysIn<P(!new)>(c: Schnorr<P>, as_: seq<int>, Ks: seq<P>)
    requires Laws(c) && AllIn(c.g, Ks) && |as_| == |Ks|
    ensures c.g.has(MulSum(c.g, as_, Ks))
  {
  }

  /** The reduced sum with t added once: the aggregate nonce, f times the keys and t*G. */
  lemma AggregateScalar<P(!new)>(c: Schnorr<P>, v: SessionValues<P>, f: int, t: int, E: P, ss: seq<int>, Ns: seq<PubNonce<P>>, Ks: seq<P>, as_: seq<int>)
    requires Laws(c) && Terms(c, v, f, ss, Ns, Ks, as_) && NoncesIn(c, Ns) && AllIn(c.g, Ks)
    requires c.g.add(Mul(c.g, f, MulSum(c.g, as_, Ks)), Mul(c.g, t, c.G)) == E
    ensures Mul(c.g, (SumScalars(ss) + t) % c.n, c.G) == c.g.add(Side(c, v, NonceAgg(c, Ns)), E)
  {
    KeysIn(c, as_, Ks);
    PartialSum(c, v, f, ss, Ns, Ks, as_);
    SideIn(c, v, Ns);
    ThreeParts(c, SumScalars(ss), t, Side(c, v, NonceAgg(c, Ns)), Mul(c.g, f, MulSum(c.g, as_, Ks)));
  }

  lemma ThreeParts<P(!new)>(c: Schnorr<P>, a: int, t: int, A: P, K: P)
    requires Laws(c) && c.g.has(A) && c.g.has(K) && Mul(c.g, a, c.G) == c.g.add(A, K)
    ensures Mul(c.g, (a + t) % c.n, c.G) == c.g.add(A, c.g.add(K, Mul(c.g, t, c.G)))
  {
    ReducedMultiple(c, a + t, c.G);
    MulAdd(c.g, a, t, c.G);
    assert Associates(c.g, A, K, Mul(c.g, t, c.G));
  }

  lemma SideIn<P(!new)>(c: Schnorr<P>, v: SessionValues<P>, Ns: seq<PubNonce<P>>)
    requires Laws(c) && NoncesIn(c, Ns)
    ensures c.g.has(NonceAgg(c, Ns).R1) && c.g.has(NonceAgg(c, Ns).R2)
    ensures c.g.has(Combined(c, v.b, NonceAgg(c, Ns))) && c.g.has(Side(c, v, NonceAgg(c, Ns)))
  {
    PointSumIn(c.g, FirstHalves(Ns));
    PointSumIn(c.g, SecondHalves(Ns));
  }

  /** Partial signatures that verify aggregate to a BIP340 signature under the tweaked key. */
  lemma AggregateVerifies<P(!new)>(c: Schnorr<P>, v: SessionValues<P>, Q0: P, ss: seq<int>, Ns: seq<PubNonce<P>>, Ks: seq<P>, as_: seq<int>)
    requires Laws(c) && AllVerify(c, v, ss, Ns, Ks, as_) && NoncesIn(c, Ns) && AllIn(c.g, Ks)
    requires MulSum(c.g, as_, Ks) == Q0 && Tweaked(c, Q0, TweakContext(v.Q, v.gacc, v.tacc))
    requires v.R == Combined(c, v.b, NonceAgg(c, Ns)) && v.R != c.g.zero
    ensures Verifies(c, v.Q, v.e, c.x(v.R), Aggregate(c, v, ss))
  {
    AggregateEquation(c, v, Q0, ss, Ns, Ks, as_);
    SideIn(c, v, Ns);
    ModCong(SumScalars(ss) + v.e * ParityFactor(c, v.Q) * v.tacc, c.n);
    EquationVerifies(c, v.Q, v.e, Aggregate(c, v, ss), v.R);
  }

  // ---- spending a nonce

  /** The two scalars a signer keeps from round 1, which signing overwrites with zeros. */
  class SecNonce {
    var k1: int
    var k2: int

    constructor (k1: int, k2: int)
      ensures this.k1 == k1 && this.k2 == k2
    {
      this.k1, this.k2 := k1, k2;
    }

    /** The scalars, handed out once: the nonce holds zeros from here on. */
    method Spend() returns (a: int, b: int)
      modifies this
      ensures a == old(k1) && b == old(k2) && k1 == 0 && k2 == 0
    {
      a, b := k1, k2;
      k1, k2 := 0, 0;
    }
  }
}
