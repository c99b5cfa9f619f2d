/** FROST threshold signing: shares on a polynomial, one session's values, signing and aggregating. */
module Frost {
  import opened Modular
  import opened Groups
  import opened Polynomials
  import opened Interpolation
  import opened SchnorrGroup
  import opened KeyTweak
  import opened SchnorrAggregate

  const MAX_PARTICIPANTS: nat := 128

  // ---- interpolation in the exponent

  function Weights(ids: seq<int>, x: int, n: int): (ws: seq<int>)
    requires n > 0
    ensures |ws| == |ids|
  {
    seq(|ids|, i requires 0 <= i < |ids| => Weight(ids, ids[i], x, n))
  }

  /** The shares interpolated at x. */
  function PubshareAt<P(!new)>(c: Schnorr<P>, ids: seq<int>, shares: seq<P>, x: int): P
    requires c.n > 0 && |ids| == |shares|
  {
    MulSum(c.g, Weights(ids, x, c.n), shares)
  }

  ghost predicate SharesOf<P(!new)>(c: Schnorr<P>, shares: seq<P>, ys: seq<int>) {
    |shares| == |ys| && forall i :: 0 <= i < |ys| ==> shares[i] == Mul(c.g, ys[i], c.G)
  }

  lemma {:induction false} PrefixInterpolates<P(!new)>(c: Schnorr<P>, ids: seq<int>, shares: seq<P>, ys: seq<int>, x: int, k: nat)
    requires Laws(c) && SharesOf(c, shares, ys) && |ids| == |ys| && k <= |ids|
    ensures MulSum(c.g, Weights(ids, x, c.n)[..k], shares[..k]) == Mul(c.g, WeightedSum(ids, ys, x, c.n, k), c.G)
    decreases k
  {
    if k > 0 {
      var ws, i := Weights(ids, x, c.n), k - 1;
      PrefixInterpolates(c, ids, shares, ys, x, i);
      assert ws[..k] == ws[..i] + [ws[i]] && shares[..k] == shares[..i] + [shares[i]];
      SharesIn(c, shares, ys);
      MulSumConcat(c.g, ws[..i], shares[..i], ws[i], shares[i]);
      WeightedShare(c, WeightedSum(ids, ys, x, c.n, i), ws[i], ys[i]);
    }
  }

  lemma WeightedShare<P(!new)>(c: Schnorr<P>, s: int, w: int, y: int)
    requires Laws(c)
    ensures c.g.add(Mul(c.g, s, c.G), Mul(c.g, w, Mul(c.g, y, c.G))) == Mul(c.g, s + y * w, c.G)
  {
    MulMul(c.g, w, y, c.G);
    MulAdd(c.g, s, y * w, c.G);
    assert w * y == y * w;
  }

  lemma SharesIn<P(!new)>(c: Schnorr<P>, shares: seq<P>, ys: seq<int>)
    requires Laws(c) && SharesOf(c, shares, ys)
    ensures AllIn(c.g, shares)
  {
  }

  /** Shares of scalars interpolate to the weighted sum of the scalars. */
  lemma InterpolatesInExponent<P(!new)>(c: Schnorr<P>, ids: seq<int>, shares: seq<P>, ys: seq<int>, x: int)
    requires Laws(c) && SharesOf(c, shares, ys) && |ids| == |ys|
    ensures PubshareAt(c, ids, shares, x) == Mul(c.g, WeightedSum(ids, ys, x, c.n, |ids|), c.G)
  {
    PrefixInterpolates(c, ids, shares, ys, x, |ids|);
    assert Weights(ids, x, c.n)[..|ids|] == Weights(ids, x, c.n) && shares[..|ids|] == shares;
  }

  /** Distinct identifiers of participants. */
  predicate GoodIds(ids: seq<int>, n: int) {
    Distinct(ids) && forall i :: 0 <= i < |ids| ==> 0 <= ids[i] < n
  }

  /** Shares of a polynomial of no more coefficients than shares interpolate to it, whichever they are. */
  lemma SharesInterpolate<P(!new)>(c: Schnorr<P>, f: seq<int>, ids: seq<int>, shares: seq<P>, x: int)
    requires Laws(c) && |f| <= |ids| && GoodIds(ids, c.n) && SharesOf(c, shares, Values(f, ids))
    ensures PubshareAt(c, ids, shares, x) == Mul(c.g, Eval(f, x), c.G)
  {
    Suitable(ids, c.n);
    InterpolatesInExponent(c, ids, shares, Values(f, ids), x);
    Interpolates(f, ids, c.n, x);
    SameMultiple(c, WeightedSum(ids, Values(f, ids), x, c.n, |ids|), Eval(f, x), c.G);
  }

  /** _derive_pubshare_at; None where a denominator has no inverse. */
  method DerivePubshareAt<P(!new)>(c: Schnorr<P>, ids: seq<int>, shares: seq<P>, x: int) returns (r: Option<P>)
    requires c.n > 0 && |ids| == |shares|
    ensures r.Some? <==> Invertible(ids, c.n)
    ensures r.Some? ==> r.value == PubshareAt(c, ids, shares, x)
  {
    var coefficients := Coefficients(ids, x, c.n);
    if coefficients.None? { return None; }
    return Some(MulSum(c.g, coefficients.value, shares));
  }

  method Coefficients(ids: seq<int>, x: int, n: int) returns (r: Option<seq<int>>)
    requires n > 0
    ensures r.Some? <==> Invertible(ids, n)
    ensures r.Some? ==> r.value == Weights(ids, x, n)
  {
    var coefficients: seq<int> := [];
    for i := 0 to |ids|
      invariant |coefficients| == i
      invariant forall k :: 0 <= k < i ==> coefficients[k] == Weight(ids, ids[k], x, n)
      invariant forall k :: 0 <= k < i ==> Inverse(OtherRoots(ids, ids[k], ids[k]), n).Some?
    {
      var w := WeightAt(ids, ids[i], x, n);
      if w.None? { return None; }
      coefficients := coefficients + [w.value];
    }
    return Some(coefficients);
  }

  // ---- key material

  datatype ThresholdInfo<+P> = ThresholdInfo(t: int, threshPk: P, pubShares: seq<Option<P>>)

  /** The identifiers of the shares that are present, in order. */
  function PresentIds<P>(shares: seq<Option<P>>): (ids: seq<int>) {
    if shares == [] then [] else
      var n := |shares| - 1;
      if shares[n].Some? then PresentIds(shares[..n]) + [n] else PresentIds(shares[..n])
  }

  function PresentPoints<P>(shares: seq<Option<P>>): seq<P> {
    if shares == [] then [] else
      var n := |shares| - 1;
      if shares[n].Some? then PresentPoints(shares[..n]) + [shares[n].value] else PresentPoints(shares[..n])
  }

  lemma {:induction false} PresentFacts<P>(shares: seq<Option<P>>)
    ensures |PresentIds(shares)| == |PresentPoints(shares)| <= |shares|
    ensures GoodIds(PresentIds(shares), |shares|)
    ensures forall k :: 0 <= k < |PresentIds(shares)| ==> shares[PresentIds(shares)[k]] == Some(PresentPoints(shares)[k])
    ensures forall i :: 0 <= i < |shares| && shares[i].Some? ==> i in PresentIds(shares)
    decreases |shares|
  {
    if shares != [] {
      var n := |shares| - 1;
      PresentFacts(shares[..n]);
      var ids := PresentIds(shares[..n]);
      forall i | 0 <= i < |shares| && shares[i].Some? ensures i in PresentIds(shares) {
        if i < n { assert shares[..n][i].Some?; }
      }
    }
  }

  /** Some polynomial of at most t coefficients has the shares as its values and the key at -1. */
  ghost predicate OnPolynomial<P(!new)>(c: Schnorr<P>, info: ThresholdInfo<P>, f: seq<int>) {
    && |f| <= info.t
    && (forall i :: 0 <= i < |info.pubShares| && info.pubShares[i].Some? ==>
          info.pubShares[i].value == Mul(c.g, Eval(f, i), c.G))
    && info.threshPk == Mul(c.g, Eval(f, -1), c.G)
  }

  /** Points are what can be parsed: a share or a key at infinity has no encoding. */
  ghost predicate Parsed<P>(c: Schnorr<P>, info: ThresholdInfo<P>) {
    && c.g.has(info.threshPk) && info.threshPk != c.g.zero
    && forall i :: 0 <= i < |info.pubShares| && info.pubShares[i].Some? ==> c.g.has(info.pubShares[i].value)
  }

  ghost predicate Counts<P>(info: ThresholdInfo<P>) {
    1 <= info.t <= |info.pubShares| <= MAX_PARTICIPANTS && |PresentIds(info.pubShares)| >= info.t
  }

  /** The shares after the first t are the first t interpolated, and so is the key. */
  ghost predicate Consistent<P(!new)>(c: Schnorr<P>, info: ThresholdInfo<P>)
    requires c.n > 0 && Counts(info) && |PresentPoints(info.pubShares)| == |PresentIds(info.pubShares)|
  {
    var ids, points := PresentIds(info.pubShares), PresentPoints(info.pubShares);
    && (forall k :: info.t <= k < |ids| ==> PubshareAt(c, ids[..info.t], points[..info.t], ids[k]) == points[k])
    && PubshareAt(c, ids[..info.t], points[..info.t], -1) == info.threshPk
  }

  /** Valid key material passes: every share interpolates from any t of them. */
  lemma PolynomialConsistent<P(!new)>(c: Schnorr<P>, info: ThresholdInfo<P>, f: seq<int>)
    requires Laws(c) && c.n > MAX_PARTICIPANTS && Parsed(c, info) && Counts(info) && OnPolynomial(c, info, f)
    ensures |PresentPoints(info.pubShares)| == |PresentIds(info.pubShares)| && Consistent(c, info)
  {
    PresentFacts(info.pubShares);
    var ids, points, t := PresentIds(info.pubShares), PresentPoints(info.pubShares), info.t;
    forall k | 0 <= k < |ids| ensures points[k] == Mul(c.g, Eval(f, ids[k]), c.G) {
      assert info.pubShares[ids[k]] == Some(points[k]);
    }
    assert SharesOf(c, points[..t], Values(f, ids[..t]));
    SharesInterpolate(c, f, ids[..t], points[..t], -1);
    forall k | t <= k < |ids| ensures PubshareAt(c, ids[..t], points[..t], ids[k]) == points[k] {
      SharesInterpolate(c, f, ids[..t], points[..t], ids[k]);
    }
  }

  lemma DiscreteLogs<P(!new)>(c: Schnorr<P>, points: seq<P>) returns (ys: seq<int>)
    requires Laws(c) && AllIn(c.g, points)
    ensures SharesOf(c, points, ys)
  {
    ys := [];
    for i := 0 to |points|
      invariant |ys| == i && forall k :: 0 <= k < i ==> points[k] == Mul(c.g, ys[k], c.G)
    {
      var y := Discrete(c, points[i]);
      ys := ys + [y];
    }
  }

  /** Material that passes lies on a polynomial: the one through the first t shares. */
  lemma ConsistentPolynomial<P(!new)>(c: Schnorr<P>, info: ThresholdInfo<P>) returns (f: seq<int>)
    requires Laws(c) && c.n > MAX_PARTICIPANTS && Parsed(c, info) && Counts(info)
    requires |PresentPoints(info.pubShares)| == |PresentIds(info.pubShares)| && Consistent(c, info)
    ensures OnPolynomial(c, info, f)
  {
    PresentFacts(info.pubShares);
    var ids, points, t := PresentIds(info.pubShares), PresentPoints(info.pubShares), info.t;
    var base, first := ids[..t], points[..t];
    forall k | 0 <= k < |points| ensures c.g.has(points[k]) { assert info.pubShares[ids[k]] == Some(points[k]); }
    var ys := DiscreteLogs(c, first);
    Suitable(base, c.n);
    f := Through(base, ys, c.n, t);
    forall j | 0 <= j < t ensures first[j] == Mul(c.g, Values(f, base)[j], c.G) {
      ThroughAtIdentifier(base, ys, c.n, j);
      SameMultiple(c, Eval(f, base[j]), ys[j], c.G);
    }
    assert SharesOf(c, first, Values(f, base));
    SharesInterpolate(c, f, base, first, -1);
    forall i | 0 <= i < |info.pubShares| && info.pubShares[i].Some?
      ensures info.pubShares[i].value == Mul(c.g, Eval(f, i), c.G)
    {
      var k :| 0 <= k < |ids| && ids[k] == i;
      assert info.pubShares[ids[k]] == Some(points[k]);
      if k < t { assert first[k] == Mul(c.g, Values(f, base)[k], c.G); } else { SharesInterpolate(c, f, base, first, ids[k]); }
    }
  }

  /** Passing is lying on one polynomial of degree below t whose value at -1 is the key. */
  lemma ConsistentIff<P(!new)>(c: Schnorr<P>, info: ThresholdInfo<P>)
    requires Laws(c) && c.n > MAX_PARTICIPANTS && Parsed(c, info) && Counts(info)
    ensures |PresentPoints(info.pubShares)| == |PresentIds(info.pubShares)|
    ensures Consistent(c, info) <==> exists f :: OnPolynomial(c, info, f)
  {
    PresentFacts(info.pubShares);
    if Consistent(c, info) { var f := ConsistentPolynomial(c, info); }
    if f :| OnPolynomial(c, info, f) { PolynomialConsistent(c, info, f); }
  }

  /** Whether the shares past the first t, and the key, are those the first t interpolate. */
  method SharesAgree<P(==, !new)>(c: Schnorr<P>, base: seq<int>, first: seq<P>, ids: seq<int>, points: seq<P>, key: P) returns (ok: bool)
    requires c.n > 0 && |base| == |first| <= |ids| == |points| && Invertible(base, c.n)
    ensures ok <==> (forall k :: |base| <= k < |ids| ==> PubshareAt(c, base, first, ids[k]) == points[k]) && PubshareAt(c, base, first, -1) == key
  {
    for k := |base| to |ids|
      invariant forall l :: |base| <= l < k ==> PubshareAt(c, base, first, ids[l]) == points[l]
    {
      var share := DerivePubshareAt(c, base, first, ids[k]);
      if share.value != points[k] { return false; }
    }
    var share := DerivePubshareAt(c, base, first, -1);
    return share.value == key;
  }

  /** Key material passes exactly when it lies on one polynomial of degree below t. */
  method ValidateThresholdInfo<P(==, !new)>(c: Schnorr<P>, info: ThresholdInfo<P>) returns (ok: bool)
    requires Laws(c) && c.n > MAX_PARTICIPANTS && Parsed(c, info)
    ensures ok <==> Counts(info) && exists f :: OnPolynomial(c, info, f)
  {
    var t, n := info.t, |info.pubShares|;
    if t < 1 || t > n || n > MAX_PARTICIPANTS { return false; }
    PresentFacts(info.pubShares);
    var ids, points := PresentIds(info.pubShares), PresentPoints(info.pubShares);
    if |ids| < t { return false; }
    Suitable(ids[..t], c.n);
    ConsistentIff(c, info);
    ok := SharesAgree(c, ids[..t], points[..t], ids, points, info.threshPk);
  }

  // ---- sessions

  datatype SessionContext<+P> = SessionContext(
    n: int, t: int, ids: seq<int>, pubShares: Option<seq<P>>, threshPk: P, aggNonce: PubNonce<P>, tweaks: seq<Tweak>, msg: seq<bv8>)

  /** The two hashes: the nonce coefficient reads the identifiers sorted, so their multiset. */
  datatype Hashes<!P> = Hashes(
    noncecoef: (multiset<int>, PubNonce<P>, int, seq<bv8>) -> int, challenge: (int, int, seq<bv8>) -> int)

  /** What a session's parameters must satisfy; the shares, if given, must interpolate to the key. */
  ghost predicate ValidParams<P(!new)>(c: Schnorr<P>, ctx: SessionContext<P>)
    requires c.n > 0
  {
    && 1 <= ctx.t <= ctx.n <= MAX_PARTICIPANTS && ctx.t <= |ctx.ids| <= ctx.n && GoodIds(ctx.ids, ctx.n)
    && (ctx.pubShares.Some? ==>
          |ctx.pubShares.value| == |ctx.ids| && PubshareAt(c, ctx.ids, ctx.pubShares.value, -1) == ctx.threshPk)
  }

  method ValidateSessionParams<P(==, !new)>(c: Schnorr<P>, ctx: SessionContext<P>) returns (ok: bool)
    requires Laws(c) && c.n > MAX_PARTICIPANTS && c.g.has(ctx.threshPk) && ctx.threshPk != c.g.zero
    ensures ok <==> ValidParams(c, ctx)
  {
    if ctx.t < 1 || ctx.t > ctx.n || ctx.n > MAX_PARTICIPANTS { return false; }
    if |ctx.ids| < ctx.t || |ctx.ids| > ctx.n { return false; }
    if ctx.pubShares.Some? && |ctx.pubShares.value| != |ctx.ids| { return false; }
    for i := 0 to |ctx.ids|
      invariant forall k :: 0 <= k < i ==> 0 <= ctx.ids[k] < ctx.n
    {
      if ctx.ids[i] < 0 || ctx.ids[i] > ctx.n - 1 { return false; }
    }
    if !Distinct(ctx.ids) { return false; }
    if ctx.pubShares.Some? {
      Suitable(ctx.ids, c.n);
      var Q := DerivePubshareAt(c, ctx.ids, ctx.pubShares.value, -1);
      if Q.value == c.g.zero || Q.value != ctx.threshPk { return false; }
    }
    return true;
  }

  /** What every party derives from the context, None for every error. */
  ghost function DeriveValues<P(!new)>(c: Schnorr<P>, h: Hashes<P>, ctx: SessionContext<P>): Option<SessionValues<P>>
    requires c.n > 0
  {
    if !ValidParams(c, ctx) then None else
      match ApplyTweaks(c, TweakContext(ctx.threshPk, 1, 0), ctx.tweaks)
      case None => None
      case Some(k) =>
        var b := h.noncecoef(multiset(ctx.ids), ctx.aggNonce, c.x(k.Q), ctx.msg) % c.n;
        var R := EffectiveNonce(c, b, ctx.aggNonce);
        var e := h.challenge(c.x(R), c.x(k.Q), ctx.msg) % c.n;
        if e == 0 then None else Some(SessionValues(k.Q, k.gacc, k.tacc, b, R, e))
  }

  /** What is derived reads the signers, the aggregate nonce, the tweaked key and the message, each in its place. */
  lemma DerivedAnswers<P(!new)>(c: Schnorr<P>, h: Hashes<P>, ctx: SessionContext<P>)
    requires c.n > 0 && DeriveValues(c, h, ctx).Some?
    ensures var v := DeriveValues(c, h, ctx).value;
            var S := c.g.add(ctx.aggNonce.R1, Mul(c.g, v.b, ctx.aggNonce.R2));
            && v.b == h.noncecoef(multiset(ctx.ids), ctx.aggNonce, c.x(v.Q), ctx.msg) % c.n
            && v.R == (if S == c.g.zero then c.G else S)
            && v.e == h.challenge(c.x(v.R), c.x(v.Q), ctx.msg) % c.n != 0
    ensures var v := DeriveValues(c, h, ctx).value;
            ValidParams(c, ctx) && ApplyTweaks(c, TweakContext(ctx.threshPk, 1, 0), ctx.tweaks) == Some(TweakContext(v.Q, v.gacc, v.tacc))
  {
  }

  /** A context with the values derived from it once. */
  class Session<P(==, !new)> {
    const c: Schnorr<P>
    const h: Hashes<P>
    const ctx: SessionContext<P>
    var values: Option<SessionValues<P>>

    ghost predicate Valid()
      reads this
    {
      && Laws(c) && c.n > MAX_PARTICIPANTS && c.g.has(ctx.threshPk) && ctx.threshPk != c.g.zero
      && c.g.has(ctx.aggNonce.R1) && c.g.has(ctx.aggNonce.R2)
      && (values.Some? ==> values == Derived())
    }

    ghost function Derived(): Option<SessionValues<P>>
      requires c.n > 0
    {
      DeriveValues(c, h, ctx)
    }

    constructor (c: Schnorr<P>, h: Hashes<P>, ctx: SessionContext<P>)
      requires Laws(c) && c.n > MAX_PARTICIPANTS && c.g.has(ctx.threshPk) && ctx.threshPk != c.g.zero
      requires c.g.has(ctx.aggNonce.R1) && c.g.has(ctx.aggNonce.R2)
      ensures Valid() && this.c == c && this.h == h && this.ctx == ctx && values == None
    {
      this.c, this.h, this.ctx, values := c, h, ctx, None;
    }

    /** Memoized: the second call answers what the first derived. */
    method SessionValues() returns (r: Option<SessionValues<P>>)
      requires Valid()
      modifies this
      ensures Valid() && r == Derived() && (r.Some? ==> values == r) && (r.None? ==> values == old(values))
      ensures r.Some? ==>
        var v := r.value;
        var S := c.g.add(ctx.aggNonce.R1, Mul(c.g, v.b, ctx.aggNonce.R2));
        && v.b == h.noncecoef(multiset(ctx.ids), ctx.aggNonce, c.x(v.Q), ctx.msg) % c.n
        && v.R == (if S == c.g.zero then c.G else S)
        && v.e == h.challenge(c.x(v.R), c.x(v.Q), ctx.msg) % c.n != 0
    {
      if Derived().Some? { DerivedAnswers(c, h, ctx); }
      if values.Some? { return values; }
      var ok := ValidateSessionParams(c, ctx);
      if !ok { return None; }
      var tweaked := TweakAll(c, TweakContext(ctx.threshPk, 1, 0), ctx.tweaks);
      if tweaked.None? { return None; }
      var k := tweaked.value;
      var b := h.noncecoef(multiset(ctx.ids), ctx.aggNonce, c.x(k.Q), ctx.msg) % c.n;
      var R := EffectiveNonce(c, b, ctx.aggNonce);
      var e := h.challenge(c.x(R), c.x(k.Q), ctx.msg) % c.n;
      if e == 0 { return None; }
      values := Some(SchnorrAggregate.SessionValues(k.Q, k.gacc, k.tacc, b, R, e));
      return values;
    }

    /** What a signer is refused for, besides a session that does not assemble. */
    ghost predicate SignerAccepted(k1: int, k2: int, d: int, myId: int)
    {
      && 0 < k1 < c.n && 0 < k2 < c.n && 0 < d < c.n && myId in ctx.ids
      && (ctx.pubShares.Some? && |ctx.pubShares.value| == |ctx.ids| ==>
            forall j :: 0 <= j < |ctx.ids| && ctx.ids[j] == myId ==> ctx.pubShares.value[j] == Mul(c.g, d, c.G))
    }

    /** The nonce is spent whenever the session assembles, whatever happens next, and only then. */
    method Sign(nonce: SecNonce, d: int, myId: int) returns (s: Option<int>)
      requires Valid()
      modifies this, nonce
      ensures Valid()
      ensures Derived().None? ==> s.None? && nonce.k1 == old(nonce.k1) && nonce.k2 == old(nonce.k2)
      ensures Derived().Some? ==> nonce.k1 == 0 && nonce.k2 == 0
      ensures s.Some? <==> Derived().Some? && SignerAccepted(old(nonce.k1), old(nonce.k2), d, myId)
      ensures s.Some? ==> s.value == PartialSignature(c, Derived().value, old(nonce.k1), old(nonce.k2), Weight(ctx.ids, myId, -1, c.n), d)
    {
      var v := SessionValues();
      if v.None? { return None; }
      var k1, k2 := nonce.Spend();
      if k1 <= 0 || k1 >= c.n || k2 <= 0 || k2 >= c.n || d <= 0 || d >= c.n { return None; }
      if myId !in ctx.ids { return None; }
      var j := IndexOf(ctx.ids, myId);
      if ctx.pubShares.Some? && ctx.pubShares.value[j] != Mul(c.g, d, c.G) { return None; }
      Suitable(ctx.ids, c.n);
      var a := DeriveInterpolatingValue(ctx.ids, myId, c.n);
      return Some(PartialSignature(c, v.value, k1, k2, a.value, d));
    }

    /** None where an error is raised; otherwise whether the partial signature is the signer's. */
    method PartialSigVerify(psig: nat, myId: int, N: PubNonce<P>, K: P) returns (r: Option<bool>)
      requires Valid()
      modifies this
      ensures Valid()
      ensures r.None? <==> Derived().None? || myId !in ctx.ids
      ensures r.Some? && ctx.pubShares.None? ==>
        r.value == PartialVerifies(c, Derived().value, psig, N, K, Weight(ctx.ids, myId, -1, c.n))
      ensures r.Some? && ctx.pubShares.Some? ==>
        exists j :: 0 <= j < |ctx.ids| && ctx.ids[j] == myId
          && r.value == (ctx.pubShares.value[j] == K && PartialVerifies(c, Derived().value, psig, N, K, Weight(ctx.ids, myId, -1, c.n)))
    {
      var v := SessionValues();
      if v.None? || myId !in ctx.ids { return None; }
      var j := IndexOf(ctx.ids, myId);
      if psig >= c.n { return Some(false); }
      if ctx.pubShares.Some? && ctx.pubShares.value[j] != K { return Some(false); }
      Suitable(ctx.ids, c.n);
      var a := DeriveInterpolatingValue(ctx.ids, myId, c.n);
      return Some(PartialVerifies(c, v.value, psig, N, K, a.value));
    }

    /** (x_R, s), or None where an error is raised. */
    method PartialSigAgg(psigs: seq<nat>) returns (r: Option<(int, int)>)
      requires Valid()
      modifies this
      ensures Valid()
      ensures r.None? <==> Derived().None? || |psigs| != |ctx.ids| || exists i :: 0 <= i < |psigs| && psigs[i] >= c.n
      ensures r.Some? ==> r.value == (c.x(Derived().value.R), Aggregate(c, Derived().value, psigs))
    {
      var v := SessionValues();
      if v.None? || |psigs| != |ctx.ids| { return None; }
      var s := AggS(c, v.value, psigs);
      if s.None? { return None; }
      return Some((c.x(v.value.R), s.value));
    }
  }

  method IndexOf(ids: seq<int>, my: int) returns (j: nat)
    requires my in ids
    ensures j < |ids| && ids[j] == my
  {
    j := 0;
    while ids[j] != my
      invariant j < |ids| && my in ids[j..]
      decreases |ids| - j
    {
      assert ids[j..] == [ids[j]] + ids[j + 1..];
      j := j + 1;
    }
  }

  // ---- a whole run

  /** The signers' shares, nonces and public values, all honest over one polynomial. */
  ghost predicate HonestRun<P(!new)>(c: Schnorr<P>, f: seq<int>, ctx: SessionContext<P>, ks: seq<(int, int)>) {
    && |f| <= ctx.t && |ks| == |ctx.ids| && ctx.threshPk == Mul(c.g, Eval(f, -1), c.G)
    && ctx.aggNonce == NonceAgg(c, Nonces(c, ks))
  }

  function Nonces<P(!new)>(c: Schnorr<P>, ks: seq<(int, int)>): (Ns: seq<PubNonce<P>>)
    ensures |Ns| == |ks|
  {
    seq(|ks|, i requires 0 <= i < |ks| => NonceOf(c, ks[i].0, ks[i].1))
  }

  function Shares<P(!new)>(c: Schnorr<P>, f: seq<int>, ids: seq<int>): (Ks: seq<P>)
    requires c.n > 0
    ensures |Ks| == |ids|
  {
    seq(|ids|, i requires 0 <= i < |ids| => Mul(c.g, Eval(f, ids[i]) % c.n, c.G))
  }

  function PartialSignatures<P(!new)>(c: Schnorr<P>, v: SessionValues<P>, f: seq<int>, ids: seq<int>, ks: seq<(int, int)>): (ss: seq<int>)
    requires c.n > 0 && |ks| == |ids|
    ensures |ss| == |ids|
  {
    seq(|ids|, i requires 0 <= i < |ids| =>
      PartialSignature(c, v, ks[i].0, ks[i].1, Weight(ids, ids[i], -1, c.n), Eval(f, ids[i]) % c.n))
  }

  /** Every set of at least t signers reconstructs the one threshold key. */
  lemma EverySubsetSameKey<P(!new)>(c: Schnorr<P>, f: seq<int>, ids: seq<int>)
    requires Laws(c) && |f| <= |ids| && GoodIds(ids, c.n)
    ensures PubshareAt(c, ids, Shares(c, f, ids), -1) == Mul(c.g, Eval(f, -1), c.G)
  {
    forall i | 0 <= i < |ids| ensures Shares(c, f, ids)[i] == Mul(c.g, Values(f, ids)[i], c.G) {
      ReducedMultiple(c, Eval(f, ids[i]), c.G);
    }
    assert SharesOf(c, Shares(c, f, ids), Values(f, ids));
    SharesInterpolate(c, f, ids, Shares(c, f, ids), -1);
  }

  /** Honest partial signatures verify. */
  lemma HonestAllVerify<P(!new)>(c: Schnorr<P>, v: SessionValues<P>, f: seq<int>, ids: seq<int>, ks: seq<(int, int)>)
    requires Laws(c) && |ks| == |ids|
    ensures AllVerify(c, v, PartialSignatures(c, v, f, ids, ks), Nonces(c, ks), Shares(c, f, ids), Weights(ids, -1, c.n))
  {
    forall i | 0 <= i < |ids|
      ensures PartialVerifies(c, v, PartialSignatures(c, v, f, ids, ks)[i], Nonces(c, ks)[i], Shares(c, f, ids)[i], Weights(ids, -1, c.n)[i])
    {
      HonestVerifies(c, v, ks[i].0, ks[i].1, Weight(ids, ids[i], -1, c.n), Eval(f, ids[i]) % c.n);
    }
  }

  lemma NoncesValid<P(!new)>(c: Schnorr<P>, ks: seq<(int, int)>)
    requires Laws(c)
    ensures NoncesIn(c, Nonces(c, ks))
  {
  }

  lemma SharesValid<P(!new)>(c: Schnorr<P>, f: seq<int>, ids: seq<int>)
    requires Laws(c)
    ensures AllIn(c.g, Shares(c, f, ids))
  {
  }

  /** Any t or more honest signers, any tweaks: every share verifies and the aggregate is a BIP340 signature. */
  lemma FrostCompletes<P(!new)>(c: Schnorr<P>, h: Hashes<P>, f: seq<int>, ctx: SessionContext<P>, ks: seq<(int, int)>)
    requires Laws(c) && c.n > MAX_PARTICIPANTS && HonestRun(c, f, ctx, ks) && ctx.threshPk != c.g.zero
    requires DeriveValues(c, h, ctx).Some?
    requires Combined(c, DeriveValues(c, h, ctx).value.b, ctx.aggNonce) != c.g.zero
    ensures var v := DeriveValues(c, h, ctx).value;
            var ss := PartialSignatures(c, v, f, ctx.ids, ks);
            && AllVerify(c, v, ss, Nonces(c, ks), Shares(c, f, ctx.ids), Weights(ctx.ids, -1, c.n))
            && v.b == h.noncecoef(multiset(ctx.ids), ctx.aggNonce, c.x(v.Q), ctx.msg) % c.n
            && v.R == c.g.add(ctx.aggNonce.R1, Mul(c.g, v.b, ctx.aggNonce.R2))
            && v.e == h.challenge(c.x(v.R), c.x(v.Q), ctx.msg) % c.n
            && Verifies(c, v.Q, v.e, c.x(v.R), Aggregate(c, v, ss))
  {
    var v := DeriveValues(c, h, ctx).value;
    var ss := PartialSignatures(c, v, f, ctx.ids, ks);
    DerivedAnswers(c, h, ctx);
    HonestAllVerify(c, v, f, ctx.ids, ks);
    EverySubsetSameKey(c, f, ctx.ids);
    assert c.g.has(ctx.threshPk);
    Untweaked(c, ctx.threshPk);
    ApplyTweaksKeep(c, ctx.threshPk, TweakContext(ctx.threshPk, 1, 0), ctx.tweaks);
    NoncesValid(c, ks);
    SharesValid(c, f, ctx.ids);
    AggregateVerifies(c, v, ctx.threshPk, ss, Nonces(c, ks), Shares(c, f, ctx.ids), Weights(ctx.ids, -1, c.n));
  }

  /** Scalars of the range a signer's share and nonces have. */
  predicate InRange<P>(c: Schnorr<P>, f: seq<int>, ids: seq<int>, ks: seq<(int, int)>) {
    && |ks| == |ids| && c.n > 0 && (forall i :: 0 <= i < |ids| ==> 0 < Eval(f, ids[i]) % c.n)
    && forall i :: 0 <= i < |ks| ==> 0 < ks[i].0 < c.n && 0 < ks[i].1 < c.n
  }

  /** Every signer of a session signs with its own nonce, and every partial signature is checked. */
  method SignAll<P(==, !new)>(session: Session<P>, f: seq<int>, ks: seq<(int, int)>) returns (psigs: seq<nat>)
    requires session.Valid() && session.Derived().Some? && InRange(session.c, f, session.ctx.ids, ks)
    requires session.ctx.pubShares.Some? ==> session.ctx.pubShares.value == Shares(session.c, f, session.ctx.ids)
    modifies session
    ensures session.Valid() && psigs == PartialSignatures(session.c, session.Derived().value, f, session.ctx.ids, ks)
  {
    var ids := session.ctx.ids;
    psigs := [];
    for i := 0 to |ids|
      invariant session.Valid() && |psigs| == i
      invariant forall k :: 0 <= k < i ==> psigs[k] == PartialSignatures(session.c, session.Derived().value, f, ids, ks)[k]
    {
      var s := SignOne(session, f, ids[i], ks[i]);
      psigs := psigs + [s];
    }
  }

  method SignOne<P(==, !new)>(session: Session<P>, f: seq<int>, id: int, k: (int, int)) returns (s: nat)
    requires session.Valid() && session.Derived().Some? && id in session.ctx.ids
    requires 0 < Eval(f, id) % session.c.n && 0 < k.0 < session.c.n && 0 < k.1 < session.c.n
    requires session.ctx.pubShares.Some? ==> session.ctx.pubShares.value == Shares(session.c, f, session.ctx.ids)
    modifies session
    ensures session.Valid()
    ensures s == PartialSignature(session.c, session.Derived().value, k.0, k.1,
      Weight(session.ctx.ids, id, -1, session.c.n), Eval(f, id) % session.c.n)
  {
    var d := Eval(f, id) % session.c.n;
    ModCong(Eval(f, id), session.c.n);
    var nonce := new SecNonce(k.0, k.1);
    var signed := session.Sign(nonce, d, id);
    HonestVerifies(session.c, session.Derived().value, k.0, k.1, Weight(session.ctx.ids, id, -1, session.c.n), d);
    var checked := session.PartialSigVerify(signed.value, id, NonceOf(session.c, k.0, k.1), Mul(session.c.g, d, session.c.G));
    assert checked == Some(true);
    return signed.value;
  }

  /** The session's nonce is not the stand-in. */
  ghost predicate NonceFinite<P(!new)>(c: Schnorr<P>, h: Hashes<P>, ctx: SessionContext<P>)
    requires c.n > 0 && DeriveValues(c, h, ctx).Some?
  {
    Combined(c, DeriveValues(c, h, ctx).value.b, ctx.aggNonce) != c.g.zero
  }

  /** A session from its secrets to its signature: the signature that comes back verifies under the tweaked key. */
  method RunSession<P(==, !new)>(session: Session<P>, f: seq<int>, ks: seq<(int, int)>) returns (r: Option<(int, int)>)
    requires session.Valid() && InRange(session.c, f, session.ctx.ids, ks) && HonestRun(session.c, f, session.ctx, ks)
    requires session.ctx.pubShares.Some? ==> session.ctx.pubShares.value == Shares(session.c, f, session.ctx.ids)
    modifies session
    ensures session.Valid() && (r.Some? <==> session.Derived().Some?)
    ensures r.Some? && NonceFinite(session.c, session.h, session.ctx) ==>
      Verifies(session.c, session.Derived().value.Q, session.Derived().value.e, r.value.0, r.value.1)
  {
    var values := session.SessionValues();
    if values.None? { return None; }
    var psigs := SignAll(session, f, ks);
    AllInRange(session.c, values.value, f, session.ctx.ids, ks);
    r := session.PartialSigAgg(psigs);
    if NonceFinite(session.c, session.h, session.ctx) { FrostCompletes(session.c, session.h, f, session.ctx, ks); }
  }

  lemma AllInRange<P(!new)>(c: Schnorr<P>, v: SessionValues<P>, f: seq<int>, ids: seq<int>, ks: seq<(int, int)>)
    requires c.n > 0 && |ks| == |ids|
    ensures forall i :: 0 <= i < |ids| ==> 0 <= PartialSignatures(c, v, f, ids, ks)[i] < c.n
  {
    forall i | 0 <= i < |ids| ensures 0 <= PartialSignatures(c, v, f, ids, ks)[i] < c.n {
      PartialInRange(c, v, ks[i].0, ks[i].1, Weight(ids, ids[i], -1, c.n), Eval(f, ids[i]) % c.n);
    }
  }

  /** An honest dealer's material is never refused: the parameters of any such session are valid. */
  lemma HonestParamsValid<P(!new)>(c: Schnorr<P>, f: seq<int>, ctx: SessionContext<P>)
    requires Laws(c) && c.n > MAX_PARTICIPANTS && |f| <= ctx.t && ctx.threshPk == Mul(c.g, Eval(f, -1), c.G)
    requires 1 <= ctx.t <= |ctx.ids| <= ctx.n <= MAX_PARTICIPANTS && GoodIds(ctx.ids, ctx.n)
    requires ctx.pubShares.Some? ==> ctx.pubShares.value == Shares(c, f, ctx.ids)
    ensures ValidParams(c, ctx)
  {
    EverySubsetSameKey(c, f, ctx.ids);
  }
}
