/** MuSig2: key aggregation, one session's values, signing, aggregating, and adaptor signatures. */
module Musig2 {
  import opened Modular
  import opened Groups
  import opened SchnorrGroup
  import opened KeyTweak
  import opened SchnorrAggregate

  // ---- key aggregation

  /** The hashes, read only through the values they answer. */
  datatype Hashes<!P> = Hashes(
    keyList: seq<P> -> int, keyAggCoef: (int, P) -> int,
    noncecoef: (PubNonce<P>, int, seq<bv8>) -> int, challenge: (int, int, seq<bv8>) -> int)

  /** The first key that differs from the first one. */
  function SecondKey<P(==)>(keys: seq<P>): Option<P> {
    if keys == [] then None else FirstOther(keys[1..], keys[0])
  }

  function FirstOther<P(==)>(keys: seq<P>, first: P): Option<P> {
    if keys == [] then None else if keys[0] != first then Some(keys[0]) else FirstOther(keys[1..], first)
  }

  /** 1 for the second key of the list, a hash of the list and the key for every other. */
  function KeyAggCoeff<P(==)>(h: Hashes<P>, L: int, second: Option<P>, key: P, n: int): int
    requires n > 0
  {
    if second == Some(key) then 1 else h.keyAggCoef(L, key) % n
  }

  function Coefficients<P(==)>(h: Hashes<P>, keys: seq<P>, n: int): (as_: seq<int>)
    requires n > 0
    ensures |as_| == |keys|
  {
    seq(|keys|, i requires 0 <= i < |keys| => KeyAggCoeff(h, h.keyList(keys), SecondKey(keys), keys[i], n))
  }

  /** A key that differs from the first one, at a place before which no key does. */
  ghost predicate IsSecond<P>(keys: seq<P>, key: P) {
    exists j: nat :: FirstDifference(keys, j) && keys[j] == key
  }

  ghost predicate FirstDifference<P>(keys: seq<P>, j: nat) {
    j < |keys| && keys[j] != keys[0] && forall l :: 0 <= l < j ==> keys[l] == keys[0]
  }

  lemma {:induction false} FirstOtherIs<P>(keys: seq<P>, i: nat)
    requires 0 < i <= |keys| && forall l :: 0 <= l < i ==> keys[l] == keys[0]
    ensures match FirstOther(keys[i..], keys[0])
            case Some(key) => IsSecond(keys, key)
            case None => forall l :: 0 <= l < |keys| ==> keys[l] == keys[0]
    decreases |keys| - i
  {
    if i < |keys| {
      if keys[i] != keys[0] {
        assert FirstDifference(keys, i);
      } else {
        assert keys[i..][1..] == keys[i + 1..];
        FirstOtherIs(keys, i + 1);
      }
    }
  }

  lemma SecondOnce<P>(keys: seq<P>, a: P, b: P)
    requires IsSecond(keys, a) && IsSecond(keys, b)
    ensures a == b
  {
    var i: nat :| FirstDifference(keys, i) && keys[i] == a;
    var j: nat :| FirstDifference(keys, j) && keys[j] == b;
    assert i == j;
  }

  lemma SecondKeyIs<P>(keys: seq<P>, key: P)
    requires keys != []
    ensures SecondKey(keys) == Some(key) <==> IsSecond(keys, key)
  {
    FirstOtherIs(keys, 1);
    if IsSecond(keys, key) {
      var j: nat :| FirstDifference(keys, j) && keys[j] == key;
      var second := SecondKey(keys);
      assert second.Some?;
      SecondOnce(keys, second.value, key);
    }
  }

  /** The weights of key aggregation: 1 for the second key wherever it stands, the hash of the list and the key elsewhere. */
  ghost predicate KeyWeights<P>(h: Hashes<P>, keys: seq<P>, n: int, as_: seq<int>)
    requires n > 0
  {
    && |as_| == |keys|
    && forall i :: 0 <= i < |keys| ==>
         (IsSecond(keys, keys[i]) ==> as_[i] == 1) && (!IsSecond(keys, keys[i]) ==> as_[i] == h.keyAggCoef(h.keyList(keys), keys[i]) % n)
  }

  lemma CoefficientsAreWeights<P>(h: Hashes<P>, keys: seq<P>, n: int)
    requires n > 0
    ensures KeyWeights(h, keys, n, Coefficients(h, keys, n))
  {
    forall i | 0 <= i < |keys|
      ensures Coefficients(h, keys, n)[i] == if IsSecond(keys, keys[i]) then 1 else h.keyAggCoef(h.keyList(keys), keys[i]) % n
    {
      SecondKeyIs(keys, keys[i]);
    }
  }

  /** The aggregate key of a list, duplicates and order included. */
  function AggregateKey<P(==, !new)>(c: Schnorr<P>, h: Hashes<P>, keys: seq<P>): P
    requires c.n > 0
  {
    MulSum(c.g, Coefficients(h, keys, c.n), keys)
  }

  /** The keys at their weights; None for an empty list and for an aggregate at infinity. */
  method KeyAgg<P(==, !new)>(c: Schnorr<P>, h: Hashes<P>, keys: seq<P>) returns (r: Option<TweakContext<P>>, ghost as_: seq<int>)
    requires c.n > 0
    ensures KeyWeights(h, keys, c.n, as_) && AggregateKey(c, h, keys) == MulSum(c.g, as_, keys)
    ensures r.None? <==> keys == [] || AggregateKey(c, h, keys) == c.g.zero
    ensures r.Some? ==> r.value == TweakContext(AggregateKey(c, h, keys), 1, 0)
  {
    var L, second := h.keyList(keys), SecondKey(keys);
    var coefficients: seq<int> := [];
    for i := 0 to |keys|
      invariant |coefficients| == i
      invariant forall k :: 0 <= k < i ==> coefficients[k] == KeyAggCoeff(h, L, second, keys[k], c.n)
    {
      coefficients := coefficients + [KeyAggCoeff(h, L, second, keys[i], c.n)];
    }
    assert coefficients == Coefficients(h, keys, c.n);
    CoefficientsAreWeights(h, keys, c.n);
    as_ := coefficients;
    if keys == [] { return None, as_; }
    var Q := MulSum(c.g, coefficients, keys);
    if Q == c.g.zero { return None, as_; }
    return Some(TweakContext(Q, 1, 0)), as_;
  }

  // ---- sessions

  datatype SessionContext<+P> = SessionContext(
    aggNonce: PubNonce<P>, keys: seq<P>, tweaks: seq<Tweak>, msg: seq<bv8>, adaptor: Option<P>)

  ghost predicate Parsed<P>(c: Schnorr<P>, ctx: SessionContext<P>) {
    && c.g.has(ctx.aggNonce.R1) && c.g.has(ctx.aggNonce.R2) && AllIn(c.g, ctx.keys)
    && (ctx.adaptor.Some? ==> c.g.has(ctx.adaptor.value))
  }

  /** The aggregate nonce with the adaptor point in its first half. */
  function Adapted<P(!new)>(c: Schnorr<P>, ctx: SessionContext<P>): PubNonce<P> {
    match ctx.adaptor
    case None => ctx.aggNonce
    case Some(T) => PubNonce(c.g.add(ctx.aggNonce.R1, T), ctx.aggNonce.R2)
  }

  /** What every party derives from the context, None for every error. */
  function DeriveValues<P(==, !new)>(c: Schnorr<P>, h: Hashes<P>, ctx: SessionContext<P>): Option<SessionValues<P>>
    requires c.n > 0
  {
    if ctx.keys == [] || AggregateKey(c, h, ctx.keys) == c.g.zero then None else
      match ApplyTweaks(c, TweakContext(AggregateKey(c, h, ctx.keys), 1, 0), ctx.tweaks)
      case None => None
      case Some(k) =>
        var N := Adapted(c, ctx);
        var b := h.noncecoef(N, c.x(k.Q), ctx.msg) % c.n;
        var R := EffectiveNonce(c, b, N);
        var e := h.challenge(c.x(R), c.x(k.Q), ctx.msg) % c.n;
        if e == 0 then None else Some(SessionValues(k.Q, k.gacc, k.tacc, b, R, e))
  }

  /** After every tweak the key is gacc*Q_0 + tacc*G. */
  lemma DerivedKey<P(!new)>(c: Schnorr<P>, h: Hashes<P>, ctx: SessionContext<P>)
    requires Laws(c) && Parsed(c, ctx) && DeriveValues(c, h, ctx).Some?
    ensures var v := DeriveValues(c, h, ctx).value;
            Tweaked(c, AggregateKey(c, h, ctx.keys), TweakContext(v.Q, v.gacc, v.tacc))
  {
    var Q0 := AggregateKey(c, h, ctx.keys);
    assert c.g.has(Q0);
    Untweaked(c, Q0);
    ApplyTweaksKeep(c, Q0, TweakContext(Q0, 1, 0), ctx.tweaks);
  }

  /** What is derived reads the tweaked key, the nonce with the adaptor in it and the message, each in its place. */
  lemma DerivedAnswers<P(!new)>(c: Schnorr<P>, h: Hashes<P>, ctx: SessionContext<P>)
    requires c.n > 0 && DeriveValues(c, h, ctx).Some?
    ensures var v := DeriveValues(c, h, ctx).value;
            var R1 := if ctx.adaptor.Some? then c.g.add(ctx.aggNonce.R1, ctx.adaptor.value) else ctx.aggNonce.R1;
            var S := c.g.add(R1, Mul(c.g, v.b, ctx.aggNonce.R2));
            && v.b == h.noncecoef(PubNonce(R1, ctx.aggNonce.R2), c.x(v.Q), ctx.msg) % c.n
            && v.R == (if S == c.g.zero then c.G else S)
            && v.e == h.challenge(c.x(v.R), c.x(v.Q), ctx.msg) % c.n != 0
    ensures var v, key := DeriveValues(c, h, ctx).value, AggregateKey(c, h, ctx.keys);
            && ctx.keys != [] && key != c.g.zero
            && ApplyTweaks(c, TweakContext(key, 1, 0), ctx.tweaks) == Some(TweakContext(v.Q, v.gacc, v.tacc))
  {
  }

  datatype PreSignature = PreSignature(r: int, s: int)

  class Session<P(==, !new)> {
    const c: Schnorr<P>
    const h: Hashes<P>
    const ctx: SessionContext<P>
    var values: Option<SessionValues<P>>

    ghost predicate Valid()
      reads this
    {
      Laws(c) && Parsed(c, ctx) && (values.Some? ==> values == Derived())
    }

    ghost function Derived(): Option<SessionValues<P>>
      requires c.n > 0
    {
      DeriveValues(c, h, ctx)
    }

    constructor (c: Schnorr<P>, h: Hashes<P>, ctx: SessionContext<P>)
      requires Laws(c) && Parsed(c, ctx)
      ensures Valid() && this.c == c && this.h == h && this.ctx == ctx && values == None
    {
      this.c, this.h, this.ctx, values := c, h, ctx, None;
    }

    /** Memoized: the second call answers what the first derived. */
    method SessionValues() returns (r: Option<SessionValues<P>>)
      requires Valid()
      modifies this
      ensures Valid() && r == Derived() && (r.Some? ==> values == r) && (r.None? ==> values == old(values))
      ensures r.Some? ==>
        var v := r.value;
        var R1 := if ctx.adaptor.Some? then c.g.add(ctx.aggNonce.R1, ctx.adaptor.value) else ctx.aggNonce.R1;
        var S := c.g.add(R1, Mul(c.g, v.b, ctx.aggNonce.R2));
        && v.b == h.noncecoef(PubNonce(R1, ctx.aggNonce.R2), c.x(v.Q), ctx.msg) % c.n
        && v.R == (if S == c.g.zero then c.G else S)
        && v.e == h.challenge(c.x(v.R), c.x(v.Q), ctx.msg) % c.n != 0
    {
      if Derived().Some? { DerivedAnswers(c, h, ctx); }
      if values.Some? { return values; }
      var key, as_ := KeyAgg(c, h, ctx.keys);
      if key.None? { return None; }
      var tweaked := TweakAll(c, key.value, ctx.tweaks);
      if tweaked.None? { return None; }
      var k, N := tweaked.value, Adapted(c, ctx);
      var b := h.noncecoef(N, c.x(k.Q), ctx.msg) % c.n;
      var R := EffectiveNonce(c, b, N);
      var e := h.challenge(c.x(R), c.x(k.Q), ctx.msg) % c.n;
      if e == 0 { return None; }
      values := Some(SchnorrAggregate.SessionValues(k.Q, k.gacc, k.tacc, b, R, e));
      return values;
    }

    /** The coefficient of a key of the list; a foreign key is refused by the callers. */
    function Coeff(key: P): (a: int)
      requires c.n > 0
      ensures forall i :: 0 <= i < |ctx.keys| && ctx.keys[i] == key ==> a == Coefficients(h, ctx.keys, c.n)[i]
    {
      KeyAggCoeff(h, h.keyList(ctx.keys), SecondKey(ctx.keys), key, c.n)
    }

    /** The nonce, which names the key it was made for, is spent whenever the session assembles, and only then. */
    method Sign(nonce: SecNonce, nonceKey: P, d: int) returns (s: Option<int>)
      requires Valid()
      modifies this, nonce
      ensures Valid()
      ensures Derived().None? ==> s.None? && nonce.k1 == old(nonce.k1) && nonce.k2 == old(nonce.k2)
      ensures Derived().Some? ==> nonce.k1 == 0 && nonce.k2 == 0
      ensures s.Some? <==>
        && Derived().Some? && 0 < old(nonce.k1) < c.n && 0 < old(nonce.k2) < c.n && 0 < d < c.n
        && Mul(c.g, d, c.G) == nonceKey && nonceKey in ctx.keys
      ensures s.Some? ==> s.value == PartialSignature(c, Derived().value, old(nonce.k1), old(nonce.k2), Coeff(nonceKey), d)
    {
      var v := SessionValues();
      if v.None? { return None; }
      var k1, k2 := nonce.Spend();
      if k1 <= 0 || k1 >= c.n || k2 <= 0 || k2 >= c.n || d <= 0 || d >= c.n { return None; }
      var key := Mul(c.g, d, c.G);
      if key != nonceKey || key !in ctx.keys { return None; }
      return Some(PartialSignature(c, v.value, k1, k2, Coeff(key), d));
    }

    /** None where an error is raised: a session that does not assemble, or a foreign key. */
    method PartialSigVerify(psig: nat, N: PubNonce<P>, K: P) returns (r: Option<bool>)
      requires Valid()
      modifies this
      ensures Valid()
      ensures r.None? <==> Derived().None? || (psig < c.n && K !in ctx.keys)
      ensures r.Some? ==> r.value == PartialVerifies(c, Derived().value, psig, N, K, Coeff(K))
    {
      var v := SessionValues();
      if v.None? { return None; }
      if psig >= c.n { return Some(false); }
      if K !in ctx.keys { return None; }
      return Some(PartialVerifies(c, v.value, psig, N, K, Coeff(K)));
    }

    /** The signature of a session without an adaptor. */
    method PartialSigAgg(psigs: seq<nat>) returns (r: Option<(int, int)>)
      requires Valid()
      modifies this
      ensures Valid()
      ensures r.None? <==> ctx.adaptor.Some? || Derived().None? || exists i :: 0 <= i < |psigs| && psigs[i] >= c.n
      ensures r.Some? ==> r.value == (c.x(Derived().value.R), Aggregate(c, Derived().value, psigs))
    {
      if ctx.adaptor.Some? { return None; }
      var v := SessionValues();
      if v.None? { return None; }
      var s := AggS(c, v.value, psigs);
      if s.None? { return None; }
      return Some((c.x(v.value.R), s.value));
    }

    /** The pre-signature of a session with one. */
    method PartialSigAggAdaptor(psigs: seq<nat>) returns (r: Option<PreSignature>)
      requires Valid()
      modifies this
      ensures Valid()
      ensures r.None? <==> ctx.adaptor.None? || Derived().None? || exists i :: 0 <= i < |psigs| && psigs[i] >= c.n
      ensures r.Some? ==> r.value == PreSignature(c.x(Derived().value.R), Aggregate(c, Derived().value, psigs))
    {
      if ctx.adaptor.None? { return None; }
      var v := SessionValues();
      if v.None? { return None; }
      var s := AggS(c, v.value, psigs);
      if s.None? { return None; }
      return Some(PreSignature(c.x(v.value.R), s.value));
    }

    method Adapt(pre: PreSignature, t: int) returns (r: Option<(int, int)>)
      requires Valid()
      modifies this
      ensures Valid()
      ensures r.None? <==> Derived().None? || t <= 0 || t >= c.n
      ensures r.Some? ==> r.value == (pre.r, AdaptedScalar(c, Derived().value, pre.s, t))
    {
      var v := SessionValues();
      if v.None? || t <= 0 || t >= c.n { return None; }
      return Some((pre.r, AdaptedScalar(c, v.value, pre.s, t)));
    }

    method ExtractAdaptor(s: int, pre: PreSignature) returns (t: Option<int>)
      requires Valid()
      modifies this
      ensures Valid()
      ensures t.None? <==> Derived().None?
      ensures t.Some? ==> t.value == ExtractedScalar(c, Derived().value, s, pre.s)
    {
      var v := SessionValues();
      if v.None? { return None; }
      return Some(ExtractedScalar(c, v.value, s, pre.s));
    }
  }

  // ---- adaptor scalars

  /** The secret added to the pre-signature, negated when R is odd. */
  function AdaptedScalar<P(!new)>(c: Schnorr<P>, v: SessionValues<P>, s: int, t: int): int
    requires c.n > 0
  {
    (s + (if c.odd(v.R) then c.n - t else t)) % c.n
  }

  function ExtractedScalar<P(!new)>(c: Schnorr<P>, v: SessionValues<P>, sig: int, pre: int): int
    requires c.n > 0
  {
    var t := (sig - pre) % c.n;
    if c.odd(v.R) then (-t) % c.n else t
  }

  /** Extraction returns exactly the secret that was adapted with, for either parity of R. */
  lemma ExtractUndoesAdapt<P(!new)>(c: Schnorr<P>, v: SessionValues<P>, s: int, t: int)
    requires c.n > 0 && 0 < t < c.n
    ensures ExtractedScalar(c, v, AdaptedScalar(c, v, s, t), s) == t
  {
    var n, t' := c.n, if c.odd(v.R) then c.n - t else t;
    var a := (s + t') % n;
    ModCong(s + t', n);
    CongAdd(a, s + t', s, s, n);
    SmallMod(t', n);
    assert (a - s) % n == t';
    if c.odd(v.R) { DivModUnique(-t', n, -1, t); }
  }

  // ---- a whole run

  function KeysOf<P(!new)>(c: Schnorr<P>, ds: seq<int>): (Ks: seq<P>)
    ensures |Ks| == |ds|
  {
    seq(|ds|, i requires 0 <= i < |ds| => Mul(c.g, ds[i], c.G))
  }

  function NoncesOf<P(!new)>(c: Schnorr<P>, ks: seq<(int, int)>): (Ns: seq<PubNonce<P>>)
    ensures |Ns| == |ks|
  {
    seq(|ks|, i requires 0 <= i < |ks| => NonceOf(c, ks[i].0, ks[i].1))
  }

  /** Every signer holds its key, and the aggregate nonce is the sum of what they published. */
  ghost predicate HonestRun<P(!new)>(c: Schnorr<P>, ctx: SessionContext<P>, ds: seq<int>, ks: seq<(int, int)>) {
    |ds| == |ks| && ctx.keys == KeysOf(c, ds) && ctx.aggNonce == NonceAgg(c, NoncesOf(c, ks))
  }

  function Signatures<P(==, !new)>(c: Schnorr<P>, h: Hashes<P>, v: SessionValues<P>, keys: seq<P>, ds: seq<int>, ks: seq<(int, int)>): (ss: seq<int>)
    requires c.n > 0 && |keys| == |ds| == |ks|
    ensures |ss| == |ds|
  {
    seq(|ds|, i requires 0 <= i < |ds| => PartialSignature(c, v, ks[i].0, ks[i].1, Coefficients(h, keys, c.n)[i], ds[i]))
  }

  lemma RunIsValid<P(!new)>(c: Schnorr<P>, ds: seq<int>, ks: seq<(int, int)>)
    requires Laws(c)
    ensures AllIn(c.g, KeysOf(c, ds)) && NoncesIn(c, NoncesOf(c, ks))
  {
  }

  /** Every honest partial signature verifies, duplicated keys included. */
  lemma HonestAllVerify<P(!new)>(c: Schnorr<P>, h: Hashes<P>, v: SessionValues<P>, ds: seq<int>, ks: seq<(int, int)>)
    requires Laws(c) && |ds| == |ks|
    ensures var keys := KeysOf(c, ds);
            AllVerify(c, v, Signatures(c, h, v, keys, ds, ks), NoncesOf(c, ks), keys, Coefficients(h, keys, c.n))
  {
    var keys := KeysOf(c, ds);
    forall i | 0 <= i < |ds|
      ensures PartialVerifies(c, v, Signatures(c, h, v, keys, ds, ks)[i], NoncesOf(c, ks)[i], keys[i], Coefficients(h, keys, c.n)[i])
    {
      HonestVerifies(c, v, ks[i].0, ks[i].1, Coefficients(h, keys, c.n)[i], ds[i]);
    }
  }

  /** Any keys, any tweaks, any message: the aggregate is a BIP340 signature under the tweaked key. */
  lemma MusigCompletes<P(!new)>(c: Schnorr<P>, h: Hashes<P>, ctx: SessionContext<P>, ds: seq<int>, ks: seq<(int, int)>)
    requires Laws(c) && HonestRun(c, ctx, ds, ks) && ctx.adaptor.None? && DeriveValues(c, h, ctx).Some?
    requires Combined(c, DeriveValues(c, h, ctx).value.b, ctx.aggNonce) != c.g.zero
    ensures var v := DeriveValues(c, h, ctx).value;
            && v.b == h.noncecoef(ctx.aggNonce, c.x(v.Q), ctx.msg) % c.n
            && v.R == c.g.add(ctx.aggNonce.R1, Mul(c.g, v.b, ctx.aggNonce.R2))
            && v.e == h.challenge(c.x(v.R), c.x(v.Q), ctx.msg) % c.n
            && Verifies(c, v.Q, v.e, c.x(v.R), Aggregate(c, v, Signatures(c, h, v, ctx.keys, ds, ks)))
  {
    var v := DeriveValues(c, h, ctx).value;
    DerivedAnswers(c, h, ctx);
    RunIsValid(c, ds, ks);
    AggregateInRange(c, ks);
    HonestAllVerify(c, h, v, ds, ks);
    DerivedKey(c, h, ctx);
    AggregateVerifies(c, v, AggregateKey(c, h, ctx.keys), Signatures(c, h, v, ctx.keys, ds, ks), NoncesOf(c, ks), ctx.keys,
      Coefficients(h, ctx.keys, c.n));
  }

  lemma AggregateInRange<P(!new)>(c: Schnorr<P>, ks: seq<(int, int)>)
    requires Laws(c)
    ensures c.g.has(NonceAgg(c, NoncesOf(c, ks)).R1) && c.g.has(NonceAgg(c, NoncesOf(c, ks)).R2)
  {
    PointSumIn(c.g, FirstHalves(NoncesOf(c, ks)));
    PointSumIn(c.g, SecondHalves(NoncesOf(c, ks)));
  }

  /** The nonce with the adaptor is the nonce without it, plus the adaptor. */
  lemma AdaptedNonce<P(!new)>(c: Schnorr<P>, b: int, N: PubNonce<P>, T: P)
    requires Laws(c) && c.g.has(N.R1) && c.g.has(N.R2) && c.g.has(T)
    ensures Combined(c, b, PubNonce(c.g.add(N.R1, T), N.R2)) == c.g.add(Combined(c, b, N), T)
  {
    SwapLast(c.g, N.R1, T, Mul(c.g, b, N.R2));
  }

  /** The even nonce is the pre-signature's nonce side and the secret with its sign. */
  lemma EvenAdapted<P(!new)>(c: Schnorr<P>, v: SessionValues<P>, N: PubNonce<P>, t: int)
    requires Laws(c) && c.g.has(N.R1) && c.g.has(N.R2) && v.R == c.g.add(Combined(c, v.b, N), Mul(c.g, t, c.G))
    ensures Even(c, v.R) == c.g.add(Side(c, v, N), Mul(c.g, if c.odd(v.R) then c.n - t else t, c.G))
  {
    NegAdd(c.g, Combined(c, v.b, N), Mul(c.g, t, c.G));
    OppositeScalar(c, t, c.G);
  }

  /** A pre-signature and the secret of its adaptor point make a signature that verifies. */
  lemma AdaptedVerifies<P(!new)>(c: Schnorr<P>, v: SessionValues<P>, N: PubNonce<P>, s: int, t: int)
    requires Laws(c) && c.g.has(v.Q) && c.g.has(N.R1) && c.g.has(N.R2)
    requires v.R == c.g.add(Combined(c, v.b, N), Mul(c.g, t, c.G)) && v.R != c.g.zero
    requires Mul(c.g, s, c.G) == c.g.add(Side(c, v, N), Mul(c.g, v.e, Even(c, v.Q)))
    ensures Verifies(c, v.Q, v.e, c.x(v.R), AdaptedScalar(c, v, s, t))
  {
    var t' := if c.odd(v.R) then c.n - t else t;
    var K, A := Mul(c.g, v.e, Even(c, v.Q)), Mul(c.g, t', c.G);
    EvenAdapted(c, v, N, t);
    EvenClosed(c, v.Q);
    ReducedMultiple(c, s + t', c.G);
    MulAdd(c.g, s, t', c.G);
    SwapLast(c.g, Side(c, v, N), K, A);
    EquationVerifies(c, v.Q, v.e, AdaptedScalar(c, v, s, t), v.R);
  }

  /** With an adaptor T = t*G: adapting the aggregate verifies, and extracting from it returns t. */
  lemma AdaptorCompletes<P(!new)>(c: Schnorr<P>, h: Hashes<P>, ctx: SessionContext<P>, ds: seq<int>, ks: seq<(int, int)>, t: int)
    requires Laws(c) && HonestRun(c, ctx, ds, ks) && DeriveValues(c, h, ctx).Some?
    requires 0 < t < c.n && ctx.adaptor == Some(Mul(c.g, t, c.G))
    requires Combined(c, DeriveValues(c, h, ctx).value.b, Adapted(c, ctx)) != c.g.zero
    ensures var v := DeriveValues(c, h, ctx).value;
            var pre := Aggregate(c, v, Signatures(c, h, v, ctx.keys, ds, ks));
            var R1 := c.g.add(ctx.aggNonce.R1, Mul(c.g, t, c.G));
            && v.b == h.noncecoef(PubNonce(R1, ctx.aggNonce.R2), c.x(v.Q), ctx.msg) % c.n
            && v.R == c.g.add(R1, Mul(c.g, v.b, ctx.aggNonce.R2))
            && v.e == h.challenge(c.x(v.R), c.x(v.Q), ctx.msg) % c.n
            && Verifies(c, v.Q, v.e, c.x(v.R), AdaptedScalar(c, v, pre, t))
            && ExtractedScalar(c, v, AdaptedScalar(c, v, pre, t), pre) == t
  {
    var v := DeriveValues(c, h, ctx).value;
    var ss := Signatures(c, h, v, ctx.keys, ds, ks);
    DerivedAnswers(c, h, ctx);
    RunIsValid(c, ds, ks);
    AggregateInRange(c, ks);
    HonestAllVerify(c, h, v, ds, ks);
    DerivedKey(c, h, ctx);
    AggregateEquation(c, v, AggregateKey(c, h, ctx.keys), ss, NoncesOf(c, ks), ctx.keys, Coefficients(h, ctx.keys, c.n));
    AdaptedNonce(c, v.b, ctx.aggNonce, Mul(c.g, t, c.G));
    AdaptedVerifies(c, v, ctx.aggNonce, Aggregate(c, v, ss), t);
    ExtractUndoesAdapt(c, v, Aggregate(c, v, ss), t);
  }

  /** Scalars of the range a signer's key and nonces have. */
  predicate InRange<P>(c: Schnorr<P>, ds: seq<int>, ks: seq<(int, int)>) {
    && |ds| == |ks| && (forall i :: 0 <= i < |ds| ==> 0 < ds[i] < c.n)
    && forall i :: 0 <= i < |ks| ==> 0 < ks[i].0 < c.n && 0 < ks[i].1 < c.n
  }

  /** The session's nonce is not the stand-in. */
  ghost predicate NonceFinite<P(!new)>(c: Schnorr<P>, h: Hashes<P>, ctx: SessionContext<P>)
    requires c.n > 0 && DeriveValues(c, h, ctx).Some?
  {
    Combined(c, DeriveValues(c, h, ctx).value.b, Adapted(c, ctx)) != c.g.zero
  }

  /** Every signer of a session signs with its own nonce, and every partial signature is checked. */
  method SignAll<P(==, !new)>(session: Session<P>, ds: seq<int>, ks: seq<(int, int)>) returns (psigs: seq<nat>)
    requires session.Valid() && session.Derived().Some? && InRange(session.c, ds, ks) && session.ctx.keys == KeysOf(session.c, ds)
    modifies session
    ensures session.Valid() && psigs == Signatures(session.c, session.h, session.Derived().value, session.ctx.keys, ds, ks)
  {
    psigs := [];
    for i := 0 to |ds|
      invariant session.Valid() && |psigs| == i
      invariant forall k :: 0 <= k < i ==>
        psigs[k] == Signatures(session.c, session.h, session.Derived().value, session.ctx.keys, ds, ks)[k]
    {
      var nonce := new SecNonce(ks[i].0, ks[i].1);
      var key := Mul(session.c.g, ds[i], session.c.G);
      assert session.ctx.keys[i] == key;
      var s := session.Sign(nonce, key, ds[i]);
      HonestVerifies(session.c, session.Derived().value, ks[i].0, ks[i].1, session.Coeff(key), ds[i]);
      var checked := session.PartialSigVerify(s.value, NonceOf(session.c, ks[i].0, ks[i].1), key);
      assert checked == Some(true);
      psigs := psigs + [s.value];
    }
  }

  /** A session without an adaptor, from its secrets to its signature: the signature that comes back verifies. */
  method RunSession<P(==, !new)>(session: Session<P>, ds: seq<int>, ks: seq<(int, int)>) returns (r: Option<(int, int)>)
    requires session.Valid() && InRange(session.c, ds, ks) && HonestRun(session.c, session.ctx, ds, ks)
    modifies session
    ensures session.Valid() && (r.Some? <==> session.Derived().Some? && session.ctx.adaptor.None?)
    ensures r.Some? && NonceFinite(session.c, session.h, session.ctx) ==>
      Verifies(session.c, session.Derived().value.Q, session.Derived().value.e, r.value.0, r.value.1)
  {
    var values := session.SessionValues();
    if values.None? || session.ctx.adaptor.Some? { return None; }
    var psigs := SignAll(session, ds, ks);
    AllInRange(session.c, session.h, values.value, session.ctx.keys, ds, ks);
    r := session.PartialSigAgg(psigs);
    if NonceFinite(session.c, session.h, session.ctx) { MusigCompletes(session.c, session.h, session.ctx, ds, ks); }
  }

  /** A session with one: the pre-signature is adapted to a signature that verifies, and the secret is read back from it. */
  method RunAdaptorSession<P(==, !new)>(session: Session<P>, ds: seq<int>, ks: seq<(int, int)>, t: int)
    returns (r: Option<(int, int)>, extracted: Option<int>)
    requires session.Valid() && InRange(session.c, ds, ks) && HonestRun(session.c, session.ctx, ds, ks)
    requires 0 < t < session.c.n && session.ctx.adaptor == Some(Mul(session.c.g, t, session.c.G))
    modifies session
    ensures session.Valid() && (r.Some? <==> session.Derived().Some?) && (r.Some? ==> extracted == Some(t))
    ensures r.Some? && NonceFinite(session.c, session.h, session.ctx) ==>
      Verifies(session.c, session.Derived().value.Q, session.Derived().value.e, r.value.0, r.value.1)
  {
    var values := session.SessionValues();
    if values.None? { return None, None; }
    var psigs := SignAll(session, ds, ks);
    AllInRange(session.c, session.h, values.value, session.ctx.keys, ds, ks);
    var pre := session.PartialSigAggAdaptor(psigs);
    r := session.Adapt(pre.value, t);
    extracted := session.ExtractAdaptor(r.value.1, pre.value);
    ExtractUndoesAdapt(session.c, values.value, pre.value.s, t);
    if NonceFinite(session.c, session.h, session.ctx) { AdaptorCompletes(session.c, session.h, session.ctx, ds, ks, t); }
  }

  lemma AllInRange<P(!new)>(c: Schnorr<P>, h: Hashes<P>, v: SessionValues<P>, keys: seq<P>, ds: seq<int>, ks: seq<(int, int)>)
    requires c.n > 0 && |keys| == |ds| == |ks|
    ensures forall i :: 0 <= i < |ds| ==> 0 <= Signatures(c, h, v, keys, ds, ks)[i] < c.n
  {
    forall i | 0 <= i < |ds| ensures 0 <= Signatures(c, h, v, keys, ds, ks)[i] < c.n {
      PartialInRange(c, v, ks[i].0, ks[i].1, Coefficients(h, keys, c.n)[i], ds[i]);
    }
  }

  /** A point's abscissa determines it up to its sign. */
  ghost predicate AbscissaDetermines<P(!new)>(c: Schnorr<P>) {
    forall A, B :: SameAbscissa(c, A, B)
  }

  ghost predicate SameAbscissa<P(!new)>(c: Schnorr<P>, A: P, B: P) {
    c.g.has(A) && c.g.has(B) && A != c.g.zero && B != c.g.zero && c.x(A) == c.x(B) ==> A == B || A == c.g.neg(B)
  }

  /** Under one key, nonce abscissa and challenge there is one scalar that verifies. */
  lemma OneScalarVerifies<P(!new)>(c: Schnorr<P>, Q: P, e: int, r: int, s: int, s': int)
    requires Laws(c) && AbscissaDetermines(c) && c.g.has(Q) && Verifies(c, Q, e, r, s) && Verifies(c, Q, e, r, s')
    ensures s == s'
  {
    EvenClosed(c, Q);
    var K := Mul(c.g, e, Even(c, Q));
    var A, B := c.g.add(Mul(c.g, s, c.G), c.g.neg(K)), c.g.add(Mul(c.g, s', c.G), c.g.neg(K));
    assert SameAbscissa(c, A, B);
    assert A == B;
    CancelRight(c.g, Mul(c.g, s, c.G), Mul(c.g, s', c.G), c.g.neg(K));
    MultiplesInjective(c, s, s');
    SmallMod(s, c.n);
    SmallMod(s', c.n);
  }

  /** So any signature that completes the pre-signature, however obtained, reveals exactly t. */
  lemma AnySignatureReveals<P(!new)>(c: Schnorr<P>, v: SessionValues<P>, s: int, pre: int, t: int)
    requires Laws(c) && AbscissaDetermines(c) && c.g.has(v.Q) && 0 < t < c.n
    requires Verifies(c, v.Q, v.e, c.x(v.R), AdaptedScalar(c, v, pre, t)) && Verifies(c, v.Q, v.e, c.x(v.R), s)
    ensures ExtractedScalar(c, v, s, pre) == t
  {
    OneScalarVerifies(c, v.Q, v.e, c.x(v.R), s, AdaptedScalar(c, v, pre, t));
    ExtractUndoesAdapt(c, v, pre, t);
  }
}
