/** The octets a range proof hashes: where every field stands in them, and that they bind all of it. */
module RangeMessage {
  import opened Modular
  import opened Groups
  import opened SchnorrGroup
  import opened Octets
  import opened RingWalk
  import opened Borromean
  import opened RangeParams
  import opened RangeProofs

  // ---- the header

  function HeaderLength(mantissa: int, minValue: Option<int>): nat {
    1 + (if mantissa != 0 then 1 else 0) + (if minValue.Some? then 8 else 0)
  }

  /** Bit 7 is clear, bit 6 says a mantissa follows, bit 5 a floor, and the low five are the exponent; the second octet is the
      mantissa less one, and the floor closes the header in eight octets. */
  ghost predicate HeaderStates(b: Bytes, exp: int, mantissa: int, minValue: Option<int>) {
    && |b| == HeaderLength(mantissa, minValue) && b[0] < 128
    && ((b[0] / 64) % 2 == 1 <==> mantissa != 0) && ((b[0] / 32) % 2 == 1 <==> minValue.Some?)
    && b[0] % 32 == (if mantissa != 0 then exp else 0)
    && (mantissa != 0 ==> b[1] == mantissa - 1)
    && (minValue.Some? ==> Num(b[|b| - 8..]) == minValue.value)
  }

  lemma HeaderOctetsState(exp: int, mantissa: int, minValue: Option<int>)
    requires ValidHeader(exp, mantissa, minValue)
    ensures HeaderStates(HeaderOctets(exp, mantissa, minValue), exp, mantissa, minValue)
  {
    var b := HeaderOctets(exp, mantissa, minValue);
    FlagsState(if mantissa != 0 then exp else 0, mantissa != 0, minValue.Some?, b[0]);
    if minValue.Some? {
      assert b[|b| - 8..] == ToBytes(minValue.value, 8);
      EightOctets();
      NumToBytes(minValue.value, 8);
    }
  }

  lemma EightOctets()
    ensures Pow(256, 8) == U64 + 1
  {
    PowTwo(256);
    PowAdd(256, 2, 2);
    PowAdd(256, 4, 4);
  }

  lemma FlagsState(exp: int, hasRange: bool, hasMin: bool, flags: int)
    requires 0 <= exp < 32 && (!hasRange ==> exp == 0)
    requires flags == (if hasRange then 64 + exp else 0) + (if hasMin then 32 else 0)
    ensures 0 <= flags < 128 && ((flags / 64) % 2 == 1 <==> hasRange) && ((flags / 32) % 2 == 1 <==> hasMin) && flags % 32 == exp
  {
  }

  /** One header in some octets, whatever follows it. */
  lemma HeaderOnce(b: Bytes, exp: int, mantissa: int, minValue: Option<int>, b': Bytes, exp': int, mantissa': int, minValue': Option<int>, rest: Bytes, rest': Bytes)
    requires ValidHeader(exp, mantissa, minValue) && ValidHeader(exp', mantissa', minValue') && b + rest == b' + rest'
    requires HeaderStates(b, exp, mantissa, minValue) && HeaderStates(b', exp', mantissa', minValue')
    ensures exp == exp' && mantissa == mantissa' && minValue == minValue' && rest == rest'
  {
    assert (b + rest)[0] == b[0] && (b' + rest')[0] == b'[0];
    assert |b| == |b'|;
    assert (b + rest)[..|b|] == b && (b' + rest')[..|b|] == b';
    assert (b + rest)[|b|..] == rest && (b' + rest')[|b|..] == rest';
  }

  // ---- points

  /** A sign octet, and 32 octets that are the abscissa. */
  ghost predicate PointStates(b: Bytes, sign: bool, x: int) {
    |b| == 33 && b[0] == (if sign then 1 else 0) && Num(b[1..]) == x
  }

  lemma PointOctetsState(sign: bool, x: nat)
    requires x < Pow(256, 32)
    ensures PointStates(PointOctets(sign, x), sign, x)
  {
    assert PointOctets(sign, x)[1..] == ToBytes(x, 32);
    NumToBytes(x, 32);
  }

  /** The stated commitments, 33 octets each. */
  ghost predicate PointsState(b: Bytes, signs: seq<bool>, xs: seq<int>) {
    && |signs| == |xs| && |b| == 33 * |xs|
    && forall i :: 0 <= i < |xs| ==> PointStates(b[33 * i..33 * i + 33], signs[i], xs[i])
  }

  lemma {:induction false} StatedOctetsState(signs: seq<bool>, xs: seq<int>)
    requires |signs| == |xs| && forall i :: 0 <= i < |xs| ==> 0 <= xs[i] < Pow(256, 32)
    ensures PointsState(StatedOctets(signs, xs), signs, xs)
    decreases |xs|
  {
    if signs != [] {
      var n := |signs| - 1;
      var before, last := StatedOctets(signs[..n], xs[..n]), PointOctets(signs[n], xs[n]);
      StatedOctetsState(signs[..n], xs[..n]);
      PointOctetsState(signs[n], xs[n]);
      var b := before + last;
      forall i | 0 <= i < |xs| ensures PointStates(b[33 * i..33 * i + 33], signs[i], xs[i]) {
        if i < n {
          assert b[33 * i..33 * i + 33] == before[33 * i..33 * i + 33];
          assert PointStates(before[33 * i..33 * i + 33], signs[..n][i], xs[..n][i]);
        } else {
          assert b[33 * n..33 * n + 33] == last;
        }
      }
    }
  }

  lemma PointsOnce(b: Bytes, signs: seq<bool>, xs: seq<int>, signs': seq<bool>, xs': seq<int>)
    requires PointsState(b, signs, xs) && PointsState(b, signs', xs')
    ensures signs == signs' && xs == xs'
  {
    forall i | 0 <= i < |xs| ensures signs[i] == signs'[i] && xs[i] == xs'[i] {
      assert PointStates(b[33 * i..33 * i + 33], signs[i], xs[i]);
      assert PointStates(b[33 * i..33 * i + 33], signs'[i], xs'[i]);
    }
  }

  // ---- the prefix of the message and of the chain's seed

  /** The commitment, the generator and the header, one after the other. */
  ghost predicate PrefixStates<P(!new)>(w: World<P>, b: Bytes, commitment: P, gen: P, exp: int, mantissa: int, minValue: Option<int>) {
    && |b| >= 66
    && PointStates(b[..33], w.write(commitment).0, w.write(commitment).1)
    && PointStates(b[33..66], w.write(gen).0, w.write(gen).1)
    && HeaderStates(b[66..], exp, mantissa, minValue)
  }

  ghost predicate Stateable<P(!new)>(w: World<P>, commitment: P, gen: P, exp: int, mantissa: int, minValue: Option<int>) {
    PointsWritten(w) && Writable(w, commitment, gen) && ValidHeader(exp, mantissa, minValue)
  }

  lemma HashedPrefixStates<P(!new)>(w: World<P>, commitment: P, gen: P, exp: int, mantissa: int, minValue: Option<int>)
    requires Stateable(w, commitment, gen, exp, mantissa, minValue)
    ensures PrefixStates(w, HashedPrefix(w, commitment, gen, exp, mantissa, minValue), commitment, gen, exp, mantissa, minValue)
  {
    var a, g := PointOctets(w.write(commitment).0, w.write(commitment).1), PointOctets(w.write(gen).0, w.write(gen).1);
    var h := HeaderOctets(exp, mantissa, minValue);
    PointOctetsState(w.write(commitment).0, w.write(commitment).1);
    PointOctetsState(w.write(gen).0, w.write(gen).1);
    HeaderOctetsState(exp, mantissa, minValue);
    assert (a + g + h)[..33] == a && (a + g + h)[33..66] == g && (a + g + h)[66..] == h;
  }

  lemma PointOnce<P(!new)>(w: World<P>, b: Bytes, A: P, B: P)
    requires PointsWritten(w) && w.c.g.has(A) && A != w.c.g.zero && w.c.g.has(B) && B != w.c.g.zero
    requires PointStates(b, w.write(A).0, w.write(A).1) && PointStates(b, w.write(B).0, w.write(B).1)
    ensures A == B
  {
    assert w.write(A) == w.write(B);
  }

  /** A prefix with anything after it is read in one way. */
  lemma PrefixOnce<P(!new)>(w: World<P>, b: Bytes, rest: Bytes, commitment: P, gen: P, exp: int, mantissa: int, minValue: Option<int>,
                            b': Bytes, rest': Bytes, commitment': P, gen': P, exp': int, mantissa': int, minValue': Option<int>)
    requires Stateable(w, commitment, gen, exp, mantissa, minValue) && Stateable(w, commitment', gen', exp', mantissa', minValue')
    requires PrefixStates(w, b, commitment, gen, exp, mantissa, minValue)
    requires PrefixStates(w, b', commitment', gen', exp', mantissa', minValue')
    requires b + rest == b' + rest'
    ensures commitment == commitment' && gen == gen' && exp == exp' && mantissa == mantissa' && minValue == minValue' && rest == rest'
  {
    var m := b + rest;
    assert m[..33] == b[..33] && m[..33] == b'[..33] && m[33..66] == b[33..66] && m[33..66] == b'[33..66];
    PointOnce(w, m[..33], commitment, commitment');
    PointOnce(w, m[33..66], gen, gen');
    assert m[66..] == b[66..] + rest && m[66..] == b'[66..] + rest';
    HeaderOnce(b[66..], exp, mantissa, minValue, b'[66..], exp', mantissa', minValue', rest, rest');
  }

  // ---- the message

  /** What a message is hashed from: the prefix, the stated commitments, and the caller's octets to the end. */
  ghost predicate MessageStates<P(!new)>(w: World<P>, m: Bytes, commitment: P, gen: P, p: RangeProof, extra: Bytes) {
    var k := 66 + HeaderLength(p.mantissa, p.minValue);
    && |m| == k + 33 * |p.xs| + |extra|
    && PrefixStates(w, m[..k], commitment, gen, p.exp, p.mantissa, p.minValue)
    && PointsState(m[k..k + 33 * |p.xs|], p.signs, p.xs)
    && m[k + 33 * |p.xs|..] == extra
  }

  /** The fields of a proof that its message states. */
  ghost predicate Hashable(p: RangeProof) {
    && ValidHeader(p.exp, p.mantissa, p.minValue) && |p.signs| == |p.xs| == |Rsizes(p.mantissa)| - 1
    && forall i :: 0 <= i < |p.xs| ==> 0 <= p.xs[i] < Pow(256, 32)
  }

  /** The message the signer and the verifier hash, field by field. */
  lemma RingMessageStates<P(!new)>(w: World<P>, commitment: P, p: RangeProof, gen: P, extra: Bytes) returns (m: Bytes)
    requires PointsWritten(w) && Writable(w, commitment, gen) && Hashable(p)
    ensures RingMessage(w, commitment, p, gen, extra) == w.digest(m) && MessageStates(w, m, commitment, gen, p, extra)
  {
    var a, s := HashedPrefix(w, commitment, gen, p.exp, p.mantissa, p.minValue), StatedOctets(p.signs, p.xs);
    HashedPrefixStates(w, commitment, gen, p.exp, p.mantissa, p.minValue);
    StatedOctetsState(p.signs, p.xs);
    m := a + s + extra;
    assert m[..|a|] == a && m[|a|..|a| + |s|] == s && m[|a| + |s|..] == extra;
  }

  ghost predicate Injective(digest: Bytes -> Bytes) {
    forall a, b {:trigger digest(a), digest(b)} :: digest(a) == digest(b) ==> a == b
  }

  /** A message is hashed for one set of fields. */
  lemma MessageOnce<P(!new)>(w: World<P>, m: Bytes, C: P, p: RangeProof, gen: P, extra: Bytes, C': P, p': RangeProof, gen': P, extra': Bytes)
    requires PointsWritten(w) && Writable(w, C, gen) && Hashable(p) && Writable(w, C', gen') && Hashable(p')
    requires MessageStates(w, m, C, gen, p, extra) && MessageStates(w, m, C', gen', p', extra')
    ensures C == C' && gen == gen' && p.exp == p'.exp && p.mantissa == p'.mantissa && p.minValue == p'.minValue
    ensures p.signs == p'.signs && p.xs == p'.xs && extra == extra'
  {
    var k, k' := 66 + HeaderLength(p.mantissa, p.minValue), 66 + HeaderLength(p'.mantissa, p'.minValue);
    assert m == m[..k] + m[k..] && m == m[..k'] + m[k'..];
    PrefixOnce(w, m[..k], m[k..], C, gen, p.exp, p.mantissa, p.minValue, m[..k'], m[k'..], C', gen', p'.exp, p'.mantissa, p'.minValue);
    PointsOnce(m[k..k + 33 * |p.xs|], p.signs, p.xs, p'.signs, p'.xs);
  }

  /** Under a digest without collisions the message binds the commitment, the generator, the header, the stated commitments and
      the caller's octets: change any of them and the rings are signed over another message. */
  lemma RingMessageBinds<P(!new)>(w: World<P>, C: P, p: RangeProof, gen: P, extra: Bytes, C': P, p': RangeProof, gen': P, extra': Bytes)
    requires PointsWritten(w) && Injective(w.digest)
    requires Writable(w, C, gen) && Hashable(p) && Writable(w, C', gen') && Hashable(p')
    requires RingMessage(w, C, p, gen, extra) == RingMessage(w, C', p', gen', extra')
    ensures C == C' && gen == gen' && p' == p.(sig := p'.sig) && extra == extra'
  {
    var m := RingMessageStates(w, C, p, gen, extra);
    var m' := RingMessageStates(w, C', p', gen', extra');
    assert m == m';
    MessageOnce(w, m, C, p, gen, extra, C', p', gen', extra');
  }

  // ---- the seed of the chain

  /** The nonce, then the prefix. */
  ghost predicate SeedStates<P(!new)>(w: World<P>, seed: Bytes, nonce: Bytes, C: P, gen: P, exp: int, mantissa: int, minValue: Option<int>) {
    |seed| >= 32 && seed[..32] == nonce && PrefixStates(w, seed[32..], C, gen, exp, mantissa, minValue)
  }

  lemma SeedOctetsState<P(!new)>(w: World<P>, nonce: Bytes, C: P, gen: P, exp: int, mantissa: int, minValue: Option<int>)
    requires Stateable(w, C, gen, exp, mantissa, minValue) && |nonce| == 32
    ensures SeedStates(w, nonce + HashedPrefix(w, C, gen, exp, mantissa, minValue), nonce, C, gen, exp, mantissa, minValue)
  {
    var a := HashedPrefix(w, C, gen, exp, mantissa, minValue);
    HashedPrefixStates(w, C, gen, exp, mantissa, minValue);
    assert (nonce + a)[..32] == nonce && (nonce + a)[32..] == a;
  }

  /** A seed is one nonce's, over one commitment, generator and header. */
  lemma SeedOnce<P(!new)>(w: World<P>, seed: Bytes, nonce: Bytes, C: P, gen: P, exp: int, mantissa: int, minValue: Option<int>,
                          nonce': Bytes, C': P, gen': P, exp': int, mantissa': int, minValue': Option<int>)
    requires Stateable(w, C, gen, exp, mantissa, minValue) && Stateable(w, C', gen', exp', mantissa', minValue')
    requires SeedStates(w, seed, nonce, C, gen, exp, mantissa, minValue) && SeedStates(w, seed, nonce', C', gen', exp', mantissa', minValue')
    ensures nonce == nonce' && C == C' && gen == gen' && exp == exp' && mantissa == mantissa' && minValue == minValue'
  {
    var a := seed[32..];
    assert a + [] == a + [];
    PrefixOnce(w, a, [], C, gen, exp, mantissa, minValue, a, [], C', gen', exp', mantissa', minValue');
  }

  // ---- the walk over the message

  /** One ring over a message: the challenge of position j of ring i hashes the message, the point before it (e0 for the first),
      i and j, and is a scalar as it stands. */
  ghost predicate RingHashed<P(!new)>(w: World<P>, m: Bytes, i: nat, ring: seq<P>, s: seq<int>, e0: Bytes, es: seq<int>, Rs: seq<P>) {
    && 0 < |ring| == |s| == |es| == |Rs|
    && es[0] == w.spot(m, FromE0(e0), i, 0)
    && (forall j {:trigger es[j]} :: 0 < j < |ring| ==> es[j] == w.spot(m, FromPoint(Rs[j - 1]), i, j))
    && (forall j {:trigger es[j]} :: 0 <= j < |ring| ==> 0 < es[j] < w.c.n)
    && forall j {:trigger Rs[j]} :: 0 <= j < |ring| ==>
         Rs[j] != w.c.g.zero && Rs[j] == w.c.g.add(Mul(w.c.g, es[j], ring[j]), Mul(w.c.g, s[j], w.c.G))
  }

  ghost predicate AllHashed<P(!new)>(w: World<P>, m: Bytes, rings: seq<seq<P>>, sig: BorromeanSig, es: seq<seq<int>>, Rs: seq<seq<P>>) {
    && |rings| == |sig.s| == |es| == |Rs|
    && forall i :: 0 <= i < |rings| ==> RingHashed(w, m, i, rings[i], sig.s[i], sig.e0, es[i], Rs[i])
  }

  lemma HashedIsEquations<P(!new)>(w: World<P>, m: Bytes, i: nat, ring: seq<P>, s: seq<int>, e0: Bytes, es: seq<int>, Rs: seq<P>)
    ensures RingHashed(w, m, i, ring, s, e0, es, Rs) <==> RingEquations(w.c, OverMessage(w, m), 1, i, ring, s, e0, es, Rs)
  {
    var h := OverMessage(w, m);
    assert forall e :: 1 * e == e;
    if RingHashed(w, m, i, ring, s, e0, es, Rs) {
      forall j | 0 < j < |ring| ensures h.challenge(FromPoint(Rs[j - 1]), i, j) == Some(es[j]) { }
    }
    if RingEquations(w.c, h, 1, i, ring, s, e0, es, Rs) {
      forall j | 0 < j < |ring| ensures es[j] == w.spot(m, FromPoint(Rs[j - 1]), i, j) && 0 < es[j] < w.c.n {
        assert h.challenge(FromPoint(Rs[j - 1]), i, j) == Some(es[j]);
      }
    }
  }

  lemma AllHashedIff<P(!new)>(w: World<P>, m: Bytes, rings: seq<seq<P>>, sig: BorromeanSig, es: seq<seq<int>>, Rs: seq<seq<P>>)
    ensures AllHashed(w, m, rings, sig, es, Rs) <==> AllEquations(w.c, OverMessage(w, m), 1, rings, sig.s, sig.e0, es, Rs)
  {
    if |rings| == |sig.s| == |es| == |Rs| {
      forall i | 0 <= i < |rings|
        ensures RingHashed(w, m, i, rings[i], sig.s[i], sig.e0, es[i], Rs[i])
           <==> RingEquations(w.c, OverMessage(w, m), 1, i, rings[i], sig.s[i], sig.e0, es[i], Rs[i])
      {
        HashedIsEquations(w, m, i, rings[i], sig.s[i], sig.e0, es[i], Rs[i]);
      }
    }
  }

  /** The rings of a proof close exactly where some challenges and points satisfy every hash and every sum over its message. */
  lemma ClosesOverMessage<P(!new)>(w: World<P>, m: Bytes, rings: seq<seq<P>>, sig: BorromeanSig)
    requires SameShape(rings, sig.s)
    ensures Closes(w.c, OverMessage(w, m), 1, rings, sig.s, sig.e0) <==>
      exists es, Rs :: AllHashed(w, m, rings, sig, es, Rs) && w.ends(Lasts(Rs), m) == sig.e0
  {
    var h := OverMessage(w, m);
    ClosesIff(w.c, h, 1, rings, sig.s, sig.e0);
    if es, Rs :| AllEquations(w.c, h, 1, rings, sig.s, sig.e0, es, Rs) && h.close(Lasts(Rs)) == sig.e0 {
      AllHashedIff(w, m, rings, sig, es, Rs);
    }
    if es, Rs :| AllHashed(w, m, rings, sig, es, Rs) && w.ends(Lasts(Rs), m) == sig.e0 {
      AllHashedIff(w, m, rings, sig, es, Rs);
      assert h.close(Lasts(Rs)) == sig.e0;
    }
  }

  /** A proof holds exactly where its parts are valid and its rings hash and sum to e0 over the octets of its own fields. */
  lemma HoldsIff<P(!new)>(w: World<P>, commitment: P, p: RangeProof, gen: P, extra: Bytes)
    requires Setting(w)
    ensures Holds(w, commitment, p, gen, extra) <==>
      && Writable(w, commitment, gen) && ValidProof(p, w.c.n) && RingsOf(w, commitment, p, gen).Some?
      && NoZeroScalar(p.sig.s) && NoKeyAtInfinity(w.c, RingsOf(w, commitment, p, gen).value)
      && exists m, es, Rs ::
           && MessageStates(w, m, commitment, gen, p, extra)
           && AllHashed(w, w.digest(m), RingsOf(w, commitment, p, gen).value, p.sig, es, Rs) && w.ends(Lasts(Rs), w.digest(m)) == p.sig.e0
  {
    if Writable(w, commitment, gen) && ValidProof(p, w.c.n) && RingsOf(w, commitment, p, gen).Some? {
      var octets := RingMessageStates(w, commitment, p, gen, extra);
      var rings := RingsOf(w, commitment, p, gen).value;
      ClosesOverMessage(w, w.digest(octets), rings, p.sig);
      forall m | MessageStates(w, m, commitment, gen, p, extra) ensures m == octets { MessageOctetsOnce(w, m, octets, commitment, gen, p, extra); }
    }
  }

  /** The fields of a message are its octets. */
  lemma MessageOctetsOnce<P(!new)>(w: World<P>, m: Bytes, m': Bytes, commitment: P, gen: P, p: RangeProof, extra: Bytes)
    requires MessageStates(w, m, commitment, gen, p, extra) && MessageStates(w, m', commitment, gen, p, extra)
    ensures m == m'
  {
    var k := 66 + HeaderLength(p.mantissa, p.minValue);
    var l := k + 33 * |p.xs|;
    PrefixOctetsOnce(w, m[..k], m'[..k], commitment, gen, p.exp, p.mantissa, p.minValue);
    PointsOctetsOnce(m[k..l], m'[k..l], p.signs, p.xs);
    assert m == m[..k] + m[k..l] + m[l..] && m' == m'[..k] + m'[k..l] + m'[l..];
  }

  lemma PrefixOctetsOnce<P(!new)>(w: World<P>, b: Bytes, b': Bytes, commitment: P, gen: P, exp: int, mantissa: int, minValue: Option<int>)
    requires PrefixStates(w, b, commitment, gen, exp, mantissa, minValue) && PrefixStates(w, b', commitment, gen, exp, mantissa, minValue)
    ensures b == b'
  {
    PointOctetsOnce(b[..33], b'[..33], w.write(commitment).0, w.write(commitment).1);
    PointOctetsOnce(b[33..66], b'[33..66], w.write(gen).0, w.write(gen).1);
    HeaderOctetsOnce(b[66..], b'[66..], exp, mantissa, minValue);
    assert b == b[..33] + b[33..66] + b[66..] && b' == b'[..33] + b'[33..66] + b'[66..];
  }

  lemma PointOctetsOnce(b: Bytes, b': Bytes, sign: bool, x: int)
    requires PointStates(b, sign, x) && PointStates(b', sign, x)
    ensures b == b'
  {
    ToBytesNum(b[1..]);
    ToBytesNum(b'[1..]);
    assert b == [b[0]] + b[1..] && b' == [b'[0]] + b'[1..];
  }

  lemma PointsOctetsOnce(b: Bytes, b': Bytes, signs: seq<bool>, xs: seq<int>)
    requires PointsState(b, signs, xs) && PointsState(b', signs, xs)
    ensures b == b'
  {
    forall k | 0 <= k < |b| ensures b[k] == b'[k] {
      var i := k / 33;
      assert PointStates(b[33 * i..33 * i + 33], signs[i], xs[i]);
      PointOctetsOnce(b[33 * i..33 * i + 33], b'[33 * i..33 * i + 33], signs[i], xs[i]);
      assert b[k] == b[33 * i..33 * i + 33][k - 33 * i] && b'[k] == b'[33 * i..33 * i + 33][k - 33 * i];
    }
  }

  lemma HeaderOctetsOnce(b: Bytes, b': Bytes, exp: int, mantissa: int, minValue: Option<int>)
    requires HeaderStates(b, exp, mantissa, minValue) && HeaderStates(b', exp, mantissa, minValue)
    ensures b == b'
  {
    FlagsOnce(b[0], b'[0]);
    if minValue.Some? {
      ToBytesNum(b[|b| - 8..]);
      ToBytesNum(b'[|b| - 8..]);
      assert b == b[..|b| - 8] + b[|b| - 8..] && b' == b'[..|b| - 8] + b'[|b| - 8..];
    }
  }

  lemma FlagsOnce(f: byte, f': byte)
    requires f < 128 && f' < 128 && (f / 64) % 2 == (f' / 64) % 2 && (f / 32) % 2 == (f' / 32) % 2 && f % 32 == f' % 32
    ensures f == f'
  {
  }
}
