/** Signing a range proof, and that the proof it answers holds for its commitment. */
module RangeSigning {
  import opened Modular
  import opened Groups
  import opened SchnorrGroup
  import opened Octets
  import opened RingWalk
  import opened Borromean
  import opened RangeParams
  import opened RangeChain
  import opened RangeProofs
  import opened RangeMessage

  /** What is asked for. */
  datatype Request<P> = Request(
    blind: int, value: int, nonce: Bytes, gen: P, minValue: int, exp: int, minBits: int, message: Bytes, extra: Bytes)

  predicate Acceptable<P(!new)>(w: World<P>, q: Request<P>) {
    0 < q.blind < w.c.n && Admissible(q.value, q.minValue, q.exp, q.minBits) && |q.nonce| == 32
  }

  function Floor(minValue: int): Option<int> { if minValue == 0 then None else Some(minValue) }

  function CommitmentOf<P(!new)>(w: World<P>, q: Request<P>): P { Commit(w.c, q.blind, q.value, q.gen) }

  /** The chain's factors, the caller's own added to the last. */
  function Secrets(factors: seq<int>, blind: int, n: int): (secs: seq<int>)
    requires n > 0 && |factors| > 0
    ensures |secs| == |factors|
  {
    var k := |factors| - 1;
    factors[..k] + [(factors[k] + blind) % n]
  }

  /** A ring's commitment: its secret, and its digit at the weight of its place. */
  function HeadOf<P(!new)>(c: Schnorr<P>, gen: P, exp: int, secs: seq<int>, digits: seq<nat>, i: nat): P
    requires i < |secs| == |digits|
  {
    Commit(c, secs[i], digits[i] * Weight(exp, i), gen)
  }

  function Heads<P(!new)>(c: Schnorr<P>, gen: P, exp: int, secs: seq<int>, digits: seq<nat>): (hs: seq<P>)
    requires |secs| == |digits|
    ensures |hs| == |secs|
  {
    seq(|secs|, i requires 0 <= i < |secs| => HeadOf(c, gen, exp, secs, digits, i))
  }

  /** The nonce of each ring: the draw at its digit. */
  function SpentDraws(draws: seq<seq<int>>, digits: seq<nat>): (ks: seq<int>)
    requires Indexes(draws, digits)
    ensures |ks| == |draws|
  {
    seq(|draws|, i requires 0 <= i < |draws| => draws[i][digits[i]])
  }

  /** Everything a signature is made of. */
  datatype Making = Making(params: Params, prep: Bytes, chain: NonceChain, secs: seq<int>)

  function SeedOf<P(!new)>(w: World<P>, q: Request<P>, p: Params): Bytes
    requires ValidHeader(p.exp, p.mantissa, Floor(p.minValue))
    requires w.write(CommitmentOf(w, q)).1 >= 0 && w.write(q.gen).1 >= 0
  {
    q.nonce + HashedPrefix(w, CommitmentOf(w, q), q.gen, p.exp, p.mantissa, Floor(p.minValue))
  }

  /** The seed of a request's chain: its nonce, then the commitment, the generator and the header that is answered. */
  lemma SeedOfStates<P(!new)>(w: World<P>, q: Request<P>, p: Params)
    requires Stateable(w, CommitmentOf(w, q), q.gen, p.exp, p.mantissa, Floor(p.minValue)) && |q.nonce| == 32
    ensures SeedStates(w, SeedOf(w, q, p), q.nonce, CommitmentOf(w, q), q.gen, p.exp, p.mantissa, Floor(p.minValue))
  {
    SeedOctetsState(w, q.nonce, CommitmentOf(w, q), q.gen, p.exp, p.mantissa, Floor(p.minValue));
  }

  /** The parameters a request is answered with, over points that can be written. */
  ghost predicate Parameterized<P(!new)>(w: World<P>, q: Request<P>, p: Params) {
    && Acceptable(w, q) && !Refuses(q.value, q.minValue, q.exp) && Covers(p, q.value, q.minValue)
    && Chosen(p, q.value, q.minValue, q.exp, q.minBits) && Writable(w, CommitmentOf(w, q), q.gen)
    && |p.rsizes| > 0 && |p.digits| == |p.rsizes| && p.rsizes[|p.rsizes| - 1] <= 4
  }

  /** The parameters, the buffer, the chain and the ring secrets of a request. */
  ghost predicate Prepared<P(!new)>(w: World<P>, q: Request<P>, k: Making)
    requires Setting(w)
  {
    var p := k.params;
    && Parameterized(w, q, p)
    && Prep(p.rsizes, p.v, p.digits[|p.digits| - 1], q.message) == Some(k.prep)
    && Rings(p.rsizes, k.prep)
    && IsChain(w.c.n, w.blocks(SeedOf(w, q, p)), p.rsizes, k.prep, k.chain)
    && |k.chain.factors| == |p.rsizes|
    && k.secs == Secrets(k.chain.factors, q.blind, w.c.n)
  }

  lemma DigitsFit(p: Params, value: int, minValue: int)
    requires Covers(p, value, minValue)
    ensures |p.digits| == |p.rsizes| > 0 && DigitSum(p.digits) == p.v
    ensures forall i :: 0 <= i < |p.rsizes| ==> 1 <= p.rsizes[i] <= 4 && p.digits[i] < p.rsizes[i]
  {
    if p.mantissa == 0 {
      assert Pow2(0) == 1 && Pow(4, 0) == 1;
      assert p.v == 0 && p.digits == [0];
      assert DigitSum([0][..0]) == 0;
    } else {
      DigitsOfValue(p.v, p.mantissa);
    }
  }

  /** What a chain gives the signer: rings drawn in shape, nonzero scalars, and the sum of the secrets. */
  lemma ChainFacts<P(!new)>(w: World<P>, q: Request<P>, k: Making)
    requires Setting(w) && Prepared(w, q, k)
    ensures var p := k.params;
            && |k.chain.draws| == |p.rsizes| == |k.secs|
            && Indexes(k.chain.draws, p.digits)
            && (forall i, j :: 0 <= i < |p.rsizes| && 0 <= j < |k.chain.draws[i]| ==> 0 < k.chain.draws[i][j] < w.c.n)
            && (forall i :: 0 <= i < |p.rsizes| ==> |k.chain.draws[i]| == p.rsizes[i])
  {
    var p := k.params;
    DigitsFit(p, q.value, q.minValue);
    var l := LayoutOf(w.c.n, w.blocks(SeedOf(w, q, p)), p.rsizes, |p.rsizes|).value;
    forall i | 0 <= i < |p.rsizes|
      ensures |k.chain.draws[i]| == p.rsizes[i] && forall j :: 0 <= j < |k.chain.draws[i]| ==> 0 < k.chain.draws[i][j] < w.c.n
    {
      assert RingDrawn(w.c.n, w.blocks(SeedOf(w, q, p)), p.rsizes[i], l.starts[i], k.prep, i, k.chain.draws[i]);
    }
  }

  lemma SecretsSum<P(!new)>(w: World<P>, q: Request<P>, k: Making)
    requires Setting(w) && Prepared(w, q, k)
    ensures Cong(Sum(k.secs), q.blind, w.c.n)
    ensures forall i :: 0 <= i < |k.secs| - 1 ==> 0 < k.secs[i] < w.c.n
    ensures 0 <= k.secs[|k.secs| - 1] < w.c.n
  {
    var p, fs, n := k.params, k.chain.factors, w.c.n;
    FactorsCancel(n, w.blocks(SeedOf(w, q, p)), p.rsizes, k.prep, k.chain);
    BlindAdded(fs, q.blind, n);
  }

  lemma BlindAdded(fs: seq<int>, blind: int, n: int)
    requires n > 0 && |fs| > 0 && Cong(Sum(fs), 0, n)
    ensures Cong(Sum(Secrets(fs, blind, n)), blind, n) && 0 <= Secrets(fs, blind, n)[|fs| - 1] < n
  {
    var m := |fs| - 1;
    assert fs == fs[..m] + [fs[m]];
    LastReplaced(fs[..m], fs[m], blind, n);
  }

  lemma LastReplaced(rest: seq<int>, f: int, blind: int, n: int)
    requires n > 0 && Cong(Sum(rest + [f]), 0, n)
    ensures Cong(Sum(rest + [(f + blind) % n]), blind, n) && 0 <= (f + blind) % n < n
  {
    SumSnoc(rest, f);
    SumSnoc(rest, (f + blind) % n);
    LastTakesBlind(Sum(rest), f, blind, n);
  }

  lemma LastTakesBlind(s: int, f: int, blind: int, n: int)
    requires n > 0 && Cong(s + f, 0, n)
    ensures Cong(s + (f + blind) % n, blind, n) && 0 <= (f + blind) % n < n
  {
    ModCong(f + blind, n);
    CongAdd(s, s, (f + blind) % n, f + blind, n);
    CongAdd(s + f, 0, blind, blind, n);
  }

  // ---- the recovered ring commitment

  lemma {:induction false} OffsetOfCommits<P(!new)>(c: Schnorr<P>, gen: P, floor: int, secs: seq<int>, parts: seq<int>, hs: seq<P>)
    requires Laws(c) && c.g.has(gen) && AreCommits(c, gen, secs, parts, hs)
    ensures Offset(c, gen, floor, hs) == Commit(c, Sum(secs), floor + Sum(parts), gen)
    decreases |hs|
  {
    if hs == [] {
      ZeroLeft(c.g, Mul(c.g, floor, gen));
    } else {
      var n := |hs| - 1;
      CommitsBefore(c, gen, secs, parts, hs, n);
      OffsetOfCommits(c, gen, floor, secs[..n], parts[..n], hs[..n]);
      OneMoreCommit(c, gen, floor, Sum(secs[..n]), Sum(parts[..n]), secs[n], parts[n]);
    }
  }

  ghost predicate AreCommits<P(!new)>(c: Schnorr<P>, gen: P, secs: seq<int>, parts: seq<int>, hs: seq<P>) {
    |secs| == |parts| == |hs| && forall i :: 0 <= i < |hs| ==> hs[i] == Commit(c, secs[i], parts[i], gen)
  }

  lemma CommitsBefore<P(!new)>(c: Schnorr<P>, gen: P, secs: seq<int>, parts: seq<int>, hs: seq<P>, n: nat)
    requires AreCommits(c, gen, secs, parts, hs) && n < |hs|
    ensures AreCommits(c, gen, secs[..n], parts[..n], hs[..n]) && hs[n] == Commit(c, secs[n], parts[n], gen)
  {
  }

  lemma OneMoreCommit<P(!new)>(c: Schnorr<P>, gen: P, floor: int, secs: int, parts: int, sec: int, part: int)
    requires Laws(c) && c.g.has(gen)
    ensures c.g.add(Commit(c, secs, floor + parts, gen), Commit(c, sec, part, gen)) == Commit(c, secs + sec, floor + (parts + part), gen)
  {
    CommitAdds(c, secs, floor + parts, sec, part, gen);
  }

  /** What each ring commits to: its digit at its weight. */
  function Parts(digits: seq<nat>, exp: int): (r: seq<int>)
    ensures |r| == |digits|
  {
    seq(|digits|, i requires 0 <= i < |digits| => digits[i] * Weight(exp, i))
  }

  lemma {:induction false} PartsSum(digits: seq<nat>, exp: int, k: nat)
    requires k <= |digits|
    ensures Sum(Parts(digits, exp)[..k]) == DigitSum(digits[..k]) * Scale(exp)
  {
    if k == 0 {
      assert DigitSum(digits[..0]) * Scale(exp) == 0;
    } else {
      var i := k - 1;
      PartsSum(digits, exp, i);
      DigitSumLast(digits, i);
      assert Parts(digits, exp)[..k] == Parts(digits, exp)[..i] + [digits[i] * Weight(exp, i)];
      SumSnoc(Parts(digits, exp)[..i], digits[i] * Weight(exp, i));
      WeightedDigit(DigitSum(digits[..i]), digits[i], Pow(4, i), Scale(exp));
    }
  }

  lemma DigitSumLast(digits: seq<nat>, i: nat)
    requires i < |digits|
    ensures DigitSum(digits[..i + 1]) == DigitSum(digits[..i]) + digits[i] * Pow(4, i)
  {
    assert digits[..i + 1][..i] == digits[..i];
  }

  lemma WeightedDigit(s: int, d: int, p: int, scale: int)
    ensures s * scale + d * (scale * p) == (s + d * p) * scale
  {
    assert d * (scale * p) == (d * p) * scale;
  }

  lemma CommitAdds<P(!new)>(c: Schnorr<P>, r: int, a: int, s: int, b: int, gen: P)
    requires Laws(c) && c.g.has(gen)
    ensures c.g.add(Commit(c, r, a, gen), Commit(c, s, b, gen)) == Commit(c, r + s, a + b, gen)
  {
    Interchange(c.g, Mul(c.g, r, c.G), Mul(c.g, a, gen), Mul(c.g, s, c.G), Mul(c.g, b, gen));
    MulAdd(c.g, r, s, c.G);
    MulAdd(c.g, a, b, gen);
  }

  /** A verifier recovers the last ring's commitment from the rest: the secrets sum to the blinding factor. */
  lemma LastHeadRecovered<P(!new)>(c: Schnorr<P>, gen: P, floor: int, secs: seq<int>, parts: seq<int>, hs: seq<P>, blind: int, value: int)
    requires Laws(c) && c.g.has(gen) && AreCommits(c, gen, secs, parts, hs) && |hs| > 0 && value == floor + Sum(parts)
    requires Cong(Sum(secs), blind, c.n)
    ensures LastHead(c, Commit(c, blind, value, gen), gen, floor, hs[..|hs| - 1]) == hs[|hs| - 1]
  {
    var k := |hs| - 1;
    OffsetOfCommits(c, gen, floor, secs, parts, hs);
    SameMultiple(c, Sum(secs), blind, c.G);
    CommitsIn(c, gen, secs, parts, hs);
    OffsetIn(c, gen, floor, hs[..k]);
    LastOfSum(c, Offset(c, gen, floor, hs[..k]), hs[k]);
  }

  lemma CommitsIn<P(!new)>(c: Schnorr<P>, gen: P, secs: seq<int>, parts: seq<int>, hs: seq<P>)
    requires Laws(c) && c.g.has(gen) && AreCommits(c, gen, secs, parts, hs)
    ensures AllIn(c.g, hs)
  {
  }

  lemma LastOfSum<P(!new)>(c: Schnorr<P>, before: P, last: P)
    requires Laws(c) && c.g.has(before) && c.g.has(last)
    ensures c.g.add(c.g.add(before, last), c.g.neg(before)) == last
  {
    assert Commutes(c.g, before, last);
    AddThenSubtract(c.g, last, before);
  }

  // ---- what is signed

  function StatedSigns<P(!new)>(w: World<P>, hs: seq<P>): (r: seq<bool>)
    ensures |r| == |hs|
  {
    seq(|hs|, i requires 0 <= i < |hs| => w.write(hs[i]).0)
  }

  function StatedXs<P(!new)>(w: World<P>, hs: seq<P>): (r: seq<int>)
    ensures |r| == |hs|
  {
    seq(|hs|, i requires 0 <= i < |hs| => w.write(hs[i]).1)
  }

  lemma {:induction false} StatedRead<P(!new)>(w: World<P>, hs: seq<P>)
    requires Setting(w) && AllIn(w.c.g, hs) && forall i :: 0 <= i < |hs| ==> hs[i] != w.c.g.zero
    ensures ReadAll(w, StatedSigns(w, hs), StatedXs(w, hs)) == Some(hs)
    ensures forall i :: 0 <= i < |hs| ==> 0 <= StatedXs(w, hs)[i] < Pow(256, 32)
    decreases |hs|
  {
    if hs != [] {
      var n := |hs| - 1;
      StatedRead(w, hs[..n]);
      assert StatedSigns(w, hs)[..n] == StatedSigns(w, hs[..n]) && StatedXs(w, hs)[..n] == StatedXs(w, hs[..n]);
      assert w.c.g.has(hs[n]) && hs[n] != w.c.g.zero;
      assert w.read(w.write(hs[n]).0, w.write(hs[n]).1) == Some(hs[n]);
      assert hs == hs[..n] + [hs[n]];
    }
  }

  /** The proof that a making states, over the signature of its rings. */
  function Stated<P(!new)>(w: World<P>, q: Request<P>, k: Making, sig: BorromeanSig): RangeProof
    requires |k.secs| == |k.params.digits| > 0
  {
    var hs := Heads(w.c, q.gen, k.params.exp, k.secs, k.params.digits);
    var stated := hs[..|hs| - 1];
    RangeProof(k.params.exp, k.params.mantissa, Floor(k.params.minValue), StatedSigns(w, stated), StatedXs(w, stated), sig)
  }

  /** A signature the walk closed over the making's rings. */
  ghost predicate Signed<P(!new)>(w: World<P>, q: Request<P>, k: Making, proof: RangeProof)
    requires Setting(w)
  {
    && Prepared(w, q, k) && |k.secs| == |k.params.digits| && k.secs[|k.secs| - 1] != 0
    && proof == Stated(w, q, k, proof.sig)
    && (forall i :: 0 <= i < |k.secs| ==> HeadOf(w.c, q.gen, k.params.exp, k.secs, k.params.digits, i) != w.c.g.zero)
    && ValidProof(proof, w.c.n) && NoZeroScalar(proof.sig.s)
    && RingsClosed(w, q, k, proof)
  }

  ghost predicate RingsClosed<P(!new)>(w: World<P>, q: Request<P>, k: Making, proof: RangeProof)
    requires Setting(w) && Prepared(w, q, k) && |k.secs| == |k.params.digits| && ValidProof(proof, w.c.n)
  {
    var p := k.params;
    var h := OverMessage(w, RingMessage(w, CommitmentOf(w, q), proof, q.gen, q.extra));
    var rings := ExpandedRings(w.c, Heads(w.c, q.gen, p.exp, k.secs, p.digits), q.gen, p.exp, p.rsizes);
    && Indexes(k.chain.draws, p.digits)
    && ClosedBy(w.c, h, 1, rings, proof.sig.s, proof.sig.e0, p.digits, SpentDraws(k.chain.draws, p.digits), k.secs, k.chain.draws, k.chain.draws)
  }

  /** The rings a verifier rebuilds are the ones the signature was made over. */
  lemma RingsRebuilt<P(!new)>(w: World<P>, q: Request<P>, k: Making, proof: RangeProof)
    requires Setting(w) && Signed(w, q, k, proof)
    ensures RingsOf(w, CommitmentOf(w, q), proof, q.gen)
         == Some(ExpandedRings(w.c, Heads(w.c, q.gen, k.params.exp, k.secs, k.params.digits), q.gen, k.params.exp, k.params.rsizes))
  {
    var p := k.params;
    var hs := Heads(w.c, q.gen, p.exp, k.secs, p.digits);
    var m := |hs| - 1;
    HeadsRead(w, q, k, hs, m);
    HeadRecovered(w, q, k, hs, m);
    assert hs[m] == HeadOf(w.c, q.gen, p.exp, k.secs, p.digits, m);
    RingsFrom(w, CommitmentOf(w, q), proof, q.gen, hs, m, p.rsizes);
  }

  /** The rings of a proof whose commitments read back to all heads but the last, which is recovered. */
  lemma RingsFrom<P(!new)>(w: World<P>, commitment: P, proof: RangeProof, gen: P, hs: seq<P>, m: nat, rsizes: seq<nat>)
    requires ValidProof(proof, w.c.n) && rsizes == Rsizes(proof.mantissa) && m == |hs| - 1 && hs[m] != w.c.g.zero
    requires ReadAll(w, proof.signs, proof.xs) == Some(hs[..m])
    requires LastHead(w.c, commitment, gen, FloorOf(proof.minValue), hs[..m]) == hs[m]
    ensures |hs| == |rsizes| && RingsOf(w, commitment, proof, gen) == Some(ExpandedRings(w.c, hs, gen, proof.exp, rsizes))
  {
    assert hs == hs[..m] + [hs[m]];
  }

  lemma HeadsRead<P(!new)>(w: World<P>, q: Request<P>, k: Making, hs: seq<P>, m: nat)
    requires Setting(w) && Prepared(w, q, k) && |k.secs| == |k.params.digits| > 0 && m == |hs| - 1
    requires hs == Heads(w.c, q.gen, k.params.exp, k.secs, k.params.digits)
    requires forall i :: 0 <= i < |k.secs| ==> HeadOf(w.c, q.gen, k.params.exp, k.secs, k.params.digits, i) != w.c.g.zero
    ensures ReadAll(w, StatedSigns(w, hs[..m]), StatedXs(w, hs[..m])) == Some(hs[..m])
    ensures forall i :: 0 <= i < m ==> 0 <= StatedXs(w, hs[..m])[i] < Pow(256, 32)
  {
    forall i | 0 <= i < |hs| ensures w.c.g.has(hs[i]) && hs[i] != w.c.g.zero {
      assert hs[i] == HeadOf(w.c, q.gen, k.params.exp, k.secs, k.params.digits, i);
    }
    StatedRead(w, hs[..m]);
  }

  lemma HeadRecovered<P(!new)>(w: World<P>, q: Request<P>, k: Making, hs: seq<P>, m: nat)
    requires Setting(w) && Prepared(w, q, k) && |k.secs| == |k.params.digits| > 0 && m == |hs| - 1
    requires hs == Heads(w.c, q.gen, k.params.exp, k.secs, k.params.digits)
    ensures LastHead(w.c, CommitmentOf(w, q), q.gen, FloorOf(Floor(k.params.minValue)), hs[..m]) == hs[m]
  {
    var p := k.params;
    SecretsSum(w, q, k);
    PartsOfValue(p, q.value, q.minValue);
    LastHeadRecovered(w.c, q.gen, p.minValue, k.secs, Parts(p.digits, p.exp), hs, q.blind, q.value);
  }

  /** The floor and the parts the rings commit to add up to the value. */
  lemma PartsOfValue(p: Params, value: int, minValue: int)
    requires Covers(p, value, minValue)
    ensures value == p.minValue + Sum(Parts(p.digits, p.exp))
  {
    DigitsFit(p, value, minValue);
    PartsSum(p.digits, p.exp, |p.digits|);
    assert p.digits[..|p.digits|] == p.digits;
    assert Parts(p.digits, p.exp)[..|p.digits|] == Parts(p.digits, p.exp);
  }

  /** Each ring's key at its digit is the ring's secret times G. */
  lemma KeysAtDigits<P(!new)>(w: World<P>, q: Request<P>, k: Making)
    requires Setting(w) && Prepared(w, q, k) && |k.secs| == |k.params.digits|
    ensures var p := k.params;
            var rings := ExpandedRings(w.c, Heads(w.c, q.gen, p.exp, k.secs, p.digits), q.gen, p.exp, p.rsizes);
            forall i :: 0 <= i < |rings| ==> p.digits[i] < |rings[i]| && rings[i][p.digits[i]] == Mul(w.c.g, k.secs[i], w.c.G)
  {
    var p := k.params;
    DigitsFit(p, q.value, q.minValue);
    forall i | 0 <= i < |p.rsizes|
      ensures KeyAt(w.c, HeadOf(w.c, q.gen, p.exp, k.secs, p.digits, i), q.gen, Weight(p.exp, i), p.digits[i]) == Mul(w.c.g, k.secs[i], w.c.G)
    {
      KeyAtDigit(w.c, k.secs[i], p.digits[i], Weight(p.exp, i), q.gen);
    }
  }

  lemma DrawsInRange<P(!new)>(w: World<P>, q: Request<P>, k: Making)
    requires Setting(w) && Prepared(w, q, k)
    ensures Indexes(k.chain.draws, k.params.digits)
    ensures var ks := SpentDraws(k.chain.draws, k.params.digits);
            forall i :: 0 <= i < |ks| ==> 0 < ks[i] < w.c.n
  {
    ChainFacts(w, q, k);
  }

  /** A signed proof holds exactly when no ring key is the point at infinity. */
  lemma SignedHolds<P(!new)>(w: World<P>, q: Request<P>, k: Making, proof: RangeProof)
    requires Setting(w) && Signed(w, q, k, proof)
    ensures RingsOf(w, CommitmentOf(w, q), proof, q.gen).Some?
    ensures Holds(w, CommitmentOf(w, q), proof, q.gen, q.extra) <==> NoKeyAtInfinity(w.c, RingsOf(w, CommitmentOf(w, q), proof, q.gen).value)
  {
    var p := k.params;
    var rings := ExpandedRings(w.c, Heads(w.c, q.gen, p.exp, k.secs, p.digits), q.gen, p.exp, p.rsizes);
    var h := OverMessage(w, RingMessage(w, CommitmentOf(w, q), proof, q.gen, q.extra));
    var ks := SpentDraws(k.chain.draws, p.digits);
    RingsRebuilt(w, q, k, proof);
    KeysAtDigits(w, q, k);
    DrawsInRange(w, q, k);
    SignedCloses(w.c, h, 1, rings, proof.sig.s, proof.sig.e0, p.digits, ks, k.secs, k.chain.draws, k.chain.draws);
  }

  // ---- signing

  lemma ParametersOnce<P(!new)>(w: World<P>, q: Request<P>, p: Params, p': Params)
    requires Parameterized(w, q, p) && Parameterized(w, q, p')
    ensures p == p'
  {
    ChosenOnce(p, p', q.value, q.minValue, q.exp, q.minBits);
  }

  /** A request is prepared in one way. */
  lemma PreparedOnce<P(!new)>(w: World<P>, q: Request<P>, k: Making, k': Making)
    requires Setting(w) && Prepared(w, q, k) && Prepared(w, q, k')
    ensures k == k'
  {
    ParametersOnce(w, q, k.params, k'.params);
    ChainOnce(w.c.n, w.blocks(SeedOf(w, q, k.params)), k.params.rsizes, k.prep, k.chain, k'.chain);
  }

  /** The parameters; None where the request is refused. */
  method Parameters<P(==, !new)>(w: World<P>, q: Request<P>) returns (r: Option<Params>)
    requires Setting(w) && w.c.g.has(q.gen)
    ensures r.Some? ==> Parameterized(w, q, r.value)
    ensures r.None? ==> forall p :: !Parameterized(w, q, p)
  {
    if !Acceptable(w, q) { return None; }
    r := ProveParams(q.value, q.minValue, q.exp, q.minBits);
    if r.None? { return; }
    DigitsFit(r.value, q.value, q.minValue);
    if CommitmentOf(w, q) == w.c.g.zero || q.gen == w.c.g.zero { return None; }
  }

  lemma SizesFit<P(!new)>(w: World<P>, q: Request<P>, p: Params)
    requires Parameterized(w, q, p)
    ensures forall i :: 0 <= i < |p.rsizes| ==> 1 <= p.rsizes[i] <= 4
  {
    DigitsFit(p, q.value, q.minValue);
  }

  lemma BufferRefused<P(!new)>(w: World<P>, q: Request<P>, k: Making)
    requires Setting(w) && Parameterized(w, q, k.params)
    requires var p := k.params; Prep(p.rsizes, p.v, p.digits[|p.digits| - 1], q.message).None?
    ensures !Prepared(w, q, k)
  {
  }

  lemma ChainRefused<P(!new)>(w: World<P>, q: Request<P>, k: Making, blocks: seq<Bytes>, prep: Bytes)
    requires Setting(w) && Parameterized(w, q, k.params) && blocks == w.blocks(SeedOf(w, q, k.params)) && Blocks32(blocks)
    requires var p := k.params; Prep(p.rsizes, p.v, p.digits[|p.digits| - 1], q.message) == Some(prep)
    requires Rings(k.params.rsizes, prep) && !IsChain(w.c.n, blocks, k.params.rsizes, prep, k.chain)
    ensures !Prepared(w, q, k)
  {
  }

  lemma ChainsRefused<P(!new)>(w: World<P>, q: Request<P>, p: Params, blocks: seq<Bytes>, prep: Bytes)
    requires Setting(w) && Parameterized(w, q, p) && blocks == w.blocks(SeedOf(w, q, p)) && Blocks32(blocks)
    requires Prep(p.rsizes, p.v, p.digits[|p.digits| - 1], q.message) == Some(prep) && Rings(p.rsizes, prep)
    requires forall chain :: !IsChain(w.c.n, blocks, p.rsizes, prep, chain)
    ensures forall k: Making :: k.params == p ==> !Prepared(w, q, k)
  {
    forall k: Making | k.params == p ensures !Prepared(w, q, k) { ChainRefused(w, q, k, blocks, prep); }
  }

  lemma ChainPrepared<P(!new)>(w: World<P>, q: Request<P>, p: Params, blocks: seq<Bytes>, prep: Bytes, chain: NonceChain) returns (k: Making)
    requires Setting(w) && Parameterized(w, q, p) && blocks == w.blocks(SeedOf(w, q, p)) && Blocks32(blocks)
    requires Prep(p.rsizes, p.v, p.digits[|p.digits| - 1], q.message) == Some(prep)
    requires Rings(p.rsizes, prep) && IsChain(w.c.n, blocks, p.rsizes, prep, chain)
    ensures |chain.factors| > 0 && k == Making(p, prep, chain, Secrets(chain.factors, q.blind, w.c.n)) && Prepared(w, q, k)
  {
    FactorsCancel(w.c.n, blocks, p.rsizes, prep, chain);
    k := Making(p, prep, chain, Secrets(chain.factors, q.blind, w.c.n));
  }

  /** The chain over a buffer; None where it is refused. */
  method ChainOver<P(==, !new)>(w: World<P>, q: Request<P>, p: Params, blocks: seq<Bytes>, prep: Bytes) returns (r: Option<Making>)
    requires Setting(w) && Parameterized(w, q, p) && blocks == w.blocks(SeedOf(w, q, p)) && Blocks32(blocks)
    requires Prep(p.rsizes, p.v, p.digits[|p.digits| - 1], q.message) == Some(prep) && Rings(p.rsizes, prep)
    ensures r.Some? ==> r.value.params == p && Prepared(w, q, r.value)
    ensures r.None? ==> forall k: Making :: k.params == p ==> !Prepared(w, q, k)
  {
    var chain := Genrand(w.c.n, blocks, p.rsizes, prep);
    if chain.None? {
      ChainsRefused(w, q, p, blocks, prep);
      return None;
    }
    ghost var k := ChainPrepared(w, q, p, blocks, prep, chain.value);
    return Some(Making(p, prep, chain.value, Secrets(chain.value.factors, q.blind, w.c.n)));
  }

  /** The buffer and the chain; None where either is refused. */
  method PrepareOver<P(==, !new)>(w: World<P>, q: Request<P>, p: Params) returns (r: Option<Making>)
    requires Setting(w) && Parameterized(w, q, p)
    ensures r.Some? ==> r.value.params == p && Prepared(w, q, r.value)
    ensures r.None? ==> forall k: Making :: k.params == p ==> !Prepared(w, q, k)
  {
    SizesFit(w, q, p);
    var prep := Prep(p.rsizes, p.v, p.digits[|p.digits| - 1], q.message);
    if prep.None? {
      forall k: Making | k.params == p ensures !Prepared(w, q, k) { BufferRefused(w, q, k); }
      return None;
    }
    r := ChainOver(w, q, p, w.blocks(SeedOf(w, q, p)), prep.value);
  }

  /** The parameters, the buffer and the chain; None exactly where there is no way to prepare the request. */
  method Prepare<P(==, !new)>(w: World<P>, q: Request<P>) returns (r: Option<Making>)
    requires Setting(w) && w.c.g.has(q.gen)
    ensures r.Some? ==> Prepared(w, q, r.value)
    ensures r.None? ==> forall k :: !Prepared(w, q, k)
  {
    var params := Parameters(w, q);
    if params.None? { return None; }
    r := PrepareOver(w, q, params.value);
    if r.None? {
      forall k | Prepared(w, q, k) ensures false { ParametersOnce(w, q, k.params, params.value); }
    }
  }

  /** The message does not depend on the signature it will carry. */
  lemma MessageOfHeader<P(!new)>(w: World<P>, q: Request<P>, p: RangeProof, sig: BorromeanSig)
    requires ValidHeader(p.exp, p.mantissa, p.minValue) && w.write(CommitmentOf(w, q)).1 >= 0 && w.write(q.gen).1 >= 0
    requires |p.signs| == |p.xs| && forall i :: 0 <= i < |p.xs| ==> p.xs[i] >= 0
    ensures RingMessage(w, CommitmentOf(w, q), p.(sig := sig), q.gen, q.extra) == RingMessage(w, CommitmentOf(w, q), p, q.gen, q.extra)
  {
  }

  /** No ring commitment is the point at infinity. */
  method HeadsFinite<P(==, !new)>(c: Schnorr<P>, hs: seq<P>) returns (ok: bool)
    ensures ok <==> forall i :: 0 <= i < |hs| ==> hs[i] != c.g.zero
  {
    for i := 0 to |hs|
      invariant forall k :: 0 <= k < i ==> hs[k] != c.g.zero
    {
      if hs[i] == c.g.zero { return false; }
    }
    return true;
  }

  /** The walk's scalars are scalars, and none is zero but perhaps a signer's own. */
  lemma SignatureWellFormed<P(!new)>(w: World<P>, q: Request<P>, k: Making, h: RingHash<P>, rings: seq<seq<P>>, sig: BorromeanSig)
    requires Setting(w) && Prepared(w, q, k) && |rings| == |k.params.rsizes| && |sig.e0| == 32
    requires Indexes(k.chain.draws, k.params.digits)
    requires AllSigned(w.c, h, 1, rings, sig.s, sig.e0, k.params.digits, SpentDraws(k.chain.draws, k.params.digits), k.secs, k.chain.draws, k.chain.draws)
    ensures WellFormed(sig, w.c.n) && |sig.s| == |k.params.rsizes|
    ensures forall i :: 0 <= i < |sig.s| ==> |sig.s[i]| == k.params.rsizes[i]
    ensures forall i, j :: 0 <= i < |sig.s| && 0 <= j < |sig.s[i]| && j != k.params.digits[i] ==> sig.s[i][j] == k.chain.draws[i][j] != 0
  {
    var p := k.params;
    ChainFacts(w, q, k);
    DigitsFit(p, q.value, q.minValue);
    forall i | 0 <= i < |sig.s|
      ensures |sig.s[i]| == p.rsizes[i] > 0
      ensures forall j :: 0 <= j < |sig.s[i]| ==> 0 <= sig.s[i][j] < w.c.n && (j != p.digits[i] ==> sig.s[i][j] == k.chain.draws[i][j] != 0)
    {
      assert RingSigned(w.c, h, 1, i, rings[i], sig.s[i], sig.e0, p.digits[i], SpentDraws(k.chain.draws, p.digits)[i], k.secs[i], k.chain.draws[i], k.chain.draws[i]);
      SignerInRange(w.c, h, i, rings[i], sig.s[i], sig.e0, p.digits[i], SpentDraws(k.chain.draws, p.digits)[i], k.secs[i], k.chain.draws[i]);
    }
  }

  lemma SignerInRange<P(!new)>(c: Schnorr<P>, h: RingHash<P>, i: nat, ring: seq<P>, s: seq<int>, e0: Bytes, j0: nat, k: int, key: int, draws: seq<int>)
    requires c.n > 0 && RingSigned(c, h, 1, i, ring, s, e0, j0, k, key, draws, draws)
    ensures 0 <= s[j0] < c.n
  {
    ModCong(k - 1 * ChallengeAt(c, h, 1, i, ring, s, e0, j0).value * key, c.n);
  }

  /** What the walk closed over the draft's message makes the signed proof. */
  lemma Assembled<P(!new)>(w: World<P>, q: Request<P>, k: Making, rings: seq<seq<P>>, hs: seq<P>, draft: RangeProof, sig: BorromeanSig)
    requires Setting(w) && Prepared(w, q, k) && |k.secs| == |k.params.digits| > 0 && k.secs[|k.secs| - 1] != 0
    requires hs == Heads(w.c, q.gen, k.params.exp, k.secs, k.params.digits) && forall i :: 0 <= i < |hs| ==> hs[i] != w.c.g.zero
    requires rings == ExpandedRings(w.c, hs, q.gen, k.params.exp, k.params.rsizes)
    requires draft == Stated(w, q, k, BorromeanSig([], [])) && forall i :: 0 <= i < |draft.xs| ==> 0 <= draft.xs[i] < Pow(256, 32)
    requires ValidHeader(draft.exp, draft.mantissa, draft.minValue)
    requires Indexes(k.chain.draws, k.params.digits) && |sig.e0| == 32 && NoZeroScalar(sig.s)
    requires ClosedBy(w.c, OverMessage(w, RingMessage(w, CommitmentOf(w, q), draft, q.gen, q.extra)), 1, rings, sig.s, sig.e0,
      k.params.digits, SpentDraws(k.chain.draws, k.params.digits), k.secs, k.chain.draws, k.chain.draws)
    ensures Signed(w, q, k, Stated(w, q, k, sig))
  {
    var h := OverMessage(w, RingMessage(w, CommitmentOf(w, q), draft, q.gen, q.extra));
    SignatureWellFormed(w, q, k, h, rings, sig);
    MessageOfHeader(w, q, draft, sig);
    assert Stated(w, q, k, sig) == draft.(sig := sig);
    forall i | 0 <= i < |k.secs| ensures HeadOf(w.c, q.gen, k.params.exp, k.secs, k.params.digits, i) != w.c.g.zero {
      assert hs[i] == HeadOf(w.c, q.gen, k.params.exp, k.secs, k.params.digits, i);
    }
  }

  /** The walk of sign: the rings of these commitments, over the message that does not read the signature. */
  ghost predicate WalkSucceeds<P(!new)>(w: World<P>, q: Request<P>, k: Making, hs: seq<P>)
    requires Setting(w) && |k.secs| == |k.params.digits| > 0 && Ready(w, q, k, hs)
  {
    var p := k.params;
    var h := OverMessage(w, DraftMessage(w, q, k));
    var rings := ExpandedRings(w.c, hs, q.gen, p.exp, p.rsizes);
    var ks := SpentDraws(k.chain.draws, p.digits);
    && Finishes(w.c, h, 1, rings, p.digits, ks, k.chain.draws, k.chain.draws)
    && SignersNonzero(w.c, h, 1, rings, p.digits, ks, k.secs, k.chain.draws, k.chain.draws)
  }

  function DraftMessage<P(!new)>(w: World<P>, q: Request<P>, k: Making): Bytes
    requires |k.secs| == |k.params.digits| > 0 && w.write(CommitmentOf(w, q)).1 >= 0 && w.write(q.gen).1 >= 0
    requires var draft := Stated(w, q, k, BorromeanSig([], []));
             ValidHeader(draft.exp, draft.mantissa, draft.minValue) && forall i :: 0 <= i < |draft.xs| ==> draft.xs[i] >= 0
  {
    RingMessage(w, CommitmentOf(w, q), Stated(w, q, k, BorromeanSig([], [])), q.gen, q.extra)
  }

  /** What is left of sign once a request is prepared: a last secret, finite commitments, and a walk that closes with no zero scalar. */
  ghost predicate Succeeds<P(!new)>(w: World<P>, q: Request<P>, k: Making)
    requires Setting(w) && Prepared(w, q, k)
  {
    var hs := Heads(w.c, q.gen, k.params.exp, k.secs, k.params.digits);
    && |k.secs| > 0 && k.secs[|k.secs| - 1] != 0
    && (forall i :: 0 <= i < |hs| ==> hs[i] != w.c.g.zero)
    && (ReadyToClose(w, q, k, hs); WalkSucceeds(w, q, k, hs))
  }

  /** Where the request can be prepared and its walk closes. */
  ghost predicate Signable<P(!new)>(w: World<P>, q: Request<P>)
    requires Setting(w)
  {
    exists k :: Prepared(w, q, k) && Succeeds(w, q, k)
  }

  /** The ring commitments, the message and the walk. */
  method SignRings<P(==, !new)>(w: World<P>, q: Request<P>, k: Making) returns (r: Option<RangeProof>)
    requires Setting(w) && Prepared(w, q, k)
    ensures r.Some? <==> Succeeds(w, q, k)
    ensures r.Some? ==> Signed(w, q, k, r.value)
  {
    ChainFacts(w, q, k);
    DigitsFit(k.params, q.value, q.minValue);
    if k.secs[|k.secs| - 1] == 0 { return None; }
    var hs := Heads(w.c, q.gen, k.params.exp, k.secs, k.params.digits);
    var finite := HeadsFinite(w.c, hs);
    if !finite { return None; }
    ReadyToClose(w, q, k, hs);
    r := CloseOver(w, q, k, hs);
  }

  /** What the walk needs of the ring commitments and of the header they are stated under. */
  ghost predicate Ready<P(!new)>(w: World<P>, q: Request<P>, k: Making, hs: seq<P>)
    requires Setting(w) && |k.secs| == |k.params.digits| > 0
  {
    var p, draft := k.params, Stated(w, q, k, BorromeanSig([], []));
    && AllIn(w.c.g, hs) && |hs| == |p.rsizes| == |k.chain.draws| == |k.secs| && Indexes(k.chain.draws, p.digits)
    && ValidHeader(draft.exp, draft.mantissa, draft.minValue)
    && (forall i :: 0 <= i < |draft.xs| ==> 0 <= draft.xs[i] < Pow(256, 32))
    && (forall i :: 0 <= i < |hs| ==> hs[i] != w.c.g.zero)
    && (forall i :: 0 <= i < |p.rsizes| ==> p.digits[i] < p.rsizes[i] == |k.chain.draws[i]|)
    && w.c.g.has(q.gen) && w.write(CommitmentOf(w, q)).1 >= 0 && w.write(q.gen).1 >= 0
  }

  lemma ReadyToClose<P(!new)>(w: World<P>, q: Request<P>, k: Making, hs: seq<P>)
    requires Setting(w) && Prepared(w, q, k) && |k.secs| == |k.params.digits| > 0
    requires hs == Heads(w.c, q.gen, k.params.exp, k.secs, k.params.digits) && forall i :: 0 <= i < |hs| ==> hs[i] != w.c.g.zero
    ensures Ready(w, q, k, hs)
  {
    ReadySizes(w, q, k);
    ReadyHeads(w, q, k, hs);
  }

  lemma ReadySizes<P(!new)>(w: World<P>, q: Request<P>, k: Making)
    requires Setting(w) && Prepared(w, q, k)
    ensures var p := k.params;
            && |p.rsizes| == |k.chain.draws| == |k.secs| && Indexes(k.chain.draws, p.digits)
            && (forall i :: 0 <= i < |p.rsizes| ==> p.digits[i] < p.rsizes[i] == |k.chain.draws[i]|)
            && w.c.g.has(q.gen) && w.write(CommitmentOf(w, q)).1 >= 0 && w.write(q.gen).1 >= 0
  {
    ChainFacts(w, q, k);
    DigitsFit(k.params, q.value, q.minValue);
  }

  lemma ReadyHeads<P(!new)>(w: World<P>, q: Request<P>, k: Making, hs: seq<P>)
    requires Setting(w) && Prepared(w, q, k) && |k.secs| == |k.params.digits| > 0
    requires hs == Heads(w.c, q.gen, k.params.exp, k.secs, k.params.digits) && forall i :: 0 <= i < |hs| ==> hs[i] != w.c.g.zero
    ensures var draft := Stated(w, q, k, BorromeanSig([], []));
            && AllIn(w.c.g, hs) && ValidHeader(draft.exp, draft.mantissa, draft.minValue)
            && forall i :: 0 <= i < |draft.xs| ==> 0 <= draft.xs[i] < Pow(256, 32)
  {
    HeadsIn(w.c, q.gen, k.params.exp, k.secs, k.params.digits);
    DraftHeader(w, q, k);
    XsFit(w, hs[..|hs| - 1]);
  }

  lemma HeadsIn<P(!new)>(c: Schnorr<P>, gen: P, exp: int, secs: seq<int>, digits: seq<nat>)
    requires Laws(c) && c.g.has(gen) && |secs| == |digits|
    ensures AllIn(c.g, Heads(c, gen, exp, secs, digits))
  {
    forall i | 0 <= i < |secs| ensures c.g.has(HeadOf(c, gen, exp, secs, digits, i)) { }
  }

  lemma DraftHeader<P(!new)>(w: World<P>, q: Request<P>, k: Making)
    requires Setting(w) && Prepared(w, q, k) && |k.secs| == |k.params.digits| > 0
    ensures var draft := Stated(w, q, k, BorromeanSig([], []));
            w.c.g.has(q.gen) && ValidHeader(draft.exp, draft.mantissa, draft.minValue)
  {
  }

  lemma XsFit<P(!new)>(w: World<P>, hs: seq<P>)
    requires PointsWritten(w) && AllIn(w.c.g, hs) && forall i :: 0 <= i < |hs| ==> hs[i] != w.c.g.zero
    ensures forall i :: 0 <= i < |hs| ==> 0 <= StatedXs(w, hs)[i] < Pow(256, 32)
  {
  }

  method CloseOver<P(==, !new)>(w: World<P>, q: Request<P>, k: Making, hs: seq<P>) returns (r: Option<RangeProof>)
    requires Setting(w) && Prepared(w, q, k) && |k.secs| == |k.params.digits| > 0 && k.secs[|k.secs| - 1] != 0
    requires hs == Heads(w.c, q.gen, k.params.exp, k.secs, k.params.digits) && Ready(w, q, k, hs)
    ensures r.Some? <==> WalkSucceeds(w, q, k, hs)
    ensures r.Some? ==> Signed(w, q, k, r.value)
  {
    var p := k.params;
    var rings := PubExpand(w.c, hs, q.gen, p.exp, p.rsizes);
    var draft := Stated(w, q, k, BorromeanSig([], []));
    var h := OverMessage(w, DraftMessage(w, q, k));
    var ks := SpentDraws(k.chain.draws, p.digits);
    var closed := CloseRings(w.c, h, 1, rings, ks, k.secs, p.digits, k.chain.draws, k.chain.draws);
    if closed.None? { return None; }
    var sig := BorromeanSig(closed.value.0, closed.value.1);
    ScalarsNonzero(w, q, k, h, rings, sig);
    if !NoZeroScalar(closed.value.1) { return None; }
    Assembled(w, q, k, rings, hs, draft, sig);
    return Some(Stated(w, q, k, sig));
  }

  /** No draw is zero, so only a signer's own scalar can be. */
  lemma ScalarsNonzero<P(!new)>(w: World<P>, q: Request<P>, k: Making, h: RingHash<P>, rings: seq<seq<P>>, sig: BorromeanSig)
    requires Setting(w) && Prepared(w, q, k) && |rings| == |k.params.rsizes| && Indexes(k.chain.draws, k.params.digits)
    requires var ks := SpentDraws(k.chain.draws, k.params.digits);
             && ClosedBy(w.c, h, 1, rings, sig.s, sig.e0, k.params.digits, ks, k.secs, k.chain.draws, k.chain.draws)
             && Finishes(w.c, h, 1, rings, k.params.digits, ks, k.chain.draws, k.chain.draws) && |k.secs| == |rings|
    ensures NoZeroScalar(sig.s) <==>
      SignersNonzero(w.c, h, 1, rings, k.params.digits, SpentDraws(k.chain.draws, k.params.digits), k.secs, k.chain.draws, k.chain.draws)
  {
    ChainFacts(w, q, k);
    ZerosAtSigners(w.c, h, 1, rings, sig.s, sig.e0, k.params.digits, SpentDraws(k.chain.draws, k.params.digits), k.secs, k.chain.draws, k.chain.draws);
    assert NoZeroScalar(sig.s) <==> forall i :: 0 <= i < |sig.s| ==> NoneZero(sig.s[i]);
  }

  /** A request has one proof. */
  lemma SignedOnce<P(!new)>(w: World<P>, q: Request<P>, k: Making, proof: RangeProof, k': Making, proof': RangeProof)
    requires Setting(w) && Signed(w, q, k, proof) && Signed(w, q, k', proof')
    ensures k' == k && proof' == proof
  {
    PreparedOnce(w, q, k, k');
    var p := k.params;
    var h := OverMessage(w, RingMessage(w, CommitmentOf(w, q), proof, q.gen, q.extra));
    var rings := ExpandedRings(w.c, Heads(w.c, q.gen, p.exp, k.secs, p.digits), q.gen, p.exp, p.rsizes);
    assert proof' == proof.(sig := proof'.sig);
    MessageOfHeader(w, q, proof, proof'.sig);
    ClosedDetermined(w.c, h, 1, rings, proof.sig.s, proof.sig.e0, proof'.sig.s, proof'.sig.e0,
      p.digits, SpentDraws(k.chain.draws, p.digits), k.secs, k.chain.draws, k.chain.draws);
  }

  /** The header of a signed proof is that of its parameters, a floor of zero being left out, and every ring but the last is stated. */
  lemma SignedHeader<P(!new)>(w: World<P>, q: Request<P>, k: Making, proof: RangeProof)
    requires Setting(w) && Signed(w, q, k, proof)
    ensures var p := k.params;
            && proof.exp == p.exp && proof.mantissa == p.mantissa
            && proof.minValue == (if p.minValue == 0 then None else Some(p.minValue))
            && |proof.signs| == |proof.xs| == |p.rsizes| - 1
            && forall i :: 0 <= i < |proof.xs| ==>
                 (proof.signs[i], proof.xs[i]) == w.write(Commit(w.c, k.secs[i], p.digits[i] * Weight(p.exp, i), q.gen))
  {
    StatedHeader(w, q, k, proof.sig);
  }

  lemma StatedHeader<P(!new)>(w: World<P>, q: Request<P>, k: Making, sig: BorromeanSig)
    requires |k.secs| == |k.params.digits| > 0
    ensures var p, proof := k.params, Stated(w, q, k, sig);
            && proof.exp == p.exp && proof.mantissa == p.mantissa
            && proof.minValue == (if p.minValue == 0 then None else Some(p.minValue))
            && |proof.signs| == |proof.xs| == |k.secs| - 1
            && forall i :: 0 <= i < |proof.xs| ==>
                 (proof.signs[i], proof.xs[i]) == w.write(Commit(w.c, k.secs[i], p.digits[i] * Weight(p.exp, i), q.gen))
  {
    var p := k.params;
    var hs := Heads(w.c, q.gen, p.exp, k.secs, p.digits);
    var proof := Stated(w, q, k, sig);
    forall i | 0 <= i < |proof.xs|
      ensures (proof.signs[i], proof.xs[i]) == w.write(Commit(w.c, k.secs[i], p.digits[i] * Weight(p.exp, i), q.gen))
    {
      assert hs[..|hs| - 1][i] == hs[i] == HeadOf(w.c, q.gen, p.exp, k.secs, p.digits, i);
    }
  }

  /** What is signed comes from a preparation that succeeds. */
  lemma SignedSucceeds<P(!new)>(w: World<P>, q: Request<P>, k: Making, proof: RangeProof)
    requires Setting(w) && Signed(w, q, k, proof)
    ensures Prepared(w, q, k) && Succeeds(w, q, k)
  {
    var p := k.params;
    var hs := Heads(w.c, q.gen, p.exp, k.secs, p.digits);
    assert forall i :: 0 <= i < |hs| ==> hs[i] == HeadOf(w.c, q.gen, p.exp, k.secs, p.digits, i);
    ReadyToClose(w, q, k, hs);
    WalkOfSigned(w, q, k, proof, hs);
  }

  lemma WalkOfSigned<P(!new)>(w: World<P>, q: Request<P>, k: Making, proof: RangeProof, hs: seq<P>)
    requires Setting(w) && Signed(w, q, k, proof) && hs == Heads(w.c, q.gen, k.params.exp, k.secs, k.params.digits) && Ready(w, q, k, hs)
    ensures WalkSucceeds(w, q, k, hs)
  {
    var p := k.params;
    var h := OverMessage(w, DraftMessage(w, q, k));
    var rings := ExpandedRings(w.c, hs, q.gen, p.exp, p.rsizes);
    var draft := Stated(w, q, k, BorromeanSig([], []));
    assert proof == draft.(sig := proof.sig);
    MessageOfHeader(w, q, draft, proof.sig);
    ClosedDetermined(w.c, h, 1, rings, proof.sig.s, proof.sig.e0, proof.sig.s, proof.sig.e0,
      p.digits, SpentDraws(k.chain.draws, p.digits), k.secs, k.chain.draws, k.chain.draws);
    ScalarsNonzero(w, q, k, h, rings, proof.sig);
  }

  lemma SignableIff<P(!new)>(w: World<P>, q: Request<P>, k: Making)
    requires Setting(w) && Prepared(w, q, k)
    ensures Signable(w, q) <==> Succeeds(w, q, k)
  {
    if Signable(w, q) {
      var k' :| Prepared(w, q, k') && Succeeds(w, q, k');
      PreparedOnce(w, q, k, k');
    }
  }

  /** Where a request is signed at all, it is signed in one way; and where it is not signable, in none. */
  lemma SignedOnlySo<P(!new)>(w: World<P>, q: Request<P>, k: Making, proof: RangeProof, r: Option<RangeProof>, making: Option<Making>)
    requires Setting(w) && Signed(w, q, k, proof) && (r.Some? <==> Signable(w, q))
    requires r.Some? ==> making.Some? && Signed(w, q, making.value, r.value)
    ensures r == Some(proof)
  {
    SignedSucceeds(w, q, k, proof);
    SignedOnce(w, q, k, proof, making.value, r.value);
  }

  /** sign: a proof exactly where the request is signable, and then the one proof made as described. */
  method Sign<P(==, !new)>(w: World<P>, q: Request<P>) returns (r: Option<RangeProof>, ghost making: Option<Making>)
    requires Setting(w) && w.c.g.has(q.gen)
    ensures r.Some? <==> Signable(w, q)
    ensures r.Some? ==> making.Some? && Signed(w, q, making.value, r.value)
    ensures forall k, proof :: Signed(w, q, k, proof) ==> r == Some(proof)
  {
    r, making := SignPrepared(w, q);
    forall k, proof | Signed(w, q, k, proof) ensures r == Some(proof) { SignedOnlySo(w, q, k, proof, r, making); }
  }

  method SignPrepared<P(==, !new)>(w: World<P>, q: Request<P>) returns (r: Option<RangeProof>, ghost making: Option<Making>)
    requires Setting(w) && w.c.g.has(q.gen)
    ensures r.Some? <==> Signable(w, q)
    ensures r.Some? ==> making.Some? && Signed(w, q, making.value, r.value)
  {
    var prepared := Prepare(w, q);
    if prepared.None? { return None, None; }
    SignableIff(w, q, prepared.value);
    r := SignRings(w, q, prepared.value);
    making := prepared;
  }
}
