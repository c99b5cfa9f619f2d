/** Rewinding a range proof: whoever holds the nonce reads back the blind, the value and the message. */
module RangeRewind {
  import opened Modular
  import opened Groups
  import opened SchnorrGroup
  import opened Octets
  import opened RingWalk
  import opened Borromean
  import opened RangeParams
  import opened RangeChain
  import opened RangeProofs
  import opened RangeMessage
  import opened RangeSigning

  // ---- the scalars of a ring's own key

  /** The scalar a ring was written under, its nonce being known. */
  function RecoverX(k: int, e: int, s: int, n: int): int
    requires n > 0
  {
    match Inverse(e, n)
    case Some(i) => (k - s) * i % n
    case None => 0
  }

  /** The nonce a ring was closed with, its scalar being known. */
  function RecoverK(x: int, e: int, s: int, n: int): int
    requires n > 0
  {
    (s + x * e) % n
  }

  /** Both undo k - e*x. */
  lemma RecoversK(k: int, e: int, x: int, s: int, n: int)
    requires n > 0 && 0 <= k < n && Cong(s, k - e * x, n)
    ensures RecoverK(x, e, s, n) == k
  {
    assert x * e == e * x;
    CongAdd(s, k - e * x, e * x, e * x, n);
    SmallMod(k, n);
  }

  lemma RecoversX(k: int, e: int, x: int, s: int, n: int)
    requires IsPrime(n) && 0 < e < n && 0 <= x < n && Cong(s, k - e * x, n)
    ensures RecoverX(k, e, s, n) == x
  {
    SmallMod(e, n);
    PrimeInverse(e, n);
    var i := Inverse(e, n).value;
    CongAdd(k, k, s, k - e * x, n);
    CongMul(k - s, e * x, i, i, n);
    CongScale(x, e * i, 1, n);
    assert (e * x) * i == x * (e * i);
    SmallMod(x, n);
  }

  // ---- the value encoding

  /** Bit 7 of the first octet, and eight octets three times. */
  function EncodedValue(b: Bytes): Option<nat>
    requires |b| == 32
  {
    if b[0] >= 128 && b[8..16] == b[16..24] == b[24..32] then Some(Num(b[24..32])) else None
  }

  lemma EncodingRead(v: nat)
    requires v <= U64
    ensures EncodedValue(Encoding(v)) == Some(v)
  {
    var b, t := Encoding(v), ToBytes(v, 8);
    assert b[8..16] == t && b[16..24] == t && b[24..32] == t;
    assert Pow(256, 8) == U64 + 1 by {
      PowAdd(256, 4, 4);
      PowAdd(256, 2, 2);
      PowTwo(256);
    }
    NumToBytes(v, 8);
  }

  predicate Naturals(xs: seq<int>) { forall i :: 0 <= i < |xs| ==> xs[i] >= 0 }

  /** Where the last ring carries the value, and the value: its last key is asked first. */
  function ValueEncoding(written: seq<int>, drawn: seq<int>): (r: Option<(nat, nat)>)
    requires |written| == |drawn| >= 2 && Naturals(written) && Naturals(drawn)
    ensures r.Some? ==> r.value.0 == |written| - 1 || r.value.0 == |written| - 2
  {
    var k := |written| - 1;
    match EncodedValue(Ch32Xor(written[k], drawn[k]))
    case Some(v) => Some((k, v))
    case None =>
      match EncodedValue(Ch32Xor(written[k - 1], drawn[k - 1]))
      case Some(v) => Some((k - 1, v))
      case None => None
  }

  // ---- the message

  /** A ring's key, read against its draw: the nonce at the digit, the stated scalar elsewhere. */
  function KeyOctets(n: int, factor: int, es: seq<int>, ss: seq<int>, raws: seq<int>, digit: nat, j: nat): (b: Bytes)
    requires n > 0 && j < |es| == |ss| == |raws| && Naturals(ss) && Naturals(raws)
    ensures |b| == 32
  {
    var x := if digit == j then RecoverK(factor, es[j], ss[j], n) else ss[j];
    Ch32Xor(x, raws[j])
  }

  /** The octets of the first j keys of a ring, those at skipped keys left out. */
  function RingOctets(n: int, factor: int, es: seq<int>, ss: seq<int>, raws: seq<int>, digit: nat, skips: set<nat>, j: nat): Bytes
    requires n > 0 && j <= |es| == |ss| == |raws| && Naturals(ss) && Naturals(raws)
  {
    if j == 0 then [] else
      RingOctets(n, factor, es, ss, raws, digit, skips, j - 1)
        + (if j - 1 in skips then [] else KeyOctets(n, factor, es, ss, raws, digit, j - 1))
  }

  predicate InShape(ev: seq<seq<int>>, s: seq<seq<int>>, raw: NonceChain) {
    && |ev| == |s| == |raw.draws| == |raw.factors| > 0
    && forall i :: 0 <= i < |s| ==> |ev[i]| == |s[i]| == |raw.draws[i]| > 0 && Naturals(s[i]) && Naturals(raw.draws[i])
  }

  /** The octets of the first i rings, none of them the last. */
  function EarlierOctets(n: int, ev: seq<seq<int>>, s: seq<seq<int>>, raw: NonceChain, v: nat, i: nat): Bytes
    requires n > 0 && InShape(ev, s, raw) && i <= |s|
  {
    if i == 0 then [] else
      EarlierOctets(n, ev, s, raw, v, i - 1)
        + RingOctets(n, raw.factors[i - 1], ev[i - 1], s[i - 1], raw.draws[i - 1], Digit(v, i - 1), {}, |s[i - 1]|)
  }

  datatype Rewound = Rewound(blind: int, value: int, message: Bytes)

  /** The shapes a rewind reads: as many challenges and draws as scalars, and a last ring of two keys at least. */
  predicate Readable(n: int, p: RangeProof, ev: seq<seq<int>>, raw: NonceChain) {
    && n > 0 && InShape(ev, p.sig.s, raw) && p.mantissa >= 0 && |p.sig.s| == |Rsizes(p.mantissa)|
    && (p.mantissa > 0 ==> |p.sig.s[|p.sig.s| - 1]| >= 2)
  }

  /** What the challenges and the raw draws answer, before the commitment is opened. */
  function Read(n: int, p: RangeProof, ev: seq<seq<int>>, raw: NonceChain): Option<Rewound>
    requires Readable(n, p, ev, raw)
  {
    var s, last := p.sig.s, |p.sig.s| - 1;
    if p.mantissa == 0 then
      Some(Rewound(RecoverX(raw.draws[0][0], ev[0][0], s[0][0], n), FloorOf(p.minValue), []))
    else
      match ValueEncoding(s[last], raw.draws[last])
      case None => None
      case Some(found) =>
        var skip1, v := found.0, found.1;
        var skip2 := Digit(v, last);
        if skip1 == skip2 || skip2 >= |s[last]| then None else
          var blind := (RecoverX(raw.draws[last][skip2], ev[last][skip2], s[last][skip2], n) - raw.factors[last]) % n;
          Some(Rewound(blind, v * Scale(p.exp) + FloorOf(p.minValue),
            EarlierOctets(n, ev, s, raw, v, last)
              + RingOctets(n, raw.factors[last], ev[last], s[last], raw.draws[last], skip2, {skip1, skip2}, |s[last]|)))
  }

  /** Refused where what is read does not open the commitment. */
  function Opened<P(==, !new)>(w: World<P>, commitment: P, gen: P, r: Option<Rewound>): Option<Rewound> {
    match r
    case None => None
    case Some(b) => if Commit(w.c, b.blind, b.value, gen) == commitment then r else None
  }

  function SeedFor<P(!new)>(w: World<P>, commitment: P, p: RangeProof, nonce: Bytes, gen: P): Bytes
    requires ValidHeader(p.exp, p.mantissa, p.minValue) && w.write(commitment).1 >= 0 && w.write(gen).1 >= 0
  {
    nonce + HashedPrefix(w, commitment, gen, p.exp, p.mantissa, p.minValue)
  }

  /** The seed a rewinder derives: the nonce it holds, then the commitment, the generator and the proof's own header. */
  lemma SeedForStates<P(!new)>(w: World<P>, commitment: P, p: RangeProof, nonce: Bytes, gen: P)
    requires Stateable(w, commitment, gen, p.exp, p.mantissa, p.minValue) && |nonce| == 32
    ensures SeedStates(w, SeedFor(w, commitment, p, nonce, gen), nonce, commitment, gen, p.exp, p.mantissa, p.minValue)
  {
    SeedOctetsState(w, nonce, commitment, gen, p.exp, p.mantissa, p.minValue);
  }

  /** The raw chain of a proof: its seed's, with nothing folded into the draws. */
  ghost predicate RawChain<P(!new)>(w: World<P>, commitment: P, p: RangeProof, nonce: Bytes, gen: P, raw: NonceChain)
    requires Setting(w) && Writable(w, commitment, gen) && ValidProof(p, w.c.n)
  {
    IsChain(w.c.n, w.blocks(SeedFor(w, commitment, p, nonce, gen)), Rsizes(p.mantissa), ZeroBytes(128 * |Rsizes(p.mantissa)|), raw)
  }

  lemma ShapesMatch<P(!new)>(w: World<P>, commitment: P, p: RangeProof, nonce: Bytes, gen: P, extra: Bytes, ev: seq<seq<int>>, raw: NonceChain)
    requires Setting(w) && Holds(w, commitment, p, gen, extra) && Met(w, commitment, p, gen, extra, ev)
    requires RawChain(w, commitment, p, nonce, gen, raw)
    ensures Readable(w.c.n, p, ev, raw)
  {
    var rsizes, blocks := Rsizes(p.mantissa), w.blocks(SeedFor(w, commitment, p, nonce, gen));
    var l := LayoutOf(w.c.n, blocks, rsizes, |rsizes|).value;
    forall i | 0 <= i < |rsizes| ensures |ev[i]| == |p.sig.s[i]| == |raw.draws[i]| > 0 && Naturals(p.sig.s[i]) && Naturals(raw.draws[i]) {
      assert RingDrawn(w.c.n, blocks, rsizes[i], l.starts[i], ZeroBytes(128 * |rsizes|), i, raw.draws[i]);
    }
    if p.mantissa > 0 { RsizesAt(p.mantissa, |rsizes| - 1); }
  }

  /** rewind: None for every error. */
  method Rewind<P(==, !new)>(w: World<P>, commitment: P, p: RangeProof, nonce: Bytes, gen: P, extra: Bytes)
    returns (r: Option<Rewound>, ghost ev: Option<seq<seq<int>>>, ghost raw: Option<NonceChain>)
    requires Setting(w) && w.c.g.has(commitment) && w.c.g.has(gen)
    ensures r.Some? ==> Holds(w, commitment, p, gen, extra) && Commit(w.c, r.value.blind, r.value.value, gen) == commitment
    ensures ev.Some? <==> |nonce| == 32 && Holds(w, commitment, p, gen, extra)
    ensures ev.Some? ==> Met(w, commitment, p, gen, extra, ev.value)
    ensures ev.Some? && raw.Some? ==> RawChain(w, commitment, p, nonce, gen, raw.value) && Readable(w.c.n, p, ev.value, raw.value)
    ensures ev.Some? && raw.None? ==> forall chain :: !RawChain(w, commitment, p, nonce, gen, chain)
    ensures ev.None? || raw.None? ==> r.None?
    ensures ev.Some? && raw.Some? ==> r == Opened(w, commitment, gen, Read(w.c.n, p, ev.value, raw.value))
  {
    ev, raw := None, None;
    if |nonce| != 32 { return None, ev, raw; }
    var met := VerifyRings(w, commitment, p, gen, extra);
    if met.None? { return None, ev, raw; }
    ev := met;
    var rsizes := Rsizes(p.mantissa);
    var chain := Genrand(w.c.n, w.blocks(SeedFor(w, commitment, p, nonce, gen)), rsizes, ZeroBytes(128 * |rsizes|));
    if chain.None? { return None, ev, raw; }
    raw := chain;
    ShapesMatch(w, commitment, p, nonce, gen, extra, met.value, chain.value);
    r := Opened(w, commitment, gen, Read(w.c.n, p, met.value, chain.value));
  }

  // ---- rewinding what was signed

  /** A signed proof, the challenges its verification met, and the raw chain of its nonce. */
  ghost predicate Rewinding<P(!new)>(w: World<P>, q: Request<P>, k: Making, proof: RangeProof, ev: seq<seq<int>>, raw: NonceChain)
    requires Setting(w)
  {
    && Readable(w.c.n, proof, ev, raw)
    && Signed(w, q, k, proof) && Holds(w, CommitmentOf(w, q), proof, q.gen, q.extra)
    && Met(w, CommitmentOf(w, q), proof, q.gen, q.extra, ev)
    && RawChain(w, CommitmentOf(w, q), proof, q.nonce, q.gen, raw)
  }

  lemma ChallengeInRange<P(!new)>(w: World<P>, m: Bytes, i: nat, ring: seq<P>, s: seq<int>, e0: Bytes, j: nat)
    requires j < |ring| == |s|
    ensures var e := ChallengeAt(w.c, OverMessage(w, m), 1, i, ring, s, e0, j);
            e.Some? ==> 0 < e.value < w.c.n
  {
  }

  /** A ring of the proof as its rewinder sees it. */
  ghost predicate RingSeen(n: int, digit: nat, sec: int, es: seq<int>, ss: seq<int>, draws: seq<int>)
    requires n > 0
  {
    && digit < |es| == |ss| == |draws|
    && (forall j :: 0 <= j < |ss| && j != digit ==> ss[j] == draws[j])
    && Cong(ss[digit], draws[digit] - es[digit] * sec, n) && 0 < es[digit] < n
    && forall j :: 0 <= j < |draws| ==> 0 < draws[j] < n
  }

  lemma RingIsSeen<P(!new)>(w: World<P>, q: Request<P>, k: Making, proof: RangeProof, ev: seq<seq<int>>, raw: NonceChain, i: nat)
    requires Setting(w) && Rewinding(w, q, k, proof, ev, raw) && i < |ev|
    ensures |k.params.digits| == |k.secs| == |k.chain.draws| == |ev|
    ensures RingSeen(w.c.n, k.params.digits[i], k.secs[i], ev[i], proof.sig.s[i], k.chain.draws[i])
  {
    var p := k.params;
    ChainFacts(w, q, k);
    RingsRebuilt(w, q, k, proof);
    var rings := RingsOf(w, CommitmentOf(w, q), proof, q.gen).value;
    var m := RingMessage(w, CommitmentOf(w, q), proof, q.gen, q.extra);
    RingOfWalk(w, m, rings, proof.sig.s, proof.sig.e0, p.digits, SpentDraws(k.chain.draws, p.digits), k.secs, k.chain.draws, ev, i);
  }

  /** The signer's equation at the challenge that was met. */
  lemma RingOfWalk<P(!new)>(w: World<P>, m: Bytes, rings: seq<seq<P>>, s: seq<seq<int>>, e0: Bytes, digits: seq<nat>, ks: seq<int>, secs: seq<int>,
                            draws: seq<seq<int>>, ev: seq<seq<int>>, i: nat)
    requires w.c.n > 0 && i < |rings| == |ev| && ClosedBy(w.c, OverMessage(w, m), 1, rings, s, e0, digits, ks, secs, draws, draws)
    requires Indexes(draws, digits) && ks == SpentDraws(draws, digits) && |ev[i]| == |rings[i]|
    requires forall j :: 0 <= j < |rings[i]| ==> ChallengeAt(w.c, OverMessage(w, m), 1, i, rings[i], s[i], e0, j) == Some(ev[i][j])
    requires forall j :: 0 <= j < |draws[i]| ==> 0 < draws[i][j] < w.c.n
    ensures RingSeen(w.c.n, digits[i], secs[i], ev[i], s[i], draws[i])
  {
    var d := digits[i];
    assert RingSigned(w.c, OverMessage(w, m), 1, i, rings[i], s[i], e0, d, ks[i], secs[i], draws[i], draws[i]);
    ChallengeInRange(w, m, i, rings[i], s[i], e0, d);
    ModCong(ks[i] - 1 * ev[i][d] * secs[i], w.c.n);
  }

  /** What a rewinder's data and the signer's have to do with each other, ring by ring. */
  datatype View = View(
    n: int, mantissa: nat, v: nat, prep: Bytes, secs: seq<int>, ev: seq<seq<int>>, ss: seq<seq<int>>, draws: seq<seq<int>>, raw: NonceChain)

  predicate ViewShape(x: View) {
    && x.n > 0 && InShape(x.ev, x.ss, x.raw) && |x.ss| == |x.draws| == |x.secs| == |Rsizes(x.mantissa)|
    && |x.prep| == 128 * |x.ss|
    && forall i :: 0 <= i < |x.ss| ==> |x.ss[i]| == |x.draws[i]| == Rsizes(x.mantissa)[i]
  }

  ghost predicate RingView(x: View, i: nat)
    requires ViewShape(x) && i < |x.ss|
  {
    && RingSeen(x.n, Digit(x.v, i), x.secs[i], x.ev[i], x.ss[i], x.draws[i])
    && (i < |x.ss| - 1 ==> x.secs[i] == x.raw.factors[i])
    && forall j :: 0 <= j < |x.ss[i]| ==>
         Ch32Xor(x.draws[i][j], x.raw.draws[i][j]) == PrepBlock(x.prep, i, j)
         && (PrepBlock(x.prep, i, j) == ZeroBytes(32) ==> x.draws[i][j] == x.raw.draws[i][j])
  }

  ghost predicate Views(x: View) {
    ViewShape(x) && forall i :: 0 <= i < |x.ss| ==> RingView(x, i)
  }

  function ViewOf(w: int, k: Making, proof: RangeProof, ev: seq<seq<int>>, raw: NonceChain): View {
    View(w, k.params.mantissa, k.params.v, k.prep, k.secs, ev, proof.sig.s, k.chain.draws, raw)
  }

  /** The raw chain of the proof is the chain of the signature with nothing folded in. */
  lemma RawDraw<P(!new)>(w: World<P>, q: Request<P>, k: Making, proof: RangeProof, raw: NonceChain, i: nat, j: nat)
    requires Setting(w) && Signed(w, q, k, proof) && RawChain(w, CommitmentOf(w, q), proof, q.nonce, q.gen, raw)
    requires i < |k.params.rsizes| && j < k.params.rsizes[i]
    ensures |k.chain.draws| == |raw.draws| == |k.params.rsizes| && k.params.rsizes[i] <= 4 && |k.prep| == 128 * |k.params.rsizes|
    ensures |k.chain.draws[i]| == |raw.draws[i]| == k.params.rsizes[i]
    ensures k.chain.factors == raw.factors && raw.draws[i][j] > 0 && k.chain.draws[i][j] > 0
    ensures Ch32Xor(k.chain.draws[i][j], raw.draws[i][j]) == PrepBlock(k.prep, i, j)
    ensures PrepBlock(k.prep, i, j) == ZeroBytes(32) ==> k.chain.draws[i][j] == raw.draws[i][j]
  {
    RawOfSigned(w, q, k, proof, raw);
    SameSeed(w.c.n, w.blocks(SeedOf(w, q, k.params)), k.params.rsizes, k.prep, k.chain, raw, i, j);
  }

  /** The proof's header is the signer's, so both chains start from one seed. */
  lemma RawOfSigned<P(!new)>(w: World<P>, q: Request<P>, k: Making, proof: RangeProof, raw: NonceChain)
    requires Setting(w) && Signed(w, q, k, proof) && RawChain(w, CommitmentOf(w, q), proof, q.nonce, q.gen, raw)
    ensures var p := k.params;
            && Rings(p.rsizes, k.prep) && Rings(p.rsizes, ZeroBytes(|k.prep|))
            && IsChain(w.c.n, w.blocks(SeedOf(w, q, p)), p.rsizes, ZeroBytes(|k.prep|), raw)
            && IsChain(w.c.n, w.blocks(SeedOf(w, q, p)), p.rsizes, k.prep, k.chain)
  {
    assert SeedFor(w, CommitmentOf(w, q), proof, q.nonce, q.gen) == SeedOf(w, q, k.params);
  }

  lemma RingViewed<P(!new)>(w: World<P>, q: Request<P>, k: Making, proof: RangeProof, ev: seq<seq<int>>, raw: NonceChain, i: nat)
    requires Setting(w) && Rewinding(w, q, k, proof, ev, raw) && i < |ev| && ViewShape(ViewOf(w.c.n, k, proof, ev, raw))
    ensures RingView(ViewOf(w.c.n, k, proof, ev, raw), i)
  {
    RingIsSeen(w, q, k, proof, ev, raw, i);
    forall j | 0 <= j < |proof.sig.s[i]|
      ensures Ch32Xor(k.chain.draws[i][j], raw.draws[i][j]) == PrepBlock(k.prep, i, j)
      ensures PrepBlock(k.prep, i, j) == ZeroBytes(32) ==> k.chain.draws[i][j] == raw.draws[i][j]
      ensures k.chain.factors == raw.factors
    {
      RawDraw(w, q, k, proof, raw, i, j);
    }
  }

  lemma ViewShaped<P(!new)>(w: World<P>, q: Request<P>, k: Making, proof: RangeProof, ev: seq<seq<int>>, raw: NonceChain)
    requires Setting(w) && Prepared(w, q, k) && ValidProof(proof, w.c.n) && proof.mantissa == k.params.mantissa
    requires InShape(ev, proof.sig.s, raw)
    ensures ViewShape(ViewOf(w.c.n, k, proof, ev, raw))
  {
    ChainFacts(w, q, k);
  }

  lemma Viewed<P(!new)>(w: World<P>, q: Request<P>, k: Making, proof: RangeProof, ev: seq<seq<int>>, raw: NonceChain)
    requires Setting(w) && Rewinding(w, q, k, proof, ev, raw)
    ensures Views(ViewOf(w.c.n, k, proof, ev, raw))
  {
    ViewShaped(w, q, k, proof, ev, raw);
    forall i | 0 <= i < |ev| ensures RingView(ViewOf(w.c.n, k, proof, ev, raw), i) { RingViewed(w, q, k, proof, ev, raw, i); }
  }

  // ---- the message comes back

  /** A key of a ring before the last, or a forged key of the last, reads as its block. */
  lemma ViewKey(x: View, i: nat, j: nat)
    requires Views(x) && i < |x.ss| && j < |x.ss[i]| && (i < |x.ss| - 1 || j != Digit(x.v, i))
    ensures KeyOctets(x.n, x.raw.factors[i], x.ev[i], x.ss[i], x.raw.draws[i], Digit(x.v, i), j) == PrepBlock(x.prep, i, j)
  {
    assert RingView(x, i);
    if j == Digit(x.v, i) { RecoversK(x.draws[i][j], x.ev[i][j], x.raw.factors[i], x.ss[i][j], x.n); }
  }

  /** A ring before the last reads as the four blocks folded into it. */
  lemma {:induction false} EarlierRing(x: View, i: nat, j: nat)
    requires Views(x) && i < |x.ss| - 1 && j <= |x.ss[i]|
    ensures RingOctets(x.n, x.raw.factors[i], x.ev[i], x.ss[i], x.raw.draws[i], Digit(x.v, i), {}, j) == x.prep[128 * i..128 * i + 32 * j]
    decreases j
  {
    if j > 0 {
      EarlierRing(x, i, j - 1);
      OneMoreKey(x.n, x.raw.factors[i], x.ev[i], x.ss[i], x.raw.draws[i], Digit(x.v, i), j);
      ViewKey(x, i, j - 1);
      NextBlock(x.prep, i, j - 1);
    }
  }

  lemma OneMoreKey(n: int, factor: int, es: seq<int>, ss: seq<int>, raws: seq<int>, digit: nat, j: nat)
    requires n > 0 && 0 < j <= |es| == |ss| == |raws| && Naturals(ss) && Naturals(raws)
    ensures RingOctets(n, factor, es, ss, raws, digit, {}, j)
         == RingOctets(n, factor, es, ss, raws, digit, {}, j - 1) + KeyOctets(n, factor, es, ss, raws, digit, j - 1)
  {
  }

  lemma NextBlock(prep: Bytes, i: nat, j: nat)
    requires j < 4 && 128 * i + 128 <= |prep|
    ensures prep[128 * i..128 * i + 32 * (j + 1)] == prep[128 * i..128 * i + 32 * j] + PrepBlock(prep, i, j)
  {
  }

  lemma {:induction false} EarlierRings(x: View, i: nat)
    requires Views(x) && i < |x.ss| && x.mantissa > 0
    ensures EarlierOctets(x.n, x.ev, x.ss, x.raw, x.v, i) == x.prep[..128 * i]
    decreases i
  {
    if i > 0 {
      EarlierRings(x, i - 1);
      EarlierStep(x, i - 1);
    }
  }

  lemma EarlierStep(x: View, i: nat)
    requires Views(x) && i < |x.ss| - 1 && x.mantissa > 0
    requires EarlierOctets(x.n, x.ev, x.ss, x.raw, x.v, i) == x.prep[..128 * i]
    ensures EarlierOctets(x.n, x.ev, x.ss, x.raw, x.v, i + 1) == x.prep[..128 * (i + 1)]
  {
    WholeRing(x, i);
    PrefixGrows(x.prep, i);
  }

  lemma PrefixGrows(prep: Bytes, i: nat)
    requires 128 * (i + 1) <= |prep|
    ensures prep[..128 * i] + prep[128 * i..128 * i + 128] == prep[..128 * (i + 1)]
  {
  }

  lemma WholeRing(x: View, i: nat)
    requires Views(x) && i < |x.ss| - 1 && x.mantissa > 0
    ensures RingOctets(x.n, x.raw.factors[i], x.ev[i], x.ss[i], x.raw.draws[i], Digit(x.v, i), {}, |x.ss[i]|) == x.prep[128 * i..128 * i + 128]
  {
    RsizesAt(x.mantissa, i);
    EarlierRing(x, i, 4);
  }

  /** How many of the first j keys are not skipped. */
  function Kept(skips: set<nat>, j: nat): nat {
    if j == 0 then 0 else Kept(skips, j - 1) + (if j - 1 in skips then 0 else 1)
  }

  /** The last ring's other keys carry zeros. */
  lemma {:induction false} LastRing(x: View, key: nat, j: nat)
    requires Views(x) && j <= |x.ss[|x.ss| - 1]| && ZeroBut(x.prep, |x.ss| - 1, key)
    ensures var i := |x.ss| - 1;
            RingOctets(x.n, x.raw.factors[i], x.ev[i], x.ss[i], x.raw.draws[i], Digit(x.v, i), {key, Digit(x.v, i)}, j)
            == ZeroBytes(32 * Kept({key, Digit(x.v, i)}, j))
    decreases j
  {
    var i := |x.ss| - 1;
    if j > 0 {
      LastRing(x, key, j - 1);
      if j - 1 !in {key, Digit(x.v, i)} { ViewKey(x, i, j - 1); }
    }
  }

  lemma KeptOfTwo(a: nat, b: nat, size: nat)
    requires a != b && a < size && b < size && size <= 4
    ensures Kept({a, b}, size) == size - 2
  {
    assert Kept({a, b}, 1) == if 0 in {a, b} then 0 else 1;
    assert size >= 2 ==> Kept({a, b}, 2) == Kept({a, b}, 1) + (if 1 in {a, b} then 0 else 1);
    assert size >= 3 ==> Kept({a, b}, 3) == Kept({a, b}, 2) + (if 2 in {a, b} then 0 else 1);
    assert size >= 4 ==> Kept({a, b}, 4) == Kept({a, b}, 3) + (if 3 in {a, b} then 0 else 1);
  }

  // ---- the value and the blinding factor come back

  /** The digit takes the last key, and that key's xor reads as a value encoding all the same. */
  predicate Mimics(x: View)
    requires ViewShape(x)
  {
    var i := |x.ss| - 1;
    var key := |x.ss[i]| - 1;
    x.mantissa > 0 && Digit(x.v, i) == key && EncodedValue(Ch32Xor(x.ss[i][key], x.raw.draws[i][key])).Some?
  }

  /** What the signer folded into the last ring. */
  ghost predicate LastFolded(x: View)
    requires ViewShape(x)
  {
    var i := |x.ss| - 1;
    && x.mantissa > 0 && |x.ss[i]| >= 2 && x.v <= U64 && Digit(x.v, i) < |x.ss[i]|
    && ZeroBut(x.prep, i, EncodingKey(|x.ss[i]|, Digit(x.v, i)))
    && PrepBlock(x.prep, i, EncodingKey(|x.ss[i]|, Digit(x.v, i))) == Encoding(x.v)
  }

  /** The value is found where it was written, unless the last key mimics an encoding. */
  lemma FindsValue(x: View)
    requires Views(x) && LastFolded(x)
    ensures var i := |x.ss| - 1;
            !Mimics(x) ==> ValueEncoding(x.ss[i], x.raw.draws[i]) == Some((EncodingKey(|x.ss[i]|, Digit(x.v, i)), x.v))
  {
    var i := |x.ss| - 1;
    var d, key := Digit(x.v, i), EncodingKey(|x.ss[i]|, Digit(x.v, i));
    assert RingView(x, i);
    EncodingRead(x.v);
    assert x.ss[i][key] == x.draws[i][key];
    assert Ch32Xor(x.ss[i][key], x.raw.draws[i][key]) == Encoding(x.v);
  }

  /** A mimicking key is taken for the value, and never answers the value that was signed. */
  lemma MimicMisreads(x: View, p: RangeProof, ev: seq<seq<int>>)
    requires Views(x) && LastFolded(x) && Mimics(x) && p.sig.s == x.ss && p.mantissa == x.mantissa && ev == x.ev
    ensures var r := Read(x.n, p, ev, x.raw);
            r.Some? ==> r.value.value != x.v * Scale(p.exp) + FloorOf(p.minValue)
  {
    var found := MimicFound(x);
    ReadValue(x.n, p, ev, x.raw, |x.ss[|x.ss| - 1]| - 1, found);
    if found != x.v { ScaledApart(found, x.v, Scale(p.exp)); }
  }

  /** A value that is read is the one found, and only where its digit is another key. */
  lemma ReadValue(n: int, p: RangeProof, ev: seq<seq<int>>, raw: NonceChain, key: nat, found: nat)
    requires Readable(n, p, ev, raw) && p.mantissa > 0
    requires var i := |p.sig.s| - 1; ValueEncoding(p.sig.s[i], raw.draws[i]) == Some((key, found))
    ensures var r := Read(n, p, ev, raw);
            r.Some? ==> Digit(found, |p.sig.s| - 1) != key && r.value.value == found * Scale(p.exp) + FloorOf(p.minValue)
  {
  }

  lemma MimicFound(x: View) returns (found: nat)
    requires ViewShape(x) && LastFolded(x) && Mimics(x)
    ensures var i := |x.ss| - 1; ValueEncoding(x.ss[i], x.raw.draws[i]) == Some((|x.ss[i]| - 1, found))
  {
    var i := |x.ss| - 1;
    var key := |x.ss[i]| - 1;
    found := EncodedValue(Ch32Xor(x.ss[i][key], x.raw.draws[i][key])).value;
  }

  lemma ScaledApart(a: int, b: int, s: int)
    requires s > 0 && a != b
    ensures a * s != b * s
  {
    assert (a - b) * s != 0;
    assert (a - b) * s == a * s - b * s;
  }

  /** The last ring's secret, less the chain's factor, is the caller's blinding factor. */
  lemma BlindRead(x: View, blind: int)
    requires Views(x) && IsPrime(x.n) && LastFolded(x) && 0 <= blind < x.n
    requires x.secs[|x.ss| - 1] == (x.raw.factors[|x.ss| - 1] + blind) % x.n
    ensures var i, d := |x.ss| - 1, Digit(x.v, |x.ss| - 1);
            (RecoverX(x.raw.draws[i][d], x.ev[i][d], x.ss[i][d], x.n) - x.raw.factors[i]) % x.n == blind
  {
    var i := |x.ss| - 1;
    ModCong(x.raw.factors[i] + blind, x.n);
    SecretRead(x);
    FactorRemoved(x.raw.factors[i], blind, x.n);
  }

  /** The raw draw at the last ring's digit is the draw itself, so its scalar answers the ring's secret. */
  lemma SecretRead(x: View)
    requires Views(x) && IsPrime(x.n) && LastFolded(x) && 0 <= x.secs[|x.ss| - 1] < x.n
    ensures var i, d := |x.ss| - 1, Digit(x.v, |x.ss| - 1);
            RecoverX(x.raw.draws[i][d], x.ev[i][d], x.ss[i][d], x.n) == x.secs[i]
  {
    var i, d := |x.ss| - 1, Digit(x.v, |x.ss| - 1);
    assert RingView(x, i);
    assert PrepBlock(x.prep, i, d) == ZeroBytes(32);
    RecoversX(x.draws[i][d], x.ev[i][d], x.secs[i], x.ss[i][d], x.n);
  }

  lemma FactorRemoved(f: int, blind: int, n: int)
    requires n > 0 && 0 <= blind < n
    ensures ((f + blind) % n - f) % n == blind
  {
    ModCong(f + blind, n);
    CongAdd((f + blind) % n, f + blind, f, f, n);
    SmallMod(blind, n);
  }

  /** What exactly comes back where nothing mimics. */
  lemma ReadExactly(x: View, p: RangeProof, ev: seq<seq<int>>, blind: int)
    requires Views(x) && IsPrime(x.n) && LastFolded(x) && !Mimics(x) && 0 <= blind < x.n
    requires p.sig.s == x.ss && p.mantissa == x.mantissa && ev == x.ev
    requires x.secs[|x.ss| - 1] == (x.raw.factors[|x.ss| - 1] + blind) % x.n
    ensures var i := |x.ss| - 1;
            var message := x.prep[..128 * i] + ZeroBytes(32 * (|x.ss[i]| - 2));
            Read(x.n, p, ev, x.raw) == Some(Rewound(blind, x.v * Scale(p.exp) + FloorOf(p.minValue), message))
  {
    var i := |x.ss| - 1;
    var d, key := Digit(x.v, i), EncodingKey(|x.ss[i]|, Digit(x.v, i));
    FindsValue(x);
    BlindRead(x, blind);
    EarlierRings(x, i);
    RsizesAt(x.mantissa, i);
    LastRing(x, key, |x.ss[i]|);
    KeptOfTwo(key, d, |x.ss[i]|);
  }

  // ---- end to end

  /** The octets a recipient reads: every key but two of the last ring. */
  function ReadRoom(mantissa: nat): nat {
    if mantissa == 0 then 0 else
      var n := |Rsizes(mantissa)|;
      RsizesAt(mantissa, n - 1);
      128 * (n - 1) + 32 * (Rsizes(mantissa)[n - 1] - 2)
  }

  /** The message, and the zeros that fill what the proof has room for. */
  function Padded(message: Bytes, mantissa: nat): Bytes {
    var room := ReadRoom(mantissa);
    message + ZeroBytes(if room > |message| then room - |message| else 0)
  }

  /** The reader gets what is wanted, and only where no key mimics the encoding. */
  ghost predicate ReadsAs(x: View, p: RangeProof, ev: seq<seq<int>>, want: Rewound) {
    && ViewShape(x) && Readable(x.n, p, ev, x.raw)
    && var r := Read(x.n, p, ev, x.raw);
       (!Mimics(x) ==> r == Some(want)) && (Mimics(x) && r.Some? ==> r.value.value != want.value)
  }

  /** What the recipient is to read: the blind, the value, and the message with the zeros after it. */
  function Expected<P>(q: Request<P>, mantissa: nat): Rewound {
    Rewound(q.blind, q.value, Padded(q.message, mantissa))
  }

  /** The signer's side of a view: what was folded in, and the secret of the last ring. */
  ghost predicate Folded(x: View, blind: int, message: Bytes)
    requires ViewShape(x)
  {
    var i := |x.ss| - 1;
    && 0 < blind < x.n && x.secs[i] == (x.raw.factors[i] + blind) % x.n
    && (x.mantissa > 0 ==>
          LastFolded(x) && |message| <= 128 * i && x.prep[..128 * i] == message + ZeroBytes(128 * i - |message|))
    && (x.mantissa == 0 ==> message == [] && x.v == 0 && x.raw.factors[0] == 0 && PrepBlock(x.prep, 0, 0) == ZeroBytes(32))
  }

  lemma BufferFolded(p: Params, value: int, minValue: int, message: Bytes, x: View)
    requires Covers(p, value, minValue) && value <= U64 && p.minValue >= 0 && ViewShape(x) && x.mantissa == p.mantissa > 0 && x.v == p.v
    requires |p.digits| == |p.rsizes| > 0 && p.rsizes[|p.rsizes| - 1] <= 4
    requires Prep(p.rsizes, p.v, p.digits[|p.digits| - 1], message) == Some(x.prep)
    ensures var i := |x.ss| - 1;
            LastFolded(x) && |message| <= 128 * i && x.prep[..128 * i] == message + ZeroBytes(128 * i - |message|)
  {
    DigitsFit(p, value, minValue);
    ValueBound(p, value, minValue);
    PrepFolded(x, message);
  }

  /** The buffer that was filled for a view's own digits is folded into its last ring. */
  lemma PrepFolded(x: View, message: Bytes)
    requires ViewShape(x) && x.mantissa > 0 && x.v <= U64
    requires var rsizes := Rsizes(x.mantissa);
             var i := |rsizes| - 1;
             rsizes[i] <= 4 && Digit(x.v, i) < rsizes[i] && Prep(rsizes, x.v, Digit(x.v, i), message) == Some(x.prep)
    ensures var i := |x.ss| - 1;
            LastFolded(x) && |message| <= 128 * i && x.prep[..128 * i] == message + ZeroBytes(128 * i - |message|)
  {
    var i := |x.ss| - 1;
    RsizesAt(x.mantissa, i);
    PrepFilled(Rsizes(x.mantissa), i, x.v, Digit(x.v, i), message, x.prep);
  }

  lemma PrepFilled(rsizes: seq<nat>, i: nat, v: nat, digit: nat, message: Bytes, prep: Bytes)
    requires |rsizes| == i + 1 && 1 < rsizes[i] <= 4 && Prep(rsizes, v, digit, message) == Some(prep)
    ensures |message| <= 128 * i && prep[..128 * i] == message + ZeroBytes(128 * i - |message|)
    ensures ZeroBut(prep, i, EncodingKey(rsizes[i], digit)) && PrepBlock(prep, i, EncodingKey(rsizes[i], digit)) == Encoding(v)
  {
    PrepContents(rsizes, v, digit, message);
  }

  lemma PublicFolded(p: Params, value: int, minValue: int, message: Bytes, prep: Bytes)
    requires Covers(p, value, minValue) && p.mantissa == 0 && |p.digits| == |p.rsizes| > 0
    requires p.rsizes[|p.rsizes| - 1] <= 4 && Prep(p.rsizes, p.v, p.digits[|p.digits| - 1], message) == Some(prep)
    ensures message == [] && p.v == 0 && |prep| == 128 && PrepBlock(prep, 0, 0) == ZeroBytes(32)
  {
    assert Pow2(0) == 1;
    assert prep == ZeroBytes(128);
  }

  lemma ValueBound(p: Params, value: int, minValue: int)
    requires Covers(p, value, minValue) && value <= U64 && p.minValue >= 0
    ensures p.v <= U64
  {
    ProductMonotone(1, Scale(p.exp), p.v);
  }

  /** The raw factors are the signer's, so the last secret is the last factor and the blind. */
  lemma FactorsShared<P(!new)>(w: World<P>, q: Request<P>, k: Making, proof: RangeProof, raw: NonceChain)
    requires Setting(w) && Signed(w, q, k, proof) && RawChain(w, CommitmentOf(w, q), proof, q.nonce, q.gen, raw)
    ensures raw.factors == k.chain.factors && |raw.factors| > 0
    ensures |raw.factors| == 1 ==> raw.factors[0] == 0
  {
    RawOfSigned(w, q, k, proof, raw);
    SameFactors(w.c.n, w.blocks(SeedOf(w, q, k.params)), k.params.rsizes, k.prep, ZeroBytes(|k.prep|), k.chain, raw);
    if |raw.factors| == 1 { SingleFactor(w, q, k); }
  }

  lemma SameFactors(n: int, blocks: seq<Bytes>, rsizes: seq<nat>, prep: Bytes, prep': Bytes, a: NonceChain, b: NonceChain)
    requires n > 0 && Blocks32(blocks) && Rings(rsizes, prep) && Rings(rsizes, prep')
    requires IsChain(n, blocks, rsizes, prep, a) && IsChain(n, blocks, rsizes, prep', b)
    ensures a.factors == b.factors && |a.factors| == |rsizes|
  {
  }

  lemma LastOfSecrets(fs: seq<int>, blind: int, n: int)
    requires n > 0 && |fs| > 0
    ensures Secrets(fs, blind, n)[|fs| - 1] == (fs[|fs| - 1] + blind) % n
  {
  }

  /** One ring: its factor is zero. */
  lemma SingleFactor<P(!new)>(w: World<P>, q: Request<P>, k: Making)
    requires Setting(w) && Prepared(w, q, k) && |k.chain.factors| == 1
    ensures k.chain.factors[0] == 0
  {
    FactorsCancel(w.c.n, w.blocks(SeedOf(w, q, k.params)), k.params.rsizes, k.prep, k.chain);
    var f := k.chain.factors[0];
    assert k.chain.factors == [f] && k.chain.factors[..0] == [];
    assert Sum(k.chain.factors) == f;
    SmallMod(f, w.c.n);
    SmallMod(0, w.c.n);
  }

  lemma SignedFolded<P(!new)>(w: World<P>, q: Request<P>, k: Making, proof: RangeProof, ev: seq<seq<int>>, raw: NonceChain)
    requires Setting(w) && Signed(w, q, k, proof) && RawChain(w, CommitmentOf(w, q), proof, q.nonce, q.gen, raw)
    requires ViewShape(ViewOf(w.c.n, k, proof, ev, raw))
    ensures Folded(ViewOf(w.c.n, k, proof, ev, raw), q.blind, q.message)
  {
    var x := ViewOf(w.c.n, k, proof, ev, raw);
    FactorsShared(w, q, k, proof, raw);
    SignedSecrets(w, q, k);
    FoldedOf(k.params, q.value, q.minValue, q.message, x, q.blind, k.chain.factors);
  }

  lemma SignedSecrets<P(!new)>(w: World<P>, q: Request<P>, k: Making)
    requires Setting(w) && Prepared(w, q, k)
    ensures k.secs == Secrets(k.chain.factors, q.blind, w.c.n) && |k.chain.factors| == |k.params.rsizes| && 0 < q.blind < w.c.n
    ensures var p := k.params;
            && Covers(p, q.value, q.minValue) && q.value <= U64 && p.minValue >= 0 && |p.digits| == |p.rsizes| > 0
            && p.rsizes[|p.rsizes| - 1] <= 4 && Prep(p.rsizes, p.v, p.digits[|p.digits| - 1], q.message) == Some(k.prep)
  {
  }

  lemma FoldedOf(p: Params, value: int, minValue: int, message: Bytes, x: View, blind: int, factors: seq<int>)
    requires Covers(p, value, minValue) && value <= U64 && p.minValue >= 0 && ViewShape(x) && x.mantissa == p.mantissa && x.v == p.v
    requires |p.digits| == |p.rsizes| > 0 && p.rsizes[|p.rsizes| - 1] <= 4
    requires Prep(p.rsizes, p.v, p.digits[|p.digits| - 1], message) == Some(x.prep)
    requires |factors| == |x.ss| && x.raw.factors == factors && 0 < blind < x.n && x.secs == Secrets(factors, blind, x.n)
    requires |factors| == 1 ==> factors[0] == 0
    ensures Folded(x, blind, message)
  {
    LastOfSecrets(factors, blind, x.n);
    if p.mantissa > 0 { BufferFolded(p, value, minValue, message, x); } else { PublicFolded(p, value, minValue, message, x.prep); }
  }

  // ---- an input that is misread

  /** The scalar whose xor with a block is what is wanted. */
  function Masked(block: Bytes, b: Bytes): nat
    requires |block| == |b|
  {
    Num(XorBytes(block, b))
  }

  lemma MaskedReads(block: Bytes, b: Bytes)
    requires |block| == |b| == 32
    ensures Ch32Xor(Masked(block, b), Num(block)) == b
  {
    ToBytesNum(XorBytes(block, b));
    ToBytesNum(block);
    XorBytesUndone(block, b);
  }

  /** The first octet says how large a number of 32 octets is. */
  lemma HeadBounds(b: Bytes)
    requires |b| == 32
    ensures b[0] * Pow(256, 31) <= Num(b) < (b[0] + 1) * Pow(256, 31)
  {
    assert b == b[..1] + b[1..];
    NumConcat(b[..1], b[1..]);
    NumBound(b[1..]);
    assert Num(b[..1]) == b[0] by { assert b[..1][..0] == []; }
    ProductMonotone(0, 1, Pow(256, 31));
    assert (b[0] + 1) * Pow(256, 31) == b[0] * Pow(256, 31) + Pow(256, 31);
  }

  function BlockOfOne(): (b: Bytes)
    ensures |b| == 32 && b[0] == 0
  {
    ZeroBytes(31) + [1]
  }

  lemma BlockIsOne()
    ensures Num(BlockOfOne()) == 1
  {
    assert BlockOfOne()[..31] == ZeroBytes(31);
    NumZeros(31);
  }

  /** An encoding masked by the block of one is a nonzero scalar other than one. */
  lemma MaskedEncoding(n: int, v: nat)
    requires 129 * Pow(256, 31) <= n
    ensures 1 < Masked(BlockOfOne(), Encoding(v)) < n
  {
    var b := XorBytes(BlockOfOne(), Encoding(v));
    TopXor();
    assert b[0] == Xor(BlockOfOne()[0], Encoding(v)[0]);
    HeadBounds(b);
    PowPositive(256, 31);
  }

  lemma TopXor()
    ensures Xor(0, 128) == 128
  {
  }

  /** One ring of two keys, the digit at its last: the draw is 1, and the secret is the one that answers `last`. */
  function PairView(n: int, first: nat, last: nat): View
    requires n > 0
  {
    View(n, 1, 1, Encoding(1) + ZeroBytes(96), [(1 - last) % n], [[1, 1]], [[first, last]], [[first, 1]], NonceChain([0], [[1, 1]]))
  }

  /** The value folded into the first key, and a last scalar that reads as an encoding of 0. */
  ghost predicate PairMasks(n: int, first: nat, last: nat) {
    && IsPrime(n) && 0 < first < n && 1 < last < n
    && Ch32Xor(first, 1) == Encoding(1) && Ch32Xor(last, 1) == Encoding(0)
  }

  lemma PairShape(n: int, first: nat, last: nat)
    requires PairMasks(n, first, last)
    ensures var x := PairView(n, first, last);
            ViewShape(x) && Digit(1, 0) == 1 && Rsizes(1) == [2] && PrepBlock(x.prep, 0, 0) == Encoding(1) && ZeroBut(x.prep, 0, 0)
  {
    var x := PairView(n, first, last);
    assert Pow(4, 0) == 1;
    forall j | 0 < j < 4 ensures PrepBlock(x.prep, 0, j) == ZeroBytes(32) { }
  }

  lemma PairSeen(n: int, first: nat, last: nat)
    requires PairMasks(n, first, last)
    ensures var x := PairView(n, first, last); Views(x) && LastFolded(x) && Mimics(x)
  {
    PairShape(n, first, last);
    PairRing(n, first, last);
    PairFolded(n, first, last);
  }

  lemma PairRing(n: int, first: nat, last: nat)
    requires PairMasks(n, first, last) && ViewShape(PairView(n, first, last)) && Digit(1, 0) == 1
    requires var x := PairView(n, first, last); PrepBlock(x.prep, 0, 0) == Encoding(1) && ZeroBut(x.prep, 0, 0)
    ensures RingView(PairView(n, first, last), 0)
  {
    var x := PairView(n, first, last);
    PairCong(n, last);
    PairRingSeen(n, x.secs[0], x.ev[0], x.ss[0], x.draws[0]);
    OneXorOne();
    assert PrepBlock(x.prep, 0, 1) == ZeroBytes(32);
    assert Encoding(1)[0] == 128;
  }

  lemma PairRingSeen(n: int, sec: int, es: seq<int>, ss: seq<int>, draws: seq<int>)
    requires |es| == |ss| == |draws| == 2 && n > 1 && es[1] == 1 && draws[1] == 1 && ss[0] == draws[0] && 0 < draws[0] < n
    requires Cong(ss[1], 1 - 1 * sec, n)
    ensures RingSeen(n, 1, sec, es, ss, draws)
  {
  }

  lemma PairFolded(n: int, first: nat, last: nat)
    requires PairMasks(n, first, last) && ViewShape(PairView(n, first, last)) && Digit(1, 0) == 1
    requires var x := PairView(n, first, last); PrepBlock(x.prep, 0, 0) == Encoding(1) && ZeroBut(x.prep, 0, 0)
    ensures LastFolded(PairView(n, first, last)) && Mimics(PairView(n, first, last))
  {
    EncodingRead(0);
  }

  lemma OneXorOne()
    ensures Ch32Xor(1, 1) == ZeroBytes(32)
  {
    var b := ToBytes(1, 32);
    forall i | 0 <= i < 32 ensures XorBytes(b, b)[i] == 0 { XorUndone(b[i], b[i]); }
  }

  lemma PairCong(n: int, s: int)
    requires IsPrime(n) && 1 < s < n
    ensures Cong(s, 1 - 1 * ((1 - s) % n), n) && 0 < (1 - s) % n < n
  {
    ModCong(1 - s, n);
    CongNeg((1 - s) % n, 1 - s, n);
    CongAdd(-((1 - s) % n), -(1 - s), 1, 1, n);
    DivModUnique(1 - s, n, -1, n + 1 - s);
  }

  /** A proof over the view reads as the floor alone. */
  ghost predicate ReadsZero(x: View, p: RangeProof) {
    && Readable(x.n, p, x.ev, x.raw)
    && var r := Read(x.n, p, x.ev, x.raw); r.Some? && r.value.value == FloorOf(p.minValue)
  }

  lemma PairRead(n: int, first: nat, last: nat, p: RangeProof)
    requires PairMasks(n, first, last) && p.sig.s == PairView(n, first, last).ss && p.mantissa == 1
    ensures ReadsZero(PairView(n, first, last), p)
  {
    var x := PairView(n, first, last);
    PairReadable(n, first, last, p);
    PairFound(first, last);
    ZeroFound(x, p);
  }

  lemma ZeroFound(x: View, p: RangeProof)
    requires Readable(x.n, p, x.ev, x.raw) && p.mantissa > 0 && |p.sig.s| == 1
    requires ValueEncoding(p.sig.s[0], x.raw.draws[0]) == Some((1, 0))
    ensures ReadsZero(x, p)
  {
    assert Digit(0, 0) == 0 by { assert Pow(4, 0) == 1; }
    ReadFound(x.n, p, x.ev, x.raw, 1, 0);
  }

  lemma PairReadable(n: int, first: nat, last: nat, p: RangeProof)
    requires PairMasks(n, first, last) && p.sig.s == PairView(n, first, last).ss && p.mantissa == 1
    ensures var x := PairView(n, first, last); Readable(x.n, p, x.ev, x.raw)
  {
    PairShape(n, first, last);
  }

  lemma PairFound(first: nat, last: nat)
    requires Ch32Xor(last, 1) == Encoding(0)
    ensures ValueEncoding([first, last], [1, 1]) == Some((1, 0))
  {
    EncodingRead(0);
  }

  /** A value found at another key than its digit is what is read. */
  lemma ReadFound(n: int, p: RangeProof, ev: seq<seq<int>>, raw: NonceChain, key: nat, found: nat)
    requires Readable(n, p, ev, raw) && p.mantissa > 0
    requires var i := |p.sig.s| - 1;
             ValueEncoding(p.sig.s[i], raw.draws[i]) == Some((key, found)) && Digit(found, i) != key && Digit(found, i) < |p.sig.s[i]|
    ensures var r := Read(n, p, ev, raw); r.Some? && r.value.value == found * Scale(p.exp) + FloorOf(p.minValue)
  {
  }

  /** An input that is misread: everything the signer's side says of it holds, its value is 1 at the scale, and 0 is read. */
  lemma MisreadInput(n: int) returns (x: View)
    requires IsPrime(n) && 129 * Pow(256, 31) <= n
    ensures x.n == n && x.mantissa == 1 && x.v == 1 && Views(x) && Folded(x, x.secs[|x.ss| - 1], []) && Mimics(x)
    ensures forall p: RangeProof :: p.sig.s == x.ss && p.mantissa == x.mantissa ==> ReadsZero(x, p)
  {
    var first, last := Masked(BlockOfOne(), Encoding(1)), Masked(BlockOfOne(), Encoding(0));
    BlockIsOne();
    MaskedEncoding(n, 0);
    MaskedEncoding(n, 1);
    MaskedReads(BlockOfOne(), Encoding(0));
    MaskedReads(BlockOfOne(), Encoding(1));
    x := PairInput(n, first, last);
  }

  lemma PairInput(n: int, first: nat, last: nat) returns (x: View)
    requires PairMasks(n, first, last)
    ensures x.n == n && x.mantissa == 1 && x.v == 1 && Views(x) && Folded(x, x.secs[|x.ss| - 1], []) && Mimics(x)
    ensures forall p: RangeProof :: p.sig.s == x.ss && p.mantissa == x.mantissa ==> ReadsZero(x, p)
  {
    x := PairView(n, first, last);
    PairSeen(n, first, last);
    PairCong(n, last);
    SmallMod((1 - last) % n, n);
    assert x.prep[..0] == [] + ZeroBytes(0);
    forall p: RangeProof | p.sig.s == x.ss && p.mantissa == x.mantissa ensures ReadsZero(x, p) { PairRead(n, first, last, p); }
  }

  /** A proof of its value: the single key answers the blinding factor. */
  lemma PublicRead(x: View, p: RangeProof, ev: seq<seq<int>>, blind: int, message: Bytes)
    requires Views(x) && Folded(x, blind, message) && IsPrime(x.n) && x.mantissa == 0
    requires p.sig.s == x.ss && p.mantissa == x.mantissa && ev == x.ev
    ensures ReadsAs(x, p, ev, Rewound(blind, x.v * Scale(p.exp) + FloorOf(p.minValue), Padded(message, x.mantissa)))
  {
    assert RingView(x, 0);
    SmallMod(blind, x.n);
    assert Pow(4, 0) == 1;
    RecoversX(x.draws[0][0], x.ev[0][0], x.secs[0], x.ss[0][0], x.n);
    assert message + ZeroBytes(0) == [];
  }

  /** The zeros after the message fill the earlier rings, then the last one's two free keys or none. */
  lemma RoomFilled(x: View, message: Bytes)
    requires ViewShape(x) && x.mantissa > 0 && |message| <= 128 * (|x.ss| - 1)
    ensures var i := |x.ss| - 1;
            && |x.ss[i]| >= 2
            && message + ZeroBytes(128 * i - |message|) + ZeroBytes(32 * (|x.ss[i]| - 2)) == Padded(message, x.mantissa)
  {
    var i := |x.ss| - 1;
    RsizesAt(x.mantissa, i);
    ZerosJoin(message, 128 * i - |message|, 32 * (|x.ss[i]| - 2));
  }

  lemma ZerosJoin(message: Bytes, a: nat, b: nat)
    ensures message + ZeroBytes(a) + ZeroBytes(b) == message + ZeroBytes(a + b)
  {
  }

  lemma MimicRead(x: View, p: RangeProof, ev: seq<seq<int>>, blind: int, message: Bytes)
    requires Views(x) && Folded(x, blind, message) && Mimics(x)
    requires p.sig.s == x.ss && p.mantissa == x.mantissa && ev == x.ev
    ensures ReadsAs(x, p, ev, Rewound(blind, x.v * Scale(p.exp) + FloorOf(p.minValue), Padded(message, x.mantissa)))
  {
    MimicMisreads(x, p, ev);
  }

  lemma ReadWhole(x: View, p: RangeProof, ev: seq<seq<int>>, blind: int, message: Bytes)
    requires Views(x) && Folded(x, blind, message) && IsPrime(x.n) && x.mantissa > 0 && !Mimics(x)
    requires p.sig.s == x.ss && p.mantissa == x.mantissa && ev == x.ev
    ensures ReadsAs(x, p, ev, Rewound(blind, x.v * Scale(p.exp) + FloorOf(p.minValue), Padded(message, x.mantissa)))
  {
    ReadExactly(x, p, ev, blind);
    RoomFilled(x, message);
  }

  /** What is read is what was put in, and only where no key mimics the encoding. */
  lemma ReadIff(x: View, p: RangeProof, ev: seq<seq<int>>, blind: int, message: Bytes)
    requires Views(x) && Folded(x, blind, message) && IsPrime(x.n)
    requires p.sig.s == x.ss && p.mantissa == x.mantissa && ev == x.ev
    ensures ReadsAs(x, p, ev, Rewound(blind, x.v * Scale(p.exp) + FloorOf(p.minValue), Padded(message, x.mantissa)))
  {
    if x.mantissa == 0 {
      PublicRead(x, p, ev, blind, message);
    } else if Mimics(x) {
      MimicRead(x, p, ev, blind, message);
    } else {
      ReadWhole(x, p, ev, blind, message);
    }
  }

  /** Rewinding a signed proof answers exactly what was put in it if and only if its last key does not mimic. */
  lemma RewindExact<P(!new)>(w: World<P>, q: Request<P>, k: Making, proof: RangeProof, ev: seq<seq<int>>, raw: NonceChain)
    requires Setting(w) && Rewinding(w, q, k, proof, ev, raw)
    ensures ViewShape(ViewOf(w.c.n, k, proof, ev, raw))
    ensures Opened(w, CommitmentOf(w, q), q.gen, Read(w.c.n, proof, ev, raw)) == Some(Expected(q, k.params.mantissa))
       <==> !Mimics(ViewOf(w.c.n, k, proof, ev, raw))
  {
    var x := ViewOf(w.c.n, k, proof, ev, raw);
    ReadOfSigned(w, q, k, proof, ev, raw);
    OpenedIff(w, q, Read(w.c.n, proof, ev, raw), Expected(q, k.params.mantissa), Mimics(x));
  }

  lemma ReadOfSigned<P(!new)>(w: World<P>, q: Request<P>, k: Making, proof: RangeProof, ev: seq<seq<int>>, raw: NonceChain)
    requires Setting(w) && Rewinding(w, q, k, proof, ev, raw)
    ensures ViewShape(ViewOf(w.c.n, k, proof, ev, raw))
    ensures var r := Read(w.c.n, proof, ev, raw);
            && (!Mimics(ViewOf(w.c.n, k, proof, ev, raw)) ==> r == Some(Expected(q, k.params.mantissa)))
            && (Mimics(ViewOf(w.c.n, k, proof, ev, raw)) && r.Some? ==> r.value.value != q.value)
  {
    FactsOfSigned(w, q, k, proof, ev, raw);
    ReadOfFacts(ViewOf(w.c.n, k, proof, ev, raw), q, proof, ev);
  }

  /** All that reading needs to know of a signed proof. */
  ghost predicate Facts<P>(x: View, q: Request<P>, p: RangeProof, ev: seq<seq<int>>) {
    && Views(x) && Folded(x, q.blind, q.message) && IsPrime(x.n) && p.sig.s == x.ss && p.mantissa == x.mantissa && ev == x.ev
    && x.v * Scale(p.exp) + FloorOf(p.minValue) == q.value
  }

  lemma FactsOfSigned<P(!new)>(w: World<P>, q: Request<P>, k: Making, proof: RangeProof, ev: seq<seq<int>>, raw: NonceChain)
    requires Setting(w) && Rewinding(w, q, k, proof, ev, raw)
    ensures Facts(ViewOf(w.c.n, k, proof, ev, raw), q, proof, ev)
  {
    ViewShaped(w, q, k, proof, ev, raw);
    Viewed(w, q, k, proof, ev, raw);
    SignedFolded(w, q, k, proof, ev, raw);
    ValueStated(w, q, k, proof);
  }

  lemma ReadOfFacts<P(!new)>(x: View, q: Request<P>, p: RangeProof, ev: seq<seq<int>>)
    requires Facts(x, q, p, ev)
    ensures ReadsAs(x, p, ev, Expected(q, x.mantissa))
  {
    var value := x.v * Scale(p.exp) + FloorOf(p.minValue);
    assert value == q.value;
    ReadIff(x, p, ev, q.blind, q.message);
    assert Rewound(q.blind, value, Padded(q.message, x.mantissa)) == Expected(q, x.mantissa);
  }

  /** The blind and the value of the request open its commitment; nothing of another value is the request's. */
  lemma OpenedIff<P(!new)>(w: World<P>, q: Request<P>, r: Option<Rewound>, e: Rewound, mimics: bool)
    requires e.blind == q.blind && e.value == q.value
    requires !mimics ==> r == Some(e)
    requires mimics && r.Some? ==> r.value.value != e.value
    ensures Opened(w, CommitmentOf(w, q), q.gen, r) == Some(e) <==> !mimics
  {
  }

  /** The header's floor and the digits at their scale are the value. */
  lemma ValueStated<P(!new)>(w: World<P>, q: Request<P>, k: Making, proof: RangeProof)
    requires Setting(w) && Signed(w, q, k, proof)
    ensures k.params.v * Scale(proof.exp) + FloorOf(proof.minValue) == q.value
  {
  }

  ghost predicate KeysFinite<P(!new)>(w: World<P>, q: Request<P>, proof: RangeProof)
    requires Setting(w) && ValidProof(proof, w.c.n)
  {
    var rings := RingsOf(w, CommitmentOf(w, q), proof, q.gen);
    rings.Some? && NoKeyAtInfinity(w.c, rings.value)
  }

  /** The proof holds, the raw chain can be drawn, and the last key does not mimic an encoding. */
  ghost predicate ReadsBack<P(!new)>(w: World<P>, q: Request<P>, k: Making, proof: RangeProof)
    requires Setting(w)
  {
    exists ev, raw :: Rewinding(w, q, k, proof, ev, raw) && NotMimicked(ViewOf(w.c.n, k, proof, ev, raw))
  }

  predicate NotMimicked(x: View) { ViewShape(x) && !Mimics(x) }

  /** Sign, verify, rewind: the proof holds exactly when no ring key is infinity, and the rewind is exact exactly when, besides,
      the raw chain is drawn and the last key does not mimic an encoding. */
  method EndToEnd<P(==, !new)>(w: World<P>, q: Request<P>) returns (proof: Option<RangeProof>, back: Option<Rewound>, ghost making: Option<Making>)
    requires Setting(w) && w.c.g.has(q.gen)
    ensures proof.Some? <==> Signable(w, q)
    ensures proof.Some? ==> making.Some? && Signed(w, q, making.value, proof.value)
    ensures proof.Some? ==> (Holds(w, CommitmentOf(w, q), proof.value, q.gen, q.extra) <==> KeysFinite(w, q, proof.value))
    ensures proof.Some? ==> (back == Some(Expected(q, making.value.params.mantissa)) <==> ReadsBack(w, q, making.value, proof.value))
  {
    proof, making := RangeSigning.Sign(w, q);
    back := None;
    if proof.None? { return; }
    SignedHolds(w, q, making.value, proof.value);
    ghost var ev, raw;
    back, ev, raw := Rewind(w, CommitmentOf(w, q), proof.value, q.nonce, q.gen, q.extra);
    if ev.Some? && raw.Some? {
      RewindExact(w, q, making.value, proof.value, ev.value, raw.value);
      OneRewinding(w, q, making.value, proof.value, ev.value, raw.value);
      ReadsBackIff(w, q, making.value, proof.value, ev.value, raw.value);
    }
  }

  lemma ReadsBackIff<P(!new)>(w: World<P>, q: Request<P>, k: Making, proof: RangeProof, ev: seq<seq<int>>, raw: NonceChain)
    requires Setting(w) && Rewinding(w, q, k, proof, ev, raw)
    ensures ReadsBack(w, q, k, proof) <==> NotMimicked(ViewOf(w.c.n, k, proof, ev, raw))
  {
    OneRewinding(w, q, k, proof, ev, raw);
  }

  /** The challenges met and the raw chain are determined by the proof and the nonce. */
  lemma OneRewinding<P(!new)>(w: World<P>, q: Request<P>, k: Making, proof: RangeProof, ev: seq<seq<int>>, raw: NonceChain)
    requires Setting(w) && Rewinding(w, q, k, proof, ev, raw)
    ensures forall ev', raw' :: Rewinding(w, q, k, proof, ev', raw') ==> ev' == ev && raw' == raw
  {
    forall ev', raw' | Rewinding(w, q, k, proof, ev', raw') ensures ev' == ev && raw' == raw {
      SameChallenges(w, q, proof, ev, ev');
      SameRaw(w, q, proof, raw, raw');
    }
  }

  lemma SameChallenges<P(!new)>(w: World<P>, q: Request<P>, proof: RangeProof, ev: seq<seq<int>>, ev': seq<seq<int>>)
    requires Setting(w) && Holds(w, CommitmentOf(w, q), proof, q.gen, q.extra)
    requires Met(w, CommitmentOf(w, q), proof, q.gen, q.extra, ev) && Met(w, CommitmentOf(w, q), proof, q.gen, q.extra, ev')
    ensures ev == ev'
  {
    forall i | 0 <= i < |ev| ensures ev[i] == ev'[i] {
      forall j | 0 <= j < |ev[i]| ensures ev[i][j] == ev'[i][j] {
        assert Some(ev[i][j]) == Some(ev'[i][j]);
      }
    }
  }

  lemma SameRaw<P(!new)>(w: World<P>, q: Request<P>, proof: RangeProof, raw: NonceChain, raw': NonceChain)
    requires Setting(w) && Writable(w, CommitmentOf(w, q), q.gen) && ValidProof(proof, w.c.n)
    requires RawChain(w, CommitmentOf(w, q), proof, q.nonce, q.gen, raw) && RawChain(w, CommitmentOf(w, q), proof, q.nonce, q.gen, raw')
    ensures raw == raw'
  {
    ChainOnce(w.c.n, w.blocks(SeedFor(w, CommitmentOf(w, q), proof, q.nonce, q.gen)), Rsizes(proof.mantissa),
      ZeroBytes(128 * |Rsizes(proof.mantissa)|), raw, raw');
  }
}
