/** Confidential Transactions range proofs: signing, verifying, and rewinding with the nonce. */
module RangeProofs {
  import opened Modular
  import opened Groups
  import opened SchnorrGroup
  import opened Octets
  import opened RingWalk
  import opened Borromean
  import opened RangeParams
  import opened RangeChain

  /** What is read only through its values: the encoding of points, the block chain of a seed, the hashes. */
  datatype World<!P> = World(
    c: Schnorr<P>,
    write: P -> (bool, int),
    read: (bool, int) -> Option<P>,
    blocks: Bytes -> seq<Bytes>,
    digest: Bytes -> Bytes,
    spot: (Bytes, RingInput<P>, nat, nat) -> int,
    ends: (seq<P>, Bytes) -> Bytes)

  /** A point is its sign bit and its x, and reading undoes writing. */
  ghost predicate PointsWritten<P(!new)>(w: World<P>) {
    forall Q {:trigger w.write(Q)} :: w.c.g.has(Q) && Q != w.c.g.zero ==>
      w.read(w.write(Q).0, w.write(Q).1) == Some(Q) && 0 <= w.write(Q).1 < Pow(256, 32)
  }

  ghost predicate PointsRead<P(!new)>(w: World<P>) {
    forall b, x {:trigger w.read(b, x)} :: w.read(b, x).Some? ==> w.c.g.has(w.read(b, x).value)
  }

  ghost predicate BlocksOf32<P(!new)>(w: World<P>) {
    forall seed {:trigger w.blocks(seed)} :: Blocks32(w.blocks(seed))
  }

  ghost predicate DigestsOf32<P(!new)>(w: World<P>) {
    forall points, m {:trigger w.ends(points, m)} :: |w.ends(points, m)| == 32
  }

  ghost predicate Setting<P(!new)>(w: World<P>) {
    Laws(w.c) && w.c.n <= Pow(256, 32) && PointsWritten(w) && PointsRead(w) && BlocksOf32(w) && DigestsOf32(w)
  }

  /** The walk's hashes: a digest at or past n is refused rather than reduced. */
  function OverMessage<P(!new)>(w: World<P>, m: Bytes): RingHash<P> {
    RingHash(
      (x: RingInput<P>, i: nat, j: nat) => var e := w.spot(m, x, i, j); if 0 < e < w.c.n then Some(e) else None,
      (points: seq<P>) => w.ends(points, m))
  }

  // ---- octets that are hashed

  /** The flags octet and the fields its bits say follow it. */
  function HeaderOctets(exp: int, mantissa: int, minValue: Option<int>): Bytes
    requires ValidHeader(exp, mantissa, minValue)
  {
    var flags := (if mantissa != 0 then 64 + exp else 0) + (if minValue.Some? then 32 else 0);
    [flags] + (if mantissa != 0 then [mantissa - 1] else []) + (if minValue.Some? then ToBytes(minValue.value, 8) else [])
  }

  function PointOctets(b: bool, x: nat): Bytes { [if b then 1 else 0] + ToBytes(x, 32) }

  function StatedOctets(signs: seq<bool>, xs: seq<int>): Bytes
    requires |signs| == |xs| && forall i :: 0 <= i < |xs| ==> xs[i] >= 0
  {
    if signs == [] then [] else
      StatedOctets(signs[..|signs| - 1], xs[..|xs| - 1]) + PointOctets(signs[|signs| - 1], xs[|xs| - 1])
  }

  /** The commitment, the generator and the header: what the message and the chain open with. */
  function HashedPrefix<P(!new)>(w: World<P>, commitment: P, gen: P, exp: int, mantissa: int, minValue: Option<int>): Bytes
    requires ValidHeader(exp, mantissa, minValue) && w.write(commitment).1 >= 0 && w.write(gen).1 >= 0
  {
    PointOctets(w.write(commitment).0, w.write(commitment).1) + PointOctets(w.write(gen).0, w.write(gen).1) + HeaderOctets(exp, mantissa, minValue)
  }

  // ---- rings of keys

  function Commit<P(!new)>(c: Schnorr<P>, blind: int, value: int, gen: P): P {
    c.g.add(Mul(c.g, blind, c.G), Mul(c.g, value, gen))
  }

  function Weight(exp: int, i: nat): int { Scale(exp) * Pow(4, i) }

  /** The ring's commitment less j times the weight of its digit. */
  function KeyAt<P(!new)>(c: Schnorr<P>, head: P, gen: P, weight: int, j: nat): P {
    c.g.add(head, Mul(c.g, -(j * weight), gen))
  }

  function RingAt<P(!new)>(c: Schnorr<P>, head: P, gen: P, weight: int, size: nat): (r: seq<P>)
    ensures |r| == size
  {
    seq(size, j requires 0 <= j < size => KeyAt(c, head, gen, weight, j))
  }

  function ExpandedRings<P(!new)>(c: Schnorr<P>, heads: seq<P>, gen: P, exp: int, rsizes: seq<nat>): (r: seq<seq<P>>)
    requires |heads| == |rsizes|
    ensures |r| == |rsizes|
  {
    seq(|rsizes|, i requires 0 <= i < |rsizes| => RingAt(c, heads[i], gen, Weight(exp, i), rsizes[i]))
  }

  lemma NextKey<P(!new)>(c: Schnorr<P>, head: P, gen: P, weight: int, j: nat)
    requires Laws(c) && c.g.has(head) && c.g.has(gen)
    ensures KeyAt(c, head, gen, weight, j + 1) == c.g.add(KeyAt(c, head, gen, weight, j), Mul(c.g, -weight, gen))
    ensures KeyAt(c, head, gen, weight, 0) == head
  {
    assert -((j + 1) * weight) == -(j * weight) + -weight;
    MulAdd(c.g, -(j * weight), -weight, gen);
    assert Associates(c.g, head, Mul(c.g, -(j * weight), gen), Mul(c.g, -weight, gen));
    assert -(0 * weight) == 0;
    MulOne(c.g, gen);
  }

  /** _pub_expand: one addition a key, and two doublings of the base between rings. */
  method PubExpand<P(!new)>(c: Schnorr<P>, heads: seq<P>, gen: P, exp: int, rsizes: seq<nat>) returns (rings: seq<seq<P>>)
    requires Laws(c) && AllIn(c.g, heads) && c.g.has(gen) && |heads| == |rsizes| && forall i :: 0 <= i < |rsizes| ==> rsizes[i] >= 1
    ensures rings == ExpandedRings(c, heads, gen, exp, rsizes)
  {
    var base := c.g.neg(Mul(c.g, Scale(exp), gen));
    FirstBase(c, gen, exp);
    rings := [];
    for i := 0 to |rsizes|
      invariant |rings| == i && base == BaseOf(c, gen, exp, i)
      invariant forall k :: 0 <= k < i ==> rings[k] == RingAt(c, heads[k], gen, Weight(exp, k), rsizes[k])
    {
      var ring := ExpandRing(c, heads[i], gen, base, Weight(exp, i), rsizes[i]);
      rings := rings + [ring];
      NextBase(c, gen, exp, i);
      var twice := c.g.add(base, base);
      base := c.g.add(twice, twice);
    }
  }

  /** What one key of ring i steps down by. */
  function BaseOf<P(!new)>(c: Schnorr<P>, gen: P, exp: int, i: nat): P { Mul(c.g, -Weight(exp, i), gen) }

  lemma FirstBase<P(!new)>(c: Schnorr<P>, gen: P, exp: int)
    requires Laws(c) && c.g.has(gen)
    ensures BaseOf(c, gen, exp, 0) == c.g.neg(Mul(c.g, Scale(exp), gen))
  {
    MulNeg(c.g, Scale(exp), gen);
    assert Weight(exp, 0) == Scale(exp) by { assert Pow(4, 0) == 1; }
  }

  lemma NextBase<P(!new)>(c: Schnorr<P>, gen: P, exp: int, i: nat)
    requires Laws(c) && c.g.has(gen)
    ensures var b := BaseOf(c, gen, exp, i);
            var twice := c.g.add(b, b);
            c.g.add(twice, twice) == BaseOf(c, gen, exp, i + 1)
  {
    Quadruple(c, gen, Weight(exp, i));
    FourfoldWeight(exp, i);
  }

  lemma FourfoldWeight(exp: int, i: nat)
    ensures Weight(exp, i + 1) == 4 * Weight(exp, i)
  {
    var s, p := Scale(exp), Pow(4, i);
    assert s * (4 * p) == 4 * (s * p);
  }

  lemma Quadruple<P(!new)>(c: Schnorr<P>, gen: P, weight: int)
    requires Laws(c) && c.g.has(gen)
    ensures var b := Mul(c.g, -weight, gen);
            var twice := c.g.add(b, b);
            c.g.add(twice, twice) == Mul(c.g, -(4 * weight), gen)
  {
    MulAdd(c.g, -weight, -weight, gen);
    MulAdd(c.g, -weight + -weight, -weight + -weight, gen);
    assert -(4 * weight) == (-weight + -weight) + (-weight + -weight);
  }

  method ExpandRing<P(!new)>(c: Schnorr<P>, head: P, gen: P, base: P, ghost weight: int, size: nat) returns (ring: seq<P>)
    requires Laws(c) && c.g.has(head) && c.g.has(gen) && size >= 1 && base == Mul(c.g, -weight, gen)
    ensures ring == RingAt(c, head, gen, weight, size)
  {
    NextKey(c, head, gen, weight, 0);
    ring := [head];
    for j := 1 to size
      invariant |ring| == j && forall k :: 0 <= k < j ==> ring[k] == KeyAt(c, head, gen, weight, k)
    {
      NextKey(c, head, gen, weight, j - 1);
      ring := ring + [c.g.add(ring[j - 1], base)];
    }
  }

  /** The key at the digit is the ring's blinding factor times G. */
  lemma KeyAtDigit<P(!new)>(c: Schnorr<P>, sec: int, digit: nat, weight: int, gen: P)
    requires Laws(c) && c.g.has(gen)
    ensures KeyAt(c, Commit(c, sec, digit * weight, gen), gen, weight, digit) == Mul(c.g, sec, c.G)
  {
    MulNeg(c.g, digit * weight, gen);
    AddThenSubtract(c.g, Mul(c.g, sec, c.G), Mul(c.g, digit * weight, gen));
  }

  // ---- the proof

  datatype RangeProof = RangeProof(exp: int, mantissa: int, minValue: Option<int>, signs: seq<bool>, xs: seq<int>, sig: BorromeanSig)

  /** The header is one the format has octets for, and the body is the one it describes. */
  predicate ValidProof(p: RangeProof, n: int) {
    && ValidHeader(p.exp, p.mantissa, p.minValue)
    && |p.signs| == |p.xs| == |Rsizes(p.mantissa)| - 1
    && (forall i :: 0 <= i < |p.xs| ==> 0 <= p.xs[i] < Pow(256, 32))
    && WellFormed(p.sig, n) && |p.sig.s| == |Rsizes(p.mantissa)|
    && (forall i :: 0 <= i < |p.sig.s| ==> |p.sig.s[i]| == Rsizes(p.mantissa)[i])
  }

  function ReadAll<P(!new)>(w: World<P>, signs: seq<bool>, xs: seq<int>): (r: Option<seq<P>>)
    requires |signs| == |xs|
    ensures r.Some? ==> |r.value| == |xs|
  {
    if signs == [] then Some([]) else
      match ReadAll(w, signs[..|signs| - 1], xs[..|xs| - 1])
      case None => None
      case Some(before) =>
        match w.read(signs[|signs| - 1], xs[|xs| - 1])
        case None => None
        case Some(Q) => Some(before + [Q])
  }

  lemma ReadIn<P(!new)>(w: World<P>, b: bool, x: int)
    requires PointsRead(w)
    ensures w.read(b, x).Some? ==> w.c.g.has(w.read(b, x).value)
  {
  }

  lemma {:induction false} ReadAllIn<P(!new)>(w: World<P>, signs: seq<bool>, xs: seq<int>)
    requires PointsRead(w) && |signs| == |xs|
    ensures ReadAll(w, signs, xs).Some? ==> AllIn(w.c.g, ReadAll(w, signs, xs).value)
    decreases |signs|
  {
    if signs != [] {
      var n := |signs| - 1;
      ReadAllIn(w, signs[..n], xs[..n]);
      ReadIn(w, signs[n], xs[n]);
    }
  }

  /** The ring commitment the proof does not state: what the stated ones and the floor leave of the commitment. */
  function LastHead<P(!new)>(c: Schnorr<P>, commitment: P, gen: P, floor: int, stated: seq<P>): P {
    c.g.add(commitment, c.g.neg(Offset(c, gen, floor, stated)))
  }

  function Offset<P(!new)>(c: Schnorr<P>, gen: P, floor: int, stated: seq<P>): P {
    if stated == [] then Mul(c.g, floor, gen)
    else c.g.add(Offset(c, gen, floor, stated[..|stated| - 1]), stated[|stated| - 1])
  }

  lemma {:induction false} OffsetIn<P(!new)>(c: Schnorr<P>, gen: P, floor: int, stated: seq<P>)
    requires Laws(c) && c.g.has(gen) && AllIn(c.g, stated)
    ensures c.g.has(Offset(c, gen, floor, stated))
    decreases |stated|
  {
    if stated != [] {
      OffsetIn(c, gen, floor, stated[..|stated| - 1]);
      assert c.g.has(stated[|stated| - 1]);
    }
  }

  /** The rings the signature is over; None where a stated commitment is no point or the last is infinity. */
  ghost function RingsOf<P(!new)>(w: World<P>, commitment: P, p: RangeProof, gen: P): (r: Option<seq<seq<P>>>)
    requires ValidProof(p, w.c.n)
    ensures r.Some? ==> SameShape(r.value, p.sig.s)
  {
    match ReadAll(w, p.signs, p.xs)
    case None => None
    case Some(stated) =>
      var last := LastHead(w.c, commitment, gen, FloorOf(p.minValue), stated);
      if last == w.c.g.zero then None
      else Some(ExpandedRings(w.c, stated + [last], gen, p.exp, Rsizes(p.mantissa)))
  }

  method PubkRings<P(==, !new)>(w: World<P>, commitment: P, p: RangeProof, gen: P) returns (r: Option<seq<seq<P>>>)
    requires Setting(w) && w.c.g.has(commitment) && w.c.g.has(gen) && ValidProof(p, w.c.n)
    ensures r == RingsOf(w, commitment, p, gen)
  {
    var stated := ReadAll(w, p.signs, p.xs);
    if stated.None? { return None; }
    ReadAllIn(w, p.signs, p.xs);
    var acc := Mul(w.c.g, FloorOf(p.minValue), gen);
    for i := 0 to |stated.value|
      invariant acc == Offset(w.c, gen, FloorOf(p.minValue), stated.value[..i])
    {
      assert stated.value[..i + 1][..i] == stated.value[..i];
      acc := w.c.g.add(acc, stated.value[i]);
    }
    assert stated.value[..|stated.value|] == stated.value;
    OffsetIn(w.c, gen, FloorOf(p.minValue), stated.value);
    var last := w.c.g.add(commitment, w.c.g.neg(acc));
    if last == w.c.g.zero { return None; }
    var rings := PubExpand(w.c, stated.value + [last], gen, p.exp, Rsizes(p.mantissa));
    return Some(rings);
  }

  // ---- verifying

  /** Two points that have octets: infinity has none. */
  ghost predicate Writable<P(!new)>(w: World<P>, commitment: P, gen: P) {
    w.c.g.has(commitment) && w.c.g.has(gen) && commitment != w.c.g.zero && gen != w.c.g.zero
  }

  function RingMessage<P(!new)>(w: World<P>, commitment: P, p: RangeProof, gen: P, extra: Bytes): Bytes
    requires ValidHeader(p.exp, p.mantissa, p.minValue) && w.write(commitment).1 >= 0 && w.write(gen).1 >= 0
    requires |p.signs| == |p.xs| && forall i :: 0 <= i < |p.xs| ==> p.xs[i] >= 0
  {
    w.digest(HashedPrefix(w, commitment, gen, p.exp, p.mantissa, p.minValue) + StatedOctets(p.signs, p.xs) + extra)
  }

  predicate NoZeroScalar(s: seq<seq<int>>) {
    forall i, j :: 0 <= i < |s| && 0 <= j < |s[i]| ==> s[i][j] != 0
  }

  predicate NoKeyAtInfinity<P(==)>(c: Schnorr<P>, rings: seq<seq<P>>) {
    forall i, j :: 0 <= i < |rings| && 0 <= j < |rings[i]| ==> rings[i][j] != c.g.zero
  }

  /** The proof holds for the commitment: no refused scalar or key, and every ring closes on e0. */
  ghost predicate Holds<P(!new)>(w: World<P>, commitment: P, p: RangeProof, gen: P, extra: Bytes)
    requires Setting(w)
  {
    && Writable(w, commitment, gen) && ValidProof(p, w.c.n) && RingsOf(w, commitment, p, gen).Some?
    && NoZeroScalar(p.sig.s) && NoKeyAtInfinity(w.c, RingsOf(w, commitment, p, gen).value)
    && Closes(w.c, OverMessage(w, RingMessage(w, commitment, p, gen, extra)), 1, RingsOf(w, commitment, p, gen).value, p.sig.s, p.sig.e0)
  }

  /** The challenges met at every key of a proof that holds. */
  ghost predicate Met<P(!new)>(w: World<P>, commitment: P, p: RangeProof, gen: P, extra: Bytes, ev: seq<seq<int>>)
    requires Setting(w) && Holds(w, commitment, p, gen, extra)
  {
    var rings := RingsOf(w, commitment, p, gen).value;
    var h := OverMessage(w, RingMessage(w, commitment, p, gen, extra));
    && |ev| == |rings| && (forall i :: 0 <= i < |rings| ==> |ev[i]| == |rings[i]|)
    && forall i, j :: 0 <= i < |rings| && 0 <= j < |rings[i]| ==>
         ChallengeAt(w.c, h, 1, i, rings[i], p.sig.s[i], p.sig.e0, j) == Some(ev[i][j])
  }

  method VerifyRings<P(==, !new)>(w: World<P>, commitment: P, p: RangeProof, gen: P, extra: Bytes) returns (r: Option<seq<seq<int>>>)
    requires Setting(w) && w.c.g.has(commitment) && w.c.g.has(gen)
    ensures r.Some? <==> Holds(w, commitment, p, gen, extra)
    ensures r.Some? ==> Met(w, commitment, p, gen, extra, r.value)
  {
    if commitment == w.c.g.zero || gen == w.c.g.zero || !ValidProof(p, w.c.n) { return None; }
    var rings := PubkRings(w, commitment, p, gen);
    if rings.None? { return None; }
    if !NoZeroScalar(p.sig.s) || !NoKeyAtInfinity(w.c, rings.value) { return None; }
    var m := RingMessage(w, commitment, p, gen, extra);
    r := WalkRings(w.c, OverMessage(w, m), 1, rings.value, p.sig.s, p.sig.e0);
  }
}
