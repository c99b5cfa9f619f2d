/** Borromean ring signatures: signing one key per ring, and the single forward walk that checks it. */
module Borromean {
  import opened Modular
  import opened Groups
  import opened SchnorrGroup
  import opened Octets
  import opened RingWalk

  /** The hash of a message, a running point or e0, a ring and a position, and the hash that answers e0. */
  datatype Hash<!P> = Hash(spot: (Bytes, RingInput<P>, nat, nat) -> int, ends: (seq<P>, Bytes) -> Bytes)

  /** A challenge is reduced modulo n, and a zero one refused. */
  function Over<P>(c: Schnorr<P>, H: Hash<P>, m: Bytes): RingHash<P>
    requires c.n > 0
  {
    RingHash(
      (x: RingInput<P>, i: nat, j: nat) => Reduced(H.spot(m, x, i, j), c.n),
      (points: seq<P>) => H.ends(points, m))
  }

  function Reduced(e: int, n: int): Option<int> {
    if n <= 0 || e % n == 0 then None else Some(e % n)
  }

  datatype BorromeanSig = BorromeanSig(e0: Bytes, s: seq<seq<int>>)

  /** An e0, at least one ring, no empty ring, and scalars only. */
  predicate WellFormed(sig: BorromeanSig, n: int) {
    && sig.e0 != [] && sig.s != []
    && (forall i :: 0 <= i < |sig.s| ==> sig.s[i] != [])
    && (forall i, j :: 0 <= i < |sig.s| && 0 <= j < |sig.s[i]| ==> 0 <= sig.s[i][j] < n)
  }

  /** Every ring key is a point that can be written. */
  predicate KeysValid<P(==)>(c: Schnorr<P>, rings: seq<seq<P>>) {
    forall i, j :: 0 <= i < |rings| && 0 <= j < |rings[i]| ==> rings[i][j] != c.g.zero
  }

  /** What assert_as_valid accepts over a message hash. */
  ghost predicate Accepts<P(!new)>(c: Schnorr<P>, H: Hash<P>, m: Bytes, rings: seq<seq<P>>, sig: BorromeanSig)
    requires c.n > 0
  {
    WellFormed(sig, c.n) && KeysValid(c, rings) && SameShape(rings, sig.s) && Closes(c, Over(c, H, m), -1, rings, sig.s, sig.e0)
  }

  /** One ring over a message: the challenge of position j of ring i hashes the message, the point before it (e0 for the first),
      i and j; it is reduced and not zero. */
  ghost predicate RingHashed<P(!new)>(c: Schnorr<P>, H: Hash<P>, m: Bytes, i: nat, ring: seq<P>, s: seq<int>, e0: Bytes, es: seq<int>, Rs: seq<P>)
    requires c.n > 0
  {
    && 0 < |ring| == |s| == |es| == |Rs|
    && es[0] == H.spot(m, FromE0(e0), i, 0) % c.n
    && (forall j {:trigger es[j]} :: 0 < j < |ring| ==> es[j] == H.spot(m, FromPoint(Rs[j - 1]), i, j) % c.n)
    && (forall j {:trigger es[j]} :: 0 <= j < |ring| ==> es[j] != 0)
    && forall j {:trigger Rs[j]} :: 0 <= j < |ring| ==>
         Rs[j] != c.g.zero && Rs[j] == c.g.add(Mul(c.g, -es[j], ring[j]), Mul(c.g, s[j], c.G))
  }

  ghost predicate AllHashed<P(!new)>(c: Schnorr<P>, H: Hash<P>, m: Bytes, rings: seq<seq<P>>, sig: BorromeanSig, es: seq<seq<int>>, Rs: seq<seq<P>>)
    requires c.n > 0
  {
    && |rings| == |sig.s| == |es| == |Rs|
    && forall i :: 0 <= i < |rings| ==> RingHashed(c, H, m, i, rings[i], sig.s[i], sig.e0, es[i], Rs[i])
  }

  lemma HashedIsEquations<P(!new)>(c: Schnorr<P>, H: Hash<P>, m: Bytes, i: nat, ring: seq<P>, s: seq<int>, e0: Bytes, es: seq<int>, Rs: seq<P>)
    requires c.n > 0
    ensures RingHashed(c, H, m, i, ring, s, e0, es, Rs) <==> RingEquations(c, Over(c, H, m), -1, i, ring, s, e0, es, Rs)
  {
    var h := Over(c, H, m);
    assert forall e :: -1 * e == -e;
    if RingHashed(c, H, m, i, ring, s, e0, es, Rs) {
      forall j | 0 < j < |ring| ensures h.challenge(FromPoint(Rs[j - 1]), i, j) == Some(es[j]) { }
    }
    if RingEquations(c, h, -1, i, ring, s, e0, es, Rs) {
      forall j | 0 < j < |ring| ensures es[j] == H.spot(m, FromPoint(Rs[j - 1]), i, j) % c.n && es[j] != 0 {
        assert h.challenge(FromPoint(Rs[j - 1]), i, j) == Some(es[j]);
      }
    }
  }

  /** A signature is accepted exactly where it is well formed over writable keys and some challenges and points satisfy every
      hash and every sum, the last points and the message hashing to e0. */
  lemma AcceptsIff<P(!new)>(c: Schnorr<P>, H: Hash<P>, m: Bytes, rings: seq<seq<P>>, sig: BorromeanSig)
    requires c.n > 0
    ensures Accepts(c, H, m, rings, sig) <==>
      && WellFormed(sig, c.n) && KeysValid(c, rings)
      && exists es, Rs :: AllHashed(c, H, m, rings, sig, es, Rs) && H.ends(Lasts(Rs), m) == sig.e0
  {
    var h := Over(c, H, m);
    if SameShape(rings, sig.s) {
      ClosesIff(c, h, -1, rings, sig.s, sig.e0);
      if Closes(c, h, -1, rings, sig.s, sig.e0) {
        var es, Rs :| AllEquations(c, h, -1, rings, sig.s, sig.e0, es, Rs) && h.close(Lasts(Rs)) == sig.e0;
        AllHashedIff(c, H, m, rings, sig, es, Rs);
      }
    }
    if es, Rs :| AllHashed(c, H, m, rings, sig, es, Rs) && H.ends(Lasts(Rs), m) == sig.e0 {
      AllHashedIff(c, H, m, rings, sig, es, Rs);
      HashedShape(c, H, m, rings, sig, es, Rs);
      assert AllEquations(c, h, -1, rings, sig.s, sig.e0, es, Rs) && h.close(Lasts(Rs)) == sig.e0;
      ClosesIff(c, h, -1, rings, sig.s, sig.e0);
    }
  }

  lemma AllHashedIff<P(!new)>(c: Schnorr<P>, H: Hash<P>, m: Bytes, rings: seq<seq<P>>, sig: BorromeanSig, es: seq<seq<int>>, Rs: seq<seq<P>>)
    requires c.n > 0
    ensures AllHashed(c, H, m, rings, sig, es, Rs) <==> AllEquations(c, Over(c, H, m), -1, rings, sig.s, sig.e0, es, Rs)
  {
    if |rings| == |sig.s| == |es| == |Rs| {
      forall i | 0 <= i < |rings|
        ensures RingHashed(c, H, m, i, rings[i], sig.s[i], sig.e0, es[i], Rs[i])
           <==> RingEquations(c, Over(c, H, m), -1, i, rings[i], sig.s[i], sig.e0, es[i], Rs[i])
      {
        HashedIsEquations(c, H, m, i, rings[i], sig.s[i], sig.e0, es[i], Rs[i]);
      }
    }
  }

  lemma HashedShape<P(!new)>(c: Schnorr<P>, H: Hash<P>, m: Bytes, rings: seq<seq<P>>, sig: BorromeanSig, es: seq<seq<int>>, Rs: seq<seq<P>>)
    requires c.n > 0 && AllHashed(c, H, m, rings, sig, es, Rs)
    ensures SameShape(rings, sig.s) && forall i :: 0 <= i < |Rs| ==> Rs[i] != []
  {
    forall i | 0 <= i < |rings| ensures 0 < |rings[i]| == |sig.s[i]| && Rs[i] != [] {
      assert RingHashed(c, H, m, i, rings[i], sig.s[i], sig.e0, es[i], Rs[i]);
    }
  }

  method AssertAsValid<P(==, !new)>(c: Schnorr<P>, H: Hash<P>, m: Bytes, rings: seq<seq<P>>, sig: BorromeanSig) returns (ok: bool)
    requires c.n > 0
    ensures ok <==> Accepts(c, H, m, rings, sig)
  {
    if !WellFormed(sig, c.n) || !KeysValid(c, rings) { return false; }
    if |rings| != |sig.s| { return false; }
    for i := 0 to |rings|
      invariant forall k :: 0 <= k < i ==> |rings[k]| == |sig.s[k]|
    {
      if |rings[i]| != |sig.s[i]| { return false; }
    }
    var walked := WalkRings(c, Over(c, H, m), -1, rings, sig.s, sig.e0);
    return walked.Some?;
  }

  /** The arguments of a signature, before anything is computed. */
  predicate Arguments<P(==)>(c: Schnorr<P>, ks: seq<int>, idx: seq<int>, keys: seq<int>, rings: seq<seq<P>>) {
    && KeysValid(c, rings) && |rings| == |idx| == |ks| == |keys|
    && (forall i :: 0 <= i < |rings| ==> 0 <= idx[i] < |rings[i]|)
    && (forall i :: 0 <= i < |rings| ==> 0 < ks[i] < c.n && 0 < keys[i] < c.n)
  }

  /** The values drawn at random: one table before the walk, another as it wraps around. */
  predicate Draws<P>(rings: seq<seq<P>>, draws: seq<seq<int>>, n: int) {
    && |draws| == |rings| && (forall i :: 0 <= i < |rings| ==> |draws[i]| == |rings[i]|)
    && (forall i, j :: 0 <= i < |rings| && 0 <= j < |draws[i]| ==> 0 <= draws[i][j] < n)
  }

  /** The keys open the rings at their positions; a signer that holds other keys signs nothing valid. */
  ghost predicate KeysOpen<P(!new)>(c: Schnorr<P>, idx: seq<int>, keys: seq<int>, rings: seq<seq<P>>) {
    && |rings| == |idx| == |keys|
    && forall i :: 0 <= i < |rings| ==> 0 <= idx[i] < |rings[i]| && rings[i][idx[i]] == Mul(c.g, keys[i], c.G)
  }

  /** The arguments are accepted, there is a ring, and no step of the walk over what is drawn raises. */
  ghost predicate Completes<P(!new)>(c: Schnorr<P>, h: RingHash<P>, ks: seq<int>, idx: seq<int>, keys: seq<int>, rings: seq<seq<P>>,
                                     draws: seq<seq<int>>, redraws: seq<seq<int>>)
  {
    && Arguments(c, ks, idx, keys, rings) && rings != []
    && Finishes(c, h, -1, rings, Places(idx), ks, draws, redraws)
    && h.close(EndPoints(c, h, -1, rings, draws, Places(idx), ks)) != []
  }

  function Places(idx: seq<int>): (r: seq<nat>)
    requires forall i :: 0 <= i < |idx| ==> 0 <= idx[i]
    ensures r == idx
  {
    seq(|idx|, i requires 0 <= i < |idx| => idx[i])
  }

  /** sign_: a signature comes back exactly where no step raises, it is the one the draws determine, and it is accepted
      if the keys open their rings. */
  method Sign<P(==, !new)>(c: Schnorr<P>, H: Hash<P>, m: Bytes, ks: seq<int>, idx: seq<int>, keys: seq<int>, rings: seq<seq<P>>,
                           draws: seq<seq<int>>, redraws: seq<seq<int>>)
    returns (r: Option<BorromeanSig>)
    requires Laws(c) && Draws(rings, draws, c.n) && Draws(rings, redraws, c.n)
    ensures r.Some? <==> Completes(c, Over(c, H, m), ks, idx, keys, rings, draws, redraws)
    ensures r.Some? ==> WellFormed(r.value, c.n) && SameShape(rings, r.value.s)
    ensures r.Some? ==> ClosedBy(c, Over(c, H, m), -1, rings, r.value.s, r.value.e0, Places(idx), ks, keys, draws, redraws)
    ensures r.Some? && KeysOpen(c, idx, keys, rings) ==> Accepts(c, H, m, rings, r.value)
  {
    if !Arguments(c, ks, idx, keys, rings) { return None; }
    var places := Places(idx);
    var closed := CloseRings(c, Over(c, H, m), -1, rings, ks, keys, places, draws, redraws);
    if closed.None? { return None; }
    var sig := BorromeanSig(closed.value.0, closed.value.1);
    if sig.e0 == [] || sig.s == [] { return None; }
    ScalarsInRange(c, Over(c, H, m), rings, sig, places, ks, keys, draws, redraws);
    if KeysOpen(c, idx, keys, rings) {
      SignedCloses(c, Over(c, H, m), -1, rings, sig.s, sig.e0, places, ks, keys, draws, redraws);
    }
    return Some(sig);
  }

  lemma ScalarsInRange<P(!new)>(c: Schnorr<P>, h: RingHash<P>, rings: seq<seq<P>>, sig: BorromeanSig, idx: seq<nat>, ks: seq<int>, keys: seq<int>,
                                draws: seq<seq<int>>, redraws: seq<seq<int>>)
    requires c.n > 0 && Draws(rings, draws, c.n) && Draws(rings, redraws, c.n) && sig.e0 != [] && sig.s != []
    requires AllSigned(c, h, -1, rings, sig.s, sig.e0, idx, ks, keys, draws, redraws)
    ensures WellFormed(sig, c.n) && SameShape(rings, sig.s)
  {
    forall i | 0 <= i < |rings|
      ensures 0 < |rings[i]| == |sig.s[i]| && forall j :: 0 <= j < |sig.s[i]| ==> 0 <= sig.s[i][j] < c.n
    {
      assert RingSigned(c, h, -1, i, rings[i], sig.s[i], sig.e0, idx[i], ks[i], keys[i], draws[i], redraws[i]);
      forall j | 0 <= j < |sig.s[i]| ensures 0 <= sig.s[i][j] < c.n {
        if j == idx[i] {
          ModCong(ks[i] - -1 * ChallengeAt(c, h, -1, i, rings[i], sig.s[i], sig.e0, j).value * keys[i], c.n);
        }
      }
    }
  }
}
