/** Walking rings of keys around a hash: the verifier's walk, and the signer's that closes it.

    Borromean signatures walk at -e and range proofs at +e; both close every ring on one e0. */
module RingWalk {
  import opened Modular
  import opened Groups
  import opened SchnorrGroup
  import opened Octets

  datatype RingInput<+P> = FromE0(e0: Bytes) | FromPoint(R: P)

  /** The two hashes over one message: None is a challenge that is refused. */
  datatype RingHash<!P> = RingHash(challenge: (RingInput<P>, nat, nat) -> Option<int>, close: seq<P> -> Bytes)

  /** sign*e*Q + s*G. */
  function Spot<P(!new)>(c: Schnorr<P>, sign: int, e: int, Q: P, s: int): P {
    c.g.add(Mul(c.g, sign * e, Q), Mul(c.g, s, c.G))
  }

  /** The point at the end of the ring, from the challenge of position j; None for an error. */
  function Walk<P(==, !new)>(c: Schnorr<P>, h: RingHash<P>, sign: int, i: nat, ring: seq<P>, s: seq<int>, j: nat, e: int): Option<P>
    requires j < |ring| == |s|
    decreases |ring| - j, 0
  {
    var t := Spot(c, sign, e, ring[j], s[j]);
    if t == c.g.zero then None else After(c, h, sign, i, ring, s, j, t)
  }

  /** The same, from the point of position j. */
  function After<P(==, !new)>(c: Schnorr<P>, h: RingHash<P>, sign: int, i: nat, ring: seq<P>, s: seq<int>, j: nat, R: P): Option<P>
    requires j < |ring| == |s|
    decreases |ring| - j - 1, 1
  {
    if j + 1 == |ring| then Some(R) else
      match h.challenge(FromPoint(R), i, j + 1)
      case None => None
      case Some(e) => Walk(c, h, sign, i, ring, s, j + 1, e)
  }

  /** The challenge of position j of a signature's ring. */
  function ChallengeAt<P(==, !new)>(c: Schnorr<P>, h: RingHash<P>, sign: int, i: nat, ring: seq<P>, s: seq<int>, e0: Bytes, j: nat): Option<int>
    requires j < |ring| == |s|
    decreases j
  {
    if j == 0 then h.challenge(FromE0(e0), i, 0) else
      match ChallengeAt(c, h, sign, i, ring, s, e0, j - 1)
      case None => None
      case Some(e) =>
        var t := Spot(c, sign, e, ring[j - 1], s[j - 1]);
        if t == c.g.zero then None else h.challenge(FromPoint(t), i, j)
  }

  function EndOf<P(==, !new)>(c: Schnorr<P>, h: RingHash<P>, sign: int, i: nat, ring: seq<P>, s: seq<int>, e0: Bytes): Option<P>
    requires 0 < |ring| == |s|
  {
    match ChallengeAt(c, h, sign, i, ring, s, e0, 0)
    case None => None
    case Some(e) => Walk(c, h, sign, i, ring, s, 0, e)
  }

  predicate SameShape<P>(rings: seq<seq<P>>, s: seq<seq<int>>) {
    |rings| == |s| && forall i :: 0 <= i < |rings| ==> 0 < |rings[i]| == |s[i]|
  }

  /** Every ring walks from e0 to a point, and the points hash back to e0. */
  ghost predicate Closes<P(!new)>(c: Schnorr<P>, h: RingHash<P>, sign: int, rings: seq<seq<P>>, s: seq<seq<int>>, e0: Bytes)
    requires SameShape(rings, s)
  {
    && (forall i :: 0 <= i < |rings| ==> EndOf(c, h, sign, i, rings[i], s[i], e0).Some?)
    && h.close(seq(|rings|, i requires 0 <= i < |rings| => PointOf(EndOf(c, h, sign, i, rings[i], s[i], e0), c.G))) == e0
  }

  function PointOf<P>(r: Option<P>, default: P): P {
    match r case Some(p) => p case None => default
  }

  // ---- closing, as equations over all positions at once

  /** The challenges and the points of one ring: each challenge reads e0 or the point before it, with its ring and its position. */
  ghost predicate RingEquations<P(!new)>(c: Schnorr<P>, h: RingHash<P>, sign: int, i: nat, ring: seq<P>, s: seq<int>, e0: Bytes, es: seq<int>, Rs: seq<P>) {
    && 0 < |ring| == |s| == |es| == |Rs|
    && h.challenge(FromE0(e0), i, 0) == Some(es[0])
    && (forall j {:trigger es[j]} :: 0 < j < |ring| ==> h.challenge(FromPoint(Rs[j - 1]), i, j) == Some(es[j]))
    && forall j {:trigger Rs[j]} :: 0 <= j < |ring| ==>
         Rs[j] != c.g.zero && Rs[j] == c.g.add(Mul(c.g, sign * es[j], ring[j]), Mul(c.g, s[j], c.G))
  }

  /** From the equations, the end of the walk that starts at a position. */
  lemma {:induction false} EquationsWalk<P(!new)>(c: Schnorr<P>, h: RingHash<P>, sign: int, i: nat, ring: seq<P>, s: seq<int>, e0: Bytes, es: seq<int>, Rs: seq<P>, j: nat)
    requires RingEquations(c, h, sign, i, ring, s, e0, es, Rs) && j < |ring|
    ensures Walk(c, h, sign, i, ring, s, j, es[j]) == Some(Rs[|ring| - 1])
    decreases |ring| - j
  {
    assert Rs[j] == Spot(c, sign, es[j], ring[j], s[j]);
    if j + 1 < |ring| {
      assert h.challenge(FromPoint(Rs[j + 1 - 1]), i, j + 1) == Some(es[j + 1]);
      EquationsWalk(c, h, sign, i, ring, s, e0, es, Rs, j + 1);
    }
  }

  /** The same equations from position j on. */
  ghost predicate StepsFrom<P(!new)>(c: Schnorr<P>, h: RingHash<P>, sign: int, i: nat, ring: seq<P>, s: seq<int>, j: nat, es: seq<int>, Rs: seq<P>) {
    && j < |ring| == |s| && |es| == |Rs| == |ring| - j
    && (forall k {:trigger es[k]} :: 0 < k < |es| ==> h.challenge(FromPoint(Rs[k - 1]), i, j + k) == Some(es[k]))
    && forall k {:trigger Rs[k]} :: 0 <= k < |Rs| ==> Rs[k] != c.g.zero && Rs[k] == Spot(c, sign, es[k], ring[j + k], s[j + k])
  }

  lemma StepBefore<P(!new)>(c: Schnorr<P>, h: RingHash<P>, sign: int, i: nat, ring: seq<P>, s: seq<int>, j: nat, e: int, R: P, es: seq<int>, Rs: seq<P>)
    requires StepsFrom(c, h, sign, i, ring, s, j + 1, es, Rs) && R != c.g.zero && R == Spot(c, sign, e, ring[j], s[j])
    requires h.challenge(FromPoint(R), i, j + 1) == Some(es[0])
    ensures StepsFrom(c, h, sign, i, ring, s, j, [e] + es, [R] + Rs)
  {
    var es', Rs' := [e] + es, [R] + Rs;
    forall k | 0 < k < |es'| ensures h.challenge(FromPoint(Rs'[k - 1]), i, j + k) == Some(es'[k]) {
      assert es'[k] == es[k - 1];
      if k > 1 { assert Rs'[k - 1] == Rs[k - 2] && h.challenge(FromPoint(Rs[k - 2]), i, j + 1 + (k - 1)) == Some(es[k - 1]); }
    }
    forall k | 0 <= k < |Rs'| ensures Rs'[k] != c.g.zero && Rs'[k] == Spot(c, sign, es'[k], ring[j + k], s[j + k]) {
      if k > 0 { assert Rs'[k] == Rs[k - 1] && es'[k] == es[k - 1]; }
    }
  }

  /** From a walk that ends, the challenges and points met from a position on. */
  lemma {:induction false} WalkSteps<P(!new)>(c: Schnorr<P>, h: RingHash<P>, sign: int, i: nat, ring: seq<P>, s: seq<int>, j: nat, e: int) returns (es: seq<int>, Rs: seq<P>)
    requires j < |ring| == |s| && Walk(c, h, sign, i, ring, s, j, e).Some?
    ensures StepsFrom(c, h, sign, i, ring, s, j, es, Rs) && es[0] == e
    decreases |ring| - j
  {
    var R := Spot(c, sign, e, ring[j], s[j]);
    if j + 1 == |ring| {
      es, Rs := [e], [R];
    } else {
      es, Rs := WalkSteps(c, h, sign, i, ring, s, j + 1, h.challenge(FromPoint(R), i, j + 1).value);
      StepBefore(c, h, sign, i, ring, s, j, e, R, es, Rs);
      es, Rs := [e] + es, [R] + Rs;
    }
  }

  ghost predicate AllEquations<P(!new)>(c: Schnorr<P>, h: RingHash<P>, sign: int, rings: seq<seq<P>>, s: seq<seq<int>>, e0: Bytes, es: seq<seq<int>>, Rs: seq<seq<P>>) {
    && |rings| == |s| == |es| == |Rs|
    && forall i :: 0 <= i < |rings| ==> RingEquations(c, h, sign, i, rings[i], s[i], e0, es[i], Rs[i])
  }

  /** The last point of every ring. */
  function Lasts<P>(Rs: seq<seq<P>>): (r: seq<P>)
    requires forall i :: 0 <= i < |Rs| ==> Rs[i] != []
    ensures |r| == |Rs|
  {
    seq(|Rs|, i requires 0 <= i < |Rs| => Rs[i][|Rs[i]| - 1])
  }

  /** Rings close exactly where some challenges and points satisfy every equation and the last points hash to e0. */
  lemma ClosesIff<P(!new)>(c: Schnorr<P>, h: RingHash<P>, sign: int, rings: seq<seq<P>>, s: seq<seq<int>>, e0: Bytes)
    requires SameShape(rings, s)
    ensures Closes(c, h, sign, rings, s, e0) <==>
      exists es, Rs :: AllEquations(c, h, sign, rings, s, e0, es, Rs) && h.close(Lasts(Rs)) == e0
  {
    if Closes(c, h, sign, rings, s, e0) {
      var es, Rs := EquationsOf(c, h, sign, rings, s, e0);
      EquationsEnd(c, h, sign, rings, s, e0, es, Rs);
    }
    if es, Rs :| AllEquations(c, h, sign, rings, s, e0, es, Rs) && h.close(Lasts(Rs)) == e0 {
      EquationsEnd(c, h, sign, rings, s, e0, es, Rs);
    }
  }

  lemma EquationsEnd<P(!new)>(c: Schnorr<P>, h: RingHash<P>, sign: int, rings: seq<seq<P>>, s: seq<seq<int>>, e0: Bytes, es: seq<seq<int>>, Rs: seq<seq<P>>)
    requires SameShape(rings, s) && AllEquations(c, h, sign, rings, s, e0, es, Rs)
    ensures forall i :: 0 <= i < |rings| ==> EndOf(c, h, sign, i, rings[i], s[i], e0).Some?
    ensures seq(|rings|, i requires 0 <= i < |rings| => PointOf(EndOf(c, h, sign, i, rings[i], s[i], e0), c.G)) == Lasts(Rs)
  {
    forall i | 0 <= i < |rings| ensures EndOf(c, h, sign, i, rings[i], s[i], e0) == Some(Lasts(Rs)[i]) {
      assert RingEquations(c, h, sign, i, rings[i], s[i], e0, es[i], Rs[i]);
      EquationsWalk(c, h, sign, i, rings[i], s[i], e0, es[i], Rs[i], 0);
    }
  }

  lemma EquationsOf<P(!new)>(c: Schnorr<P>, h: RingHash<P>, sign: int, rings: seq<seq<P>>, s: seq<seq<int>>, e0: Bytes) returns (es: seq<seq<int>>, Rs: seq<seq<P>>)
    requires SameShape(rings, s) && forall i :: 0 <= i < |rings| ==> EndOf(c, h, sign, i, rings[i], s[i], e0).Some?
    ensures AllEquations(c, h, sign, rings, s, e0, es, Rs)
  {
    es, Rs := [], [];
    for i := 0 to |rings|
      invariant |es| == |Rs| == i
      invariant forall k :: 0 <= k < i ==> RingEquations(c, h, sign, k, rings[k], s[k], e0, es[k], Rs[k])
    {
      var e, R := EquationsOfRing(c, h, sign, i, rings[i], s[i], e0);
      es, Rs := es + [e], Rs + [R];
    }
  }

  lemma EquationsOfRing<P(!new)>(c: Schnorr<P>, h: RingHash<P>, sign: int, i: nat, ring: seq<P>, s: seq<int>, e0: Bytes) returns (es: seq<int>, Rs: seq<P>)
    requires 0 < |ring| == |s| && EndOf(c, h, sign, i, ring, s, e0).Some?
    ensures RingEquations(c, h, sign, i, ring, s, e0, es, Rs)
  {
    es, Rs := WalkSteps(c, h, sign, i, ring, s, 0, h.challenge(FromE0(e0), i, 0).value);
    forall j | 0 < j < |ring| ensures h.challenge(FromPoint(Rs[j - 1]), i, j) == Some(es[j]) {
      assert h.challenge(FromPoint(Rs[j - 1]), i, 0 + j) == Some(es[j]);
    }
    forall j | 0 <= j < |ring| ensures Rs[j] == c.g.add(Mul(c.g, sign * es[j], ring[j]), Mul(c.g, s[j], c.G)) {
      assert Rs[j] == Spot(c, sign, es[j], ring[0 + j], s[0 + j]);
    }
  }

  // ---- the walk reads only what is ahead of it

  lemma {:induction false} WalkAgrees<P(!new)>(c: Schnorr<P>, h: RingHash<P>, sign: int, i: nat, ring: seq<P>, s: seq<int>, s': seq<int>, j: nat, R: P)
    requires j < |ring| == |s| == |s'| && forall k :: j < k < |ring| ==> s[k] == s'[k]
    ensures After(c, h, sign, i, ring, s, j, R) == After(c, h, sign, i, ring, s', j, R)
    decreases |ring| - j
  {
    if j + 1 < |ring| {
      match h.challenge(FromPoint(R), i, j + 1)
      case None =>
      case Some(e) => WalkAgrees(c, h, sign, i, ring, s, s', j + 1, Spot(c, sign, e, ring[j + 1], s[j + 1]));
    }
  }

  /** The walk from e0 passes through the challenge of every position. */
  lemma {:induction false} PassesThrough<P(!new)>(c: Schnorr<P>, h: RingHash<P>, sign: int, i: nat, ring: seq<P>, s: seq<int>, e0: Bytes, j: nat)
    requires j < |ring| == |s|
    ensures match ChallengeAt(c, h, sign, i, ring, s, e0, j)
            case Some(e) => EndOf(c, h, sign, i, ring, s, e0) == Walk(c, h, sign, i, ring, s, j, e)
            case None => EndOf(c, h, sign, i, ring, s, e0) == None
    decreases j
  {
    if j > 0 { PassesThrough(c, h, sign, i, ring, s, e0, j - 1); }
  }

  lemma {:induction false} ChallengeAgrees<P(!new)>(c: Schnorr<P>, h: RingHash<P>, sign: int, i: nat, ring: seq<P>, s: seq<int>, s': seq<int>, e0: Bytes, j: nat)
    requires j < |ring| == |s| == |s'| && forall k :: 0 <= k < j ==> s[k] == s'[k]
    ensures ChallengeAt(c, h, sign, i, ring, s, e0, j) == ChallengeAt(c, h, sign, i, ring, s', e0, j)
    decreases j
  {
    if j > 0 { ChallengeAgrees(c, h, sign, i, ring, s, s', e0, j - 1); }
  }

  /** The signer's scalar puts its own nonce point at its position. */
  lemma SignerSpot<P(!new)>(c: Schnorr<P>, sign: int, e: int, key: int, k: int, s: int)
    requires Laws(c) && Cong(s, k - sign * e * key, c.n)
    ensures Spot(c, sign, e, Mul(c.g, key, c.G), s) == Mul(c.g, k, c.G)
  {
    MulMul(c.g, sign * e, key, c.G);
    SameMultiple(c, s, k - sign * e * key, c.G);
    MulAdd(c.g, sign * e * key, k - sign * e * key, c.G);
  }

  lemma NonceNotZero<P(!new)>(c: Schnorr<P>, k: int)
    requires Laws(c) && 0 < k < c.n
    ensures Mul(c.g, k, c.G) != c.g.zero
  {
    SmallMod(k, c.n);
    if Mul(c.g, k, c.G) == c.g.zero { AnnihilatorIsMultiple(c, k); }
  }

  // ---- signing

  /** Step one for a ring: from the signer's nonce point to the end of the ring. */
  method ForwardTail<P(==, !new)>(c: Schnorr<P>, h: RingHash<P>, sign: int, i: nat, ring: seq<P>, s: seq<int>, j0: nat, k: int) returns (r: Option<P>)
    requires j0 < |ring| == |s|
    ensures r == After(c, h, sign, i, ring, s, j0, Mul(c.g, k, c.G))
  {
    var R := Mul(c.g, k, c.G);
    for j := j0 + 1 to |ring|
      invariant After(c, h, sign, i, ring, s, j0, Mul(c.g, k, c.G)) == After(c, h, sign, i, ring, s, j - 1, R)
    {
      var e := h.challenge(FromPoint(R), i, j);
      if e.None? { return None; }
      var t := Spot(c, sign, e.value, ring[j], s[j]);
      if t == c.g.zero { return None; }
      R := t;
    }
    return Some(R);
  }

  /** Step two: from e0 to the signer, the scalars on the way being drawn again. */
  method WrapAround<P(==, !new)>(c: Schnorr<P>, h: RingHash<P>, sign: int, i: nat, ring: seq<P>, s0: seq<int>, j0: nat, e0: Bytes, drawn: seq<int>)
    returns (s: seq<int>, e: Option<int>)
    requires j0 < |ring| == |s0| == |drawn|
    ensures |s| == |s0| && (forall k :: j0 <= k < |s| ==> s[k] == s0[k])
    ensures e.Some? ==> forall k :: 0 <= k < j0 ==> s[k] == drawn[k]
    ensures e == ChallengeAt(c, h, sign, i, ring, drawn, e0, j0)
  {
    s := s0;
    e := h.challenge(FromE0(e0), i, 0);
    if e.None? { NoLaterChallenge(c, h, sign, i, ring, drawn, e0, 0, j0); return s, None; }
    for j := 0 to j0
      invariant |s| == |s0| && forall k :: j0 <= k < |s| ==> s[k] == s0[k]
      invariant forall k :: 0 <= k < j ==> s[k] == drawn[k]
      invariant e.Some? && ChallengeAt(c, h, sign, i, ring, drawn, e0, j) == e
    {
      s := s[j := drawn[j]];
      e := NextChallenge(c, h, sign, i, ring, drawn, e0, j, e.value);
      if e.None? { NoLaterChallenge(c, h, sign, i, ring, drawn, e0, j + 1, j0); return s, None; }
    }
  }

  /** Where the walk has stopped there is no challenge further on. */
  lemma {:induction false} NoLaterChallenge<P(!new)>(c: Schnorr<P>, h: RingHash<P>, sign: int, i: nat, ring: seq<P>, s: seq<int>, e0: Bytes, j: nat, k: nat)
    requires j <= k < |ring| == |s| && ChallengeAt(c, h, sign, i, ring, s, e0, j).None?
    ensures ChallengeAt(c, h, sign, i, ring, s, e0, k).None?
    decreases k
  {
    if j < k { NoLaterChallenge(c, h, sign, i, ring, s, e0, j, k - 1); }
  }

  method NextChallenge<P(==, !new)>(c: Schnorr<P>, h: RingHash<P>, sign: int, i: nat, ring: seq<P>, s: seq<int>, ghost e0: Bytes, j: nat, e: int)
    returns (next: Option<int>)
    requires j + 1 < |ring| == |s| && ChallengeAt(c, h, sign, i, ring, s, e0, j) == Some(e)
    ensures next == ChallengeAt(c, h, sign, i, ring, s, e0, j + 1)
  {
    var t := Spot(c, sign, e, ring[j], s[j]);
    if t == c.g.zero { return None; }
    return h.challenge(FromPoint(t), i, j + 1);
  }

  /** One ring's answer: forged scalars around the signer's own. */
  ghost predicate RingSigned<P(!new)>(c: Schnorr<P>, h: RingHash<P>, sign: int, i: nat, ring: seq<P>, s: seq<int>, e0: Bytes,
                                      j0: nat, k: int, key: int, forward: seq<int>, wrapped: seq<int>)
    requires c.n > 0
  {
    && j0 < |ring| == |s| == |forward| == |wrapped|
    && (forall j :: 0 <= j < j0 ==> s[j] == wrapped[j]) && (forall j :: j0 < j < |s| ==> s[j] == forward[j])
    && ChallengeAt(c, h, sign, i, ring, s, e0, j0).Some?
    && s[j0] == (k - sign * ChallengeAt(c, h, sign, i, ring, s, e0, j0).value * key) % c.n
  }

  /** Where the signer's key is its ring's, the verifier's walk ends where the signer's did. */
  lemma SignedRingEnds<P(!new)>(c: Schnorr<P>, h: RingHash<P>, sign: int, i: nat, ring: seq<P>, s: seq<int>, e0: Bytes,
                                j0: nat, k: int, key: int, forward: seq<int>, wrapped: seq<int>)
    requires Laws(c) && 0 < k < c.n && RingSigned(c, h, sign, i, ring, s, e0, j0, k, key, forward, wrapped)
    requires ring[j0] == Mul(c.g, key, c.G)
    ensures EndOf(c, h, sign, i, ring, s, e0) == After(c, h, sign, i, ring, forward, j0, Mul(c.g, k, c.G))
  {
    var e := ChallengeAt(c, h, sign, i, ring, s, e0, j0).value;
    PassesThrough(c, h, sign, i, ring, s, e0, j0);
    ModCong(k - sign * e * key, c.n);
    SignerSpot(c, sign, e, key, k, s[j0]);
    NonceNotZero(c, k);
    WalkAgrees(c, h, sign, i, ring, s, forward, j0, Mul(c.g, k, c.G));
  }

  predicate Indexes<P>(rings: seq<seq<P>>, idx: seq<nat>) {
    |rings| == |idx| && forall i :: 0 <= i < |rings| ==> idx[i] < |rings[i]|
  }

  ghost predicate AllSigned<P(!new)>(c: Schnorr<P>, h: RingHash<P>, sign: int, rings: seq<seq<P>>, s: seq<seq<int>>, e0: Bytes,
                                     idx: seq<nat>, ks: seq<int>, keys: seq<int>, forward: seq<seq<int>>, wrapped: seq<seq<int>>)
    requires c.n > 0
  {
    && |rings| == |s| == |idx| == |ks| == |keys| == |forward| == |wrapped|
    && forall i :: 0 <= i < |rings| ==> RingSigned(c, h, sign, i, rings[i], s[i], e0, idx[i], ks[i], keys[i], forward[i], wrapped[i])
  }

  /** What step one hands to the hash that answers e0. */
  function Ends<P(==, !new)>(c: Schnorr<P>, h: RingHash<P>, sign: int, rings: seq<seq<P>>, forward: seq<seq<int>>, idx: seq<nat>, ks: seq<int>, i: nat): Option<P>
    requires SameShape(rings, forward) && Indexes(rings, idx) && |ks| == |rings| && i < |rings|
  {
    After(c, h, sign, i, rings[i], forward[i], idx[i], Mul(c.g, ks[i], c.G))
  }

  function EndPoints<P(==, !new)>(c: Schnorr<P>, h: RingHash<P>, sign: int, rings: seq<seq<P>>, forward: seq<seq<int>>, idx: seq<nat>, ks: seq<int>): seq<P>
    requires SameShape(rings, forward) && Indexes(rings, idx) && |ks| == |rings|
  {
    seq(|rings|, i requires 0 <= i < |rings| => PointOf(Ends(c, h, sign, rings, forward, idx, ks, i), c.G))
  }

  /** What a signer's two steps leave: every ring signed, and e0 the hash of the ends of step one. */
  ghost predicate ClosedBy<P(!new)>(c: Schnorr<P>, h: RingHash<P>, sign: int, rings: seq<seq<P>>, s: seq<seq<int>>, e0: Bytes,
                                    idx: seq<nat>, ks: seq<int>, keys: seq<int>, forward: seq<seq<int>>, wrapped: seq<seq<int>>)
    requires c.n > 0
  {
    && SameShape(rings, forward) && Indexes(rings, idx)
    && AllSigned(c, h, sign, rings, s, e0, idx, ks, keys, forward, wrapped)
    && (forall i :: 0 <= i < |rings| ==> Ends(c, h, sign, rings, forward, idx, ks, i).Some?)
    && e0 == h.close(EndPoints(c, h, sign, rings, forward, idx, ks))
  }

  /** Close every ring: None for an error, else e0 and the scalars. */
  method CloseRings<P(==, !new)>(c: Schnorr<P>, h: RingHash<P>, sign: int, rings: seq<seq<P>>, ks: seq<int>, keys: seq<int>, idx: seq<nat>,
                                 forward: seq<seq<int>>, wrapped: seq<seq<int>>)
    returns (r: Option<(Bytes, seq<seq<int>>)>)
    requires c.n > 0 && SameShape(rings, forward) && SameShape(rings, wrapped) && Indexes(rings, idx)
    requires |ks| == |keys| == |rings|
    ensures r.Some? <==> Finishes(c, h, sign, rings, idx, ks, forward, wrapped)
    ensures r.Some? ==> ClosedBy(c, h, sign, rings, r.value.1, r.value.0, idx, ks, keys, forward, wrapped)
  {
    var points: seq<P> := [];
    for i := 0 to |rings|
      invariant |points| == i
      invariant forall l :: 0 <= l < i ==> Ends(c, h, sign, rings, forward, idx, ks, l) == Some(points[l])
    {
      var R := ForwardTail(c, h, sign, i, rings[i], forward[i], idx[i], ks[i]);
      assert R == Ends(c, h, sign, rings, forward, idx, ks, i);
      if R.None? { return None; }
      points := points + [R.value];
    }
    assert points == EndPoints(c, h, sign, rings, forward, idx, ks);
    var e0 := h.close(points);
    var s := WrapRings(c, h, sign, rings, ks, keys, idx, forward, wrapped, e0);
    if s.None? { return None; }
    return Some((e0, s.value));
  }

  /** Step two for every ring. */
  method WrapRings<P(==, !new)>(c: Schnorr<P>, h: RingHash<P>, sign: int, rings: seq<seq<P>>, ks: seq<int>, keys: seq<int>, idx: seq<nat>,
                                forward: seq<seq<int>>, wrapped: seq<seq<int>>, e0: Bytes)
    returns (r: Option<seq<seq<int>>>)
    requires c.n > 0 && SameShape(rings, forward) && SameShape(rings, wrapped) && Indexes(rings, idx)
    requires |ks| == |keys| == |rings|
    ensures r.Some? <==> forall i :: 0 <= i < |rings| ==> ChallengeAt(c, h, sign, i, rings[i], wrapped[i], e0, idx[i]).Some?
    ensures r.Some? ==> AllSigned(c, h, sign, rings, r.value, e0, idx, ks, keys, forward, wrapped)
  {
    var s := forward;
    for i := 0 to |rings|
      invariant |s| == |rings| && forall l :: i <= l < |rings| ==> s[l] == forward[l]
      invariant forall l :: 0 <= l < i ==> ChallengeAt(c, h, sign, l, rings[l], wrapped[l], e0, idx[l]).Some?
      invariant forall l :: 0 <= l < i ==> RingSigned(c, h, sign, l, rings[l], s[l], e0, idx[l], ks[l], keys[l], forward[l], wrapped[l])
    {
      var ring := CloseRing(c, h, sign, i, rings[i], forward[i], idx[i], e0, wrapped[i], ks[i], keys[i]);
      if ring.None? { return None; }
      s := s[i := ring.value];
    }
    return Some(s);
  }

  method CloseRing<P(==, !new)>(c: Schnorr<P>, h: RingHash<P>, sign: int, i: nat, ring: seq<P>, forward: seq<int>, j0: nat, e0: Bytes,
                                wrapped: seq<int>, k: int, key: int)
    returns (r: Option<seq<int>>)
    requires c.n > 0 && j0 < |ring| == |forward| == |wrapped|
    ensures r.Some? <==> ChallengeAt(c, h, sign, i, ring, wrapped, e0, j0).Some?
    ensures r.Some? ==> RingSigned(c, h, sign, i, ring, r.value, e0, j0, k, key, forward, wrapped)
  {
    var s, e := WrapAround(c, h, sign, i, ring, forward, j0, e0, wrapped);
    if e.None? { return None; }
    s := s[j0 := (k - sign * e.value * key) % c.n];
    ChallengeAgrees(c, h, sign, i, ring, wrapped, s, e0, j0);
    return Some(s);
  }

  /** Where both steps end: every ring walks forward to its end, and from the hash of the ends round to its signer. */
  ghost predicate Finishes<P(!new)>(c: Schnorr<P>, h: RingHash<P>, sign: int, rings: seq<seq<P>>, idx: seq<nat>, ks: seq<int>,
                                    forward: seq<seq<int>>, wrapped: seq<seq<int>>)
  {
    && SameShape(rings, forward) && SameShape(rings, wrapped) && Indexes(rings, idx) && |ks| == |rings|
    && (forall i :: 0 <= i < |rings| ==> Ends(c, h, sign, rings, forward, idx, ks, i).Some?)
    && var e0 := h.close(EndPoints(c, h, sign, rings, forward, idx, ks));
       forall i :: 0 <= i < |rings| ==> ChallengeAt(c, h, sign, i, rings[i], wrapped[i], e0, idx[i]).Some?
  }

  /** The scalars of a signed ring are determined by what is drawn. */
  lemma RingDetermined<P(!new)>(c: Schnorr<P>, h: RingHash<P>, sign: int, i: nat, ring: seq<P>, s: seq<int>, e0: Bytes,
                                j0: nat, k: int, key: int, forward: seq<int>, wrapped: seq<int>)
    requires c.n > 0 && RingSigned(c, h, sign, i, ring, s, e0, j0, k, key, forward, wrapped)
    ensures var e := ChallengeAt(c, h, sign, i, ring, wrapped, e0, j0);
            e.Some? && s == wrapped[..j0] + [(k - sign * e.value * key) % c.n] + forward[j0 + 1..]
  {
    ChallengeAgrees(c, h, sign, i, ring, s, wrapped, e0, j0);
  }

  /** No signer's own scalar is zero. */
  ghost predicate SignersNonzero<P(!new)>(c: Schnorr<P>, h: RingHash<P>, sign: int, rings: seq<seq<P>>, idx: seq<nat>, ks: seq<int>, keys: seq<int>,
                                          forward: seq<seq<int>>, wrapped: seq<seq<int>>)
    requires c.n > 0 && |keys| == |rings| && Finishes(c, h, sign, rings, idx, ks, forward, wrapped)
  {
    var e0 := h.close(EndPoints(c, h, sign, rings, forward, idx, ks));
    forall i :: 0 <= i < |rings| ==>
      (ks[i] - sign * ChallengeAt(c, h, sign, i, rings[i], wrapped[i], e0, idx[i]).value * keys[i]) % c.n != 0
  }

  predicate NoneZero(s: seq<int>) {
    forall j :: 0 <= j < |s| ==> s[j] != 0
  }

  /** Where nothing zero is drawn, only a signer's own scalar can be. */
  lemma ZeroAtSigner<P(!new)>(c: Schnorr<P>, h: RingHash<P>, sign: int, i: nat, ring: seq<P>, s: seq<int>, e0: Bytes,
                              j0: nat, k: int, key: int, forward: seq<int>, wrapped: seq<int>)
    requires c.n > 0 && RingSigned(c, h, sign, i, ring, s, e0, j0, k, key, forward, wrapped) && NoneZero(forward) && NoneZero(wrapped)
    ensures var e := ChallengeAt(c, h, sign, i, ring, wrapped, e0, j0);
            e.Some? && (NoneZero(s) <==> (k - sign * e.value * key) % c.n != 0)
  {
    RingDetermined(c, h, sign, i, ring, s, e0, j0, k, key, forward, wrapped);
    ChallengeAgrees(c, h, sign, i, ring, s, wrapped, e0, j0);
    if s[j0] != 0 {
      forall j | 0 <= j < |s| ensures s[j] != 0 { if j < j0 { assert s[j] == wrapped[j]; } else if j > j0 { assert s[j] == forward[j]; } }
    }
  }

  lemma ZerosAtSigners<P(!new)>(c: Schnorr<P>, h: RingHash<P>, sign: int, rings: seq<seq<P>>, s: seq<seq<int>>, e0: Bytes,
                                idx: seq<nat>, ks: seq<int>, keys: seq<int>, forward: seq<seq<int>>, wrapped: seq<seq<int>>)
    requires c.n > 0 && ClosedBy(c, h, sign, rings, s, e0, idx, ks, keys, forward, wrapped)
    requires Finishes(c, h, sign, rings, idx, ks, forward, wrapped)
    requires forall i :: 0 <= i < |rings| ==> NoneZero(forward[i]) && NoneZero(wrapped[i])
    ensures (forall i :: 0 <= i < |s| ==> NoneZero(s[i])) <==> SignersNonzero(c, h, sign, rings, idx, ks, keys, forward, wrapped)
  {
    forall i | 0 <= i < |rings|
      ensures NoneZero(s[i]) <==> (ks[i] - sign * ChallengeAt(c, h, sign, i, rings[i], wrapped[i], e0, idx[i]).value * keys[i]) % c.n != 0
    {
      ZeroAtSigner(c, h, sign, i, rings[i], s[i], e0, idx[i], ks[i], keys[i], forward[i], wrapped[i]);
    }
  }

  /** What is closed comes from two steps that end, and nothing else is closed by them. */
  lemma ClosedDetermined<P(!new)>(c: Schnorr<P>, h: RingHash<P>, sign: int, rings: seq<seq<P>>, s: seq<seq<int>>, e0: Bytes,
                                  s': seq<seq<int>>, e0': Bytes, idx: seq<nat>, ks: seq<int>, keys: seq<int>,
                                  forward: seq<seq<int>>, wrapped: seq<seq<int>>)
    requires c.n > 0 && ClosedBy(c, h, sign, rings, s, e0, idx, ks, keys, forward, wrapped)
    ensures Finishes(c, h, sign, rings, idx, ks, forward, wrapped)
    ensures ClosedBy(c, h, sign, rings, s', e0', idx, ks, keys, forward, wrapped) ==> s' == s && e0' == e0
  {
    forall i | 0 <= i < |rings| ensures |wrapped[i]| == |rings[i]| && ChallengeAt(c, h, sign, i, rings[i], wrapped[i], e0, idx[i]).Some? {
      RingDetermined(c, h, sign, i, rings[i], s[i], e0, idx[i], ks[i], keys[i], forward[i], wrapped[i]);
    }
    if ClosedBy(c, h, sign, rings, s', e0', idx, ks, keys, forward, wrapped) {
      forall i | 0 <= i < |rings| ensures s[i] == s'[i] {
        RingDetermined(c, h, sign, i, rings[i], s[i], e0, idx[i], ks[i], keys[i], forward[i], wrapped[i]);
        RingDetermined(c, h, sign, i, rings[i], s'[i], e0, idx[i], ks[i], keys[i], forward[i], wrapped[i]);
      }
    }
  }

  /** Rings closed with keys that match their points close for the verifier. */
  lemma SignedCloses<P(!new)>(c: Schnorr<P>, h: RingHash<P>, sign: int, rings: seq<seq<P>>, s: seq<seq<int>>, e0: Bytes,
                              idx: seq<nat>, ks: seq<int>, keys: seq<int>, forward: seq<seq<int>>, wrapped: seq<seq<int>>)
    requires Laws(c) && ClosedBy(c, h, sign, rings, s, e0, idx, ks, keys, forward, wrapped)
    requires forall i :: 0 <= i < |rings| ==> 0 < ks[i] < c.n && rings[i][idx[i]] == Mul(c.g, keys[i], c.G)
    ensures SameShape(rings, s) && Closes(c, h, sign, rings, s, e0)
  {
    forall i | 0 <= i < |rings|
      ensures 0 < |rings[i]| == |s[i]| && EndOf(c, h, sign, i, rings[i], s[i], e0) == Ends(c, h, sign, rings, forward, idx, ks, i)
    {
      assert RingSigned(c, h, sign, i, rings[i], s[i], e0, idx[i], ks[i], keys[i], forward[i], wrapped[i]);
      SignedRingEnds(c, h, sign, i, rings[i], s[i], e0, idx[i], ks[i], keys[i], forward[i], wrapped[i]);
    }
    assert seq(|rings|, i requires 0 <= i < |rings| => PointOf(EndOf(c, h, sign, i, rings[i], s[i], e0), c.G))
        == EndPoints(c, h, sign, rings, forward, idx, ks);
  }

  // ---- verifying

  lemma EndFromLast<P(!new)>(c: Schnorr<P>, h: RingHash<P>, sign: int, i: nat, ring: seq<P>, s: seq<int>, e0: Bytes, e: int)
    requires 0 < |ring| == |s| && ChallengeAt(c, h, sign, i, ring, s, e0, |ring| - 1) == Some(e)
    ensures var R := Spot(c, sign, e, ring[|ring| - 1], s[|ring| - 1]);
            EndOf(c, h, sign, i, ring, s, e0) == if R == c.g.zero then None else Some(R)
  {
    PassesThrough(c, h, sign, i, ring, s, e0, |ring| - 1);
  }

  /** The challenges of the first |es| positions. */
  ghost predicate MetSoFar<P(!new)>(c: Schnorr<P>, h: RingHash<P>, sign: int, i: nat, ring: seq<P>, s: seq<int>, e0: Bytes, es: seq<int>) {
    0 < |es| <= |ring| == |s| && forall j :: 0 <= j < |es| ==> ChallengeAt(c, h, sign, i, ring, s, e0, j) == Some(es[j])
  }

  /** One more challenge met, or none at the position reached. */
  method ExtendMet<P(==, !new)>(c: Schnorr<P>, h: RingHash<P>, sign: int, i: nat, ring: seq<P>, s: seq<int>, ghost e0: Bytes, es: seq<int>)
    returns (r: Option<seq<int>>)
    requires MetSoFar(c, h, sign, i, ring, s, e0, es) && |es| < |ring|
    ensures r.None? ==> ChallengeAt(c, h, sign, i, ring, s, e0, |es|).None?
    ensures r.Some? ==> |r.value| == |es| + 1 && MetSoFar(c, h, sign, i, ring, s, e0, r.value)
  {
    var e := NextChallenge(c, h, sign, i, ring, s, e0, |es| - 1, es[|es| - 1]);
    if e.None? { return None; }
    return Some(es + [e.value]);
  }

  /** The challenges a ring meets; None where the walk stops. */
  method RingChallenges<P(==, !new)>(c: Schnorr<P>, h: RingHash<P>, sign: int, i: nat, ring: seq<P>, s: seq<int>, e0: Bytes)
    returns (r: Option<seq<int>>, ghost stop: nat)
    requires 0 < |ring| == |s|
    ensures r.None? ==> stop < |ring| && ChallengeAt(c, h, sign, i, ring, s, e0, stop).None?
    ensures r.Some? ==> |r.value| == |ring| && MetSoFar(c, h, sign, i, ring, s, e0, r.value)
  {
    var e := h.challenge(FromE0(e0), i, 0);
    if e.None? { return None, 0; }
    r, stop := Some([e.value]), 0;
    for j := 1 to |ring|
      invariant r.Some? && |r.value| == j && MetSoFar(c, h, sign, i, ring, s, e0, r.value)
    {
      r := ExtendMet(c, h, sign, i, ring, s, e0, r.value);
      if r.None? { return None, j; }
    }
  }

  /** One ring of the verifier's walk: the challenges met and the point at the end. */
  method WalkRing<P(==, !new)>(c: Schnorr<P>, h: RingHash<P>, sign: int, i: nat, ring: seq<P>, s: seq<int>, e0: Bytes)
    returns (r: Option<(seq<int>, P)>)
    requires 0 < |ring| == |s|
    ensures r.Some? <==> EndOf(c, h, sign, i, ring, s, e0).Some?
    ensures r.Some? ==> EndOf(c, h, sign, i, ring, s, e0) == Some(r.value.1) && |r.value.0| == |ring|
    ensures r.Some? ==> forall j :: 0 <= j < |ring| ==> ChallengeAt(c, h, sign, i, ring, s, e0, j) == Some(r.value.0[j])
  {
    var es, stop := RingChallenges(c, h, sign, i, ring, s, e0);
    if es.None? {
      PassesThrough(c, h, sign, i, ring, s, e0, stop);
      return None;
    }
    var last := |ring| - 1;
    var R := Spot(c, sign, es.value[last], ring[last], s[last]);
    EndFromLast(c, h, sign, i, ring, s, e0, es.value[last]);
    return if R == c.g.zero then None else Some((es.value, R));
  }

  /** Every ring, and the hash of their ends against e0: None where the walk does not close. */
  method WalkRings<P(==, !new)>(c: Schnorr<P>, h: RingHash<P>, sign: int, rings: seq<seq<P>>, s: seq<seq<int>>, e0: Bytes)
    returns (r: Option<seq<seq<int>>>)
    requires SameShape(rings, s)
    ensures r.Some? <==> Closes(c, h, sign, rings, s, e0)
    ensures r.Some? ==> |r.value| == |rings| && forall i :: 0 <= i < |rings| ==> |r.value[i]| == |rings[i]|
    ensures r.Some? ==> forall i, j :: 0 <= i < |rings| && 0 <= j < |rings[i]| ==>
      ChallengeAt(c, h, sign, i, rings[i], s[i], e0, j) == Some(r.value[i][j])
  {
    var challenges: seq<seq<int>> := [];
    var points: seq<P> := [];
    for i := 0 to |rings|
      invariant |challenges| == |points| == i
      invariant forall l :: 0 <= l < i ==> EndOf(c, h, sign, l, rings[l], s[l], e0) == Some(points[l]) && |challenges[l]| == |rings[l]|
      invariant forall l, j :: 0 <= l < i && 0 <= j < |rings[l]| ==>
        ChallengeAt(c, h, sign, l, rings[l], s[l], e0, j) == Some(challenges[l][j])
    {
      var ring := WalkRing(c, h, sign, i, rings[i], s[i], e0);
      if ring.None? { return None; }
      challenges, points := challenges + [ring.value.0], points + [ring.value.1];
    }
    assert points == seq(|rings|, i requires 0 <= i < |rings| => PointOf(EndOf(c, h, sign, i, rings[i], s[i], e0), c.G));
    if h.close(points) != e0 { return None; }
    return Some(challenges);
  }
}
