/** ECDSA on a curve of cofactor one: signing, verifying and recovering the key. */
module Ecdsa {
  import opened Modular
  import opened Groups
  import opened SchnorrGroup

  /** The group, its field size, and the lift of an abscissa to the root of the asked parity. */
  datatype Dsa<!P> = Dsa(c: Schnorr<P>, p: int, lift: (int, bool) -> Option<P>)

  /** Abscissas are field elements, and lifting one with its parity gives the point back. */
  ghost predicate Lifts<P(!new)>(d: Dsa<P>) {
    forall K {:trigger d.c.x(K)} :: d.c.g.has(K) && K != d.c.g.zero ==>
      0 <= d.c.x(K) < d.p && d.lift(d.c.x(K), d.c.odd(K)) == Some(K)
  }

  /** What is lifted is a point of that abscissa and parity. */
  ghost predicate LiftedWell<P(!new)>(d: Dsa<P>) {
    forall x, b {:trigger d.lift(x, b)} :: d.lift(x, b).Some? ==>
      var K := d.lift(x, b).value; d.c.g.has(K) && K != d.c.g.zero && d.c.x(K) == x && d.c.odd(K) == b
  }

  ghost predicate Setting<P(!new)>(d: Dsa<P>) {
    Laws(d.c) && Lifts(d) && LiftedWell(d)
  }

  datatype Signature = Signature(r: int, s: int)

  predicate ValidScalars(sig: Signature, n: int) {
    0 < sig.r < n && 0 < sig.s < n
  }

  function InverseOf(a: int, n: int): int
    requires n > 0
  {
    match Inverse(a, n) case Some(i) => i case None => 0
  }

  /** The signature and the key_id that recovers its key, or None for r = 0 or s = 0. */
  function SignRecoverable<P(!new)>(d: Dsa<P>, c: int, q: int, nonce: int, lowerS: bool): Option<(Signature, int)>
    requires d.c.n > 0
  {
    var n := d.c.n;
    var K := Mul(d.c.g, nonce, d.c.G);
    var r := d.c.x(K) % n;
    if r == 0 then None else
      var s := InverseOf(nonce, n) * (c + r * q) % n;
      if s == 0 then None else
        var keyId := 2 * (d.c.x(K) / n) + (if d.c.odd(K) then 1 else 0);
        if lowerS && s > n / 2 then Some((Signature(r, n - s), if keyId % 2 == 0 then keyId + 1 else keyId - 1))
        else Some((Signature(r, s), keyId))
  }

  /** Verification, the scalars being in 1..n-1. */
  predicate AssertAsValid<P(==, !new)>(d: Dsa<P>, c: int, Q: P, sig: Signature, lowerS: bool)
    requires d.c.n > 0
  {
    var n := d.c.n;
    if lowerS && sig.s > n / 2 then false else
      var w := InverseOf(sig.s, n);
      var K := d.c.g.add(Mul(d.c.g, sig.r * w % n, Q), Mul(d.c.g, c * w % n, d.c.G));
      K != d.c.g.zero && sig.r == d.c.x(K) % n
  }

  /** The key a key_id names, or None for every refusal. */
  function RecoverPubKey<P(==, !new)>(d: Dsa<P>, keyId: int, c: int, sig: Signature, lowerS: bool): Option<P>
    requires d.c.n > 0
  {
    var n := d.c.n;
    if lowerS && sig.s > n / 2 then None else
      var x := sig.r + (keyId / 2) * n;
      if !(0 <= x < d.p) then None else
        match d.lift(x, keyId % 2 == 1)
        case None => None
        case Some(K) =>
          var i := InverseOf(sig.r, n);
          var Q := d.c.g.add(Mul(d.c.g, i * sig.s % n, K), Mul(d.c.g, -i * c % n, d.c.G));
          if Q == d.c.g.zero then None else Some(Q)
  }

  // ---- scalars

  lemma UnitInverse(a: int, n: int)
    requires IsPrime(n) && 0 < a < n
    ensures Cong(a * InverseOf(a, n), 1, n) && 0 < InverseOf(a, n) < n
  {
    SmallMod(a, n);
    PrimeInverse(a, n);
    SmallMod(1, n);
    SmallMod(0, n);
    assert a * 0 == 0;
  }

  lemma Distribute(w: int, c: int, r: int, q: int)
    ensures w * (c + r * q) == (r * w) * q + c * w
  {
    assert w * (c + r * q) == w * c + w * (r * q);
    assert w * (r * q) == (r * w) * q;
  }

  /** u*G + v*(q*G) for u = c*w and v = r*w reduced is w*(c + r*q)*G. */
  lemma CheckPoint<P(!new)>(d: Dsa<P>, c: int, r: int, w: int, q: int)
    requires Setting(d)
    ensures d.c.g.add(Mul(d.c.g, r * w % d.c.n, Mul(d.c.g, q, d.c.G)), Mul(d.c.g, c * w % d.c.n, d.c.G))
         == Mul(d.c.g, w * (c + r * q), d.c.G)
  {
    var Q := Mul(d.c.g, q, d.c.G);
    ReducedMultiple(d.c, r * w, Q);
    ReducedMultiple(d.c, c * w, d.c.G);
    MulMul(d.c.g, r * w, q, d.c.G);
    MulAdd(d.c.g, (r * w) * q, c * w, d.c.G);
    Distribute(w, c, r, q);
  }

  lemma NonceNotZero<P(!new)>(d: Dsa<P>, k: int)
    requires Setting(d) && 0 < k < d.c.n
    ensures Mul(d.c.g, k, d.c.G) != d.c.g.zero
  {
    SmallMod(k, d.c.n);
    if Mul(d.c.g, k, d.c.G) == d.c.g.zero { AnnihilatorIsMultiple(d.c, k); }
  }

  /** A signature's s is the nonce's quotient, or its opposite with the opposite nonce. */
  ghost predicate Quotient(n: int, s: int, k: int, m: int) {
    n > 0 && Cong(s * k, m, n)
  }

  lemma LowerQuotient(n: int, s: int, k: int, m: int)
    requires Quotient(n, s, k, m)
    ensures Quotient(n, n - s, n - k, m)
  {
    assert (n - s) * (n - k) == s * k + (n - s - k) * n;
    CongStep(s * k, n - s - k, n);
  }

  /** s*k = c + r*q makes w*(c + r*q) = k. */
  lemma CheckedNonce(n: int, s: int, k: int, m: int, w: int)
    requires Quotient(n, s, k, m) && Cong(s * w, 1, n)
    ensures Cong(w * m, k, n)
  {
    CongScale(w, s * k, m, n);
    CongScale(k, s * w, 1, n);
    assert w * (s * k) == k * (s * w);
  }

  // ---- verification and recovery from the one equation

  /** s*k = c + r*q, and r is the abscissa of k*G: the signature verifies under q*G. */
  lemma EquationVerifies<P(!new)>(d: Dsa<P>, c: int, q: int, k: int, sig: Signature, lowerS: bool)
    requires Setting(d) && ValidScalars(sig, d.c.n) && (lowerS ==> sig.s <= d.c.n / 2)
    requires Quotient(d.c.n, sig.s, k, c + sig.r * q) && 0 < k < d.c.n
    requires sig.r == d.c.x(Mul(d.c.g, k, d.c.G)) % d.c.n
    ensures AssertAsValid(d, c, Mul(d.c.g, q, d.c.G), sig, lowerS)
  {
    var n, w, m := d.c.n, InverseOf(sig.s, d.c.n), c + sig.r * q;
    UnitInverse(sig.s, n);
    CheckedNonce(n, sig.s, k, m, w);
    CheckPoint(d, c, sig.r, w, q);
    SameMultiple(d.c, w * m, k, d.c.G);
    NonceNotZero(d, k);
  }

  /** r^-1*(s*K - c*G), each scalar reduced, for K = k*G. */
  lemma RecoveredPoint<P(!new)>(d: Dsa<P>, c: int, i: int, s: int, k: int)
    requires Setting(d)
    ensures d.c.g.add(Mul(d.c.g, i * s % d.c.n, Mul(d.c.g, k, d.c.G)), Mul(d.c.g, -i * c % d.c.n, d.c.G))
         == Mul(d.c.g, (i * s) * k + -i * c, d.c.G)
  {
    ReducedMultiple(d.c, i * s, Mul(d.c.g, k, d.c.G));
    ReducedMultiple(d.c, -i * c, d.c.G);
    MulMul(d.c.g, i * s, k, d.c.G);
    MulAdd(d.c.g, (i * s) * k, -i * c, d.c.G);
  }

  lemma RecoveredScalar(n: int, r: int, i: int, s: int, k: int, c: int, q: int)
    requires n > 0 && Cong(r * i, 1, n) && Cong(s * k, c + r * q, n)
    ensures Cong((i * s) * k + -i * c, q, n)
  {
    CongScale(i, s * k, c + r * q, n);
    assert i * (s * k) == (i * s) * k && i * (c + r * q) == i * c + i * (r * q);
    CongAdd((i * s) * k, i * c + i * (r * q), -i * c, -i * c, n);
    assert i * c + -i * c == 0;
    CongScale(q, r * i, 1, n);
    assert q * (r * i) == i * (r * q);
  }

  /** The same equation, read for q: recovery under the key_id of k*G gives q*G. */
  lemma EquationRecovers<P(!new)>(d: Dsa<P>, c: int, q: int, k: int, sig: Signature, lowerS: bool, keyId: int)
    requires Setting(d) && ValidScalars(sig, d.c.n) && (lowerS ==> sig.s <= d.c.n / 2) && 0 < q < d.c.n
    requires Quotient(d.c.n, sig.s, k, c + sig.r * q) && 0 < k < d.c.n
    requires var K := Mul(d.c.g, k, d.c.G);
             sig.r == d.c.x(K) % d.c.n && keyId / 2 == d.c.x(K) / d.c.n && (keyId % 2 == 1) == d.c.odd(K)
    ensures RecoverPubKey(d, keyId, c, sig, lowerS) == Some(Mul(d.c.g, q, d.c.G))
  {
    var n, i, K := d.c.n, InverseOf(sig.r, d.c.n), Mul(d.c.g, k, d.c.G);
    NonceNotZero(d, k);
    NonceNotZero(d, q);
    Candidate(sig.r, keyId, d.c.x(K), n);
    UnitInverse(sig.r, n);
    RecoveredPoint(d, c, i, sig.s, k);
    RecoveredScalar(n, sig.r, i, sig.s, k, c, q);
    SameMultiple(d.c, (i * sig.s) * k + -i * c, q, d.c.G);
  }

  lemma Candidate(r: int, keyId: int, x: int, n: int)
    requires n > 0 && r == x % n && keyId / 2 == x / n
    ensures r + (keyId / 2) * n == x
  {
    assert x == (x / n) * n + x % n;
  }

  /** The quotient the signer computes from the nonce, before any negation. */
  lemma SignedQuotient<P(!new)>(d: Dsa<P>, nonce: int, m: int)
    requires Setting(d) && 0 < nonce < d.c.n
    ensures Quotient(d.c.n, InverseOf(nonce, d.c.n) * m % d.c.n, nonce, m)
  {
    var n, i := d.c.n, InverseOf(nonce, d.c.n);
    UnitInverse(nonce, n);
    ModCong(i * m, n);
    NonceTimes(n, nonce, i, m, i * m % n);
  }

  /** The opposite nonce has the opposite point: same abscissa, other parity. */
  lemma OppositeNonce<P(!new)>(d: Dsa<P>, k: int)
    requires Setting(d) && 0 < k < d.c.n
    ensures var K, L := Mul(d.c.g, k, d.c.G), Mul(d.c.g, d.c.n - k, d.c.G);
            d.c.x(L) == d.c.x(K) && d.c.odd(L) == !d.c.odd(K)
  {
    NonceNotZero(d, k);
    OppositeScalar(d.c, k, d.c.G);
  }

  /** The key_id keeps the quotient of the abscissa, and flipping it flips the parity alone. */
  lemma KeyIdParts(h: int, odd: bool, keyId: int, flipped: int)
    requires keyId == 2 * h + (if odd then 1 else 0) && flipped == if keyId % 2 == 0 then keyId + 1 else keyId - 1
    ensures keyId / 2 == h && (keyId % 2 == 1) == odd && flipped / 2 == h && (flipped % 2 == 1) == !odd
  {
  }

  /** What the signer computes satisfies the equation, for the nonce or, with a low s, its opposite. */
  lemma SignedEquation<P(!new)>(d: Dsa<P>, c: int, q: int, nonce: int, lowerS: bool, sig: Signature, keyId: int) returns (k: int)
    requires Setting(d) && 0 < q < d.c.n && 0 < nonce < d.c.n
    requires SignRecoverable(d, c, q, nonce, lowerS) == Some((sig, keyId))
    ensures ValidScalars(sig, d.c.n) && (lowerS ==> sig.s <= d.c.n / 2) && 0 < k < d.c.n
    ensures Quotient(d.c.n, sig.s, k, c + sig.r * q)
    ensures var K := Mul(d.c.g, k, d.c.G);
            sig.r == d.c.x(K) % d.c.n && keyId / 2 == d.c.x(K) / d.c.n && (keyId % 2 == 1) == d.c.odd(K)
  {
    var n, K := d.c.n, Mul(d.c.g, nonce, d.c.G);
    var h, r := d.c.x(K) / n, d.c.x(K) % n;
    var m := c + r * q;
    var s := InverseOf(nonce, n) * m % n;
    var id := 2 * h + (if d.c.odd(K) then 1 else 0);
    SignedQuotient(d, nonce, m);
    KeyIdParts(h, d.c.odd(K), id, if id % 2 == 0 then id + 1 else id - 1);
    if lowerS && s > n / 2 {
      k := n - nonce;
      OppositeNonce(d, nonce);
      LowerQuotient(n, s, nonce, m);
    } else {
      k := nonce;
    }
  }

  lemma NonceTimes(n: int, k: int, i: int, m: int, s: int)
    requires n > 0 && Cong(k * i, 1, n) && Cong(s, i * m, n)
    ensures Quotient(n, s, k, m)
  {
    CongScale(k, s, i * m, n);
    CongScale(m, k * i, 1, n);
    assert k * (i * m) == m * (k * i) && s * k == k * s;
  }

  /** Every signature that is made verifies, and its key_id recovers exactly the signer's key. */
  lemma SignVerifyRecover<P(!new)>(d: Dsa<P>, c: int, q: int, nonce: int, lowerS: bool)
    requires Setting(d) && 0 < q < d.c.n && 0 < nonce < d.c.n
    ensures match SignRecoverable(d, c, q, nonce, lowerS)
            case None => true
            case Some(out) =>
              && ValidScalars(out.0, d.c.n)
              && AssertAsValid(d, c, Mul(d.c.g, q, d.c.G), out.0, lowerS)
              && RecoverPubKey(d, out.1, c, out.0, lowerS) == Some(Mul(d.c.g, q, d.c.G))
  {
    var signed := SignRecoverable(d, c, q, nonce, lowerS);
    if signed.Some? {
      var sig, keyId := signed.value.0, signed.value.1;
      var k := SignedEquation(d, c, q, nonce, lowerS, sig, keyId);
      EquationVerifies(d, c, q, k, sig, lowerS);
      EquationRecovers(d, c, q, k, sig, lowerS, keyId);
    }
  }

  // ---- what signing answers

  /** The key_id of a nonce point: its abscissa's quotient by n, then a bit for the parity, or for the other one. */
  function KeyIdOf<P(!new)>(d: Dsa<P>, K: P, flipped: bool): int
    requires d.c.n > 0
  {
    2 * (d.c.x(K) / d.c.n) + (if d.c.odd(K) != flipped then 1 else 0)
  }

  /** s is the nonce's own quotient with its key_id, or that quotient is above n/2 and s its opposite under the other parity. */
  ghost predicate SignedAs<P(!new)>(d: Dsa<P>, m: int, nonce: int, s: int, keyId: int, lowerS: bool)
    requires d.c.n > 0
  {
    var n, K := d.c.n, Mul(d.c.g, nonce, d.c.G);
    || (Cong(s * nonce, m, n) && keyId == KeyIdOf(d, K, false) && (lowerS ==> s <= n / 2))
    || (lowerS && Cong((n - s) * nonce, m, n) && n - s > n / 2 && keyId == KeyIdOf(d, K, true))
  }

  /** A signature comes back exactly where neither scalar is zero, and s is negated only where a low one is asked for. */
  lemma SignAnswers<P(!new)>(d: Dsa<P>, c: int, q: int, nonce: int, lowerS: bool)
    requires Setting(d) && 0 < nonce < d.c.n
    ensures var n, out := d.c.n, SignRecoverable(d, c, q, nonce, lowerS);
            var r := d.c.x(Mul(d.c.g, nonce, d.c.G)) % n;
            && (out.Some? <==> r != 0 && (c + r * q) % n != 0)
            && (out.Some? ==> out.value.0.r == r && 0 < out.value.0.s < n && (lowerS ==> out.value.0.s <= n / 2)
                              && SignedAs(d, c + r * q, nonce, out.value.0.s, out.value.1, lowerS))
  {
    var n, K := d.c.n, Mul(d.c.g, nonce, d.c.G);
    var r := d.c.x(K) % n;
    var m := c + r * q;
    var s := InverseOf(nonce, n) * m % n;
    SignedQuotient(d, nonce, m);
    ModCong(d.c.x(K), n);
    ModCong(InverseOf(nonce, n) * m, n);
    QuotientZero(n, InverseOf(nonce, n), nonce, m);
    var id := KeyIdOf(d, K, false);
    KeyIdParts(d.c.x(K) / n, d.c.odd(K), id, if id % 2 == 0 then id + 1 else id - 1);
    if lowerS && s > n / 2 { assert n - (n - s) == s; }
  }

  /** The quotient is zero exactly where what is divided is. */
  lemma QuotientZero(n: int, i: int, k: int, m: int)
    requires n > 0 && Quotient(n, i * m % n, k, m)
    ensures i * m % n == 0 <==> m % n == 0
  {
    if m % n == 0 {
      SmallMod(0, n);
      CongScale(i, m, 0, n);
      assert i * 0 == 0;
    }
    if i * m % n == 0 {
      assert 0 * k == 0;
      SmallMod(0, n);
    }
  }

  // ---- what verifying and recovering ask

  /** A high s is refused by both where a low one is asked for. */
  lemma HighRefused<P(!new)>(d: Dsa<P>, c: int, Q: P, sig: Signature, keyId: int)
    requires d.c.n > 0 && sig.s > d.c.n / 2
    ensures !AssertAsValid(d, c, Q, sig, true) && RecoverPubKey(d, keyId, c, sig, true).None?
  {
  }

  /** A nonce that signs c for q as (r, s). */
  ghost predicate Nonce<P(!new)>(d: Dsa<P>, c: int, q: int, sig: Signature, k: int) {
    0 < k < d.c.n && Cong(sig.s * k, c + sig.r * q, d.c.n) && sig.r == d.c.x(Mul(d.c.g, k, d.c.G)) % d.c.n
  }

  /** A signature is valid under q*G exactly where some nonce signs it, and its s is low if that is asked for. */
  lemma ValidIff<P(!new)>(d: Dsa<P>, c: int, q: int, sig: Signature, lowerS: bool)
    requires Setting(d) && ValidScalars(sig, d.c.n)
    ensures AssertAsValid(d, c, Mul(d.c.g, q, d.c.G), sig, lowerS)
       <==> (lowerS ==> sig.s <= d.c.n / 2) && exists k :: Nonce(d, c, q, sig, k)
  {
    var Q := Mul(d.c.g, q, d.c.G);
    if AssertAsValid(d, c, Q, sig, lowerS) {
      var q', k := ValidEquation(d, c, Q, sig, lowerS);
      MultiplesInjective(d.c, q', q);
      SameKeyScalar(d.c.n, c, sig.r, q', q);
      assert Nonce(d, c, q, sig, k);
    }
    if (lowerS ==> sig.s <= d.c.n / 2) && exists k :: Nonce(d, c, q, sig, k) {
      var k :| Nonce(d, c, q, sig, k);
      EquationVerifies(d, c, q, k, sig, lowerS);
    }
  }

  lemma SameKeyScalar(n: int, c: int, r: int, q: int, q': int)
    requires n > 0 && Cong(q, q', n)
    ensures Cong(c + r * q, c + r * q', n)
  {
    CongScale(r, q, q', n);
    CongAdd(c, c, r * q, r * q', n);
  }

  // ---- recovery and verification agree on any signature

  /** A key that verifies a signature satisfies the equation for some nonce. */
  lemma ValidEquation<P(!new)>(d: Dsa<P>, c: int, Q: P, sig: Signature, lowerS: bool) returns (q: int, k: int)
    requires Setting(d) && ValidScalars(sig, d.c.n) && d.c.g.has(Q) && AssertAsValid(d, c, Q, sig, lowerS)
    ensures Q == Mul(d.c.g, q, d.c.G) && 0 <= q < d.c.n && 0 < k < d.c.n && Quotient(d.c.n, sig.s, k, c + sig.r * q)
    ensures sig.r == d.c.x(Mul(d.c.g, k, d.c.G)) % d.c.n
  {
    var n, w := d.c.n, InverseOf(sig.s, d.c.n);
    var q0 := Discrete(d.c, Q);
    ReducedMultiple(d.c, q0, d.c.G);
    q := q0 % n;
    var m := c + sig.r * q;
    UnitInverse(sig.s, n);
    CheckPoint(d, c, sig.r, w, q);
    ReducedMultiple(d.c, w * m, d.c.G);
    k := w * m % n;
    NonceOfCheck(n, sig.s, w, m, k);
    if k == 0 { MulOne(d.c.g, d.c.G); }
  }

  lemma NonceOfCheck(n: int, s: int, w: int, m: int, k: int)
    requires n > 0 && Cong(s * w, 1, n) && k == w * m % n
    ensures Quotient(n, s, k, m)
  {
    ModCong(w * m, n);
    CongScale(s, k, w * m, n);
    CongScale(m, s * w, 1, n);
    assert s * (w * m) == m * (s * w);
  }

  /** Every key that verifies is recovered by some key_id, and every key that is recovered verifies. */
  lemma RecoverIffVerify<P(!new)>(d: Dsa<P>, c: int, Q: P, sig: Signature, lowerS: bool)
    requires Setting(d) && ValidScalars(sig, d.c.n) && d.c.g.has(Q) && Q != d.c.g.zero
    ensures AssertAsValid(d, c, Q, sig, lowerS) <==> exists keyId :: RecoverPubKey(d, keyId, c, sig, lowerS) == Some(Q)
  {
    if AssertAsValid(d, c, Q, sig, lowerS) {
      var q, k := ValidEquation(d, c, Q, sig, lowerS);
      MulOne(d.c.g, d.c.G);
      var K := Mul(d.c.g, k, d.c.G);
      var keyId := 2 * (d.c.x(K) / d.c.n) + (if d.c.odd(K) then 1 else 0);
      EquationRecovers(d, c, q, k, sig, lowerS, keyId);
    }
    if keyId :| RecoverPubKey(d, keyId, c, sig, lowerS) == Some(Q) {
      RecoveredVerifies(d, keyId, c, Q, sig, lowerS);
    }
  }

  lemma RecoveredVerifies<P(!new)>(d: Dsa<P>, keyId: int, c: int, Q: P, sig: Signature, lowerS: bool)
    requires Setting(d) && ValidScalars(sig, d.c.n) && RecoverPubKey(d, keyId, c, sig, lowerS) == Some(Q)
    ensures AssertAsValid(d, c, Q, sig, lowerS)
  {
    var n, x, i := d.c.n, sig.r + (keyId / 2) * d.c.n, InverseOf(sig.r, d.c.n);
    var K := d.lift(x, keyId % 2 == 1).value;
    var k := NonzeroScalar(d, K);
    UnitInverse(sig.r, n);
    RecoveredPoint(d, c, i, sig.s, k);
    RecoveredQuotient(n, sig.r, i, sig.s, k, c, (i * sig.s) * k + -i * c);
    DivModUnique(x, n, keyId / 2, sig.r);
    EquationVerifies(d, c, (i * sig.s) * k + -i * c, k, sig, lowerS);
  }

  lemma NonzeroScalar<P(!new)>(d: Dsa<P>, K: P) returns (k: int)
    requires Setting(d) && d.c.g.has(K) && K != d.c.g.zero
    ensures 0 < k < d.c.n && K == Mul(d.c.g, k, d.c.G)
  {
    var k0 := Discrete(d.c, K);
    ReducedMultiple(d.c, k0, d.c.G);
    k := k0 % d.c.n;
    if k == 0 { MulOne(d.c.g, d.c.G); }
  }

  lemma RecoveredQuotient(n: int, r: int, i: int, s: int, k: int, c: int, q: int)
    requires n > 0 && Cong(r * i, 1, n) && q == (i * s) * k + -i * c
    ensures Quotient(n, s, k, c + r * q)
  {
    // r*q = (r*i)*(s*k - c) = s*k - c
    var t := s * k - c;
    assert (i * s) * k == i * (s * k) && -i * c == -(i * c);
    assert i * t == i * (s * k) - i * c;
    CongScale(t, r * i, 1, n);
    assert r * (i * t) == t * (r * i);
    CongAdd(c, c, r * q, t, n);
  }

  /** The point a key_id lifts to, where it is lifted at all. */
  function Lifted<P(!new)>(d: Dsa<P>, keyId: int, sig: Signature, lowerS: bool): Option<P> {
    var x := sig.r + (keyId / 2) * d.c.n;
    if (lowerS && sig.s > d.c.n / 2) || !(0 <= x < d.p) then None else d.lift(x, keyId % 2 == 1)
  }

  lemma RecoveredFrom<P(!new)>(d: Dsa<P>, keyId: int, c: int, Q: P, sig: Signature, lowerS: bool)
    requires d.c.n > 0
    ensures var i := InverseOf(sig.r, d.c.n);
            RecoverPubKey(d, keyId, c, sig, lowerS) == Some(Q) <==>
              && Q != d.c.g.zero && Lifted(d, keyId, sig, lowerS).Some?
              && d.c.g.add(Mul(d.c.g, i * sig.s % d.c.n, Lifted(d, keyId, sig, lowerS).value), Mul(d.c.g, -i * c % d.c.n, d.c.G)) == Q
  {
  }

  /** The key a key_id names: the finite Q of s*K = c*G + r*Q, for the K of that parity and of abscissa r + j*n. */
  lemma RecoverIff<P(!new)>(d: Dsa<P>, keyId: int, c: int, Q: P, sig: Signature, lowerS: bool)
    requires Setting(d) && ValidScalars(sig, d.c.n) && d.c.g.has(Q)
    ensures var lifted := Lifted(d, keyId, sig, lowerS);
            RecoverPubKey(d, keyId, c, sig, lowerS) == Some(Q) <==>
              && Q != d.c.g.zero && lifted.Some?
              && Mul(d.c.g, sig.s, lifted.value) == d.c.g.add(Mul(d.c.g, c, d.c.G), Mul(d.c.g, sig.r, Q))
  {
    RecoveredFrom(d, keyId, c, Q, sig, lowerS);
    var lifted := Lifted(d, keyId, sig, lowerS);
    if lifted.Some? {
      LiftedHas(d, keyId, sig, lowerS);
      UnitInverse(sig.r, d.c.n);
      RecoveredEquation(d, c, sig.r, InverseOf(sig.r, d.c.n), sig.s, lifted.value, Q);
    }
  }

  lemma LiftedHas<P(!new)>(d: Dsa<P>, keyId: int, sig: Signature, lowerS: bool)
    requires Setting(d) && Lifted(d, keyId, sig, lowerS).Some?
    ensures d.c.g.has(Lifted(d, keyId, sig, lowerS).value)
    ensures var K := Lifted(d, keyId, sig, lowerS).value;
            d.c.x(K) == sig.r + (keyId / 2) * d.c.n && d.c.odd(K) == (keyId % 2 == 1) && (lowerS ==> sig.s <= d.c.n / 2)
  {
  }

  /** i*s*K - i*c*G is the Q of s*K = c*G + r*Q when i inverts r. */
  lemma RecoveredEquation<P(!new)>(d: Dsa<P>, c: int, r: int, i: int, s: int, K: P, Q: P)
    requires Setting(d) && d.c.g.has(K) && d.c.g.has(Q) && Cong(r * i, 1, d.c.n)
    ensures d.c.g.add(Mul(d.c.g, i * s % d.c.n, K), Mul(d.c.g, -i * c % d.c.n, d.c.G)) == Q
       <==> Mul(d.c.g, s, K) == d.c.g.add(Mul(d.c.g, c, d.c.G), Mul(d.c.g, r, Q))
  {
    var k := Discrete(d.c, K);
    var q := Discrete(d.c, Q);
    RecoveredPoint(d, c, i, s, k);
    MulMul(d.c.g, s, k, d.c.G);
    MulMul(d.c.g, r, q, d.c.G);
    MulAdd(d.c.g, c, r * q, d.c.G);
    RecoveredCong(d.c.n, c, r, i, s, k, q);
    EqualMultiples(d.c, (i * s) * k + -i * c, q);
    EqualMultiples(d.c, s * k, c + r * q);
  }

  lemma EqualMultiples<P(!new)>(c: Schnorr<P>, a: int, b: int)
    requires Laws(c)
    ensures Mul(c.g, a, c.G) == Mul(c.g, b, c.G) <==> Cong(a, b, c.n)
  {
    MulOne(c.g, c.G);
    if Cong(a, b, c.n) { SameMultiple(c, a, b, c.G); }
    if Mul(c.g, a, c.G) == Mul(c.g, b, c.G) { MultiplesInjective(c, a, b); }
  }

  lemma RecoveredCong(n: int, c: int, r: int, i: int, s: int, k: int, q: int)
    requires n > 0 && Cong(r * i, 1, n)
    ensures Cong((i * s) * k + -i * c, q, n) <==> Cong(s * k, c + r * q, n)
  {
    if Cong(s * k, c + r * q, n) { RecoveredScalar(n, r, i, s, k, c, q); }
    if Cong((i * s) * k + -i * c, q, n) {
      var q' := (i * s) * k + -i * c;
      RecoveredQuotient(n, r, i, s, k, c, q');
      SameKeyScalar(n, c, r, q', q);
    }
  }
}
