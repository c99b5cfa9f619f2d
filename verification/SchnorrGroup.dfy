/** A group of prime order with a generator and the x-only points of BIP340. */
module SchnorrGroup {
  import opened Modular
  import opened Groups

  datatype Schnorr<!P> = Schnorr(g: Group<P>, n: int, G: P, x: P -> int, odd: P -> bool)

  /** A point and its opposite share their x and differ in the parity of y. */
  ghost predicate Parities<P(!new)>(c: Schnorr<P>) {
    forall Q {:trigger c.g.neg(Q)} :: c.g.has(Q) && Q != c.g.zero ==> c.x(c.g.neg(Q)) == c.x(Q) && c.odd(c.g.neg(Q)) != c.odd(Q)
  }

  ghost predicate IsMultiple<P(!new)>(c: Schnorr<P>, Q: P) {
    exists k: int :: Q == Mul(c.g, k, c.G)
  }

  /** Every point is a multiple of the generator, whose order is the prime n. */
  ghost predicate Generated<P(!new)>(c: Schnorr<P>) {
    && c.g.has(c.G) && c.G != c.g.zero && Mul(c.g, c.n, c.G) == c.g.zero
    && forall Q {:trigger IsMultiple(c, Q)} :: c.g.has(Q) ==> IsMultiple(c, Q)
  }

  ghost predicate Laws<P(!new)>(c: Schnorr<P>) {
    Lawful(c.g) && IsPrime(c.n) && c.n > 2 && Generated(c) && Parities(c)
  }

  lemma Discrete<P(!new)>(c: Schnorr<P>, Q: P) returns (k: int)
    requires Laws(c) && c.g.has(Q)
    ensures Q == Mul(c.g, k, c.G)
  {
    assert IsMultiple(c, Q);
    k :| Q == Mul(c.g, k, c.G);
  }

  lemma OrderOf<P(!new)>(c: Schnorr<P>, Q: P)
    requires Laws(c) && c.g.has(Q)
    ensures Mul(c.g, c.n, Q) == c.g.zero
  {
    var k := Discrete(c, Q);
    OrderOfMultiple(c.g, c.n, k, c.G);
  }

  /** Scalars count modulo n. */
  lemma SameMultiple<P(!new)>(c: Schnorr<P>, a: int, b: int, Q: P)
    requires Laws(c) && c.g.has(Q) && Cong(a, b, c.n)
    ensures Mul(c.g, a, Q) == Mul(c.g, b, Q)
  {
    OrderOf(c, Q);
    MulModOrder(c.g, c.n, a, b, Q);
  }

  lemma ReducedMultiple<P(!new)>(c: Schnorr<P>, a: int, Q: P)
    requires Laws(c) && c.g.has(Q)
    ensures Mul(c.g, a % c.n, Q) == Mul(c.g, a, Q) && 0 <= a % c.n < c.n
  {
    ModCong(a, c.n);
    SameMultiple(c, a % c.n, a, Q);
  }

  /** Only multiples of n annihilate the generator. */
  lemma AnnihilatorIsMultiple<P(!new)>(c: Schnorr<P>, k: int)
    requires Laws(c) && Mul(c.g, k, c.G) == c.g.zero
    ensures k % c.n == 0
  {
    if k % c.n != 0 {
      PrimeInverse(k, c.n);
      var i := Inverse(k, c.n).value;
      MulMul(c.g, i, k, c.G);
      MulZero(c.g, i);
      assert i * k == k * i;
      SameMultiple(c, k * i, 1, c.G);
      MulOne(c.g, c.G);
    }
  }

  /** Equal multiples of the generator have congruent scalars. */
  lemma MultiplesInjective<P(!new)>(c: Schnorr<P>, a: int, b: int)
    requires Laws(c) && Mul(c.g, a, c.G) == Mul(c.g, b, c.G)
    ensures Cong(a, b, c.n)
  {
    MulSub(c.g, a, b, c.G);
    AnnihilatorIsMultiple(c, a - b);
    CongIffDifference(a, b, c.n);
  }

  // ---- even points

  /** The point of the same x whose y is even. */
  function Even<P(!new)>(c: Schnorr<P>, Q: P): P { if c.odd(Q) then c.g.neg(Q) else Q }

  /** 1 for an even point, n - 1 for an odd one: the scalar that makes it even. */
  function ParityFactor<P(!new)>(c: Schnorr<P>, Q: P): int { if c.odd(Q) then c.n - 1 else 1 }

  lemma EvenIsEven<P(!new)>(c: Schnorr<P>, Q: P)
    requires Laws(c) && c.g.has(Q) && Q != c.g.zero
    ensures c.g.has(Even(c, Q)) && !c.odd(Even(c, Q)) && c.x(Even(c, Q)) == c.x(Q) && Even(c, Q) != c.g.zero
  {
    if c.odd(Q) && c.g.neg(Q) == c.g.zero {
      NegNeg(c.g, Q);
      NegZero(c.g);
    }
  }

  lemma OppositeScalar<P(!new)>(c: Schnorr<P>, k: int, Q: P)
    requires Laws(c) && c.g.has(Q)
    ensures Mul(c.g, c.n - k, Q) == c.g.neg(Mul(c.g, k, Q))
  {
    OrderOf(c, Q);
    MulSub(c.g, c.n, k, Q);
    ZeroLeft(c.g, c.g.neg(Mul(c.g, k, Q)));
  }

  lemma EvenIsMultiple<P(!new)>(c: Schnorr<P>, Q: P)
    requires Laws(c) && c.g.has(Q)
    ensures Mul(c.g, ParityFactor(c, Q), Q) == Even(c, Q)
  {
    MulOne(c.g, Q);
    OppositeScalar(c, 1, Q);
  }

  /** BIP340, "Verification": s*G - e*P is finite, even and of abscissa r, P being the even key. */
  ghost predicate Verifies<P(!new)>(c: Schnorr<P>, Q: P, e: int, r: int, s: int) {
    var R := c.g.add(Mul(c.g, s, c.G), c.g.neg(Mul(c.g, e, Even(c, Q))));
    0 <= s < c.n && R != c.g.zero && !c.odd(R) && c.x(R) == r
  }

  /** A scalar with s*G = R + e*P, R being even, verifies. */
  lemma EquationVerifies<P(!new)>(c: Schnorr<P>, Q: P, e: int, s: int, R: P)
    requires Laws(c) && c.g.has(Q) && c.g.has(R) && R != c.g.zero && 0 <= s < c.n
    requires Mul(c.g, s, c.G) == c.g.add(Even(c, R), Mul(c.g, e, Even(c, Q)))
    ensures Verifies(c, Q, e, c.x(R), s)
  {
    EvenIsEven(c, R);
    EvenClosed(c, Q);
    AddThenSubtract(c.g, Even(c, R), Mul(c.g, e, Even(c, Q)));
  }

  lemma EvenClosed<P(!new)>(c: Schnorr<P>, Q: P)
    requires Laws(c) && c.g.has(Q)
    ensures c.g.has(Even(c, Q))
  {
  }
}
