/** The GLV endomorphism of secp256k1: the split of a scalar and the multiplications built on it. */
module Glv {
  import opened Modular
  import opened Groups
  import opened EllipticCurve
  import opened Jacobian
  import opened CurveGroups
  import opened JacobianGroup
  import opened Endomorphism
  import opened Recodings
  import opened ScalarMult
  import opened MultiMult
  import opened InterleavedWnaf

  const P256: int := 0xFFFFFFFFFFFFFFFFFFFFFFFFFFFFFFFFFFFFFFFFFFFFFFFFFFFFFFFEFFFFFC2F
  const N: int := 0xFFFFFFFFFFFFFFFFFFFFFFFFFFFFFFFEBAAEDCE6AF48A03BBFD25E8CD0364141
  const LAM: int := 0x5363AD4CC05C30E0A5261C028812645A122E22EA20816678DF02967C1B23BD72
  const BETA: int := 0x7AE96A2B657C07106E64479EAC3434E99CF0497512F58995C1396C28719501EE
  const A1: int := 0x3086D221A7D46BCDE86C90E49284EB15
  const B1: int := -0xE4437ED6010E88286F547FA90ABFE4C3
  const A2: int := 0x114CA50F7A8E2F3F657C1108D9D44CFD8
  const B2: int := 0x3086D221A7D46BCDE86C90E49284EB15

  // ---- the decomposition

  /** Half-integers rounded to nearest: floor division with the shared offset. */
  function Nearest(y: int): int { (y + N / 2) / N }

  function MultiplierDecomposer(m0: int): (int, int) {
    var m := m0 % N;
    var c1 := Nearest(B2 * m);
    var c2 := Nearest(-B1 * m);
    (m - c1 * A1 - c2 * A2, -c1 * B1 - c2 * B2)
  }

  lemma NearestError(y: int)
    ensures -(N / 2) <= Nearest(y) * N - y <= N / 2
  {
    var c, r := Nearest(y), (y + N / 2) % N;
    assert y + N / 2 == c * N + r;
  }

  /** Both basis vectors are in the lattice, and its determinant is N. */
  lemma Lattice()
    ensures A1 + B1 * LAM == -0x4A5AC2BF7B5F37F9F1DB10D7A2A9C981 * N
    ensures A2 + B2 * LAM == 0xFCE9B1DD4EB7DD2718A2906787061B2 * N
    ensures A1 * B2 - A2 * B1 == N
  {
  }

  lemma Pow2Of128()
    ensures Pow2(128) == 0x1_0000_0000_0000_0000_0000_0000_0000_0000
  {
    assert Pow2(4) == 16 by { assert Pow2(2) == 4; }
    Pow2Add(4, 4);
    Pow2Add(8, 8);
    Pow2Add(16, 16);
    Pow2Add(32, 32);
    Pow2Add(64, 64);
  }

  /** m1 + m2*lambda and m differ by multiples of the two basis vectors, so of N. */
  lemma SplitCongruence(m: int, c1: int, c2: int, k1: int, k2: int, n: int, a1: int, b1: int, a2: int, b2: int, lam: int)
    requires n > 0 && a1 + b1 * lam == k1 * n && a2 + b2 * lam == k2 * n
    ensures Cong((m - c1 * a1 - c2 * a2) + (-c1 * b1 - c2 * b2) * lam, m, n)
  {
    assert (-c1 * b1 - c2 * b2) * lam == -(c1 * (b1 * lam)) - c2 * (b2 * lam);
    assert c1 * (a1 + b1 * lam) == c1 * a1 + c1 * (b1 * lam);
    assert c2 * (a2 + b2 * lam) == c2 * a2 + c2 * (b2 * lam);
    assert c1 * (k1 * n) + c2 * (k2 * n) == (c1 * k1 + c2 * k2) * n;
    CongFrom((m - c1 * a1 - c2 * a2) + (-c1 * b1 - c2 * b2) * lam, m, -(c1 * k1 + c2 * k2), n);
  }

  /** What rounding leaves: N*m1 and N*m2 are the rounding errors times the basis. */
  lemma SplitErrors(m: int, c1: int, c2: int, e1: int, e2: int, n: int, a1: int, b1: int, a2: int, b2: int)
    requires a1 * b2 - a2 * b1 == n && c1 * n == b2 * m + e1 && c2 * n == -b1 * m + e2
    ensures n * (m - c1 * a1 - c2 * a2) == -a1 * e1 - a2 * e2
    ensures n * (-c1 * b1 - c2 * b2) == -b1 * e1 - b2 * e2
  {
    assert n * (c1 * a1) == (c1 * n) * a1 && n * (c2 * a2) == (c2 * n) * a2;
    assert n * (c1 * b1) == (c1 * n) * b1 && n * (c2 * b2) == (c2 * n) * b2;
    assert (b2 * m + e1) * a1 == (a1 * b2) * m + a1 * e1;
    assert (-b1 * m + e2) * a2 == -(a2 * b1) * m + a2 * e2;
    assert (b2 * m + e1) * b1 == (b1 * b2) * m + b1 * e1;
    assert (-b1 * m + e2) * b2 == -(b1 * b2) * m + b2 * e2;
    assert n * m == (a1 * b2) * m - (a2 * b1) * m;
    assert n * (m - c1 * a1 - c2 * a2) == n * m - n * (c1 * a1) - n * (c2 * a2);
    assert n * (-c1 * b1 - c2 * b2) == -(n * (c1 * b1)) - n * (c2 * b2);
  }

  /** At most half of each basis vector: 128 bits. */
  lemma SmallHalves(x: int, y: int, e1: int, e2: int)
    requires N * x == -A1 * e1 - A2 * e2 && N * y == -B1 * e1 - B2 * e2
    requires -(N / 2) <= e1 <= N / 2 && -(N / 2) <= e2 <= N / 2
    ensures 2 * Mag(x) <= A1 + A2 && 2 * Mag(y) <= -B1 + B2
  {
  }

  function Mag(x: int): nat { if x < 0 then -x else x }

  /** Every integer splits into two signed halves of at most 128 bits. */
  lemma SplitShort(m: int)
    ensures var (m1, m2) := MultiplierDecomposer(m);
            Cong(m1 + m2 * LAM, m, N) && Mag(m1) < Pow2(128) && Mag(m2) < Pow2(128)
  {
    var x := m % N;
    var c1, c2 := Nearest(B2 * x), Nearest(-B1 * x);
    Lattice();
    SplitCongruence(x, c1, c2, -0x4A5AC2BF7B5F37F9F1DB10D7A2A9C981, 0xFCE9B1DD4EB7DD2718A2906787061B2, N, A1, B1, A2, B2, LAM);
    ModCong(m, N);
    SplitSizes(x, c1, c2);
    Pow2Of128();
  }

  /** Rounding to nearest leaves at most half of the parallelogram of the basis. */
  lemma SplitSizes(x: int, c1: int, c2: int)
    requires c1 == Nearest(B2 * x) && c2 == Nearest(-B1 * x)
    ensures 2 * Mag(x - c1 * A1 - c2 * A2) <= A1 + A2 && 2 * Mag(-c1 * B1 - c2 * B2) <= -B1 + B2
  {
    var e1, e2 := c1 * N - B2 * x, c2 * N + B1 * x;
    Lattice();
    NearestError(B2 * x);
    NearestError(-B1 * x);
    SplitErrors(x, c1, c2, e1, e2, N, A1, B1, A2, B2);
    SmallHalves(x - c1 * A1 - c2 * A2, -c1 * B1 - c2 * B2, e1, e2);
  }

  // ---- the endomorphism (x, y) -> (beta*x, y)

  /** The curve y^2 = x^3 + 7 over the field of secp256k1. */
  const SECP256K1: Curve := Curve(P256, 0, 7)

  lemma BetaIsCubeRoot()
    ensures Cong(BETA * BETA * BETA, 1, P256) && Cong(BETA * (BETA * BETA), 1, P256)
  {
    var q := 0x3B034E03CBC0E9E67ADF9B678B2EA8201DD5EA436049FDC542A0960DD5579C3C;
    var b2 := 0x851695D49A83F8EF919BB86153CBCB16630FB68AED0A766A3EC693D68E6AFA40;
    assert BETA * BETA - b2 == q * P256;
    CongFrom(BETA * BETA, b2, q, P256);
    CongScale(BETA, BETA * BETA, b2, P256);
    assert BETA * b2 - 1 == 0x3FE61C2799BB1D29F384AC3721058CC97F1A5F31B2AB8BD07E98D61A9C3D65B1 * P256;
    CongFrom(BETA * b2, 1, 0x3FE61C2799BB1D29F384AC3721058CC97F1A5F31B2AB8BD07E98D61A9C3D65B1, P256);
    assert (BETA * BETA) * BETA == BETA * (BETA * BETA);
  }

  // ---- the multiplications

  /** What a multiplication asks of its point: endo multiplies it by lambda, and N annihilates it. */
  ghost predicate GlvPoint<J(!new), P(!new)>(ec: CurveGroup<J, P>, endo: J -> J, Q: J) {
    && Setting(ec) && ec.valid(Q)
    && Stands(ec, endo(Q), Mul(ec.law, LAM, ec.aff(Q)))
    && Mul(ec.law, N, ec.aff(Q)) == ec.law.zero
  }

  lemma SignMoved<J(!new), P(!new)>(ec: CurveGroup<J, P>, m: int, Q: J)
    requires Setting(ec) && ec.valid(Q)
    ensures var S := if m < 0 then ec.negateJac(Q) else Q;
            ec.valid(S) && Mul(ec.law, Mag(m), ec.aff(S)) == Mul(ec.law, m, ec.aff(Q))
  {
    if m < 0 { MulNegPoint(ec.law, -m, ec.aff(Q)); }
  }

  /** m1*X + m2*(lambda*X) = m*X, the order being N. */
  lemma SplitAlgebra<P(!new)>(g: Group<P>, m1: int, m2: int, m: int, X: P)
    requires Lawful(g) && g.has(X) && Mul(g, N, X) == g.zero && Cong(m1 + m2 * LAM, m, N)
    ensures Pair(g, m1, X, m2, Mul(g, LAM, X)) == Mul(g, m, X)
  {
    MulMul(g, m2, LAM, X);
    MulAdd(g, m1, m2 * LAM, X);
    MulModOrder(g, N, m1 + m2 * LAM, m, X);
  }

  lemma HalvesSum<J(!new), P(!new)>(m1: int, m2: int, m: int, Q: J, ec: CurveGroup<J, P>, endo: J -> J)
    requires GlvPoint(ec, endo, Q) && Cong(m1 + m2 * LAM, m, N)
    ensures var S, K := if m1 < 0 then ec.negateJac(Q) else Q, if m2 < 0 then ec.negateJac(endo(Q)) else endo(Q);
            && ec.valid(S) && ec.valid(K)
            && Pair(ec.law, Mag(m1), ec.aff(S), Mag(m2), ec.aff(K)) == Mul(ec.law, m, ec.aff(Q))
  {
    SplitAlgebra(ec.law, m1, m2, m, ec.aff(Q));
    SignMoved(ec, m1, Q);
    SignMoved(ec, m2, endo(Q));
  }

  /** (m1, S, m2, K) with m1*S + m2*K = m*Q: halves without signs, of at most 128 bits, and their points. */
  method EndomorphismSplit<J(!new), P(!new)>(m: int, Q: J, ec: CurveGroup<J, P>, endo: J -> J)
    returns (m1: nat, S: J, m2: nat, K: J)
    requires GlvPoint(ec, endo, Q)
    ensures ec.valid(S) && ec.valid(K) && m1 < Pow2(128) && m2 < Pow2(128)
    ensures Pair(ec.law, m1, ec.aff(S), m2, ec.aff(K)) == Mul(ec.law, m, ec.aff(Q))
  {
    var a, b := Halves(m);
    HalvesSum(a, b, m, Q, ec, endo);
    S := if a < 0 then ec.negateJac(Q) else Q;
    K := endo(Q);
    K := if b < 0 then ec.negateJac(K) else K;
    m1, m2 := Mag(a), Mag(b);
  }

  method Halves(m: int) returns (m1: int, m2: int)
    ensures Cong(m1 + m2 * LAM, m, N) && Mag(m1) < Pow2(128) && Mag(m2) < Pow2(128)
  {
    var halves := MultiplierDecomposer(m);
    SplitShort(m);
    m1, m2 := halves.0, halves.1;
  }

  /** The windows a half of 128 bits has. */
  function HalfWindows(w: nat): (k: nat)
    requires w >= 1
    ensures k >= 1
  {
    CeilDivCovers(128, w);
    CeilDiv(128, w)
  }

  lemma HalvesFit(m1: nat, m2: nat, w: nat)
    requires w >= 1 && m1 < Pow2(128) && m2 < Pow2(128)
    ensures PairCount(128, m1, m2, w) == HalfWindows(w)
  {
    BitLengthBelow(m1, 128);
    BitLengthBelow(m2, 128);
  }

  /** Both halves in regular windows over 128 bits: m*Q, in counts no scalar changes. */
  method MultEndomorphism<J(!new), P(!new)>(m: int, Q: J, ec: CurveGroup<J, P>, endo: J -> J, w: int)
    returns (r: Option<J>, doublings: nat, additions: nat)
    requires GlvPoint(ec, endo, Q)
    ensures r.None? <==> m < 0 || w <= 0
    ensures r.Some? ==> IsTimes(ec, r.value, m, ec.aff(Q))
    ensures r.Some? ==> doublings == PairDoublingCount(w, HalfWindows(w)) && additions == PairAdditionCount(w, HalfWindows(w))
  {
    if m < 0 { return None, 0, 0; }
    var m1, S, m2, K := EndomorphismSplit(m, Q, ec, endo);
    r, doublings, additions := DoubleMultRegularWindow(m1, S, m2, K, ec, w, 128);
    if w > 0 { HalvesFit(m1, m2, w); }
  }

  /** The same split over the interleaved wNAFs. */
  method MultEndomorphismVar<J(!new, ==), P(!new)>(m: int, Q: J, ec: CurveGroup<J, P>, endo: J -> J, w: int, fixed: set<J>, scalarLen: nat)
    returns (r: Option<J>)
    requires GlvPoint(ec, endo, Q) && scalarLen >= 1
    ensures r.None? <==> m < 0 || w <= 0
    ensures r.Some? ==> IsTimes(ec, r.value, m, ec.aff(Q))
  {
    if m < 0 { return None; }
    var m1, S, m2, K := EndomorphismSplit(m, Q, ec, endo);
    r := DoubleMultWNafVar(m1, S, m2, K, ec, w, fixed, scalarLen);
  }

  lemma SumOfFour<J(!new), P(!new)>(ec: CurveGroup<J, P>, u1: int, U1: J, u2: int, U2: J, v1: int, V1: J, v2: int, V2: J)
    requires Setting(ec) && ec.valid(U1) && ec.valid(U2) && ec.valid(V1) && ec.valid(V2)
    ensures Sum(ec, [u1, u2, v1, v2], [U1, U2, V1, V2])
         == ec.law.add(Pair(ec.law, u1, ec.aff(U1), u2, ec.aff(U2)), Pair(ec.law, v1, ec.aff(V1), v2, ec.aff(V2)))
  {
    var ks, As := [u1, u2, v1, v2], [U1, U2, V1, V2];
    SumSnoc(ec, ks, As, 3);
    SumSnoc(ec, ks, As, 2);
    assert ks[..4] == ks && As[..4] == As && ks[..2] == [u1, u2] && As[..2] == [U1, U2];
    SumOfTwo(ec, u1, U1, u2, U2);
    assert Associates(ec.law, Pair(ec.law, u1, ec.aff(U1), u2, ec.aff(U2)), Mul(ec.law, v1, ec.aff(V1)), Mul(ec.law, v2, ec.aff(V2)));
  }

  /** The four halves of two coefficients, interleaved: u*H + v*Q. */
  method DoubleMultEndomorphismVar<J(!new, ==), P(!new)>(
    u: int, HJ: J, v: int, QJ: J, ec: CurveGroup<J, P>, endo: J -> J, w: int, fixed0: set<J>, scalarLen: nat)
    returns (r: Option<J>)
    requires GlvPoint(ec, endo, HJ) && GlvPoint(ec, endo, QJ) && scalarLen >= 1
    ensures r.None? <==> u < 0 || v < 0 || w <= 0
    ensures r.Some? ==> Stands(ec, r.value, Pair(ec.law, u, ec.aff(HJ), v, ec.aff(QJ)))
  {
    if u < 0 || v < 0 { return None; }
    var u1, U1, u2, U2 := EndomorphismSplit(u, HJ, ec, endo);
    var v1, V1, v2, V2 := EndomorphismSplit(v, QJ, ec, endo);
    // a fixed point's images are worth a memoized table too
    var fixed := fixed0;
    if HJ in fixed { fixed := fixed + {U1, U2}; }
    if QJ in fixed { fixed := fixed + {V1, V2}; }
    SumOfFour(ec, u1, U1, u2, U2, v1, V1, v2, V2);
    r := MultiMultWNafVar([u1, u2, v1, v2], [U1, U2, V1, V2], ec, w, fixed, scalarLen);
  }

  // ---- on secp256k1

  /** What is taken from the curve: its law, the order of G, and lambda*G = (beta*x_G, y_G). */
  ghost predicate GlvSetting(G: Point) {
    && GoodCurve(SECP256K1) && AssociativeLaw(SECP256K1) && ValidPoint(SECP256K1, G)
    && Mul(Law(SECP256K1), N, G) == INF
    && Endo(SECP256K1, BETA, G) == Mul(Law(SECP256K1), LAM, G)
  }

  function Image(): JacPoint -> JacPoint { ImageOn(SECP256K1, BETA) }

  /** Every multiple of the generator is a point the endomorphism serves. */
  lemma EveryMultiple(Q: JacPoint, G: Point, k: nat)
    requires GlvSetting(G) && ValidJac(SECP256K1, Q) && AffFromJac(SECP256K1, Q) == Mul(Law(SECP256K1), k, G)
    ensures GlvPoint(OfCurve(SECP256K1), Image(), Q)
  {
    CurveComputes(SECP256K1);
    BetaIsCubeRoot();
    OnAnyCurve(SECP256K1, BETA, Q, G, k);
  }

  lemma OnAnyCurve(ec: Curve, beta: int, Q: JacPoint, G: Point, k: nat)
    requires CubeRootCurve(ec, beta) && AssociativeLaw(ec) && ValidPoint(ec, G) && Setting(OfCurve(ec))
    requires Mul(Law(ec), N, G) == INF && Endo(ec, beta, G) == Mul(Law(ec), LAM, G)
    requires ValidJac(ec, Q) && AffFromJac(ec, Q) == Mul(Law(ec), k, G)
    ensures GlvPoint(OfCurve(ec), ImageOn(ec, beta), Q)
  {
    ImageOnCurve(ec, beta, LAM, N, Q, G, k);
    PointFrom(OfCurve(ec), ImageOn(ec, beta), Q);
  }

  function ImageOn(ec: Curve, beta: int): JacPoint -> JacPoint { (S: JacPoint) => EndoJac(Positive(ec), beta, S) }

  lemma PointFrom<J(!new), P(!new)>(ec: CurveGroup<J, P>, endo: J -> J, Q: J)
    requires Setting(ec) && ec.valid(Q) && ec.valid(endo(Q)) && ec.aff(endo(Q)) == Mul(ec.law, LAM, ec.aff(Q))
    requires Mul(ec.law, N, ec.aff(Q)) == ec.law.zero
    ensures GlvPoint(ec, endo, Q)
  {
  }

  lemma ImageOnCurve(ec: Curve, beta: int, lam: int, n: int, Q: JacPoint, G: Point, k: nat)
    requires CubeRootCurve(ec, beta) && AssociativeLaw(ec) && ValidPoint(ec, G)
    requires Mul(Law(ec), n, G) == INF && Endo(ec, beta, G) == Mul(Law(ec), lam, G)
    requires ValidJac(ec, Q) && AffFromJac(ec, Q) == Mul(Law(ec), k, G)
    ensures ValidJac(ec, EndoJac(ec, beta, Q)) && AffFromJac(ec, EndoJac(ec, beta, Q)) == Mul(Law(ec), lam, AffFromJac(ec, Q))
    ensures Mul(Law(ec), n, AffFromJac(ec, Q)) == INF
  {
    CurveIsGroup(ec);
    assert Law(ec).has(G);
    OrderOfMultiple(Law(ec), n, k, G);
    EndoJacRefines(ec, beta, Q);
    EndoIsScalar(ec, beta, lam, G, k);
  }
}
