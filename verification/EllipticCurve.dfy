/** The curve group in affine and in Jacobian coordinates over Z_p.

    The affine chord-and-tangent law is shown to be closed and commutative, with INF neutral and
    negation inverse; its associativity is mathematics the package relies on, and is a hypothesis
    here. The Jacobian formulas are then shown to compute that law. */
module EllipticCurve {
  import opened Modular
  import opened Groups

  type Point = (int, int)
  type JacPoint = (int, int, int)

  const INF: Point := (5, 0)
  const INFJ: JacPoint := (7, 0, 0)

  datatype Curve = Curve(p: int, a: int, b: int)

  // ---- the curve

  function CurveY2(ec: Curve, x: int): int { x * x * x + ec.a * x + ec.b }

  predicate OnCurve(ec: Curve, x: int, y: int)
    requires ec.p > 0
  {
    Cong(y * y, CurveY2(ec, x), ec.p)
  }

  /** p is a prime above 3 and no point of the curve has y = 0. */
  ghost predicate GoodCurve(ec: Curve) {
    && IsPrime(ec.p) && ec.p > 3 && 0 <= ec.a < ec.p && 0 <= ec.b < ec.p
    && forall x :: CurveY2(ec, x) % ec.p != 0
  }

  /** A reduced affine point: INF, or a point whose y is not zero. */
  predicate ValidPoint(ec: Curve, Q: Point) {
    ec.p > 0 && (Q == INF || (0 <= Q.0 < ec.p && 0 < Q.1 < ec.p && OnCurve(ec, Q.0, Q.1)))
  }

  function InverseOrZero(a: int, p: int): int
    requires p > 0
  {
    match Inverse(a, p)
    case Some(i) => i
    case None => 0
  }

  // ---- the affine law

  function Negate(ec: Curve, Q: Point): Point {
    (Q.0, if ec.p == 0 then 0 else (ec.p - Q.1) % ec.p)
  }

  function Tangent(ec: Curve, Q: Point): int
    requires ec.p > 0
  {
    (3 * Q.0 * Q.0 + ec.a) * InverseOrZero(2 * Q.1, ec.p) % ec.p
  }

  function Chord(ec: Curve, Q: Point, R: Point): int
    requires ec.p > 0
  {
    (R.1 - Q.1) * InverseOrZero(R.0 - Q.0, ec.p) % ec.p
  }

  /** The third point of the line of slope lam through Q, mirrored; xr is the other abscissa. */
  function Third(ec: Curve, lam: int, Q: Point, xr: int): Point
    requires ec.p > 0
  {
    var x := (lam * lam - Q.0 - xr) % ec.p;
    (x, (lam * (Q.0 - x) - Q.1) % ec.p)
  }

  function DoubleAff(ec: Curve, Q: Point): Point {
    if Q.1 == 0 || ec.p <= 0 then INF else Third(ec, Tangent(ec, Q), Q, Q.0)
  }

  function AddAff(ec: Curve, Q: Point, R: Point): Point {
    if R.1 == 0 || ec.p <= 0 then Q
    else if Q.1 == 0 then R
    else if R.0 == Q.0 then (if R.1 == Q.1 then DoubleAff(ec, R) else INF)
    else Third(ec, Chord(ec, Q, R), Q, R.0)
  }

  function Law(ec: Curve): Group<Point> {
    Group((Q: Point) => ValidPoint(ec, Q), INF, (Q: Point, R: Point) => AddAff(ec, Q, R), (Q: Point) => Negate(ec, Q))
  }

  // ---- slopes

  ghost predicate IsSlope(lam: int, dx: int, dy: int, p: int) {
    p > 0 && 0 <= lam < p && Cong(lam * dx, dy, p)
  }

  lemma SlopeFromInverse(dx: int, dy: int, p: int)
    requires IsPrime(p) && dx % p != 0
    ensures IsSlope(dy * InverseOrZero(dx, p) % p, dx, dy, p)
  {
    PrimeInverse(dx, p);
    var i := Inverse(dx, p).value;
    ModCong(dy * i, p);
    CongMul(dy * i % p, dy * i, dx, dx, p);
    CongScale(dy, dx * i, 1, p);
    assert (dy * i) * dx == dy * (dx * i);
  }

  lemma SlopeUnique(l: int, m: int, dx: int, dy: int, p: int)
    requires IsPrime(p) && dx % p != 0 && IsSlope(l, dx, dy, p) && IsSlope(m, dx, dy, p)
    ensures l == m
  {
    assert l * dx == dx * l && m * dx == dx * m;
    CancelFactor(dx, l, m, p);
    SmallMod(l, p);
    SmallMod(m, p);
  }

  lemma ReducedDifference(a: int, b: int, p: int)
    requires p > 0 && 0 <= a < p && 0 <= b < p && a != b
    ensures (a - b) % p != 0
  {
    CongIffDifference(a, b, p);
    SmallMod(a, p);
    SmallMod(b, p);
  }

  lemma DoubleOrdinate(y: int, p: int)
    requires IsPrime(p) && p > 3 && 0 < y < p
    ensures (2 * y) % p != 0
  {
    SmallMod(y, p);
    SmallMod(2, p);
    if (2 * y) % p == 0 { PrimeDividesProduct(2, y, p); }
  }

  // ---- closure: the third intersection lies on the curve

  /** t^3 + at + b - (lam(t - xq) + yq)^2 is (t-xq)(t-xr)(t-x3) + alpha*t + beta. */
  lemma LineMeetsCurve(a: int, b: int, lam: int, xq: int, yq: int, xr: int, t: int, x3: int, alpha: int, beta: int)
    requires x3 == lam * lam - xq - xr
    requires alpha == a - 2 * (lam * (yq - lam * xq)) - (xq * xr + (xq + xr) * x3)
    requires beta == b - (yq - lam * xq) * (yq - lam * xq) + xq * xr * x3
    ensures t * t * t + a * t + b - (lam * (t - xq) + yq) * (lam * (t - xq) + yq)
         == (t - xq) * (t - xr) * (t - x3) + alpha * t + beta
  {
    var c := yq - lam * xq;
    assert lam * (t - xq) + yq == lam * t + c;
    assert (lam * t + c) * (lam * t + c) == (lam * lam) * (t * t) + 2 * (lam * c) * t + c * c;
    var s, q := xq + xr, xq * xr;
    assert (t - xq) * (t - xr) == t * t - s * t + q by {
      assert (t - xq) * (t - xr) == t * t - xq * t - t * xr + xq * xr;
    }
    assert (t * t - s * t + q) * (t - x3) == t * t * t - (s + x3) * (t * t) + (q + s * x3) * t - q * x3 by {
      assert (t * t) * (t - x3) == t * t * t - x3 * (t * t);
      assert (s * t) * (t - x3) == s * (t * t) - (s * x3) * t;
    }
    assert s + x3 == lam * lam;
    assert (a - 2 * (lam * c) - (q + s * x3)) * t == a * t - 2 * (lam * c) * t - (q + s * x3) * t;
  }

  ghost predicate LineCoefficients(ec: Curve, lam: int, xq: int, yq: int, xr: int, alpha: int, beta: int) {
    var x3 := lam * lam - xq - xr;
    && alpha == ec.a - 2 * (lam * (yq - lam * xq)) - (xq * xr + (xq + xr) * x3)
    && beta == ec.b - (yq - lam * xq) * (yq - lam * xq) + xq * xr * x3
  }

  /** Where the line meets the curve and the product vanishes, so does alpha*t + beta. */
  lemma Remainder(ec: Curve, lam: int, xq: int, yq: int, xr: int, t: int, yt: int, alpha: int, beta: int)
    requires ec.p > 0 && LineCoefficients(ec, lam, xq, yq, xr, alpha, beta)
    requires t == xq || t == xr
    requires OnCurve(ec, t, yt) && Cong(lam * (t - xq) + yq, yt, ec.p)
    ensures (alpha * t + beta) % ec.p == 0
  {
    var l, x3 := lam * (t - xq) + yq, lam * lam - xq - xr;
    LineMeetsCurve(ec.a, ec.b, lam, xq, yq, xr, t, x3, alpha, beta);
    assert (t - xq) * (t - xr) == 0;
    assert ((t - xq) * (t - xr)) * (t - x3) == 0;
    CongMul(l, yt, l, yt, ec.p);
    CongIffDifference(CurveY2(ec, t), l * l, ec.p);
  }

  lemma ThirdOnCurve(ec: Curve, lam: int, xq: int, yq: int, xr: int, alpha: int, beta: int, R: Point)
    requires ec.p > 0 && LineCoefficients(ec, lam, xq, yq, xr, alpha, beta)
    requires alpha % ec.p == 0 && (alpha * xq + beta) % ec.p == 0
    requires R == Third(ec, lam, (xq, yq), xr)
    ensures 0 <= R.0 < ec.p && 0 <= R.1 < ec.p && OnCurve(ec, R.0, R.1)
  {
    var p, x3 := ec.p, lam * lam - xq - xr;
    var x, y := R.0, R.1;
    ModCong(x3, p);
    ModCong(lam * (xq - x) - yq, p);
    LineMeetsCurve(ec.a, ec.b, lam, xq, yq, xr, x, x3, alpha, beta);
    var l := lam * (x - xq) + yq;
    assert lam * (xq - x) - yq == -l;
    // y = -l, so y^2 = l^2
    CongMul(y, -l, y, -l, p);
    assert (-l) * (-l) == l * l;
    // the product vanishes at x
    CongIffDifference(x, x3, p);
    var c := (x - xq) * (x - xr);
    CongScale(c, x - x3, 0, p);
    // and so does alpha*x + beta
    CongMul(alpha, 0, x - xq, x - xq, p);
    CongAdd(alpha * (x - xq), 0, alpha * xq + beta, 0, p);
    assert alpha * (x - xq) + (alpha * xq + beta) == alpha * x + beta;
    CongAdd(c * (x - x3), 0, alpha * x + beta, 0, p);
    assert CurveY2(ec, x) - l * l == c * (x - x3) + (alpha * x + beta);
    CongIffDifference(CurveY2(ec, x), l * l, p);
  }

  lemma NoZeroOrdinate(ec: Curve, R: Point)
    requires GoodCurve(ec) && 0 <= R.0 < ec.p && 0 <= R.1 < ec.p && OnCurve(ec, R.0, R.1)
    ensures R.1 > 0 && ValidPoint(ec, R)
  {
    assert CurveY2(ec, R.0) % ec.p != 0;
    SmallMod(0, ec.p);
  }

  lemma ChordCloses(ec: Curve, Q: Point, R: Point, lam: int)
    requires GoodCurve(ec) && ValidPoint(ec, Q) && ValidPoint(ec, R) && Q != INF && R != INF && Q.0 != R.0
    requires IsSlope(lam, R.0 - Q.0, R.1 - Q.1, ec.p)
    ensures ValidPoint(ec, Third(ec, lam, Q, R.0)) && Third(ec, lam, Q, R.0).1 > 0
  {
    var p, xq, yq, xr, yr := ec.p, Q.0, Q.1, R.0, R.1;
    var x3 := lam * lam - xq - xr;
    var alpha := ec.a - 2 * (lam * (yq - lam * xq)) - (xq * xr + (xq + xr) * x3);
    var beta := ec.b - (yq - lam * xq) * (yq - lam * xq) + xq * xr * x3;
    ChordCoefficients(ec, lam, xq, yq, xr, yr, alpha, beta);
    ThirdOnCurve(ec, lam, xq, yq, xr, alpha, beta, Third(ec, lam, Q, R.0));
    NoZeroOrdinate(ec, Third(ec, lam, Q, R.0));
  }

  lemma ChordCoefficients(ec: Curve, lam: int, xq: int, yq: int, xr: int, yr: int, alpha: int, beta: int)
    requires IsPrime(ec.p) && LineCoefficients(ec, lam, xq, yq, xr, alpha, beta)
    requires 0 <= xq < ec.p && 0 <= xr < ec.p && xq != xr && OnCurve(ec, xq, yq) && OnCurve(ec, xr, yr)
    requires IsSlope(lam, xr - xq, yr - yq, ec.p)
    ensures alpha % ec.p == 0 && (alpha * xq + beta) % ec.p == 0
  {
    var p := ec.p;
    assert lam * (xq - xq) + yq == yq;
    Remainder(ec, lam, xq, yq, xr, xq, yq, alpha, beta);
    CongAdd(lam * (xr - xq), yr - yq, yq, yq, p);
    Remainder(ec, lam, xq, yq, xr, xr, yr, alpha, beta);
    LinearRoots(alpha, beta, xq, xr, p);
  }

  lemma LinearRoots(alpha: int, beta: int, s: int, t: int, p: int)
    requires IsPrime(p) && 0 <= s < p && 0 <= t < p && s != t
    requires (alpha * s + beta) % p == 0 && (alpha * t + beta) % p == 0
    ensures alpha % p == 0
  {
    CongIffDifference(alpha * t + beta, alpha * s + beta, p);
    assert (alpha * t + beta) - (alpha * s + beta) == alpha * (t - s);
    ReducedDifference(t, s, p);
    PrimeDividesProduct(alpha, t - s, p);
  }

  lemma TangentCoefficient(a: int, lam: int, x: int, y: int, x3: int, alpha: int)
    requires x3 == lam * lam - x - x
    requires alpha == a - 2 * (lam * (y - lam * x)) - (x * x + (x + x) * x3)
    ensures alpha == (3 * x * x + a) - lam * (2 * y)
  {
    assert lam * (y - lam * x) == lam * y - (lam * lam) * x;
    assert (x + x) * x3 == 2 * ((lam * lam) * x) - 4 * (x * x);
    assert lam * (2 * y) == 2 * (lam * y);
  }

  lemma TangentCloses(ec: Curve, Q: Point, lam: int)
    requires GoodCurve(ec) && ValidPoint(ec, Q) && Q != INF
    requires IsSlope(lam, 2 * Q.1, 3 * Q.0 * Q.0 + ec.a, ec.p)
    ensures ValidPoint(ec, Third(ec, lam, Q, Q.0)) && Third(ec, lam, Q, Q.0).1 > 0
  {
    var p, x, y := ec.p, Q.0, Q.1;
    var x3 := lam * lam - x - x;
    var alpha := ec.a - 2 * (lam * (y - lam * x)) - (x * x + (x + x) * x3);
    var beta := ec.b - (y - lam * x) * (y - lam * x) + x * x * x3;
    TangentCoefficient(ec.a, lam, x, y, x3, alpha);
    CongIffDifference(3 * x * x + ec.a, lam * (2 * y), p);
    assert lam * (x - x) + y == y;
    Remainder(ec, lam, x, y, x, x, y, alpha, beta);
    ThirdOnCurve(ec, lam, x, y, x, alpha, beta, Third(ec, lam, Q, Q.0));
    NoZeroOrdinate(ec, Third(ec, lam, Q, Q.0));
  }

  lemma TangentSlope(ec: Curve, Q: Point)
    requires GoodCurve(ec) && ValidPoint(ec, Q) && Q != INF
    ensures IsSlope(Tangent(ec, Q), 2 * Q.1, 3 * Q.0 * Q.0 + ec.a, ec.p)
  {
    DoubleOrdinate(Q.1, ec.p);
    SlopeFromInverse(2 * Q.1, 3 * Q.0 * Q.0 + ec.a, ec.p);
  }

  lemma ChordSlope(ec: Curve, Q: Point, R: Point)
    requires GoodCurve(ec) && ValidPoint(ec, Q) && ValidPoint(ec, R) && Q != INF && R != INF && Q.0 != R.0
    ensures IsSlope(Chord(ec, Q, R), R.0 - Q.0, R.1 - Q.1, ec.p)
  {
    ReducedDifference(R.0, Q.0, ec.p);
    SlopeFromInverse(R.0 - Q.0, R.1 - Q.1, ec.p);
  }

  // ---- the sum, as equations without an inverse

  /** The mirrored third point of a line of slope dy/dx through (xq, yq) and a point of abscissa xr. */
  ghost predicate MirroredThird(p: int, S: Point, dx: int, dy: int, xq: int, yq: int, xr: int)
    requires p > 0
  {
    && Cong((S.0 + xq + xr) * (dx * dx), dy * dy, p)
    && Cong((S.1 + yq) * dx, dy * (xq - S.0), p)
  }

  lemma ThirdIsMirrored(ec: Curve, lam: int, dx: int, dy: int, Q: Point, xr: int)
    requires ec.p > 0 && IsSlope(lam, dx, dy, ec.p)
    ensures MirroredThird(ec.p, Third(ec, lam, Q, xr), dx, dy, Q.0, Q.1, xr)
  {
    var p, S := ec.p, Third(ec, lam, Q, xr);
    ModCong(lam * lam - Q.0 - xr, p);
    CongAdd(S.0, lam * lam - Q.0 - xr, Q.0 + xr, Q.0 + xr, p);
    CongMul(S.0 + Q.0 + xr, lam * lam, dx * dx, dx * dx, p);
    SlopeSquared(p, lam, dx, dy);
    ModCong(lam * (Q.0 - S.0) - Q.1, p);
    CongAdd(S.1, lam * (Q.0 - S.0) - Q.1, Q.1, Q.1, p);
    CongMul(S.1 + Q.1, lam * (Q.0 - S.0), dx, dx, p);
    CongMul(lam * dx, dy, Q.0 - S.0, Q.0 - S.0, p);
    Reorder(lam, Q.0 - S.0, dx);
  }

  lemma SlopeSquared(p: int, lam: int, dx: int, dy: int)
    requires p > 0 && Cong(lam * dx, dy, p)
    ensures Cong((lam * lam) * (dx * dx), dy * dy, p)
  {
    CongMul(lam * dx, dy, lam * dx, dy, p);
    assert (lam * lam) * (dx * dx) == lam * (lam * (dx * dx));
    assert (lam * dx) * (lam * dx) == lam * (dx * (lam * dx));
    assert dx * (lam * dx) == lam * (dx * dx);
  }

  lemma Reorder(a: int, b: int, c: int)
    ensures (a * b) * c == (a * c) * b
  {
    assert (a * b) * c == a * (b * c);
  }

  /** The chord through two points of different abscissas, and the tangent at a point: the sum is the mirrored third point. */
  lemma SumIsMirrored(ec: Curve, Q: Point, R: Point)
    requires GoodCurve(ec) && ValidPoint(ec, Q) && ValidPoint(ec, R) && Q != INF && R != INF
    ensures Q.0 != R.0 ==> MirroredThird(ec.p, AddAff(ec, Q, R), R.0 - Q.0, R.1 - Q.1, Q.0, Q.1, R.0)
    ensures Q == R ==> MirroredThird(ec.p, AddAff(ec, Q, R), 2 * Q.1, 3 * Q.0 * Q.0 + ec.a, Q.0, Q.1, Q.0)
    ensures Q.0 == R.0 && Q.1 != R.1 ==> AddAff(ec, Q, R) == INF
  {
    if Q.0 != R.0 {
      ChordSlope(ec, Q, R);
      ThirdIsMirrored(ec, Chord(ec, Q, R), R.0 - Q.0, R.1 - Q.1, Q, R.0);
    } else if Q == R {
      TangentSlope(ec, Q);
      ThirdIsMirrored(ec, Tangent(ec, Q), 2 * Q.1, 3 * Q.0 * Q.0 + ec.a, Q, Q.0);
    }
  }

  /** Those equations have one solution. */
  lemma MirroredOnce(p: int, S: Point, S': Point, dx: int, dy: int, xq: int, yq: int, xr: int)
    requires IsPrime(p) && dx % p != 0 && MirroredThird(p, S, dx, dy, xq, yq, xr) && MirroredThird(p, S', dx, dy, xq, yq, xr)
    requires 0 <= S.0 < p && 0 <= S.1 < p && 0 <= S'.0 < p && 0 <= S'.1 < p
    ensures S == S'
  {
    assert (S.0 + xq + xr) * (dx * dx) == dx * (dx * (S.0 + xq + xr)) && (S'.0 + xq + xr) * (dx * dx) == dx * (dx * (S'.0 + xq + xr));
    CancelFactor(dx, dx * (S.0 + xq + xr), dx * (S'.0 + xq + xr), p);
    CancelFactor(dx, S.0 + xq + xr, S'.0 + xq + xr, p);
    ReducedEqual(S.0, S'.0, xq + xr, p);
    assert (S.1 + yq) * dx == dx * (S.1 + yq) && (S'.1 + yq) * dx == dx * (S'.1 + yq);
    CancelFactor(dx, S.1 + yq, S'.1 + yq, p);
    ReducedEqual(S.1, S'.1, yq, p);
  }

  lemma ReducedEqual(a: int, b: int, c: int, p: int)
    requires 0 <= a < p && 0 <= b < p && Cong(a + c, b + c, p)
    ensures a == b
  {
    CongAdd(a + c, b + c, c, c, p);
    SmallMod(a, p);
    SmallMod(b, p);
  }

  lemma AddCloses(ec: Curve, Q: Point, R: Point)
    requires GoodCurve(ec) && ValidPoint(ec, Q) && ValidPoint(ec, R)
    ensures ValidPoint(ec, AddAff(ec, Q, R))
    ensures Q != INF ==> ValidPoint(ec, DoubleAff(ec, Q))
  {
    if Q != INF {
      TangentSlope(ec, Q);
      TangentCloses(ec, Q, Tangent(ec, Q));
      if R != INF && Q.0 != R.0 {
        ChordSlope(ec, Q, R);
        ChordCloses(ec, Q, R, Chord(ec, Q, R));
      }
    }
  }

  lemma NegateValue(ec: Curve, Q: Point)
    requires ec.p > 0 && 0 <= Q.1 < ec.p
    ensures Negate(ec, Q) == (Q.0, if Q.1 == 0 then 0 else ec.p - Q.1)
  {
    if Q.1 == 0 { DivModUnique(ec.p - Q.1, ec.p, 1, 0); } else { SmallMod(ec.p - Q.1, ec.p); }
  }

  lemma OppositeSquare(y: int, p: int)
    requires p > 0
    ensures Cong((p - y) * (p - y), y * y, p)
  {
    assert (p - y) * (p - y) == y * y + (p - 2 * y) * p;
    CongStep(y * y, p - 2 * y, p);
  }

  lemma NegateCloses(ec: Curve, Q: Point)
    requires GoodCurve(ec) && ValidPoint(ec, Q)
    ensures ValidPoint(ec, Negate(ec, Q))
    ensures Q != INF ==> Negate(ec, Q) == (Q.0, ec.p - Q.1)
  {
    NegateValue(ec, Q);
    OppositeSquare(Q.1, ec.p);
  }

  lemma OddPrime(p: int)
    requires IsPrime(p) && p > 3
    ensures p % 2 == 1
  {
  }

  lemma SumIsInfinity(ec: Curve, Q: Point, R: Point)
    requires ec.p % 2 == 1 && ec.p > 0 && R == (Q.0, ec.p - Q.1) && 0 < Q.1 < ec.p
    ensures AddAff(ec, Q, R) == INF
  {
    assert Q.1 != R.1;
  }

  lemma NegateInverse(ec: Curve, Q: Point)
    requires GoodCurve(ec) && ValidPoint(ec, Q)
    ensures AddAff(ec, Q, Negate(ec, Q)) == INF
  {
    OddPrime(ec.p);
    OppositeSum(ec, Q);
  }

  lemma OppositeSum(ec: Curve, Q: Point)
    requires ec.p % 2 == 1 && ec.p > 0 && (Q == INF || 0 < Q.1 < ec.p)
    ensures AddAff(ec, Q, Negate(ec, Q)) == INF
  {
    NegateValue(ec, Q);
    if Q != INF { SumIsInfinity(ec, Q, Negate(ec, Q)); }
  }

  lemma EqualSquares(y: int, z: int, p: int)
    requires IsPrime(p) && 0 < y < p && 0 < z < p && Cong(y * y, z * z, p)
    ensures z == y || z == p - y
  {
    CongIffDifference(y * y, z * z, p);
    assert y * y - z * z == (y - z) * (y + z);
    PrimeDividesProduct(y - z, y + z, p);
    SmallMod(y, p);
    SmallMod(z, p);
    if (y - z) % p == 0 { CongIffDifference(y, z, p); } else { SumOfTwoResidues(y, z, p); }
  }

  lemma SumOfTwoResidues(y: int, z: int, p: int)
    requires 0 < y < p && 0 < z < p && (y + z) % p == 0
    ensures z == p - y
  {
    if y + z < p { SmallMod(y + z, p); }
    if y + z > p { DivModUnique(y + z, p, 1, y + z - p); }
  }

  /** Two points of the curve with one abscissa are equal or opposite. */
  lemma SameAbscissa(ec: Curve, Q: Point, R: Point)
    requires GoodCurve(ec) && ValidPoint(ec, Q) && ValidPoint(ec, R) && Q != INF && R != INF && Q.0 == R.0
    ensures R == Q || R == Negate(ec, Q)
  {
    EqualSquares(Q.1, R.1, ec.p);
    NegateValue(ec, Q);
  }

  /** The line passes through both points, so either one gives the same third point. */
  lemma ThirdSymmetric(ec: Curve, l: int, Q: Point, R: Point)
    requires ec.p > 0 && IsSlope(l, R.0 - Q.0, R.1 - Q.1, ec.p)
    ensures Third(ec, l, Q, R.0) == Third(ec, l, R, Q.0)
  {
    var x := (l * l - Q.0 - R.0) % ec.p;
    assert l * l - Q.0 - R.0 == l * l - R.0 - Q.0;
    SameOrdinate(l, Q.0, Q.1, R.0, R.1, x, ec.p);
  }

  lemma SameOrdinate(l: int, xq: int, yq: int, xr: int, yr: int, x: int, p: int)
    requires IsSlope(l, xr - xq, yr - yq, p)
    ensures Cong(l * (xq - x) - yq, l * (xr - x) - yr, p)
  {
    CongIffDifference(l * (xr - xq), yr - yq, p);
    assert l * (xr - x) - l * (xq - x) == l * (xr - xq);
    CongIffDifference(l * (xr - x) - yr, l * (xq - x) - yq, p);
  }

  lemma SlopeSymmetric(l: int, dx: int, dy: int, p: int)
    requires IsSlope(l, -dx, -dy, p)
    ensures IsSlope(l, dx, dy, p)
  {
    CongNeg(l * -dx, -dy, p);
    assert -(l * -dx) == l * dx;
  }

  lemma AddCommutes(ec: Curve, Q: Point, R: Point)
    requires GoodCurve(ec) && ValidPoint(ec, Q) && ValidPoint(ec, R)
    ensures AddAff(ec, Q, R) == AddAff(ec, R, Q)
  {
    if Q != INF && R != INF && Q.0 != R.0 {
      var dx, dy := R.0 - Q.0, R.1 - Q.1;
      ChordSlope(ec, Q, R);
      ChordSlope(ec, R, Q);
      assert Q.0 - R.0 == -dx && Q.1 - R.1 == -dy;
      SlopeSymmetric(Chord(ec, R, Q), dx, dy, ec.p);
      ReducedDifference(R.0, Q.0, ec.p);
      SlopeUnique(Chord(ec, Q, R), Chord(ec, R, Q), dx, dy, ec.p);
      ThirdSymmetric(ec, Chord(ec, Q, R), Q, R);
    }
  }

  ghost predicate AssociativeLaw(ec: Curve) {
    forall a, b, c :: Associates(Law(ec), a, b, c)
  }

  lemma PairLaws(ec: Curve, a: Point, b: Point)
    requires GoodCurve(ec)
    ensures Law(ec).has(a) && Law(ec).has(b) ==> Law(ec).has(Law(ec).add(a, b))
    ensures Commutes(Law(ec), a, b)
  {
    if ValidPoint(ec, a) && ValidPoint(ec, b) {
      AddCloses(ec, a, b);
      AddCommutes(ec, a, b);
    }
  }

  lemma PointLaws(ec: Curve, a: Point)
    requires GoodCurve(ec)
    ensures Law(ec).has(a) ==> Law(ec).has(Law(ec).neg(a))
    ensures Law(ec).has(a) ==> Law(ec).add(a, Law(ec).zero) == a
    ensures Law(ec).has(a) ==> Law(ec).add(a, Law(ec).neg(a)) == Law(ec).zero
  {
    if ValidPoint(ec, a) {
      NegateCloses(ec, a);
      NegateInverse(ec, a);
    }
  }

  /** Everything but associativity is a consequence of the formulas. */
  lemma CurveIsGroup(ec: Curve)
    requires GoodCurve(ec) && AssociativeLaw(ec)
    ensures Lawful(Law(ec))
  {
    forall a, b { PairLaws(ec, a, b); }
    forall a { PointLaws(ec, a); }
  }
}
