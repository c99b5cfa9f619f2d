/** The Jacobian formulas of curve_group.py, and that they compute the affine law. */
module Jacobian {
  import opened Modular
  import opened EllipticCurve

  // ---- the formulas

  function StandInQ(ec: Curve): JacPoint { (ec.p / 3, ec.p / 5, ec.p / 7) }

  function StandInR(ec: Curve): JacPoint { (ec.p / 11, ec.p / 13, ec.p / 17) }

  function JacFromAff(Q: Point): JacPoint { (Q.0, Q.1, if Q.1 != 0 then 1 else 0) }

  function NegateJac(ec: Curve, Q: JacPoint): JacPoint
    requires ec.p > 0
  {
    (Q.0, (ec.p - Q.1) % ec.p, Q.2)
  }

  function AffFromZInv(ec: Curve, Q: JacPoint, zInv: int): Point
    requires ec.p > 0
  {
    var zInv2 := zInv * zInv % ec.p;
    (Q.0 * zInv2 % ec.p, (Q.1 * zInv2 % ec.p) * zInv % ec.p)
  }

  function AffFromJac(ec: Curve, Q: JacPoint): Point
    requires ec.p > 0
  {
    if Q.2 == 0 then INF else AffFromZInv(ec, Q, InverseOrZero(Q.2, ec.p))
  }

  /** The numerator of the tangent, in the spelling the curve's a allows. */
  function TangentW(ec: Curve, X: int, QZ2: int): int
    requires ec.p > 0
  {
    if ec.a == 0 then 3 * X * X % ec.p
    else if ec.a == ec.p - 3 then 3 * (X - QZ2) * (X + QZ2) % ec.p
    else (3 * X * X + ec.a * QZ2 * QZ2) % ec.p
  }

  /** The tangent law. */
  function DoubleJacHelper(ec: Curve, Q: JacPoint, QZ2: int): JacPoint
    requires ec.p > 0
  {
    var p := ec.p;
    var QY2 := Q.1 * Q.1 % p;
    var W := TangentW(ec, Q.0, QZ2);
    var V := 4 * Q.0 * QY2 % p;
    var X := (W * W - 2 * V) % p;
    var Y := (W * (V - X) - 8 * QY2 * QY2) % p;
    var Z := 2 * Q.1 * Q.2 % p;
    (X, Y, Z)
  }

  function DoubleJac(ec: Curve, Q: JacPoint): JacPoint
    requires ec.p > 0
  {
    DoubleJacHelper(ec, Q, if ec.a == 0 then 0 else Q.2 * Q.2 % ec.p)
  }

  /** The last steps of the chord, common to both additions. */
  function ChordEnd(p: int, M: int, T: int, V: int, W: int, zz: int): JacPoint
    requires p > 0
  {
    var V2 := V * V % p;
    var V3 := V2 * V % p;
    var MV2 := M * V2 % p;
    var X := (W * W - V3 - 2 * MV2) % p;
    var Y := (W * (MV2 - X) - T * V3) % p;
    (X, Y, zz)
  }

  function AddJac(ec: Curve, Q: JacPoint, R: JacPoint): JacPoint
    requires ec.p > 0
  {
    var QS := if Q.2 == 0 then StandInQ(ec) else Q;
    var RS := if R.2 == 0 then StandInR(ec) else R;
    var p := ec.p;
    var RZ2 := RS.2 * RS.2 % p;
    var RZ3 := RZ2 * RS.2 % p;
    var QZ2 := QS.2 * QS.2 % p;
    var QZ3 := QZ2 * QS.2 % p;
    var M := QS.0 * RZ2 % p;
    var T := QS.1 * RZ3 % p;
    var V := (RS.0 * QZ2 - M) % p;
    var W := (RS.1 * QZ3 - T) % p;
    if V == 0 && Q.2 != 0 && R.2 != 0 then
      if W == 0 then DoubleJacHelper(ec, Q, QZ2) else INFJ
    else
      var S := ChordEnd(p, M, T, V, W, (V * QS.2 % p) * RS.2 % p);
      if R.2 == 0 then (if Q.2 == 0 then INFJ else Q) else if Q.2 == 0 then R else S
  }

  function AddJacAff(ec: Curve, Q: JacPoint, R: Point): JacPoint
    requires ec.p > 0
  {
    var QS := if Q.2 == 0 then StandInQ(ec) else Q;
    var RS := if R.1 == 0 then (StandInR(ec).0, StandInR(ec).1) else R;
    var p := ec.p;
    var QZ2 := QS.2 * QS.2 % p;
    var QZ3 := QZ2 * QS.2 % p;
    var M := QS.0;
    var T := QS.1;
    var V := (RS.0 * QZ2 - M) % p;
    var W := (RS.1 * QZ3 - T) % p;
    if V == 0 && Q.2 != 0 && R.1 != 0 then
      if W == 0 then DoubleJacHelper(ec, Q, QZ2) else INFJ
    else
      var S := ChordEnd(p, M, T, V, W, V * QS.2 % p);
      if R.1 == 0 then (if Q.2 == 0 then INFJ else Q) else if Q.2 == 0 then (R.0, R.1, 1) else S
  }

  // ---- values scaled by a power of z

  /** A = a*z^k modulo p. */
  ghost predicate Scaled(p: int, A: int, a: int, z: int, k: nat) {
    p > 0 && Cong(A, a * Pow(z, k), p)
  }

  lemma Regroup(a: int, s: int, b: int, t: int)
    ensures (a * s) * (b * t) == (a * b) * (s * t)
  {
    assert (a * s) * (b * t) == a * (s * (b * t));
    assert s * (b * t) == b * (s * t);
    assert a * (b * (s * t)) == (a * b) * (s * t);
  }

  lemma ProductStep(p: int, A: int, a: int, s: int, B: int, b: int, t: int, st: int)
    requires p > 0 && Cong(A, a * s, p) && Cong(B, b * t, p) && st == s * t
    ensures Cong(A * B, (a * b) * st, p)
  {
    CongMul(A, a * s, B, b * t, p);
    Regroup(a, s, b, t);
  }

  lemma ScaledProduct(p: int, A: int, a: int, i: nat, B: int, b: int, j: nat, z: int)
    requires Scaled(p, A, a, z, i) && Scaled(p, B, b, z, j)
    ensures Scaled(p, A * B, a * b, z, i + j)
  {
    PowAdd(z, i, j);
    ProductStep(p, A, a, Pow(z, i), B, b, Pow(z, j), Pow(z, i + j));
  }

  lemma ScaledSum(p: int, A: int, a: int, B: int, b: int, z: int, k: nat)
    requires Scaled(p, A, a, z, k) && Scaled(p, B, b, z, k)
    ensures Scaled(p, A + B, a + b, z, k) && Scaled(p, A - B, a - b, z, k)
  {
    var s := Pow(z, k);
    CongAdd(A, a * s, B, b * s, p);
    assert a * s + b * s == (a + b) * s && a * s - b * s == (a - b) * s;
  }

  /** A factor of its own, of weight zero. */
  lemma ScaledTimes(p: int, A: int, a: int, z: int, k: nat, c: int)
    requires Scaled(p, A, a, z, k)
    ensures Scaled(p, c * A, c * a, z, k)
  {
    var s := Pow(z, k);
    CongScale(c, A, a * s, p);
    assert c * (a * s) == (c * a) * s;
  }

  lemma ScaledReduced(p: int, A: int, a: int, z: int, k: nat)
    requires p > 0
    ensures Scaled(p, A, a, z, k) <==> Scaled(p, A % p, a, z, k)
    ensures 0 <= A % p < p
  {
    ModCong(A, p);
  }

  lemma ScaledValue(p: int, A: int, a: int, b: int, z: int, k: nat)
    requires Scaled(p, A, a, z, k) && Cong(a, b, p)
    ensures Scaled(p, A, b, z, k)
  {
    CongMul(a, b, Pow(z, k), Pow(z, k), p);
  }

  lemma PowSmall(z: int)
    ensures Pow(z, 1) == z && Pow(z, 2) == z * z && Pow(z, 3) == z * z * z
  {
    PowTwo(z);
    assert Pow(z, 3) == z * Pow(z, 2);
    assert z * (z * z) == z * z * z;
  }

  lemma ThirdAbscissa(p: int, lam: int, x: int, xr: int, x3: int, z: int, W: int, D: int, X: int)
    requires Scaled(p, W, lam, z, 1) && Scaled(p, D, x + xr, z, 2)
    requires Cong(x3, lam * lam - x - xr, p) && Cong(X, W * W - D, p)
    ensures Scaled(p, X, x3, z, 2)
  {
    ScaledProduct(p, W, lam, 1, W, lam, 1, z);
    var s := lam * lam;
    ScaledSum(p, W * W, s, D, x + xr, z, 2);
    ScaledValue(p, W * W - D, s - (x + xr), x3, z, 2);
  }

  lemma ThirdOrdinate(p: int, lam: int, x: int, y: int, x3: int, y3: int, z: int, W: int, C: int, T: int, X: int, Y: int)
    requires Scaled(p, W, lam, z, 1) && Scaled(p, C, x, z, 2) && Scaled(p, T, y, z, 3) && Scaled(p, X, x3, z, 2)
    requires Cong(y3, lam * (x - x3) - y, p) && Cong(Y, W * (C - X) - T, p)
    ensures Scaled(p, Y, y3, z, 3)
  {
    ScaledSum(p, C, x, X, x3, z, 2);
    ScaledProduct(p, W, lam, 1, C - X, x - x3, 2, z);
    var s, S := lam * (x - x3), W * (C - X);
    ScaledSum(p, S, s, T, y, z, 3);
    ScaledValue(p, S - T, s - y, y3, z, 3);
  }
  // ---- triples that stand for points

  /** Infinity, or a reduced triple on the curve. */
  predicate ValidJac(ec: Curve, S: JacPoint) {
    ec.p > 0 && (S.2 == 0 || (Reduced(ec, S) && OnCurveJac(ec, S)))
  }

  predicate Reduced(ec: Curve, S: JacPoint) {
    0 <= S.0 < ec.p && 0 <= S.1 < ec.p && 0 <= S.2 < ec.p
  }

  function Sixth(z: int): int { (z * z * z) * (z * z * z) }

  /** Y^2 = X^3 + a*X*Z^4 + b*Z^6. */
  predicate OnCurveJac(ec: Curve, S: JacPoint)
    requires ec.p > 0
  {
    var z2 := S.2 * S.2;
    Cong(S.1 * S.1, S.0 * S.0 * S.0 + ec.a * (S.0 * (z2 * z2)) + ec.b * Sixth(S.2), ec.p)
  }

  /** X = x*Z^2 and Y = y*Z^3 with Z not zero. */
  ghost predicate Represents(p: int, S: JacPoint, x: int, y: int) {
    p > 0 && S.2 % p != 0 && Cong(S.0, x * (S.2 * S.2), p) && Cong(S.1, y * (S.2 * S.2 * S.2), p)
  }

  lemma UnitPowers(z: int, p: int)
    requires IsPrime(p) && z % p != 0
    ensures (z * z) % p != 0 && (z * z * z) % p != 0
  {
    if (z * z) % p == 0 { PrimeDividesProduct(z, z, p); }
    if (z * z * z) % p == 0 { PrimeDividesProduct(z * z, z, p); }
  }

  lemma RepresentsUnique(p: int, S: JacPoint, x: int, y: int, x': int, y': int)
    requires IsPrime(p) && Represents(p, S, x, y) && Represents(p, S, x', y')
    requires 0 <= x < p && 0 <= y < p && 0 <= x' < p && 0 <= y' < p
    ensures x == x' && y == y'
  {
    var z2, z3 := S.2 * S.2, S.2 * S.2 * S.2;
    UnitPowers(S.2, p);
    assert x * z2 == z2 * x && x' * z2 == z2 * x' && y * z3 == z3 * y && y' * z3 == z3 * y';
    CancelFactor(z2, x, x', p);
    CancelFactor(z3, y, y', p);
    SmallMod(x, p);
    SmallMod(x', p);
    SmallMod(y, p);
    SmallMod(y', p);
  }

  lemma InverseSquare(z: int, i: int, i2: int, p: int)
    requires p > 0 && Cong(z * i, 1, p) && Cong(i2, i * i, p)
    ensures Cong((z * z) * i2, 1, p) && Cong((z * z * z) * (i2 * i), 1, p)
  {
    CongMul(z * i, 1, z * i, 1, p);
    assert (z * i) * (z * i) == (z * z) * (i * i);
    CongScale(z * z, i2, i * i, p);
    CongMul((z * z) * i2, 1, z * i, 1, p);
    assert ((z * z) * i2) * (z * i) == (z * z * z) * (i2 * i);
  }

  lemma AffRepresented(ec: Curve, S: JacPoint)
    requires IsPrime(ec.p) && S.2 % ec.p != 0 && S.2 != 0
    ensures var P := AffFromJac(ec, S);
            Represents(ec.p, S, P.0, P.1) && 0 <= P.0 < ec.p && 0 <= P.1 < ec.p
  {
    PrimeInverse(S.2, ec.p);
    ZInvRepresents(ec, S, Inverse(S.2, ec.p).value);
  }

  lemma ZInvRepresents(ec: Curve, S: JacPoint, i: int)
    requires ec.p > 0 && S.2 % ec.p != 0 && Cong(S.2 * i, 1, ec.p)
    ensures var P := AffFromZInv(ec, S, i);
            Represents(ec.p, S, P.0, P.1) && 0 <= P.0 < ec.p && 0 <= P.1 < ec.p
  {
    var p, z := ec.p, S.2;
    var i2 := i * i % p;
    ModCong(i * i, p);
    InverseSquare(z, i, i2, p);
    ModCong(S.0 * i2, p);
    ModCong(S.1 * i2, p);
    var w := S.1 * i2 % p;
    ModCong(w * i, p);
    UndoScale(S.0, i2, z * z, S.0 * i2 % p, p);
    CongMul(w, S.1 * i2, i, i, p);
    assert (S.1 * i2) * i == S.1 * (i2 * i);
    UndoScale(S.1, i2 * i, z * z * z, w * i % p, p);
  }

  lemma UndoScale(X: int, i: int, z: int, x: int, p: int)
    requires p > 0 && Cong(z * i, 1, p) && Cong(x, X * i, p)
    ensures Cong(X, x * z, p)
  {
    CongMul(x, X * i, z, z, p);
    CongScale(X, z * i, 1, p);
    assert (X * i) * z == X * (z * i);
  }

  /** y^2 = f(x) and Y^2 = X^3 + a*X*Z^4 + b*Z^6 say the same of a represented point. */
  lemma CurveEquations(ec: Curve, S: JacPoint, x: int, y: int)
    requires IsPrime(ec.p) && Represents(ec.p, S, x, y)
    ensures OnCurve(ec, x, y) <==> OnCurveJac(ec, S)
  {
    var p, z2, z3 := ec.p, S.2 * S.2, S.2 * S.2 * S.2;
    var X, Y := x * z2, y * z3;
    CongMul(S.1, Y, S.1, Y, p);
    CongMul(S.0, X, S.0, X, p);
    CongMul(S.0 * S.0, X * X, S.0, X, p);
    CongMul(S.0, X, z2 * z2, z2 * z2, p);
    CongScale(ec.a, S.0 * (z2 * z2), X * (z2 * z2), p);
    CongAdd(S.0 * S.0 * S.0, X * X * X, ec.a * (S.0 * (z2 * z2)), ec.a * (X * (z2 * z2)), p);
    var B := ec.b * Sixth(S.2);
    CongAdd(S.0 * S.0 * S.0 + ec.a * (S.0 * (z2 * z2)), X * X * X + ec.a * (X * (z2 * z2)), B, B, p);
    HomogeneousCurve(ec.a, ec.b, x, y, S.2);
    var w := Sixth(S.2);
    UnitPowers(S.2, p);
    if w % p == 0 { PrimeDividesProduct(z3, z3, p); }
    if OnCurve(ec, x, y) { CongScale(w, y * y, CurveY2(ec, x), p); }
    if OnCurveJac(ec, S) { CancelFactor(w, y * y, CurveY2(ec, x), p); }
  }

  lemma HomogeneousCurve(a: int, b: int, x: int, y: int, z: int)
    ensures (y * (z * z * z)) * (y * (z * z * z)) == Sixth(z) * (y * y)
    ensures var X := x * (z * z);
            X * X * X + a * (X * ((z * z) * (z * z))) + b * Sixth(z) == Sixth(z) * (x * x * x + a * x + b)
  {
    var z2, z3, w := z * z, z * z * z, Sixth(z);
    SquareOfScaled(y, z3);
    SixthPower(z);
    CubeOfScaled(x, z2, w);
    var X := x * z2;
    assert X * (z2 * z2) == (z2 * z2 * z2) * x;
    Collect(w, a, x, b);
  }

  lemma SquareOfScaled(y: int, s: int)
    ensures (y * s) * (y * s) == (s * s) * (y * y)
  {
    assert (y * s) * (y * s) == y * (s * (y * s));
    assert s * (y * s) == y * (s * s);
    assert y * (y * (s * s)) == (s * s) * (y * y);
  }

  lemma CubeOfScaled(x: int, s: int, w: int)
    requires s * s * s == w
    ensures (x * s) * (x * s) * (x * s) == w * (x * x * x)
  {
    SquareOfScaled(x, s);
    var s2, x2 := s * s, x * x;
    assert (s2 * x2) * (x * s) == s2 * (x2 * (x * s));
    assert x2 * (x * s) == s * (x2 * x);
    assert s2 * (s * (x2 * x)) == (s2 * s) * (x2 * x);
  }

  lemma Collect(w: int, a: int, x: int, b: int)
    ensures w * (x * x * x) + a * (w * x) + b * w == w * (x * x * x + a * x + b)
  {
    assert a * (w * x) == w * (a * x) && b * w == w * b;
  }

  lemma SixthPower(z: int)
    ensures (z * z) * (z * z) * (z * z) == Sixth(z)
  {
    assert (z * z) * (z * z) * (z * z) == (z * z * z) * (z * z * z);
  }

  /** A valid triple that is not infinity stands for the affine point it converts to. */
  lemma ValidRepresents(ec: Curve, S: JacPoint)
    requires GoodCurve(ec) && ValidJac(ec, S) && S.2 != 0
    ensures var P := AffFromJac(ec, S);
            ValidPoint(ec, P) && P != INF && P.1 > 0 && Represents(ec.p, S, P.0, P.1)
  {
    SmallMod(S.2, ec.p);
    AffRepresented(ec, S);
    var P := AffFromJac(ec, S);
    CurveEquations(ec, S, P.0, P.1);
    NoZeroOrdinate(ec, P);
  }

  /** A reduced triple that represents a point of the curve is valid and converts to it. */
  lemma RepresentsValid(ec: Curve, S: JacPoint, P: Point)
    requires GoodCurve(ec) && Reduced(ec, S) && ValidPoint(ec, P) && P.1 > 0 && Represents(ec.p, S, P.0, P.1)
    ensures ValidJac(ec, S) && AffFromJac(ec, S) == P && S.2 != 0
  {
    SmallMod(0, ec.p);
    CurveEquations(ec, S, P.0, P.1);
    AffRepresented(ec, S);
    RepresentsUnique(ec.p, S, P.0, P.1, AffFromJac(ec, S).0, AffFromJac(ec, S).1);
  }

  // ---- the two laws in scaled form

  /** Multiplying by the k-th power of V moves from the frame u to the frame V*u. */
  lemma Rescale(p: int, A: int, a: int, u: int, k: nat, V: int, Z: int)
    requires Scaled(p, A, a, u, k) && Cong(Z, V * u, p)
    ensures Scaled(p, A * Pow(V, k), a, Z, k)
  {
    PowCong(Z, V * u, k, p);
    PowProduct(V, u, k);
    RescaleStep(p, A, a, Pow(u, k), Pow(V, k), Pow(Z, k));
  }

  lemma RescaleStep(p: int, A: int, a: int, s: int, v: int, w: int)
    requires p > 0 && Cong(A, a * s, p) && Cong(w, v * s, p)
    ensures Cong(A * v, a * w, p)
  {
    CongMul(A, a * s, v, v, p);
    CongScale(a, w, v * s, p);
    assert (a * s) * v == a * (v * s);
  }

  /** W = h*u^3 and V = d*u^2 with h = lam*d, so W = lam*(V*u). */
  lemma ChordNumerator(p: int, lam: int, d: int, h: int, u: int, V: int, W: int, Z: int)
    requires IsSlope(lam, d, h, p) && Scaled(p, V, d, u, 2) && Scaled(p, W, h, u, 3) && Cong(Z, V * u, p)
    ensures Scaled(p, W, lam, Z, 1)
  {
    ScaledTimes(p, V, d, u, 2, lam);
    ScaledValue(p, lam * V, lam * d, h, u, 2);
    PowSmall(u);
    PowSmall(Z);
    assert u == 1 * u;
    ScaledProduct(p, lam * V, h, 2, u, 1, 1, u);
    NumeratorEnds(p, lam, V, u, Z, W, h * Pow(u, 3));
  }

  lemma NumeratorEnds(p: int, lam: int, V: int, u: int, Z: int, W: int, w: int)
    requires p > 0 && Cong(W, w, p) && Cong((lam * V) * u, w, p) && Cong(Z, V * u, p)
    ensures Cong(W, lam * Z, p)
  {
    CongScale(lam, Z, V * u, p);
    assert lam * (V * u) == (lam * V) * u;
  }

  /** The values ChordEnd forms, in the frame of its answer. */
  lemma ChordProducts(p: int, xq: int, xr: int, yq: int, u: int, M: int, T: int, V: int, Z: int, MV2: int, V3: int)
    requires Scaled(p, M, xq, u, 2) && Scaled(p, T, yq, u, 3) && Scaled(p, V, xr - xq, u, 2) && Cong(Z, V * u, p)
    requires Cong(MV2, M * Pow(V, 2), p) && Cong(V3, Pow(V, 3), p)
    ensures Scaled(p, MV2, xq, Z, 2) && Scaled(p, V3 + 2 * MV2, xq + xr, Z, 2) && Scaled(p, T * V3, yq, Z, 3)
  {
    Rescale(p, M, xq, u, 2, V, Z);
    Rescale(p, V, xr - xq, u, 2, V, Z);
    Rescale(p, T, yq, u, 3, V, Z);
    assert V * Pow(V, 2) == Pow(V, 3);
    CongScale(T, V3, Pow(V, 3), p);
    ScaledTimes(p, MV2, xq, Z, 2, 2);
    ScaledSum(p, V3, xr - xq, 2 * MV2, 2 * xq, Z, 2);
  }

  lemma ChordEndForms(p: int, M: int, T: int, V: int, W: int, Z: int, MV2: int, V3: int)
    requires p > 0 && MV2 == M * (V * V % p) % p && V3 == (V * V % p) * V % p
    ensures Cong(MV2, M * Pow(V, 2), p) && Cong(V3, Pow(V, 3), p)
    ensures var S := ChordEnd(p, M, T, V, W, Z);
            && Cong(S.0, W * W - (V3 + 2 * MV2), p) && Cong(S.1, W * (MV2 - S.0) - T * V3, p)
            && 0 <= S.0 < p && 0 <= S.1 < p && S.2 == Z
  {
    var V2 := V * V % p;
    ModCong(V * V, p);
    PowSmall(V);
    CongScale(M, V2, V * V, p);
    CongMul(V2, V * V, V, V, p);
    ModCong(M * V2, p);
    ModCong(V2 * V, p);
    var S := ChordEnd(p, M, T, V, W, Z);
    ModCong(W * W - V3 - 2 * MV2, p);
    ModCong(W * (MV2 - S.0) - T * V3, p);
    assert W * W - V3 - 2 * MV2 == W * W - (V3 + 2 * MV2);
  }

  /** The chord: in a common frame V is the difference of the abscissas and W of the ordinates. */
  lemma ChordScaled(p: int, lam: int, xq: int, yq: int, xr: int, yr: int, u: int, M: int, T: int, V: int, W: int, Z: int, P: Point)
    requires p > 0 && IsSlope(lam, xr - xq, yr - yq, p)
    requires Scaled(p, M, xq, u, 2) && Scaled(p, T, yq, u, 3)
    requires Scaled(p, V, xr - xq, u, 2) && Scaled(p, W, yr - yq, u, 3) && Cong(Z, V * u, p)
    requires Cong(P.0, lam * lam - xq - xr, p) && Cong(P.1, lam * (xq - P.0) - yq, p)
    ensures var S := ChordEnd(p, M, T, V, W, Z);
            Scaled(p, S.0, P.0, Z, 2) && Scaled(p, S.1, P.1, Z, 3) && 0 <= S.0 < p && 0 <= S.1 < p && S.2 == Z
  {
    var S := ChordEnd(p, M, T, V, W, Z);
    var MV2, V3 := M * (V * V % p) % p, (V * V % p) * V % p;
    ChordEndForms(p, M, T, V, W, Z, MV2, V3);
    ChordNumerator(p, lam, xr - xq, yr - yq, u, V, W, Z);
    ChordProducts(p, xq, xr, yq, u, M, T, V, Z, MV2, V3);
    ThirdAbscissa(p, lam, xq, xr, P.0, Z, W, V3 + 2 * MV2, S.0);
    ThirdOrdinate(p, lam, xq, yq, P.0, P.1, Z, W, MV2, T * V3, S.0, S.1);
  }

  // ---- doubling

  /** All three spellings of a give 3X^2 + a*Z^4. */
  lemma TangentSpellings(ec: Curve, X: int, QZ2: int)
    requires ec.p > 0
    ensures Cong(TangentW(ec, X, QZ2), 3 * (X * X) + ec.a * (QZ2 * QZ2), ec.p)
  {
    var p := ec.p;
    var s, t := X * X, QZ2 * QZ2;
    assert 3 * X * X == 3 * s;
    if ec.a == 0 {
      ModCong(3 * s, p);
    } else if ec.a == p - 3 {
      var n := 3 * (X - QZ2) * (X + QZ2);
      ModCong(n, p);
      assert n == 3 * s - 3 * t;
      assert 3 * s + (p - 3) * t == n + t * p;
      CongStep(n, t, p);
    } else {
      assert ec.a * QZ2 * QZ2 == ec.a * t;
      ModCong(3 * s + ec.a * t, p);
    }
  }

  lemma TangentNumerator(ec: Curve, X: int, x: int, z: int, QZ2: int, lam: int, y: int, Y: int, Z: int)
    requires ec.p > 0 && (ec.a == 0 || Cong(QZ2, z * z, ec.p))
    requires IsSlope(lam, 2 * y, 3 * x * x + ec.a, ec.p)
    requires Scaled(ec.p, X, x, z, 2) && Scaled(ec.p, Y, y, z, 3) && Cong(Z, (2 * Y) * z, ec.p)
    ensures Scaled(ec.p, TangentW(ec, X, QZ2), lam, Z, 1)
  {
    var p, W := ec.p, TangentW(ec, X, QZ2);
    TangentSpellings(ec, X, QZ2);
    ScaledProduct(p, X, x, 2, X, x, 2, z);
    ScaledTimes(p, X * X, x * x, z, 4, 3);
    PowSmall(z);
    assert ec.a == 0 || Scaled(p, QZ2, 1, z, 2);
    if ec.a != 0 {
      ScaledProduct(p, QZ2, 1, 2, QZ2, 1, 2, z);
      ScaledTimes(p, QZ2 * QZ2, 1, z, 4, ec.a);
    } else {
      assert ec.a * (QZ2 * QZ2) == 0 && 0 * Pow(z, 4) == 0;
    }
    ScaledSum(p, 3 * (X * X), 3 * (x * x), ec.a * (QZ2 * QZ2), ec.a, z, 4);
    assert 3 * (x * x) == 3 * x * x;
    ScaledValue(p, W, 3 * (x * x) + ec.a, lam * (2 * y), z, 4);
    // Z = 2y*z^4
    ScaledTimes(p, Y, y, z, 3, 2);
    ScaledProduct(p, 2 * Y, 2 * y, 3, z, 1, 1, z);
    assert (2 * y) * 1 == 2 * y;
    ScaledTimes(p, Z, 2 * y, z, 4, lam);
    PowSmall(Z);
  }

  lemma TangentProducts(p: int, X: int, Y: int, x: int, y: int, z: int, Z: int, QY2: int, V: int)
    requires Scaled(p, X, x, z, 2) && Scaled(p, Y, y, z, 3) && Cong(Z, (2 * Y) * z, p)
    requires Cong(QY2, Y * Y, p) && Cong(V, 4 * (X * QY2), p)
    ensures Scaled(p, V, x, Z, 2) && Scaled(p, 2 * V, x + x, Z, 2) && Scaled(p, 8 * (QY2 * QY2), y, Z, 3)
  {
    var F := 2 * Y;
    Rescale(p, X, x, z, 2, F, Z);
    Rescale(p, Y, y, z, 3, F, Z);
    PowSmall(F);
    CongScale(X, QY2, Y * Y, p);
    CongScale(4, X * QY2, X * (Y * Y), p);
    assert F * F == 4 * (Y * Y);
    assert X * (4 * (Y * Y)) == 4 * (X * (Y * Y));
    CongMul(QY2, Y * Y, QY2, Y * Y, p);
    var s := Y * Y;
    CongScale(8, QY2 * QY2, s * s, p);
    assert F * F * F == 8 * (s * Y);
    assert Y * (8 * (s * Y)) == 8 * (s * s) by { assert Y * (s * Y) == s * s; }
    ScaledTimes(p, V, x, Z, 2, 2);
  }

  lemma DoubleForms(ec: Curve, Q: JacPoint, QZ2: int, QY2: int, V: int)
    requires ec.p > 0 && QY2 == Q.1 * Q.1 % ec.p && V == 4 * Q.0 * QY2 % ec.p
    ensures var S, W := DoubleJacHelper(ec, Q, QZ2), TangentW(ec, Q.0, QZ2);
            && Cong(QY2, Q.1 * Q.1, ec.p) && Cong(V, 4 * (Q.0 * QY2), ec.p)
            && Reduced(ec, S) && Cong(S.2, (2 * Q.1) * Q.2, ec.p)
            && Cong(S.0, W * W - 2 * V, ec.p) && Cong(S.1, W * (V - S.0) - 8 * (QY2 * QY2), ec.p)
  {
    var S, W := DoubleJacHelper(ec, Q, QZ2), TangentW(ec, Q.0, QZ2);
    DoubleRemainders(ec.p, Q.0, Q.1, Q.2, QY2, V, W, S.0, S.1, S.2);
  }

  lemma DoubleRemainders(p: int, x: int, y: int, z: int, QY2: int, V: int, W: int, X: int, Y: int, Z: int)
    requires p > 0 && QY2 == y * y % p && V == 4 * x * QY2 % p && Z == 2 * y * z % p
    requires X == (W * W - 2 * V) % p && Y == (W * (V - X) - 8 * QY2 * QY2) % p
    ensures Cong(QY2, y * y, p) && Cong(V, 4 * (x * QY2), p) && Cong(Z, (2 * y) * z, p)
    ensures Cong(X, W * W - 2 * V, p) && Cong(Y, W * (V - X) - 8 * (QY2 * QY2), p)
    ensures 0 <= X < p && 0 <= Y < p && 0 <= Z < p
  {
    RemainderOf(QY2, y * y, y * y, p);
    Associated(4, x, QY2);
    RemainderOf(V, 4 * x * QY2, 4 * (x * QY2), p);
    RemainderOf(Z, 2 * y * z, (2 * y) * z, p);
    RemainderOf(X, W * W - 2 * V, W * W - 2 * V, p);
    Associated(8, QY2, QY2);
    RemainderOf(Y, W * (V - X) - 8 * QY2 * QY2, W * (V - X) - 8 * (QY2 * QY2), p);
  }

  lemma Associated(a: int, b: int, c: int)
    ensures a * b * c == a * (b * c)
  {
  }

  lemma RemainderOf(r: int, a: int, b: int, p: int)
    requires p > 0 && r == a % p && a == b
    ensures Cong(r, b, p) && 0 <= r < p
  {
    ModCong(a, p);
  }

  lemma TangentScaled(ec: Curve, Q: JacPoint, QZ2: int, x: int, y: int, lam: int, P: Point)
    requires ec.p > 0 && (ec.a == 0 || Cong(QZ2, Q.2 * Q.2, ec.p))
    requires Scaled(ec.p, Q.0, x, Q.2, 2) && Scaled(ec.p, Q.1, y, Q.2, 3)
    requires IsSlope(lam, 2 * y, 3 * x * x + ec.a, ec.p)
    requires Cong(P.0, lam * lam - x - x, ec.p) && Cong(P.1, lam * (x - P.0) - y, ec.p)
    ensures var S := DoubleJacHelper(ec, Q, QZ2);
            Reduced(ec, S) && Scaled(ec.p, S.0, P.0, S.2, 2) && Scaled(ec.p, S.1, P.1, S.2, 3) && Cong(S.2, (2 * Q.1) * Q.2, ec.p)
  {
    var p, S, W := ec.p, DoubleJacHelper(ec, Q, QZ2), TangentW(ec, Q.0, QZ2);
    var QY2 := Q.1 * Q.1 % p;
    var V := 4 * Q.0 * QY2 % p;
    DoubleForms(ec, Q, QZ2, QY2, V);
    TangentNumerator(ec, Q.0, x, Q.2, QZ2, lam, y, Q.1, S.2);
    TangentProducts(p, Q.0, Q.1, x, y, Q.2, S.2, QY2, V);
    ThirdAbscissa(p, lam, x, x, P.0, S.2, W, 2 * V, S.0);
    ThirdOrdinate(p, lam, x, y, P.0, P.1, S.2, W, V, 8 * (QY2 * QY2), S.0, S.1);
  }

  // ---- the formulas compute the affine law

  lemma RepresentsScaled(p: int, S: JacPoint, x: int, y: int)
    requires p > 0
    ensures Represents(p, S, x, y) <==> (S.2 % p != 0 && Scaled(p, S.0, x, S.2, 2) && Scaled(p, S.1, y, S.2, 3))
  {
    PowSmall(S.2);
  }

  /** A scaled value is zero exactly when the value is. */
  lemma ScaledIsZero(p: int, A: int, a: int, z: int, k: nat)
    requires IsPrime(p) && Scaled(p, A, a, z, k) && z % p != 0
    ensures A % p == 0 <==> a % p == 0
  {
    PowNotZero(z, k, p);
    if A % p == 0 {
      PrimeDividesProduct(a, Pow(z, k), p);
    }
    if a % p == 0 {
      ModCong(a, p);
      CongMul(a, 0, Pow(z, k), Pow(z, k), p);
    }
  }

  lemma {:induction false} PowNotZero(z: int, k: nat, p: int)
    requires IsPrime(p) && z % p != 0
    ensures Pow(z, k) % p != 0
  {
    if k == 0 {
      SmallMod(1, p);
    } else {
      PowNotZero(z, k - 1, p);
      if Pow(z, k) % p == 0 { PrimeDividesProduct(z, Pow(z, k - 1), p); }
    }
  }

  lemma ProductNotZero(a: int, b: int, c: int, p: int)
    requires IsPrime(p) && a % p != 0 && b % p != 0 && Cong(c, a * b, p)
    ensures c % p != 0
  {
    if (a * b) % p == 0 { PrimeDividesProduct(a, b, p); }
  }

  /** The tangent formulas double every valid triple, infinity included. */
  lemma DoubleHelperRefines(ec: Curve, Q: JacPoint, QZ2: int)
    requires GoodCurve(ec) && ValidJac(ec, Q) && (ec.a == 0 || Cong(QZ2, Q.2 * Q.2, ec.p))
    ensures ValidJac(ec, DoubleJacHelper(ec, Q, QZ2))
    ensures AffFromJac(ec, DoubleJacHelper(ec, Q, QZ2)) == DoubleAff(ec, AffFromJac(ec, Q))
  {
    var p, S := ec.p, DoubleJacHelper(ec, Q, QZ2);
    if Q.2 == 0 {
      assert 2 * Q.1 * Q.2 == 0;
      SmallMod(0, p);
    } else {
      var P := AffFromJac(ec, Q);
      ValidRepresents(ec, Q);
      RepresentsScaled(p, Q, P.0, P.1);
      TangentSlope(ec, P);
      var lam := Tangent(ec, P);
      TangentCloses(ec, P, lam);
      var D := Third(ec, lam, P, P.0);
      ModCong(lam * lam - P.0 - P.0, p);
      ModCong(lam * (P.0 - D.0) - P.1, p);
      TangentScaled(ec, Q, QZ2, P.0, P.1, lam, D);
      SmallMod(P.1, p);
      ScaledIsZero(p, Q.1, P.1, Q.2, 3);
      SmallMod(Q.1, p);
      DoubleOrdinate(Q.1, p);
      ProductNotZero(2 * Q.1, Q.2, S.2, p);
      RepresentsScaled(p, S, D.0, D.1);
      RepresentsValid(ec, S, D);
    }
  }

  /** double_jac is the affine doubling. */
  lemma DoubleRefines(ec: Curve, Q: JacPoint)
    requires GoodCurve(ec) && ValidJac(ec, Q)
    ensures ValidJac(ec, DoubleJac(ec, Q))
    ensures AffFromJac(ec, DoubleJac(ec, Q)) == DoubleAff(ec, AffFromJac(ec, Q))
  {
    ModCong(Q.2 * Q.2, ec.p);
    DoubleHelperRefines(ec, Q, if ec.a == 0 then 0 else Q.2 * Q.2 % ec.p);
  }

  lemma DifferenceZero(p: int, V: int, a: int, b: int, u: int, k: nat)
    requires IsPrime(p) && 0 <= V < p && Scaled(p, V, b - a, u, k) && u % p != 0 && 0 <= a < p && 0 <= b < p
    ensures V == 0 <==> a == b
  {
    ScaledIsZero(p, V, b - a, u, k);
    SmallMod(V, p);
    SmallMod(0, p);
    if a != b { ReducedDifference(b, a, p); }
  }

  /** What either addition answers from the values of the common frame u. */
  function FromFrame(ec: Curve, Q: JacPoint, QZ2: int, M: int, T: int, V: int, W: int, Z: int): JacPoint
    requires ec.p > 0
  {
    if V == 0 then (if W == 0 then DoubleJacHelper(ec, Q, QZ2) else INFJ) else ChordEnd(ec.p, M, T, V, W, Z)
  }

  lemma FrameRefines(ec: Curve, Q: JacPoint, QZ2: int, A: Point, B: Point, u: int, M: int, T: int, V: int, W: int, Z: int)
    requires GoodCurve(ec) && ValidJac(ec, Q) && (ec.a == 0 || Cong(QZ2, Q.2 * Q.2, ec.p)) && Q.2 != 0
    requires A == AffFromJac(ec, Q) && ValidPoint(ec, A) && ValidPoint(ec, B) && A.1 > 0 && B.1 > 0 && u % ec.p != 0
    requires Scaled(ec.p, M, A.0, u, 2) && Scaled(ec.p, T, A.1, u, 3)
    requires Scaled(ec.p, V, B.0 - A.0, u, 2) && Scaled(ec.p, W, B.1 - A.1, u, 3)
    requires Cong(Z, V * u, ec.p) && 0 <= V < ec.p && 0 <= W < ec.p && 0 <= Z < ec.p
    ensures var S := FromFrame(ec, Q, QZ2, M, T, V, W, Z);
            ValidJac(ec, S) && AffFromJac(ec, S) == AddAff(ec, A, B)
  {
    var p := ec.p;
    DifferenceZero(p, V, A.0, B.0, u, 2);
    DifferenceZero(p, W, A.1, B.1, u, 3);
    if V == 0 { DoubleHelperRefines(ec, Q, QZ2); } else { ChordRefines(ec, A, B, u, M, T, V, W, Z); }
  }

  /** Points of two abscissas: the chord formulas answer the chord's third point. */
  lemma ChordRefines(ec: Curve, A: Point, B: Point, u: int, M: int, T: int, V: int, W: int, Z: int)
    requires GoodCurve(ec) && ValidPoint(ec, A) && ValidPoint(ec, B) && A.1 > 0 && B.1 > 0 && A.0 != B.0 && u % ec.p != 0
    requires Scaled(ec.p, M, A.0, u, 2) && Scaled(ec.p, T, A.1, u, 3)
    requires Scaled(ec.p, V, B.0 - A.0, u, 2) && Scaled(ec.p, W, B.1 - A.1, u, 3)
    requires Cong(Z, V * u, ec.p) && 0 < V < ec.p && 0 <= Z < ec.p
    ensures var S := ChordEnd(ec.p, M, T, V, W, Z);
            ValidJac(ec, S) && AffFromJac(ec, S) == AddAff(ec, A, B)
  {
    var p, lam := ec.p, Chord(ec, A, B);
    ChordSlope(ec, A, B);
    ChordCloses(ec, A, B, lam);
    var P := Third(ec, lam, A, B.0);
    ModCong(lam * lam - A.0 - B.0, p);
    ModCong(lam * (A.0 - P.0) - A.1, p);
    ChordScaled(p, lam, A.0, A.1, B.0, B.1, u, M, T, V, W, Z, P);
    SmallMod(V, p);
    ProductNotZero(V, u, Z, p);
    var S := ChordEnd(p, M, T, V, W, Z);
    RepresentsScaled(p, S, P.0, P.1);
    RepresentsValid(ec, S, P);
  }

  /** A coordinate moved to the frame of the two denominators. */
  lemma ToFrame(p: int, A: int, a: int, z: int, k: nat, w: int, wk: int, u: int)
    requires Scaled(p, A, a, z, k) && Cong(wk, Pow(w, k), p) && u == w * z
    ensures Scaled(p, A * wk, a, u, k)
  {
    Rescale(p, A, a, z, k, w, u);
    CongScale(A, wk, Pow(w, k), p);
  }

  lemma ReducedPowers(p: int, z: int)
    requires p > 0
    ensures Cong(z * z % p, Pow(z, 2), p) && Cong((z * z % p) * z % p, Pow(z, 3), p) && Cong(z * z % p, z * z, p)
  {
    PowSmall(z);
    ModCong(z * z, p);
    CongMul(z * z % p, z * z, z, z, p);
    ModCong((z * z % p) * z, p);
  }

  lemma FrameDifference(p: int, A: int, a: int, B: int, b: int, u: int, k: nat)
    requires Scaled(p, A, a, u, k) && Scaled(p, B, b, u, k)
    ensures Scaled(p, (A - B) % p, a - b, u, k) && 0 <= (A - B) % p < p
  {
    ScaledSum(p, A, a, B, b, u, k);
    ScaledReduced(p, A - B, a - b, u, k);
  }

  lemma FrameZ(p: int, V: int, zq: int, zr: int, u: int)
    requires p > 0 && u == zr * zq
    ensures Cong((V * zq % p) * zr % p, V * u, p) && 0 <= (V * zq % p) * zr % p < p
  {
    ModCong(V * zq, p);
    CongMul(V * zq % p, V * zq, zr, zr, p);
    assert (V * zq) * zr == V * u;
    ModCong((V * zq % p) * zr, p);
  }

  lemma AddJacFinite(ec: Curve, Q: JacPoint, R: JacPoint)
    requires GoodCurve(ec) && ValidJac(ec, Q) && ValidJac(ec, R) && Q.2 != 0 && R.2 != 0
    ensures ValidJac(ec, AddJac(ec, Q, R))
    ensures AffFromJac(ec, AddJac(ec, Q, R)) == AddAff(ec, AffFromJac(ec, Q), AffFromJac(ec, R))
  {
    var p, A, B, u := ec.p, AffFromJac(ec, Q), AffFromJac(ec, R), R.2 * Q.2;
    ValidRepresents(ec, Q);
    ValidRepresents(ec, R);
    RepresentsScaled(p, Q, A.0, A.1);
    RepresentsScaled(p, R, B.0, B.1);
    var RZ2, QZ2 := R.2 * R.2 % p, Q.2 * Q.2 % p;
    var RZ3, QZ3 := RZ2 * R.2 % p, QZ2 * Q.2 % p;
    ReducedPowers(p, R.2);
    ReducedPowers(p, Q.2);
    assert u == Q.2 * R.2;
    var M, T := Q.0 * RZ2 % p, Q.1 * RZ3 % p;
    ToFrame(p, Q.0, A.0, Q.2, 2, R.2, RZ2, u);
    ToFrame(p, Q.1, A.1, Q.2, 3, R.2, RZ3, u);
    ScaledReduced(p, Q.0 * RZ2, A.0, u, 2);
    ScaledReduced(p, Q.1 * RZ3, A.1, u, 3);
    ToFrame(p, R.0, B.0, R.2, 2, Q.2, QZ2, u);
    ToFrame(p, R.1, B.1, R.2, 3, Q.2, QZ3, u);
    FrameDifference(p, R.0 * QZ2, B.0, M, A.0, u, 2);
    FrameDifference(p, R.1 * QZ3, B.1, T, A.1, u, 3);
    var V, W := (R.0 * QZ2 - M) % p, (R.1 * QZ3 - T) % p;
    var Z := (V * Q.2 % p) * R.2 % p;
    FrameZ(p, V, Q.2, R.2, u);
    ProductNotZero(R.2, Q.2, u, p);
    FrameRefines(ec, Q, QZ2, A, B, u, M, T, V, W, Z);
  }

  /** add_jac is the affine addition on every pair of valid operands. */
  lemma AddRefines(ec: Curve, Q: JacPoint, R: JacPoint)
    requires GoodCurve(ec) && ValidJac(ec, Q) && ValidJac(ec, R)
    ensures ValidJac(ec, AddJac(ec, Q, R))
    ensures AffFromJac(ec, AddJac(ec, Q, R)) == AddAff(ec, AffFromJac(ec, Q), AffFromJac(ec, R))
  {
    if Q.2 != 0 && R.2 != 0 {
      AddJacFinite(ec, Q, R);
    } else if Q.2 != 0 {
      ValidRepresents(ec, Q);
    } else if R.2 != 0 {
      ValidRepresents(ec, R);
    }
  }

  /** An affine point lifted to Z = 1 is itself again. */
  lemma LiftRefines(ec: Curve, Q: Point)
    requires GoodCurve(ec) && ValidPoint(ec, Q)
    ensures ValidJac(ec, JacFromAff(Q)) && AffFromJac(ec, JacFromAff(Q)) == Q
  {
    if Q != INF {
      SmallMod(1, ec.p);
      RepresentsValid(ec, JacFromAff(Q), Q);
    }
  }

  /** add_jac_aff is the affine addition, the second operand being affine. */
  lemma AddAffRefines(ec: Curve, Q: JacPoint, R: Point)
    requires GoodCurve(ec) && ValidJac(ec, Q) && ValidPoint(ec, R)
    ensures ValidJac(ec, AddJacAff(ec, Q, R))
    ensures AffFromJac(ec, AddJacAff(ec, Q, R)) == AddAff(ec, AffFromJac(ec, Q), R)
  {
    if Q.2 != 0 && R != INF {
      AddJacAffFinite(ec, Q, R);
    } else if Q.2 != 0 {
      ValidRepresents(ec, Q);
    } else if R != INF {
      LiftRefines(ec, R);
    }
  }

  lemma AddJacAffFinite(ec: Curve, Q: JacPoint, R: Point)
    requires GoodCurve(ec) && ValidJac(ec, Q) && ValidPoint(ec, R) && Q.2 != 0 && R != INF
    ensures ValidJac(ec, AddJacAff(ec, Q, R))
    ensures AffFromJac(ec, AddJacAff(ec, Q, R)) == AddAff(ec, AffFromJac(ec, Q), R)
  {
    var p, A, u := ec.p, AffFromJac(ec, Q), Q.2;
    ValidRepresents(ec, Q);
    RepresentsScaled(p, Q, A.0, A.1);
    var QZ2 := Q.2 * Q.2 % p;
    var QZ3 := QZ2 * Q.2 % p;
    ReducedPowers(p, Q.2);
    CongScale(R.0, QZ2, Pow(u, 2), p);
    CongScale(R.1, QZ3, Pow(u, 3), p);
    FrameDifference(p, R.0 * QZ2, R.0, Q.0, A.0, u, 2);
    FrameDifference(p, R.1 * QZ3, R.1, Q.1, A.1, u, 3);
    var V, W := (R.0 * QZ2 - Q.0) % p, (R.1 * QZ3 - Q.1) % p;
    ModCong(V * Q.2, p);
    FrameRefines(ec, Q, QZ2, A, R, u, Q.0, Q.1, V, W, V * Q.2 % p);
  }

  /** negate_jac is the affine negation. */
  lemma NegateRefines(ec: Curve, Q: JacPoint)
    requires GoodCurve(ec) && ValidJac(ec, Q)
    ensures ValidJac(ec, NegateJac(ec, Q))
    ensures AffFromJac(ec, NegateJac(ec, Q)) == Negate(ec, AffFromJac(ec, Q))
  {
    var p, N, P := ec.p, NegateJac(ec, Q), AffFromJac(ec, Q);
    if Q.2 == 0 {
      NegateCloses(ec, INF);
      DivModUnique(p, p, 1, 0);
    } else {
      ValidRepresents(ec, Q);
      NegateCloses(ec, P);
      RepresentsScaled(p, Q, P.0, P.1);
      ModCong(p - Q.1, p);
      ScaledSum(p, Q.1, P.1, Q.1, P.1, Q.2, 3);
      ScaledTimes(p, Q.1, P.1, Q.2, 3, -1);
      CongStep(-1 * Q.1, 1, p);
      CongStep(-1 * P.1, 1, p);
      ScaledValue(p, -1 * Q.1, -1 * P.1, p - P.1, Q.2, 3);
      RepresentsScaled(p, N, P.0, p - P.1);
      RepresentsValid(ec, N, (P.0, p - P.1));
    }
  }

  /** The blinding of a triple, the draw l being any nonzero residue. */
  function BlindedJac(ec: Curve, Q: JacPoint, l: int): JacPoint
    requires ec.p > 0
  {
    var l2 := l * l % ec.p;
    (Q.0 * l2 % ec.p, (Q.1 * l2 % ec.p) * l % ec.p, Q.2 * l % ec.p)
  }

  lemma BlindedCoordinates(ec: Curve, Q: JacPoint, l: int)
    requires ec.p > 0
    ensures var B := BlindedJac(ec, Q, l);
            && Reduced(ec, B) && Cong(B.0, Q.0 * Pow(l, 2), ec.p) && Cong(B.1, Q.1 * Pow(l, 3), ec.p)
            && Cong(B.2, Q.2 * l, ec.p)
  {
    var p := ec.p;
    var l2 := l * l % p;
    var w := Q.1 * l2 % p;
    ModCong(Q.2 * l, p);
    ModCong(Q.1 * l2, p);
    CongMul(w, Q.1 * l2, l, l, p);
    ModCong(w * l, p);
    ModCong(Q.0 * l2, p);
    BlindedY(p, Q.1, l, l2);
    BlindedY(p, Q.0, l, l2);
  }

  /** Blinding keeps the affine point, whatever the draw. */
  lemma BlindedSame(ec: Curve, Q: JacPoint, l: int)
    requires GoodCurve(ec) && ValidJac(ec, Q) && 0 < l < ec.p
    ensures ValidJac(ec, BlindedJac(ec, Q, l)) && AffFromJac(ec, BlindedJac(ec, Q, l)) == AffFromJac(ec, Q)
  {
    var p, B, P := ec.p, BlindedJac(ec, Q, l), AffFromJac(ec, Q);
    if Q.2 == 0 {
      SmallMod(0, p);
    } else {
      ValidRepresents(ec, Q);
      RepresentsScaled(p, Q, P.0, P.1);
      BlindedCoordinates(ec, Q, l);
      ReframeTo(p, Q.0, P.0, Q.2, 2, l, B.0, B.2);
      ReframeTo(p, Q.1, P.1, Q.2, 3, l, B.1, B.2);
      SmallMod(l, p);
      ProductNotZero(Q.2, l, B.2, p);
      RepresentsScaled(p, B, P.0, P.1);
      RepresentsValid(ec, B, P);
    }
  }

  lemma BlindedY(p: int, Y: int, l: int, l2: int)
    requires p > 0 && l2 == l * l % p
    ensures Cong((Y * l2) * l, Y * Pow(l, 3), p) && Cong(Y * l2, Y * Pow(l, 2), p)
  {
    ReducedPowers(p, l);
    CongScale(Y, l2, Pow(l, 2), p);
    CongMul(l2, Pow(l, 2), l, l, p);
    PowSmall(l);
    CongScale(Y, l2 * l, Pow(l, 3), p);
    assert (Y * l2) * l == Y * (l2 * l);
  }

  lemma ReframeTo(p: int, A: int, a: int, z: int, k: nat, l: int, B: int, Z: int)
    requires Scaled(p, A, a, z, k) && Cong(B, A * Pow(l, k), p) && Cong(Z, z * l, p)
    ensures Scaled(p, B, a, Z, k)
  {
    assert z * l == l * z;
    Rescale(p, A, a, z, k, l, Z);
  }
}
