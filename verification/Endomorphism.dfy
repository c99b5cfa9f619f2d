/** The map (x, y) -> (beta*x, y) on a curve y^2 = x^3 + b, beta a cube root of 1: a homomorphism. */
module Endomorphism {
  import opened Modular
  import opened Groups
  import opened EllipticCurve
  import opened Jacobian
  import opened CurveGroups
  import opened JacobianGroup

  ghost predicate CubeRootCurve(ec: Curve, beta: int) {
    GoodCurve(ec) && ec.a == 0 && Cong(beta * beta * beta, 1, ec.p)
  }

  function Endo(ec: Curve, beta: int, Q: Point): Point {
    if Q == INF || ec.p <= 0 then INF else (Q.0 * beta % ec.p, Q.1)
  }

  function EndoJac(ec: Curve, beta: int, Q: JacPoint): JacPoint
    requires ec.p > 0
  {
    (Q.0 * beta % ec.p, Q.1, Q.2)
  }

  lemma BetaUnit(beta: int, p: int)
    requires IsPrime(p) && Cong(beta * beta * beta, 1, p)
    ensures beta % p != 0
  {
    assert beta * (beta * beta) == beta * beta * beta;
    SmallMod(0, p);
    SmallMod(1, p);
    if beta % p == 0 { CongMul(beta, 0, beta * beta, beta * beta, p); }
  }

  lemma CubeKept(beta: int, x: int, x': int, p: int)
    requires p > 0 && Cong(beta * beta * beta, 1, p) && Cong(x', x * beta, p)
    ensures Cong(x' * x' * x', x * x * x, p)
  {
    CongMul(x', x * beta, x', x * beta, p);
    CongMul(x' * x', (x * beta) * (x * beta), x', x * beta, p);
    var b3, x3 := beta * beta * beta, x * x * x;
    assert (x * beta) * (x * beta) == (x * x) * (beta * beta);
    assert ((x * x) * (beta * beta)) * (x * beta) == x3 * b3 by {
      assert ((x * x) * (beta * beta)) * (x * beta) == (x * x) * (x * ((beta * beta) * beta));
    }
    CongScale(x3, b3, 1, p);
  }

  lemma EndoCloses(ec: Curve, beta: int, Q: Point)
    requires CubeRootCurve(ec, beta) && ValidPoint(ec, Q)
    ensures ValidPoint(ec, Endo(ec, beta, Q)) && (Q != INF ==> Endo(ec, beta, Q) != INF)
  {
    if Q != INF {
      var x' := Q.0 * beta % ec.p;
      ModCong(Q.0 * beta, ec.p);
      CubeKept(beta, Q.0, x', ec.p);
      CongAdd(x' * x' * x', Q.0 * Q.0 * Q.0, ec.b, ec.b, ec.p);
    }
  }

  /** The image of the third point is the third point of the images, for the slope beta^2*l. */
  lemma ThirdAbscissaKept(beta: int, l: int, l': int, xq: int, xq': int, xr: int, xr': int, x: int, x': int, p: int)
    requires p > 0 && Cong(beta * beta * beta, 1, p) && Cong(l', l * (beta * beta), p)
    requires Cong(xq', xq * beta, p) && Cong(xr', xr * beta, p)
    requires Cong(x, l * l - xq - xr, p) && Cong(x', l' * l' - xq' - xr', p)
    ensures Cong(x', x * beta, p)
  {
    var b2, b3 := beta * beta, beta * beta * beta;
    CongMul(l', l * b2, l', l * b2, p);
    assert (l * b2) * (l * b2) == (l * l) * (b2 * b2);
    assert b2 * b2 == b3 * beta;
    CongMul(b3, 1, beta, beta, p);
    CongScale(l * l, b3 * beta, beta, p);
    CongAdd(l' * l', (l * l) * beta, xq', xq * beta, p);
    CongAdd(l' * l' - xq', (l * l) * beta - xq * beta, xr', xr * beta, p);
    CongMul(x, l * l - xq - xr, beta, beta, p);
    assert (l * l) * beta - xq * beta - xr * beta == (l * l - xq - xr) * beta;
  }

  lemma GatherCube(l: int, d: int, beta: int)
    ensures (l * (beta * beta)) * (d * beta) == (l * d) * (beta * beta * beta)
  {
    var b2 := beta * beta;
    assert (l * b2) * (d * beta) == l * (b2 * (d * beta));
    assert b2 * (d * beta) == d * (b2 * beta);
    assert l * (d * (b2 * beta)) == (l * d) * (b2 * beta);
  }

  lemma ThirdOrdinateKept(beta: int, l: int, l': int, xq: int, xq': int, x: int, x': int, y: int, p: int)
    requires p > 0 && Cong(beta * beta * beta, 1, p) && Cong(l', l * (beta * beta), p)
    requires Cong(xq', xq * beta, p) && Cong(x', x * beta, p)
    ensures Cong(l' * (xq' - x') - y, l * (xq - x) - y, p)
  {
    var b2, b3, d := beta * beta, beta * beta * beta, xq - x;
    CongAdd(xq', xq * beta, x', x * beta, p);
    assert xq * beta - x * beta == d * beta;
    CongMul(l', l * b2, xq' - x', d * beta, p);
    GatherCube(l, d, beta);
    CongScale(l * d, b3, 1, p);
    CongAdd(l' * (xq' - x'), l * d, y, y, p);
  }

  lemma ThirdKept(ec: Curve, beta: int, l: int, l': int, Q: Point, xr: int)
    requires ec.p > 0 && Cong(beta * beta * beta, 1, ec.p) && Cong(l', l * (beta * beta), ec.p)
    ensures var T := Third(ec, l, Q, xr);
            Third(ec, l', (Q.0 * beta % ec.p, Q.1), xr * beta % ec.p) == (T.0 * beta % ec.p, T.1)
  {
    var p, T := ec.p, Third(ec, l, Q, xr);
    var xq', xr' := Q.0 * beta % p, xr * beta % p;
    var x' := (l' * l' - xq' - xr') % p;
    ModCong(Q.0 * beta, p);
    ModCong(xr * beta, p);
    ModCong(l * l - Q.0 - xr, p);
    ModCong(l' * l' - xq' - xr', p);
    ThirdAbscissaKept(beta, l, l', Q.0, xq', xr, xr', T.0, x', p);
    SmallMod(x', p);
    ThirdOrdinateKept(beta, l, l', Q.0, xq', T.0, x', Q.1, p);
  }

  lemma SlopeTimesSquare(beta: int, l: int, l': int, dx: int, dx': int, dy: int, p: int)
    requires p > 0 && Cong(beta * beta * beta, 1, p) && Cong(l', l * (beta * beta), p) && 0 <= l' < p
    requires Cong(dx', dx * beta, p) && Cong(l * dx, dy, p)
    ensures IsSlope(l', dx', dy, p)
  {
    var b2, b3 := beta * beta, beta * beta * beta;
    CongMul(l', l * b2, dx', dx * beta, p);
    GatherCube(l, dx, beta);
    CongScale(l * dx, b3, 1, p);
  }

  lemma EndoDifference(beta: int, a: int, b: int, a': int, b': int, p: int)
    requires IsPrime(p) && Cong(beta * beta * beta, 1, p) && 0 <= a < p && 0 <= b < p && a != b
    requires Cong(a', a * beta, p) && Cong(b', b * beta, p)
    ensures Cong(a' - b', (a - b) * beta, p) && (a' - b') % p != 0
  {
    CongAdd(a', a * beta, b', b * beta, p);
    assert a * beta - b * beta == (a - b) * beta;
    BetaUnit(beta, p);
    ReducedDifference(a, b, p);
    if ((a - b) * beta) % p == 0 { PrimeDividesProduct(a - b, beta, p); }
  }

  lemma EndoChord(ec: Curve, beta: int, Q: Point, R: Point)
    requires CubeRootCurve(ec, beta) && ValidPoint(ec, Q) && ValidPoint(ec, R) && Q != INF && R != INF && Q.0 != R.0
    ensures AddAff(ec, Endo(ec, beta, Q), Endo(ec, beta, R)) == Endo(ec, beta, AddAff(ec, Q, R))
  {
    var p, l, Q', R' := ec.p, Chord(ec, Q, R), Endo(ec, beta, Q), Endo(ec, beta, R);
    ChordSlope(ec, Q, R);
    ChordCloses(ec, Q, R, l);
    EndoCloses(ec, beta, Q);
    EndoCloses(ec, beta, R);
    ModCong(Q.0 * beta, p);
    ModCong(R.0 * beta, p);
    EndoDifference(beta, R.0, Q.0, R'.0, Q'.0, p);
    SmallMod(0, p);
    assert Q'.0 != R'.0;
    var l' := l * (beta * beta) % p;
    ModCong(l * (beta * beta), p);
    SlopeTimesSquare(beta, l, l', R.0 - Q.0, R'.0 - Q'.0, R.1 - Q.1, p);
    ChordSlope(ec, Q', R');
    SlopeUnique(l', Chord(ec, Q', R'), R'.0 - Q'.0, R.1 - Q.1, p);
    ThirdKept(ec, beta, l, l', Q, R.0);
  }

  lemma TangentKept(beta: int, l: int, l': int, x: int, x': int, y: int, p: int)
    requires p > 0 && Cong(beta * beta * beta, 1, p) && Cong(l', l * (beta * beta), p) && 0 <= l' < p
    requires Cong(x', x * beta, p) && Cong(l * (2 * y), 3 * x * x, p)
    ensures IsSlope(l', 2 * y, 3 * x' * x', p)
  {
    var b2 := beta * beta;
    CongMul(l', l * b2, 2 * y, 2 * y, p);
    CongMul(l * (2 * y), 3 * x * x, b2, b2, p);
    assert (l * b2) * (2 * y) == (l * (2 * y)) * b2;
    CongMul(x', x * beta, x', x * beta, p);
    CongScale(3, x' * x', (x * beta) * (x * beta), p);
    assert (x * beta) * (x * beta) == (x * x) * b2;
    assert 3 * ((x * x) * b2) == (3 * x * x) * b2;
    assert 3 * (x' * x') == 3 * x' * x';
  }

  lemma EndoTangent(ec: Curve, beta: int, Q: Point)
    requires CubeRootCurve(ec, beta) && ValidPoint(ec, Q) && Q != INF
    ensures DoubleAff(ec, Endo(ec, beta, Q)) == Endo(ec, beta, DoubleAff(ec, Q))
  {
    var p, l, Q' := ec.p, Tangent(ec, Q), Endo(ec, beta, Q);
    TangentSlope(ec, Q);
    TangentCloses(ec, Q, l);
    EndoCloses(ec, beta, Q);
    ModCong(Q.0 * beta, p);
    var l' := l * (beta * beta) % p;
    ModCong(l * (beta * beta), p);
    TangentKept(beta, l, l', Q.0, Q'.0, Q.1, p);
    TangentSlope(ec, Q');
    DoubleOrdinate(Q.1, p);
    SlopeUnique(l', Tangent(ec, Q'), 2 * Q.1, 3 * Q'.0 * Q'.0, p);
    ThirdKept(ec, beta, l, l', Q, Q.0);
  }

  /** The endomorphism respects the addition of any two points. */
  lemma EndoAdds(ec: Curve, beta: int, Q: Point, R: Point)
    requires CubeRootCurve(ec, beta) && ValidPoint(ec, Q) && ValidPoint(ec, R)
    ensures AddAff(ec, Endo(ec, beta, Q), Endo(ec, beta, R)) == Endo(ec, beta, AddAff(ec, Q, R))
  {
    if Q == INF || R == INF {
      EndoCloses(ec, beta, Q);
      EndoCloses(ec, beta, R);
    } else if Q.0 != R.0 {
      EndoChord(ec, beta, Q, R);
    } else if Q.1 == R.1 {
      EndoTangent(ec, beta, Q);
    }
  }

  lemma {:induction false} EndoMultiple(ec: Curve, beta: int, k: nat, Q: Point)
    requires CubeRootCurve(ec, beta) && AssociativeLaw(ec) && ValidPoint(ec, Q)
    ensures Endo(ec, beta, Mul(Law(ec), k, Q)) == Mul(Law(ec), k, Endo(ec, beta, Q))
  {
    if k > 0 {
      CurveIsGroup(ec);
      assert Law(ec).has(Q);
      EndoMultiple(ec, beta, k - 1, Q);
      EndoAdds(ec, beta, Mul(Law(ec), k - 1, Q), Q);
    }
  }

  /** Where the endomorphism multiplies one point by lam it multiplies every multiple by lam. */
  lemma EndoIsScalar(ec: Curve, beta: int, lam: int, G: Point, k: nat)
    requires CubeRootCurve(ec, beta) && AssociativeLaw(ec) && ValidPoint(ec, G)
    requires Endo(ec, beta, G) == Mul(Law(ec), lam, G)
    ensures Endo(ec, beta, Mul(Law(ec), k, G)) == Mul(Law(ec), lam, Mul(Law(ec), k, G))
  {
    CurveIsGroup(ec);
    assert Law(ec).has(G);
    EndoMultiple(ec, beta, k, G);
    MulMul(Law(ec), k, lam, G);
    MulMul(Law(ec), lam, k, G);
    assert k * lam == lam * k;
  }

  /** On triples one product does it. */
  lemma EndoJacRefines(ec: Curve, beta: int, S: JacPoint)
    requires CubeRootCurve(ec, beta) && ValidJac(ec, S)
    ensures ValidJac(ec, EndoJac(ec, beta, S)) && AffFromJac(ec, EndoJac(ec, beta, S)) == Endo(ec, beta, AffFromJac(ec, S))
  {
    if S.2 != 0 {
      var p, Q, S' := ec.p, AffFromJac(ec, S), EndoJac(ec, beta, S);
      ValidRepresents(ec, S);
      RepresentsScaled(p, S, Q.0, Q.1);
      EndoCloses(ec, beta, Q);
      ScaledTimes(p, S.0, Q.0, S.2, 2, beta);
      assert beta * S.0 == S.0 * beta && beta * Q.0 == Q.0 * beta;
      ScaledReduced(p, S.0 * beta, Q.0 * beta, S.2, 2);
      ModCong(Q.0 * beta, p);
      ScaledValue(p, S.0 * beta % p, Q.0 * beta, Q.0 * beta % p, S.2, 2);
      RepresentsScaled(p, S', Q.0 * beta % p, Q.1);
      RepresentsValid(ec, S', (Q.0 * beta % p, Q.1));
    }
  }
}
