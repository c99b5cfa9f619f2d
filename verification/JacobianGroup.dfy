/** The curve over Z_p as an instance of the record the multiplications are written over. */
module JacobianGroup {
  import opened Modular
  import opened Groups
  import opened EllipticCurve
  import opened Jacobian
  import opened NumberTheory
  import opened CurveGroups

  lemma ZInvIsAffine(ec: Curve, S: JacPoint, i: int)
    requires GoodCurve(ec) && ValidJac(ec, S) && S.2 != 0 && IsInverse(i, S.2, ec.p)
    ensures AffFromZInv(ec, S, i) == AffFromJac(ec, S)
  {
    SmallMod(S.2, ec.p);
    PrimeInverse(S.2, ec.p);
    InverseUnique(i, Inverse(S.2, ec.p).value, S.2, ec.p);
  }

  /** The denominators to invert, those of infinity left out. */
  function Denominators(Qs: seq<JacPoint>): seq<int> {
    if Qs == [] then [] else
      var n := |Qs| - 1;
      if Qs[n].2 == 0 then Denominators(Qs[..n]) else Denominators(Qs[..n]) + [Qs[n].2]
  }

  lemma {:induction false} DenominatorsInvertible(ec: Curve, Qs: seq<JacPoint>)
    requires GoodCurve(ec) && forall i :: 0 <= i < |Qs| ==> ValidJac(ec, Qs[i])
    ensures AllInvertible(Denominators(Qs), ec.p)
  {
    if Qs != [] {
      var n := |Qs| - 1;
      DenominatorsInvertible(ec, Qs[..n]);
      assert ValidJac(ec, Qs[n]);
      if Qs[n].2 != 0 {
        SmallMod(Qs[n].2, ec.p);
        PrimeInverse(Qs[n].2, ec.p);
      }
    }
  }

  lemma {:induction false} DenominatorsPrefix(Qs: seq<JacPoint>, k: nat)
    requires k <= |Qs|
    ensures Denominators(Qs[..k]) <= Denominators(Qs)
    decreases |Qs|
  {
    if k == |Qs| {
      assert Qs[..k] == Qs;
    } else {
      var n := |Qs| - 1;
      assert Qs[..n][..k] == Qs[..k];
      DenominatorsPrefix(Qs[..n], k);
    }
  }

  function AffAll(ec: Curve, Qs: seq<JacPoint>): seq<Point>
    requires ec.p > 0
  {
    seq(|Qs|, i requires 0 <= i < |Qs| => AffFromJac(ec, Qs[i]))
  }

  /** The denominators that are not zero, in order. */
  method CollectDenominators(Qs: seq<JacPoint>) returns (zs: seq<int>)
    ensures zs == Denominators(Qs)
  {
    zs := [];
    for i := 0 to |Qs|
      invariant zs == Denominators(Qs[..i])
    {
      assert Qs[..i + 1][..i] == Qs[..i];
      if Qs[i].2 != 0 { zs := zs + [Qs[i].2]; }
    }
    assert Qs[..|Qs|] == Qs;
  }

  /** A finite point takes the inverse at the number of finite points before it. */
  lemma NextDenominator(Qs: seq<JacPoint>, i: nat)
    requires i < |Qs|
    ensures var next := |Denominators(Qs[..i])|;
            && |Denominators(Qs[..i + 1])| == (if Qs[i].2 == 0 then next else next + 1)
            && (Qs[i].2 != 0 ==> next < |Denominators(Qs)| && Denominators(Qs)[next] == Qs[i].2)
  {
    assert Qs[..i + 1][..i] == Qs[..i];
    DenominatorsPrefix(Qs, i + 1);
  }

  /** One inversion for all of them; infinity comes back where it stood. */
  method AffFromJacBatchVar(Qs: seq<JacPoint>, ec: Curve) returns (Ps: seq<Point>)
    requires GoodCurve(ec) && forall i :: 0 <= i < |Qs| ==> ValidJac(ec, Qs[i])
    ensures Ps == AffAll(ec, Qs)
  {
    var zs := CollectDenominators(Qs);
    DenominatorsInvertible(ec, Qs);
    var inverses := ModInvBatchVar(zs, ec.p);
    var next := 0;
    Ps := [];
    for i := 0 to |Qs|
      invariant |Ps| == i && next == |Denominators(Qs[..i])|
      invariant forall k :: 0 <= k < i ==> Ps[k] == AffFromJac(ec, Qs[k])
    {
      NextDenominator(Qs, i);
      if Qs[i].2 == 0 {
        Ps := Ps + [INF];
      } else {
        ZInvIsAffine(ec, Qs[i], inverses.value[next]);
        Ps := Ps + [AffFromZInv(ec, Qs[i], inverses.value[next])];
        next := next + 1;
      }
    }
  }

  function Positive(ec: Curve): (c: Curve)
    ensures c.p > 0
    ensures ec.p > 0 ==> c == ec
  {
    if ec.p > 0 then ec else Curve(1, 0, 0)
  }

  /** The formulas of curve_group.py on the curve. */
  function OfCurve(ec: Curve): CurveGroup<JacPoint, Point> {
    CurveGroup(
      Law(ec),
      (S: JacPoint) => ValidJac(ec, S),
      (S: JacPoint) => AffFromJac(Positive(ec), S),
      INFJ,
      (S: JacPoint) => DoubleJac(Positive(ec), S),
      (A: JacPoint, B: JacPoint) => AddJac(Positive(ec), A, B),
      (A: JacPoint, B: Point) => AddJacAff(Positive(ec), A, B),
      (S: JacPoint) => NegateJac(Positive(ec), S),
      (Q: Point) => JacFromAff(Q),
      (l: int) => 0 < l < ec.p,
      (S: JacPoint, l: int) => BlindedJac(Positive(ec), S, l),
      (Qs: seq<JacPoint>) => AffAll(Positive(ec), Qs))
  }

  lemma ValidAffine(ec: Curve, A: JacPoint)
    requires GoodCurve(ec) && ValidJac(ec, A)
    ensures ValidPoint(ec, AffFromJac(ec, A))
  {
    if A.2 != 0 { ValidRepresents(ec, A); }
  }

  lemma AffineForm(ec: Curve)
    requires GoodCurve(ec)
    ensures Affine(OfCurve(ec))
  {
    var e := OfCurve(ec);
    forall A | e.valid(A) ensures e.law.has(e.aff(A)) {
      ValidAffine(ec, A);
    }
  }

  lemma DoubleLaw(ec: Curve)
    requires GoodCurve(ec)
    ensures Doubles(OfCurve(ec))
  {
    var e := OfCurve(ec);
    forall A | e.valid(A) ensures Stands(e, e.doubleJac(A), e.law.add(e.aff(A), e.aff(A))) {
      ValidAffine(ec, A);
      DoubleRefines(ec, A);
    }
  }

  lemma AddLaw(ec: Curve)
    requires GoodCurve(ec)
    ensures Adds(OfCurve(ec))
  {
    var e := OfCurve(ec);
    forall A, B | e.valid(A) && e.valid(B) ensures Stands(e, e.addJac(A, B), e.law.add(e.aff(A), e.aff(B))) {
      AddRefines(ec, A, B);
    }
  }

  lemma AddAffLaw(ec: Curve)
    requires GoodCurve(ec)
    ensures AddsAffine(OfCurve(ec))
  {
    var e := OfCurve(ec);
    forall A, Q | e.valid(A) && e.law.has(Q) ensures Stands(e, e.addJacAff(A, Q), e.law.add(e.aff(A), Q)) {
      AddAffRefines(ec, A, Q);
    }
  }

  lemma NegateLaw(ec: Curve)
    requires GoodCurve(ec)
    ensures Negates(OfCurve(ec))
  {
    var e := OfCurve(ec);
    forall A | e.valid(A) ensures Stands(e, e.negateJac(A), e.law.neg(e.aff(A))) {
      NegateRefines(ec, A);
    }
  }

  lemma LiftLaw(ec: Curve)
    requires GoodCurve(ec)
    ensures Lifts(OfCurve(ec))
  {
    var e := OfCurve(ec);
    forall Q | e.law.has(Q) ensures Stands(e, e.jacFromAff(Q), Q) {
      LiftRefines(ec, Q);
    }
  }

  lemma BlindedLaw(ec: Curve)
    requires GoodCurve(ec)
    ensures Blinds(OfCurve(ec))
  {
    var e := OfCurve(ec);
    forall A, l | e.valid(A) && e.isDraw(l) ensures Stands(e, e.blindedJac(A, l), e.aff(A)) {
      BlindedSame(ec, A, l);
    }
  }

  lemma BatchLaw(ec: Curve)
    requires ec.p > 0
    ensures Converts(OfCurve(ec))
  {
    var e := OfCurve(ec);
    forall As | AllValid(e, As) ensures AffineForms(e, As, e.affBatch(As)) {
      assert e.affBatch(As) == AffAll(ec, As);
    }
  }

  /** On a curve of the model with an associative law, every formula computes the group law. */
  lemma CurveComputes(ec: Curve)
    requires GoodCurve(ec) && AssociativeLaw(ec)
    ensures Setting(OfCurve(ec))
  {
    CurveIsGroup(ec);
    AffineForm(ec);
    DoubleLaw(ec);
    AddLaw(ec);
    AddAffLaw(ec);
    NegateLaw(ec);
    LiftLaw(ec);
    BlindedLaw(ec);
    BatchLaw(ec);
  }
}
