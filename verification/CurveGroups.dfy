/** The operations of a curve group as a multiplication sees them, and what it assumes of them.

    A multiplication only calls the formulas on triples, so it is written over a record of
    them; Setting says that each formula computes the group law on the points triples stand for. */
module CurveGroups {
  import opened Groups

  datatype CurveGroup<!J, !P> = CurveGroup(
    law: Group<P>,
    valid: J -> bool,
    aff: J -> P,
    infJ: J,
    doubleJac: J -> J,
    addJac: (J, J) -> J,
    addJacAff: (J, P) -> J,
    negateJac: J -> J,
    jacFromAff: P -> J,
    isDraw: int -> bool,
    blindedJac: (J, int) -> J,
    affBatch: seq<J> -> seq<P>)

  /** Each formula keeps triples valid and computes the law on their affine forms. */
  ghost predicate Setting<J(!new), P(!new)>(ec: CurveGroup<J, P>) {
    && Lawful(ec.law)
    && Stands(ec, ec.infJ, ec.law.zero)
    && Affine(ec) && Doubles(ec) && Adds(ec) && AddsAffine(ec) && Negates(ec) && Lifts(ec) && Blinds(ec) && Converts(ec)
  }

  ghost predicate Affine<J(!new), P>(ec: CurveGroup<J, P>) {
    forall A {:trigger ec.aff(A)} :: ec.valid(A) ==> ec.law.has(ec.aff(A))
  }

  ghost predicate Doubles<J(!new), P>(ec: CurveGroup<J, P>) {
    forall A {:trigger ec.doubleJac(A)} :: ec.valid(A) ==> Stands(ec, ec.doubleJac(A), ec.law.add(ec.aff(A), ec.aff(A)))
  }

  ghost predicate Adds<J(!new), P>(ec: CurveGroup<J, P>) {
    forall A, B {:trigger ec.addJac(A, B)} ::
      ec.valid(A) && ec.valid(B) ==> Stands(ec, ec.addJac(A, B), ec.law.add(ec.aff(A), ec.aff(B)))
  }

  ghost predicate AddsAffine<J(!new), P(!new)>(ec: CurveGroup<J, P>) {
    forall A, Q {:trigger ec.addJacAff(A, Q)} ::
      ec.valid(A) && ec.law.has(Q) ==> Stands(ec, ec.addJacAff(A, Q), ec.law.add(ec.aff(A), Q))
  }

  ghost predicate Negates<J(!new), P>(ec: CurveGroup<J, P>) {
    forall A {:trigger ec.negateJac(A)} :: ec.valid(A) ==> Stands(ec, ec.negateJac(A), ec.law.neg(ec.aff(A)))
  }

  ghost predicate Lifts<J, P(!new)>(ec: CurveGroup<J, P>) {
    forall Q {:trigger ec.jacFromAff(Q)} :: ec.law.has(Q) ==> Stands(ec, ec.jacFromAff(Q), Q)
  }

  ghost predicate Blinds<J(!new), P>(ec: CurveGroup<J, P>) {
    forall A, l {:trigger ec.blindedJac(A, l)} :: ec.valid(A) && ec.isDraw(l) ==> Stands(ec, ec.blindedJac(A, l), ec.aff(A))
  }

  ghost predicate Converts<J(!new), P>(ec: CurveGroup<J, P>) {
    forall As {:trigger ec.affBatch(As)} :: AllValid(ec, As) ==> AffineForms(ec, As, ec.affBatch(As))
  }

  /** The triple is valid and its affine form is P. */
  ghost predicate Stands<J, P>(ec: CurveGroup<J, P>, S: J, Q: P) {
    ec.valid(S) && ec.aff(S) == Q
  }

  ghost predicate AllValid<J, P>(ec: CurveGroup<J, P>, As: seq<J>) {
    forall i :: 0 <= i < |As| ==> ec.valid(As[i])
  }

  ghost predicate AffineForms<J, P>(ec: CurveGroup<J, P>, As: seq<J>, Qs: seq<P>) {
    |Qs| == |As| && forall i :: 0 <= i < |As| ==> Qs[i] == ec.aff(As[i])
  }

  /** The triple stands for k*Q. */
  ghost predicate IsTimes<J, P(!new)>(ec: CurveGroup<J, P>, S: J, k: int, Q: P) {
    Stands(ec, S, Mul(ec.law, k, Q))
  }

  lemma TimesOne<J(!new), P(!new)>(ec: CurveGroup<J, P>, S: J, Q: P)
    requires Setting(ec) && Stands(ec, S, Q)
    ensures IsTimes(ec, S, 1, Q) && IsTimes(ec, ec.infJ, 0, Q) && ec.law.has(Q)
  {
    MulOne(ec.law, Q);
  }

  lemma AddTimes<J(!new), P(!new)>(ec: CurveGroup<J, P>, A: J, a: int, B: J, b: int, Q: P)
    requires Setting(ec) && ec.law.has(Q) && IsTimes(ec, A, a, Q) && IsTimes(ec, B, b, Q)
    ensures IsTimes(ec, ec.addJac(A, B), a + b, Q)
  {
    MulAdd(ec.law, a, b, Q);
  }

  lemma AddAffTimes<J(!new), P(!new)>(ec: CurveGroup<J, P>, A: J, a: int, B: P, b: int, Q: P)
    requires Setting(ec) && ec.law.has(Q) && IsTimes(ec, A, a, Q) && B == Mul(ec.law, b, Q)
    ensures IsTimes(ec, ec.addJacAff(A, B), a + b, Q)
  {
    MulAdd(ec.law, a, b, Q);
  }

  lemma DoubleTimes<J(!new), P(!new)>(ec: CurveGroup<J, P>, A: J, a: int, Q: P)
    requires Setting(ec) && ec.law.has(Q) && IsTimes(ec, A, a, Q)
    ensures IsTimes(ec, ec.doubleJac(A), 2 * a, Q)
  {
    MulAdd(ec.law, a, a, Q);
  }

  lemma NegateTimes<J(!new), P(!new)>(ec: CurveGroup<J, P>, A: J, a: int, Q: P)
    requires Setting(ec) && ec.law.has(Q) && IsTimes(ec, A, a, Q)
    ensures IsTimes(ec, ec.negateJac(A), -a, Q)
  {
    MulNeg(ec.law, a, Q);
  }
}
