/** Abelian groups given as records of functions, and multiplication by integers in them.

    The multiplications and the protocols of the repository only use that points form an
    abelian group, so they are stated over this record; Lawful is what they assume of it. */
module Groups {
  import opened Modular

  datatype Group<!P> = Group(has: P -> bool, zero: P, add: (P, P) -> P, neg: P -> P)

  ghost predicate Associates<P>(g: Group<P>, a: P, b: P, c: P) {
    g.has(a) && g.has(b) && g.has(c) ==> g.add(g.add(a, b), c) == g.add(a, g.add(b, c))
  }

  ghost predicate Commutes<P>(g: Group<P>, a: P, b: P) {
    g.has(a) && g.has(b) ==> g.add(a, b) == g.add(b, a)
  }

  /** The points satisfying `has` form an abelian group. */
  ghost predicate Lawful<P(!new)>(g: Group<P>) {
    && g.has(g.zero)
    && (forall a, b {:trigger g.add(a, b)} :: g.has(a) && g.has(b) ==> g.has(g.add(a, b)))
    && (forall a {:trigger g.neg(a)} :: g.has(a) ==> g.has(g.neg(a)))
    && (forall a {:trigger g.add(a, g.zero)} :: g.has(a) ==> g.add(a, g.zero) == a)
    && (forall a {:trigger g.add(a, g.neg(a))} :: g.has(a) ==> g.add(a, g.neg(a)) == g.zero)
    && (forall a, b :: Commutes(g, a, b))
    && (forall a, b, c :: Associates(g, a, b, c))
  }

  /** k*Q for any integer k. */
  function Mul<P(!new)>(g: Group<P>, k: int, Q: P): (R: P)
    ensures Lawful(g) && g.has(Q) ==> g.has(R)
    decreases if k < 0 then 1 - k else k
  {
    if k == 0 then g.zero
    else if k > 0 then g.add(Mul(g, k - 1, Q), Q)
    else g.neg(Mul(g, -k, Q))
  }

  /** k_1*Q_1 + ... + k_n*Q_n. */
  function MulSum<P(!new)>(g: Group<P>, ks: seq<int>, Qs: seq<P>): (R: P)
    requires |ks| == |Qs|
    ensures Lawful(g) && (forall i :: 0 <= i < |Qs| ==> g.has(Qs[i])) ==> g.has(R)
  {
    if ks == [] then g.zero
    else
      assert forall i :: 0 <= i < |Qs[1..]| ==> Qs[1..][i] == Qs[i + 1];
      g.add(Mul(g, ks[0], Qs[0]), MulSum(g, ks[1..], Qs[1..]))
  }

  ghost predicate AllIn<P>(g: Group<P>, Qs: seq<P>) {
    forall i :: 0 <= i < |Qs| ==> g.has(Qs[i])
  }

  // ---- addition

  lemma ZeroLeft<P(!new)>(g: Group<P>, a: P)
    requires Lawful(g) && g.has(a)
    ensures g.add(g.zero, a) == a
  {
    assert Commutes(g, g.zero, a);
  }

  lemma SwapLast<P(!new)>(g: Group<P>, a: P, b: P, c: P)
    requires Lawful(g) && g.has(a) && g.has(b) && g.has(c)
    ensures g.add(g.add(a, b), c) == g.add(g.add(a, c), b)
  {
    assert Associates(g, a, b, c);
    assert Associates(g, a, c, b);
    assert Commutes(g, b, c);
  }

  lemma Interchange<P(!new)>(g: Group<P>, a: P, b: P, c: P, d: P)
    requires Lawful(g) && g.has(a) && g.has(b) && g.has(c) && g.has(d)
    ensures g.add(g.add(a, b), g.add(c, d)) == g.add(g.add(a, c), g.add(b, d))
  {
    assert Associates(g, g.add(a, b), c, d);
    SwapLast(g, a, b, c);
    assert Associates(g, g.add(a, c), b, d);
  }

  lemma AddThenSubtract<P(!new)>(g: Group<P>, a: P, b: P)
    requires Lawful(g) && g.has(a) && g.has(b)
    ensures g.add(g.add(a, b), g.neg(b)) == a
    ensures g.add(g.add(a, g.neg(b)), b) == a
  {
    assert Associates(g, a, b, g.neg(b));
    SwapLast(g, a, b, g.neg(b));
  }

  lemma CancelRight<P(!new)>(g: Group<P>, a: P, b: P, c: P)
    requires Lawful(g) && g.has(a) && g.has(b) && g.has(c)
    requires g.add(a, c) == g.add(b, c)
    ensures a == b
  {
    AddThenSubtract(g, a, c);
    AddThenSubtract(g, b, c);
  }

  lemma NegUnique<P(!new)>(g: Group<P>, a: P, b: P)
    requires Lawful(g) && g.has(a) && g.has(b) && g.add(a, b) == g.zero
    ensures b == g.neg(a) && a == g.neg(b)
  {
    assert Commutes(g, a, b);
    assert Commutes(g, a, g.neg(a));
    CancelRight(g, b, g.neg(a), a);
    CancelRight(g, a, g.neg(b), b) by { assert Commutes(g, b, g.neg(b)); }
  }

  lemma NegNeg<P(!new)>(g: Group<P>, a: P)
    requires Lawful(g) && g.has(a)
    ensures g.neg(g.neg(a)) == a
  {
    NegUnique(g, a, g.neg(a));
  }

  lemma NegZero<P(!new)>(g: Group<P>)
    requires Lawful(g)
    ensures g.neg(g.zero) == g.zero
  {
    NegUnique(g, g.zero, g.zero);
  }

  lemma NegAdd<P(!new)>(g: Group<P>, a: P, b: P)
    requires Lawful(g) && g.has(a) && g.has(b)
    ensures g.neg(g.add(a, b)) == g.add(g.neg(a), g.neg(b))
  {
    Interchange(g, a, b, g.neg(a), g.neg(b));
    NegUnique(g, g.add(a, b), g.add(g.neg(a), g.neg(b)));
  }

  // ---- multiplication by an integer

  lemma MulOne<P(!new)>(g: Group<P>, Q: P)
    requires Lawful(g) && g.has(Q)
    ensures Mul(g, 1, Q) == Q && Mul(g, 0, Q) == g.zero && Mul(g, -1, Q) == g.neg(Q)
  {
    ZeroLeft(g, Q);
    assert Mul(g, 0, Q) == g.zero;
    assert Mul(g, 1, Q) == g.add(Mul(g, 0, Q), Q);
  }

  lemma MulSucc<P(!new)>(g: Group<P>, k: int, Q: P)
    requires Lawful(g) && g.has(Q)
    ensures Mul(g, k + 1, Q) == g.add(Mul(g, k, Q), Q)
  {
    if k < 0 {
      // Mul(-k) = Mul(-k-1) + Q, so -Mul(-k) + Q = -Mul(-k-1)
      var m := Mul(g, -k - 1, Q);
      assert Mul(g, -k, Q) == g.add(m, Q);
      NegAdd(g, m, Q);
      AddThenSubtract(g, g.neg(m), Q);
      if k == -1 {
        NegZero(g);
      } else {
        assert Mul(g, k + 1, Q) == g.neg(Mul(g, -(k + 1), Q));
      }
    }
  }

  lemma {:induction false} MulAdd<P(!new)>(g: Group<P>, a: int, b: int, Q: P)
    requires Lawful(g) && g.has(Q)
    ensures Mul(g, a + b, Q) == g.add(Mul(g, a, Q), Mul(g, b, Q))
    decreases if b < 0 then -b else b
  {
    if b == 0 {
    } else if b > 0 {
      MulAdd(g, a, b - 1, Q);
      MulSucc(g, a + b - 1, Q);
      MulSucc(g, b - 1, Q);
      assert Associates(g, Mul(g, a, Q), Mul(g, b - 1, Q), Q);
    } else {
      MulAdd(g, a, b + 1, Q);
      MulSucc(g, a + b, Q);
      MulSucc(g, b, Q);
      assert Associates(g, Mul(g, a, Q), Mul(g, b, Q), Q);
      CancelRight(g, Mul(g, a + b, Q), g.add(Mul(g, a, Q), Mul(g, b, Q)), Q);
    }
  }

  lemma MulNeg<P(!new)>(g: Group<P>, k: int, Q: P)
    requires Lawful(g) && g.has(Q)
    ensures Mul(g, -k, Q) == g.neg(Mul(g, k, Q))
  {
    MulAdd(g, k, -k, Q);
    assert Mul(g, k + -k, Q) == g.zero;
    NegUnique(g, Mul(g, k, Q), Mul(g, -k, Q));
  }

  lemma MulSub<P(!new)>(g: Group<P>, a: int, b: int, Q: P)
    requires Lawful(g) && g.has(Q)
    ensures Mul(g, a - b, Q) == g.add(Mul(g, a, Q), g.neg(Mul(g, b, Q)))
  {
    MulAdd(g, a, -b, Q);
    MulNeg(g, b, Q);
  }

  lemma {:induction false} MulMul<P(!new)>(g: Group<P>, a: int, b: int, Q: P)
    requires Lawful(g) && g.has(Q)
    ensures Mul(g, a, Mul(g, b, Q)) == Mul(g, a * b, Q)
    decreases if a < 0 then 1 - a else a
  {
    if a == 0 {
    } else if a > 0 {
      MulMul(g, a - 1, b, Q);
      MulAdd(g, (a - 1) * b, b, Q);
      assert (a - 1) * b + b == a * b;
    } else {
      MulMul(g, -a, b, Q);
      MulNeg(g, -a * b, Q);
      assert -(-a * b) == a * b;
    }
  }

  lemma {:induction false} MulPoints<P(!new)>(g: Group<P>, k: int, A: P, B: P)
    requires Lawful(g) && g.has(A) && g.has(B)
    ensures Mul(g, k, g.add(A, B)) == g.add(Mul(g, k, A), Mul(g, k, B))
    decreases if k < 0 then 1 - k else k
  {
    if k == 0 {
    } else if k > 0 {
      MulPoints(g, k - 1, A, B);
      Interchange(g, Mul(g, k - 1, A), Mul(g, k - 1, B), A, B);
    } else {
      MulPoints(g, -k, A, B);
      NegAdd(g, Mul(g, -k, A), Mul(g, -k, B));
    }
  }

  lemma MulNegPoint<P(!new)>(g: Group<P>, k: int, Q: P)
    requires Lawful(g) && g.has(Q)
    ensures Mul(g, k, g.neg(Q)) == g.neg(Mul(g, k, Q)) == Mul(g, -k, Q)
  {
    MulOne(g, Q);
    MulMul(g, k, -1, Q);
    MulNeg(g, k, Q);
  }

  lemma {:induction false} MulZero<P(!new)>(g: Group<P>, k: int)
    requires Lawful(g)
    ensures Mul(g, k, g.zero) == g.zero
  {
    MulMul(g, k, 0, g.zero);
    assert Mul(g, 0, g.zero) == g.zero;
    assert k * 0 == 0;
  }

  /** Scalars of one residue class modulo the order give one multiple. */
  lemma MulModOrder<P(!new)>(g: Group<P>, n: int, a: int, b: int, Q: P)
    requires Lawful(g) && g.has(Q) && n > 0 && Mul(g, n, Q) == g.zero && Cong(a, b, n)
    ensures Mul(g, a, Q) == Mul(g, b, Q)
  {
    var k := CongWitness(a, b, n);
    MulAdd(g, b, k * n, Q);
    MulMul(g, k, n, Q);
    MulZero(g, k);
  }

  lemma OrderOfMultiple<P(!new)>(g: Group<P>, n: int, k: int, G: P)
    requires Lawful(g) && g.has(G) && Mul(g, n, G) == g.zero
    ensures Mul(g, n, Mul(g, k, G)) == g.zero
  {
    MulMul(g, n, k, G);
    MulMul(g, k, n, G);
    MulZero(g, k);
    assert n * k == k * n;
  }

  // ---- sums of multiples

  function PlusEach(as_: seq<int>, bs: seq<int>): (cs: seq<int>)
    requires |as_| == |bs|
    ensures |cs| == |as_|
  {
    seq(|as_|, i requires 0 <= i < |as_| => as_[i] + bs[i])
  }

  lemma PlusEachTail(as_: seq<int>, bs: seq<int>)
    requires |as_| == |bs| > 0
    ensures PlusEach(as_, bs)[1..] == PlusEach(as_[1..], bs[1..])
  {
  }

  lemma {:induction false} MulSumAdd<P(!new)>(g: Group<P>, as_: seq<int>, bs: seq<int>, Qs: seq<P>)
    requires Lawful(g) && AllIn(g, Qs) && |as_| == |bs| == |Qs|
    ensures MulSum(g, PlusEach(as_, bs), Qs) == g.add(MulSum(g, as_, Qs), MulSum(g, bs, Qs))
  {
    if as_ != [] {
      PlusEachTail(as_, bs);
      MulSumAdd(g, as_[1..], bs[1..], Qs[1..]);
      PairOfSums(g, as_[0], bs[0], Qs[0], MulSum(g, as_[1..], Qs[1..]), MulSum(g, bs[1..], Qs[1..]));
    }
  }

  lemma PairOfSums<P(!new)>(g: Group<P>, a: int, b: int, Q: P, S: P, T: P)
    requires Lawful(g) && g.has(Q) && g.has(S) && g.has(T)
    ensures g.add(Mul(g, a + b, Q), g.add(S, T)) == g.add(g.add(Mul(g, a, Q), S), g.add(Mul(g, b, Q), T))
  {
    MulAdd(g, a, b, Q);
    Interchange(g, Mul(g, a, Q), Mul(g, b, Q), S, T);
  }

  /** Raising one coefficient by d adds d times its point. */
  lemma {:induction false} MulSumBump<P(!new)>(g: Group<P>, ks: seq<int>, Qs: seq<P>, i: nat, d: int)
    requires Lawful(g) && AllIn(g, Qs) && |ks| == |Qs| && i < |ks|
    ensures MulSum(g, ks[i := ks[i] + d], Qs) == g.add(MulSum(g, ks, Qs), Mul(g, d, Qs[i]))
  {
    var cs := ks[i := ks[i] + d];
    var rest := MulSum(g, ks[1..], Qs[1..]);
    if i == 0 {
      assert cs[1..] == ks[1..];
      MulAdd(g, ks[0], d, Qs[0]);
      SwapLast(g, Mul(g, ks[0], Qs[0]), Mul(g, d, Qs[0]), rest);
    } else {
      assert cs[1..] == ks[1..][i - 1 := ks[1..][i - 1] + d];
      MulSumBump(g, ks[1..], Qs[1..], i - 1, d);
      assert Associates(g, Mul(g, ks[0], Qs[0]), rest, Mul(g, d, Qs[i]));
    }
  }

  lemma {:induction false} MulSumConcat<P(!new)>(g: Group<P>, ks: seq<int>, Qs: seq<P>, k: int, Q: P)
    requires Lawful(g) && AllIn(g, Qs) && |ks| == |Qs| && g.has(Q)
    ensures MulSum(g, ks + [k], Qs + [Q]) == g.add(MulSum(g, ks, Qs), Mul(g, k, Q))
  {
    if ks == [] {
      assert (ks + [k])[1..] == [] && (Qs + [Q])[1..] == [];
      ZeroLeft(g, Mul(g, k, Q));
    } else {
      assert (ks + [k])[1..] == ks[1..] + [k] && (Qs + [Q])[1..] == Qs[1..] + [Q];
      MulSumConcat(g, ks[1..], Qs[1..], k, Q);
      assert Associates(g, Mul(g, ks[0], Qs[0]), MulSum(g, ks[1..], Qs[1..]), Mul(g, k, Q));
    }
  }

  lemma {:induction false} MulSumZeros<P(!new)>(g: Group<P>, Qs: seq<P>)
    requires Lawful(g) && AllIn(g, Qs)
    ensures MulSum(g, seq(|Qs|, _ => 0), Qs) == g.zero
  {
    if Qs != [] {
      assert seq(|Qs|, _ => 0)[1..] == seq(|Qs[1..]|, _ => 0);
      MulSumZeros(g, Qs[1..]);
    }
  }

  function PointSum<P>(g: Group<P>, Qs: seq<P>): P {
    if Qs == [] then g.zero else g.add(PointSum(g, Qs[..|Qs| - 1]), Qs[|Qs| - 1])
  }

  lemma {:induction false} PointSumIn<P(!new)>(g: Group<P>, Qs: seq<P>)
    requires Lawful(g) && AllIn(g, Qs)
    ensures g.has(PointSum(g, Qs))
  {
    if Qs != [] {
      PointSumIn(g, Qs[..|Qs| - 1]);
      assert g.has(Qs[|Qs| - 1]);
    }
  }
}
