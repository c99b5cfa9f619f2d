/** Bos-Coster over a heap, and the dispatch between it and the interleaved wNAF. */
module BosCoster {
  import opened Modular
  import opened Groups
  import opened CurveGroups
  import opened Recodings
  import opened ScalarMult
  import opened MultiMult
  import opened InterleavedWnaf

  function Total<J>(x: seq<(int, J)>): int {
    if x == [] then 0 else Total(x[..|x| - 1]) + x[|x| - 1].0
  }

  predicate Positive<J>(x: seq<(int, J)>) {
    forall i :: 0 <= i < |x| ==> x[i].0 > 0
  }

  function Without<J>(x: seq<(int, J)>, i: nat): (y: seq<(int, J)>)
    requires i < |x|
    ensures |y| == |x| - 1
  {
    x[..i] + x[i + 1..]
  }

  lemma WithoutFront<J>(x: seq<(int, J)>, i: nat)
    requires i < |x| - 1
    ensures var n := |x| - 1; Without(x, i) == Without(x[..n], i) + [(x[n].0, x[n].1)]
  {
  }

  lemma {:induction false} TotalWithout<J>(x: seq<(int, J)>, i: nat)
    requires i < |x|
    ensures Total(x) == Total(Without(x, i)) + x[i].0
    decreases |x|
  {
    var n := |x| - 1;
    if i == n {
      assert Without(x, i) == x[..n];
    } else {
      var y := Without(x[..n], i);
      TotalWithout(x[..n], i);
      WithoutFront(x, i);
      assert (y + [(x[n].0, x[n].1)])[..|y|] == y;
    }
  }

  /** No scalar of a heap is above m. */
  ghost predicate AtMost<J>(x: seq<(int, J)>, m: int) {
    forall i :: 0 <= i < |x| ==> x[i].0 <= m
  }

  /** Taking one pair out of the heap takes its multiple out of the sum. */
  lemma {:induction false} TakeOut<J(!new), P(!new)>(ec: CurveGroup<J, P>, x: seq<(int, J)>, i: nat)
    requires Setting(ec) && AllValidPairs(ec, x) && i < |x|
    ensures AllValidPairs(ec, Without(x, i)) && ec.law.has(PairSum(ec, Without(x, i)))
    ensures PairSum(ec, x) == ec.law.add(PairSum(ec, Without(x, i)), Mul(ec.law, x[i].0, ec.aff(x[i].1)))
    decreases |x|
  {
    var n := |x| - 1;
    var front, last := x[..n], x[n];
    assert x == front + [(last.0, last.1)];
    PairSumSnoc(ec, front, last.0, last.1);
    if i == n {
      assert Without(x, i) == front;
    } else {
      TakeOut(ec, front, i);
      WithoutFront(x, i);
      PairSumSnoc(ec, Without(front, i), last.0, last.1);
      SwapLast(ec.law, PairSum(ec, Without(front, i)), Mul(ec.law, x[i].0, ec.aff(x[i].1)), Mul(ec.law, last.0, ec.aff(last.1)));
    }
  }

  /** Any entry of largest scalar may come off the heap; the rest keeps the sum without it. */
  method Pop<J(!new), P(!new)>(x: seq<(int, J)>, ghost ec: CurveGroup<J, P>) returns (top: (int, J), rest: seq<(int, J)>, ghost i: nat)
    requires Setting(ec) && AllValidPairs(ec, x) && Positive(x) && |x| > 0
    ensures i < |x| && top == x[i] && rest == Without(x, i) && AtMost(x, top.0)
    ensures ec.valid(top.1) && top.0 > 0 && AllValidPairs(ec, rest) && Positive(rest)
    ensures PairSum(ec, x) == ec.law.add(PairSum(ec, rest), Mul(ec.law, top.0, ec.aff(top.1)))
    ensures Total(x) == Total(rest) + top.0
  {
    ghost var largest := Largest(x);
    var k :| 0 <= k < |x| && forall j :: 0 <= j < |x| ==> x[j].0 <= x[k].0;
    TakeOut(ec, x, k);
    TotalWithout(x, k);
    return x[k], Without(x, k), k;
  }

  lemma {:induction false} Largest<J>(x: seq<(int, J)>) returns (i: nat)
    requires |x| > 0
    ensures i < |x| && forall j :: 0 <= j < |x| ==> x[j].0 <= x[i].0
    decreases |x|
  {
    var n := |x| - 1;
    i := n;
    if n > 0 {
      var front := x[..n];
      var k := Largest(front);
      assert forall j :: 0 <= j < n ==> x[j].0 == front[j].0 <= front[k].0;
      if x[k].0 >= x[n].0 { i := k; }
    }
  }

  lemma Push<J(!new), P(!new)>(ec: CurveGroup<J, P>, x: seq<(int, J)>, n: int, A: J)
    requires Setting(ec) && AllValidPairs(ec, x) && Positive(x) && n > 0 && ec.valid(A)
    ensures var y := x + [(n, A)];
            && AllValidPairs(ec, y) && Positive(y) && Total(y) == Total(x) + n
            && PairSum(ec, y) == ec.law.add(PairSum(ec, x), Mul(ec.law, n, ec.aff(A)))
  {
    PairSumSnoc(ec, x, n, A);
    assert (x + [(n, A)])[..|x|] == x;
  }

  /** n1*P1 + n2*P2 = r*P1 + n2*(q*P1 + P2) with n1 = q*n2 + r. */
  lemma EuclidSum<P(!new)>(g: Group<P>, rest: P, n1: int, P1: P, n2: int, P2: P, q: int, r: int)
    requires Lawful(g) && g.has(rest) && g.has(P1) && g.has(P2) && n1 == q * n2 + r
    ensures g.add(g.add(rest, Mul(g, n2, P2)), Mul(g, n1, P1))
         == g.add(g.add(rest, Mul(g, r, P1)), Mul(g, n2, g.add(Mul(g, q, P1), P2)))
  {
    QuotientPoint(g, q, P1, n2, P2);
    SplitScalar(g, n1, q * n2, r, P1);
    FourParts(g, rest, Mul(g, r, P1), Mul(g, n2, P2), Mul(g, q * n2, P1));
  }

  lemma SplitScalar<P(!new)>(g: Group<P>, n: int, k: int, r: int, Q: P)
    requires Lawful(g) && g.has(Q) && n == k + r
    ensures Mul(g, n, Q) == g.add(Mul(g, r, Q), Mul(g, k, Q))
  {
    MulAdd(g, r, k, Q);
  }

  lemma QuotientPoint<P(!new)>(g: Group<P>, q: int, P1: P, n2: int, P2: P)
    requires Lawful(g) && g.has(P1) && g.has(P2)
    ensures Mul(g, n2, g.add(Mul(g, q, P1), P2)) == g.add(Mul(g, q * n2, P1), Mul(g, n2, P2))
  {
    MulPoints(g, n2, Mul(g, q, P1), P2);
    MulMul(g, n2, q, P1);
    assert n2 * q == q * n2;
  }

  /** (rest + b) + (a + c) = (rest + a) + (c + b). */
  lemma FourParts<P(!new)>(g: Group<P>, rest: P, a: P, b: P, c: P)
    requires Lawful(g) && g.has(rest) && g.has(a) && g.has(b) && g.has(c)
    ensures g.add(g.add(rest, b), g.add(a, c)) == g.add(g.add(rest, a), g.add(c, b))
  {
    Interchange(g, rest, b, a, c);
    assert Commutes(g, c, b);
  }

  /** What is left of a heap without its two largest entries, which stood at i and then at j. */
  ghost predicate TwoLargest<J>(x: seq<(int, J)>, i: nat, j: nat, rest: seq<(int, J)>) {
    && i < |x| && j < |x| - 1 && AtMost(x, x[i].0)
    && var once := Without(x, i); AtMost(once, once[j].0) && rest == Without(once, j)
  }

  /** What a step puts back: the remainder on the first point unless it is zero, then the second scalar. */
  ghost predicate Stepped<J(!new)>(x: seq<(int, J)>, i: nat, j: nat, rest: seq<(int, J)>, y: seq<(int, J)>)
    requires i < |x| && j < |x| - 1 && Without(x, i)[j].0 > 0
  {
    var n1, n2 := x[i], Without(x, i)[j].0;
    exists S ::
      y == rest + (if n1.0 % n2 > 0 then [(n1.0 % n2, n1.1)] else []) + [(n2, S)]
  }

  /** One step: the two largest scalars n1 and n2 give way to n2 and, where it is not zero, n1 % n2; the sum over the heap
      stays, the sum of the scalars falls. */
  method Step<J(!new), P(!new)>(x: seq<(int, J)>, ec: CurveGroup<J, P>)
    returns (y: seq<(int, J)>, ghost i: nat, ghost j: nat, ghost rest: seq<(int, J)>)
    requires Setting(ec) && AllValidPairs(ec, x) && Positive(x) && |x| > 1
    ensures AllValidPairs(ec, y) && Positive(y) && |y| >= 1
    ensures PairSum(ec, y) == PairSum(ec, x)
    ensures 0 < Total(y) < Total(x)
    ensures TwoLargest(x, i, j, rest) && Without(x, i)[j].0 > 0 && Stepped(x, i, j, rest, y)
  {
    var top, rest1, second, others;
    top, rest1, i := Pop(x, ec);
    second, others, j := Pop(rest1, ec);
    y := Combine(others, top, second, ec);
    rest := others;
  }

  method Combine<J(!new), P(!new)>(others: seq<(int, J)>, top: (int, J), second: (int, J), ec: CurveGroup<J, P>) returns (y: seq<(int, J)>)
    requires Setting(ec) && AllValidPairs(ec, others) && Positive(others) && ec.valid(top.1) && ec.valid(second.1) && top.0 >= second.0 > 0
    ensures AllValidPairs(ec, y) && Positive(y) && |y| >= 1
    ensures PairSum(ec, y)
         == ec.law.add(ec.law.add(PairSum(ec, others), Mul(ec.law, second.0, ec.aff(second.1))), Mul(ec.law, top.0, ec.aff(top.1)))
    ensures 0 < Total(y) < Total(others) + second.0 + top.0
    ensures exists S :: y == others + (if top.0 % second.0 > 0 then [(top.0 % second.0, top.1)] else []) + [(second.0, S)]
  {
    var p1, p2 := top.1, second.1;
    var q, r := top.0 / second.0, top.0 % second.0;
    QuotientPositive(top.0, second.0);
    var qp := MultJacVar(q, p1, ec);
    var p2' := ec.addJac(qp.value, p2);
    SumIn(ec, others);
    EuclidSum(ec.law, PairSum(ec, others), top.0, ec.aff(p1), second.0, ec.aff(p2), q, r);
    y := PushBack(others, r, p1, ec);
    Push(ec, y, second.0, p2');
    TotalNatural(others);
    y := y + [(second.0, p2')];
  }

  lemma {:induction false} SumIn<J(!new), P(!new)>(ec: CurveGroup<J, P>, x: seq<(int, J)>)
    requires Setting(ec) && AllValidPairs(ec, x)
    ensures ec.law.has(PairSum(ec, x))
    decreases |x|
  {
    if x != [] {
      var n := |x| - 1;
      SumIn(ec, x[..n]);
      assert x == x[..n] + [(x[n].0, x[n].1)];
      PairSumSnoc(ec, x[..n], x[n].0, x[n].1);
    } else {
      PairSumEmpty(ec);
    }
  }

  lemma PairSumEmpty<J(!new), P(!new)>(ec: CurveGroup<J, P>)
    requires Setting(ec)
    ensures ec.law.has(PairSum(ec, []))
  {
  }

  /** A remainder of zero is not pushed: it would contribute nothing. */
  method PushBack<J(!new), P(!new)>(x: seq<(int, J)>, r: int, A: J, ghost ec: CurveGroup<J, P>) returns (y: seq<(int, J)>)
    requires Setting(ec) && AllValidPairs(ec, x) && Positive(x) && r >= 0 && ec.valid(A)
    ensures AllValidPairs(ec, y) && Positive(y) && 0 <= Total(y) == Total(x) + r
    ensures PairSum(ec, y) == ec.law.add(PairSum(ec, x), Mul(ec.law, r, ec.aff(A)))
    ensures y == x + (if r > 0 then [(r, A)] else [])
  {
    TotalNatural(x);
    PairSumSnoc(ec, x, 0, A);
    y := x;
    if r > 0 {
      Push(ec, x, r, A);
      y := x + [(r, A)];
    } else {
      MulOne(ec.law, ec.aff(A));
    }
  }

  lemma {:induction false} TotalNatural<J>(x: seq<(int, J)>)
    requires Positive(x)
    ensures Total(x) >= 0 && (x != [] ==> Total(x) > 0)
    decreases |x|
  {
    if x != [] { TotalNatural(x[..|x| - 1]); }
  }

  lemma QuotientPositive(n1: int, n2: int)
    requires n1 >= n2 > 0
    ensures n1 / n2 >= 1 && 0 <= n1 % n2 < n2 && n1 == (n1 / n2) * n2 + n1 % n2
  {
    var q := n1 / n2;
    if q < 1 { ProductMonotone(q, 0, n2); }
  }

  lemma OnePair<J(!new), P(!new)>(ec: CurveGroup<J, P>, x: seq<(int, J)>)
    requires Setting(ec) && AllValidPairs(ec, x) && |x| == 1
    ensures PairSum(ec, x) == Mul(ec.law, x[0].0, ec.aff(x[0].1))
  {
    TakeOut(ec, x, 0);
    ZeroLeft(ec.law, Mul(ec.law, x[0].0, ec.aff(x[0].1)));
    assert PairSum(ec, Without(x, 0)) == ec.law.zero;
  }

  /** Bos-Coster: terminates, and returns the sum of the multiples. */
  method MultiMultBosCosterVar<J(!new), P(!new)>(scalars: seq<int>, points: seq<J>, ec: CurveGroup<J, P>, scalarLen: nat)
    returns (r: Option<J>)
    requires Setting(ec) && AllValid(ec, points) && scalarLen >= 1
    ensures r.None? <==> Refused(scalars, points)
    ensures r.Some? ==> Stands(ec, r.value, Sum(ec, scalars, points))
  {
    var checked := MultiMultPairs(scalars, points);
    if checked.None? { return None; }
    NonzeroSum(ec, scalars, points);
    var x := checked.value;
    if x == [] { return Some(ec.infJ); }
    TotalNatural(x);
    while |x| > 1
      invariant AllValidPairs(ec, x) && Positive(x) && |x| >= 1 && Total(x) >= 0
      invariant PairSum(ec, x) == Sum(ec, scalars, points)
      decreases Total(x)
    {
      ghost var i, j, rest;
      x, i, j, rest := Step(x, ec);
    }
    OnePair(ec, x);
    r := MultDefault(x[0].0, x[0].1, ec, scalarLen);
  }

  /** How many scalars are not zero. */
  function CountNonzero(scalars: seq<int>): nat {
    if scalars == [] then 0 else CountNonzero(scalars[..|scalars| - 1]) + (if scalars[|scalars| - 1] != 0 then 1 else 0)
  }

  const THRESHOLD: nat := 56

  /** Either algorithm, chosen by the number of nonzero scalars: one contract on both sides. */
  method MultiMultVar<J(!new, ==), P(!new)>(scalars: seq<int>, points: seq<J>, ec: CurveGroup<J, P>, fixed: set<J>, scalarLen: nat)
    returns (r: Option<J>)
    requires Setting(ec) && AllValid(ec, points) && scalarLen >= 1
    ensures r.None? <==> Refused(scalars, points)
    ensures r.Some? ==> Stands(ec, r.value, Sum(ec, scalars, points))
  {
    if CountNonzero(scalars) < THRESHOLD {
      r := MultiMultWNafVar(scalars, points, ec, 5, fixed, scalarLen);
    } else {
      r := MultiMultBosCosterVar(scalars, points, ec, scalarLen);
    }
  }

  /** Both algorithms answer the same point to the same arguments, and refuse the same ones. */
  method BothAgree<J(!new, ==), P(!new)>(scalars: seq<int>, points: seq<J>, ec: CurveGroup<J, P>, w: nat, fixed: set<J>, scalarLen: nat)
    returns (a: Option<J>, b: Option<J>)
    requires Setting(ec) && AllValid(ec, points) && scalarLen >= 1 && w >= 1
    ensures a.None? <==> b.None?
    ensures a.Some? ==> ec.aff(a.value) == ec.aff(b.value)
  {
    a := MultiMultWNafVar(scalars, points, ec, w, fixed, scalarLen);
    b := MultiMultBosCosterVar(scalars, points, ec, scalarLen);
  }
}
