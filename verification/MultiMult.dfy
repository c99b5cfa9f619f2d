/** Two scalars multiplied together in regular windows, and the pairs of a multi-scalar sum. */
module MultiMult {
  import opened Modular
  import opened Groups
  import opened CurveGroups
  import opened Recodings
  import opened ScalarMult

  // ---- two scalars, regular windows

  function Pair<P(!new)>(g: Group<P>, a: int, H: P, b: int, Q: P): P {
    g.add(Mul(g, a, H), Mul(g, b, Q))
  }

  lemma PairBump<J(!new), P(!new)>(ec: CurveGroup<J, P>, R: J, a: int, H: P, b: int, Q: P, d: int)
    requires Setting(ec) && ec.law.has(H) && ec.law.has(Q) && Stands(ec, R, Pair(ec.law, a, H, b, Q))
    ensures Stands(ec, ec.addJacAff(R, Mul(ec.law, d, H)), Pair(ec.law, a + d, H, b, Q))
    ensures Stands(ec, ec.addJacAff(R, Mul(ec.law, d, Q)), Pair(ec.law, a, H, b + d, Q))
  {
    var g := ec.law;
    MulAdd(g, a, d, H);
    MulAdd(g, b, d, Q);
    SwapLast(g, Mul(g, a, H), Mul(g, b, Q), Mul(g, d, H));
    assert Associates(g, Mul(g, a, H), Mul(g, b, Q), Mul(g, d, Q));
  }

  lemma PairBumps<J(!new), P(!new)>(ec: CurveGroup<J, P>, R: J, a: int, H: P, A: P, d: int, b: int, Q: P, B: P, e: int, a': int, b': int)
    requires Setting(ec) && ec.law.has(H) && ec.law.has(Q) && Stands(ec, R, Pair(ec.law, a, H, b, Q))
    requires A == Mul(ec.law, d, H) && B == Mul(ec.law, e, Q) && a' == a + d && b' == b + e
    ensures Stands(ec, ec.addJacAff(ec.addJacAff(R, A), B), Pair(ec.law, a', H, b', Q))
  {
    PairBump(ec, R, a, H, b, Q, d);
    PairBump(ec, ec.addJacAff(R, A), a', H, b, Q, e);
  }

  lemma PairStart<J(!new), P(!new)>(ec: CurveGroup<J, P>, H: P, A: P, d: int, Q: P, B: P, e: int)
    requires Setting(ec) && ec.law.has(H) && ec.law.has(Q)
    requires A == Mul(ec.law, d, H) && B == Mul(ec.law, e, Q)
    ensures Stands(ec, ec.addJacAff(ec.jacFromAff(A), B), Pair(ec.law, d, H, e, Q))
  {
  }

  lemma PairDouble<J(!new), P(!new)>(ec: CurveGroup<J, P>, R: J, a: int, H: P, b: int, Q: P)
    requires Setting(ec) && ec.law.has(H) && ec.law.has(Q) && Stands(ec, R, Pair(ec.law, a, H, b, Q))
    ensures Stands(ec, ec.doubleJac(R), Pair(ec.law, 2 * a, H, 2 * b, Q))
  {
    var g := ec.law;
    MulAdd(g, a, a, H);
    MulAdd(g, b, b, Q);
    Interchange(g, Mul(g, a, H), Mul(g, b, Q), Mul(g, a, H), Mul(g, b, Q));
  }

  /** The parity correction of either point. */
  lemma PairCorrection<J(!new), P(!new)>(ec: CurveGroup<J, P>, R: J, a: int, H: P, b: int, Q: P, m: nat, A: J)
    requires Setting(ec) && ec.law.has(H) && ec.law.has(Q) && Stands(ec, R, Pair(ec.law, a, H, b, Q)) && ec.valid(A)
    ensures ec.aff(A) == H && a == Odd(m) ==> Stands(ec, ec.addJac(R, Correction(m, A, ec)), Pair(ec.law, m, H, b, Q))
    ensures ec.aff(A) == Q && b == Odd(m) ==> Stands(ec, ec.addJac(R, Correction(m, A, ec)), Pair(ec.law, a, H, m, Q))
  {
    var g, d := ec.law, if m % 2 == 1 then 0 else -1;
    var X := ec.aff(A);
    assert Stands(ec, Correction(m, A, ec), Mul(g, d, X)) by { MulOne(g, X); }
    PairBump(ec, R, a, H, b, Q, d);
    assert ec.addJac(R, Correction(m, A, ec)) == ec.addJac(R, Correction(m, A, ec));
    assert g.add(ec.aff(R), Mul(g, d, X)) == ec.aff(ec.addJacAff(R, Mul(g, d, X)));
  }

  method PairDoublings<J(!new), P(!new)>(R0: J, ec: CurveGroup<J, P>, w: nat, ghost a: int, ghost H: P, ghost b: int, ghost Q: P) returns (R: J)
    requires Setting(ec) && ec.law.has(H) && ec.law.has(Q) && Stands(ec, R0, Pair(ec.law, a, H, b, Q))
    ensures Stands(ec, R, Pair(ec.law, Pow2(w) * a, H, Pow2(w) * b, Q))
  {
    R := R0;
    ghost var c, d := a, b;
    assert Pow2(0) * a == a && Pow2(0) * b == b;
    for j := 0 to w
      invariant c == Pow2(j) * a && d == Pow2(j) * b
      invariant Stands(ec, R, Pair(ec.law, c, H, d, Q))
    {
      PairDouble(ec, R, c, H, d, Q);
      TwiceScaled(j, a);
      TwiceScaled(j, b);
      R := ec.doubleJac(R);
      c, d := 2 * c, 2 * d;
    }
  }

  lemma TwiceScaled(j: nat, a: int)
    ensures 2 * (Pow2(j) * a) == Pow2(j + 1) * a
  {
    var p := Pow2(j);
    assert 2 * (p * a) == (2 * p) * a;
  }

  /** The entries of the two tables the digits at position i name. */
  lemma PairEntries<J(!new), P(!new)>(ec: CurveGroup<J, P>, T: seq<P>, w: nat, ds: seq<int>, i: nat, X: P)
    requires Setting(ec) && ec.law.has(X) && w >= 1 && i < |ds| && RegularDigits(ds, w) && SignedTable(ec, T, w, X)
    ensures 0 <= DigitEntry(ds[i], w) < |T| && T[DigitEntry(ds[i], w)] == Mul(ec.law, ds[i], X)
    ensures Value(ds[i..], Pow2(w)) == Pow2(w) * Value(ds[i + 1..], Pow2(w)) + ds[i]
  {
    assert OddWithin(ds[i], w);
    SignedIndex(ds[i], w);
    assert ds[i..][1..] == ds[i + 1..];
  }

  lemma PairTop<J(!new), P(!new)>(ec: CurveGroup<J, P>, us: seq<int>, vs: seq<int>, TH: seq<P>, TQ: seq<P>, w: nat, H: P, Q: P)
    requires Setting(ec) && ec.law.has(H) && ec.law.has(Q) && w >= 1 && |us| == |vs| >= 1
    requires RegularDigits(us, w) && RegularDigits(vs, w) && SignedTable(ec, TH, w, H) && SignedTable(ec, TQ, w, Q)
    ensures var n := |us| - 1;
            && 0 <= DigitEntry(us[n], w) < |TH| && 0 <= DigitEntry(vs[n], w) < |TQ|
            && Stands(ec, ec.addJacAff(ec.jacFromAff(TH[DigitEntry(us[n], w)]), TQ[DigitEntry(vs[n], w)]),
                      Pair(ec.law, Value(us[n..], Pow2(w)), H, Value(vs[n..], Pow2(w)), Q))
  {
    var n := |us| - 1;
    PairEntries(ec, TH, w, us, n, H);
    PairEntries(ec, TQ, w, vs, n, Q);
    LastValue(us, Pow2(w));
    LastValue(vs, Pow2(w));
    PairStart(ec, H, TH[DigitEntry(us[n], w)], us[n], Q, TQ[DigitEntry(vs[n], w)], vs[n]);
  }

  /** The shared loop: w doublings and two additions for every pair of digits but the top. */
  method AddPairWindows<J(!new), P(!new)>(us: seq<int>, vs: seq<int>, TH: seq<P>, TQ: seq<P>, ec: CurveGroup<J, P>, w: nat, ghost H: P, ghost Q: P)
    returns (R: J, doublings: nat, additions: nat)
    requires Setting(ec) && ec.law.has(H) && ec.law.has(Q) && w >= 1 && |us| == |vs| >= 1
    requires RegularDigits(us, w) && RegularDigits(vs, w) && SignedTable(ec, TH, w, H) && SignedTable(ec, TQ, w, Q)
    ensures Stands(ec, R, Pair(ec.law, Value(us, Pow2(w)), H, Value(vs, Pow2(w)), Q))
    ensures doublings == w * (|us| - 1) && additions == 1 + 2 * (|us| - 1)
  {
    var n := |us| - 1;
    PairTop(ec, us, vs, TH, TQ, w, H, Q);
    R := ec.addJacAff(ec.jacFromAff(TH[DigitEntry(us[n], w)]), TQ[DigitEntry(vs[n], w)]);
    doublings, additions := 0, 1;
    for i := n downto 0
      invariant Stands(ec, R, Pair(ec.law, Value(us[i..], Pow2(w)), H, Value(vs[i..], Pow2(w)), Q))
      invariant doublings == w * (n - i) && additions == 1 + 2 * (n - i)
    {
      R := AddPairWindow(R, us, vs, TH, TQ, i, ec, w, H, Q);
      CountStep(w, n, i);
      doublings, additions := doublings + w, additions + 2;
    }
    assert us[0..] == us && vs[0..] == vs;
  }

  method AddPairWindow<J(!new), P(!new)>(R0: J, us: seq<int>, vs: seq<int>, TH: seq<P>, TQ: seq<P>, i: nat, ec: CurveGroup<J, P>, w: nat, ghost H: P, ghost Q: P)
    returns (R: J)
    requires Setting(ec) && ec.law.has(H) && ec.law.has(Q) && w >= 1 && |us| == |vs| && i < |us|
    requires RegularDigits(us, w) && RegularDigits(vs, w) && SignedTable(ec, TH, w, H) && SignedTable(ec, TQ, w, Q)
    requires Stands(ec, R0, Pair(ec.law, Value(us[i + 1..], Pow2(w)), H, Value(vs[i + 1..], Pow2(w)), Q))
    ensures Stands(ec, R, Pair(ec.law, Value(us[i..], Pow2(w)), H, Value(vs[i..], Pow2(w)), Q))
  {
    ghost var a, b := Value(us[i + 1..], Pow2(w)), Value(vs[i + 1..], Pow2(w));
    R := PairDoublings(R0, ec, w, a, H, b, Q);
    PairEntries(ec, TH, w, us, i, H);
    PairEntries(ec, TQ, w, vs, i, Q);
    var A, B := TH[DigitEntry(us[i], w)], TQ[DigitEntry(vs[i], w)];
    PairBumps(ec, R, Pow2(w) * a, H, A, us[i], Pow2(w) * b, Q, B, vs[i], Value(us[i..], Pow2(w)), Value(vs[i..], Pow2(w)));
    R := ec.addJacAff(ec.addJacAff(R, A), B);
  }

  /** The digit count both coefficients are given. */
  function PairCount(bits: nat, u: nat, v: nat, w: nat): (size: nat)
    requires w >= 1 && bits >= 1
    ensures size >= 1 && w * size >= 1 && Odd(u) < Pow2(w * size) && Odd(v) < Pow2(w * size)
  {
    var b := Larger(Larger(bits, BitLength(u)), BitLength(v));
    CeilDivCovers(b, w);
    OddFits(u, w, CeilDiv(b, w));
    OddFits(v, w, CeilDiv(b, w));
    CeilDiv(b, w)
  }

  function PairDoublingCount(w: nat, size: nat): nat
    requires w >= 1 && size >= 1
  {
    NaturalProduct(w, size - 1);
    (if w > 1 then 2 else 0) + w * (size - 1)
  }

  function PairAdditionCount(w: nat, size: nat): nat
    requires w >= 1 && size >= 1
  {
    2 * (Pow2(w - 1) - 1) + 1 + 2 * (size - 1) + 2
  }

  /** u*H + v*Q, in counts of operations that only the digit count decides. */
  method DoubleMultRegularWindow<J(!new), P(!new)>(u: int, HJ: J, v: int, QJ: J, ec: CurveGroup<J, P>, w: int, bits: nat)
    returns (r: Option<J>, doublings: nat, additions: nat)
    requires Setting(ec) && ec.valid(HJ) && ec.valid(QJ) && bits >= 1
    ensures r.None? <==> u < 0 || v < 0 || w <= 0
    ensures r.Some? ==> Stands(ec, r.value, Pair(ec.law, u, ec.aff(HJ), v, ec.aff(QJ)))
    ensures r.Some? ==> doublings == PairDoublingCount(w, PairCount(bits, u, v, w))
    ensures r.Some? ==> additions == PairAdditionCount(w, PairCount(bits, u, v, w))
  {
    if u < 0 || v < 0 || w <= 0 { return None, 0, 0; }
    ghost var H, Q := ec.aff(HJ), ec.aff(QJ);
    var size := PairCount(bits, u, v, w);
    var us := RegularDigitsOf(u, w, size);
    var vs := RegularDigitsOf(v, w, size);
    var TH, hd, ha := SignedOddMultiplesAff(HJ, ec, w);
    var TQ, qd, qa := SignedOddMultiplesAff(QJ, ec, w);
    var R, d, a := AddPairWindows(us, vs, TH, TQ, ec, w, H, Q);
    PairCorrection(ec, R, Odd(u), H, Odd(v), Q, u, HJ);
    R := ec.addJac(R, Correction(u, HJ, ec));
    PairCorrection(ec, R, u, H, Odd(v), Q, v, QJ);
    R := ec.addJac(R, Correction(v, QJ, ec));
    return Some(R), hd + qd + d, ha + qa + a + 2;
  }

  /** Within the bit bound the counts are the same for every pair of scalars. */
  lemma PairCountsIgnoreScalars(u: nat, v: nat, u': nat, v': nat, w: nat, bits: nat)
    requires w >= 1 && bits >= 1
    requires u < Pow2(bits) && v < Pow2(bits) && u' < Pow2(bits) && v' < Pow2(bits)
    ensures PairCount(bits, u, v, w) == PairCount(bits, u', v', w)
  {
    BitLengthBelow(u, bits);
    BitLengthBelow(v, bits);
    BitLengthBelow(u', bits);
    BitLengthBelow(v', bits);
  }

  /** 254 doublings and 143 additions at width 4 for 256 bits, 126 and 79 for 128. */
  lemma PairCounts(u: nat, v: nat, bits: nat)
    requires (bits == 256 || bits == 128) && u < Pow2(bits) && v < Pow2(bits)
    ensures var size := PairCount(bits, u, v, 4);
            && PairDoublingCount(4, size) == (if bits == 256 then 254 else 126)
            && PairAdditionCount(4, size) == (if bits == 256 then 143 else 79)
  {
    BitLengthBelow(u, bits);
    BitLengthBelow(v, bits);
    assert CeilDiv(bits, 4) == bits / 4;
    assert Pow2(3) == 8 by { assert Pow2(1) == 2; }
  }

  // ---- many scalars: the pairs that contribute

  function Points<J(!new), P(!new)>(ec: CurveGroup<J, P>, pairs: seq<(int, J)>): (Qs: seq<P>)
    ensures |Qs| == |pairs|
    ensures Setting(ec) && AllValidPairs(ec, pairs) ==> AllIn(ec.law, Qs)
  {
    seq(|pairs|, i requires 0 <= i < |pairs| => ec.aff(pairs[i].1))
  }

  function Scalars<J>(pairs: seq<(int, J)>): (ks: seq<int>)
    ensures |ks| == |pairs|
  {
    seq(|pairs|, i requires 0 <= i < |pairs| => pairs[i].0)
  }

  ghost predicate AllValidPairs<J, P>(ec: CurveGroup<J, P>, pairs: seq<(int, J)>) {
    forall i :: 0 <= i < |pairs| ==> ec.valid(pairs[i].1)
  }

  /** The sum the pairs contribute. */
  function PairSum<J(!new), P(!new)>(ec: CurveGroup<J, P>, pairs: seq<(int, J)>): P {
    MulSum(ec.law, Scalars(pairs), Points(ec, pairs))
  }

  function Affs<J, P>(ec: CurveGroup<J, P>, As: seq<J>): (Qs: seq<P>)
    ensures |Qs| == |As|
  {
    seq(|As|, i requires 0 <= i < |As| => ec.aff(As[i]))
  }

  /** u1*Q1 + ... + un*Qn, what every multi multiplication is to return. */
  function Sum<J(!new), P(!new)>(ec: CurveGroup<J, P>, scalars: seq<int>, points: seq<J>): P
    requires |scalars| == |points|
  {
    MulSum(ec.law, scalars, Affs(ec, points))
  }

  /** What a multi multiplication refuses. */
  predicate Refused<J>(scalars: seq<int>, points: seq<J>) {
    |scalars| != |points| || |scalars| < 2 || exists i :: 0 <= i < |scalars| && scalars[i] < 0
  }

  lemma PairSumSnoc<J(!new), P(!new)>(ec: CurveGroup<J, P>, pairs: seq<(int, J)>, n: int, A: J)
    requires Setting(ec) && AllValidPairs(ec, pairs) && ec.valid(A)
    ensures PairSum(ec, pairs + [(n, A)]) == ec.law.add(PairSum(ec, pairs), Mul(ec.law, n, ec.aff(A)))
    ensures ec.law.has(PairSum(ec, pairs))
  {
    var more := pairs + [(n, A)];
    assert Scalars(more) == Scalars(pairs) + [n];
    assert Points(ec, more) == Points(ec, pairs) + [ec.aff(A)];
    MulSumConcat(ec.law, Scalars(pairs), Points(ec, pairs), n, ec.aff(A));
  }

  lemma SumSnoc<J(!new), P(!new)>(ec: CurveGroup<J, P>, scalars: seq<int>, points: seq<J>, i: nat)
    requires Setting(ec) && AllValid(ec, points) && |scalars| == |points| && i < |points|
    ensures Sum(ec, scalars[..i + 1], points[..i + 1])
         == ec.law.add(Sum(ec, scalars[..i], points[..i]), Mul(ec.law, scalars[i], ec.aff(points[i])))
  {
    assert scalars[..i + 1] == scalars[..i] + [scalars[i]];
    assert Affs(ec, points[..i + 1]) == Affs(ec, points[..i]) + [ec.aff(points[i])];
    MulSumConcat(ec.law, scalars[..i], Affs(ec, points[..i]), scalars[i], ec.aff(points[i]));
  }

  /** The pairs that contribute, in their order. */
  function Nonzero<J>(scalars: seq<int>, points: seq<J>): (pairs: seq<(int, J)>)
    requires |scalars| == |points|
  {
    if scalars == [] then [] else
      var n := |scalars| - 1;
      var before := Nonzero(scalars[..n], points[..n]);
      if scalars[n] != 0 then before + [(scalars[n], points[n])] else before
  }

  /** A zero scalar contributes nothing: the sums agree. */
  lemma {:induction false} NonzeroSum<J(!new), P(!new)>(ec: CurveGroup<J, P>, scalars: seq<int>, points: seq<J>)
    requires Setting(ec) && AllValid(ec, points) && |scalars| == |points|
    ensures AllValidPairs(ec, Nonzero(scalars, points)) && PairSum(ec, Nonzero(scalars, points)) == Sum(ec, scalars, points)
    decreases |scalars|
  {
    if scalars != [] {
      var n := |scalars| - 1;
      NonzeroSum(ec, scalars[..n], points[..n]);
      SumSnoc(ec, scalars, points, n);
      assert scalars[..n + 1] == scalars && points[..n + 1] == points;
      PairSumSnoc(ec, Nonzero(scalars[..n], points[..n]), scalars[n], points[n]);
      MulOne(ec.law, ec.aff(points[n]));
    }
  }

  lemma {:induction false} NonzeroPositive<J>(scalars: seq<int>, points: seq<J>)
    requires |scalars| == |points| && forall k :: 0 <= k < |scalars| ==> scalars[k] >= 0
    ensures forall k :: 0 <= k < |Nonzero(scalars, points)| ==> Nonzero(scalars, points)[k].0 > 0
    decreases |scalars|
  {
    if scalars != [] { NonzeroPositive(scalars[..|scalars| - 1], points[..|scalars| - 1]); }
  }

  /** Check the arguments and drop the zero scalars. */
  method MultiMultPairs<J>(scalars: seq<int>, points: seq<J>) returns (r: Option<seq<(int, J)>>)
    ensures r.None? <==> Refused(scalars, points)
    ensures r.Some? ==> r.value == Nonzero(scalars, points)
    ensures r.Some? ==> forall k :: 0 <= k < |r.value| ==> r.value[k].0 > 0
  {
    if |scalars| != |points| || |scalars| < 2 { return None; }
    var pairs: seq<(int, J)> := [];
    for i := 0 to |scalars|
      invariant forall k :: 0 <= k < i ==> scalars[k] >= 0
      invariant pairs == Nonzero(scalars[..i], points[..i])
    {
      if scalars[i] < 0 { return None; }
      assert scalars[..i + 1][..i] == scalars[..i] && points[..i + 1][..i] == points[..i];
      if scalars[i] != 0 { pairs := pairs + [(scalars[i], points[i])]; }
    }
    assert scalars[..|scalars|] == scalars && points[..|points|] == points;
    NonzeroPositive(scalars, points);
    return Some(pairs);
  }
}
