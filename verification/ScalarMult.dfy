/** Multiplying a curve point by a scalar on Jacobian triples.

    Every method is proved against k*Q of the group law that the formulas compute. */
module ScalarMult {
  import opened Modular
  import opened Groups
  import opened CurveGroups
  import opened Recodings

  // ---- double and add

  /** Right-to-left double and add; None for a negative scalar. */
  method MultJacVar<J(!new), P(!new)>(m: int, Q0: J, ec: CurveGroup<J, P>) returns (r: Option<J>)
    requires Setting(ec) && ec.valid(Q0)
    ensures r.None? <==> m < 0
    ensures r.Some? ==> IsTimes(ec, r.value, m, ec.aff(Q0))
  {
    if m < 0 { return None; }
    ghost var X := ec.aff(Q0);
    TimesOne(ec, Q0, X);
    var Q, R0, R1 := Q0, ec.infJ, Q0;
    if m % 2 == 1 { R0 := Q; } else { R1 := Q; }
    var n := m / 2;
    ghost var done, weight := m % 2, 1;
    while n > 0
      invariant n >= 0 && m == done + 2 * Groupings(n, weight)
      invariant IsTimes(ec, R0, done, X) && IsTimes(ec, Q, weight, X)
      decreases n
    {
      DoubleTimes(ec, Q, weight, X);
      Q := ec.doubleJac(Q);
      AddTimes(ec, R0, done, Q, 2 * weight, X);
      ghost var was := n;
      if n % 2 == 1 {
        R0 := ec.addJac(R0, Q);
        done := done + 2 * weight;
      } else {
        R1 := ec.addJac(R0, Q);
      }
      BinaryStep(was, weight);
      weight := 2 * weight;
      n := n / 2;
    }
    return Some(R0);
  }

  function Groupings(n: int, weight: int): int { n * weight }

  lemma BinaryStep(n: int, weight: int)
    requires n >= 0
    ensures 2 * Groupings(n, weight) == (n % 2) * (2 * weight) + 2 * Groupings(n / 2, 2 * weight)
  {
    var q := n / 2;
    assert (2 * q + n % 2) * weight == q * (2 * weight) + (n % 2) * weight;
  }

  // ---- tables of odd multiples

  /** How many entries the table of a width-w NAF has. */
  function TableSize(w: nat): (k: nat)
    requires w >= 1
    ensures k >= 1
  {
    if w <= 2 then 1 else Pow2(w - 2)
  }

  /** 1*Q, 3*Q, ..., and the operations they cost. */
  method OddMultiples<J(!new), P(!new)>(Q: J, ec: CurveGroup<J, P>, w: nat) returns (T: seq<J>, doublings: nat, additions: nat)
    requires Setting(ec) && ec.valid(Q) && w >= 1
    ensures |T| == TableSize(w)
    ensures forall i :: 0 <= i < |T| ==> IsTimes(ec, T[i], 2 * i + 1, ec.aff(Q))
    ensures doublings == (if w > 2 then 1 else 0) && additions == TableSize(w) - 1
  {
    ghost var X := ec.aff(Q);
    TimesOne(ec, Q, X);
    T := [Q];
    doublings, additions := 0, 0;
    if w > 2 {
      DoubleTimes(ec, Q, 1, X);
      var Q2 := ec.doubleJac(Q);
      doublings := 1;
      for k := 0 to Pow2(w - 2) - 1
        invariant |T| == k + 1 && additions == k
        invariant forall i :: 0 <= i < |T| ==> IsTimes(ec, T[i], 2 * i + 1, X)
      {
        AddTimes(ec, T[|T| - 1], 2 * k + 1, Q2, 2, X);
        T := T + [ec.addJac(T[|T| - 1], Q2)];
        additions := additions + 1;
      }
    }
  }

  /** The affine table of a width-w NAF: entry i is (2i+1)*X. */
  ghost predicate OddTable<J(!new), P(!new)>(ec: CurveGroup<J, P>, T: seq<P>, X: P) {
    forall i :: 0 <= i < |T| ==> T[i] == Mul(ec.law, 2 * i + 1, X)
  }

  method OddMultiplesAff<J(!new), P(!new)>(Q: J, ec: CurveGroup<J, P>, w: nat) returns (T: seq<P>, doublings: nat, additions: nat)
    requires Setting(ec) && ec.valid(Q) && w >= 1
    ensures |T| == TableSize(w) && OddTable(ec, T, ec.aff(Q))
    ensures doublings == (if w > 2 then 1 else 0) && additions == TableSize(w) - 1
  {
    var A;
    A, doublings, additions := OddMultiples(Q, ec, w);
    assert forall i :: 0 <= i < |A| ==> IsTimes(ec, A[i], 2 * i + 1, ec.aff(Q));
    T := ec.affBatch(A);
  }

  /** Entry i is (2i + 1 - 2^w)*X: the signed odd digit d picks entry (d + 2^w - 1)/2. */
  ghost predicate SignedTable<J(!new), P(!new)>(ec: CurveGroup<J, P>, T: seq<P>, w: nat, X: P) {
    |T| == Pow2(w) && forall i :: 0 <= i < |T| ==> T[i] == Mul(ec.law, 2 * i + 1 - Pow2(w), X)
  }

  method SignedOddMultiplesAff<J(!new), P(!new)>(Q: J, ec: CurveGroup<J, P>, w: nat) returns (T: seq<P>, doublings: nat, additions: nat)
    requires Setting(ec) && ec.valid(Q) && w >= 1
    ensures SignedTable(ec, T, w, ec.aff(Q))
    ensures doublings == (if w > 1 then 1 else 0) && additions == Pow2(w - 1) - 1
  {
    var T0;
    T0, doublings, additions := OddMultiplesAff(Q, ec, w + 1);
    ghost var X, h := ec.aff(Q), Pow2(w - 1);
    assert h == TableSize(w + 1) by { assert Pow2(0) == 1; }
    var N: seq<P> := [];
    for k := 0 to |T0|
      invariant |N| == k
      invariant forall i :: 0 <= i < k ==> N[i] == Mul(ec.law, -(2 * (k - 1 - i) + 1), X)
    {
      MulNeg(ec.law, 2 * k + 1, X);
      N := [ec.law.neg(T0[k])] + N;
    }
    T := N + T0;
    forall i | 0 <= i < |T| ensures T[i] == Mul(ec.law, 2 * i + 1 - Pow2(w), X) {
      if i < h { assert -(2 * (h - 1 - i) + 1) == 2 * i + 1 - 2 * h; } else { assert T[i] == T0[i - h]; }
    }
  }

  // ---- regular windows

  function Odd(m: nat): nat { if m % 2 == 1 then m else m + 1 }

  /** The point the parity correction adds: infinity, or the opposite of Q. */
  function Correction<J(!new), P(!new)>(m: nat, Q: J, ec: CurveGroup<J, P>): J
  {
    if m % 2 == 1 then ec.infJ else ec.negateJac(Q)
  }

  lemma CorrectionTimes<J(!new), P(!new)>(m: nat, R: J, Q: J, ec: CurveGroup<J, P>, X: P)
    requires Setting(ec) && Stands(ec, Q, X) && IsTimes(ec, R, Odd(m), X)
    ensures IsTimes(ec, ec.addJac(R, Correction(m, Q, ec)), m, X)
  {
    TimesOne(ec, Q, X);
    NegateTimes(ec, Q, 1, X);
    AddTimes(ec, R, Odd(m), Correction(m, Q, ec), if m % 2 == 1 then 0 else -1, X);
  }

  /** The w doublings between two digits. */
  method Doublings<J(!new), P(!new)>(R0: J, ec: CurveGroup<J, P>, w: nat, ghost k: int, ghost X: P) returns (R: J)
    requires Setting(ec) && ec.law.has(X) && IsTimes(ec, R0, k, X)
    ensures IsTimes(ec, R, Pow2(w) * k, X)
  {
    R := R0;
    for j := 0 to w
      invariant IsTimes(ec, R, Pow2(j) * k, X)
    {
      DoubleTimes(ec, R, Pow2(j) * k, X);
      assert 2 * (Pow2(j) * k) == Pow2(j + 1) * k;
      R := ec.doubleJac(R);
    }
  }

  function CeilDiv(a: nat, w: nat): (k: nat)
    requires w > 0
  {
    DivisionNatural(a + w - 1, w);
    (a + w - 1) / w
  }

  lemma DivisionNatural(a: nat, w: nat)
    requires w > 0
    ensures a / w >= 0
  {
    assert a == (a / w) * w + a % w;
    QuotientNatural(a / w, w, a % w);
  }

  lemma CeilDivCovers(a: nat, w: nat)
    requires w > 0
    ensures w * CeilDiv(a, w) >= a && (a > 0 ==> CeilDiv(a, w) >= 1)
  {
    var k := CeilDiv(a, w);
    assert a + w - 1 == k * w + (a + w - 1) % w;
    assert k == 0 ==> k * w == 0;
  }

  lemma OddFits(m: nat, w: nat, size: nat)
    requires w >= 1 && w * size >= BitLength(m) && w * size >= 1
    ensures Odd(m) < Pow2(w * size)
  {
    Pow2Monotone(BitLength(m), w * size);
    EvenPower(w * size);
  }

  function Larger(a: nat, b: nat): nat { if a < b then b else a }

  /** The digit count every scalar of at most `bits` bits is given. */
  function WindowCount(bits: nat, m: nat, w: nat): (size: nat)
    requires w >= 1 && bits >= 1
    ensures size >= 1 && w * size >= BitLength(m) && w * size >= bits
    ensures w * size >= 1 && Odd(m) < Pow2(w * size)
  {
    CeilDivCovers(Larger(bits, BitLength(m)), w);
    OddFits(m, w, CeilDiv(Larger(bits, BitLength(m)), w));
    CeilDiv(Larger(bits, BitLength(m)), w)
  }

  /** Where the signed table holds the multiple of an odd digit. */
  function DigitEntry(d: int, w: nat): int { (d + (Pow2(w) - 1)) / 2 }

  lemma SignedIndex(d: int, w: nat)
    requires w >= 1 && OddWithin(d, w)
    ensures var i := DigitEntry(d, w);
            0 <= i < Pow2(w) && 2 * i + 1 - Pow2(w) == d
  {
    EvenPower(w);
  }

  /** A digit's entry added to the accumulator of the digits above it. */
  lemma WindowDigit<J(!new), P(!new)>(ec: CurveGroup<J, P>, T: seq<P>, w: nat, R: J, ds: seq<int>, i: nat, X: P)
    requires Setting(ec) && ec.law.has(X) && w >= 1 && i < |ds| && RegularDigits(ds, w) && SignedTable(ec, T, w, X)
    requires IsTimes(ec, R, Pow2(w) * Value(ds[i + 1..], Pow2(w)), X)
    ensures var k := DigitEntry(ds[i], w);
            0 <= k < |T| && IsTimes(ec, ec.addJacAff(R, T[k]), Value(ds[i..], Pow2(w)), X)
  {
    assert OddWithin(ds[i], w);
    SignedIndex(ds[i], w);
    assert ds[i..][1..] == ds[i + 1..];
    AddAffTimes(ec, R, Pow2(w) * Value(ds[i + 1..], Pow2(w)), T[DigitEntry(ds[i], w)], ds[i], X);
  }

  /** The top digit's entry starts the accumulator. */
  lemma WindowTop<J(!new), P(!new)>(ec: CurveGroup<J, P>, T: seq<P>, w: nat, ds: seq<int>, X: P)
    requires Setting(ec) && ec.law.has(X) && w >= 1 && |ds| >= 1 && RegularDigits(ds, w) && SignedTable(ec, T, w, X)
    ensures var k := DigitEntry(ds[|ds| - 1], w);
            0 <= k < |T| && IsTimes(ec, ec.jacFromAff(T[k]), Value(ds[|ds| - 1..], Pow2(w)), X)
  {
    var n := |ds| - 1;
    assert OddWithin(ds[n], w);
    SignedIndex(ds[n], w);
    LastValue(ds, Pow2(w));
    assert ec.law.has(Mul(ec.law, ds[n], X));
  }

  /** The digits of either parity, for a size that holds the scalar. */
  method RegularDigitsOf(m: nat, w: nat, size: nat) returns (digits: seq<int>)
    requires w >= 1 && size >= 1 && w * size >= 0 && Odd(m) < Pow2(w * size)
    ensures |digits| == size && RegularDigits(digits, w) && Value(digits, Pow2(w)) == Odd(m)
  {
    var recoded := SignedOddDigits(Odd(m), w, size);
    digits := recoded.value;
    OddDigitsSum(Odd(m), w, size);
  }

  /** The loop of the regular window: w doublings and one addition for every digit but the top. */
  method AddWindows<J(!new), P(!new)>(digits: seq<int>, T: seq<P>, ec: CurveGroup<J, P>, w: nat, ghost X: P)
    returns (R: J, doublings: nat, additions: nat)
    requires Setting(ec) && ec.law.has(X) && w >= 1 && |digits| >= 1 && RegularDigits(digits, w) && SignedTable(ec, T, w, X)
    ensures IsTimes(ec, R, Value(digits, Pow2(w)), X)
    ensures doublings == w * (|digits| - 1) && additions == |digits| - 1
  {
    var n := |digits| - 1;
    WindowTop(ec, T, w, digits, X);
    R, doublings, additions := ec.jacFromAff(T[DigitEntry(digits[n], w)]), 0, 0;
    for i := n downto 0
      invariant IsTimes(ec, R, Value(digits[i..], Pow2(w)), X)
      invariant doublings == w * (n - i) && additions == n - i
    {
      R := Doublings(R, ec, w, Value(digits[i + 1..], Pow2(w)), X);
      WindowDigit(ec, T, w, R, digits, i, X);
      R := ec.addJacAff(R, T[DigitEntry(digits[i], w)]);
      CountStep(w, n, i);
      doublings, additions := doublings + w, additions + 1;
    }
    assert digits[0..] == digits;
  }

  /** The regular window; the counts are those of every scalar of at most scalarLen bits. */
  method MultRegularWindow<J(!new), P(!new)>(m: int, Q: J, ec: CurveGroup<J, P>, w: int, scalarLen: nat)
    returns (r: Option<J>, doublings: nat, additions: nat)
    requires Setting(ec) && ec.valid(Q) && scalarLen >= 1
    ensures r.None? <==> m < 0 || w <= 0
    ensures r.Some? ==> IsTimes(ec, r.value, m, ec.aff(Q))
    ensures r.Some? ==> doublings == RegularDoublings(w, WindowCount(scalarLen, m, w))
    ensures r.Some? ==> additions == RegularAdditions(w, WindowCount(scalarLen, m, w))
  {
    doublings, additions := 0, 0;
    if m < 0 || w <= 0 { return None, 0, 0; }
    ghost var X := ec.aff(Q);
    var size := WindowCount(scalarLen, m, w);
    var digits := RegularDigitsOf(m, w, size);
    var T, tableDoublings, tableAdditions := SignedOddMultiplesAff(Q, ec, w);
    var R;
    R, doublings, additions := AddWindows(digits, T, ec, w, X);
    CorrectionTimes(m, R, Q, ec, X);
    return Some(ec.addJac(R, Correction(m, Q, ec))), tableDoublings + doublings, tableAdditions + additions + 1;
  }

  lemma CountStep(w: nat, n: int, i: int)
    ensures w * (n - (i + 1)) + w == w * (n - i)
  {
  }

  lemma LastValue(ds: seq<int>, base: int)
    requires |ds| > 0
    ensures Value(ds[|ds| - 1..], base) == ds[|ds| - 1]
  {
    assert ds[|ds| - 1..][1..] == [] && base * 0 == 0;
  }

  function RegularDoublings(w: nat, size: nat): nat
    requires w >= 1 && size >= 1
  {
    NaturalProduct(w, size - 1);
    (if w > 1 then 1 else 0) + w * (size - 1)
  }

  function RegularAdditions(w: nat, size: nat): nat
    requires w >= 1 && size >= 1
  {
    Pow2(w - 1) - 1 + (size - 1) + 1
  }

  lemma NaturalProduct(a: nat, b: nat)
    ensures a * b >= 0
  {
  }

  /** Within the bit bound the digit count, and so either operation count, ignores the scalar. */
  lemma CountsIgnoreScalar(m: nat, m': nat, w: nat, bits: nat)
    requires w >= 1 && bits >= 1 && m < Pow2(bits) && m' < Pow2(bits)
    ensures WindowCount(bits, m, w) == WindowCount(bits, m', w)
  {
    BitLengthBelow(m, bits);
    BitLengthBelow(m', bits);
  }

  /** 253 doublings and 71 additions for every secp256k1 scalar at width 4. */
  lemma Secp256k1Counts(m: nat)
    requires m < Pow2(256)
    ensures var size := WindowCount(256, m, 4);
            RegularDoublings(4, size) == 253 && RegularAdditions(4, size) == 71
  {
    BitLengthBelow(m, 256);
    assert Larger(256, BitLength(m)) == 256;
    assert CeilDiv(256, 4) == 64;
    assert Pow2(3) == 8 by { assert Pow2(1) == 2; }
  }

  /** The multiplication the package runs by default. */
  method MultDefault<J(!new), P(!new)>(m: int, Q: J, ec: CurveGroup<J, P>, scalarLen: nat) returns (r: Option<J>)
    requires Setting(ec) && ec.valid(Q) && scalarLen >= 1
    ensures r.None? <==> m < 0
    ensures r.Some? ==> IsTimes(ec, r.value, m, ec.aff(Q))
  {
    var doublings, additions;
    r, doublings, additions := MultRegularWindow(m, Q, ec, 4, scalarLen);
  }

  /** One table per digit position: entry i is the signed table of 2^(w*i)*Q. */
  method FixedBaseMultiples<J(!new), P(!new)>(Q: J, ec: CurveGroup<J, P>, w: nat, positions: nat) returns (tables: seq<seq<P>>)
    requires Setting(ec) && ec.valid(Q) && w >= 1
    ensures |tables| == positions
    ensures forall i :: 0 <= i < positions ==>
      SignedTable(ec, tables[i], w, Mul(ec.law, Pow(Pow2(w), i), ec.aff(Q)))
  {
    ghost var X := ec.aff(Q);
    TimesOne(ec, Q, X);
    tables := [];
    var K := Q;
    for i := 0 to positions
      invariant |tables| == i && IsTimes(ec, K, Pow(Pow2(w), i), X)
      invariant forall k :: 0 <= k < i ==> SignedTable(ec, tables[k], w, Mul(ec.law, Pow(Pow2(w), k), X))
    {
      var T, doublings, additions := SignedOddMultiplesAff(K, ec, w);
      tables := tables + [T];
      K := Doublings(K, ec, w, Pow(Pow2(w), i), X);
    }
  }

  /** A digit indexes the multiple it names outright, its power of two included. */
  lemma PositionEntry<J(!new), P(!new)>(ec: CurveGroup<J, P>, T: seq<P>, w: nat, weight: int, d: int, X: P)
    requires Setting(ec) && ec.law.has(X) && w >= 1 && OddWithin(d, w)
    requires SignedTable(ec, T, w, Mul(ec.law, weight, X))
    ensures var i := DigitEntry(d, w);
            0 <= i < |T| && T[i] == Mul(ec.law, d * weight, X)
  {
    SignedIndex(d, w);
    MulMul(ec.law, d, weight, X);
  }

  /** A digit's entry, its power of two included, added to those above it. */
  lemma PositionDigit<J(!new), P(!new)>(ec: CurveGroup<J, P>, T: seq<P>, w: nat, R: J, ds: seq<int>, i: nat, X: P)
    requires Setting(ec) && ec.law.has(X) && w >= 1 && i < |ds| && RegularDigits(ds, w)
    requires SignedTable(ec, T, w, Mul(ec.law, Pow(Pow2(w), i), X))
    requires IsTimes(ec, R, Placed(ds, w, i + 1), X)
    ensures var k := DigitEntry(ds[i], w);
            0 <= k < |T| && IsTimes(ec, ec.addJacAff(R, T[k]), Placed(ds, w, i), X)
  {
    var weight := Pow(Pow2(w), i);
    assert OddWithin(ds[i], w);
    PositionEntry(ec, T, w, weight, ds[i], X);
    AddAffTimes(ec, R, Placed(ds, w, i + 1), T[DigitEntry(ds[i], w)], ds[i] * weight, X);
  }

  lemma PositionTop<J(!new), P(!new)>(ec: CurveGroup<J, P>, T: seq<P>, w: nat, ds: seq<int>, X: P)
    requires Setting(ec) && ec.law.has(X) && w >= 1 && |ds| >= 1 && RegularDigits(ds, w)
    requires SignedTable(ec, T, w, Mul(ec.law, Pow(Pow2(w), |ds| - 1), X))
    ensures var k := DigitEntry(ds[|ds| - 1], w);
            0 <= k < |T| && IsTimes(ec, ec.jacFromAff(T[k]), Placed(ds, w, |ds| - 1), X)
  {
    var n := |ds| - 1;
    assert OddWithin(ds[n], w);
    PositionEntry(ec, T, w, Pow(Pow2(w), n), ds[n], X);
    assert Placed(ds, w, |ds|) == 0;
    assert ec.law.has(Mul(ec.law, ds[n] * Pow(Pow2(w), n), X));
  }

  /** One addition per position, the accumulator starting blinded. */
  method AddPositions<J(!new), P(!new)>(digits: seq<int>, T: seq<seq<P>>, ec: CurveGroup<J, P>, w: nat, draw: int, ghost X: P)
    returns (R: J, doublings: nat, additions: nat)
    requires Setting(ec) && ec.law.has(X) && w >= 1 && ec.isDraw(draw)
    requires |digits| == |T| >= 1 && RegularDigits(digits, w)
    requires forall i :: 0 <= i < |T| ==> SignedTable(ec, T[i], w, Mul(ec.law, Pow(Pow2(w), i), X))
    ensures IsTimes(ec, R, Placed(digits, w, 0), X)
    ensures doublings == 0 && additions == |digits| - 1
  {
    var n := |T| - 1;
    PositionTop(ec, T[n], w, digits, X);
    doublings, additions := 0, 0;
    R := ec.blindedJac(ec.jacFromAff(T[n][DigitEntry(digits[n], w)]), draw);
    for i := n downto 0
      invariant IsTimes(ec, R, Placed(digits, w, i), X)
      invariant doublings == 0 && additions == n - i
    {
      PositionDigit(ec, T[i], w, R, digits, i, X);
      R := ec.addJacAff(R, T[i][DigitEntry(digits[i], w)]);
      additions := additions + 1;
    }
  }

  /** The digits from position i up, with their weights. */
  function Placed(ds: seq<int>, w: nat, i: nat): int
    requires i <= |ds|
    decreases |ds| - i
  {
    if i == |ds| then 0 else ds[i] * Pow(Pow2(w), i) + Placed(ds, w, i + 1)
  }

  lemma {:induction false} PlacedValue(ds: seq<int>, w: nat, i: nat)
    requires i <= |ds|
    ensures Placed(ds, w, i) == Pow(Pow2(w), i) * Value(ds[i..], Pow2(w))
    decreases |ds| - i
  {
    var base, weight := Pow2(w), Pow(Pow2(w), i);
    if i < |ds| {
      PlacedValue(ds, w, i + 1);
      assert ds[i..][1..] == ds[i + 1..];
      WeightStep(base, weight, ds[i], Value(ds[i + 1..], base));
    } else {
      assert weight * 0 == 0;
    }
  }

  /** A table per digit position, so no doubling after them and one addition per position, whatever the scalar; the
      accumulator is blinded by any draw. */
  method MultFixedBase<J(!new), P(!new)>(m: int, Q: J, ec: CurveGroup<J, P>, w: int, scalarLen: nat, draw: int)
    returns (r: Option<J>, doublings: nat, additions: nat)
    requires Setting(ec) && ec.valid(Q) && ec.isDraw(draw)
    ensures r.Some? <==> m >= 0 && w > 0 && scalarLen >= 1 && Odd(m) < Pow2(FixedBits(w, scalarLen))
    ensures r.Some? ==> IsTimes(ec, r.value, m, ec.aff(Q))
    ensures r.Some? ==> doublings == 0 && additions == CeilDiv(scalarLen, w)
  {
    doublings, additions := 0, 0;
    if m < 0 || w <= 0 { return None, 0, 0; }
    ghost var X := ec.aff(Q);
    var positions := CeilDiv(scalarLen, w);
    FixedPositions(w, scalarLen);
    var T := FixedBaseMultiples(Q, ec, w, positions);
    var recoded := SignedOddDigits(Odd(m), w, positions);
    if recoded.None? { return None, 0, 0; }
    var digits := recoded.value;
    OddDigitsSum(Odd(m), w, positions);
    var R;
    R, doublings, additions := AddPositions(digits, T, ec, w, draw, X);
    PlacedValue(digits, w, 0);
    assert digits[0..] == digits && Pow(Pow2(w), 0) == 1;
    CorrectionTimes(m, R, Q, ec, X);
    return Some(ec.addJac(R, Correction(m, Q, ec))), doublings, additions + 1;
  }

  /** 43 additions and no doubling for every secp256k1 scalar at width 6: the tables reach 258 bits. */
  lemma Secp256k1FixedCounts(m: nat)
    requires m < Pow2(256)
    ensures CeilDiv(256, 6) == 43 && Odd(m) < Pow2(FixedBits(6, 256))
  {
    FixedBaseServes(m, 6, 256);
  }

  lemma WeightStep(base: int, weight: int, d: int, rest: int)
    ensures (base * weight) * rest + d * weight == weight * (d + base * rest)
  {
    assert (base * weight) * rest == weight * (base * rest);
  }

  /** The bits the tables cover. */
  function FixedBits(w: nat, scalarLen: nat): nat
    requires w >= 1
  {
    NaturalProduct(w, CeilDiv(scalarLen, w));
    w * CeilDiv(scalarLen, w)
  }

  lemma FixedPositions(w: nat, scalarLen: nat)
    requires w >= 1
    ensures CeilDiv(scalarLen, w) >= 1 <==> scalarLen >= 1
  {
    CeilDivCovers(scalarLen, w);
    if scalarLen == 0 { SmallMod(w - 1, w); }
  }

  /** Every scalar of scalarLen bits has its table. */
  lemma FixedBaseServes(m: nat, w: nat, scalarLen: nat)
    requires w >= 1 && scalarLen >= 1 && m < Pow2(scalarLen)
    ensures Odd(m) < Pow2(FixedBits(w, scalarLen))
  {
    CeilDivCovers(scalarLen, w);
    BitLengthBelow(m, scalarLen);
    OddFits(m, w, CeilDiv(scalarLen, w));
  }

  // ---- sliding window

  /** 2^(w-1)*Q to (2^w - 1)*Q. */
  method SlidingWindowTable<J(!new), P(!new)>(Q: J, ec: CurveGroup<J, P>, w: nat) returns (T: seq<J>)
    requires Setting(ec) && ec.valid(Q) && w >= 1
    ensures |T| == Pow2(w - 1)
    ensures forall i :: 0 <= i < |T| ==> IsTimes(ec, T[i], Pow2(w - 1) + i, ec.aff(Q))
  {
    ghost var X := ec.aff(Q);
    TimesOne(ec, Q, X);
    var S := Doublings(Q, ec, w - 1, 1, X);
    T := [S];
    for k := 1 to Pow2(w - 1)
      invariant |T| == k
      invariant forall i :: 0 <= i < |T| ==> IsTimes(ec, T[i], Pow2(w - 1) + i, X)
    {
      AddTimes(ec, T[|T| - 1], Pow2(w - 1) + k - 1, Q, 1, X);
      T := T + [ec.addJac(T[|T| - 1], Q)];
    }
  }

  lemma BigEndianStep(ds: seq<int>, i: nat, base: int)
    requires i < |ds|
    ensures BigEndian(ds[..i + 1], base) == base * BigEndian(ds[..i], base) + ds[i]
  {
    assert ds[..i + 1][..i] == ds[..i];
  }

  /** Fold the digits from position i into R, one bit at a time. */
  method DoubleAndAddVar<J(!new), P(!new)>(R0: J, Q: J, digits: seq<int>, i: nat, ec: CurveGroup<J, P>, ghost X: P) returns (R: J)
    requires Setting(ec) && Stands(ec, Q, X) && i <= |digits| && AreDigits(digits, 2)
    requires IsTimes(ec, R0, BigEndian(digits[..i], 2), X)
    ensures IsTimes(ec, R, BigEndian(digits, 2), X)
  {
    R := R0;
    for j := i to |digits|
      invariant IsTimes(ec, R, BigEndian(digits[..j], 2), X)
    {
      BigEndianStep(digits, j, 2);
      R := AddBit(R, Q, digits[j], ec, BigEndian(digits[..j], 2), X);
    }
    assert digits[..|digits|] == digits;
  }

  /** A doubling, and the addition of Q for a digit of one. */
  method AddBit<J(!new), P(!new)>(R0: J, Q: J, digit: int, ec: CurveGroup<J, P>, ghost v: int, ghost X: P) returns (R: J)
    requires Setting(ec) && Stands(ec, Q, X) && (digit == 0 || digit == 1) && IsTimes(ec, R0, v, X)
    ensures IsTimes(ec, R, 2 * v + digit, X)
  {
    TimesOne(ec, Q, X);
    DoubleTimes(ec, R0, v, X);
    R := ec.doubleJac(R0);
    if digit == 1 {
      AddTimes(ec, R, 2 * v, Q, 1, X);
      R := ec.addJac(R, Q);
    }
  }

  /** The w digits of a window as a number, at least 2^(w-1) as its first digit is 1. */
  method WindowValue(digits: seq<int>, i: nat, w: nat) returns (t: int)
    requires w >= 1 && i + w <= |digits| && AreDigits(digits, 2) && digits[i] != 0
    ensures Pow2(w - 1) <= t < Pow2(w)
    ensures BigEndian(digits[..i + w], 2) == Pow2(w) * BigEndian(digits[..i], 2) + t
  {
    t := 0;
    ghost var v := BigEndian(digits[..i], 2);
    assert Pow2(0) == 1;
    for a := 0 to w
      invariant a > 0 ==> Pow2(a - 1) <= t < Pow2(a)
      invariant a == 0 ==> t == 0
      invariant BigEndian(digits[..i + a], 2) == Pow2(a) * v + t
    {
      BigEndianStep(digits, i + a, 2);
      WindowStep(Pow2(a), v, t, digits[i + a]);
      t := 2 * t + digits[i + a];
    }
  }

  lemma WindowStep(p: int, v: int, t: int, d: int)
    ensures 2 * (p * v + t) + d == (2 * p) * v + (2 * t + d)
  {
  }

  /** One window: w doublings and the addition of the multiple its digits name. */
  method AddWindow<J(!new), P(!new)>(R0: J, T: seq<J>, digits: seq<int>, i: nat, ec: CurveGroup<J, P>, w: nat, ghost X: P)
    returns (R: J)
    requires Setting(ec) && ec.law.has(X) && w >= 1 && i + w <= |digits| && AreDigits(digits, 2) && digits[i] != 0
    requires |T| == Pow2(w - 1) && forall i :: 0 <= i < |T| ==> IsTimes(ec, T[i], Pow2(w - 1) + i, X)
    requires IsTimes(ec, R0, BigEndian(digits[..i], 2), X)
    ensures IsTimes(ec, R, BigEndian(digits[..i + w], 2), X)
  {
    var t := WindowValue(digits, i, w);
    ghost var v := BigEndian(digits[..i], 2);
    R := Doublings(R0, ec, w, v, X);
    AddTimes(ec, R, Pow2(w) * v, T[t - Pow2(w - 1)], t, X);
    R := ec.addJac(R, T[t - Pow2(w - 1)]);
  }

  method MultSlidingWindowVar<J(!new), P(!new)>(m: int, Q: J, ec: CurveGroup<J, P>, w: int) returns (r: Option<J>)
    requires Setting(ec) && ec.valid(Q)
    ensures r.None? <==> m < 0 || w <= 0
    ensures r.Some? ==> IsTimes(ec, r.value, m, ec.aff(Q))
  {
    if m < 0 || w <= 0 { return None; }
    ghost var X := ec.aff(Q);
    TimesOne(ec, Q, X);
    var T := SlidingWindowTable(Q, ec, w);
    var digits := ConvertNumberToBase(m, 2);
    var R, i := ec.infJ, 0;
    while i < |digits|
      invariant 0 <= i <= |digits|
      invariant IsTimes(ec, R, BigEndian(digits[..i], 2), X)
    {
      if digits[i] == 0 {
        BigEndianStep(digits, i, 2);
        DoubleTimes(ec, R, BigEndian(digits[..i], 2), X);
        R := ec.doubleJac(R);
        i := i + 1;
      } else if |digits| - i < w {
        R := DoubleAndAddVar(R, Q, digits, i, ec, X);
        return Some(R);
      } else {
        R := AddWindow(R, T, digits, i, ec, w, X);
        i := i + w;
      }
    }
    assert digits[..|digits|] == digits;
    return Some(R);
  }

  // ---- width-w NAF

  /** The odd multiples the table starts with. */
  method NafOddMultiples<J(!new), P(!new)>(Q: J, ec: CurveGroup<J, P>, w: nat) returns (T: seq<J>)
    requires Setting(ec) && ec.valid(Q) && w >= 1
    ensures |T| == NafHalf(w)
    ensures forall i :: 0 <= i < |T| ==> IsTimes(ec, T[i], 2 * i + 1, ec.aff(Q))
  {
    ghost var X := ec.aff(Q);
    TimesOne(ec, Q, X);
    TablePowers(w);
    DoubleTimes(ec, Q, 1, X);
    var Q2 := ec.doubleJac(Q);
    T := [Q];
    for i := 1 to if Pow2(w) / 4 < 1 then 1 else Pow2(w) / 4
      invariant |T| == i
      invariant forall k :: 0 <= k < i ==> IsTimes(ec, T[k], 2 * k + 1, X)
    {
      AddTimes(ec, T[i - 1], 2 * i - 1, Q2, 2, X);
      T := T + [ec.addJac(T[i - 1], Q2)];
    }
  }

  /** The table of signed multiples: the odd ones, then their opposites. */
  method SignedNafTable<J(!new), P(!new)>(Q: J, ec: CurveGroup<J, P>, w: nat) returns (T: seq<J>)
    requires Setting(ec) && ec.valid(Q) && w >= 1
    ensures NafTable(ec, T, w, ec.aff(Q))
  {
    ghost var X, h := ec.aff(Q), NafHalf(w);
    TablePowers(w);
    T := NafOddMultiples(Q, ec, w);
    // the range of the opposites: at w = 1 it is [0, 1), one entry past a table of one
    var quarter := Pow2(w) / 4;
    for i := quarter to Pow2(w) / 2
      invariant |T| == h + (i - quarter)
      invariant forall k :: 0 <= k < h ==> IsTimes(ec, T[k], 2 * k + 1, X)
      invariant forall k :: h <= k < |T| ==> IsTimes(ec, T[k], -(2 * (k - h) + 1), X)
    {
      NegateTimes(ec, T[i - quarter], 2 * (i - quarter) + 1, X);
      T := T + [ec.negateJac(T[i - quarter])];
    }
  }

  /** How many odd multiples the table holds before their opposites. */
  function NafHalf(w: nat): (k: nat)
    requires w >= 1
    ensures k >= 1
  {
    if w == 1 then 1 else Pow2(w - 2)
  }

  lemma TablePowers(w: nat)
    requires w >= 1
    ensures w >= 2 ==> Pow2(w) / 4 == NafHalf(w) && Pow2(w) / 2 == 2 * NafHalf(w)
    ensures w == 1 ==> Pow2(w) / 4 == 0 && Pow2(w) / 2 == 1
  {
    if w >= 2 { assert Pow2(w) == 2 * Pow2(w - 1) && Pow2(w - 1) == 2 * Pow2(w - 2); }
    assert Pow2(1) == 2 * Pow2(0);
  }

  /** The entry a digit of the recoding picks. */
  function NafIndex(d: int, w: nat): int
    requires w >= 1
  {
    if d > 0 then (d - 1) / 2 else if w == 1 then 1 else Pow2(w) / 4 - (d + 1) / 2
  }

  /** Every index is in the table, and names the multiple of the digit. */
  lemma NafIndexed(d: int, w: nat)
    requires w >= 1 && NafDigit(d, Larger(w, 2)) && d != 0
    ensures 0 <= NafIndex(d, w) < 2 * NafHalf(w)
    ensures d > 0 ==> NafIndex(d, w) < NafHalf(w) && 2 * NafIndex(d, w) + 1 == d
    ensures d < 0 ==> NafIndex(d, w) >= NafHalf(w) && -(2 * (NafIndex(d, w) - NafHalf(w)) + 1) == d
  {
    TablePowers(w);
    assert Pow2(1) == 2 by { assert Pow2(0) == 1; }
    if w >= 2 { assert Pow2(w - 1) == 2 * NafHalf(w); }
  }

  /** The digits of either kind are those of a NAF of width at least two. */
  lemma WnafDigits(m: nat, w: nat)
    requires w >= 1
    ensures var ds := Wnaf(m, w);
            IsWnaf(ds, Larger(w, 2)) && Value(ds, 2) == m && forall i :: 0 <= i < |ds| ==> NafDigit(ds[i], Larger(w, 2))
  {
    if w == 1 { WidthOne(m); }
    WnafIsWnaf(m, Larger(w, 2));
    WnafValue(m, w);
  }

  /** One nonzero digit of the NAF, added by its table entry. */
  lemma NafAdd<J(!new), P(!new)>(ec: CurveGroup<J, P>, T: seq<J>, w: nat, R: J, v: int, d: int, X: P)
    requires Setting(ec) && ec.law.has(X) && w >= 1 && NafDigit(d, Larger(w, 2)) && d != 0 && NafTable(ec, T, w, X)
    requires IsTimes(ec, R, v, X)
    ensures 0 <= NafIndex(d, w) < |T| && IsTimes(ec, ec.addJac(R, T[NafIndex(d, w)]), d + v, X)
  {
    NafIndexed(d, w);
    AddTimes(ec, R, v, T[NafIndex(d, w)], d, X);
  }

  ghost predicate NafTable<J(!new), P(!new)>(ec: CurveGroup<J, P>, T: seq<J>, w: nat, X: P)
    requires w >= 1
  {
    && |T| == 2 * NafHalf(w)
    && (forall i :: 0 <= i < NafHalf(w) ==> IsTimes(ec, T[i], 2 * i + 1, X))
    && (forall i :: NafHalf(w) <= i < |T| ==> IsTimes(ec, T[i], -(2 * (i - NafHalf(w)) + 1), X))
  }

  /** One position of the NAF: a doubling, and an addition where the digit is not zero. */
  method NafPosition<J(!new), P(!new)>(R0: J, T: seq<J>, d: int, ec: CurveGroup<J, P>, w: nat, ghost v: int, ghost X: P) returns (R: J)
    requires Setting(ec) && ec.law.has(X) && w >= 1 && NafDigit(d, Larger(w, 2)) && NafTable(ec, T, w, X)
    requires IsTimes(ec, R0, v, X)
    ensures IsTimes(ec, R, d + 2 * v, X)
  {
    DoubleTimes(ec, R0, v, X);
    R := ec.doubleJac(R0);
    if d != 0 {
      NafAdd(ec, T, w, R, 2 * v, d, X);
      R := ec.addJac(R, T[NafIndex(d, w)]);
    }
  }

  method MultWNafVar<J(!new), P(!new)>(m: int, Q: J, ec: CurveGroup<J, P>, w: int) returns (r: Option<J>)
    requires Setting(ec) && ec.valid(Q)
    ensures r.None? <==> m < 0 || w <= 0
    ensures r.Some? ==> IsTimes(ec, r.value, m, ec.aff(Q))
  {
    if m < 0 || w <= 0 { return None; }
    ghost var X := ec.aff(Q);
    TimesOne(ec, Q, X);
    var M := WnafOfM(m, w);
    WnafDigits(m, w);
    var T := SignedNafTable(Q, ec, w);
    var R := ec.infJ;
    assert M[|M|..] == [];
    for j := |M| downto 0
      invariant IsTimes(ec, R, Value(M[j..], 2), X)
    {
      assert M[j..][1..] == M[j + 1..];
      R := NafPosition(R, T, M[j], ec, w, Value(M[j + 1..], 2), X);
    }
    assert M[0..] == M;
    return Some(R);
  }
}
