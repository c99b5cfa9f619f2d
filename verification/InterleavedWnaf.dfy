/** The interleaved wNAF multiplication: one doubling per bit position, shared by every scalar. */
module InterleavedWnaf {
  import opened Modular
  import opened Groups
  import opened CurveGroups
  import opened Recodings
  import opened ScalarMult
  import opened MultiMult

  // ---- what a position of the digits contributes

  function DigitAt(ds: seq<int>, j: nat): int { if j < |ds| then ds[j] else 0 }

  /** The value of the digits from position j up. */
  function TailValue(ds: seq<int>, j: nat): int { if j < |ds| then Value(ds[j..], 2) else 0 }

  lemma TailStep(ds: seq<int>, j: nat)
    ensures TailValue(ds, j) == 2 * TailValue(ds, j + 1) + DigitAt(ds, j)
  {
    if j < |ds| {
      assert ds[j..][1..] == ds[j + 1..];
      assert Value(ds[j..], 2) == ds[j] + 2 * Value(ds[j + 1..], 2);
    }
  }

  function Tails(nafs: seq<seq<int>>, j: nat): (ks: seq<int>)
    ensures |ks| == |nafs|
  {
    seq(|nafs|, i requires 0 <= i < |nafs| => TailValue(nafs[i], j))
  }

  function DigitColumn(nafs: seq<seq<int>>, j: nat): (ks: seq<int>)
    ensures |ks| == |nafs|
  {
    seq(|nafs|, i requires 0 <= i < |nafs| => DigitAt(nafs[i], j))
  }

  /** Doubling the sum above position j and adding that position's digits gives the sum from j up. */
  lemma RowStep<P(!new)>(g: Group<P>, nafs: seq<seq<int>>, Qs: seq<P>, j: nat)
    requires Lawful(g) && AllIn(g, Qs) && |nafs| == |Qs|
    ensures var above := MulSum(g, Tails(nafs, j + 1), Qs);
            MulSum(g, Tails(nafs, j), Qs) == g.add(g.add(above, above), MulSum(g, DigitColumn(nafs, j), Qs))
  {
    var t, d := Tails(nafs, j + 1), DigitColumn(nafs, j);
    MulSumAdd(g, t, t, Qs);
    MulSumAdd(g, PlusEach(t, t), d, Qs);
    TailsStep(nafs, j);
  }

  lemma TailsStep(nafs: seq<seq<int>>, j: nat)
    ensures Tails(nafs, j) == PlusEach(PlusEach(Tails(nafs, j + 1), Tails(nafs, j + 1)), DigitColumn(nafs, j))
  {
    forall i | 0 <= i < |nafs| ensures TailValue(nafs[i], j) == TailValue(nafs[i], j + 1) + TailValue(nafs[i], j + 1) + DigitAt(nafs[i], j) {
      TailStep(nafs[i], j);
    }
  }

  /** The digit indexes the table. */
  predicate Indexed<P>(d: int, T: seq<P>) {
    (d > 0 ==> (d - 1) / 2 < |T|) && (d < 0 ==> (-d - 1) / 2 < |T|)
  }

  /** A digit's table entry, negated where the digit is negative. */
  function Entry<J, P>(ec: CurveGroup<J, P>, T: seq<P>, d: int): P
    requires d != 0 && Indexed(d, T)
  {
    if d > 0 then T[(d - 1) / 2] else ec.law.neg(T[(-d - 1) / 2])
  }

  lemma EntryIsMultiple<J(!new), P(!new)>(ec: CurveGroup<J, P>, T: seq<P>, d: int, X: P)
    requires Setting(ec) && ec.law.has(X) && OddTable(ec, T, X) && d % 2 == 1 && Indexed(d, T)
    ensures Entry(ec, T, d) == Mul(ec.law, d, X)
  {
    if d > 0 {
      assert 2 * ((d - 1) / 2) + 1 == d;
    } else {
      var k := (-d - 1) / 2;
      assert 2 * k + 1 == -d;
      assert T[k] == Mul(ec.law, 2 * k + 1, X);
      MulNeg(ec.law, -d, X);
    }
  }

  /** Every digit of every NAF indexes its table. */
  predicate AllIndexed<P>(nafs: seq<seq<int>>, tables: seq<seq<P>>) {
    |nafs| == |tables| && forall i, j :: 0 <= i < |nafs| && 0 <= j < |nafs[i]| ==> Indexed(nafs[i][j], tables[i])
  }

  /** The points position j adds, in the order of the scalars. */
  function Column<J, P>(ec: CurveGroup<J, P>, nafs: seq<seq<int>>, tables: seq<seq<P>>, j: nat): seq<P>
    requires AllIndexed(nafs, tables)
  {
    if nafs == [] then [] else
      var n := |nafs| - 1;
      Column(ec, nafs[..n], tables[..n], j)
        + (if DigitAt(nafs[n], j) != 0 then [Entry(ec, tables[n], DigitAt(nafs[n], j))] else [])
  }

  ghost predicate TablesOf<J(!new), P(!new)>(ec: CurveGroup<J, P>, nafs: seq<seq<int>>, tables: seq<seq<P>>, Qs: seq<P>) {
    && AllIndexed(nafs, tables) && |Qs| == |nafs|
    && (forall i :: 0 <= i < |tables| ==> OddTable(ec, tables[i], Qs[i]))
    && (forall i, j :: 0 <= i < |nafs| && 0 <= j < |nafs[i]| ==> nafs[i][j] == 0 || nafs[i][j] % 2 == 1)
  }

  /** The last scalar's digit joins the sum of a position, or does not when it is zero. */
  lemma ColumnLast<J(!new), P(!new)>(ec: CurveGroup<J, P>, c: seq<P>, T: seq<P>, d: int, X: P, sum: P)
    requires Setting(ec) && AllIn(ec.law, c) && ec.law.has(X) && OddTable(ec, T, X) && Indexed(d, T) && (d == 0 || d % 2 == 1)
    requires sum == PointSum(ec.law, c)
    ensures var more := c + (if d != 0 then [Entry(ec, T, d)] else []);
            AllIn(ec.law, more) && PointSum(ec.law, more) == ec.law.add(sum, Mul(ec.law, d, X))
  {
    PointSumIn(ec.law, c);
    if d != 0 {
      EntryIsMultiple(ec, T, d, X);
      assert (c + [Entry(ec, T, d)])[..|c|] == c;
    } else {
      MulOne(ec.law, X);
      assert c + [] == c;
    }
  }

  lemma DigitColumnLast<P(!new)>(g: Group<P>, nafs: seq<seq<int>>, Qs: seq<P>, j: nat)
    requires Lawful(g) && AllIn(g, Qs) && |nafs| == |Qs| > 0
    ensures var n := |nafs| - 1;
            var before := MulSum(g, DigitColumn(nafs[..n], j), Qs[..n]);
            MulSum(g, DigitColumn(nafs, j), Qs) == g.add(before, Mul(g, DigitAt(nafs[n], j), Qs[n]))
  {
    var n, d := |nafs| - 1, DigitAt(nafs[|nafs| - 1], j);
    assert DigitColumn(nafs, j) == DigitColumn(nafs[..n], j) + [d];
    assert Qs == Qs[..n] + [Qs[n]];
    MulSumConcat(g, DigitColumn(nafs[..n], j), Qs[..n], d, Qs[n]);
  }

  /** The points of a position sum to its digits times the points. */
  lemma {:induction false} ColumnSum<J(!new), P(!new)>(ec: CurveGroup<J, P>, nafs: seq<seq<int>>, tables: seq<seq<P>>, Qs: seq<P>, j: nat)
    requires Setting(ec) && TablesOf(ec, nafs, tables, Qs) && AllIn(ec.law, Qs)
    ensures AllIn(ec.law, Column(ec, nafs, tables, j))
    ensures PointSum(ec.law, Column(ec, nafs, tables, j)) == MulSum(ec.law, DigitColumn(nafs, j), Qs)
    decreases |nafs|
  {
    if nafs != [] {
      var n, d := |nafs| - 1, DigitAt(nafs[|nafs| - 1], j);
      ColumnSum(ec, nafs[..n], tables[..n], Qs[..n], j);
      DigitColumnLast(ec.law, nafs, Qs, j);
      ColumnLast(ec, Column(ec, nafs[..n], tables[..n], j), tables[n], d, Qs[n], MulSum(ec.law, DigitColumn(nafs[..n], j), Qs[..n]));
    }
  }

  // ---- the digits regrouped by position

  function Longest(nafs: seq<seq<int>>): (l: nat)
    ensures forall i :: 0 <= i < |nafs| ==> |nafs[i]| <= l
  {
    if nafs == [] then 0 else Larger(Longest(nafs[..|nafs| - 1]), |nafs[|nafs| - 1]|)
  }

  /** The points each bit position adds, every digit being read once. */
  method AdditionsByPosition<J, P>(nafs: seq<seq<int>>, tables: seq<seq<P>>, ec: CurveGroup<J, P>) returns (at: seq<seq<P>>)
    requires AllIndexed(nafs, tables)
    ensures |at| == Longest(nafs)
    ensures forall j :: 0 <= j < |at| ==> at[j] == Column(ec, nafs, tables, j)
  {
    at := seq(Longest(nafs), _ => []);
    for i := 0 to |nafs|
      invariant |at| == Longest(nafs)
      invariant forall j :: 0 <= j < |at| ==> at[j] == Column(ec, nafs[..i], tables[..i], j)
    {
      var naf, T := nafs[i], tables[i];
      ghost var was := at;
      assert forall j :: 0 <= j < |at| ==> was[j] == Column(ec, nafs[..i], tables[..i], j);
      for j := 0 to |naf|
        invariant |at| == |was|
        invariant forall k :: 0 <= k < |at| && k >= j ==> at[k] == was[k]
        invariant forall k :: 0 <= k < j ==> at[k] == was[k] + (if naf[k] != 0 then [Entry(ec, T, naf[k])] else [])
      {
        if naf[j] != 0 {
          at := at[j := at[j] + [Entry(ec, T, naf[j])]];
        }
      }
      forall k | 0 <= k < |at| ensures at[k] == Column(ec, nafs[..i + 1], tables[..i + 1], k) {
        assert nafs[..i + 1][..i] == nafs[..i] && tables[..i + 1][..i] == tables[..i];
        assert k >= |naf| ==> was[k] + [] == was[k];
      }
    }
    assert nafs[..|nafs|] == nafs && tables[..|tables|] == tables;
  }

  /** One position: a doubling and its additions. */
  method AddPosition<J(!new), P(!new)>(R0: J, additions: seq<P>, ec: CurveGroup<J, P>, ghost X: P) returns (R: J)
    requires Setting(ec) && Stands(ec, R0, X) && AllIn(ec.law, additions)
    ensures Stands(ec, R, ec.law.add(ec.law.add(X, X), PointSum(ec.law, additions)))
  {
    ghost var g, X2 := ec.law, ec.law.add(X, X);
    R := ec.doubleJac(R0);
    assert g.add(X2, g.zero) == X2;
    for k := 0 to |additions|
      invariant Stands(ec, R, g.add(X2, PointSum(g, additions[..k])))
    {
      PointSumIn(g, additions[..k]);
      assert additions[..k + 1][..k] == additions[..k];
      assert Associates(g, X2, PointSum(g, additions[..k]), additions[k]);
      R := ec.addJacAff(R, additions[k]);
    }
    assert additions[..|additions|] == additions;
  }

  lemma TailsAtTop<P(!new)>(g: Group<P>, nafs: seq<seq<int>>, Qs: seq<P>)
    requires Lawful(g) && AllIn(g, Qs) && |nafs| == |Qs|
    ensures MulSum(g, Tails(nafs, Longest(nafs)), Qs) == g.zero
  {
    assert Tails(nafs, Longest(nafs)) == seq(|Qs|, _ => 0);
    MulSumZeros(g, Qs);
  }

  /** The loop over the positions, from the most significant down. */
  method SumByPosition<J(!new), P(!new)>(nafs: seq<seq<int>>, tables: seq<seq<P>>, ec: CurveGroup<J, P>, ghost Qs: seq<P>) returns (R: J)
    requires Setting(ec) && TablesOf(ec, nafs, tables, Qs) && AllIn(ec.law, Qs)
    ensures Stands(ec, R, MulSum(ec.law, Tails(nafs, 0), Qs))
  {
    var at := AdditionsByPosition(nafs, tables, ec);
    R := ec.infJ;
    TailsAtTop(ec.law, nafs, Qs);
    for j := |at| downto 0
      invariant Stands(ec, R, MulSum(ec.law, Tails(nafs, j), Qs))
    {
      ColumnSum(ec, nafs, tables, Qs, j);
      RowStep(ec.law, nafs, Qs, j);
      R := AddPosition(R, at[j], ec, MulSum(ec.law, Tails(nafs, j + 1), Qs));
    }
  }

  // ---- the tables, converted in one batch

  datatype Pending<+J> = Pending(index: nat, jac: seq<J>)

  function Concat<J>(ps: seq<Pending<J>>): seq<J> {
    if ps == [] then [] else Concat(ps[..|ps| - 1]) + ps[|ps| - 1].jac
  }

  /** Where the k-th table stands in the concatenation. */
  lemma {:induction false} ConcatSlice<J>(ps: seq<Pending<J>>, k: nat)
    requires k < |ps|
    ensures var start := |Concat(ps[..k])|;
            start + |ps[k].jac| <= |Concat(ps)| && Concat(ps)[start..start + |ps[k].jac|] == ps[k].jac
    ensures |Concat(ps[..k + 1])| == |Concat(ps[..k])| + |ps[k].jac|
    decreases |ps|
  {
    var n := |ps| - 1;
    assert ps[..k + 1][..k] == ps[..k];
    if k < n {
      assert ps[..n][..k] == ps[..k] && ps[..n][..k + 1] == ps[..k + 1];
      ConcatSlice(ps[..n], k);
      SliceOfPrefix(Concat(ps[..n]), ps[n].jac, |Concat(ps[..k])|, |ps[k].jac|);
    } else {
      assert ps[..k + 1] == ps;
    }
  }

  lemma SliceOfPrefix<J>(a: seq<J>, b: seq<J>, start: nat, l: nat)
    requires start + l <= |a|
    ensures (a + b)[start..start + l] == a[start..start + l]
  {
  }

  /** The width a point's table has: the wide one for a point named in `fixed`. */
  function Width<J(==)>(A: J, fixed: set<J>, w: nat, scalarLen: nat): (v: nat)
    requires w >= 1 && scalarLen >= 1
    ensures v >= 1
  {
    if A in fixed then (if scalarLen < 10 then scalarLen else 10) else w
  }

  ghost predicate IsTable<J(!new), P(!new)>(ec: CurveGroup<J, P>, T: seq<P>, w: nat, X: P) {
    w >= 1 && |T| == TableSize(w) && OddTable(ec, T, X)
  }

  ghost predicate JacTable<J(!new), P(!new)>(ec: CurveGroup<J, P>, T: seq<J>, w: nat, X: P) {
    w >= 1 && |T| == TableSize(w) && forall i :: 0 <= i < |T| ==> IsTimes(ec, T[i], 2 * i + 1, X)
  }

  /** A pending entry is the table of a point that is not fixed. */
  ghost predicate PendingFor<J(!new), P(!new)>(ec: CurveGroup<J, P>, e: Pending<J>, pairs: seq<(int, J)>, fixed: set<J>, w: nat) {
    e.index < |pairs| && pairs[e.index].1 !in fixed && JacTable(ec, e.jac, w, ec.aff(pairs[e.index].1))
  }

  lemma {:induction false} ConcatValid<J(!new), P(!new)>(ec: CurveGroup<J, P>, ps: seq<Pending<J>>, pairs: seq<(int, J)>, fixed: set<J>, w: nat)
    requires forall k :: 0 <= k < |ps| ==> PendingFor(ec, ps[k], pairs, fixed, w)
    ensures AllValid(ec, Concat(ps))
    decreases |ps|
  {
    if ps != [] {
      ConcatValid(ec, ps[..|ps| - 1], pairs, fixed, w);
      var e := ps[|ps| - 1];
      assert PendingFor(ec, e, pairs, fixed, w);
      forall i | 0 <= i < |e.jac| ensures ec.valid(e.jac[i]) { assert IsTimes(ec, e.jac[i], 2 * i + 1, ec.aff(pairs[e.index].1)); }
    }
  }

  /** The slice of the batch is the affine table. */
  lemma SliceIsTable<J(!new), P(!new)>(ec: CurveGroup<J, P>, ps: seq<Pending<J>>, k: nat, aff: seq<P>, w: nat, X: P)
    requires k < |ps| && AffineForms(ec, Concat(ps), aff) && JacTable(ec, ps[k].jac, w, X)
    ensures var start := |Concat(ps[..k])|;
            start + |ps[k].jac| <= |aff| && IsTable(ec, aff[start..start + |ps[k].jac|], w, X)
  {
    ConcatSlice(ps, k);
    var start, jac := |Concat(ps[..k])|, ps[k].jac;
    var T := aff[start..start + |jac|];
    forall i | 0 <= i < |T| ensures T[i] == Mul(ec.law, 2 * i + 1, X) {
      assert Concat(ps)[start..start + |jac|][i] == jac[i];
      assert T[i] == aff[start + i] == ec.aff(Concat(ps)[start + i]);
      assert IsTimes(ec, jac[i], 2 * i + 1, X);
    }
  }

  /** The tables this call builds, in Jacobian coordinates; a fixed point's is the memoized one. */
  method PendingTables<J(!new, ==), P(!new)>(pairs: seq<(int, J)>, ec: CurveGroup<J, P>, w: nat, fixed: set<J>, scalarLen: nat)
    returns (tables: seq<seq<P>>, pending: seq<Pending<J>>)
    requires Setting(ec) && AllValidPairs(ec, pairs) && w >= 1 && scalarLen >= 1
    ensures |tables| == |pairs|
    ensures forall k :: 0 <= k < |pending| ==> PendingFor(ec, pending[k], pairs, fixed, w)
    ensures forall i :: 0 <= i < |pairs| && pairs[i].1 in fixed ==>
      IsTable(ec, tables[i], Width(pairs[i].1, fixed, w, scalarLen), ec.aff(pairs[i].1))
    ensures forall i :: 0 <= i < |pairs| && pairs[i].1 !in fixed ==> exists k :: 0 <= k < |pending| && pending[k].index == i
  {
    tables, pending := [], [];
    for i := 0 to |pairs|
      invariant |tables| == i
      invariant forall k :: 0 <= k < |pending| ==> PendingFor(ec, pending[k], pairs, fixed, w)
      invariant forall l :: 0 <= l < i && pairs[l].1 in fixed ==>
        IsTable(ec, tables[l], Width(pairs[l].1, fixed, w, scalarLen), ec.aff(pairs[l].1))
      invariant forall l :: 0 <= l < i && pairs[l].1 !in fixed ==> exists k :: 0 <= k < |pending| && pending[k].index == l
    {
      var A := pairs[i].1;
      var width := Width(A, fixed, w, scalarLen);
      if A in fixed {
        var T, d, a := OddMultiplesAff(A, ec, width);
        tables := tables + [T];
      } else {
        var jac, d, a := OddMultiples(A, ec, width);
        tables := tables + [[]];
        ghost var was := pending;
        pending := pending + [Pending(i, jac)];
        assert pending[|was|].index == i;
        assert forall k :: 0 <= k < |was| ==> pending[k] == was[k];
      }
    }
  }

  lemma PlaceTable<J(!new), P(!new)>(ec: CurveGroup<J, P>, ps: seq<Pending<J>>, k: nat, aff: seq<P>, pairs: seq<(int, J)>, fixed: set<J>, w: nat)
    requires k < |ps| && PendingFor(ec, ps[k], pairs, fixed, w) && AffineForms(ec, Concat(ps), aff)
    ensures var start := |Concat(ps[..k])|;
            && start + |ps[k].jac| <= |aff| && |Concat(ps[..k + 1])| == start + |ps[k].jac|
            && ps[k].index < |pairs| && pairs[ps[k].index].1 !in fixed
            && IsTable(ec, aff[start..start + |ps[k].jac|], w, ec.aff(pairs[ps[k].index].1))
  {
    ConcatSlice(ps, k);
    SliceIsTable(ec, ps, k, aff, w, ec.aff(pairs[ps[k].index].1));
  }

  /** Every table, the ones the call builds being converted together and sliced back. */
  method BuildTables<J(!new, ==), P(!new)>(pairs: seq<(int, J)>, ec: CurveGroup<J, P>, w: nat, fixed: set<J>, scalarLen: nat)
    returns (tables: seq<seq<P>>)
    requires Setting(ec) && AllValidPairs(ec, pairs) && w >= 1 && scalarLen >= 1
    ensures |tables| == |pairs|
    ensures forall i :: 0 <= i < |pairs| ==> IsTable(ec, tables[i], Width(pairs[i].1, fixed, w, scalarLen), ec.aff(pairs[i].1))
  {
    var pending;
    tables, pending := PendingTables(pairs, ec, w, fixed, scalarLen);
    ConcatValid(ec, pending, pairs, fixed, w);
    var aff := ec.affBatch(Concat(pending));
    var start := 0;
    for k := 0 to |pending|
      invariant |tables| == |pairs| && start == |Concat(pending[..k])|
      invariant forall i :: 0 <= i < |pairs| && pairs[i].1 in fixed ==>
        IsTable(ec, tables[i], Width(pairs[i].1, fixed, w, scalarLen), ec.aff(pairs[i].1))
      invariant forall l :: 0 <= l < k ==> IsTable(ec, tables[pending[l].index], w, ec.aff(pairs[pending[l].index].1))
    {
      PlaceTable(ec, pending, k, aff, pairs, fixed, w);
      tables := tables[pending[k].index := aff[start..start + |pending[k].jac|]];
      start := start + |pending[k].jac|;
    }
  }

  method Nafs<J(==)>(pairs: seq<(int, J)>, w: nat, fixed: set<J>, scalarLen: nat) returns (nafs: seq<seq<int>>)
    requires w >= 1 && scalarLen >= 1 && forall i :: 0 <= i < |pairs| ==> pairs[i].0 > 0
    ensures |nafs| == |pairs|
    ensures forall i :: 0 <= i < |pairs| ==> nafs[i] == Wnaf(pairs[i].0, Width(pairs[i].1, fixed, w, scalarLen))
  {
    nafs := [];
    for i := 0 to |pairs|
      invariant |nafs| == i
      invariant forall k :: 0 <= k < i ==> nafs[k] == Wnaf(pairs[k].0, Width(pairs[k].1, fixed, w, scalarLen))
    {
      var naf := WnafOfM(pairs[i].0, Width(pairs[i].1, fixed, w, scalarLen));
      nafs := nafs + [naf];
    }
  }

  /** A digit of a NAF of width w indexes the table of width w. */
  lemma DigitIndexed<P>(d: int, w: nat, T: seq<P>)
    requires w >= 1 && NafDigit(d, Larger(w, 2)) && |T| == TableSize(w)
    ensures Indexed(d, T)
  {
    assert Pow2(1) == 2 by { assert Pow2(0) == 1; }
    if w > 2 { assert Pow2(w - 1) == 2 * Pow2(w - 2); }
  }

  /** The NAFs and tables fit each other, and the digits' whole value is the sum to compute. */
  lemma NafsFit<J(!new), P(!new)>(ec: CurveGroup<J, P>, pairs: seq<(int, J)>, ws: seq<nat>, nafs: seq<seq<int>>, tables: seq<seq<P>>)
    requires Setting(ec) && |ws| == |nafs| == |tables| == |pairs|
    requires forall i :: 0 <= i < |pairs| ==> pairs[i].0 > 0 && ws[i] >= 1 && nafs[i] == Wnaf(pairs[i].0, ws[i])
    requires forall i :: 0 <= i < |pairs| ==> IsTable(ec, tables[i], ws[i], ec.aff(pairs[i].1))
    ensures TablesOf(ec, nafs, tables, Points(ec, pairs)) && Tails(nafs, 0) == Scalars(pairs)
  {
    forall i | 0 <= i < |nafs|
      ensures TailValue(nafs[i], 0) == pairs[i].0 && OddTable(ec, tables[i], Points(ec, pairs)[i])
      ensures forall j :: 0 <= j < |nafs[i]| ==> Indexed(nafs[i][j], tables[i]) && (nafs[i][j] == 0 || nafs[i][j] % 2 == 1)
    {
      WnafDigits(pairs[i].0, ws[i]);
      assert nafs[i][0..] == nafs[i];
      assert IsTable(ec, tables[i], ws[i], ec.aff(pairs[i].1));
      forall j | 0 <= j < |nafs[i]| ensures Indexed(nafs[i][j], tables[i]) && (nafs[i][j] == 0 || nafs[i][j] % 2 == 1) {
        DigitIndexed(nafs[i][j], ws[i], tables[i]);
      }
    }
  }

  /** Interleaved wNAF, at any width and any set of fixed points: the sum of the multiples. */
  method MultiMultWNafVar<J(!new, ==), P(!new)>(scalars: seq<int>, points: seq<J>, ec: CurveGroup<J, P>, w: int, fixed: set<J>, scalarLen: nat)
    returns (r: Option<J>)
    requires Setting(ec) && AllValid(ec, points) && scalarLen >= 1
    ensures r.None? <==> w <= 0 || Refused(scalars, points)
    ensures r.Some? ==> Stands(ec, r.value, Sum(ec, scalars, points))
  {
    if w <= 0 { return None; }
    var checked := MultiMultPairs(scalars, points);
    if checked.None? { return None; }
    var pairs := checked.value;
    NonzeroSum(ec, scalars, points);
    if pairs == [] { return Some(ec.infJ); }
    var nafs := Nafs(pairs, w, fixed, scalarLen);
    var tables := BuildTables(pairs, ec, w, fixed, scalarLen);
    ghost var ws := seq(|pairs|, i requires 0 <= i < |pairs| => Width(pairs[i].1, fixed, w, scalarLen));
    NafsFit(ec, pairs, ws, nafs, tables);
    var R := SumByPosition(nafs, tables, ec, Points(ec, pairs));
    return Some(R);
  }

  lemma SumOfTwo<J(!new), P(!new)>(ec: CurveGroup<J, P>, u: int, A: J, v: int, B: J)
    requires Setting(ec) && ec.valid(A) && ec.valid(B)
    ensures Sum(ec, [u, v], [A, B]) == Pair(ec.law, u, ec.aff(A), v, ec.aff(B))
  {
    SumSnoc(ec, [u, v], [A, B], 1);
    SumSnoc(ec, [u, v], [A, B], 0);
    assert [u, v][..2] == [u, v] && [A, B][..2] == [A, B];
    assert [u, v][..0] == [] && [A, B][..0] == [];
    ZeroLeft(ec.law, Mul(ec.law, u, ec.aff(A)));
  }

  /** Two scalars interleaved: u*H + v*Q. */
  method DoubleMultWNafVar<J(!new, ==), P(!new)>(u: int, HJ: J, v: int, QJ: J, ec: CurveGroup<J, P>, w: int, fixed: set<J>, scalarLen: nat)
    returns (r: Option<J>)
    requires Setting(ec) && ec.valid(HJ) && ec.valid(QJ) && scalarLen >= 1
    ensures r.None? <==> u < 0 || v < 0 || w <= 0
    ensures r.Some? ==> Stands(ec, r.value, Pair(ec.law, u, ec.aff(HJ), v, ec.aff(QJ)))
  {
    if u < 0 || v < 0 || w <= 0 { return None; }
    SumOfTwo(ec, u, HJ, v, QJ);
    r := MultiMultWNafVar([u, v], [HJ, QJ], ec, w, fixed, scalarLen);
  }
}
