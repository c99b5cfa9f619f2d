/** Lagrange interpolation modulo a prime: the weights, and the value they recover. */
module Interpolation {
  import opened Modular
  import opened Polynomials

  // ---- the products of the weights, as the loops form them

  /** The product of x - id over the identifiers other than `my`. */
  function OtherRoots(ids: seq<int>, my: int, x: int): int {
    if ids == [] then 1 else
      var n := |ids| - 1;
      if ids[n] == my then OtherRoots(ids[..n], my, x) else OtherRoots(ids[..n], my, x) * (x - ids[n])
  }

  /** The Lagrange coefficient of `my` at x; 0 stands for the division that fails. */
  function Weight(ids: seq<int>, my: int, x: int, n: int): (w: int)
    requires n > 0
  {
    match Inverse(OtherRoots(ids, my, my), n)
    case Some(i) => OtherRoots(ids, my, x) * i % n
    case None => 0
  }

  ghost predicate IsWeight(w: int, ids: seq<int>, my: int, x: int, n: int) {
    n > 0 && 0 <= w < n && Cong(w * OtherRoots(ids, my, my), OtherRoots(ids, my, x), n)
  }

  predicate Distinct(ids: seq<int>) {
    forall i, j :: 0 <= i < j < |ids| ==> ids[i] != ids[j]
  }

  lemma WeightIsWeight(ids: seq<int>, my: int, x: int, n: int)
    requires n > 0 && Inverse(OtherRoots(ids, my, my), n).Some?
    ensures IsWeight(Weight(ids, my, x, n), ids, my, x, n)
  {
    var d, num := OtherRoots(ids, my, my), OtherRoots(ids, my, x);
    QuotientTimes(num, Inverse(d, n).value, d, n);
  }

  lemma QuotientTimes(num: int, i: int, d: int, n: int)
    requires n > 0 && Cong(d * i, 1, n)
    ensures Cong((num * i % n) * d, num, n) && 0 <= num * i % n < n
  {
    ModCong(num * i, n);
    CongMul(num * i % n, num * i, d, d, n);
    CongScale(num, d * i, 1, n);
    assert (num * i) * d == num * (d * i);
  }

  /** The equation has one solution below n. */
  lemma WeightUnique(w: int, ids: seq<int>, my: int, x: int, n: int)
    requires IsWeight(w, ids, my, x, n) && Inverse(OtherRoots(ids, my, my), n).Some?
    ensures w == Weight(ids, my, x, n)
  {
    var d := OtherRoots(ids, my, my);
    WeightIsWeight(ids, my, x, n);
    CancelUnit(w, Weight(ids, my, x, n), d, Inverse(d, n).value, n);
    SmallMod(w, n);
    SmallMod(Weight(ids, my, x, n), n);
  }

  lemma CancelUnit(a: int, b: int, d: int, i: int, n: int)
    requires n > 0 && Cong(d * i, 1, n) && Cong(a * d, b * d, n)
    ensures Cong(a, b, n)
  {
    CongMul(a * d, b * d, i, i, n);
    CongScale(a, d * i, 1, n);
    CongScale(b, d * i, 1, n);
    assert (a * d) * i == a * (d * i) && (b * d) * i == b * (d * i);
  }

  /** Distinct identifiers below the prime have invertible denominators. */
  lemma {:induction false} DenominatorInvertible(ids: seq<int>, my: int, n: int)
    requires IsPrime(n) && forall i :: 0 <= i < |ids| && ids[i] != my ==> (my - ids[i]) % n != 0
    ensures OtherRoots(ids, my, my) % n != 0 && Inverse(OtherRoots(ids, my, my), n).Some?
    decreases |ids|
  {
    if ids == [] {
      SmallMod(1, n);
    } else {
      var k := |ids| - 1;
      DenominatorInvertible(ids[..k], my, n);
      if ids[k] != my && (OtherRoots(ids[..k], my, my) * (my - ids[k])) % n == 0 {
        PrimeDividesProduct(OtherRoots(ids[..k], my, my), my - ids[k], n);
      }
    }
    PrimeInverse(OtherRoots(ids, my, my), n);
  }

  lemma BelowPrime(ids: seq<int>, n: int)
    requires n > 0 && Distinct(ids) && forall i :: 0 <= i < |ids| ==> 0 <= ids[i] < n
    ensures Incongruent(ids, n)
    ensures forall i, j :: 0 <= i < |ids| && 0 <= j < |ids| && ids[i] != ids[j] ==> (ids[j] - ids[i]) % n != 0
  {
    forall i, j | 0 <= i < |ids| && 0 <= j < |ids| && ids[i] != ids[j] ensures (ids[j] - ids[i]) % n != 0 {
      CongIffDifference(ids[j], ids[i], n);
      SmallMod(ids[i], n);
      SmallMod(ids[j], n);
    }
    forall i, j | 0 <= i < j < |ids| ensures !Cong(ids[i], ids[j], n) {
      SmallMod(ids[i], n);
      SmallMod(ids[j], n);
    }
  }

  // ---- the basis polynomials

  /** The product of X - id over the identifiers other than `my`. */
  function Basis(ids: seq<int>, my: int): (c: seq<int>)
    ensures |c| >= 1
  {
    if ids == [] then [1] else
      var n := |ids| - 1;
      if ids[n] == my then Basis(ids[..n], my) else TimesRoot(Basis(ids[..n], my), ids[n])
  }

  lemma {:induction false} BasisEval(ids: seq<int>, my: int, x: int)
    ensures Eval(Basis(ids, my), x) == OtherRoots(ids, my, x)
    decreases |ids|
  {
    if ids == [] {
      assert [1][1..] == [] && Eval([], x) == 0;
      assert Eval([1], x) == 1 + x * 0;
    } else {
      var n := |ids| - 1;
      BasisEval(ids[..n], my, x);
      EvalTimesRoot(Basis(ids[..n], my), ids[n], x);
      SwapProduct(x - ids[n], OtherRoots(ids[..n], my, x));
    }
  }

  lemma SwapProduct(a: int, b: int)
    ensures a * b == b * a
  {
  }

  lemma {:induction false} BasisLength(ids: seq<int>, my: int)
    requires Distinct(ids)
    ensures |Basis(ids, my)| == if my in ids then |ids| else |ids| + 1
    decreases |ids|
  {
    if ids != [] {
      var n := |ids| - 1;
      assert Distinct(ids[..n]);
      BasisLength(ids[..n], my);
      assert ids == ids[..n] + [ids[n]];
      assert ids[n] == my ==> my !in ids[..n];
    }
  }

  /** Away from its own identifier the basis polynomial vanishes on the identifiers. */
  lemma {:induction false} OtherRootsVanish(ids: seq<int>, my: int, k: nat)
    requires k < |ids| && ids[k] != my
    ensures OtherRoots(ids, my, ids[k]) == 0
    decreases |ids|
  {
    var n := |ids| - 1;
    if k < n { OtherRootsVanish(ids[..n], my, k); }
  }

  // ---- the polynomial through given values

  function ZeroPolynomial(u: nat): (c: seq<int>)
    ensures |c| == u
  {
    seq(u, _ => 0)
  }

  lemma {:induction false} ZeroEval(u: nat, x: int)
    ensures Eval(ZeroPolynomial(u), x) == 0
  {
    if u > 0 {
      assert ZeroPolynomial(u)[1..] == ZeroPolynomial(u - 1);
      ZeroEval(u - 1, x);
    }
  }

  /** The sum of ys[i] * weight_i(X) over the first k identifiers. */
  function Through(ids: seq<int>, ys: seq<int>, n: int, k: nat): (c: seq<int>)
    requires n > 0 && k <= |ids| == |ys| && Distinct(ids)
    ensures |c| == |ids|
    decreases k
  {
    if k == 0 then ZeroPolynomial(|ids|) else
      BasisLength(ids, ids[k - 1]);
      Plus(Through(ids, ys, n, k - 1), Scaled(ys[k - 1] * DenominatorInverse(ids, ids[k - 1], n), Basis(ids, ids[k - 1])))
  }

  function DenominatorInverse(ids: seq<int>, my: int, n: int): int
    requires n > 0
  {
    match Inverse(OtherRoots(ids, my, my), n)
    case Some(i) => i
    case None => 0
  }

  /** Its value at x, the weights at x being formed by the same inverses. */
  function WeightedSum(ids: seq<int>, ys: seq<int>, x: int, n: int, k: nat): int
    requires n > 0 && k <= |ids| == |ys|
    decreases k
  {
    if k == 0 then 0 else
      WeightedSum(ids, ys, x, n, k - 1) + ys[k - 1] * Weight(ids, ids[k - 1], x, n)
  }

  ghost predicate Invertible(ids: seq<int>, n: int) {
    n > 0 && forall i :: 0 <= i < |ids| ==> Inverse(OtherRoots(ids, ids[i], ids[i]), n).Some?
  }

  lemma {:induction false} ThroughEval(ids: seq<int>, ys: seq<int>, n: int, k: nat, x: int)
    requires Invertible(ids, n) && k <= |ids| == |ys| && Distinct(ids)
    ensures Cong(Eval(Through(ids, ys, n, k), x), WeightedSum(ids, ys, x, n, k), n)
    decreases k
  {
    if k == 0 {
      ZeroEval(|ids|, x);
    } else {
      ThroughEval(ids, ys, n, k - 1, x);
      ThroughNext(ids, ys, n, k, x);
    }
  }

  lemma ThroughNext(ids: seq<int>, ys: seq<int>, n: int, k: nat, x: int)
    requires Invertible(ids, n) && 0 < k <= |ids| == |ys| && Distinct(ids)
    requires Cong(Eval(Through(ids, ys, n, k - 1), x), WeightedSum(ids, ys, x, n, k - 1), n)
    ensures Cong(Eval(Through(ids, ys, n, k), x), WeightedSum(ids, ys, x, n, k), n)
  {
    var my, y := ids[k - 1], ys[k - 1];
    var e, s := Eval(Through(ids, ys, n, k - 1), x), WeightedSum(ids, ys, x, n, k - 1);
    var i, o, w := DenominatorInverse(ids, my, n), OtherRoots(ids, my, x), Weight(ids, my, x, n);
    LastTermEval(ids, ys, n, k, x);
    assert w == o * i % n;
    TermStep(e, s, y, i, o, w, n, Eval(Through(ids, ys, n, k), x), WeightedSum(ids, ys, x, n, k));
  }

  lemma TermStep(e: int, s: int, y: int, i: int, o: int, w: int, n: int, e': int, s': int)
    requires n > 0 && Cong(e, s, n) && w == o * i % n && e' == e + (y * i) * o && s' == s + y * w
    ensures Cong(e', s', n)
  {
    ThroughStep(e, s, y, i, o, n);
  }

  lemma LastTermEval(ids: seq<int>, ys: seq<int>, n: int, k: nat, x: int)
    requires n > 0 && 0 < k <= |ids| == |ys| && Distinct(ids)
    ensures var my := ids[k - 1];
            Eval(Through(ids, ys, n, k), x)
            == Eval(Through(ids, ys, n, k - 1), x) + (ys[k - 1] * DenominatorInverse(ids, my, n)) * OtherRoots(ids, my, x)
  {
    var my, f := ids[k - 1], ys[k - 1] * DenominatorInverse(ids, ids[k - 1], n);
    BasisLength(ids, my);
    EvalPlus(Through(ids, ys, n, k - 1), Scaled(f, Basis(ids, my)), x);
    EvalScaled(f, Basis(ids, my), x);
    BasisEval(ids, my, x);
  }

  lemma ThroughStep(e: int, s: int, y: int, i: int, o: int, n: int)
    requires n > 0 && Cong(e, s, n)
    ensures Cong(e + (y * i) * o, s + y * (o * i % n), n)
  {
    ModCong(o * i, n);
    CongScale(y, o * i % n, o * i, n);
    assert (y * i) * o == y * (o * i);
    CongAdd(e, s, (y * i) * o, y * (o * i % n), n);
  }

  /** At an identifier the other weights are zero and its own is one. */
  lemma {:induction false} SumAtIdentifier(ids: seq<int>, ys: seq<int>, n: int, k: nat, j: nat)
    requires Invertible(ids, n) && k <= |ids| == |ys| && j < |ids| && Distinct(ids)
    ensures Cong(WeightedSum(ids, ys, ids[j], n, k), if j < k then ys[j] else 0, n)
    decreases k
  {
    if k > 0 {
      SumAtIdentifier(ids, ys, n, k - 1, j);
      var my, y := ids[k - 1], ys[k - 1];
      if j == k - 1 {
        OwnWeight(ids, my, n);
        CongScale(y, Weight(ids, my, my, n), 1, n);
        CongAdd(WeightedSum(ids, ys, ids[j], n, k - 1), 0, y * Weight(ids, my, my, n), y * 1, n);
      } else {
        assert ids[j] != my;
        OtherRootsVanish(ids, my, j);
        OtherWeight(ids, my, ids[j], n);
      }
    }
  }

  lemma OwnWeight(ids: seq<int>, my: int, n: int)
    requires n > 0 && Inverse(OtherRoots(ids, my, my), n).Some?
    ensures Cong(Weight(ids, my, my, n), 1, n)
  {
    ModCong(OtherRoots(ids, my, my) * DenominatorInverse(ids, my, n), n);
  }

  lemma OtherWeight(ids: seq<int>, my: int, x: int, n: int)
    requires n > 0 && OtherRoots(ids, my, x) == 0
    ensures Weight(ids, my, x, n) == 0
  {
    SmallMod(0, n);
    assert 0 * DenominatorInverse(ids, my, n) == 0;
  }

  /** The polynomial takes the given value at every identifier. */
  lemma ThroughAtIdentifier(ids: seq<int>, ys: seq<int>, n: int, j: nat)
    requires Invertible(ids, n) && |ids| == |ys| && j < |ids| && Distinct(ids)
    ensures Cong(Eval(Through(ids, ys, n, |ids|), ids[j]), ys[j], n)
  {
    ThroughEval(ids, ys, n, |ids|, ids[j]);
    SumAtIdentifier(ids, ys, n, |ids|, j);
  }

  /** f and g, of as many coefficients as identifiers, agree everywhere if they agree there. */
  lemma AgreeEverywhere(f: seq<int>, g: seq<int>, ids: seq<int>, n: int, x: int)
    requires IsPrime(n) && |f| == |g| == |ids| && Incongruent(ids, n)
    requires forall j :: 0 <= j < |ids| ==> Cong(Eval(f, ids[j]), Eval(g, ids[j]), n)
    ensures Cong(Eval(f, x), Eval(g, x), n)
  {
    var d := Plus(f, Scaled(-1, g));
    forall y ensures Eval(d, y) == Eval(f, y) - Eval(g, y) {
      EvalPlus(f, Scaled(-1, g), y);
      EvalScaled(-1, g, y);
    }
    forall j | 0 <= j < |ids| ensures Eval(d, ids[j]) % n == 0 {
      CongIffDifference(Eval(f, ids[j]), Eval(g, ids[j]), n);
    }
    ManyRoots(d, ids, n, x);
    CongIffDifference(Eval(f, x), Eval(g, x), n);
  }

  function Padded(f: seq<int>, u: nat): (c: seq<int>)
    requires |f| <= u
    ensures |c| == u
  {
    f + ZeroPolynomial(u - |f|)
  }

  lemma {:induction false} PaddedEval(f: seq<int>, u: nat, x: int)
    requires |f| <= u
    ensures Eval(Padded(f, u), x) == Eval(f, x)
    decreases u - |f|
  {
    if |f| < u {
      assert Padded(f, u) == Padded(f + [0], u);
      PaddedEval(f + [0], u, x);
      EvalSnoc(f, 0, x);
      assert Pow(x, |f|) * 0 == 0;
    } else {
      assert Padded(f, u) == f;
    }
  }

  function Values(f: seq<int>, ids: seq<int>): (ys: seq<int>)
    ensures |ys| == |ids|
  {
    seq(|ids|, i requires 0 <= i < |ids| => Eval(f, ids[i]))
  }

  /** Lagrange: any identifiers, at least as many as coefficients, recover the polynomial at any x. */
  lemma Interpolates(f: seq<int>, ids: seq<int>, n: int, x: int)
    requires IsPrime(n) && |f| <= |ids| && Distinct(ids) && Incongruent(ids, n) && Invertible(ids, n)
    ensures Cong(WeightedSum(ids, Values(f, ids), x, n, |ids|), Eval(f, x), n)
  {
    var u, ys := |ids|, Values(f, ids);
    var g, h := Through(ids, ys, n, u), Padded(f, u);
    forall j | 0 <= j < u ensures Cong(Eval(g, ids[j]), Eval(h, ids[j]), n) {
      ThroughAtIdentifier(ids, ys, n, j);
      PaddedEval(f, u, ids[j]);
    }
    AgreeEverywhere(g, h, ids, n, x);
    ThroughEval(ids, ys, n, u, x);
    PaddedEval(f, u, x);
  }

  /** Distinct identifiers below the prime meet every condition. */
  lemma Suitable(ids: seq<int>, n: int)
    requires IsPrime(n) && Distinct(ids) && forall i :: 0 <= i < |ids| ==> 0 <= ids[i] < n
    ensures Incongruent(ids, n) && Invertible(ids, n)
  {
    BelowPrime(ids, n);
    forall i | 0 <= i < |ids| ensures Inverse(OtherRoots(ids, ids[i], ids[i]), n).Some? {
      DenominatorInvertible(ids, ids[i], n);
    }
  }

  // ---- the loops

  /** The weight of `my` at x, as the reconstruction of a public share forms it. */
  method WeightAt(ids: seq<int>, my: int, x: int, n: int) returns (w: Option<int>)
    requires n > 0
    ensures w.None? <==> Inverse(OtherRoots(ids, my, my), n).None?
    ensures w.Some? ==> w.value == Weight(ids, my, x, n)
  {
    var num, deno := 1, 1;
    for i := 0 to |ids|
      invariant Cong(num, OtherRoots(ids[..i], my, x), n) && Cong(deno, OtherRoots(ids[..i], my, my), n)
    {
      assert ids[..i + 1][..i] == ids[..i];
      if ids[i] != my {
        ReducedTimes(num, OtherRoots(ids[..i], my, x), x - ids[i], n);
        ReducedTimes(deno, OtherRoots(ids[..i], my, my), my - ids[i], n);
        num, deno := num * (x - ids[i]) % n, deno * (my - ids[i]) % n;
      }
    }
    assert ids[..|ids|] == ids;
    SameInverse(deno, OtherRoots(ids, my, my), n);
    match Inverse(deno, n)
    case None => return None;
    case Some(i) =>
      CongMul(num, OtherRoots(ids, my, x), i, i, n);
      return Some(num * i % n);
  }

  lemma ReducedTimes(a: int, b: int, k: int, n: int)
    requires n > 0 && Cong(a, b, n)
    ensures Cong(a * k % n, b * k, n)
  {
    CongMul(a, b, k, k, n);
    ModCong(a * k, n);
  }

  lemma SameInverse(a: int, b: int, n: int)
    requires n > 0 && Cong(a, b, n)
    ensures Inverse(a, n) == Inverse(b, n)
  {
    forall r ensures IsInverse(r, a, n) <==> IsInverse(r, b, n) {
      CongMul(a, b, r, r, n);
    }
    if Inverse(a, n).Some? && Inverse(b, n).Some? {
      InverseUnique(Inverse(a, n).value, Inverse(b, n).value, a, n);
    }
  }

  /** The coefficient at -1, both products formed with the opposite signs. */
  method DeriveInterpolatingValue(ids: seq<int>, my: int, n: int) returns (w: Option<int>)
    requires n > 0
    ensures w.None? <==> Inverse(OtherRoots(ids, my, my), n).None?
    ensures w.Some? ==> w.value == Weight(ids, my, -1, n)
  {
    var num, deno := 1, 1;
    ghost var sign := 1;
    for i := 0 to |ids|
      invariant sign == 1 || sign == -1
      invariant Cong(num, sign * OtherRoots(ids[..i], my, -1), n) && Cong(deno, sign * OtherRoots(ids[..i], my, my), n)
    {
      assert ids[..i + 1][..i] == ids[..i];
      if ids[i] != my {
        OppositeTimes(num, sign, OtherRoots(ids[..i], my, -1), ids[i] + 1, n);
        OppositeTimes(deno, sign, OtherRoots(ids[..i], my, my), ids[i] - my, n);
        num, deno := num * (ids[i] + 1) % n, deno * (ids[i] - my) % n;
        sign := -sign;
      }
    }
    assert ids[..|ids|] == ids;
    SignedInverse(deno, sign, OtherRoots(ids, my, my), n);
    match Inverse(deno, n)
    case None => return None;
    case Some(i) =>
      SignedQuotient(num, i, deno, sign, OtherRoots(ids, my, -1), OtherRoots(ids, my, my), n);
      WeightUnique(num * i % n, ids, my, -1, n);
      return Some(num * i % n);
  }

  lemma OppositeTimes(a: int, sign: int, b: int, k: int, n: int)
    requires n > 0 && Cong(a, sign * b, n)
    ensures Cong(a * k % n, -sign * (b * -k), n)
  {
    ReducedTimes(a, sign * b, k, n);
    assert (sign * b) * k == sign * (b * k) && b * -k == -(b * k);
    assert -sign * -(b * k) == sign * (b * k);
  }

  lemma SignedInverse(a: int, sign: int, b: int, n: int)
    requires n > 0 && (sign == 1 || sign == -1) && Cong(a, sign * b, n)
    ensures Inverse(a, n).Some? <==> Inverse(b, n).Some?
  {
    SameInverse(a, sign * b, n);
    InverseIffCoprime(sign * b, n);
    InverseIffCoprime(b, n);
    if Coprime(sign * b, n) {
      var x, y :| Times(sign * b, x) + Times(n, y) == 1;
      assert (sign * b) * x == b * (sign * x);
      assert Times(b, sign * x) + Times(n, y) == 1;
    }
    if Coprime(b, n) {
      var x, y :| Times(b, x) + Times(n, y) == 1;
      assert sign * sign == 1;
      assert (sign * b) * (sign * x) == (sign * sign) * (b * x);
      assert Times(sign * b, sign * x) + Times(n, y) == 1;
    }
  }

  lemma SignedQuotient(num: int, i: int, deno: int, sign: int, N: int, D: int, n: int)
    requires n > 0 && (sign == 1 || sign == -1) && Cong(num, sign * N, n) && Cong(deno, sign * D, n) && Cong(deno * i, 1, n)
    ensures Cong((num * i % n) * D, N, n) && 0 <= num * i % n < n
  {
    var w := num * i % n;
    QuotientTimes(num, i, deno, n);
    // w*sign*D = sign*N, and the sign squares to one
    CongScale(w, deno, sign * D, n);
    CongScale(sign, w * (sign * D), sign * N, n);
    assert sign * (w * (sign * D)) == (sign * sign) * (w * D) && sign * (sign * N) == (sign * sign) * N;
    assert sign * sign == 1;
  }
}
