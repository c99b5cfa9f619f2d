/** The strong Lucas test of number_theory.py, against the Lucas sequences themselves. */
module Lucas {
  import opened Modular
  import opened GaussSymbol
  import opened NumberTheory

  // ---- the sequences with P = 1

  function LucasU(k: nat, Q: int): int {
    if k < 2 then k else LucasU(k - 1, Q) - Q * LucasU(k - 2, Q)
  }

  function LucasV(k: nat, Q: int): int {
    if k == 0 then 2 else if k == 1 then 1 else LucasV(k - 1, Q) - Q * LucasV(k - 2, Q)
  }

  lemma {:induction false} CompanionTerm(k: nat, Q: int)
    ensures LucasV(k, Q) == 2 * LucasU(k + 1, Q) - LucasU(k, Q)
  {
    if k == 1 {
      assert LucasU(2, Q) == 1 - Q * 0;
    } else if k > 1 {
      CompanionTerm(k - 1, Q);
      CompanionTerm(k - 2, Q);
      CompanionStep(Q, LucasU(k - 2, Q), LucasU(k - 1, Q), LucasU(k, Q), LucasV(k - 2, Q), LucasV(k - 1, Q));
    }
  }

  lemma CompanionStep(Q: int, a: int, b: int, c: int, va: int, vb: int)
    requires c == b - Q * a && va == 2 * b - a && vb == 2 * c - b
    ensures vb - Q * va == 2 * (c - Q * b) - c
  {
    assert Q * va == 2 * (Q * b) - Q * a;
  }

  /** 2U(k+1) = U(k) + V(k) and 2V(k+1) = D*U(k) + V(k), with D = 1 - 4Q. */
  lemma NextTerm(k: nat, Q: int)
    ensures 2 * LucasU(k + 1, Q) == LucasU(k, Q) + LucasV(k, Q)
    ensures 2 * LucasV(k + 1, Q) == (1 - 4 * Q) * LucasU(k, Q) + LucasV(k, Q)
  {
    CompanionTerm(k, Q);
    CompanionTerm(k + 1, Q);
    NextStep(Q, LucasU(k, Q), LucasU(k + 1, Q), LucasV(k, Q));
  }

  lemma NextStep(Q: int, u: int, u1: int, v: int)
    requires v == 2 * u1 - u
    ensures 2 * (2 * (u1 - Q * u) - u1) == (1 - 4 * Q) * u + v
  {
    assert (1 - 4 * Q) * u == u - 4 * (Q * u);
  }

  /** The addition formulas. */
  lemma {:induction false} SumOfIndices(m: nat, n: nat, Q: int)
    ensures 2 * LucasU(m + n, Q) == LucasU(m, Q) * LucasV(n, Q) + LucasU(n, Q) * LucasV(m, Q)
    ensures 2 * LucasV(m + n, Q) == LucasV(m, Q) * LucasV(n, Q) + (1 - 4 * Q) * (LucasU(m, Q) * LucasU(n, Q))
  {
    if n != 0 {
      SumOfIndices(m, n - 1, Q);
      NextTerm(m + n - 1, Q);
      NextTerm(n - 1, Q);
      AdditionStep(1 - 4 * Q, LucasU(m, Q), LucasV(m, Q), LucasU(n - 1, Q), LucasV(n - 1, Q),
                   LucasU(m + n - 1, Q), LucasV(m + n - 1, Q), LucasU(n, Q), LucasV(n, Q),
                   LucasU(m + n, Q), LucasV(m + n, Q));
    }
  }

  lemma AdditionStep(D: int, um: int, vm: int, u: int, v: int, us: int, vs: int, u1: int, v1: int, us1: int, vs1: int)
    requires 2 * us == um * v + u * vm && 2 * vs == vm * v + D * (um * u)
    requires 2 * us1 == us + vs && 2 * vs1 == D * us + vs
    requires 2 * u1 == u + v && 2 * v1 == D * u + v
    ensures 2 * us1 == um * v1 + u1 * vm && 2 * vs1 == vm * v1 + D * (um * u1)
  {
    assert um * (2 * v1) == um * (D * u) + um * v;
    assert (2 * u1) * vm == u * vm + v * vm;
    assert um * (D * u) == D * (um * u);
    assert vm * (2 * v1) == D * (u * vm) + vm * v;
    assert D * (um * (2 * u1)) == D * (um * u) + D * (um * v);
    assert D * (2 * us) == D * (um * v) + D * (u * vm);
  }

  /** V(k)^2 - D*U(k)^2 = 4Q^k. */
  lemma {:induction false} Norm(k: nat, Q: int)
    ensures LucasV(k, Q) * LucasV(k, Q) - (1 - 4 * Q) * (LucasU(k, Q) * LucasU(k, Q)) == 4 * Pow(Q, k)
  {
    if k != 0 {
      Norm(k - 1, Q);
      NextTerm(k - 1, Q);
      NormStep(Q, LucasU(k - 1, Q), LucasV(k - 1, Q), LucasU(k, Q), LucasV(k, Q), Pow(Q, k - 1));
    }
  }

  lemma NormStep(Q: int, u: int, v: int, u1: int, v1: int, q: int)
    requires v * v - (1 - 4 * Q) * (u * u) == 4 * q
    requires 2 * u1 == u + v && 2 * v1 == (1 - 4 * Q) * u + v
    ensures v1 * v1 - (1 - 4 * Q) * (u1 * u1) == 4 * (Q * q)
  {
    var D := 1 - 4 * Q;
    SquareOfHalf(u1, 1, u, v);
    SquareOfHalf(v1, D, u, v);
    NormAlgebra(D, u * u, u * v, v * v, u1 * u1, v1 * v1, q);
    assert (1 - D) * q == 4 * (Q * q);
  }

  lemma SquareOfHalf(w: int, D: int, u: int, v: int)
    requires 2 * w == D * u + v
    ensures 4 * (w * w) == D * (D * (u * u)) + 2 * (D * (u * v)) + v * v
  {
    assert 4 * (w * w) == (2 * w) * (2 * w);
    var x := D * u;
    assert (x + v) * (x + v) == x * x + 2 * (x * v) + v * v;
    assert x * x == D * (D * (u * u)) && x * v == D * (u * v);
  }

  lemma NormAlgebra(D: int, uu: int, uv: int, vv: int, u1: int, v1: int, q: int)
    requires vv - D * uu == 4 * q
    requires 4 * u1 == 1 * (1 * uu) + 2 * (1 * uv) + vv
    requires 4 * v1 == D * (D * uu) + 2 * (D * uv) + vv
    ensures v1 - D * u1 == (1 - D) * q
  {
    assert D * (4 * u1) == D * uu + 2 * (D * uv) + D * vv;
    assert D * vv == D * (4 * q) + D * (D * uu);
  }

  /** The doubling formulas. */
  lemma DoubleIndex(k: nat, Q: int)
    ensures LucasU(2 * k, Q) == LucasU(k, Q) * LucasV(k, Q)
    ensures LucasV(2 * k, Q) == LucasV(k, Q) * LucasV(k, Q) - 2 * Pow(Q, k)
  {
    SumOfIndices(k, k, Q);
    Norm(k, Q);
    assert 2 * k == k + k;
  }

  // ---- the ladder modulo an odd n

  /** The three values the loop carries for the index k. */
  ghost predicate AtIndex(U: int, V: int, Qk: int, k: nat, Q: int, n: int)
    requires n > 0
  {
    && 0 <= U < n && Cong(U, LucasU(k, Q), n)
    && 0 <= V < n && Cong(V, LucasV(k, Q), n)
    && 0 <= Qk < n && Cong(Qk, Pow(Q, k), n)
  }

  lemma DoubleResidues(U: int, V: int, Qk: int, k: nat, Q: int, n: int)
    requires n > 0 && AtIndex(U, V, Qk, k, Q, n)
    ensures AtIndex(U * V % n, (V * V - 2 * Qk) % n, Qk * Qk % n, 2 * k, Q, n)
  {
    var u, v, q := LucasU(k, Q), LucasV(k, Q), Pow(Q, k);
    DoubleIndex(k, Q);
    PowAdd(Q, k, k);
    assert 2 * k == k + k;
    CongMul(U, u, V, v, n);
    CongMul(V, v, V, v, n);
    CongScale(2, Qk, q, n);
    CongAdd(V * V, v * v, 2 * Qk, 2 * q, n);
    CongMul(Qk, q, Qk, q, n);
    ModCong(U * V, n);
    ModCong(V * V - 2 * Qk, n);
    ModCong(Qk * Qk, n);
  }

  /** The parity-corrected halving of the loop: division by two modulo an odd n. */
  function Half(x: int, n: int): int
    requires n > 0
  {
    (if x % 2 == 1 then x + n else x) / 2 % n
  }

  lemma HalfIsDivision(x: int, y: int, n: int)
    requires OddModulus(n) && Cong(x, 2 * y, n)
    ensures 0 <= Half(x, n) < n && Cong(Half(x, n), y, n)
  {
    var z := if x % 2 == 1 then x + n else x;
    CongStep(x, 1, n);
    assert z == 2 * (z / 2);
    assert Times(2, (n + 1) / 2) + Times(n, -1) == 1;
    CoprimeCancel(2, z / 2, y, n);
    ModCong(z / 2, n);
  }

  lemma NextResidues(U: int, V: int, Qk: int, k: nat, D: int, Q: int, n: int)
    requires OddModulus(n) && D == 1 - 4 * Q && AtIndex(U, V, Qk, k, Q, n)
    ensures AtIndex(Half(U + V, n), Half(D * U + V, n), Qk * Q % n, k + 1, Q, n)
  {
    var u, v, q := LucasU(k, Q), LucasV(k, Q), Pow(Q, k);
    NextTerm(k, Q);
    CongAdd(U, u, V, v, n);
    HalfIsDivision(U + V, LucasU(k + 1, Q), n);
    CongScale(D, U, u, n);
    CongAdd(D * U, D * u, V, v, n);
    HalfIsDivision(D * U + V, LucasV(k + 1, Q), n);
    CongMul(Qk, q, Q, Q, n);
    assert q * Q == Pow(Q, k + 1);
    ModCong(Qk * Q, n);
  }

  /** The binary digits of d, the leading one first. */
  function Bits(d: nat): (b: seq<int>)
    requires d > 0
    ensures |b| >= 1 && b[0] == 1 && forall i :: 0 <= i < |b| ==> b[i] in {0, 1}
  {
    if d == 1 then [1] else Bits(d / 2) + [d % 2]
  }

  function BitsValue(b: seq<int>): int {
    if b == [] then 0 else 2 * BitsValue(b[..|b| - 1]) + b[|b| - 1]
  }

  lemma {:induction false} BitsOf(d: nat)
    requires d > 0
    ensures BitsValue(Bits(d)) == d
  {
    if d == 1 {
      assert BitsValue([1][..0]) == 0;
    } else {
      BitsOf(d / 2);
      var b := Bits(d / 2);
      assert (b + [d % 2])[..|b|] == b;
    }
  }

  method Ladder(d: nat, D: int, Q: int, n: int) returns (U: int, V: int, Qk: int)
    requires d > 0 && OddModulus(n) && n > 1 && D == 1 - 4 * Q
    ensures AtIndex(U, V, Qk, d, Q, n)
  {
    var bits := Bits(d);
    U, V, Qk := 1, 1, Q % n;
    ghost var k := 1;
    SmallMod(1, n);
    ModCong(Q, n);
    PowTwo(Q);
    assert BitsValue(bits[..1]) == 1 by { assert BitsValue(bits[..1][..0]) == 0; }
    for i := 1 to |bits|
      invariant k >= 1 && k == BitsValue(bits[..i]) && AtIndex(U, V, Qk, k, Q, n)
    {
      assert bits[..i + 1][..i] == bits[..i];
      DoubleResidues(U, V, Qk, k, Q, n);
      U, V, Qk := U * V % n, (V * V - 2 * Qk) % n, Qk * Qk % n;
      k := 2 * k;
      if bits[i] == 1 {
        NextResidues(U, V, Qk, k, D, Q, n);
        U, V := Half(U + V, n), Half(D * U + V, n);
        Qk := Qk * Q % n;
        k := k + 1;
      }
    }
    assert bits[..|bits|] == bits;
    BitsOf(d);
  }

  // ---- Selfridge's parameters

  /** 5, -7, 9, -11, ... */
  function Candidate(i: nat): int { if i % 2 == 0 then 5 + 2 * i else -(5 + 2 * i) }

  /** The first candidate whose symbol is not 1. */
  ghost predicate IsSelfridge(D: int, i: nat, n: int)
    requires OddModulus(n)
  {
    D == Candidate(i) && Symbol(D, n) != 1 && AllOnesBefore(i, n)
  }

  lemma ModulusEndsSearch(D: int, n: int)
    requires OddModulus(n) && n > 1 && (D == n || D == -n)
    ensures Symbol(D, n) == 0
  {
    DivModUnique(D, n, if D == n then 1 else -1, 0);
    NotCoprimeMultiple(D, n);
  }

  lemma NextCandidate(i: nat)
    ensures var D := Candidate(i); Candidate(i + 1) == if D > 0 then -D - 2 else -D + 2
  {
  }

  lemma SymbolFiveThree()
    ensures Symbol(5, 3) == -1
  {
    assert 5 % 3 == 2 % 3;
    SymbolPeriodic(5, 2, 3);
    SymbolOfTwo(3);
  }

  ghost predicate AllOnesBefore(i: nat, n: int)
    requires OddModulus(n)
  {
    forall k :: 0 <= k < i ==> Symbol(Candidate(k), n) == 1
  }

  /** A candidate that fails is followed by one that is still at most the modulus. */
  lemma SearchGoesOn(n: int, i: nat)
    requires OddModulus(n) && n >= 5 && 5 + 2 * i <= n && AllOnesBefore(i, n) && Symbol(Candidate(i), n) == 1
    ensures 5 + 2 * (i + 1) <= n && AllOnesBefore(i + 1, n)
  {
    if 5 + 2 * i == n { ModulusEndsSearch(Candidate(i), n); }
  }

  /** The search ends at the latest where the candidate is n or -n. */
  method SelfridgeD(n: int) returns (D: int, j: int, ghost i: nat)
    requires OddModulus(n) && n > 1
    ensures IsSelfridge(D, i, n) && j == Symbol(D, n)
    ensures n >= 5 ==> 5 + 2 * i <= n
  {
    D, i := 5, 0;
    j := JacobiLoop(D, n);
    if n == 3 { SymbolFiveThree(); }
    while j == 1
      invariant D == Candidate(i) && j == Symbol(D, n)
      invariant n == 3 ==> j != 1
      invariant n >= 5 ==> 5 + 2 * i <= n
      invariant AllOnesBefore(i, n)
      decreases n - 2 * i
    {
      SearchGoesOn(n, i);
      NextCandidate(i);
      D := if D > 0 then -D - 2 else -D + 2;
      i := i + 1;
      j := JacobiLoop(D, n);
    }
  }

  predicate IsSquare(n: nat) { exists r | 0 <= r <= n :: r * r == n }

  /** The definition of a strong Lucas probable prime: n + 1 = d*2^s with d odd. */
  ghost predicate StrongLucas(n: int, d: nat, s: nat, Q: int)
    requires n > 0
  {
    || LucasU(d, Q) % n == 0
    || exists r: nat :: r < s && LucasV(d * Pow2(r), Q) % n == 0
  }

  function SelfridgeQ(i: nat): int { (1 - Candidate(i)) / 4 }

  /** D = 1 modulo 4 for every candidate, so Q = (1 - D)/4 is exact. */
  lemma CandidateModFour(i: nat)
    ensures Candidate(i) == 1 - 4 * SelfridgeQ(i)
  {
    var h := i / 2;
    if i % 2 == 0 {
      assert Candidate(i) == 4 * (h + 1) + 1;
    } else {
      assert Candidate(i) == 4 * (-h - 2) + 1;
    }
  }

  ghost predicate ResiduesAt(V: int, Qk: int, k: nat, Q: int, n: int)
    requires n > 0
  {
    0 <= V < n && Cong(V, LucasV(k, Q), n) && 0 <= Qk < n && Cong(Qk, Pow(Q, k), n)
  }

  lemma ResidueStep(V: int, Qk: int, k: nat, Q: int, n: int)
    requires n > 0 && ResiduesAt(V, Qk, k, Q, n)
    ensures ResiduesAt((V * V - 2 * Qk) % n, Qk * Qk % n, 2 * k, Q, n)
  {
    var u := LucasU(k, Q) % n;
    ModCong(LucasU(k, Q), n);
    DoubleResidues(u, V, Qk, k, Q, n);
  }

  /** No V(d*2^r) is zero for r <= step. */
  ghost predicate NoZeroUpTo(n: int, d: nat, step: nat, Q: int)
    requires n > 0
  {
    forall r: nat :: r <= step ==> LucasV(d * Pow2(r), Q) % n != 0
  }

  lemma IndexDoubles(d: nat, r: nat)
    ensures 2 * (d * Pow2(r)) == d * Pow2(r + 1) && d * Pow2(0) == d
  {
    assert 2 * (d * Pow2(r)) == d * (2 * Pow2(r));
  }

  /** The ladder up to d and the doublings after it decide the definition. */
  method LucasTest(n: int, d: nat, s: nat, D: int, Q: int) returns (r: bool)
    requires OddModulus(n) && n > 1 && d > 0 && s >= 1 && D == 1 - 4 * Q
    ensures r <==> StrongLucas(n, d, s, Q)
  {
    var U, V, Qk := Ladder(d, D, Q, n);
    SmallMod(U, n);
    SmallMod(V, n);
    IndexDoubles(d, 0);
    if U == 0 || V == 0 { return true; }
    var step := 0;
    while step < s - 1
      invariant 0 <= step <= s - 1
      invariant ResiduesAt(V, Qk, d * Pow2(step), Q, n)
      invariant NoZeroUpTo(n, d, step, Q)
    {
      ResidueStep(V, Qk, d * Pow2(step), Q, n);
      IndexDoubles(d, step);
      V := (V * V - 2 * Qk) % n;
      Qk := Qk * Qk % n;
      step := step + 1;
      SmallMod(V, n);
      if V == 0 { return true; }
    }
    return false;
  }

  /** A square is refused; otherwise the answer is the definition's, at Selfridge's D. */
  method IsStrongLucasProbablePrime(n: int) returns (r: bool, ghost i: nat, ghost d: nat, ghost s: nat)
    requires OddModulus(n) && n > 2
    ensures IsSquare(n) ==> !r
    ensures !IsSquare(n) ==> IsSelfridge(Candidate(i), i, n) && d % 2 == 1 && n + 1 == d * Pow2(s)
    ensures !IsSquare(n) ==> (r <==> Symbol(Candidate(i), n) == -1 && StrongLucas(n, d, s, SelfridgeQ(i)))
  {
    i, d, s := 0, 0, 0;
    var square := IsSquare(n);
    if square { return false, i, d, s; }
    var D, j;
    D, j, i := SelfridgeD(n);
    var odd, t := SplitTwos(n + 2);
    d, s := odd, t;
    NotOne(D, n);
    if j == 0 { return false, i, d, s; }
    CandidateModFour(i);
    r := LucasTest(n, odd, t, D, (1 - D) / 4);
  }

  lemma NotOne(D: int, n: int)
    requires OddModulus(n) && Symbol(D, n) != 1
    ensures Symbol(D, n) == 0 || Symbol(D, n) == -1
  {
    SymbolRange(D, n);
  }

  /** The search can reach n itself: 11 is prime, and its first candidate without symbol 1 is -11. */
  lemma ElevenEndsAtEleven()
    ensures IsSelfridge(-11, 3, 11) && Symbol(-11, 11) == 0 && IsPrime(11)
  {
    ModulusEndsSearch(-11, 11);
    forall k | 0 <= k < 3 ensures Symbol(Candidate(k), 11) == 1 {
      assert k in {0, 1, 2};
      SquareModEleven(Candidate(k), if k == 0 then 4 else if k == 1 then 2 else 3);
    }
    assert Candidate(3) == -11;
  }

  lemma SquareModEleven(a: int, x: int)
    requires 1 <= x < 11 && (a - x * x) % 11 == 0
    ensures Symbol(a, 11) == 1
  {
    assert IsPrime(11);
    CongIffDifference(x * x, a, 11);
    CongIffDifference(a, x * x, 11);
    SymbolPeriodic(a, x * x, 11);
    SymbolMultiplicative(x, x, 11);
    SmallMod(x, 11);
    PrimeCoprime(x, 11);
    SymbolRange(x, 11);
  }
}
