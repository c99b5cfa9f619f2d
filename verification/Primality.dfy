/** The primality test of number_theory.py on primes: which primes its parts refuse, and that the whole refuses none. */
module Primality {
  import opened Modular
  import opened GaussSymbol
  import opened Residues
  import opened NumberTheory
  import opened Lucas

  // ---- where Selfridge's search ends

  lemma SmallCong(a: int, b: int, n: int)
    requires n >= 3 && -1 <= a <= 1 && -1 <= b <= 1 && Cong(a, b, n)
    ensures a == b
  {
    CongIffDifference(a, b, n);
    if a > b { SmallMod(a - b, n); }
    if b > a { DivModUnique(a - b, n, -1, n + a - b); }
  }

  lemma {:induction false} PowerOfMinusOne(k: nat)
    ensures Pow(-1, k) == if k % 2 == 0 then 1 else -1
  {
    if k > 0 { PowerOfMinusOne(k - 1); }
  }

  lemma HalfParity(n: int)
    requires n % 2 == 1
    ensures ((n - 1) / 2) % 2 == if n % 4 == 1 then 0 else 1
  {
    var h, r := n / 4, n % 4;
    assert n == 4 * h + r && 0 <= r < 4;
    if r == 1 {
      DivModUnique(n - 1, 2, 2 * h, 0);
      DivModUnique(2 * h, 2, h, 0);
    } else if r == 3 {
      DivModUnique(n - 1, 2, 2 * h + 1, 0);
      DivModUnique(2 * h + 1, 2, h, 1);
    } else {
      DivModUnique(n, 2, 2 * h + r / 2, 0);
    }
  }

  /** The first supplementary law, for a prime. */
  lemma SymbolOfMinusOne(n: int)
    requires IsPrime(n) && n % 2 == 1
    ensures Symbol(-1, n) == if n % 4 == 1 then 1 else -1
  {
    HalfParity(n);
    EulerCriterion(-1, n);
    PowerOfMinusOne((n - 1) / 2);
    SymbolRange(-1, n);
    SmallCong(Pow(-1, (n - 1) / 2), Symbol(-1, n), n);
  }

  lemma SymbolOfOpposite(a: int, n: int)
    requires IsPrime(n) && n % 2 == 1
    ensures Symbol(-a, n) == if n % 4 == 1 then Symbol(a, n) else -Symbol(a, n)
  {
    SymbolMultiplicative(-1, a, n);
    SymbolOfMinusOne(n);
  }

  /** n - k counts as -k. */
  lemma SymbolOfComplement(k: int, n: int)
    requires OddModulus(n)
    ensures Symbol(n - k, n) == Symbol(-k, n)
  {
    CongStep(-k, 1, n);
    SymbolPeriodic(n - k, -k, n);
  }

  /** k or -k, whichever is 1 modulo 4, is a candidate. */
  lemma OddCandidate(n: int, i: nat, k: int)
    requires OddModulus(n) && AllOnesBefore(i, n) && k % 2 == 1 && 5 <= k < 5 + 2 * i
    ensures Symbol(if k % 4 == 1 then k else -k, n) == 1
  {
    var j := (k - 5) / 2;
    assert k == 5 + 2 * j;
    CandidateOf(j, k);
    BeforeIsOne(n, i, j);
  }

  lemma CandidateOf(j: nat, k: int)
    requires k == 5 + 2 * j
    ensures Candidate(j) == if k % 4 == 1 then k else -k
  {
    var h := j / 2;
    if j % 2 == 0 { assert k == 4 * (h + 1) + 1; } else { assert k == 4 * (h + 1) + 3; }
  }

  /** For a prime that is 3 modulo 4, n - 2 and n - 8 ask opposite symbols of 2. */
  lemma ThreeModFourStops(n: int)
    requires IsPrime(n) && n % 4 == 3 && n >= 7 && n != 11
    ensures !AllOnesBefore((n - 5) / 2, n)
  {
    if AllOnesBefore((n - 5) / 2, n) {
      TwoIsNoResidue(n);
      if n == 7 { SymbolOfTwo(7); } else { EightIsResidue(n); }
    }
  }

  /** n - 2 is a candidate. */
  lemma TwoIsNoResidue(n: int)
    requires IsPrime(n) && n % 4 == 3 && n >= 7 && AllOnesBefore((n - 5) / 2, n)
    ensures Symbol(2, n) == -1
  {
    TwoBelow(n);
    OddCandidate(n, (n - 5) / 2, n - 2);
    SymbolOfComplement(2, n);
    SymbolOfOpposite(2, n);
  }

  lemma TwoBelow(n: int)
    requires n % 4 == 3 && n >= 7
    ensures (n - 2) % 4 == 1 && (n - 2) % 2 == 1 && n % 2 == 1 && n - 2 < 5 + 2 * ((n - 5) / 2)
  {
    var h := n / 4;
    assert n == 4 * h + 3;
    DivModUnique(n - 2, 4, h, 1);
    DivModUnique(n - 2, 2, 2 * h, 1);
    DivModUnique(n, 2, 2 * h + 1, 1);
    DivModUnique(n - 5, 2, 2 * h - 1, 0);
  }

  /** 8 - n is a candidate. */
  lemma EightIsResidue(n: int)
    requires IsPrime(n) && n % 4 == 3 && n >= 13 && AllOnesBefore((n - 5) / 2, n)
    ensures Symbol(2, n) == 1
  {
    EightBelow(n);
    OddCandidate(n, (n - 5) / 2, n - 8);
    CongStep(8, -1, n);
    SymbolPeriodic(8 - n, 8, n);
    SymbolOfEight(n);
  }

  lemma EightBelow(n: int)
    requires n % 4 == 3 && n >= 13
    ensures (n - 8) % 4 == 3 && (n - 8) % 2 == 1 && 5 <= n - 8 < 5 + 2 * ((n - 5) / 2)
  {
    var h := n / 4;
    assert n == 4 * h + 3;
    DivModUnique(n - 8, 4, h - 2, 3);
    DivModUnique(n - 8, 2, 2 * h - 3, 1);
    DivModUnique(n - 5, 2, 2 * h - 1, 0);
  }

  lemma SymbolOfEight(n: int)
    requires OddModulus(n)
    ensures Symbol(8, n) == Symbol(2, n)
  {
    SymbolRange(2, n);
    SymbolMultiplicative(2, 2, n);
    SymbolMultiplicative(2, 4, n);
  }

  /** For a prime that is 1 modulo 4, candidates that all answer 1 leave no non-residue. */
  lemma OneModFourStops(n: int)
    requires IsPrime(n) && n % 4 == 1 && n >= 13
    ensures !AllOnesBefore((n - 5) / 2, n)
  {
    if AllOnesBefore((n - 5) / 2, n) {
      ThreeIsResidue(n);
      forall z | 2 <= z < n ensures Symbol(z, n) == 1 {
        if z % 2 == 1 { OddResidueOf(n, z); } else { EvenResidueOf(n, z); }
      }
      NonResidueExists(n);
    }
  }

  lemma FarOdd(n: int, k: int)
    requires IsPrime(n) && n % 4 == 1 && n >= 13 && AllOnesBefore((n - 5) / 2, n) && k % 2 == 1 && 5 <= k < n
    ensures Symbol(k, n) == 1 && Symbol(n - k, n) == 1
  {
    OddCandidate(n, (n - 5) / 2, k);
    SymbolOfOpposite(k, n);
    SymbolOfComplement(k, n);
  }

  lemma ThreeIsResidue(n: int)
    requires IsPrime(n) && n % 4 == 1 && n >= 13 && AllOnesBefore((n - 5) / 2, n)
    ensures Symbol(3, n) == 1 && Symbol(n - 3, n) == 1
  {
    var m := (n - 3) / 2;
    HalfBelow(n, m);
    FarOdd(n, m);
    FarOdd(n, n - 2);
    DoubleSymbol(m, n);
    SymbolOfComplement(3, n);
    SymbolOfOpposite(3, n);
  }

  lemma HalfBelow(n: int, m: int)
    requires n % 4 == 1 && n >= 13 && m == (n - 3) / 2
    ensures n - 3 == 2 * m && m % 2 == 1 && 5 <= m < n && (n - 2) % 2 == 1
  {
    var h := n / 4;
    assert n == 4 * h + 1;
    DivModUnique(n - 3, 2, 2 * h - 1, 0);
    DivModUnique(2 * h - 1, 2, h - 1, 1);
    DivModUnique(n - 2, 2, 2 * h - 1, 1);
  }

  lemma DoubleSymbol(m: int, n: int)
    requires OddModulus(n) && Symbol(m, n) == 1 && Symbol(2, n) == 1
    ensures Symbol(2 * m, n) == 1
  {
    SymbolMultiplicative(2, m, n);
  }

  lemma OddResidueOf(n: int, z: int)
    requires IsPrime(n) && n % 4 == 1 && n >= 13 && AllOnesBefore((n - 5) / 2, n) && z % 2 == 1 && 2 <= z < n
    ensures Symbol(z, n) == 1
  {
    if z == 3 { ThreeIsResidue(n); } else { FarOdd(n, z); }
  }

  lemma EvenResidueOf(n: int, z: int)
    requires IsPrime(n) && n % 4 == 1 && n >= 13 && AllOnesBefore((n - 5) / 2, n) && z % 2 == 0 && 2 <= z < n
    ensures Symbol(z, n) == 1
  {
    OddLessEven(n, z);
    if z == n - 1 {
      SymbolOfComplement(1, n);
      SymbolOfMinusOne(n);
    } else if z == n - 3 {
      ThreeIsResidue(n);
    } else {
      FarOdd(n, n - z);
    }
  }

  lemma OddLessEven(n: int, z: int)
    requires n % 2 == 1 && z % 2 == 0
    ensures (n - z) % 2 == 1
  {
    var a, b := n / 2, z / 2;
    assert n == 2 * a + 1 && z == 2 * b;
    DivModUnique(n - z, 2, a - b, 1);
  }

  lemma BeforeIsOne(n: int, i: nat, k: nat)
    requires OddModulus(n) && AllOnesBefore(i, n)
    ensures k < i ==> Symbol(Candidate(k), n) == 1
  {
  }

  /** A candidate of symbol 0 is the prime itself, or its opposite. */
  lemma ZeroIsModulus(n: int, i: nat)
    requires IsPrime(n) && n >= 5 && n % 2 == 1 && IsSelfridge(Candidate(i), i, n) && Symbol(Candidate(i), n) == 0
    ensures 5 + 2 * i == n
  {
    SymbolRange(Candidate(i), n);
    if Candidate(i) % n != 0 { PrimeCoprime(Candidate(i), n); }
    var k := (n - 5) / 2;
    BeforeIsOne(n, i, k);
    ModulusEndsSearch(Candidate(k), n);
    if 5 + 2 * i < n { NotMultiple(Candidate(i), n); }
  }

  lemma NotMultiple(a: int, n: int)
    requires -n < a < n && a != 0
    ensures a % n != 0
  {
    if a > 0 { SmallMod(a, n); } else { DivModUnique(a, n, -1, n + a); }
  }

  lemma SelfridgeOnce(n: int, i: nat, k: nat)
    requires OddModulus(n) && IsSelfridge(Candidate(i), i, n) && IsSelfridge(Candidate(k), k, n)
    ensures i == k
  {
    BeforeIsOne(n, i, k);
    BeforeIsOne(n, k, i);
  }

  lemma FiveEndsAtFive()
    ensures IsSelfridge(5, 0, 5) && Symbol(5, 5) == 0 && IsPrime(5)
  {
    ModulusEndsSearch(5, 5);
  }

  /** Two primes the strong Lucas test answers False for, its search ending at the modulus itself. */
  lemma FiveIsRefused(i: nat)
    requires IsSelfridge(Candidate(i), i, 5)
    ensures IsPrime(5) && Candidate(i) == 5 && Symbol(Candidate(i), 5) == 0
  {
    FiveEndsAtFive();
    SelfridgeOnce(5, i, 0);
  }

  lemma ElevenIsRefused(i: nat)
    requires IsSelfridge(Candidate(i), i, 11)
    ensures IsPrime(11) && Candidate(i) == -11 && Symbol(Candidate(i), 11) == 0
  {
    ElevenEndsAtEleven();
    SelfridgeOnce(11, i, 3);
  }

  /** The search over a prime ends at a multiple of it exactly for 5 and 11. */
  lemma SearchEndsAtModulus(n: int, i: nat)
    requires IsPrime(n) && n > 2 && IsSelfridge(Candidate(i), i, n)
    ensures Symbol(Candidate(i), n) == 0 <==> n == 5 || n == 11
  {
    OddPrime(n);
    if n == 5 {
      FiveIsRefused(i);
    } else if n == 11 {
      ElevenIsRefused(i);
    } else if n == 3 {
      SymbolFiveThree();
      SelfridgeOnce(3, i, 0);
    } else if Symbol(Candidate(i), n) == 0 {
      ZeroIsModulus(n, i);
      LargeStops(n);
    }
  }

  /** The candidates below any other prime do not all answer 1. */
  lemma LargeStops(n: int)
    requires IsPrime(n) && n % 2 == 1 && n > 5 && n != 11
    ensures !AllOnesBefore((n - 5) / 2, n)
  {
    var h, r := n / 4, n % 4;
    assert n == 4 * h + r && 0 <= r < 4;
    if r == 1 {
      NotNine(n);
      OneModFourStops(n);
    } else {
      DivModUnique(n, 2, 2 * h + r / 2, r % 2);
      ThreeModFourStops(n);
    }
  }

  lemma OddPrime(n: int)
    requires IsPrime(n) && n > 2
    ensures n % 2 == 1
  {
  }

  lemma NotNine(n: int)
    requires IsPrime(n) && n > 3
    ensures n != 9
  {
    var r := n % 3;
    assert r != 0;
  }

  // ---- binomial coefficients

  function Choose(k: nat, j: nat): nat {
    if j == 0 then 1 else if k == 0 then 0 else Choose(k - 1, j - 1) + Choose(k - 1, j)
  }

  lemma {:induction false} ChooseBeyond(k: nat, j: nat)
    requires j > k
    ensures Choose(k, j) == 0
  {
    if k > 0 {
      ChooseBeyond(k - 1, j - 1);
      ChooseBeyond(k - 1, j);
    }
  }

  lemma {:induction false} ChooseAll(k: nat)
    ensures Choose(k, k) == 1
  {
    if k > 0 {
      ChooseAll(k - 1);
      ChooseBeyond(k - 1, k);
    }
  }

  /** j*C(k, j) = k*C(k-1, j-1). */
  lemma {:induction false} Absorption(k: nat, j: nat)
    requires k > 0 && j > 0
    ensures j * Choose(k, j) == k * Choose(k - 1, j - 1)
  {
    if k == 1 {
      ChooseBeyond(0, j);
      if j > 1 { ChooseBeyond(0, j - 1); }
    } else {
      Absorption(k - 1, j);
      if j > 1 { Absorption(k - 1, j - 1); }
      AbsorptionStep(k, j, Choose(k - 1, j - 1), Choose(k - 1, j), if j > 1 then Choose(k - 2, j - 2) else 0, Choose(k - 2, j - 1));
    }
  }

  lemma AbsorptionStep(k: int, j: int, a: int, b: int, c: int, d: int)
    requires j * b == (k - 1) * d && (j - 1) * a == (k - 1) * c && a == c + d
    ensures j * (a + b) == k * a
  {
    assert j * (a + b) == (j - 1) * a + a + j * b;
    assert (k - 1) * c + (k - 1) * d == (k - 1) * (c + d);
  }

  /** A prime divides every coefficient of its row but the outer two. */
  lemma PrimeRow(n: int, j: int)
    requires IsPrime(n) && 0 < j < n
    ensures Cong(Choose(n, j), 0, n)
  {
    Absorption(n, j);
    SmallMod(j, n);
    CongStep(0, Choose(n - 1, j - 1), n);
    assert j * 0 == 0;
    assert Choose(n - 1, j - 1) * n == n * Choose(n - 1, j - 1);
    CancelFactor(j, Choose(n, j), 0, n);
  }

  // ---- (1 + sqrt(D))^k = A_k + B_k*sqrt(D)

  function PowerA(k: nat, D: int): int {
    if k == 0 then 1 else PowerA(k - 1, D) + D * PowerB(k - 1, D)
  }

  function PowerB(k: nat, D: int): int {
    if k == 0 then 0 else PowerA(k - 1, D) + PowerB(k - 1, D)
  }

  /** They are the Lucas sequences, scaled: the roots of x^2 - x + Q are (1 +- sqrt(D))/2. */
  lemma {:induction false} LucasOfPowers(k: nat, Q: int)
    ensures Pow2(k) * LucasU(k, Q) == 2 * PowerB(k, 1 - 4 * Q)
    ensures Pow2(k) * LucasV(k, Q) == 2 * PowerA(k, 1 - 4 * Q)
  {
    if k > 0 {
      LucasOfPowers(k - 1, Q);
      NextTerm(k - 1, Q);
      ScaledStep(1 - 4 * Q, Pow2(k - 1), LucasU(k - 1, Q), LucasV(k - 1, Q), LucasU(k, Q), LucasV(k, Q), PowerA(k - 1, 1 - 4 * Q), PowerB(k - 1, 1 - 4 * Q));
    }
  }

  lemma ScaledStep(D: int, p: int, u: int, v: int, u1: int, v1: int, a: int, b: int)
    requires p * u == 2 * b && p * v == 2 * a && 2 * u1 == u + v && 2 * v1 == D * u + v
    ensures (2 * p) * u1 == 2 * (a + b) && (2 * p) * v1 == 2 * (a + D * b)
  {
    assert (2 * p) * u1 == p * (2 * u1) && p * (u + v) == p * u + p * v;
    assert (2 * p) * v1 == p * (2 * v1) && p * (D * u + v) == D * (p * u) + p * v;
  }

  /** The terms of even index below m in the expansion of the power, and those of odd index, without their root. */
  function EvenTerms(k: nat, D: int, m: nat): int {
    if m == 0 then 0 else EvenTerms(k, D, m - 1) + (if m % 2 == 1 then Choose(k, m - 1) * Pow(D, (m - 1) / 2) else 0)
  }

  function OddTerms(k: nat, D: int, m: nat): int {
    if m == 0 then 0 else OddTerms(k, D, m - 1) + (if m % 2 == 0 then Choose(k, m - 1) * Pow(D, (m - 2) / 2) else 0)
  }

  /** Pascal's rule for the two sums. */
  lemma {:induction false} NextRow(k: nat, D: int, m: nat)
    ensures EvenTerms(k + 1, D, m + 1) == EvenTerms(k, D, m + 1) + D * OddTerms(k, D, m)
    ensures OddTerms(k + 1, D, m + 1) == OddTerms(k, D, m + 1) + EvenTerms(k, D, m)
  {
    if m == 0 {
      assert Choose(k + 1, 0) == Choose(k, 0) == 1;
      assert D * 0 == 0;
      assert EvenTerms(k + 1, D, 0) == 0 && EvenTerms(k, D, 0) == 0;
      assert OddTerms(k + 1, D, 0) == 0 && OddTerms(k, D, 0) == 0;
    } else {
      NextRow(k, D, m - 1);
      assert Choose(k + 1, m) == Choose(k, m - 1) + Choose(k, m);
      if m % 2 == 0 {
        EvenStep(D, Choose(k, m - 1), Choose(k, m), m, OddTerms(k, D, m - 1));
      } else {
        OddStep(Choose(k, m - 1), Choose(k, m), Pow(D, (m - 1) / 2));
      }
    }
  }

  lemma EvenStep(D: int, a: int, b: int, m: nat, rest: int)
    requires m > 0 && m % 2 == 0
    ensures (a + b) * Pow(D, m / 2) == b * Pow(D, m / 2) + D * (a * Pow(D, (m - 2) / 2))
    ensures D * (rest + a * Pow(D, (m - 2) / 2)) == D * rest + D * (a * Pow(D, (m - 2) / 2))
  {
    var p := Pow(D, (m - 2) / 2);
    assert Pow(D, m / 2) == D * p;
    assert (a + b) * (D * p) == b * (D * p) + a * (D * p);
    assert a * (D * p) == D * (a * p);
  }

  lemma OddStep(a: int, b: int, p: int)
    ensures (a + b) * p == b * p + a * p
  {
  }

  lemma {:induction false} PowerTerms(k: nat, D: int)
    ensures PowerA(k, D) == EvenTerms(k, D, k + 1) && PowerB(k, D) == OddTerms(k, D, k + 1)
  {
    if k == 0 {
      assert EvenTerms(0, D, 0) == 0 && OddTerms(0, D, 0) == 0;
      assert Choose(0, 0) * Pow(D, 0) == 1;
    } else {
      PowerTerms(k - 1, D);
      NextRow(k - 1, D, k);
      ChooseBeyond(k - 1, k);
      NoTerm(k - 1, D, k);
    }
  }

  lemma NoTerm(k: nat, D: int, m: nat)
    requires Choose(k, m) == 0
    ensures EvenTerms(k, D, m + 1) == EvenTerms(k, D, m) && OddTerms(k, D, m + 1) == OddTerms(k, D, m)
  {
    assert forall p :: 0 * p == 0;
  }

  /** Modulo a prime the inner terms of its row vanish. */
  lemma {:induction false} PrimeTerms(n: int, D: int, m: nat)
    requires IsPrime(n) && 1 <= m <= n
    ensures Cong(EvenTerms(n, D, m), 1, n) && Cong(OddTerms(n, D, m), 0, n)
  {
    if m == 1 {
      assert EvenTerms(n, D, 0) == 0 && OddTerms(n, D, 0) == 0;
      assert Choose(n, 0) * Pow(D, 0) == 1;
    } else {
      PrimeTerms(n, D, m - 1);
      PrimeRow(n, m - 1);
      var p := Pow(D, if m % 2 == 1 then (m - 1) / 2 else (m - 2) / 2);
      CongMul(Choose(n, m - 1), 0, p, p, n);
      assert 0 * p == 0;
      CongAdd(EvenTerms(n, D, m - 1), 1, Choose(n, m - 1) * p, 0, n);
      CongAdd(OddTerms(n, D, m - 1), 0, Choose(n, m - 1) * p, 0, n);
    }
  }

  /** Frobenius: the n-th power of 1 + sqrt(D) is 1 + (D/n)*sqrt(D) modulo the prime n. */
  lemma PrimePower(n: int, D: int)
    requires IsPrime(n) && n % 2 == 1
    ensures Cong(PowerA(n, D), 1, n) && Cong(PowerB(n, D), Symbol(D, n), n)
  {
    PowerTerms(n, D);
    PrimeTerms(n, D, n);
    ChooseAll(n);
    EulerCriterion(D, n);
    DivModUnique(n + 1, 2, (n + 1) / 2, 0);
    CongAdd(OddTerms(n, D, n), 0, Pow(D, (n - 1) / 2), Symbol(D, n), n);
  }

  lemma {:induction false} TwosNotZero(n: int, k: nat)
    requires IsPrime(n) && n % 2 == 1
    ensures Pow2(k) % n != 0
  {
    if k == 0 {
      SmallMod(1, n);
    } else {
      TwosNotZero(n, k - 1);
      SmallMod(2, n);
      if Cong(2 * Pow2(k - 1), 2 * 0, n) { CancelFactor(2, Pow2(k - 1), 0, n); }
    }
  }

  /** A prime of which D is no residue divides U(n+1). */
  lemma PrimeDividesU(n: int, Q: int)
    requires IsPrime(n) && n % 2 == 1 && Symbol(1 - 4 * Q, n) == -1
    ensures LucasU(n + 1, Q) % n == 0
  {
    var D, u := 1 - 4 * Q, LucasU(n + 1, Q);
    PrimePower(n, D);
    CongAdd(PowerA(n, D), 1, PowerB(n, D), -1, n);
    LucasOfPowers(n + 1, Q);
    CongScale(2, PowerB(n + 1, D), 0, n);
    TwosNotZero(n, n + 1);
    assert Pow2(n + 1) * 0 == 0;
    CancelFactor(Pow2(n + 1), u, 0, n);
    SmallMod(0, n);
  }

  // ---- the strong tests of a prime

  /** U(2k) = U(k)*V(k), so a prime that divides U at the end divides what the test asks about. */
  lemma {:induction false} LucasDescends(n: int, d: nat, s: nat, Q: int)
    requires IsPrime(n) && LucasU(d * Pow2(s), Q) % n == 0
    ensures StrongLucas(n, d, s, Q)
  {
    IndexDoubles(d, 0);
    if s > 0 {
      IndexDoubles(d, s - 1);
      DoubleIndex(d * Pow2(s - 1), Q);
      PrimeDividesProduct(LucasU(d * Pow2(s - 1), Q), LucasV(d * Pow2(s - 1), Q), n);
      if LucasU(d * Pow2(s - 1), Q) % n == 0 { LucasDescends(n, d, s - 1, Q); }
    }
  }

  lemma PrimeIsNoSquare(n: int)
    requires IsPrime(n)
    ensures !IsSquare(n)
  {
    forall r | 0 <= r <= n ensures r * r != n {
      if r > 1 {
        ProductMonotone(2, r, r);
        DivModUnique(r * r, r, r, 0);
      } else {
        assert r == 0 || r == 1;
      }
    }
  }

  /** The strong Lucas test accepts every odd prime but 5 and 11. */
  lemma LucasOfPrime(n: int, i: nat, d: nat, s: nat)
    requires IsPrime(n) && n > 2 && IsSelfridge(Candidate(i), i, n) && n + 1 == d * Pow2(s)
    ensures Symbol(Candidate(i), n) == -1 && StrongLucas(n, d, s, SelfridgeQ(i)) <==> n != 5 && n != 11
  {
    OddPrime(n);
    SearchEndsAtModulus(n, i);
    NotOne(Candidate(i), n);
    if Symbol(Candidate(i), n) == -1 {
      CandidateModFour(i);
      PrimeDividesU(n, SelfridgeQ(i));
      LucasDescends(n, d, s, SelfridgeQ(i));
    }
  }

  /** A strong probable prime to base 2: n - 1 = d*2^s with d odd. */
  ghost predicate StrongBase2(n: int, d: nat, s: nat)
    requires n > 0
  {
    || Cong(Pow(2, d), 1, n)
    || exists r: nat :: r < s && Cong(Pow(2, d * Pow2(r)), -1, n)
  }

  /** No power up to step is -1. */
  ghost predicate NoMinusOneUpTo(n: int, d: nat, step: nat)
    requires n > 0
  {
    forall r: nat :: r <= step ==> !Cong(Pow(2, d * Pow2(r)), -1, n)
  }

  lemma IsMinusOne(x: int, y: int, n: int)
    requires n > 1 && 0 <= x < n && Cong(x, y, n)
    ensures x == n - 1 <==> Cong(y, -1, n)
    ensures x == 1 <==> Cong(y, 1, n)
  {
    SmallMod(x, n);
    SmallMod(1, n);
    DivModUnique(-1, n, -1, n - 1);
  }

  lemma SquaredPower(x: int, d: nat, r: nat, n: int)
    requires n > 0 && Cong(x, Pow(2, d * Pow2(r)), n)
    ensures Cong(x * x % n, Pow(2, d * Pow2(r + 1)), n) && 0 <= x * x % n < n
  {
    var e := d * Pow2(r);
    ModCong(x * x, n);
    CongMul(x, Pow(2, e), x, Pow(2, e), n);
    PowAdd(2, e, e);
    IndexDoubles(d, r);
  }

  method IsStrongProbablePrimeBase2(n: int) returns (r: bool, ghost d: nat, ghost s: nat)
    requires OddModulus(n) && n > 2
    ensures d % 2 == 1 && n - 1 == d * Pow2(s) && (r <==> StrongBase2(n, d, s))
    ensures IsPrime(n) ==> r
  {
    var odd, t := SplitTwos(n);
    d, s := odd, t;
    IndexDoubles(d, 0);
    if IsPrime(n) { Base2OfPrime(n, d, s); }
    var x := PowMod(2, odd, n);
    IsMinusOne(x, Pow(2, d), n);
    if x == 1 || x == n - 1 { return true, d, s; }
    var step := 0;
    while step < t - 1
      invariant 0 <= step <= t - 1 && 0 <= x < n && Cong(x, Pow(2, d * Pow2(step)), n)
      invariant NoMinusOneUpTo(n, d, step)
    {
      SquaredPower(x, d, step, n);
      x := x * x % n;
      step := step + 1;
      IsMinusOne(x, Pow(2, d * Pow2(step)), n);
      if x == n - 1 { return true, d, s; }
    }
    return false, d, s;
  }

  /** 1 has no square roots but 1 and -1 modulo a prime, so going down from Fermat's power meets -1 or ends at 1. */
  lemma {:induction false} PowersDescend(n: int, d: nat, s: nat)
    requires IsPrime(n) && Cong(Pow(2, d * Pow2(s)), 1, n)
    ensures StrongBase2(n, d, s)
  {
    IndexDoubles(d, 0);
    if s > 0 {
      var e := d * Pow2(s - 1);
      IndexDoubles(d, s - 1);
      PowAdd(2, e, e);
      RootsOfOne(Pow(2, e), n);
      if Cong(Pow(2, e), 1, n) { PowersDescend(n, d, s - 1); }
    }
  }

  /** Every odd prime is a strong probable prime to base 2. */
  lemma Base2OfPrime(n: int, d: nat, s: nat)
    requires IsPrime(n) && n > 2 && n - 1 == d * Pow2(s)
    ensures StrongBase2(n, d, s)
  {
    OddPrime(n);
    SmallMod(2, n);
    Fermat(2, n);
    PowersDescend(n, d, s);
  }

  /** What is divided out before the strong tests. */
  function SmallPrimes(): seq<int> { [3, 5, 7, 11, 13, 17, 19, 23, 29, 31, 37] }

  /** What reaches the strong tests. */
  predicate Sifted(x: int) {
    x >= 3 && x % 2 == 1 && forall k :: 0 <= k < |SmallPrimes()| ==> x % SmallPrimes()[k] != 0
  }

  lemma SmallMultiple(x: int, q: int)
    requires x >= 3 && q >= 3 && x % q == 0
    ensures IsPrime(x) ==> x == q
  {
    if x < q { SmallMod(x, q); }
  }

  /** No small prime divides another. */
  lemma SmallIsUnsifted(x: int)
    ensures x in SmallPrimes() ==> !Sifted(x)
  {
    if x in SmallPrimes() {
      var k :| 0 <= k < |SmallPrimes()| && SmallPrimes()[k] == x;
      DivModUnique(x, x, 1, 0);
    }
  }

  /** The Baillie-PSW test. It refuses no odd prime: those the Lucas test would refuse, 5 and 11, are answered by the
      division. What passes the division is answered by the two definitions. */
  method IsOddPrimeVar(x: int) returns (r: bool, ghost d: nat, ghost s: nat, ghost i: nat, ghost e: nat, ghost t: nat)
    ensures !Sifted(x) ==> (r <==> x in SmallPrimes())
    ensures Sifted(x) ==> d % 2 == 1 && x - 1 == d * Pow2(s) && (r ==> StrongBase2(x, d, s) && !IsSquare(x))
    ensures Sifted(x) && StrongBase2(x, d, s) && !IsSquare(x) ==>
      && IsSelfridge(Candidate(i), i, x) && e % 2 == 1 && x + 1 == e * Pow2(t)
      && (r <==> Symbol(Candidate(i), x) == -1 && StrongLucas(x, e, t, SelfridgeQ(i)))
    ensures IsPrime(x) && x > 2 ==> r
  {
    d, s, i, e, t := 0, 0, 0, 0, 0;
    SmallIsUnsifted(x);
    if x < 3 || x % 2 == 0 { return false, d, s, i, e, t; }
    var qs := SmallPrimes();
    for k := 0 to |qs|
      invariant forall l :: 0 <= l < k ==> x % qs[l] != 0
    {
      if x % qs[k] == 0 {
        SmallMultiple(x, qs[k]);
        FirstFactor(x, k);
        return x == qs[k], d, s, i, e, t;
      }
    }
    assert x % qs[1] != 0 && x % qs[3] != 0;
    r, d, s, i, e, t := StrongTests(x);
  }

  /** The first small prime that divides x is x, or x is no small prime. */
  lemma FirstFactor(x: int, k: nat)
    requires k < |SmallPrimes()| && x % SmallPrimes()[k] == 0
    requires forall l :: 0 <= l < k ==> x % SmallPrimes()[l] != 0
    ensures x in SmallPrimes() <==> x == SmallPrimes()[k]
  {
    var qs := SmallPrimes();
    if x in qs {
      var l :| 0 <= l < |qs| && qs[l] == x;
      DivModUnique(x, x, 1, 0);
      if k < l { SmallsApart(k, l); }
    }
  }

  lemma SmallsApart(k: nat, l: nat)
    requires k < l < |SmallPrimes()|
    ensures SmallPrimes()[l] % SmallPrimes()[k] != 0
  {
  }

  method StrongTests(x: int) returns (r: bool, ghost d: nat, ghost s: nat, ghost i: nat, ghost e: nat, ghost t: nat)
    requires OddModulus(x) && x > 2 && x != 5 && x != 11
    ensures d % 2 == 1 && x - 1 == d * Pow2(s) && (r ==> StrongBase2(x, d, s) && !IsSquare(x))
    ensures StrongBase2(x, d, s) && !IsSquare(x) ==>
      && IsSelfridge(Candidate(i), i, x) && e % 2 == 1 && x + 1 == e * Pow2(t)
      && (r <==> Symbol(Candidate(i), x) == -1 && StrongLucas(x, e, t, SelfridgeQ(i)))
    ensures IsPrime(x) ==> r
  {
    i, e, t := 0, 0, 0;
    r, d, s := IsStrongProbablePrimeBase2(x);
    if !r { return; }
    r, i, e, t := IsStrongLucasProbablePrime(x);
    if IsPrime(x) {
      PrimeIsNoSquare(x);
      LucasOfPrime(x, i, e, t);
    }
  }
}
