/** Quadratic residues modulo an odd prime, and what the symbol says of them. */
module Residues {
  import opened Modular
  import opened GaussSymbol
  import opened Polynomials

  ghost predicate HasRoot(a: int, p: int)
    requires p > 0
  {
    exists x :: Cong(Times(x, x), a, p)
  }

  lemma ResidueSymbol(a: int, p: int, x: int)
    requires IsPrime(p) && p % 2 == 1 && a % p != 0 && Cong(x * x, a, p)
    ensures Symbol(a, p) == 1
  {
    var h := (p - 1) / 2;
    if x % p == 0 {
      ModCong(x, p);
      CongMul(x, 0, x, 0, p);
    }
    PowMul(x, 2, h);
    PowTwo(x);
    assert 2 * h == p - 1;
    PowCong(x * x, a, h, p);
    Fermat(x, p);
    EulerCriterion(a, p);
    SymbolUnit(a, p);
  }

  /** Of the three values of the symbol, 1 alone is congruent to 1. */
  lemma SymbolUnit(a: int, p: int)
    requires IsPrime(p) && p % 2 == 1
    ensures Cong(Symbol(a, p), 1, p) ==> Symbol(a, p) == 1
    ensures Cong(Symbol(a, p), -1, p) ==> Symbol(a, p) == -1
  {
    SymbolRange(a, p);
    SmallMod(1, p);
    SmallMod(0, p);
    DivModUnique(-1, p, -1, p - 1);
  }

  function PowerMinusOne(h: nat): (c: seq<int>)
    ensures |c| == h + 2 && c[h + 1] == 1
  {
    [-1] + seq(h, _ => 0) + [1]
  }

  lemma {:induction false} EvalZeros(h: nat, x: int)
    ensures Eval(seq(h, _ => 0), x) == 0
  {
    if h != 0 {
      assert seq(h, _ => 0)[1..] == seq(h - 1, _ => 0);
      EvalZeros(h - 1, x);
    }
  }

  /** The polynomial X^(h+1) - 1. */
  lemma EvalPowerMinusOne(h: nat, x: int)
    ensures Eval(PowerMinusOne(h), x) == Pow(x, h + 1) - 1
  {
    EvalSnoc([-1] + seq(h, _ => 0), 1, x);
    assert ([-1] + seq(h, _ => 0))[1..] == seq(h, _ => 0);
    EvalZeros(h, x);
    assert Eval([-1] + seq(h, _ => 0), x) == -1 + x * Eval(seq(h, _ => 0), x);
  }

  /** At most (p-1)/2 incongruent numbers have symbol 1. */
  lemma FewResidues(xs: seq<int>, p: int)
    requires IsPrime(p) && p % 2 == 1 && Incongruent(xs, p)
    requires forall i :: 0 <= i < |xs| ==> Symbol(xs[i], p) == 1
    ensures |xs| <= (p - 1) / 2
  {
    var h := (p - 1) / 2;
    var c := PowerMinusOne(h - 1);
    forall i | 0 <= i < |xs| ensures Eval(c, xs[i]) % p == 0 {
      EvalPowerMinusOne(h - 1, xs[i]);
      EulerCriterion(xs[i], p);
      CongIffDifference(Pow(xs[i], h), 1, p);
    }
    SmallMod(1, p);
    RootBound(c, xs, p);
  }

  lemma SmallIncongruent(x: int, y: int, p: int)
    requires p > 0 && 0 <= x < p && 0 <= y < p && x != y
    ensures !Cong(x, y, p)
  {
    SmallMod(x, p);
    SmallMod(y, p);
  }

  lemma SquaresIncongruent(i: int, j: int, p: int)
    requires IsPrime(p) && 1 <= i < j <= (p - 1) / 2
    ensures !Cong(i * i, j * j, p)
  {
    if Cong(i * i, j * j, p) {
      CongIffDifference(j * j, i * i, p);
      assert j * j - i * i == (j - i) * (j + i);
      PrimeDividesProduct(j - i, j + i, p);
      SmallMod(j - i, p);
      SmallMod(j + i, p);
    }
  }

  lemma SquareSymbol(i: int, p: int)
    requires IsPrime(p) && p % 2 == 1 && 1 <= i < p
    ensures Symbol(i * i, p) == 1
  {
    SmallMod(i, p);
    if (i * i) % p == 0 { PrimeDividesProduct(i, i, p); }
    ResidueSymbol(i * i, p, i);
  }

  /** A number with symbol 1 modulo a prime is a square: the squares exhaust the roots. */
  lemma SymbolOneHasRoot(a: int, p: int)
    requires IsPrime(p) && p % 2 == 1 && Symbol(a, p) == 1
    ensures HasRoot(a, p)
  {
    var h := (p - 1) / 2;
    if !HasRoot(a, p) {
      var sq := seq(h, i => (i + 1) * (i + 1));
      var xs := sq + [a];
      forall i | 0 <= i < h ensures Symbol(sq[i], p) == 1 && !Cong(sq[i], a, p) {
        SquareSymbol(i + 1, p);
        assert !Cong(Times(i + 1, i + 1), a, p);
      }
      forall i, j | 0 <= i < j < h ensures !Cong(sq[i], sq[j], p) {
        SquaresIncongruent(i + 1, j + 1, p);
      }
      FewResidues(xs, p);
    }
  }

  /** For an odd prime the symbol is Legendre's. */
  lemma SymbolIsLegendre(a: int, p: int)
    requires IsPrime(p) && p % 2 == 1
    ensures Symbol(a, p) == if a % p == 0 then 0 else if HasRoot(a, p) then 1 else -1
  {
    SymbolRange(a, p);
    if a % p == 0 {
      NotCoprimeMultiple(a, p);
    } else {
      PrimeCoprime(a, p);
      if HasRoot(a, p) {
        var x :| Cong(Times(x, x), a, p);
        ResidueSymbol(a, p, x);
      } else if Symbol(a, p) == 1 {
        SymbolOneHasRoot(a, p);
      }
    }
  }

  /** An odd prime has a non-residue among 2..p-1. */
  lemma NonResidueExists(p: int)
    requires IsPrime(p) && p % 2 == 1
    ensures exists z :: 2 <= z < p && Symbol(z, p) == -1
  {
    if forall z :: 2 <= z < p ==> Symbol(z, p) != -1 {
      var xs := seq(p - 1, i => i + 1);
      forall i | 0 <= i < p - 1 ensures Symbol(xs[i], p) == 1 {
        SmallMod(i + 1, p);
        PrimeCoprime(i + 1, p);
        SymbolRange(i + 1, p);
        SymbolOfOne(p);
      }
      forall i, j | 0 <= i < j < p - 1 ensures !Cong(xs[i], xs[j], p) {
        SmallIncongruent(xs[i], xs[j], p);
      }
      FewResidues(xs, p);
    }
  }

  lemma OddProduct(m: int, n: int)
    requires OddModulus(m) && OddModulus(n)
    ensures OddModulus(m * n)
    ensures (m * n) % 4 == 3 <==> (m % 4 == 3) != (n % 4 == 3)
  {
    var c, d, e, f := m / 4, n / 4, m % 4, n % 4;
    ExpandProduct(c, d, e, f);
    LastQuarter(m * n, 4 * (c * d) + c * f + d * e, e, f);
    assert m * n > 0;
  }

  lemma ExpandProduct(c: int, d: int, e: int, f: int)
    ensures (4 * c + e) * (4 * d + f) == 4 * (4 * (c * d) + c * f + d * e) + e * f
  {
    assert (4 * c + e) * (4 * d + f) == 4 * c * (4 * d + f) + e * (4 * d + f);
  }

  lemma LastQuarter(x: int, w: int, e: int, f: int)
    requires x == 4 * w + e * f && (e == 1 || e == 3) && (f == 1 || f == 3)
    ensures x % 2 == 1 && (x % 4 == 3 <==> (e == 3) != (f == 3))
  {
    assert e * f == if e == 1 then f else if f == 1 then 3 else 9;
    QuarterOf(x, w, if e == 1 then f else if f == 1 then 3 else 9);
  }

  lemma QuarterOf(x: int, w: int, g: int)
    requires x == 4 * w + g && (g == 1 || g == 3 || g == 9)
    ensures x % 2 == 1 && (x % 4 == 3 <==> g == 3)
  {
  }

  lemma OddRepresentative(a: int, m: int) returns (b: int)
    requires OddModulus(m)
    ensures b % 2 == 1 && b > 0 && Cong(b, a, m)
  {
    var r := a % m;
    ModCong(a, m);
    b := if r % 2 == 1 then r else r + m;
    CongStep(r, 1, m);
  }

  /** (a/mn) = (a/m)(a/n): with SymbolIsLegendre, the symbol is Jacobi's. */
  lemma SymbolOfProductModulus(a: int, m: int, n: int)
    requires OddModulus(m) && OddModulus(n)
    ensures OddModulus(m * n) && Symbol(a, m * n) == Symbol(a, m) * Symbol(a, n)
  {
    OddProduct(m, n);
    var b := OddRepresentative(a, m * n);
    CongOfMultiple(b, a, m, n);
    assert m * n == n * m;
    CongOfMultiple(b, a, n, m);
    SymbolPeriodic(b, a, m * n);
    SymbolPeriodic(b, a, m);
    SymbolPeriodic(b, a, n);
    Swap(b, m * n);
    Swap(b, m);
    Swap(b, n);
    SymbolMultiplicative(m, n, b);
    SignTriple(Symbol(m, b), Symbol(n, b), b % 4 == 3, m % 4 == 3, n % 4 == 3);
  }

  lemma SignTriple(u: int, v: int, b: bool, m: bool, n: bool)
    ensures (if b && (m != n) then -1 else 1) * (u * v)
         == ((if b && m then -1 else 1) * u) * ((if b && n then -1 else 1) * v)
  {
  }
}
