/** Residues: congruence, powers, inverses and primes. */
module Modular {

  datatype Option<+T> = None | Some(value: T)

  /** a and b leave the same remainder modulo m. */
  predicate Cong(a: int, b: int, m: int)
    requires m > 0
  {
    a % m == b % m
  }

  ghost predicate Divides(d: int, a: int) {
    exists k :: Times(d, k) == a
  }

  function Times(a: int, b: int): int { a * b }

  // ---- quotients and remainders

  lemma MulBelow(a: int, b: int, m: int)
    requires m > 0 && a * m < b * m
    ensures a < b
  {
    assert a >= b ==> (a - b) * m >= 0;
  }

  lemma DivModUnique(a: int, m: int, q: int, r: int)
    requires m > 0 && 0 <= r < m && a == q * m + r
    ensures a / m == q && a % m == r
  {
    var q', r' := a / m, a % m;
    assert a == q' * m + r';
    assert (q - q') * m == r' - r;
    assert (q - q') * m < 1 * m && (-1) * m < (q - q') * m;
    MulBelow(q - q', 1, m);
    MulBelow(-1, q - q', m);
  }

  lemma ProductMonotone(a: int, b: int, c: int)
    requires a <= b && c >= 0
    ensures a * c <= b * c && c * a <= c * b
  {
    assert (b - a) * c >= 0;
  }

  /** q*m + r is not negative only if q is not. */
  lemma QuotientNatural(q: int, m: int, r: int)
    requires m > 0 && r < m && q * m + r >= 0
    ensures q >= 0
  {
    if q < 0 { ProductMonotone(q, -1, m); }
  }

  lemma DivisionFalls(n: int, base: int)
    requires n >= 0 && base >= 2
    ensures 0 <= n / base && (n > 0 ==> n / base < n) && n % base <= n
  {
    var q, r := n / base, n % base;
    assert n == q * base + r;
    QuotientNatural(q, base, r);
    ProductMonotone(2, base, q);
  }

  lemma SmallMod(a: int, m: int)
    requires 0 <= a < m
    ensures a % m == a && a / m == 0
  {
    DivModUnique(a, m, 0, a);
  }

  lemma CongStep(a: int, k: int, m: int)
    requires m > 0
    ensures Cong(a + k * m, a, m)
  {
    assert a + k * m == (a / m + k) * m + a % m;
    DivModUnique(a + k * m, m, a / m + k, a % m);
  }

  lemma CongFrom(a: int, b: int, k: int, m: int)
    requires m > 0 && a - b == k * m
    ensures Cong(a, b, m)
  {
    CongStep(b, k, m);
  }

  lemma CongWitness(a: int, b: int, m: int) returns (k: int)
    requires m > 0 && Cong(a, b, m)
    ensures a - b == k * m
  {
    k := a / m - b / m;
    assert a == (a / m) * m + a % m && b == (b / m) * m + b % m;
  }

  lemma CongIffDifference(a: int, b: int, m: int)
    requires m > 0
    ensures Cong(a, b, m) <==> (a - b) % m == 0
  {
    if Cong(a, b, m) {
      var k := CongWitness(a, b, m);
      DivModUnique(a - b, m, k, 0);
    }
    if (a - b) % m == 0 {
      CongFrom(a, b, (a - b) / m, m);
    }
  }

  lemma ModCong(a: int, m: int)
    requires m > 0
    ensures Cong(a % m, a, m) && 0 <= a % m < m
  {
    SmallMod(a % m, m);
  }

  lemma CongAdd(a: int, b: int, c: int, d: int, m: int)
    requires m > 0 && Cong(a, b, m) && Cong(c, d, m)
    ensures Cong(a + c, b + d, m) && Cong(a - c, b - d, m)
  {
    var k := CongWitness(a, b, m);
    var l := CongWitness(c, d, m);
    assert (a + c) - (b + d) == (k + l) * m;
    assert (a - c) - (b - d) == (k - l) * m;
    CongFrom(a + c, b + d, k + l, m);
    CongFrom(a - c, b - d, k - l, m);
  }

  lemma CongMul(a: int, b: int, c: int, d: int, m: int)
    requires m > 0 && Cong(a, b, m) && Cong(c, d, m)
    ensures Cong(a * c, b * d, m)
  {
    var k := CongWitness(a, b, m);
    var l := CongWitness(c, d, m);
    assert a * c - b * d == a * (c - d) + (a - b) * d;
    assert a * (l * m) + (k * m) * d == (a * l + k * d) * m;
    CongFrom(a * c, b * d, a * l + k * d, m);
  }

  lemma CongScale(c: int, a: int, b: int, m: int)
    requires m > 0 && Cong(a, b, m)
    ensures Cong(c * a, c * b, m)
  {
    CongMul(c, c, a, b, m);
  }

  lemma CongNeg(a: int, b: int, m: int)
    requires m > 0 && Cong(a, b, m)
    ensures Cong(-a, -b, m)
  {
    CongAdd(0, 0, a, b, m);
  }

  /** Congruence modulo a multiple of m is congruence modulo m. */
  lemma CongOfMultiple(a: int, b: int, m: int, l: int)
    requires m > 0 && l > 0 && m * l > 0 && Cong(a, b, m * l)
    ensures Cong(a, b, m)
  {
    var k := CongWitness(a, b, m * l);
    assert k * (m * l) == (k * l) * m;
    CongFrom(a, b, k * l, m);
  }

  // ---- divisibility

  lemma DividesMod(d: int, a: int)
    requires d > 0
    ensures Divides(d, a) <==> a % d == 0
  {
    if Divides(d, a) {
      var k :| Times(d, k) == a;
      DivModUnique(a, d, k, 0);
    }
    if a % d == 0 {
      assert Times(d, a / d) == a;
    }
  }

  lemma DividesCombination(d: int, a: int, b: int, x: int, y: int)
    requires Divides(d, a) && Divides(d, b)
    ensures Divides(d, a * x + b * y)
  {
    var k :| Times(d, k) == a;
    var l :| Times(d, l) == b;
    assert (d * k) * x + (d * l) * y == d * (k * x + l * y);
    assert Times(d, k * x + l * y) == a * x + b * y;
  }

  // ---- powers

  function Pow(b: int, e: nat): int
  {
    if e == 0 then 1 else b * Pow(b, e - 1)
  }

  lemma {:induction false} PowAdd(b: int, d: nat, e: nat)
    ensures Pow(b, d + e) == Pow(b, d) * Pow(b, e)
  {
    if d != 0 {
      PowAdd(b, d - 1, e);
      assert b * (Pow(b, d - 1) * Pow(b, e)) == (b * Pow(b, d - 1)) * Pow(b, e);
    }
  }

  lemma {:induction false} PowMul(b: int, d: nat, e: nat)
    ensures d * e >= 0 && Pow(Pow(b, d), e) == Pow(b, d * e)
  {
    if e != 0 {
      PowMul(b, d, e - 1);
      assert d * e == d + d * (e - 1);
      PowAdd(b, d, d * (e - 1));
    }
  }

  lemma {:induction false} PowProduct(a: int, b: int, e: nat)
    ensures Pow(a * b, e) == Pow(a, e) * Pow(b, e)
  {
    if e != 0 {
      PowProduct(a, b, e - 1);
      ProductOfProducts(a, b, Pow(a, e - 1), Pow(b, e - 1));
    }
  }

  lemma ProductOfProducts(a: int, b: int, x: int, y: int)
    ensures (a * b) * (x * y) == (a * x) * (b * y)
  {
    assert (a * b) * (x * y) == a * (b * (x * y));
    assert b * (x * y) == x * (b * y);
    assert a * (x * (b * y)) == (a * x) * (b * y);
  }

  lemma {:induction false} PowCong(a: int, b: int, e: nat, m: int)
    requires m > 0 && Cong(a, b, m)
    ensures Cong(Pow(a, e), Pow(b, e), m)
  {
    if e != 0 {
      PowCong(a, b, e - 1, m);
      CongMul(a, b, Pow(a, e - 1), Pow(b, e - 1), m);
    }
  }

  lemma {:induction false} PowOne(e: nat)
    ensures Pow(1, e) == 1
  {
    if e != 0 { PowOne(e - 1); }
  }

  lemma {:induction false} PowPositive(b: int, e: nat)
    requires b > 0
    ensures Pow(b, e) > 0
  {
    if e != 0 { PowPositive(b, e - 1); }
  }

  lemma PowTwo(b: int)
    ensures Pow(b, 2) == b * b && Pow(b, 1) == b
  {
    assert Pow(b, 1) == b * Pow(b, 0);
    assert Pow(b, 2) == b * Pow(b, 1);
  }

  /** Python's pow(b, e, m): the residue of b^e. */
  function PowMod(b: int, e: nat, m: int): (r: int)
    requires m > 0
    ensures 0 <= r < m && Cong(r, Pow(b, e), m)
  {
    ModCong(Pow(b, e), m);
    Pow(b, e) % m
  }

  // ---- powers of two

  function Pow2(e: nat): (r: int)
    ensures r > 0
  {
    if e == 0 then 1 else 2 * Pow2(e - 1)
  }

  lemma {:induction false} Pow2Add(d: nat, e: nat)
    ensures Pow2(d + e) == Pow2(d) * Pow2(e)
  {
    if d != 0 {
      Pow2Add(d - 1, e);
      assert 2 * (Pow2(d - 1) * Pow2(e)) == (2 * Pow2(d - 1)) * Pow2(e);
    }
  }

  lemma {:induction false} Pow2Monotone(d: nat, e: nat)
    requires d <= e
    ensures Pow2(d) <= Pow2(e)
  {
    if d < e { Pow2Monotone(d, e - 1); }
  }

  // ---- the extended Euclid

  /** a and m have no common divisor: some combination of them is 1. */
  ghost predicate Coprime(a: int, m: int) {
    exists x, y :: Times(a, x) + Times(m, y) == 1
  }

  /** The natural number r with a*r = 1 modulo m, that is, pow(a, -1, m). */
  ghost predicate IsInverse(r: int, a: int, m: int) {
    m > 0 && 0 <= r < m && Cong(a * r, 1, m)
  }

  lemma InverseUnique(r: int, s: int, a: int, m: int)
    requires IsInverse(r, a, m) && IsInverse(s, a, m)
    ensures r == s
  {
    // r = r*(a*s) = s*(a*r) = s
    CongScale(r, a * s, 1, m);
    CongScale(s, a * r, 1, m);
    SwapOuter(r, a, s);
    SmallMod(r, m);
    SmallMod(s, m);
  }

  lemma SwapOuter(r: int, a: int, s: int)
    ensures r * (a * s) == s * (a * r) && r * 1 == r && s * 1 == s
  {
    assert r * (a * s) == (r * a) * s;
  }

  /** pow(a, -1, m), with None for the ValueError of an operand without inverse. */
  function Inverse(a: int, m: int): (r: Option<int>)
    requires m > 0
    ensures r.Some? ==> IsInverse(r.value, a, m)
    ensures r.None? ==> forall s :: !IsInverse(s, a, m)
  {
    assert forall s | IsInverse(s, a, m) :: Cong(Times(a, s), 1, m);
    if exists s | 0 <= s < m :: Cong(Times(a, s), 1, m) then
      assert forall s, t | IsInverse(s, a, m) && IsInverse(t, a, m) :: s == t by {
        forall s, t | IsInverse(s, a, m) && IsInverse(t, a, m) ensures s == t { InverseUnique(s, t, a, m); }
      }
      assert forall s | 0 <= s < m && Cong(Times(a, s), 1, m) :: IsInverse(s, a, m);
      var s :| 0 <= s < m && Cong(Times(a, s), 1, m);
      Some(s)
    else
      None
  }

  /** An operand has an inverse exactly when a combination of it and the modulus is 1. */
  lemma InverseIffCoprime(a: int, m: int)
    requires m > 0
    ensures Inverse(a, m).Some? <==> Coprime(a, m)
  {
    if Inverse(a, m).Some? {
      var r := Inverse(a, m).value;
      var k := CongWitness(a * r, 1, m);
      assert Times(a, r) + Times(m, -k) == 1;
    }
    if Coprime(a, m) {
      var x, y :| Times(a, x) + Times(m, y) == 1;
      var r := x % m;
      ModCong(x, m);
      CongScale(a, r, x, m);
      assert a * x - 1 == (-y) * m;
      CongFrom(a * x, 1, -y, m);
      assert IsInverse(r, a, m);
    }
  }

  // ---- primes

  predicate IsPrime(p: int) {
    p >= 2 && forall d :: 1 < d < p ==> p % d != 0
  }

  /** gcd of two naturals, with the combination that gives it. */
  lemma {:induction false} Bezout(a: nat, b: nat) returns (g: nat, x: int, y: int)
    requires a > 0 || b > 0
    ensures g > 0 && a * x + b * y == g && Divides(g, a) && Divides(g, b)
    decreases b
  {
    if b == 0 {
      g, x, y := a, 1, 0;
      assert Times(a, 1) == a && Times(a, 0) == b;
    } else {
      var q, r := a / b, a % b;
      var x', y';
      g, x', y' := Bezout(b, r);
      DividesCombination(g, b, r, q, 1);
      assert b * q + r * 1 == a;
      x, y := y', x' - q * y';
      assert a * y' + b * (x' - q * y') == b * x' + (a - q * b) * y';
    }
  }

  lemma PrimeCoprime(a: int, p: int)
    requires IsPrime(p) && a % p != 0
    ensures Coprime(a, p)
  {
    var b := a % p;
    var g, x, y := Bezout(b, p);
    DividesMod(g, p);
    DividesMod(g, b);
    if g > p { SmallMod(p, g); }
    if g == p { SmallMod(b, p); }
    assert g == 1;
    var q := a / p;
    assert b == a - q * p;
    assert (a - q * p) * x + p * y == a * x + p * (y - q * x);
    assert Times(a, x) + Times(p, y - q * x) == 1;
  }

  /** Euclid's lemma. */
  lemma PrimeDividesProduct(a: int, b: int, p: int)
    requires IsPrime(p) && (a * b) % p == 0
    ensures a % p == 0 || b % p == 0
  {
    if a % p != 0 {
      PrimeCoprime(a, p);
      var x, y :| Times(a, x) + Times(p, y) == 1;
      DividesMod(p, a * b);
      assert Divides(p, p) by { assert Times(p, 1) == p; }
      DividesCombination(p, a * b, p, x, b * y);
      assert (a * b) * x + p * (b * y) == b * (a * x + p * y);
      DividesMod(p, b);
    }
  }

  lemma PrimeInverse(a: int, p: int)
    requires IsPrime(p) && a % p != 0
    ensures Inverse(a, p).Some?
  {
    PrimeCoprime(a, p);
    InverseIffCoprime(a, p);
  }

  /** Modulo a prime a factor that is not zero can be cancelled. */
  lemma CancelFactor(c: int, a: int, b: int, p: int)
    requires IsPrime(p) && c % p != 0 && Cong(c * a, c * b, p)
    ensures Cong(a, b, p)
  {
    CongIffDifference(c * a, c * b, p);
    assert c * a - c * b == c * (a - b);
    PrimeDividesProduct(c, a - b, p);
    CongIffDifference(a, b, p);
  }

  /** The square roots of 1 modulo a prime are 1 and -1. */
  lemma RootsOfOne(x: int, p: int)
    requires IsPrime(p) && Cong(x * x, 1, p)
    ensures Cong(x, 1, p) || Cong(x, -1, p)
  {
    CongIffDifference(x * x, 1, p);
    assert x * x - 1 == (x - 1) * (x + 1);
    PrimeDividesProduct(x - 1, x + 1, p);
    CongIffDifference(x, 1, p);
    CongIffDifference(x, -1, p);
  }
}
