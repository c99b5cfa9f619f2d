/** The loops of number_theory.py: inverses, the reciprocity symbol and square roots. */
module NumberTheory {
  import opened Modular
  import opened GaussSymbol
  import opened Residues

  // ---- the extended Euclid

  /** Python's floor quotient and the remainder it leaves, which takes the sign of the divisor. */
  function FloorDiv(a: int, b: int): int
    requires b != 0
  {
    if b > 0 then a / b else (-a) / (-b)
  }

  function FloorMod(a: int, b: int): int
    requires b != 0
  {
    a - b * FloorDiv(a, b)
  }

  function Abs(a: int): nat { if a < 0 then -a else a }

  lemma FloorModShrinks(a: int, b: int)
    requires b != 0
    ensures Abs(FloorMod(a, b)) < Abs(b)
    ensures if b > 0 then FloorMod(a, b) >= 0 else FloorMod(a, b) <= 0
  {
    if b > 0 {
      assert a == b * (a / b) + a % b;
    } else {
      var q := (-a) / (-b);
      assert -a == (-b) * q + (-a) % (-b);
      assert (-b) * q == -(b * q);
    }
  }

  lemma EuclidStep(a0: int, b0: int, a: int, b: int, x0: int, x1: int, y0: int, y1: int, q: int)
    requires a0 * x0 + b0 * y0 == b && a0 * x1 + b0 * y1 == a
    ensures a0 * (x0 - q * x1) + b0 * (y0 - q * y1) == b - a * q
  {
    assert q * (a0 * x1 + b0 * y1) == a0 * (q * x1) + b0 * (q * y1);
    assert a0 * (x0 - q * x1) == a0 * x0 - a0 * (q * x1);
    assert b0 * (y0 - q * y1) == b0 * y0 - b0 * (q * y1);
  }

  /** The common divisors of a and b are those of b and a - b*q. */
  ghost predicate SameDivisors(a: int, b: int, c: int, d: int) {
    forall e :: Divides(e, a) && Divides(e, b) <==> Divides(e, c) && Divides(e, d)
  }

  lemma SameDivisorsStep(a: int, b: int, q: int)
    ensures SameDivisors(b - a * q, a, a, b)
  {
    forall e ensures Divides(e, b - a * q) && Divides(e, a) <==> Divides(e, a) && Divides(e, b) {
      if Divides(e, a) && Divides(e, b) {
        DividesCombination(e, b, a, 1, -q);
        assert b * 1 + a * -q == b - a * q;
      }
      if Divides(e, b - a * q) && Divides(e, a) {
        DividesCombination(e, b - a * q, a, 1, q);
      }
    }
  }

  lemma DividesItself(g: int)
    ensures Divides(g, g) && Divides(g, 0)
  {
    assert Times(g, 1) == g;
    assert Times(g, 0) == 0;
  }

  /** g is a common divisor of a and b and a combination of them, so every common divisor divides it; its sign is that
      of a, which is positive in every call of the library, or g is b itself where a is zero. */
  method XgcdVar(a0: int, b0: int) returns (g: int, x: int, y: int)
    ensures a0 * x + b0 * y == g
    ensures Divides(g, a0) && Divides(g, b0)
    ensures forall e :: Divides(e, a0) && Divides(e, b0) ==> Divides(e, g)
    ensures (a0 > 0 ==> g > 0) && (a0 < 0 ==> g < 0) && (a0 == 0 ==> g == b0)
  {
    var a, b := a0, b0;
    var x0, x1, y0, y1 := 0, 1, 1, 0;
    while a != 0
      invariant a0 * x0 + b0 * y0 == b && a0 * x1 + b0 * y1 == a
      invariant SameDivisors(a, b, a0, b0)
      invariant (a == a0 && b == b0) || (a0 > 0 && a >= 0 && b > 0) || (a0 < 0 && a <= 0 && b < 0)
      decreases Abs(a)
    {
      ghost var d, c := a, b;
      var q := FloorDiv(b, a);
      EuclidStep(a0, b0, a, b, x0, x1, y0, y1, q);
      SameDivisorsStep(a, b, q);
      FloorModShrinks(b, a);
      b, a := a, FloorMod(b, a);
      y0, y1 := y1, y0 - q * y1;
      x0, x1 := x1, x0 - q * x1;
    }
    DividesItself(b);
    return b, x0, y0;
  }

  // ---- inverses

  /** mod_inv: the inverse taken of a blinded operand, for any draw b. */
  function ModInv(a: int, m: int, b: int): (r: Option<int>)
    requires m > 0
    ensures r == Inverse(a, m)
  {
    var blinded := Inverse(Times(a, b) % m, m);
    if blinded.Some? then
      BlindedInverse(a, m, b, blinded.value);
      Some(blinded.value * b % m)
    else Inverse(a, m)
  }

  lemma BlindedInverse(a: int, m: int, b: int, i: int)
    requires m > 0 && IsInverse(i, (a * b) % m, m)
    ensures IsInverse(i * b % m, a, m) && Inverse(a, m) == Some(i * b % m)
  {
    ModCong(a * b, m);
    CongMul((a * b) % m, a * b, i, i, m);
    ModCong(i * b, m);
    CongScale(a, i * b % m, i * b, m);
    assert a * (i * b) == (a * b) * i;
    assert IsInverse(i * b % m, a, m);
    InverseUnique(i * b % m, Inverse(a, m).value, a, m);
  }

  /** The product of the first k operands. */
  function Product(a: seq<int>, k: nat): int
    requires k <= |a|
  {
    if k == 0 then 1 else Product(a, k - 1) * a[k - 1]
  }

  ghost predicate AllInvertible(a: seq<int>, m: int)
    requires m > 0
  {
    forall i :: 0 <= i < |a| ==> Inverse(a[i], m).Some?
  }

  lemma {:induction false} ProductInvertible(a: seq<int>, k: nat, m: int)
    requires m > 0 && k <= |a|
    ensures Coprime(Product(a, k), m) <==> forall i :: 0 <= i < k ==> Coprime(a[i], m)
  {
    if k == 0 {
      assert Times(1, 1) + Times(m, 0) == 1;
    } else {
      ProductInvertible(a, k - 1, m);
      CoprimeProduct(Product(a, k - 1), a[k - 1], m);
    }
  }

  lemma BatchInvertible(a: seq<int>, m: int, product: int)
    requires m > 0 && Cong(product, Product(a, |a|), m)
    ensures Inverse(product, m).Some? <==> AllInvertible(a, m)
  {
    var p := Product(a, |a|);
    InverseIffCoprime(product, m);
    if Coprime(product, m) { CoprimeCong(product, p, m); }
    if Coprime(p, m) { CoprimeCong(p, product, m); }
    ProductInvertible(a, |a|, m);
    forall i | 0 <= i < |a| ensures Inverse(a[i], m).Some? <==> Coprime(a[i], m) {
      InverseIffCoprime(a[i], m);
    }
  }

  /** inv inverts acc*x: then inv*acc inverts x, and inv*x inverts acc. */
  lemma PeelBack(inv: int, acc: int, before: int, x: int, m: int)
    requires m > 0 && Cong(acc, before, m) && Cong(inv * (before * x), 1, m)
    ensures IsInverse(inv * acc % m, x, m)
    ensures Cong((inv * x % m) * before, 1, m)
  {
    ModCong(inv * acc, m);
    CongMul(acc, before, inv * x, inv * x, m);
    CongScale(x, inv * acc % m, inv * acc, m);
    assert x * (inv * acc) == acc * (inv * x);
    assert before * (inv * x) == inv * (before * x);
    ModCong(inv * x, m);
    CongMul(inv * x % m, inv * x, before, before, m);
    assert (inv * x) * before == inv * (before * x);
  }

  /** Montgomery's trick: the inverse of every element, or None if one has none. */
  method ModInvBatchVar(a: seq<int>, m: int) returns (r: Option<seq<int>>)
    requires m > 0
    ensures r.Some? <==> AllInvertible(a, m)
    ensures r.Some? ==> |r.value| == |a| && forall i :: 0 <= i < |a| ==> IsInverse(r.value[i], a[i], m)
  {
    if |a| == 0 { return Some([]); }
    var acc: seq<int> := [];
    var product := 1;
    for k := 0 to |a|
      invariant |acc| == k && Cong(product, Product(a, k), m)
      invariant forall i :: 0 <= i < k ==> Cong(acc[i], Product(a, i + 1), m)
    {
      CongMul(product, Product(a, k), a[k], a[k], m);
      ModCong(product * a[k], m);
      product := product * a[k] % m;
      acc := acc + [product];
    }
    BatchInvertible(a, m, product);
    var last := Inverse(product, m);
    if last.None? { return None; }
    var inv := last.value;
    CongScale(inv, product, Product(a, |a|), m);
    assert product * inv == inv * product;
    var inverses := new int[|a|];
    var i := |a| - 1;
    while i > 0
      invariant 0 <= i < |a|
      invariant 0 <= inv < m && Cong(inv * Product(a, i + 1), 1, m)
      invariant forall k :: i < k < |a| ==> IsInverse(inverses[k], a[k], m)
    {
      PeelBack(inv, acc[i - 1], Product(a, i), a[i], m);
      ModCong(inv * a[i], m);
      inverses[i] := inv * acc[i - 1] % m;
      inv := inv * a[i] % m;
      i := i - 1;
    }
    assert Product(a, 1) == Product(a, 0) * a[0] == a[0];
    assert inv * a[0] == a[0] * inv;
    inverses[0] := inv;
    return Some(inverses[..]);
  }

  // ---- the reciprocity loop

  /** The exponent of the lowest set bit: (a & -a).bit_length() - 1. */
  function Twos(a: nat): (t: nat)
    requires a > 0
    ensures a % Pow2(t) == 0 && a == Pow2(t) * (a / Pow2(t)) && (a / Pow2(t)) % 2 == 1 && 0 < a / Pow2(t) <= a
  {
    if a % 2 == 1 then 0
    else
      var t := Twos(a / 2);
      ShiftOnce(a, Pow2(t), (a / 2) / Pow2(t));
      t + 1
  }

  lemma ShiftOnce(a: nat, e: int, b: int)
    requires a > 0 && a % 2 == 0 && e > 0 && a / 2 == e * b
    ensures a == (2 * e) * b && a % (2 * e) == 0 && a / (2 * e) == b
  {
    assert a == (2 * e) * b;
    DivModUnique(a, 2 * e, b, 0);
  }

  lemma SymbolOfZero(n: int)
    requires OddModulus(n)
    ensures Symbol(0, n) == if n == 1 then 1 else 0
  {
    SymbolRange(0, n);
    if n == 1 {
      assert Times(0, 0) + Times(1, 1) == 1;
    } else if Coprime(0, n) {
      SmallMod(0, n);
      NotCoprimeMultiple(0, n);
    }
  }

  lemma RemoveTwos(t: nat, b: int, n: int)
    requires OddModulus(n)
    ensures Symbol(Pow2(t) * b, n) == TwosSign(t, n) * Symbol(b, n)
  {
    SymbolMultiplicative(Pow2(t), b, n);
    SymbolOfPower(t, n);
  }

  /** What is left to compute: the symbol of the start is the sign so far times that of (a, n). */
  ghost predicate Tracks(a0: int, n0: int, sign: int, a: int, n: int) {
    OddModulus(n0) && OddModulus(n) && Symbol(a0, n0) == sign * Symbol(a, n)
  }


  lemma TwosStep(a0: int, n0: int, sign: int, t: nat, a: int, b: int, n: int)
    requires Tracks(a0, n0, sign, a, n) && a == Pow2(t) * b
    ensures Tracks(a0, n0, if t % 2 == 1 && n % 8 in {3, 5} then -sign else sign, b, n)
  {
    RemoveTwos(t, b, n);
    CarrySign(Symbol(a0, n0), sign, Symbol(a, n), TwosSign(t, n), Symbol(b, n));
  }

  /** The Jacobi symbol of every odd modulus; for an odd prime it is Legendre's. */
  method LegendreSymbolVar(a0: int, p0: int) returns (r: int)
    requires p0 > 0
    ensures r in {-1, 0, 1}
    ensures p0 % 2 == 1 ==> r == Symbol(a0, p0)
  {
    var a, p := a0 % p0, p0;
    var result := 1;
    if p0 % 2 == 1 {
      ModCong(a0, p0);
      SymbolPeriodic(a, a0, p0);
    }
    while a != 0
      invariant a >= 0 && p > 0 && result in {-1, 1}
      invariant p0 % 2 == 1 ==> Tracks(a0, p0, result, a, p)
      decreases a
    {
      var twos := Twos(a);
      if p0 % 2 == 1 { TwosStep(a0, p0, result, twos, a, a / Pow2(twos), p); }
      a := a / Pow2(twos);
      if twos % 2 == 1 && p % 8 in {3, 5} {
        result := -result;
      }
      if p0 % 2 == 1 { SwapStep(a0, p0, result, a, p); }
      if a % 4 == 3 && p % 4 == 3 {
        result := -result;
      }
      ModCong(p, a);
      a, p := p % a, a;
    }
    if p0 % 2 == 1 { SymbolOfZero(p); }
    return if p == 1 then result else 0;
  }

  lemma HalveStep(a0: int, n0: int, sign: int, a: int, n: int)
    requires Tracks(a0, n0, sign, 2 * a, n)
    ensures Tracks(a0, n0, if n % 8 in {3, 5} then -sign else sign, a, n)
  {
    SymbolMultiplicative(2, a, n);
    SymbolOfTwo(n);
    CarrySign(Symbol(a0, n0), sign, Symbol(2 * a, n), Symbol(2, n), Symbol(a, n));
  }

  lemma CarrySign(x: int, sign: int, y: int, e: int, z: int)
    requires x == sign * y && y == e * z && (e == 1 || e == -1)
    ensures x == (if e == 1 then sign else -sign) * z
  {
  }

  lemma SwapStep(a0: int, n0: int, sign: int, a: int, n: int)
    requires Tracks(a0, n0, sign, a, n) && OddModulus(a)
    ensures Tracks(a0, n0, if a % 4 == 3 && n % 4 == 3 then -sign else sign, n % a, a)
  {
    Swap(a, n);
    ModCong(n, a);
    SymbolPeriodic(n % a, n, a);
    var e := if a % 4 == 3 && n % 4 == 3 then -1 else 1;
    CarrySign(Symbol(a0, n0), sign, Symbol(a, n), e, Symbol(n, a));
  }

  /** _jacobi computes the same symbol, taking the factors of two out one at a time. */
  method JacobiLoop(a0: int, n0: int) returns (r: int)
    requires OddModulus(n0)
    ensures r == Symbol(a0, n0)
  {
    var a, n := a0 % n0, n0;
    var result := 1;
    ModCong(a0, n0);
    SymbolPeriodic(a, a0, n0);
    while a != 0
      invariant a >= 0 && Tracks(a0, n0, result, a, n)
      decreases a
    {
      ghost var bound := a;
      while a % 2 == 0
        invariant 0 < a <= bound && Tracks(a0, n0, result, a, n)
        decreases a
      {
        a := a / 2;
        HalveStep(a0, n0, result, a, n);
        if n % 8 in {3, 5} {
          result := -result;
        }
      }
      SwapStep(a0, n0, result, a, n);
      a, n := n, a;
      if a % 4 == 3 && n % 4 == 3 {
        result := -result;
      }
      ModCong(a, n);
      a := a % n;
    }
    SymbolOfZero(n);
    return if n == 1 then result else 0;
  }

  // ---- square roots

  lemma RootOfZero(p: int)
    requires p > 0
    ensures HasRoot(0, p)
  {
    assert Times(0, 0) == 0;
  }

  lemma RootOfResidue(a: int, p: int)
    requires p > 0
    ensures HasRoot(a % p, p) <==> HasRoot(a, p)
  {
    ModCong(a, p);
    if HasRoot(a, p) {
      var x :| Cong(Times(x, x), a, p);
      assert Cong(Times(x, x), a % p, p);
    }
    if HasRoot(a % p, p) {
      var x :| Cong(Times(x, x), a % p, p);
      assert Cong(Times(x, x), a, p);
    }
  }

  lemma SquareOfProduct(r: int, b: int, a: int, t: int, r': int, c: int, t': int, p: int)
    requires p > 0 && Cong(r * r, a * t, p) && Cong(r', r * b, p) && Cong(c, b * b, p) && Cong(t', t * c, p)
    ensures Cong(r' * r', a * t', p)
  {
    CongMul(r', r * b, r', r * b, p);
    CongMul(r * r, a * t, b * b, b * b, p);
    CongScale(t, c, b * b, p);
    CongScale(a, t', t * (b * b), p);
    ProductShapes(r, b, a, t);
  }

  lemma ProductShapes(r: int, b: int, a: int, t: int)
    ensures (r * b) * (r * b) == (r * r) * (b * b) && a * (t * (b * b)) == (a * t) * (b * b)
  {
  }

  /** Squaring doubles the exponent. */
  lemma SquarePower(x: int, t: int, e: nat, p: int)
    requires p > 0 && Cong(x, Pow(t, Pow2(e)), p)
    ensures Cong(x * x, Pow(t, Pow2(e + 1)), p)
  {
    var y := Pow(t, Pow2(e));
    CongMul(x, y, x, y, p);
    PowAdd(t, Pow2(e), Pow2(e));
    assert Pow2(e + 1) == Pow2(e) + Pow2(e);
  }

  /** t has order dividing 2^(s-1), and c has order exactly 2^s. */
  ghost predicate Orders(t: int, c: int, s: nat, p: int)
    requires p > 0
  {
    s >= 1 && Cong(Pow(t, Pow2(s - 1)), 1, p) && Cong(Pow(c, Pow2(s - 1)), -1, p)
  }

  lemma PowOfPow2(c: int, d: nat, e: nat)
    ensures Pow(Pow(c, Pow2(d)), Pow2(e)) == Pow(c, Pow2(d + e))
  {
    PowMul(c, Pow2(d), Pow2(e));
    Pow2Add(d, e);
  }

  /** The update of the loop keeps the orders, at the smaller exponent i. */
  lemma OrdersKept(t: int, c: int, s: nat, i: nat, b: int, c': int, t': int, p: int)
    requires IsPrime(p) && Orders(t, c, s, p) && 1 <= i < s
    requires Cong(Pow(t, Pow2(i)), 1, p) && !Cong(Pow(t, Pow2(i - 1)), 1, p)
    requires Cong(b, Pow(c, Pow2(s - i - 1)), p) && Cong(c', b * b, p) && Cong(t', t * c', p)
    ensures Orders(t', c', i, p)
  {
    var e := Pow2(i - 1);
    SquarePower(b, c, s - i - 1, p);
    PowCong(c', Pow(c, Pow2(s - i)), e, p);
    PowOfPow2(c, s - i, i - 1);
    var x := Pow(t, e);
    SquarePower(x, t, i - 1, p);
    RootsOfOne(x, p);
    PowCong(t', t * c', e, p);
    PowProduct(t, c', e);
    CongMul(x, -1, Pow(c', e), -1, p);
  }

  /** p - 1 = q * 2^s: Euler's power is the 2^(s-1) power of a^q. */
  lemma EulerSplit(a: int, q: nat, s: nat, p: int, t: int)
    requires IsPrime(p) && p % 2 == 1 && s >= 1 && p - 1 == q * Pow2(s) && Cong(t, Pow(a, q), p)
    ensures Cong(Pow(t, Pow2(s - 1)), Symbol(a, p), p)
  {
    PowCong(t, Pow(a, q), Pow2(s - 1), p);
    PowMul(a, q, Pow2(s - 1));
    assert q * Pow2(s) == 2 * (q * Pow2(s - 1));
    EulerCriterion(a, p);
  }

  lemma FirstRoot(a: int, q: nat, r: int, t: int, p: int)
    requires p > 0 && q % 2 == 1 && Cong(r, Pow(a, (q + 1) / 2), p) && Cong(t, Pow(a, q), p)
    ensures Cong(r * r, a * t, p)
  {
    var x := Pow(a, (q + 1) / 2);
    CongMul(r, x, r, x, p);
    PowAdd(a, (q + 1) / 2, (q + 1) / 2);
    CongScale(a, t, Pow(a, q), p);
    assert Pow(a, q + 1) == a * Pow(a, q);
  }

  /** For p = 3 modulo 4 the power (p+1)/4 of a residue is its root. */
  lemma ThreeModFourRoot(a: int, p: int, r: int)
    requires IsPrime(p) && p % 4 == 3 && Cong(r, Pow(a, (p + 1) / 4), p)
    ensures Cong(r * r, a * Symbol(a, p), p)
  {
    var k := (p + 1) / 4;
    var x := Pow(a, k);
    CongMul(r, x, r, x, p);
    PowAdd(a, k, k);
    assert k + k == (p - 1) / 2 + 1;
    assert Pow(a, k + k) == a * Pow(a, (p - 1) / 2);
    EulerCriterion(a, p);
    CongScale(a, Pow(a, (p - 1) / 2), Symbol(a, p), p);
  }

  lemma ResidueRoots(a: int, p: int, r: int)
    requires IsPrime(p) && p % 2 == 1 && Cong(r * r, a * Symbol(a, p), p)
    ensures Symbol(a, p) != -1 ==> Cong(r * r, a, p)
    ensures Symbol(a, p) == -1 <==> !HasRoot(a, p)
  {
    SymbolIsLegendre(a, p);
    if a % p == 0 {
      ModCong(a, p);
      RootOfZero(p);
      RootOfResidue(a, p);
    }
  }

  lemma HalveFactor(q: int, s: nat)
    requires q % 2 == 0
    ensures q * Pow2(s) == (q / 2) * Pow2(s + 1)
  {
    var h, e := q / 2, Pow2(s);
    assert q == 2 * h;
    assert (2 * h) * e == h * (2 * e);
  }

  /** p - 1 as q * 2^s with q odd. */
  method SplitTwos(p: int) returns (q: nat, s: nat)
    requires p > 1
    ensures q > 0 && q % 2 == 1 && p - 1 == q * Pow2(s)
    ensures (s == 1 <==> p % 4 == 3) && (s == 0 <==> p % 2 == 0)
  {
    q, s := p - 1, 0;
    assert q * Pow2(0) == q;
    while q % 2 == 0
      invariant q > 0 && p - 1 == q * Pow2(s)
      decreases q
    {
      HalveFactor(q, s);
      s, q := s + 1, q / 2;
    }
    TwosOfPredecessor(p, q, s);
  }

  lemma TwosOfPredecessor(p: int, q: nat, s: nat)
    requires p - 1 == q * Pow2(s) && q % 2 == 1
    ensures (s == 1 <==> p % 4 == 3) && (s == 0 <==> p % 2 == 0)
  {
    if s == 0 {
      OddSuccessors(q, p - 1, 1);
    } else if s == 1 {
      assert Pow2(1) == 2 by { assert Pow2(1) == 2 * Pow2(0); }
      OddSuccessors(q, p - 1, 2);
    } else {
      var h := Pow2(s - 2);
      assert Pow2(s) == 4 * h by { assert Pow2(s) == 2 * Pow2(s - 1) && Pow2(s - 1) == 2 * h; }
      FourTimes(q, h);
    }
  }

  lemma OddSuccessors(q: int, m: int, e: int)
    requires q % 2 == 1 && m == q * e
    ensures e == 1 ==> (m + 1) % 2 == 0
    ensures e == 2 ==> (m + 1) % 4 == 3
  {
    var h := q / 2;
    assert q == 2 * h + 1;
    if e == 1 { assert m + 1 == 2 * (h + 1); }
    if e == 2 { assert m + 1 == 4 * h + 3; }
  }

  lemma FourTimes(q: int, h: int)
    ensures q * (4 * h) == 4 * (q * h) && (q * (4 * h) + 1) % 4 == 1
  {
    assert q * (4 * h) == 4 * (q * h);
  }

  /** For a modulus that is 3 modulo 4 the answer is a power, and a power squares to a when twice its exponent answers a. */
  lemma ThreeModFourSquares(a: int, a0: int, p: int, r: int)
    requires p > 0 && p % 4 == 3 && Cong(a, a0, p) && Cong(r, Pow(a, (p + 1) / 4), p)
    ensures Cong(r, Pow(a0, (p + 1) / 4), p)
    ensures Cong(r * r, a0, p) <==> Cong(Pow(a0, (p + 1) / 2), a0, p)
  {
    var k := (p + 1) / 4;
    PowCong(a, a0, k, p);
    CongMul(r, Pow(a0, k), r, Pow(a0, k), p);
    PowAdd(a0, k, k);
  }

  lemma {:induction false} PowerOfZero(a: int, k: nat, p: int)
    requires p > 0 && k > 0 && Cong(a, 0, p)
    ensures Cong(0, Pow(a, k), p)
  {
    CongScale(Pow(a, k - 1), a, 0, p);
    assert a * Pow(a, k - 1) == Pow(a, k - 1) * a;
  }

  /** What a modulus that is 3 modulo 4 is answered, prime or not. */
  ghost predicate AnswersPower(a: int, p: int, root: Option<int>)
    requires OddModulus(p)
  {
    && (root.Some? <==> a % p == 0 || Symbol(a, p) == 1)
    && (root.Some? ==> Cong(root.value, Pow(a, (p + 1) / 4), p))
  }

  /** The modulus 15 is not prime: 2 has symbol 1, the answer is 2^4 = 1, and 1 is not 2. */
  lemma FifteenIsNotChecked(root: Option<int>)
    requires AnswersPower(2, 15, root)
    ensures root.Some? && !Cong(root.value * root.value, 2, 15) && !Cong(Pow(2, (15 + 1) / 2), 2, 15)
  {
    SymbolOfTwo(15);
    assert Pow(2, 2) == 4 && Pow(2, 4) == 16 && Pow(2, 8) == 256 by {
      PowTwo(2);
      PowAdd(2, 2, 2);
      PowAdd(2, 4, 4);
    }
    CongMul(root.value, 16, root.value, 16, 15);
  }

  /** Tonelli-Shanks. It returns for every modulus, prime or not. A root it returns squares to a, but for a modulus that is
      3 modulo 4, where nothing is checked and it does exactly if a^((p+1)/2) is a; for an odd prime a root comes back exactly
      when there is one. */
  method TonelliVar(a0: int, p: int) returns (root: Option<int>)
    requires p > 0
    ensures root.Some? ==> 0 <= root.value < p
    ensures root.Some? ==>
      (Cong(root.value * root.value, a0, p) <==> p % 4 != 3 || Cong(Pow(a0, (p + 1) / 2), a0, p))
    ensures p % 4 == 3 ==> AnswersPower(a0, p, root)
    ensures IsPrime(p) ==> (root.Some? <==> HasRoot(a0, p))
    ensures IsPrime(p) && root.Some? ==> Cong(root.value * root.value, a0, p)
  {
    var a := a0 % p;
    ModCong(a0, p);
    RootOfResidue(a0, p);
    if a == 0 || p == 2 {
      assert a * a == a;
      assert Cong(Times(a, a), a, p);
      if p % 4 == 3 {
        PowerOfZero(a0, (p + 1) / 4, p);
        PowerOfZero(a0, (p + 1) / 2, p);
      }
      return Some(a);
    }
    var symbol := LegendreSymbolVar(a, p);
    if IsPrime(p) {
      assert p % 2 == 1;
      SmallMod(a, p);
      SymbolIsLegendre(a, p);
    }
    if p % 4 == 3 { SymbolPeriodic(a, a0, p); }
    if symbol != 1 { return None; }
    var q, s := SplitTwos(p);
    if s == 1 {
      var r := PowMod(a, (p + 1) / 4, p);
      ThreeModFourSquares(a, a0, p, r);
      if IsPrime(p) { ThreeModFourRoot(a, p, r); }
      return Some(r);
    }
    var z := NonResidue(p);
    if z.None? { return None; }
    root := TonelliLoop(a, p, q, s, z.value);
  }

  method TonelliLoop(a: int, p: int, q: nat, s0: nat, z: int) returns (root: Option<int>)
    requires p > 1 && 0 < a < p && q % 2 == 1 && p - 1 == q * Pow2(s0)
    requires IsPrime(p) ==> p % 2 == 1 && s0 >= 1 && Symbol(a, p) == 1 && Symbol(z, p) == -1
    ensures root.Some? ==> 0 <= root.value < p && Cong(root.value * root.value, a, p)
    ensures IsPrime(p) ==> root.Some?
  {
    ghost var prime := IsPrime(p);
    var s := s0;
    var c := PowMod(z, q, p);
    var r := PowMod(a, (q + 1) / 2, p);
    var t := PowMod(a, q, p);
    FirstRoot(a, q, r, t, p);
    if prime {
      EulerSplit(a, q, s, p, t);
      EulerSplit(z, q, s, p, c);
    }
    while t != 1
      invariant 0 <= r < p && 0 <= t < p && Cong(r * r, a * t, p)
      invariant prime ==> Orders(t, c, s, p)
      decreases s
    {
      var i := LowestExponent(t, s, p);
      if i == s {
        NoExponent(t, c, s, p);
        return None;
      }
      var b := PowMod(c, Pow2(s - i - 1), p);
      ghost var r0, c0, t0 := r, c, t;
      r, c := ModTimes(r, b, p), ModTimes(b, b, p);
      t := ModTimes(t, c, p);
      SquareOfProduct(r0, b, a, t0, r, c, t, p);
      if prime { OrdersKept(t0, c0, s, i, b, c, t, p); }
      s := i;
    }
    return Some(r);
  }

  function ModTimes(a: int, b: int, p: int): (r: int)
    requires p > 0
    ensures 0 <= r < p && Cong(r, a * b, p)
  {
    ModCong(a * b, p);
    (a * b) % p
  }

  /** The first quadratic non-residue from 2 on; None only for a modulus that is not an odd prime. */
  method NonResidue(p: int) returns (z: Option<int>)
    requires p > 3
    ensures z.Some? && p % 2 == 1 ==> Symbol(z.value, p) == -1
    ensures IsPrime(p) ==> z.Some?
  {
    var y := 2;
    var symbol := LegendreSymbolVar(y, p);
    while symbol != -1
      invariant 2 <= y < p
      invariant p % 2 == 1 ==> symbol == Symbol(y, p) && forall x :: 2 <= x < y ==> Symbol(x, p) != -1
      decreases p - y
    {
      y := y + 1;
      if y == p {
        if IsPrime(p) {
          NonResidueExists(p);
        }
        return None;
      }
      symbol := LegendreSymbolVar(y, p);
    }
    return Some(y);
  }

  /** The least i in 1..s-1 with t^(2^i) = 1, or s when there is none. */
  method LowestExponent(t: int, s: nat, p: int) returns (i: nat)
    requires p > 1 && 0 <= t < p && t != 1
    ensures i == s || 1 <= i < s
    ensures 1 <= i < s ==> Cong(Pow(t, Pow2(i)), 1, p)
    ensures forall j :: 0 <= j < i ==> !Cong(Pow(t, Pow2(j)), 1, p)
  {
    var t2i := t;
    PowTwo(t);
    SmallMod(1, p);
    SmallMod(t, p);
    i := 1;
    assert Pow2(0) == 1;
    while i < s
      invariant 1 <= i && (i <= s || s == 0)
      invariant 0 <= t2i < p && Cong(t2i, Pow(t, Pow2(i - 1)), p)
      invariant forall j :: 0 <= j < i ==> !Cong(Pow(t, Pow2(j)), 1, p)
    {
      SquarePower(t2i, t, i - 1, p);
      ModCong(t2i * t2i, p);
      t2i := t2i * t2i % p;
      SmallMod(t2i, p);
      if t2i == 1 { return; }
      i := i + 1;
    }
    return s;
  }

  lemma NoExponent(t: int, c: int, s: nat, p: int)
    requires p > 0 && forall j :: 0 <= j < s ==> !Cong(Pow(t, Pow2(j)), 1, p)
    ensures !Orders(t, c, s, p)
  {
    if s >= 1 { assert !Cong(Pow(t, Pow2(s - 1)), 1, p); }
  }

  /** For p = 5 modulo 8 the first candidate squares to a or to -a, and the second corrects the sign. */
  lemma FiveModEightRoots(a: int, p: int, r: int, r2: int)
    requires IsPrime(p) && p % 8 == 5 && Symbol(a, p) == 1
    requires Cong(r, Pow(a, p / 8 + 1), p) && Cong(r2, r * Pow(2, p / 4), p)
    ensures Cong(r * r, a, p) || Cong(r2 * r2, a, p)
  {
    var k, e := p / 4, p / 8 + 1;
    assert e + e == k + 1 && k + k == (p - 1) / 2;
    var y, w := Pow(a, k), Pow(2, k);
    EulerCriterion(a, p);
    PowAdd(a, k, k);
    EulerCriterion(2, p);
    SymbolOfTwo(p);
    PowAdd(2, k, k);
    SquareIs(a, e, k, r, p);
    RootsOfOne(y, p);
    TwoCandidates(a, y, w, r, r2, p);
  }

  /** r is a^e and 2e = k + 1, so r^2 = a*a^k. */
  lemma SquareIs(a: int, e: nat, k: nat, r: int, p: int)
    requires p > 0 && e + e == k + 1 && Cong(r, Pow(a, e), p)
    ensures Cong(r * r, a * Pow(a, k), p)
  {
    CongMul(r, Pow(a, e), r, Pow(a, e), p);
    PowAdd(a, e, e);
  }

  lemma TwoCandidates(a: int, y: int, w: int, r: int, r2: int, p: int)
    requires p > 0 && Cong(r * r, a * y, p) && (Cong(y, 1, p) || Cong(y, -1, p)) && Cong(w * w, -1, p) && Cong(r2, r * w, p)
    ensures Cong(r * r, a, p) || Cong(r2 * r2, a, p)
  {
    if Cong(y, 1, p) {
      CongScale(a, y, 1, p);
    } else {
      CongScale(a, y, -1, p);
      CongMul(r2, r * w, r2, r * w, p);
      SquareTimes(r, w);
      CongMul(r * r, -a, w * w, -1, p);
      assert -a * -1 == a;
    }
  }

  lemma SquareTimes(r: int, w: int)
    ensures (r * w) * (r * w) == (r * r) * (w * w)
  {
    assert (r * w) * (r * w) == r * (w * (r * w));
    assert w * (r * w) == r * (w * w);
  }

  /** A root it returns squares to a for every modulus; for a prime it returns one exactly when a has one. */
  method ModSqrtVar(a0: int, p: int) returns (root: Option<int>)
    requires p > 0
    ensures root.Some? ==> 0 <= root.value < p && Cong(root.value * root.value, a0, p)
    ensures IsPrime(p) ==> (root.Some? <==> HasRoot(a0, p))
  {
    var a := a0 % p;
    ModCong(a0, p);
    RootOfResidue(a0, p);
    var r;
    if p % 4 == 3 {
      r := PowMod(a, p / 4 + 1, p);
      if IsPrime(p) {
        ThreeModFourRoot(a, p, r);
        ResidueRoots(a, p, r);
      }
    } else if p % 8 == 5 {
      r := PowMod(a, p / 8 + 1, p);
      ModCong(r * r, p);
      SmallMod(a, p);
      if r * r % p == a {
        assert Cong(Times(r, r), a, p);
        return Some(r);
      }
      ghost var r1 := r;
      var w := PowMod(2, p / 4, p);
      CongScale(r, w, Pow(2, p / 4), p);
      ModCong(r * w, p);
      r := r * w % p;
      if IsPrime(p) {
        SymbolIsLegendre(a, p);
        if a == 0 {
          ZeroCandidate(p, r1);
        } else if HasRoot(a, p) {
          FiveModEightRoots(a, p, r1, r);
        }
      }
    } else {
      root := TonelliVar(a, p);
      return;
    }
    ModCong(r * r, p);
    SmallMod(a, p);
    if r * r % p != a { return None; }
    assert Cong(Times(r, r), a, p);
    return Some(r);
  }

  lemma ZeroCandidate(p: int, r: int)
    requires p > 1 && 0 <= r < p && Cong(r, Pow(0, p / 8 + 1), p)
    ensures r * r % p == 0
  {
    assert Pow(0, p / 8 + 1) == 0;
    SmallMod(0, p);
    SmallMod(r, p);
  }
}
