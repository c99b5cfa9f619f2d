/** The Jacobi symbol of an odd modulus, and the laws the reciprocity loops rest on.

    The symbol is the sign of the map k -> a*k folded onto 1..(n-1)/2, which Gauss's lemma
    identifies with the Legendre symbol of a prime and which needs no factorisation of n. */
module GaussSymbol {
  import opened Modular
  import opened Permutations

  predicate OddModulus(n: int) { n > 0 && n % 2 == 1 }

  function SignAt(a: int, n: int, k: int): int
    requires n > 0
  {
    if 2 * (Times(a, k) % n) > n then -1 else 1
  }

  function FoldAt(a: int, n: int, k: int): int
    requires n > 0
  {
    var r := Times(a, k) % n;
    if 2 * r > n then n - r else r
  }

  function Signs(a: int, n: int): int -> int
    requires n > 0
  {
    k => SignAt(a, n, k)
  }

  function Folds(a: int, n: int): (s: seq<int>)
    requires OddModulus(n)
    ensures |s| == (n - 1) / 2 && forall i :: 0 <= i < |s| ==> s[i] == FoldAt(a, n, i + 1)
  {
    seq((n - 1) / 2, i => FoldAt(a, n, i + 1))
  }

  /** (a/n): zero unless a is coprime to n, else the sign of folding k -> a*k. */
  ghost function Symbol(a: int, n: int): int
    requires OddModulus(n)
  {
    if Coprime(a, n) then ProdOf(Signs(a, n), Range((n - 1) / 2)) else 0
  }

  function SignOf(x: int): int { if x % 2 == 0 then 1 else -1 }

  // ---- products and sums, term by term

  lemma {:induction false} ProdMatch(f: int -> int, s: seq<int>, g: int -> int, t: seq<int>)
    requires |s| == |t| && forall i :: 0 <= i < |s| ==> f(s[i]) == g(t[i])
    ensures ProdOf(f, s) == ProdOf(g, t) && SumOf(f, s) == SumOf(g, t)
  {
    if s != [] { ProdMatch(f, s[1..], g, t[1..]); }
  }

  lemma {:induction false} ProdTimes(f: int -> int, g: int -> int, h: int -> int, s: seq<int>)
    requires forall i :: 0 <= i < |s| ==> h(s[i]) == f(s[i]) * g(s[i])
    ensures ProdOf(h, s) == ProdOf(f, s) * ProdOf(g, s)
  {
    if s != [] {
      ProdTimes(f, g, h, s[1..]);
      var x, y, u, v := f(s[0]), g(s[0]), ProdOf(f, s[1..]), ProdOf(g, s[1..]);
      assert (x * y) * (u * v) == (x * u) * (y * v);
    }
  }

  lemma {:induction false} ProdCong(f: int -> int, g: int -> int, s: seq<int>, m: int)
    requires m > 0 && forall i :: 0 <= i < |s| ==> Cong(f(s[i]), g(s[i]), m)
    ensures Cong(ProdOf(f, s), ProdOf(g, s), m)
  {
    if s != [] {
      ProdCong(f, g, s[1..], m);
      CongMul(f(s[0]), g(s[0]), ProdOf(f, s[1..]), ProdOf(g, s[1..]), m);
    }
  }

  lemma {:induction false} ProdScale(a: int, f: int -> int, s: seq<int>)
    ensures ProdOf(x => a * f(x), s) == Pow(a, |s|) * ProdOf(f, s)
  {
    if s != [] {
      ProdScale(a, f, s[1..]);
      var x, u, v := f(s[0]), Pow(a, |s| - 1), ProdOf(f, s[1..]);
      assert (a * x) * (u * v) == (a * u) * (x * v);
    }
  }

  lemma {:induction false} SumLast(f: int -> int, h: nat)
    requires h > 0
    ensures SumOf(f, Range(h)) == SumOf(f, Range(h - 1)) + f(h)
  {
    SumAppend(f, Range(h - 1), h);
    assert Range(h) == Range(h - 1) + [h];
  }

  lemma {:induction false} SumAppend(f: int -> int, s: seq<int>, x: int)
    ensures SumOf(f, s + [x]) == SumOf(f, s) + f(x)
  {
    if s == [] {
      assert s + [x] == [x];
    } else {
      assert (s + [x])[1..] == s[1..] + [x];
      SumAppend(f, s[1..], x);
    }
  }

  // ---- folding

  lemma FoldCong(a: int, n: int, k: int)
    requires n > 0
    ensures Cong(a * k, SignAt(a, n, k) * FoldAt(a, n, k), n)
  {
    var r := (a * k) % n;
    ModCong(a * k, n);
    if 2 * r > n {
      assert (-1) * (n - r) == r + (-1) * n;
      CongStep(r, -1, n);
    }
  }

  /** A residue has one signed representative in 1..(n-1)/2. */
  lemma FoldUnique(n: int, e: int, u: int, e': int, u': int)
    requires OddModulus(n) && (e == 1 || e == -1) && (e' == 1 || e' == -1)
    requires 1 <= u <= (n - 1) / 2 && 1 <= u' <= (n - 1) / 2
    requires Cong(e * u, e' * u', n)
    ensures e == e' && u == u'
  {
    var k := CongWitness(e * u, e' * u', n);
    var d := e * u - e' * u';
    assert -n < d < n;
    MulBelow(k, 1, n);
    MulBelow(-1, k, n);
  }

  lemma FoldInRange(a: int, n: int, k: int)
    requires OddModulus(n) && Coprime(a, n) && 1 <= k <= (n - 1) / 2
    ensures 1 <= FoldAt(a, n, k) <= (n - 1) / 2
  {
    var r := (a * k) % n;
    if r == 0 {
      CoprimeCancel(a, k, 0, n);
      SmallMod(k, n);
      SmallMod(0, n);
    }
  }

  lemma CoprimeCancel(a: int, k: int, l: int, n: int)
    requires n > 0 && Coprime(a, n) && Cong(a * k, a * l, n)
    ensures Cong(k, l, n)
  {
    var x, y :| Times(a, x) + Times(n, y) == 1;
    CongScale(x, a * k, a * l, n);
    BezoutTimes(a, x, n, y, k);
    BezoutTimes(a, x, n, y, l);
  }

  lemma BezoutTimes(a: int, x: int, n: int, y: int, k: int)
    requires n > 0 && a * x + n * y == 1
    ensures Cong(x * (a * k), k, n)
  {
    assert x * (a * k) == (a * x) * k;
    assert (1 - n * y) * k == k + (-y * k) * n;
    CongStep(k, -y * k, n);
  }

  lemma FoldInjective(a: int, n: int, k: int, l: int)
    requires OddModulus(n) && Coprime(a, n)
    requires 1 <= k <= (n - 1) / 2 && 1 <= l <= (n - 1) / 2
    requires FoldAt(a, n, k) == FoldAt(a, n, l)
    ensures k == l
  {
    FoldCong(a, n, k);
    FoldCong(a, n, l);
    if SignAt(a, n, k) == SignAt(a, n, l) {
      CoprimeCancel(a, k, l, n);
      FoldUnique(n, 1, k, 1, l);
    } else {
      CongNeg(a * l, SignAt(a, n, l) * FoldAt(a, n, l), n);
      assert -(SignAt(a, n, l) * FoldAt(a, n, l)) == SignAt(a, n, k) * FoldAt(a, n, k);
      assert -(a * l) == a * (-l);
      CoprimeCancel(a, k, -l, n);
      FoldUnique(n, 1, k, -1, l);
    }
  }

  lemma FoldsPermute(a: int, n: int)
    requires OddModulus(n) && Coprime(a, n)
    ensures IsPermutation(Folds(a, n), (n - 1) / 2)
  {
    var s := Folds(a, n);
    forall i | 0 <= i < |s| ensures 1 <= s[i] <= (n - 1) / 2 {
      FoldInRange(a, n, i + 1);
    }
    forall i, j | 0 <= i < j < |s| ensures s[i] != s[j] {
      if s[i] == s[j] { FoldInjective(a, n, i + 1, j + 1); }
    }
  }

  // ---- first laws

  lemma {:induction false} SignsProduct(a: int, n: int, s: seq<int>)
    requires n > 0
    ensures ProdOf(Signs(a, n), s) == 1 || ProdOf(Signs(a, n), s) == -1
  {
    if s != [] { SignsProduct(a, n, s[1..]); }
  }

  lemma SymbolRange(a: int, n: int)
    requires OddModulus(n)
    ensures Symbol(a, n) == if Coprime(a, n) then ProdOf(Signs(a, n), Range((n - 1) / 2)) else 0
    ensures Symbol(a, n) == 0 <==> !Coprime(a, n)
    ensures Symbol(a, n) in {-1, 0, 1}
  {
    SignsProduct(a, n, Range((n - 1) / 2));
  }

  lemma CoprimeCong(a: int, b: int, n: int)
    requires n > 0 && Cong(a, b, n) && Coprime(a, n)
    ensures Coprime(b, n)
  {
    var x, y :| Times(a, x) + Times(n, y) == 1;
    var k := CongWitness(a, b, n);
    assert (b + k * n) * x + n * y == b * x + n * (k * x + y);
    assert Times(b, x) + Times(n, k * x + y) == 1;
  }

  /** The symbol depends on the residue of a alone. */
  lemma SymbolPeriodic(a: int, b: int, n: int)
    requires OddModulus(n) && Cong(a, b, n)
    ensures Symbol(a, n) == Symbol(b, n)
  {
    if Coprime(a, n) { CoprimeCong(a, b, n); }
    if Coprime(b, n) { CoprimeCong(b, a, n); }
    var s := Range((n - 1) / 2);
    forall i | 0 <= i < |s| ensures SignAt(a, n, s[i]) == SignAt(b, n, s[i]) {
      CongMul(a, b, s[i], s[i], n);
    }
    ProdMatch(Signs(a, n), s, Signs(b, n), s);
  }

  lemma CoprimeProduct(a: int, b: int, n: int)
    requires n > 0
    ensures Coprime(a * b, n) <==> Coprime(a, n) && Coprime(b, n)
  {
    if Coprime(a * b, n) {
      var x, y :| Times(a * b, x) + Times(n, y) == 1;
      assert (a * b) * x == a * (b * x) == b * (a * x);
      assert Times(a, b * x) + Times(n, y) == 1;
      assert Times(b, a * x) + Times(n, y) == 1;
    }
    if Coprime(a, n) && Coprime(b, n) {
      var x, y :| Times(a, x) + Times(n, y) == 1;
      var u, v :| Times(b, u) + Times(n, v) == 1;
      var w := BezoutProduct(a, x, b, u, n, y, v);
      assert Times(a * b, x * u) + Times(n, w) == 1;
    }
  }

  lemma BezoutProduct(a: int, x: int, b: int, u: int, n: int, y: int, v: int) returns (w: int)
    requires a * x + n * y == 1 && b * u + n * v == 1
    ensures (a * b) * (x * u) + n * w == 1
  {
    var ax, bu := a * x, b * u;
    w := ax * v + y * bu + y * (n * v);
    assert (ax + n * y) * (bu + n * v) == ax * bu + n * (ax * v + y * bu + y * (n * v));
    assert ax * bu == (a * b) * (x * u) by { FourFactors(a, b, x, u); }
  }

  lemma SignTimes(a: int, b: int, n: int, k: int)
    requires OddModulus(n) && Coprime(a, n) && Coprime(b, n) && 1 <= k <= (n - 1) / 2
    ensures SignAt(a * b, n, k) == SignAt(b, n, k) * SignAt(a, n, FoldAt(b, n, k))
  {
    var e, u := SignAt(b, n, k), FoldAt(b, n, k);
    var d, v := SignAt(a, n, u), FoldAt(a, n, u);
    FoldInRange(b, n, k);
    FoldInRange(a, n, u);
    FoldCong(b, n, k);
    FoldCong(a, n, u);
    FoldTwice(a, b, k, e, u, d, v, n);
    FoldCong(a * b, n, k);
    CoprimeProduct(a, b, n);
    FoldInRange(a * b, n, k);
    FoldUnique(n, SignAt(a * b, n, k), FoldAt(a * b, n, k), e * d, v);
  }

  lemma FoldTwice(a: int, b: int, k: int, e: int, u: int, d: int, v: int, n: int)
    requires n > 0 && Cong(b * k, e * u, n) && Cong(a * u, d * v, n)
    ensures Cong((a * b) * k, (e * d) * v, n)
  {
    CongScale(a, b * k, e * u, n);
    CongScale(e, a * u, d * v, n);
    assert a * (e * u) == e * (a * u) && e * (d * v) == (e * d) * v && a * (b * k) == (a * b) * k;
  }

  function FoldedSigns(a: int, b: int, n: int): int -> int
    requires n > 0
  {
    k => SignAt(a, n, FoldAt(b, n, k))
  }

  lemma SignsOfProduct(a: int, b: int, n: int)
    requires OddModulus(n) && Coprime(a, n) && Coprime(b, n)
    ensures ProdOf(Signs(a * b, n), Range((n - 1) / 2))
         == ProdOf(Signs(b, n), Range((n - 1) / 2)) * ProdOf(FoldedSigns(a, b, n), Range((n - 1) / 2))
  {
    var s := Range((n - 1) / 2);
    var c := a * b;
    forall i | 0 <= i < |s| ensures Signs(c, n)(s[i]) == Signs(b, n)(s[i]) * FoldedSigns(a, b, n)(s[i]) {
      SignTimes(a, b, n, s[i]);
    }
    ProdTimes(Signs(b, n), FoldedSigns(a, b, n), Signs(c, n), s);
  }

  lemma FoldedSignsProduct(a: int, b: int, n: int)
    requires OddModulus(n) && Coprime(b, n)
    ensures ProdOf(FoldedSigns(a, b, n), Range((n - 1) / 2)) == ProdOf(Signs(a, n), Range((n - 1) / 2))
  {
    ProdMatch(FoldedSigns(a, b, n), Range((n - 1) / 2), Signs(a, n), Folds(b, n));
    FoldsPermute(b, n);
    Reindex(Signs(a, n), Folds(b, n), (n - 1) / 2);
  }

  /** (ab/n) = (a/n)(b/n). */
  lemma SymbolMultiplicative(a: int, b: int, n: int)
    requires OddModulus(n)
    ensures Symbol(a * b, n) == Symbol(a, n) * Symbol(b, n)
  {
    CoprimeProduct(a, b, n);
    if Coprime(a, n) && Coprime(b, n) {
      SignsMultiply(a, b, n);
    }
  }

  lemma SignsMultiply(a: int, b: int, n: int)
    requires OddModulus(n) && Coprime(a, n) && Coprime(b, n)
    ensures ProdOf(Signs(a * b, n), Range((n - 1) / 2))
         == ProdOf(Signs(a, n), Range((n - 1) / 2)) * ProdOf(Signs(b, n), Range((n - 1) / 2))
  {
    SignsOfProduct(a, b, n);
    FoldedSignsProduct(a, b, n);
  }

  // ---- Gauss's lemma

  function Identity(): int -> int { k => k }

  function FoldFunction(a: int, n: int): int -> int
    requires n > 0
  {
    k => FoldAt(a, n, k)
  }

  lemma {:induction false} ProdUnit(p: int, s: seq<int>)
    requires IsPrime(p) && forall i :: 0 <= i < |s| ==> 1 <= s[i] < p
    ensures ProdOf(Identity(), s) % p != 0
  {
    if s == [] {
      SmallMod(1, p);
    } else {
      ProdUnit(p, s[1..]);
      SmallMod(s[0], p);
      var rest := ProdOf(Identity(), s[1..]);
      if (s[0] * rest) % p == 0 { PrimeDividesProduct(s[0], rest, p); }
    }
  }

  lemma FoldsMultiply(a: int, n: int)
    requires OddModulus(n) && Coprime(a, n)
    ensures ProdOf(FoldFunction(a, n), Range((n - 1) / 2)) == ProdOf(Identity(), Range((n - 1) / 2))
    ensures SumOf(FoldFunction(a, n), Range((n - 1) / 2)) == SumOf(Identity(), Range((n - 1) / 2))
  {
    ProdMatch(FoldFunction(a, n), Range((n - 1) / 2), Identity(), Folds(a, n));
    FoldsPermute(a, n);
    Reindex(Identity(), Folds(a, n), (n - 1) / 2);
  }

  /** Multiplying every k by a multiplies the product by a^h, and by the signs up to congruence. */
  lemma {:induction false} ScaledProduct(a: int, n: int, s: seq<int>)
    requires n > 0
    ensures Cong(Pow(a, |s|) * ProdOf(Identity(), s), ProdOf(Signs(a, n), s) * ProdOf(FoldFunction(a, n), s), n)
  {
    if s != [] {
      var k := s[0];
      ScaledProduct(a, n, s[1..]);
      FoldCong(a, n, k);
      GatherFactors(a, k, SignAt(a, n, k), FoldAt(a, n, k), Pow(a, |s| - 1), ProdOf(Identity(), s[1..]),
        ProdOf(Signs(a, n), s[1..]), ProdOf(FoldFunction(a, n), s[1..]), n);
    }
  }

  lemma GatherFactors(a: int, k: int, d: int, e: int, u: int, v: int, x: int, y: int, n: int)
    requires n > 0 && Cong(a * k, d * e, n) && Cong(u * v, x * y, n)
    ensures Cong((a * u) * (k * v), (d * x) * (e * y), n)
  {
    CongMul(a * k, d * e, u * v, x * y, n);
    FourFactors(a, k, u, v);
    FourFactors(d, e, x, y);
  }

  lemma FourFactors(a: int, k: int, u: int, v: int)
    ensures (a * u) * (k * v) == (a * k) * (u * v)
  {
    assert (a * u) * (k * v) == a * (u * (k * v));
    assert u * (k * v) == k * (u * v);
    assert a * (k * (u * v)) == (a * k) * (u * v);
  }

  /** Gauss's lemma: modulo a prime the symbol is Euler's power. */
  lemma EulerCriterion(a: int, p: int)
    requires IsPrime(p) && p % 2 == 1
    ensures Cong(Pow(a, (p - 1) / 2), Symbol(a, p), p)
  {
    var h := (p - 1) / 2;
    if a % p == 0 {
      NotCoprimeMultiple(a, p);
      ModCong(a, p);
      PowCong(a, 0, h, p);
      assert Pow(0, h) == 0;
    } else {
      PrimeCoprime(a, p);
      EulerPower(a, p, h);
    }
  }

  lemma EulerPower(a: int, p: int, h: nat)
    requires IsPrime(p) && p % 2 == 1 && h == (p - 1) / 2 && Coprime(a, p)
    ensures Cong(Pow(a, h), ProdOf(Signs(a, p), Range(h)), p)
  {
    ScaledProduct(a, p, Range(h));
    FoldsMultiply(a, p);
    ProdUnit(p, Range(h));
    CancelLast(Pow(a, h), ProdOf(Signs(a, p), Range(h)), ProdOf(Identity(), Range(h)), p);
  }

  lemma CancelLast(e: int, x: int, u: int, p: int)
    requires IsPrime(p) && u % p != 0 && Cong(e * u, x * u, p)
    ensures Cong(e, x, p)
  {
    assert e * u == u * e && x * u == u * x;
    CancelFactor(u, e, x, p);
  }

  lemma NotCoprimeMultiple(a: int, p: int)
    requires p > 1 && a % p == 0
    ensures !Coprime(a, p)
  {
    if Coprime(a, p) {
      var x, y :| Times(a, x) + Times(p, y) == 1;
      DividesMod(p, a);
      assert Divides(p, p) by { assert Times(p, 1) == p; }
      DividesCombination(p, a, p, x, y);
      DividesMod(p, 1);
      SmallMod(1, p);
    }
  }

  /** Fermat's little theorem. */
  lemma Fermat(a: int, p: int)
    requires IsPrime(p) && p % 2 == 1 && a % p != 0
    ensures Cong(Pow(a, p - 1), 1, p)
  {
    var h := (p - 1) / 2;
    EulerCriterion(a, p);
    PrimeCoprime(a, p);
    SymbolRange(a, p);
    PowCong(Pow(a, h), Symbol(a, p), 2, p);
    PowTwo(Symbol(a, p));
    PowMul(a, h, 2);
    assert h * 2 == p - 1;
  }

  // ---- quadratic reciprocity

  function NegAt(a: int, n: int, k: int): int
    requires n > 0
  {
    if 2 * (Times(a, k) % n) > n then 1 else 0
  }

  function Negs(a: int, n: int): int -> int
    requires n > 0
  {
    k => NegAt(a, n, k)
  }

  function Quotients(a: int, n: int): int -> int
    requires n > 0
  {
    k => Times(a, k) / n
  }

  lemma {:induction false} SignsParity(a: int, n: int, s: seq<int>)
    requires n > 0
    ensures ProdOf(Signs(a, n), s) == SignOf(SumOf(Negs(a, n), s))
  {
    if s != [] { SignsParity(a, n, s[1..]); }
  }

  lemma ParityAt(a: int, n: int, k: int)
    requires OddModulus(n) && a % 2 == 1
    ensures (Quotients(a, n)(k) + FoldFunction(a, n)(k) + Negs(a, n)(k) - Identity()(k)) % 2 == 0
  {
    var q, r := Times(a, k) / n, Times(a, k) % n;
    assert a * k == n * q + r;
    ParityOf(a, n, k, q, r);
  }

  lemma ParityOf(a: int, n: int, k: int, q: int, r: int)
    requires a % 2 == 1 && n % 2 == 1 && a * k == n * q + r
    ensures (q + r - k) % 2 == 0 && (q + (n - r) + 1 - k) % 2 == 0
  {
    var c, d := a / 2, n / 2;
    assert (2 * c + 1) * k == 2 * (c * k) + k;
    assert (2 * d + 1) * q == 2 * (d * q) + q;
    EvenDifference(q, r, k, n, c * k - d * q, d);
  }

  lemma EvenDifference(q: int, r: int, k: int, n: int, e: int, d: int)
    requires q + r - k == 2 * e && n == 2 * d + 1
    ensures (q + r - k) % 2 == 0 && (q + (n - r) + 1 - k) % 2 == 0
  {
    assert q + (n - r) + 1 - k == 2 * (e + d + 1 - r);
  }

  lemma {:induction false} SumParity(f: int -> int, g: int -> int, h: int -> int, id: int -> int, s: seq<int>)
    requires forall i :: 0 <= i < |s| ==> (f(s[i]) + g(s[i]) + h(s[i]) - id(s[i])) % 2 == 0
    ensures (SumOf(f, s) + SumOf(g, s) + SumOf(h, s) - SumOf(id, s)) % 2 == 0
  {
    if s != [] { SumParity(f, g, h, id, s[1..]); }
  }

  /** Eisenstein's lemma: for odd a the sign is the parity of a sum of quotients. */
  lemma QuotientParity(a: int, n: int)
    requires OddModulus(n) && a % 2 == 1 && Coprime(a, n)
    ensures Symbol(a, n) == SignOf(SumOf(Quotients(a, n), Range((n - 1) / 2)))
  {
    SumsAgree(a, n, Range((n - 1) / 2));
    SignsParity(a, n, Range((n - 1) / 2));
  }

  lemma EvenSum(q: int, f: int, g: int)
    requires (q + f + g - f) % 2 == 0
    ensures SignOf(q) == SignOf(g)
  {
  }

  lemma SumsAgree(a: int, n: int, s: seq<int>)
    requires OddModulus(n) && a % 2 == 1 && Coprime(a, n) && s == Range((n - 1) / 2)
    ensures SignOf(SumOf(Quotients(a, n), s)) == SignOf(SumOf(Negs(a, n), s))
  {
    forall i {:trigger s[i]} | 0 <= i < |s|
      ensures (Quotients(a, n)(s[i]) + FoldFunction(a, n)(s[i]) + Negs(a, n)(s[i]) - Identity()(s[i])) % 2 == 0
    {
      ParityAt(a, n, s[i]);
    }
    SumParity(Quotients(a, n), FoldFunction(a, n), Negs(a, n), Identity(), s);
    FoldsMultiply(a, n);
    EvenSum(SumOf(Quotients(a, n), s), SumOf(Identity(), s), SumOf(Negs(a, n), s));
  }

  /** How many j in 1..J have n*j <= x. */
  function CountUpTo(n: int, x: int, J: nat): int {
    if J == 0 then 0 else CountUpTo(n, x, J - 1) + (if n * J <= x then 1 else 0)
  }

  /** How many k in 1..K have m*k < x. */
  function CountBelow(m: int, x: int, K: nat): int {
    if K == 0 then 0 else CountBelow(m, x, K - 1) + (if m * K < x then 1 else 0)
  }

  lemma BelowQuotient(n: int, x: int, j: int, q: int, r: int)
    requires n > 0 && x == n * q + r && 0 <= r < n
    ensures n * j <= x <==> j <= q
  {
    if j <= q {
      assert n * (q - j) >= 0;
      assert n * (q - j) == n * q - n * j;
    } else {
      assert n * (j - q - 1) >= 0;
      assert n * (j - q - 1) == n * j - n * q - n;
    }
  }

  lemma {:induction false} CountIsQuotient(n: int, x: int, J: nat)
    requires n > 0 && x / n >= 0
    ensures CountUpTo(n, x, J) == if x / n <= J then x / n else J
  {
    if J != 0 {
      CountIsQuotient(n, x, J - 1);
      BelowQuotient(n, x, J, x / n, x % n);
    }
  }

  lemma {:induction false} CountStrict(m: int, x: int, K: nat)
    requires forall k :: 1 <= k <= K ==> Times(m, k) != x
    ensures CountBelow(m, x, K) == CountUpTo(m, x, K)
  {
    if K != 0 {
      assert Times(m, K) != x;
      CountStrict(m, x, K - 1);
    }
  }

  function Rows(m: int, n: int, K: nat, J: nat): int {
    if K == 0 then 0 else Rows(m, n, K - 1, J) + CountUpTo(n, m * K, J)
  }

  function Columns(m: int, n: int, K: nat, J: nat): int {
    if J == 0 then 0 else Columns(m, n, K, J - 1) + CountBelow(m, n * J, K)
  }

  lemma {:induction false} ColumnsGrow(m: int, n: int, K: nat, J: nat)
    requires K > 0
    ensures Columns(m, n, K, J) == Columns(m, n, K - 1, J) + J - CountUpTo(n, m * K, J)
  {
    if J != 0 { ColumnsGrow(m, n, K, J - 1); }
  }

  /** Every point of the K by J grid is on one side of the diagonal. */
  lemma {:induction false} GridPoints(m: int, n: int, K: nat, J: nat)
    ensures Rows(m, n, K, J) + Columns(m, n, K, J) == K * J
  {
    if K == 0 {
      ColumnsEmpty(m, n, J);
    } else {
      GridPoints(m, n, K - 1, J);
      ColumnsGrow(m, n, K, J);
      assert (K - 1) * J + J == K * J;
    }
  }

  lemma {:induction false} ColumnsEmpty(m: int, n: int, J: nat)
    ensures Columns(m, n, 0, J) == 0
  {
    if J != 0 { ColumnsEmpty(m, n, J - 1); }
  }

  /** For k in the lower half of the modulus the quotient stays in the lower half. */
  lemma QuotientBound(m: int, n: int, k: int)
    requires OddModulus(m) && OddModulus(n) && 1 <= k <= (n - 1) / 2
    ensures 0 <= (m * k) / n <= (m - 1) / 2
  {
    var q, r := (m * k) / n, (m * k) % n;
    assert m * k == q * n + r;
    ProductMonotone(0, k, m);
    QuotientNatural(q, n, r);
    HalfBound(m, n, k, q);
  }

  lemma HalfBound(m: int, n: int, k: int, q: int)
    requires m > 0 && n > 0 && 2 * k <= n - 1 && q * n <= m * k
    ensures 2 * q <= m - 1
  {
    ProductMonotone(2 * k, n - 1, m);
    assert m * (n - 1) == m * n - m && m * (2 * k) == 2 * (m * k);
    assert (2 * q) * n == 2 * (q * n);
    MulBelow(2 * q, m, n);
  }

  lemma {:induction false} RowsSum(m: int, n: int, K: nat)
    requires OddModulus(m) && OddModulus(n) && K <= (n - 1) / 2
    ensures Rows(m, n, K, (m - 1) / 2) == SumOf(Quotients(m, n), Range(K))
  {
    if K != 0 {
      RowsSum(m, n, K - 1);
      SumLast(Quotients(m, n), K);
      QuotientBound(m, n, K);
      CountIsQuotient(n, m * K, (m - 1) / 2);
    }
  }

  lemma {:induction false} ColumnsSum(m: int, n: int, J: nat)
    requires OddModulus(m) && OddModulus(n) && Coprime(m, n) && J <= (m - 1) / 2
    ensures Columns(m, n, (n - 1) / 2, J) == SumOf(Quotients(n, m), Range(J))
  {
    if J != 0 {
      ColumnsSum(m, n, J - 1);
      SumLast(Quotients(n, m), J);
      QuotientBound(n, m, J);
      forall k | 1 <= k <= (n - 1) / 2 ensures Times(m, k) != n * J {
        NoDiagonal(m, n, k, J);
      }
      CountStrict(m, n * J, (n - 1) / 2);
      CountIsQuotient(m, n * J, (n - 1) / 2);
    }
  }

  lemma NoDiagonal(m: int, n: int, k: int, j: int)
    requires OddModulus(n) && Coprime(m, n) && 1 <= k <= (n - 1) / 2
    ensures m * k != n * j
  {
    if m * k == n * j {
      CongFrom(m * k, m * 0, j, n);
      CoprimeCancel(m, k, 0, n);
      SmallMod(k, n);
      SmallMod(0, n);
    }
  }

  lemma SignOfSum(x: int, y: int)
    ensures SignOf(x) * SignOf(y) == SignOf(x + y)
  {
  }

  lemma CoprimeSymmetric(m: int, n: int)
    requires Coprime(m, n)
    ensures Coprime(n, m)
  {
    var x, y :| Times(m, x) + Times(n, y) == 1;
    assert Times(n, y) + Times(m, x) == 1;
  }

  /** Quadratic reciprocity for odd coprime moduli, prime or not. */
  lemma Reciprocity(m: int, n: int)
    requires OddModulus(m) && OddModulus(n) && Coprime(m, n)
    ensures Symbol(m, n) * Symbol(n, m) == SignOf(((m - 1) / 2) * ((n - 1) / 2))
  {
    var K, J := (n - 1) / 2, (m - 1) / 2;
    CoprimeSymmetric(m, n);
    QuotientParity(m, n);
    QuotientParity(n, m);
    RowsSum(m, n, K);
    ColumnsSum(m, n, J);
    GridPoints(m, n, K, J);
    SignOfSum(Rows(m, n, K, J), Columns(m, n, K, J));
    assert K * J == J * K;
  }

  /** The product of (m-1)/2 and (n-1)/2 is odd exactly when both moduli are 3 modulo 4. */
  lemma HalvesParity(m: int, n: int)
    requires OddModulus(m) && OddModulus(n)
    ensures SignOf(((m - 1) / 2) * ((n - 1) / 2)) == if m % 4 == 3 && n % 4 == 3 then -1 else 1
  {
    ProductParity((m - 1) / 2, (n - 1) / 2);
    HalfParity(m);
    HalfParity(n);
  }

  lemma HalfParity(m: int)
    requires OddModulus(m)
    ensures m % 4 == 3 <==> ((m - 1) / 2) % 2 == 1
  {
  }

  lemma ProductParity(J: int, K: int)
    ensures (J * K) % 2 == 1 <==> J % 2 == 1 && K % 2 == 1
  {
    var c, d := J / 2, K / 2;
    if J % 2 == 0 {
      assert (2 * c) * K == 2 * (c * K);
    } else if K % 2 == 0 {
      assert J * (2 * d) == 2 * (J * d);
    } else {
      assert (2 * c + 1) * (2 * d + 1) == 2 * (2 * (c * d) + c + d) + 1;
    }
  }

  /** Swapping the operands of the symbol, as the loops do. */
  lemma Swap(m: int, n: int)
    requires OddModulus(m) && OddModulus(n)
    ensures Symbol(m, n) == (if m % 4 == 3 && n % 4 == 3 then -1 else 1) * Symbol(n, m)
  {
    if Coprime(m, n) {
      CoprimeSymmetric(m, n);
      Reciprocity(m, n);
      HalvesParity(m, n);
      SymbolRange(m, n);
      SymbolRange(n, m);
    } else if Coprime(n, m) {
      CoprimeSymmetric(n, m);
    }
  }

  lemma {:induction false} NegCount(n: int, h: nat)
    requires OddModulus(n) && h <= (n - 1) / 2
    ensures SumOf(Negs(2, n), Range(h)) == h - CountUpTo(4, n, h)
  {
    if h != 0 {
      NegCount(n, h - 1);
      SumLast(Negs(2, n), h);
      SmallMod(2 * h, n);
    }
  }

  /** The second supplementary law. */
  lemma SymbolOfTwo(n: int)
    requires OddModulus(n)
    ensures Symbol(2, n) == TwoSign(n)
  {
    EighthsOf(n);
    SymbolOfTwoCount(n, (n - 1) / 2);
  }

  lemma EighthsOf(n: int)
    requires OddModulus(n)
    ensures n / 4 <= (n - 1) / 2 && SignOf((n - 1) / 2 - n / 4) == TwoSign(n)
  {
    OddClass(n, n / 8, n % 8);
    EighthsParity(n, n / 8, n % 8);
  }

  lemma OddClass(n: int, t: int, r: int)
    requires n == 8 * t + r && 0 <= r < 8 && n % 2 == 1
    ensures r == 1 || r == 3 || r == 5 || r == 7
  {
    var j := n / 2 - 4 * t;
    assert n == 2 * (n / 2) + 1;
    assert r == 2 * j + 1 && 0 <= j <= 3;
  }

  /** -1 when n is 3 or 5 modulo 8. */
  function TwoSign(n: int): int { if n % 8 == 3 || n % 8 == 5 then -1 else 1 }

  lemma SymbolOfTwoCount(n: int, h: int)
    requires OddModulus(n) && h == (n - 1) / 2
    ensures Symbol(2, n) == SignOf(h - n / 4)
  {
    TwoIsCoprime(n, h);
    SignsParity(2, n, Range(h));
    NegCount(n, h);
    CountIsQuotient(4, n, h);
  }

  lemma TwoIsCoprime(n: int, h: int)
    requires n == 2 * h + 1
    ensures Coprime(2, n)
  {
    assert Times(2, -h) + Times(n, 1) == 1;
  }

  lemma EighthsParity(n: int, t: int, r: int)
    requires n > 0 && n == 8 * t + r && (r == 1 || r == 3 || r == 5 || r == 7)
    ensures n / 4 <= (n - 1) / 2 && SignOf((n - 1) / 2 - n / 4) == (if r == 3 || r == 5 then -1 else 1)
  {
    var e := if r == 1 then 0 else if r == 7 then 2 else 1;
    EighthsOfClass(n, t, r);
    SignOfEven(t, e);
  }

  lemma EighthsOfClass(n: int, t: int, r: int)
    requires n > 0 && n == 8 * t + r && (r == 1 || r == 3 || r == 5 || r == 7)
    ensures (n - 1) / 2 - n / 4 == 2 * t + (if r == 1 then 0 else if r == 7 then 2 else 1)
    ensures t >= 0
  {
    assert n / 4 == 2 * t + (if r >= 5 then 1 else 0);
    assert (n - 1) / 2 == 4 * t + (r - 1) / 2;
  }

  lemma SignOfEven(t: int, e: int)
    ensures SignOf(2 * t + e) == SignOf(e)
  {
  }

  lemma {:induction false} SymbolOfPower(t: nat, n: int)
    requires OddModulus(n)
    ensures Symbol(Pow2(t), n) == TwosSign(t, n)
  {
    if t == 0 {
      SymbolOfOne(n);
    } else {
      SymbolOfPower(t - 1, n);
      SymbolOfDouble(Pow2(t - 1), n);
      SignStep(t, n);
    }
  }

  lemma SymbolOfDouble(x: int, n: int)
    requires OddModulus(n)
    ensures Symbol(2 * x, n) == TwoSign(n) * Symbol(x, n)
  {
    SymbolMultiplicative(2, x, n);
    SymbolOfTwo(n);
  }

  lemma SignStep(t: nat, n: int)
    requires t > 0
    ensures TwoSign(n) * TwosSign(t - 1, n) == TwosSign(t, n)
  {
    SignProduct(TwoSign(n), TwosSign(t - 1, n));
  }

  /** The sign t factors of two carry. */
  function TwosSign(t: nat, n: int): int { if t % 2 == 1 then TwoSign(n) else 1 }

  lemma SignProduct(x: int, y: int)
    requires x in {-1, 1} && y in {-1, 1}
    ensures x * y == if x == y then 1 else -1
  {
  }

  lemma SymbolOfOne(n: int)
    requires OddModulus(n)
    ensures Symbol(1, n) == 1
  {
    assert Times(1, 1) + Times(n, 0) == 1;
    SymbolMultiplicative(1, 1, n);
    SymbolRange(1, n);
  }
}
