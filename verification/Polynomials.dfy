/** Polynomials with integer coefficients, lowest first, and their roots modulo a prime. */
module Polynomials {
  import opened Modular

  function Eval(c: seq<int>, x: int): int {
    if c == [] then 0 else c[0] + x * Eval(c[1..], x)
  }

  /** The quotient of c by X - r. */
  function Quotient(c: seq<int>, r: int): (q: seq<int>)
    ensures |q| == if |c| == 0 then 0 else |c| - 1
    ensures |c| >= 2 ==> q[|q| - 1] == c[|c| - 1]
  {
    if |c| <= 1 then []
    else if |c| == 2 then
      assert Eval(c[1..][1..], r) == 0;
      [Eval(c[1..], r)]
    else [Eval(c[1..], r)] + Quotient(c[1..], r)
  }

  lemma {:induction false} Division(c: seq<int>, r: int, x: int)
    ensures Eval(c, x) - Eval(c, r) == (x - r) * Eval(Quotient(c, r), x)
  {
    if |c| <= 1 {
      ConstantEval(c, r, x);
    } else {
      var d := c[1..];
      Division(d, r, x);
      QuotientEval(c, r, x);
      DivisionStep(x, r, c[0], Eval(d, x), Eval(d, r), Eval(Quotient(d, r), x), Eval(c, x), Eval(c, r), Eval(Quotient(c, r), x));
    }
  }

  lemma ConstantEval(c: seq<int>, r: int, x: int)
    requires |c| <= 1
    ensures Eval(c, x) - Eval(c, r) == 0 == (x - r) * Eval(Quotient(c, r), x)
  {
    assert c == [] || c[1..] == [];
    assert Eval(Quotient(c, r), x) == 0;
  }

  lemma DivisionStep(x: int, r: int, c0: int, dx: int, dr: int, q: int, cx: int, cr: int, cq: int)
    requires dx - dr == (x - r) * q && cx == c0 + x * dx && cr == c0 + r * dr && cq == dr + x * q
    ensures cx - cr == (x - r) * cq
  {
    var d := x - r;
    assert x * dx - r * dr == x * (dx - dr) + d * dr;
    assert x * (d * q) == d * (x * q);
    assert d * (dr + x * q) == d * dr + d * (x * q);
  }

  lemma QuotientEval(c: seq<int>, r: int, x: int)
    requires |c| > 1
    ensures Eval(Quotient(c, r), x) == Eval(c[1..], r) + x * Eval(Quotient(c[1..], r), x)
  {
    var q := Quotient(c[1..], r);
    if |c| == 2 { assert q == []; }
    assert Quotient(c, r) == [Eval(c[1..], r)] + q;
    assert Quotient(c, r)[1..] == q;
  }

  ghost predicate Incongruent(xs: seq<int>, p: int)
    requires p > 0
  {
    forall i, j :: 0 <= i < j < |xs| ==> !Cong(xs[i], xs[j], p)
  }

  ghost predicate VanishesAt(c: seq<int>, xs: seq<int>, p: int)
    requires p > 0
  {
    forall i :: 0 <= i < |xs| ==> Eval(c, xs[i]) % p == 0
  }

  lemma OtherRoot(c: seq<int>, r: int, x: int, p: int)
    requires IsPrime(p) && !Cong(r, x, p) && Eval(c, r) % p == 0 && Eval(c, x) % p == 0
    ensures Eval(Quotient(c, r), x) % p == 0
  {
    Division(c, r, x);
    CongIffDifference(Eval(c, x), Eval(c, r), p);
    CongIffDifference(x, r, p);
    PrimeDividesProduct(x - r, Eval(Quotient(c, r), x), p);
  }

  /** Lagrange: modulo a prime a polynomial has fewer roots than coefficients. */
  lemma {:induction false} RootBound(c: seq<int>, xs: seq<int>, p: int)
    requires IsPrime(p) && |c| > 0 && c[|c| - 1] % p != 0
    requires Incongruent(xs, p) && VanishesAt(c, xs, p)
    ensures |xs| < |c|
    decreases |c|
  {
    if xs != [] { ConstantIsLast(c, xs[0]); }
    if xs != [] && |c| > 1 {
      var r, q := xs[0], Quotient(c, xs[0]);
      forall i | 0 <= i < |xs[1..]| ensures Eval(q, xs[1..][i]) % p == 0 {
        OtherRoot(c, r, xs[i + 1], p);
      }
      RootBound(q, xs[1..], p);
    }
  }

  lemma ConstantIsLast(c: seq<int>, x: int)
    requires |c| > 0
    ensures |c| == 1 ==> Eval(c, x) == c[|c| - 1]
  {
  }

  lemma {:induction false} EvalSnoc(c: seq<int>, k: int, x: int)
    ensures Eval(c + [k], x) == Eval(c, x) + Pow(x, |c|) * k
  {
    if c == [] {
      assert (c + [k])[1..] == [];
    } else {
      assert (c + [k])[1..] == c[1..] + [k];
      EvalSnoc(c[1..], k, x);
      assert x * (Eval(c[1..], x) + Pow(x, |c| - 1) * k) == x * Eval(c[1..], x) + (x * Pow(x, |c| - 1)) * k;
    }
  }

  /** A polynomial with as many roots as coefficients is zero everywhere modulo p. */
  lemma {:induction false} ManyRoots(c: seq<int>, xs: seq<int>, p: int, x: int)
    requires IsPrime(p) && |c| <= |xs|
    requires Incongruent(xs, p) && VanishesAt(c, xs, p)
    ensures Eval(c, x) % p == 0
  {
    if c == [] {
    } else if c[|c| - 1] % p != 0 {
      RootBound(c, xs, p);
    } else {
      var d, k := c[..|c| - 1], c[|c| - 1];
      assert c == d + [k];
      forall i | 0 <= i < |xs| ensures Eval(d, xs[i]) % p == 0 {
        DropLeading(d, k, xs[i], p);
      }
      ManyRoots(d, xs, p, x);
      DropLeading(d, k, x, p);
    }
  }

  lemma DropLeading(d: seq<int>, k: int, x: int, p: int)
    requires p > 0 && k % p == 0
    ensures Cong(Eval(d + [k], x), Eval(d, x), p)
  {
    EvalSnoc(d, k, x);
    var w := Pow(x, |d|);
    assert w * k == (w * (k / p)) * p;
    CongStep(Eval(d, x), w * (k / p), p);
  }

  // ---- the ring operations interpolation needs

  function Plus(a: seq<int>, b: seq<int>): (c: seq<int>)
    requires |a| == |b|
    ensures |c| == |a|
  {
    seq(|a|, i requires 0 <= i < |a| => a[i] + b[i])
  }

  function Scaled(k: int, a: seq<int>): (c: seq<int>)
    ensures |c| == |a|
  {
    seq(|a|, i requires 0 <= i < |a| => k * a[i])
  }

  /** (X - r) * a. */
  function TimesRoot(a: seq<int>, r: int): (c: seq<int>)
    ensures |c| == |a| + 1
  {
    Plus([0] + a, Scaled(-r, a + [0]))
  }

  lemma {:induction false} EvalPlus(a: seq<int>, b: seq<int>, x: int)
    requires |a| == |b|
    ensures Eval(Plus(a, b), x) == Eval(a, x) + Eval(b, x)
  {
    if a != [] {
      assert Plus(a, b)[1..] == Plus(a[1..], b[1..]);
      EvalPlus(a[1..], b[1..], x);
      assert x * (Eval(a[1..], x) + Eval(b[1..], x)) == x * Eval(a[1..], x) + x * Eval(b[1..], x);
    }
  }

  lemma {:induction false} EvalScaled(k: int, a: seq<int>, x: int)
    ensures Eval(Scaled(k, a), x) == k * Eval(a, x)
  {
    if a != [] {
      assert Scaled(k, a)[1..] == Scaled(k, a[1..]);
      EvalScaled(k, a[1..], x);
      var y := Eval(a[1..], x);
      assert x * (k * y) == k * (x * y);
      assert k * (a[0] + x * y) == k * a[0] + k * (x * y);
    }
  }

  lemma EvalTimesRoot(a: seq<int>, r: int, x: int)
    ensures Eval(TimesRoot(a, r), x) == (x - r) * Eval(a, x)
  {
    EvalPlus([0] + a, Scaled(-r, a + [0]), x);
    assert ([0] + a)[1..] == a;
    EvalScaled(-r, a + [0], x);
    EvalSnoc(a, 0, x);
    var v := Eval(a, x);
    assert Eval([0] + a, x) == x * v;
    assert x * v + -r * v == (x - r) * v;
  }
}
