/** The recodings of a scalar: base digits, width-w NAF and regular signed odd digits. */
module Recodings {
  import opened Modular

  // ---- values of digit lists, least significant digit first

  function Value(ds: seq<int>, base: int): int {
    if ds == [] then 0 else ds[0] + base * Value(ds[1..], base)
  }

  lemma {:induction false} ValueSnoc(ds: seq<int>, d: int, base: int)
    ensures Value(ds + [d], base) == Value(ds, base) + Pow(base, |ds|) * d
  {
    if ds == [] {
      assert (ds + [d])[1..] == [];
    } else {
      assert (ds + [d])[1..] == ds[1..] + [d];
      ValueSnoc(ds[1..], d, base);
      assert base * (Pow(base, |ds| - 1) * d) == Pow(base, |ds|) * d;
      assert base * (Value(ds[1..], base) + Pow(base, |ds| - 1) * d)
          == base * Value(ds[1..], base) + base * (Pow(base, |ds| - 1) * d);
    }
  }

  function BitLength(m: nat): (n: nat)
    ensures m < Pow2(n)
    ensures n > 0 ==> Pow2(n - 1) <= m
  {
    if m == 0 then 0 else 1 + BitLength(m / 2)
  }

  lemma Pow2Below(a: nat, b: nat)
    requires Pow2(a) < Pow2(b)
    ensures a < b
  {
    if b <= a { Pow2Monotone(b, a); }
  }

  lemma BitLengthBelow(m: nat, k: nat)
    requires m < Pow2(k)
    ensures BitLength(m) <= k
  {
    if BitLength(m) > 0 { Pow2Below(BitLength(m) - 1, k); }
  }

  lemma {:induction false} PowIsPow2(w: nat, k: nat)
    ensures w * k >= 0 && Pow(Pow2(w), k) == Pow2(w * k)
  {
    if k != 0 {
      PowIsPow2(w, k - 1);
      assert w * k == w + w * (k - 1);
      Pow2Add(w, w * (k - 1));
    }
  }

  // ---- digits in a base, most significant first

  function Reversed(ds: seq<int>): (r: seq<int>)
    ensures |r| == |ds|
  {
    if ds == [] then [] else Reversed(ds[1..]) + [ds[0]]
  }

  /** The value of a list whose first digit is the most significant. */
  function BigEndian(ds: seq<int>, base: int): int {
    if ds == [] then 0 else base * BigEndian(ds[..|ds| - 1], base) + ds[|ds| - 1]
  }

  lemma {:induction false} BigEndianCons(d: int, ds: seq<int>, base: int)
    ensures BigEndian([d] + ds, base) == d * Pow(base, |ds|) + BigEndian(ds, base)
  {
    if ds == [] {
      assert [d] + ds == [d] && [d][..0] == [];
    } else {
      var n := |ds| - 1;
      assert ([d] + ds)[..n + 1] == [d] + ds[..n];
      BigEndianCons(d, ds[..n], base);
      assert base * (d * Pow(base, n)) == d * (base * Pow(base, n));
      assert base * (d * Pow(base, n) + BigEndian(ds[..n], base)) == base * (d * Pow(base, n)) + base * BigEndian(ds[..n], base);
    }
  }

  /** Every entry is a digit of the base. */
  predicate AreDigits(ds: seq<int>, base: int) {
    forall i :: 0 <= i < |ds| ==> 0 <= ds[i] < base
  }

  /** At least one digit, the digits of i most significant first, and no leading zero but of 0. */
  method ConvertNumberToBase(i: nat, base: int) returns (digits: seq<int>)
    requires base >= 2
    ensures |digits| > 0 && AreDigits(digits, base) && BigEndian(digits, base) == i
    ensures digits[0] == 0 ==> digits == [0]
  {
    var n := i;
    digits := [];
    while n != 0 || digits == []
      invariant n >= 0 && AreDigits(digits, base)
      invariant StillToWrite(i, n, digits, base)
      invariant digits == [] ==> n == i
      invariant n == 0 && digits != [] ==> digits[0] != 0 || digits == [0]
      decreases n, if digits == [] then 1 else 0
    {
      var q, d := n / base, n % base;
      WriteDigit(i, n, digits, base);
      DivisionFalls(n, base);
      n, digits := q, [d] + digits;
    }
  }

  /** The digits written so far, and the quotient left, make up i. */
  ghost predicate StillToWrite(i: int, n: int, digits: seq<int>, base: int) {
    i == n * Pow(base, |digits|) + BigEndian(digits, base)
  }

  lemma WriteDigit(i: int, n: int, digits: seq<int>, base: int)
    requires base >= 2 && StillToWrite(i, n, digits, base)
    ensures StillToWrite(i, n / base, [n % base] + digits, base)
  {
    BigEndianCons(n % base, digits, base);
    CarryOut(n, base, n / base, n % base, Pow(base, |digits|));
  }

  lemma CarryOut(n: int, base: int, q: int, d: int, w: int)
    requires n == base * q + d
    ensures n * w == q * (base * w) + d * w
  {
    assert (base * q) * w == q * (base * w);
    assert (base * q + d) * w == (base * q) * w + d * w;
  }

  // ---- width-w non-adjacent form

  /** The residue of m modulo 2^w nearest to zero. */
  function Mods(m: int, w: nat): (r: int)
    requires w >= 1
    ensures -Pow2(w - 1) <= r < Pow2(w - 1) && Cong(r, m, Pow2(w))
  {
    var M := m % Pow2(w);
    ModCong(m, Pow2(w));
    CongStep(M, -1, Pow2(w));
    if Pow2(w) / 2 <= M then M - Pow2(w) else M
  }

  function WnafDigit(m: nat, w: nat): int
    requires w >= 1
  {
    if m % 2 == 0 then 0 else if w == 1 then 2 - m % 4 else Mods(m, w)
  }

  /** A residue that is odd is odd. */
  lemma OddResidue(a: int, b: int, w: nat)
    requires w >= 1 && Cong(a, b, Pow2(w))
    ensures a % 2 == b % 2
  {
    CongOfMultiple(a, b, 2, Pow2(w - 1));
  }

  /** The digit leaves a smaller number, although m - d may exceed m. */
  lemma DigitStep(m: nat, w: nat)
    requires w >= 1 && m > 0
    ensures var d := WnafDigit(m, w);
            (m - d) % 2 == 0 && 0 <= (m - d) / 2 < m && (m % 2 == 1 ==> d % 2 == 1)
  {
    var d := WnafDigit(m, w);
    if m % 2 == 1 && w > 1 { ModsBetween(m, w); }
    HalfStep(m, d);
  }

  lemma HalfStep(m: int, d: int)
    requires m > 0 && d <= m && -m < d && m % 2 == d % 2
    ensures (m - d) % 2 == 0 && 0 <= (m - d) / 2 < m
  {
  }

  /** An odd m exceeds the opposite of its digit and is not below the digit. */
  lemma ModsBetween(m: nat, w: nat)
    requires w >= 2 && m % 2 == 1
    ensures -(m as int) < Mods(m, w) <= m && Mods(m, w) % 2 == 1
  {
    OddResidue(Mods(m, w), m, w);
    OddBound(Mods(m, w), w);
    assert Pow2(w) == 2 * Pow2(w - 1) && Pow2(w - 1) == 2 * Pow2(w - 2);
    DivisionFalls(m, Pow2(w));
  }

  lemma OddBound(d: int, w: nat)
    requires w >= 2 && d % 2 == 1 && -Pow2(w - 1) <= d < Pow2(w - 1)
    ensures -Pow2(w - 1) < d
  {
    assert Pow2(w - 1) == 2 * Pow2(w - 2);
  }

  /** The width-w NAF of m, least significant digit first. */
  function Wnaf(m: nat, w: nat): seq<int>
    requires w >= 1
  {
    if m == 0 then [] else
      DigitStep(m, w);
      [WnafDigit(m, w)] + Wnaf((m - WnafDigit(m, w)) / 2, w)
  }

  /** The loop of the recoding, which terminates because m falls at every step. */
  method WnafOfM(m: nat, w: nat) returns (M: seq<int>)
    requires w >= 1
    ensures M == Wnaf(m, w)
  {
    var n := m;
    M := [];
    while n > 0
      invariant n >= 0
      invariant M + Wnaf(n, w) == Wnaf(m, w)
      decreases n
    {
      DigitStep(n, w);
      var d := 0;
      if n % 2 == 1 {
        if w == 1 { d := 2 - n % 4; } else { d := Mods(n, w); }
      }
      assert M + [d] + Wnaf((n - d) / 2, w) == M + ([d] + Wnaf((n - d) / 2, w));
      M := M + [d];
      n := (n - d) / 2;
    }
  }

  /** Width one is the binary NAF, the width-two form. */
  lemma {:induction false} WidthOne(m: nat)
    ensures Wnaf(m, 1) == Wnaf(m, 2)
  {
    if m > 0 {
      WidthOneDigit(m);
      DigitStep(m, 2);
      WidthOne((m - WnafDigit(m, 2)) / 2);
    }
  }

  lemma WidthOneDigit(m: nat)
    ensures WnafDigit(m, 1) == WnafDigit(m, 2)
  {
    assert Pow2(2) == 4 by { assert Pow2(0) == 1 && Pow2(1) == 2; }
    ModsOf(m, 2, 4);
  }

  lemma ModsOf(m: int, w: nat, b: int)
    requires w >= 1 && b == Pow2(w)
    ensures Mods(m, w) == if b / 2 <= m % b then m % b - b else m % b
  {
  }

  lemma {:induction false} WnafValue(m: nat, w: nat)
    requires w >= 1
    ensures Value(Wnaf(m, w), 2) == m
  {
    if m > 0 {
      DigitStep(m, w);
      var n := (m - WnafDigit(m, w)) / 2;
      assert Wnaf(m, w)[1..] == Wnaf(n, w);
      WnafValue(n, w);
    }
  }

  /** A digit of a width-w NAF: zero, or odd and below 2^(w-1) in absolute value. */
  predicate NafDigit(d: int, w: nat)
    requires w >= 2
  {
    d == 0 || (d % 2 == 1 && -Pow2(w - 1) < d < Pow2(w - 1))
  }

  /** Any w consecutive digits hold at most one that is not zero. */
  predicate Sparse(ds: seq<int>, w: nat) {
    forall i, j :: 0 <= i < j < |ds| && j - i < w && ds[i] != 0 ==> ds[j] == 0
  }

  /** A width-w non-adjacent form with no leading zero. */
  predicate IsWnaf(ds: seq<int>, w: nat)
    requires w >= 2
  {
    && (forall i :: 0 <= i < |ds| ==> NafDigit(ds[i], w))
    && Sparse(ds, w)
    && (ds != [] ==> ds[|ds| - 1] != 0)
  }

  function Zeros(k: nat): (r: seq<int>)
    ensures |r| == k && forall i :: 0 <= i < k ==> r[i] == 0
  {
    seq(k, _ => 0)
  }

  lemma {:induction false} ZeroRun(q: nat, k: nat, m: nat, w: nat)
    requires w >= 1 && q > 0 && m == Pow2(k) * q
    ensures m > 0 && Wnaf(m, w) == Zeros(k) + Wnaf(q, w)
    decreases k, 1
  {
    if k > 0 {
      var n := Pow2(k - 1) * q;
      HalfProduct(k, q, m, n);
      ZeroRunStep(q, k, m, n, w);
    } else {
      assert Pow2(0) * q == q;
      assert Zeros(0) + Wnaf(q, w) == Wnaf(q, w);
    }
  }

  lemma {:induction false} ZeroRunStep(q: nat, k: nat, m: nat, n: nat, w: nat)
    requires w >= 1 && q > 0 && k > 0 && m == 2 * n && n == Pow2(k - 1) * q
    ensures m > 0 && Wnaf(m, w) == Zeros(k) + Wnaf(q, w)
    decreases k, 0
  {
    ZeroRun(q, k - 1, n, w);
    WnafEven(n, w);
    assert [0] + (Zeros(k - 1) + Wnaf(q, w)) == Zeros(k) + Wnaf(q, w);
  }

  lemma WnafEven(n: nat, w: nat)
    requires w >= 1 && n > 0
    ensures Wnaf(2 * n, w) == [0] + Wnaf(n, w)
  {
    EvenDigit(n, w);
  }

  lemma EvenDigit(n: nat, w: nat)
    requires w >= 1
    ensures WnafDigit(2 * n, w) == 0 && (2 * n - 0) / 2 == n
  {
  }

  lemma HalfProduct(k: nat, q: nat, m: int, n: int)
    requires k > 0 && m == Pow2(k) * q && n == Pow2(k - 1) * q
    ensures m == 2 * n && n >= 0 && m / 2 == n && m % 2 == 0
  {
    var h := Pow2(k - 1);
    assert (2 * h) * q == 2 * (h * q);
    ProductMonotone(0, h, q);
  }

  /** After an odd digit come w - 1 zeros: the next number is a multiple of 2^(w-1). */
  lemma AfterOdd(m: nat, w: nat) returns (q: nat)
    requires w >= 2 && m % 2 == 1
    ensures var d := WnafDigit(m, w);
            && m == d + Pow2(w) * q && d != 0 && NafDigit(d, w)
            && Wnaf(m, w) == [d] + (if q == 0 then [] else Zeros(w - 1) + Wnaf(q, w))
  {
    q := OddQuotient(m, w);
    var v := (m - Mods(m, w)) / 2;
    RebuildWnaf(m, Mods(m, w), v, w);
    if q > 0 { ZeroRun(q, w - 1, v, w); }
  }

  lemma OddQuotient(m: nat, w: nat) returns (q: nat)
    requires w >= 2 && m % 2 == 1
    ensures var d := Mods(m, w);
            && m == d + Pow2(w) * q && d % 2 == 1 && NafDigit(d, w)
            && (m - d) / 2 == Pow2(w - 1) * q && (m - d) % 2 == 0 && m - d >= 0
  {
    var d := Mods(m, w);
    OddResidue(d, m, w);
    OddBound(d, w);
    ModsBetween(m, w);
    q := CongWitness(m, d, Pow2(w));
    QuotientNatural(q, Pow2(w), d);
    RestOfOdd(m, d, q, Pow2(w - 1));
  }

  lemma RestOfOdd(m: int, d: int, q: int, h: int)
    requires m - d == q * (2 * h)
    ensures m == d + (2 * h) * q && (m - d) / 2 == h * q
  {
    assert q * (2 * h) == (2 * h) * q == 2 * (h * q);
  }

  lemma SparsePrefix(d: int, ds: seq<int>, w: nat)
    requires w >= 2 && IsWnaf(ds, w) && ds != [] && NafDigit(d, w) && d != 0
    ensures IsWnaf([d] + Zeros(w - 1) + ds, w)
  {
    var r := [d] + Zeros(w - 1) + ds;
    forall i | 0 <= i < |r| ensures NafDigit(r[i], w) {
      if i >= w { assert r[i] == ds[i - w]; }
    }
    forall i, j | 0 <= i < j < |r| && j - i < w && r[i] != 0 ensures r[j] == 0 {
      if i >= w { assert r[i] == ds[i - w] && r[j] == ds[j - w]; }
    }
    assert r[|r| - 1] == ds[|ds| - 1];
  }

  /** The recoding is a width-w NAF. */
  lemma {:induction false} WnafIsWnaf(m: nat, w: nat)
    requires w >= 2
    ensures IsWnaf(Wnaf(m, w), w)
    ensures m > 0 ==> Wnaf(m, w) != []
  {
    if m > 0 {
      DigitStep(m, w);
      if m % 2 == 0 {
        WnafIsWnaf(m / 2, w);
        ShiftSparse(Wnaf(m / 2, w), w);
      } else {
        var q := AfterOdd(m, w);
        var d := WnafDigit(m, w);
        if q == 0 {
          assert Wnaf(m, w) == [d];
        } else {
          QuotientFalls(m, d, q, w);
          WnafIsWnaf(q, w);
          SparsePrefix(d, Wnaf(q, w), w);
          assert [d] + Zeros(w - 1) + Wnaf(q, w) == [d] + (Zeros(w - 1) + Wnaf(q, w));
        }
      }
    }
  }

  lemma QuotientFalls(m: nat, d: int, q: nat, w: nat)
    requires w >= 2 && m == d + Pow2(w) * q && NafDigit(d, w) && q > 0
    ensures q < m
  {
    var h := Pow2(w - 2);
    assert Pow2(w - 1) == 2 * h && Pow2(w) == 4 * h;
    ProductMonotone(1, q, h);
    ProductMonotone(1, h, q);
    assert (4 * h) * q == 4 * (h * q);
  }

  lemma ShiftSparse(ds: seq<int>, w: nat)
    requires w >= 2 && IsWnaf(ds, w) && ds != []
    ensures IsWnaf([0] + ds, w)
  {
    var r := [0] + ds;
    forall i, j | 0 <= i < j < |r| && j - i < w && r[i] != 0 ensures r[j] == 0 {
      assert r[i] == ds[i - 1] && r[j] == ds[j - 1];
    }
    assert r[|r| - 1] == ds[|ds| - 1];
  }

  /** The top digit outweighs the rest: more than half of 2^(length-1). */
  lemma {:induction false} WnafTop(m: nat, w: nat)
    requires w >= 2 && m > 0
    ensures |Wnaf(m, w)| >= 1 && 2 * m > Pow2(|Wnaf(m, w)| - 1)
  {
    DigitStep(m, w);
    if m % 2 == 0 {
      assert Wnaf(m, w) == [0] + Wnaf(m / 2, w);
      WnafTop(m / 2, w);
    } else {
      var q := AfterOdd(m, w);
      var d := WnafDigit(m, w);
      if q > 0 {
        QuotientFalls(m, d, q, w);
        WnafTop(q, w);
        var k := |Wnaf(q, w)|;
        assert |Wnaf(m, w)| == w + k;
        Pow2Add(w, k - 1);
        TopStep(m, d, q, Pow2(w - 1), Pow2(k - 1));
      } else {
        assert Wnaf(m, w) == [d];
        assert Pow2(0) == 1;
      }
    }
  }

  lemma TopStep(m: int, d: int, q: int, h: int, P: int)
    requires h > 0 && m == d + (2 * h) * q && -h < d && 2 * q > P
    ensures 2 * m > (2 * h) * P
  {
    ProductMonotone(P + 1, 2 * q, 2 * h);
    assert (2 * h) * (P + 1) == (2 * h) * P + 2 * h;
    assert (2 * h) * (2 * q) == 2 * ((2 * h) * q);
  }

  /** At most one digit more than the binary length. */
  lemma WnafLength(m: nat, w: nat)
    requires w >= 1
    ensures |Wnaf(m, w)| <= BitLength(m) + 1
  {
    if m > 0 {
      if w == 1 { WidthOne(m); }
      var v := if w == 1 then 2 else w;
      WnafTop(m, v);
      LengthBound(m, |Wnaf(m, v)|);
    }
  }

  lemma LengthBound(m: nat, l: nat)
    requires l >= 1 && 2 * m > Pow2(l - 1)
    ensures l <= BitLength(m) + 1
  {
    var b := BitLength(m);
    assert Pow2(b + 1) == 2 * Pow2(b);
    if l - 1 > b { Pow2Monotone(b + 1, l - 1); }
  }

  lemma {:induction false} LeadingZeros(ds: seq<int>, k: nat) returns (q: int)
    requires forall i :: 0 <= i < |ds| && i < k ==> ds[i] == 0
    ensures Value(ds, 2) == Pow2(k) * q
  {
    if k == 0 {
      q := Value(ds, 2);
    } else if ds == [] {
      q := 0;
    } else {
      q := LeadingZeros(ds[1..], k - 1);
      assert 2 * (Pow2(k - 1) * q) == Pow2(k) * q;
    }
  }

  lemma IsWnafTail(ds: seq<int>, w: nat)
    requires w >= 2 && IsWnaf(ds, w) && ds != []
    ensures IsWnaf(ds[1..], w)
  {
    var t := ds[1..];
    forall i | 0 <= i < |t| ensures NafDigit(t[i], w) { assert t[i] == ds[i + 1]; }
    forall i, j | 0 <= i < j < |t| && j - i < w && t[i] != 0 ensures t[j] == 0 {
      assert t[i] == ds[i + 1] && t[j] == ds[j + 1];
    }
    if t != [] { assert t[|t| - 1] == ds[|ds| - 1]; }
  }

  /** Two residues of one class, both below 2^(w-1) in absolute value, are equal. */
  lemma NearestUnique(a: int, b: int, w: nat)
    requires w >= 1 && Cong(a, b, Pow2(w)) && -Pow2(w - 1) <= a < Pow2(w - 1) && -Pow2(w - 1) <= b < Pow2(w - 1)
    ensures a == b
  {
    var k := CongWitness(a, b, Pow2(w));
    MulBelow(k, 1, Pow2(w));
    MulBelow(-1, k, Pow2(w));
  }

  /** m has one width-w NAF only, the one the recoding returns. */
  lemma {:induction false} WnafUnique(ds: seq<int>, w: nat)
    requires w >= 2 && IsWnaf(ds, w) && Value(ds, 2) >= 0
    ensures ds == Wnaf(Value(ds, 2), w)
    decreases |ds|
  {
    if ds != [] {
      IsWnafTail(ds, w);
      FirstDigit(ds, w);
      WnafUnique(ds[1..], w);
      UniqueStep(ds, w);
    }
  }

  lemma UniqueStep(ds: seq<int>, w: nat)
    requires w >= 2 && IsWnaf(ds, w) && ds != [] && Value(ds, 2) >= 0 && Value(ds[1..], 2) >= 0
    requires ds[0] == WnafDigit(Value(ds, 2), w) && ds[1..] == Wnaf(Value(ds[1..], 2), w)
    ensures ds == Wnaf(Value(ds, 2), w)
  {
    NoLeadingZero(ds, w);
    RebuildWnaf(Value(ds, 2), ds[0], Value(ds[1..], 2), w);
    assert ds == [ds[0]] + ds[1..];
  }

  lemma RebuildWnaf(m: nat, d: int, v: nat, w: nat)
    requires w >= 1 && m > 0 && m == d + 2 * v && d == WnafDigit(m, w)
    ensures Wnaf(m, w) == [d] + Wnaf(v, w)
  {
    DigitStep(m, w);
    assert (m - d) / 2 == v;
  }

  lemma NoLeadingZero(ds: seq<int>, w: nat)
    requires w >= 2 && IsWnaf(ds, w) && ds != [] && Value(ds[1..], 2) >= 0
    requires Value(ds, 2) >= 0 && ds[0] == WnafDigit(Value(ds, 2), w) && ds[1..] == Wnaf(Value(ds[1..], 2), w)
    ensures Value(ds, 2) != 0
  {
    assert ds[|ds| - 1] != 0;
    assert |ds| == 1 ==> ds[|ds| - 1] == ds[0];
    assert Wnaf(0, w) == [] && WnafDigit(0, w) == 0;
  }

  lemma FirstDigit(ds: seq<int>, w: nat)
    requires w >= 2 && IsWnaf(ds, w) && ds != [] && Value(ds, 2) >= 0
    ensures ds[0] == WnafDigit(Value(ds, 2), w) && Value(ds[1..], 2) >= 0
  {
    var m, t := Value(ds, 2), ds[1..];
    assert NafDigit(ds[0], w);
    OddSum(m, ds[0], Value(t, 2));
    if ds[0] != 0 { FirstNonzero(ds, m, w); }
  }

  lemma FirstNonzero(ds: seq<int>, m: nat, w: nat)
    requires w >= 2 && IsWnaf(ds, w) && ds != [] && ds[0] != 0 && m == Value(ds, 2) && m % 2 == 1
    ensures ds[0] == Mods(m, w) && ds[0] <= m
  {
    var t := ds[1..];
    forall i | 0 <= i < |t| && i < w - 1 ensures t[i] == 0 { assert t[i] == ds[i + 1]; }
    var q := LeadingZeros(t, w - 1);
    assert NafDigit(ds[0], w);
    FirstOdd(m, ds[0], Pow2(w - 1), q, w);
    ModsBetween(m, w);
  }

  lemma OddSum(m: int, d: int, v: int)
    requires m == d + 2 * v
    ensures m % 2 == d % 2 && (m >= d ==> v >= 0)
  {
  }

  lemma FirstOdd(m: nat, d: int, h: int, q: int, w: nat)
    requires w >= 2 && NafDigit(d, w) && h == Pow2(w - 1) && m == d + 2 * (h * q)
    ensures d == Mods(m, w)
  {
    assert 2 * (h * q) == q * (2 * h);
    CongFrom(m, d, q, Pow2(w));
    NearestUnique(d, Mods(m, w), w);
  }

  // ---- regular recoding: size signed odd digits

  function OddDigit(m: int, w: nat): (d: int)
    ensures -Pow2(w) <= d < Pow2(w)
  {
    ModCong(m, 2 * Pow2(w));
    m % (2 * Pow2(w)) - Pow2(w)
  }

  predicate OddWithin(d: int, w: nat) {
    d % 2 == 1 && -Pow2(w) < d < Pow2(w)
  }

  /** Every digit odd and within +-(2^w - 1). */
  predicate RegularDigits(ds: seq<int>, w: nat) {
    forall i :: 0 <= i < |ds| ==> OddWithin(ds[i], w)
  }

  /** What is left after an odd digit is odd, and within the bound of one digit less. */
  lemma OddDigitStep(m: nat, w: nat, size: nat)
    requires w >= 1 && size >= 2 && m % 2 == 1 && m < Pow2(w * size)
    ensures var d := OddDigit(m, w);
            var n := (m - d) / Pow2(w);
            && OddWithin(d, w) && n % 2 == 1 && 0 <= n && w * (size - 1) >= 0 && n < Pow2(w * (size - 1)) && m == d + Pow2(w) * n
  {
    SizeStep(w, size);
    OddDigitBound(m, w, Pow2(w * (size - 1)));
  }

  lemma OddDigitBound(m: nat, w: nat, B: int)
    requires w >= 1 && m % 2 == 1 && B % 2 == 0 && m < Pow2(w) * B
    ensures var d := OddDigit(m, w);
            var n := (m - d) / Pow2(w);
            OddWithin(d, w) && n % 2 == 1 && 0 <= n < B && m == d + Pow2(w) * n
  {
    OddDigitParts(m, w);
    NextBound(m / (2 * Pow2(w)), Pow2(w), B, m, m % (2 * Pow2(w)));
  }

  lemma SizeStep(w: nat, size: nat)
    requires w >= 1 && size >= 2
    ensures w * (size - 1) >= 1 && w * size >= 0
    ensures Pow2(w * size) == Pow2(w) * Pow2(w * (size - 1)) && Pow2(w * (size - 1)) % 2 == 0
  {
    SizeProduct(w, size);
    SizePower(w, w * (size - 1), w * size);
  }

  lemma SizeProduct(w: nat, size: nat)
    requires w >= 1 && size >= 2
    ensures w * (size - 1) >= 1 && w * size == w + w * (size - 1)
  {
    ProductMonotone(1, size - 1, w);
  }

  lemma SizePower(w: nat, k: nat, l: nat)
    requires l == w + k && k >= 1
    ensures Pow2(l) == Pow2(w) * Pow2(k) && Pow2(k) % 2 == 0
  {
    Pow2Add(w, k);
    EvenPower(k);
  }

  lemma OddDigitParts(m: nat, w: nat)
    requires w >= 1 && m % 2 == 1
    ensures var h, d := Pow2(w), OddDigit(m, w);
            && OddWithin(d, w) && m / (2 * h) >= 0 && (m - d) / h == 2 * (m / (2 * h)) + 1
            && m == d + h * ((m - d) / h) && m == (m / (2 * h)) * (2 * h) + m % (2 * h) && m % (2 * h) >= 0
  {
    var h := Pow2(w);
    var M, q := m % (2 * h), m / (2 * h);
    ModCong(m, 2 * h);
    assert Pow2(w + 1) == 2 * h;
    OddResidue(M, m, w + 1);
    EvenPower(w);
    OddParts(m, h, q, M);
  }

  lemma OddParts(m: nat, h: int, q: int, M: int)
    requires h > 0 && h % 2 == 0 && M % 2 == 1 && 0 <= M < 2 * h && m == q * (2 * h) + M
    ensures q >= 0 && (m - (M - h)) / h == 2 * q + 1 && (M - h) % 2 == 1 && m == (M - h) + h * (2 * q + 1)
  {
    TwoHalves(q, h);
    QuotientNatural(q, 2 * h, M);
    DivModUnique(m - (M - h), h, 2 * q + 1, 0);
  }

  lemma TwoHalves(q: int, h: int)
    ensures q * (2 * h) + h == (2 * q + 1) * h == h * (2 * q + 1)
  {
    assert q * (2 * h) == (2 * q) * h;
  }

  lemma NextBound(q: int, h: int, B: int, m: int, M: int)
    requires h > 0 && B % 2 == 0 && m == q * (2 * h) + M && M >= 0 && m < h * B
    ensures 2 * q + 1 < B
  {
    assert (2 * q) * h == q * (2 * h);
    if 2 * q >= B { ProductMonotone(B, 2 * q, h); }
  }

  lemma EvenPower(k: nat)
    requires k >= 1
    ensures Pow2(k) % 2 == 0
  {
  }

  /** The recoding, defined for an odd m that fits. */
  function OddDigits(m: nat, w: nat, size: nat): seq<int>
    requires w >= 1 && size >= 1 && m % 2 == 1 && m < Pow2(w * size)
    decreases size
  {
    if size == 1 then [m] else
      OddDigitStep(m, w, size);
      [OddDigit(m, w)] + OddDigits((m - OddDigit(m, w)) / Pow2(w), w, size - 1)
  }

  /** None for the errors: m negative or even, no width or digit, or more than the digits hold. */
  method SignedOddDigits(m: int, w: int, size: int) returns (r: Option<seq<int>>)
    ensures r.Some? <==> m >= 0 && w > 0 && m % 2 == 1 && size >= 1 && (w * size >= 0 ==> m < Pow2(w * size))
    ensures r.Some? ==> w * size >= 0 && r.value == OddDigits(m, w, size)
  {
    if m < 0 || w <= 0 || m % 2 == 0 || size < 1 { return None; }
    ProductMonotone(1, size, w);
    ShiftZero(m, Pow2(w * size));
    if m / Pow2(w * size) != 0 { return None; }
    var n := m;
    var digits: seq<int> := [];
    for i := 0 to size - 1
      invariant n >= 0 && n % 2 == 1 && w * (size - i) >= 0 && n < Pow2(w * (size - i))
      invariant digits + OddDigits(n, w, size - i) == OddDigits(m, w, size)
    {
      OddDigitStep(n, w, size - i);
      var digit := n % (2 * Pow2(w)) - Pow2(w);
      ghost var rest := OddDigits((n - digit) / Pow2(w), w, size - i - 1);
      assert digits + [digit] + rest == digits + ([digit] + rest);
      digits := digits + [digit];
      n := (n - digit) / Pow2(w);
    }
    assert OddDigits(n, w, 1) == [n];
    return Some(digits + [n]);
  }

  lemma ShiftZero(m: nat, k: int)
    requires k > 0
    ensures m / k == 0 <==> m < k
  {
    if m < k { SmallMod(m, k); }
    if m / k == 0 { assert m == 0 * k + m % k; }
  }

  /** Exactly `size` odd digits, the last positive, and their weighted sum is m. */
  lemma {:induction false} OddDigitsSum(m: nat, w: nat, size: nat)
    requires w >= 1 && size >= 1 && m % 2 == 1 && m < Pow2(w * size)
    ensures var ds := OddDigits(m, w, size);
            |ds| == size && RegularDigits(ds, w) && ds[size - 1] > 0 && Value(ds, Pow2(w)) == m
    decreases size
  {
    var ds := OddDigits(m, w, size);
    if size == 1 {
      assert w * 1 == w;
      assert ds[1..] == [] && Pow2(w) * 0 == 0;
    } else {
      OddDigitStep(m, w, size);
      var n := (m - OddDigit(m, w)) / Pow2(w);
      OddDigitsSum(n, w, size - 1);
      assert ds[1..] == OddDigits(n, w, size - 1);
      forall i | 0 <= i < |ds| ensures OddWithin(ds[i], w) {
        if i > 0 { assert ds[i] == ds[1..][i - 1]; }
      }
      assert ds[size - 1] == ds[1..][size - 2];
    }
  }

  lemma {:induction false} RegularBound(ds: seq<int>, w: nat)
    requires w >= 1 && |ds| >= 1 && RegularDigits(ds, w)
    ensures w * |ds| >= 0 && Value(ds, Pow2(w)) < Pow2(w * |ds|) && Value(ds, Pow2(w)) % 2 == 1
    decreases |ds|
  {
    assert OddWithin(ds[0], w);
    if |ds| == 1 {
      assert ds[1..] == [] && Pow2(w) * 0 == 0;
      assert w * 1 == w;
    } else {
      var t := ds[1..];
      forall i | 0 <= i < |t| ensures OddWithin(t[i], w) { assert t[i] == ds[i + 1]; }
      RegularBound(t, w);
      assert w * |ds| == w + w * |t|;
      Pow2Add(w, w * |t|);
      RegularStep(ds[0], Value(t, Pow2(w)), Pow2(w - 1), Pow2(w * |t|));
    }
  }

  lemma RegularStep(d: int, v: int, g: int, B: int)
    requires g > 0 && d % 2 == 1 && d < 2 * g && v < B
    ensures d + (2 * g) * v < (2 * g) * B && (d + (2 * g) * v) % 2 == 1
  {
    ProductMonotone(v, B - 1, 2 * g);
    assert (2 * g) * (B - 1) == (2 * g) * B - 2 * g;
    assert (2 * g) * v == 2 * (g * v);
  }

  /** No other list of `size` such digits has the value m. */
  lemma {:induction false} OddDigitsUnique(ds: seq<int>, w: nat)
    requires w >= 1 && |ds| >= 1 && RegularDigits(ds, w) && Value(ds, Pow2(w)) >= 0
    ensures var m := Value(ds, Pow2(w));
            w * |ds| >= 0 && m % 2 == 1 && m < Pow2(w * |ds|) && ds == OddDigits(m, w, |ds|)
    decreases |ds|
  {
    RegularBound(ds, w);
    var m, h := Value(ds, Pow2(w)), Pow2(w);
    assert OddWithin(ds[0], w);
    if |ds| == 1 {
      assert ds[1..] == [] && h * 0 == 0;
    } else {
      var t := ds[1..];
      forall i | 0 <= i < |t| ensures OddWithin(t[i], w) { assert t[i] == ds[i + 1]; }
      RegularBound(t, w);
      var v := Value(t, h);
      FirstRegular(m, ds[0], h, v);
      assert OddDigit(m, w) == ds[0];
      OddDigitStep(m, w, |ds|);
      OddDigitsUnique(t, w);
      assert ds == [ds[0]] + t;
    }
  }

  lemma FirstRegular(m: int, d: int, h: int, v: int)
    requires h > 0 && -h < d < h && v % 2 == 1 && m == d + h * v && m >= 0
    ensures m % (2 * h) == d + h && (m - d) / h == v && v >= 0
  {
    // v = 2q + 1, so m = q*(2h) + (d + h)
    var q := v / 2;
    assert h * (2 * q + 1) == q * (2 * h) + h;
    DivModUnique(m, 2 * h, q, d + h);
    assert m - d == v * h;
    DivModUnique(m - d, h, v, 0);
    QuotientNatural(v, h, d);
  }
}
