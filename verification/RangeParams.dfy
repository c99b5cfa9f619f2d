/** The header of a range proof: the parameters that are chosen, and that they never overflow. */
module RangeParams {
  import opened Modular
  import opened Recodings

  const U64: int := 0xFFFF_FFFF_FFFF_FFFF
  const I63: int := 0x7FFF_FFFF_FFFF_FFFF
  const MAX_EXP: int := 18
  const MAX_MANTISSA: int := 64

  // ---- ring sizes and the largest value

  /** Four keys for every pair of bits, two for an odd one, a single key for a value in the clear. */
  function Rsizes(mantissa: nat): (r: seq<nat>)
    ensures |r| >= 1 && forall i :: 0 <= i < |r| ==> 1 <= r[i] <= 4
  {
    if mantissa == 0 then [1]
    else seq(mantissa / 2, _ => 4) + (if mantissa % 2 == 1 then [2] else [])
  }

  lemma RsizesAt(mantissa: nat, i: nat)
    requires mantissa > 0 && i < |Rsizes(mantissa)|
    ensures |Rsizes(mantissa)| == (mantissa + 1) / 2
    ensures Rsizes(mantissa)[i] == if 2 * i + 1 == mantissa then 2 else 4
  {
  }

  /** 2^mantissa - 1: what the digits reach. */
  function Ceiling(mantissa: nat): (v: nat) { Pow2(mantissa) - 1 }

  lemma Pow2Of64()
    ensures Pow2(64) == U64 + 1 && Pow2(63) == I63 + 1
  {
    assert Pow2(8) == 256 by { assert Pow2(4) == 16; }
    Pow2Add(8, 8);
    Pow2Add(16, 16);
    Pow2Add(32, 32);
  }

  /** The ceiling as the shift of the full width writes it. */
  lemma CeilingIsShift(mantissa: nat)
    requires mantissa <= 64
    ensures U64 / Pow2(64 - mantissa) == Ceiling(mantissa)
  {
    Pow2Of64();
    Pow2Add(mantissa, 64 - mantissa);
    var a, b := Pow2(mantissa), Pow2(64 - mantissa);
    assert a * b - 1 == (a - 1) * b + (b - 1);
    DivModUnique(U64, b, a - 1, b - 1);
  }

  function Scale(exp: int): (s: int)
    ensures s > 0
  {
    PowPositive(10, if exp > 0 then exp else 0);
    Pow(10, if exp > 0 then exp else 0)
  }

  /** What the header proves for, or None where a uint64 cannot hold it: exact in both directions. */
  method MaxValue(exp: int, mantissa: int, minValue: int) returns (r: Option<int>)
    requires minValue >= 0
    ensures r.Some? <==> 0 <= mantissa <= 64 && Ceiling(mantissa) * Scale(exp) + minValue <= U64
    ensures r.Some? ==> r.value == Ceiling(mantissa) * Scale(exp) + minValue
  {
    if mantissa < 0 || mantissa > MAX_MANTISSA { return None; }
    CeilingIsShift(mantissa);
    var c := if mantissa == 0 then 0 else U64 / Pow2(64 - mantissa);
    assert c == Ceiling(mantissa) by { assert Pow2(0) == 1; }
    var value, e := c, if exp > 0 then exp else 0;
    assert value == c * Pow(10, 0);
    for k := 0 to e
      invariant value == c * Pow(10, k)
    {
      assert c * Pow(10, k + 1) == 10 * value by { assert c * (10 * Pow(10, k)) == 10 * (c * Pow(10, k)); }
      if value > U64 / 10 {
        TenfoldMore(c, k + 1, e);
        return None;
      }
      value := value * 10;
    }
    if value > U64 - minValue { return None; }
    return Some(value + minValue);
  }

  lemma {:induction false} TenfoldMore(c: nat, k: nat, e: nat)
    requires k <= e
    ensures c * Pow(10, k) <= c * Pow(10, e)
  {
    PowGrows(k, e);
    ProductMonotone(Pow(10, k), Pow(10, e), c);
  }

  lemma {:induction false} PowGrows(k: nat, e: nat)
    requires k <= e
    ensures 0 < Pow(10, k) <= Pow(10, e)
  {
    PowPositive(10, k);
    if k < e { PowGrows(k, e - 1); }
  }

  /** A header this format has octets for. */
  predicate ValidHeader(exp: int, mantissa: int, minValue: Option<int>) {
    && (if mantissa == 0 then exp == -1 else 1 <= mantissa <= MAX_MANTISSA && 0 <= exp <= MAX_EXP)
    && (minValue.Some? ==> 0 <= minValue.value <= U64)
    && Ceiling(mantissa) * Scale(exp) + FloorOf(minValue) <= U64
  }

  function FloorOf(minValue: Option<int>): int {
    match minValue case Some(v) => v case None => 0
  }

  method AssertValidHeader(exp: int, mantissa: int, minValue: Option<int>) returns (ok: bool)
    ensures ok <==> ValidHeader(exp, mantissa, minValue)
  {
    if mantissa != 0 {
      if exp < 0 || exp > MAX_EXP { return false; }
    } else if exp != -1 {
      return false;
    }
    if minValue.Some? && (minValue.value < 0 || minValue.value > U64) { return false; }
    var max := MaxValue(exp, mantissa, FloorOf(minValue));
    return max.Some?;
  }

  // ---- digits

  /** The base-4 digit a ring proves. */
  function Digit(v: nat, i: nat): (d: nat)
    ensures d < 4
  {
    PowPositive(4, i);
    (v / Pow(4, i)) % 4
  }

  function Digits(v: nat, k: nat): (ds: seq<nat>)
    ensures |ds| == k && forall i :: 0 <= i < k ==> ds[i] == Digit(v, i)
  {
    seq(k, i requires 0 <= i < k => Digit(v, i))
  }

  /** The digits with their weights. */
  function DigitSum(ds: seq<nat>): nat {
    if ds == [] then 0 else
      PowPositive(4, |ds| - 1);
      NaturalTimes(ds[|ds| - 1], Pow(4, |ds| - 1));
      DigitSum(ds[..|ds| - 1]) + ds[|ds| - 1] * Pow(4, |ds| - 1)
  }

  lemma NaturalTimes(a: nat, b: nat)
    ensures a * b >= 0
  {
  }

  /** The first k digits are v modulo 4^k. */
  lemma {:induction false} DigitsSum(v: nat, k: nat)
    ensures Pow(4, k) > 0 && DigitSum(Digits(v, k)) == v % Pow(4, k)
  {
    PowPositive(4, k);
    if k == 0 {
      assert Pow(4, 0) == 1;
    } else {
      DigitsSum(v, k - 1);
      assert Digits(v, k)[..k - 1] == Digits(v, k - 1);
      SplitRemainder(v, Pow(4, k - 1));
    }
  }

  lemma SplitRemainder(v: nat, p: int)
    requires p > 0
    ensures v % (4 * p) == v % p + ((v / p) % 4) * p
  {
    var q, r := v / p, v % p;
    assert v == q * p + r;
    var a, d := q / 4, q % 4;
    assert q == 4 * a + d;
    assert (4 * a + d) * p == a * (4 * p) + d * p;
    ProductMonotone(d, 3, p);
    ProductMonotone(0, d, p);
    DivModUnique(v, 4 * p, a, d * p + r);
  }

  /** Every digit is a position of its ring, and the digits of a value below 2^mantissa sum to it. */
  lemma DigitsOfValue(v: nat, mantissa: nat)
    requires mantissa >= 1 && v < Pow2(mantissa)
    ensures var r := Rsizes(mantissa);
            DigitSum(Digits(v, |r|)) == v && forall i :: 0 <= i < |r| ==> Digit(v, i) < r[i]
  {
    var r, k := Rsizes(mantissa), (mantissa + 1) / 2;
    RsizesAt(mantissa, 0);
    DigitsSum(v, k);
    PowOfFour(k);
    Pow2Monotone(mantissa, 2 * k);
    SmallMod(v, Pow(4, k));
    forall i | 0 <= i < |r| ensures Digit(v, i) < r[i] {
      RsizesAt(mantissa, i);
      if 2 * i + 1 == mantissa { TopDigit(v, i); }
    }
  }

  lemma {:induction false} PowOfFour(k: nat)
    ensures Pow(4, k) == Pow2(2 * k)
  {
    if k > 0 { PowOfFour(k - 1); }
  }

  lemma TopDigit(v: nat, i: nat)
    requires v < Pow2(2 * i + 1)
    ensures Digit(v, i) < 2
  {
    PowPositive(4, i);
    PowOfFour(i);
    var p := Pow(4, i);
    assert v == (v / p) * p + v % p;
    MulBelow(v / p, 2, p);
    QuotientNatural(v / p, p, v % p);
    SmallMod(v / p, 4);
  }

  // ---- the parameters

  datatype Params = Params(v: nat, rsizes: seq<nat>, digits: seq<nat>, minValue: int, mantissa: nat, scale: int, exp: int)

  predicate Admissible(value: int, minValue: int, exp: int, minBits: int) {
    0 <= value <= U64 && 0 <= minValue <= value && -1 <= exp <= MAX_EXP && 0 <= minBits <= MAX_MANTISSA
  }

  /** The range is refused: either end that large leaves the other none. */
  predicate Refuses(value: int, minValue: int, exp: int) {
    && exp >= 0 && minValue != U64
    && ((minValue != 0 && value > I63) || (value != 0 && minValue >= I63))
  }

  /** What the header promises of the value. */
  predicate Covers(p: Params, value: int, minValue: int) {
    && value == p.v * p.scale + p.minValue && p.scale == Scale(p.exp) && p.v < Pow2(p.mantissa)
    && p.rsizes == Rsizes(p.mantissa) && p.digits == Digits(p.v, |p.rsizes|)
    && minValue <= p.minValue <= value && value <= Ceiling(p.mantissa) * Scale(p.exp) + p.minValue
    && ValidHeader(p.exp, p.mantissa, if p.minValue == 0 then None else Some(p.minValue))
  }

  /** The precision there is left above the floor. */
  function AskedBits(minValue: nat, minBits: int): int {
    var room := if minValue != 0 then 64 - BitLength(minValue) else 64;
    if minBits < room then minBits else room
  }

  /** No scaling of a value in the top half, or at a precision near the whole field. */
  function AskedExp(value: int, bits: int, exp: int): int {
    if bits > 61 || value > I63 then 0 else exp
  }

  /** k is the largest exponent up to e under which the asked range fits 64 bits, or 0. */
  predicate LargestFitting(bits: nat, e: int, k: nat) {
    && k <= e && (k > 0 ==> Ceiling(bits) * Pow(10, k) <= U64)
    && (k < e ==> Ceiling(bits) * Pow(10, k + 1) > U64)
  }

  /** The parameters a request is answered with: the exact value, or the largest exponent, the quotient it leaves and its bits. */
  predicate Chosen(p: Params, value: int, minValue: nat, exp: int, minBits: int) {
    if exp < 0 || minValue == U64 then p == Params(0, [1], [0], value, 0, 1, -1) else
      var bits := AskedBits(minValue, minBits);
      && bits >= 0 && p.exp >= 0 && LargestFitting(bits, AskedExp(value, bits, exp), p.exp)
      && Reaches(value - minValue, p.v, p.exp) && p.mantissa == MantissaOf(p.v, bits)
  }

  /** The divisions by ten there is room for, and what they leave of the difference. */
  method ScaleDown(d: nat, exp: nat, minBits: nat) returns (v: nat, reached: nat)
    requires minBits <= 64
    ensures reached <= exp && Reaches(d, v, reached)
    ensures LargestFitting(minBits, exp, reached)
  {
    CeilingIsShift(minBits);
    var v2: int;
    v, v2, reached := d, if minBits == 0 then 0 else U64 / Pow2(64 - minBits), 0;
    StartsAtCeiling(minBits, v2);
    ghost var c := Ceiling(minBits);
    assert c * Pow(10, 0) == c && v * Pow(10, 0) == v;
    while reached < exp && v2 <= U64 / 10
      invariant reached <= exp && Reaches(d, v, reached) && v2 == c * Pow(10, reached)
      invariant reached > 0 ==> v2 <= U64
      decreases exp - reached
    {
      NextDivision(d, v, reached);
      TimesTen(c, reached);
      v, v2, reached := v / 10, v2 * 10, reached + 1;
    }
    TimesTen(c, reached);
  }

  lemma StartsAtCeiling(minBits: nat, v2: int)
    requires minBits <= 64 && (minBits == 0 ==> v2 == 0) && (minBits > 0 ==> v2 == Ceiling(minBits))
    ensures v2 == Ceiling(minBits)
  {
    assert Pow2(0) == 1;
  }

  lemma TimesTen(c: int, k: nat)
    ensures c * Pow(10, k + 1) == (c * Pow(10, k)) * 10
  {
    var p := Pow(10, k);
    assert c * (10 * p) == (c * p) * 10;
  }

  /** The bits of the value, at least one, or the precision asked for. */
  function MantissaOf(v: nat, minBits: nat): (m: nat)
    ensures m >= 1 && m >= minBits && m >= BitLength(v)
    ensures m == minBits || m == BitLength(v) || (m == 1 && v == 0)
  {
    var bits := if BitLength(v) == 0 then 1 else BitLength(v);
    if bits < minBits then minBits else bits
  }

  /** The parameters of every admissible request that is not refused describe a valid header. */
  method ProveParams(value: int, minValue: int, exp0: int, minBits0: int) returns (r: Option<Params>)
    requires Admissible(value, minValue, exp0, minBits0)
    ensures r.None? <==> Refuses(value, minValue, exp0)
    ensures r.Some? ==> Covers(r.value, value, minValue) && Chosen(r.value, value, minValue, exp0, minBits0)
  {
    var exp := if minValue == U64 then -1 else exp0;
    if exp < 0 {
      PublicCovers(value, minValue);
      return Some(Params(0, [1], [0], value, 0, 1, -1));
    }
    if (minValue != 0 && value > I63) || (value != 0 && minValue >= I63) { return None; }
    FloorBits(minValue);
    var maxBits := if minValue != 0 then 64 - BitLength(minValue) else 64;
    var minBits := if minBits0 < maxBits then minBits0 else maxBits;
    if minBits > 61 || value > I63 { exp := 0; }
    var v, reached := ScaleDown(value - minValue, exp, minBits);
    var mantissa := MantissaOf(v, minBits);
    var rsizes := Rsizes(mantissa);
    ChosenCovers(value, minValue, reached, minBits, v, mantissa);
    return Some(Params(v, rsizes, Digits(v, |rsizes|), value - v * Scale(reached), mantissa, Scale(reached), reached));
  }

  /** A request has one answer. */
  lemma ChosenOnce(p: Params, p': Params, value: int, minValue: nat, exp: int, minBits: int)
    requires Covers(p, value, minValue) && Chosen(p, value, minValue, exp, minBits)
    requires Covers(p', value, minValue) && Chosen(p', value, minValue, exp, minBits)
    ensures p == p'
  {
    if exp >= 0 && minValue != U64 {
      var bits := AskedBits(minValue, minBits);
      LargestOnce(bits, AskedExp(value, bits, exp), p.exp, p'.exp);
      QuotientOnce(value - minValue, p.v, p'.v, p.exp);
    }
  }

  lemma LargestOnce(bits: nat, e: int, j: nat, k: nat)
    requires LargestFitting(bits, e, j) && LargestFitting(bits, e, k)
    ensures j == k
  {
    if j < k { LargerFits(Ceiling(bits), j + 1, k); }
    if k < j { LargerFits(Ceiling(bits), k + 1, j); }
  }

  /** What fits under a larger exponent fits under a smaller one. */
  lemma {:induction false} LargerFits(c: nat, j: nat, k: nat)
    requires j <= k
    ensures c * Pow(10, j) <= c * Pow(10, k)
    decreases k - j
  {
    if j < k {
      TimesTen(c, j);
      PowPositive(10, j);
      ProductMonotone(0, c, Pow(10, j));
      LargerFits(c, j + 1, k);
    }
  }

  lemma QuotientOnce(d: int, v: int, v': int, k: nat)
    requires Reaches(d, v, k) && Reaches(d, v', k)
    ensures v == v'
  {
    PowPositive(10, k);
    if v < v' { ProductMonotone(v + 1, v', Pow(10, k)); }
    if v' < v { ProductMonotone(v' + 1, v, Pow(10, k)); }
  }

  lemma ChosenCovers(value: int, minValue: int, e: nat, minBits: nat, v: nat, mantissa: nat)
    requires Requested(value, minValue, e, minBits) && Reaches(value - minValue, v, e) && mantissa == MantissaOf(v, minBits)
    ensures Covers(Params(v, Rsizes(mantissa), Digits(v, |Rsizes(mantissa)|), value - v * Scale(e), mantissa, Scale(e), e), value, minValue)
  {
    FitsMantissa(v, mantissa, BitLength(v));
    RangeFits(value, minValue, e, minBits, v, value - v * Scale(e), mantissa);
  }

  lemma PublicCovers(value: int, minValue: int)
    requires 0 <= minValue <= value <= U64
    ensures Covers(Params(0, [1], [0], value, 0, 1, -1), value, minValue)
  {
    assert Pow2(0) == 1 && Scale(-1) == 1;
    assert Digits(0, 1) == [0] by { assert Pow(4, 0) == 1; }
  }

  lemma FloorBits(minValue: nat)
    requires minValue <= U64
    ensures BitLength(minValue) <= 64 && (minValue > 0 ==> BitLength(minValue) >= 1)
    ensures minValue < Pow2(BitLength(minValue))
  {
    Pow2Of64();
    BitLengthBelow(minValue, 64);
  }

  /** v is the difference after k divisions by ten. */
  predicate Reaches(d: int, v: int, k: nat) {
    v * Pow(10, k) <= d < (v + 1) * Pow(10, k)
  }

  lemma NextDivision(d: int, v: nat, k: nat)
    requires Reaches(d, v, k)
    ensures Reaches(d, v / 10, k + 1) && v / 10 >= 0
  {
    var p, q, r := Pow(10, k), v / 10, v % 10;
    PowPositive(10, k);
    assert Pow(10, k + 1) == 10 * p;
    assert v == 10 * q + r;
    assert q * (10 * p) == (10 * q) * p && (q + 1) * (10 * p) == (10 * q + 10) * p;
    ProductMonotone(10 * q, v, p);
    ProductMonotone(v + 1, 10 * q + 10, p);
  }

  lemma FitsMantissa(v: nat, mantissa: nat, bits: nat)
    requires bits == BitLength(v) && mantissa >= bits
    ensures v < Pow2(mantissa)
  {
    Pow2Monotone(bits, mantissa);
  }

  // ---- the bound

  /** The bits whose ceiling the exponent still leaves room for: 2^bits*10^e is in (2^63, 2^64]. */
  function CriticalBits(e: nat): nat
    requires 1 <= e <= 18
  {
    [60, 57, 54, 50, 47, 44, 40, 37, 34, 30, 27, 24, 20, 17, 14, 10, 7, 4][e - 1]
  }

  /** The powers as numbers, one exponent at a time. */
  lemma SmallPowers()
    ensures Pow2(4) == 16 && Pow2(7) == 128 && Pow2(10) == 1024 && Pow2(14) == 16384 && Pow2(17) == 131072
    ensures Pow2(20) == 1048576 && Pow2(24) == 16777216 && Pow2(27) == 134217728 && Pow2(30) == 1073741824
  {
    assert Pow2(2) == 4;
    Pow2Add(2, 2);
    assert Pow2(3) == 8;
    Pow2Add(4, 3);
    Pow2Add(7, 3);
    Pow2Add(10, 4);
    Pow2Add(14, 3);
    Pow2Add(17, 3);
    Pow2Add(20, 4);
    Pow2Add(24, 3);
    Pow2Add(27, 3);
  }

  lemma LargePowers()
    ensures Pow2(34) == 17179869184 && Pow2(37) == 137438953472 && Pow2(40) == 1099511627776 && Pow2(44) == 17592186044416
    ensures Pow2(47) == 140737488355328 && Pow2(50) == 1125899906842624 && Pow2(54) == 18014398509481984
    ensures Pow2(57) == 144115188075855872 && Pow2(60) == 1152921504606846976
  {
    SmallPowers();
    assert Pow2(3) == 8;
    Pow2Add(30, 4);
    Pow2Add(34, 3);
    Pow2Add(37, 3);
    Pow2Add(40, 4);
    Pow2Add(44, 3);
    Pow2Add(47, 3);
    Pow2Add(50, 4);
    Pow2Add(54, 3);
    Pow2Add(57, 3);
  }

  /** At the critical bits a floor of what is left still fits, and a bit more does not. */
  predicate CriticalFits(m: nat, e: nat)
    requires m <= 64
  {
    var a, b, t := Pow2(m), Pow2(64 - m), Pow(10, e);
    I63 < a * t && a * t + b <= U64 + 1 && (2 * a - 1) * t > U64
  }

  lemma TenPowers()
    ensures Pow(10, 1) == 10 && Pow(10, 2) == 100 && Pow(10, 3) == 1000 && Pow(10, 4) == 10000 && Pow(10, 5) == 100000 && Pow(10, 6) == 1000000
  {
    assert Pow(10, 0) == 1;
    assert Pow(10, 1) == 10 * Pow(10, 0);
    assert Pow(10, 2) == 10 * Pow(10, 1);
    assert Pow(10, 3) == 10 * Pow(10, 2);
    assert Pow(10, 4) == 10 * Pow(10, 3);
    assert Pow(10, 5) == 10 * Pow(10, 4);
    assert Pow(10, 6) == 10 * Pow(10, 5);
  }

  lemma MoreTenPowers()
    ensures Pow(10, 7) == 10000000 && Pow(10, 8) == 100000000 && Pow(10, 9) == 1000000000 && Pow(10, 10) == 10000000000
    ensures Pow(10, 11) == 100000000000 && Pow(10, 12) == 1000000000000
  {
    TenPowers();
    PowAdd(10, 6, 1);
    PowAdd(10, 6, 2);
    PowAdd(10, 6, 3);
    PowAdd(10, 6, 4);
    PowAdd(10, 6, 5);
    PowAdd(10, 6, 6);
  }

  lemma MostTenPowers()
    ensures Pow(10, 13) == 10000000000000 && Pow(10, 14) == 100000000000000 && Pow(10, 15) == 1000000000000000
    ensures Pow(10, 16) == 10000000000000000 && Pow(10, 17) == 100000000000000000 && Pow(10, 18) == 1000000000000000000
  {
    TenPowers();
    MoreTenPowers();
    PowAdd(10, 12, 1);
    PowAdd(10, 12, 2);
    PowAdd(10, 12, 3);
    PowAdd(10, 12, 4);
    PowAdd(10, 12, 5);
    PowAdd(10, 12, 6);
  }

  lemma CriticalLow(e: nat)
    requires 1 <= e <= 6
    ensures CriticalFits(CriticalBits(e), e)
  {
    TenPowers();
    SmallPowers();
    LargePowers();
  }

  lemma CriticalMiddle(e: nat)
    requires 7 <= e <= 12
    ensures CriticalFits(CriticalBits(e), e)
  {
    MoreTenPowers();
    SmallPowers();
    LargePowers();
  }

  lemma CriticalHigh(e: nat)
    requires 13 <= e <= 18
    ensures CriticalFits(CriticalBits(e), e)
  {
    MostTenPowers();
    SmallPowers();
    LargePowers();
  }

  lemma Critical(e: nat)
    requires 1 <= e <= 18
    ensures CriticalBits(e) <= 60 && CriticalFits(CriticalBits(e), e)
  {
    if e <= 6 { CriticalLow(e); } else if e <= 12 { CriticalMiddle(e); } else { CriticalHigh(e); }
  }

  /** Where the exponent leaves room for 2^m - 1 it leaves room for 2^m and a floor of 64 - m bits. */
  lemma RoomForFloor(m: nat, e: nat)
    requires 1 <= m <= 61 && 1 <= e <= 18 && Ceiling(m) * Pow(10, e) <= U64
    ensures Pow2(m) * Pow(10, e) + Pow2(64 - m) <= U64 + 1
  {
    var k := CriticalBits(e);
    Critical(e);
    PowPositive(10, e);
    if m < k {
      FewerBits(m, k, Pow(10, e));
    } else if m > k {
      Pow2Monotone(k + 1, m);
      ProductMonotone(2 * Pow2(k) - 1, Ceiling(m), Pow(10, e));
    }
  }

  lemma FewerBits(m: nat, k: nat, t: int)
    requires 1 <= m < k <= 60 && t > 0 && Pow2(k) * t + Pow2(64 - k) <= U64 + 1
    ensures Pow2(m) * t + Pow2(64 - m) <= U64 + 1
  {
    Pow2Of64();
    Pow2Monotone(m + 1, k);
    Pow2Monotone(64 - m, 63);
    HalfRoom(Pow2(m), Pow2(k), Pow2(64 - k), t, Pow2(64 - m));
  }

  lemma HalfRoom(a: int, c: int, d: int, t: int, b: int)
    requires 2 * a <= c && t > 0 && d > 0 && c * t + d <= U64 + 1 && b <= I63 + 1
    ensures a * t + b <= U64 + 1
  {
    ProductMonotone(2 * a, c, t);
    assert (2 * a) * t == 2 * (a * t);
  }

  /** The floor grows by less than one unit of the scale. */
  lemma FloorBetween(value: int, minValue: int, v: nat, t: int, floor: int)
    requires t > 0 && v * t <= value - minValue < (v + 1) * t && floor == value - v * t
    ensures minValue <= floor <= value && floor < minValue + t
  {
    assert (v + 1) * t == v * t + t;
    ProductMonotone(0, v, t);
  }

  /** Two strings of together 64 bits leave room for each other. */
  lemma BothFit(a: int, b: int, x: int)
    requires a >= 1 && b >= 1 && a * b <= U64 + 1 && 0 <= x < b
    ensures a - 1 + x <= U64
  {
    assert (a - 1) * (b - 1) >= 0;
    assert (a - 1) * (b - 1) == a * b - a - b + 1;
  }

  lemma BitsTogether(m: nat, minValue: nat)
    requires m <= 64 && minValue <= U64 && (minValue > 0 ==> m + BitLength(minValue) <= 64)
    ensures Ceiling(m) + minValue <= U64 && minValue < Pow2(64 - m)
  {
    Pow2Of64();
    if minValue > 0 {
      var l := BitLength(minValue);
      Pow2Monotone(l, 64 - m);
    }
    Pow2Add(m, 64 - m);
    BothFit(Pow2(m), Pow2(64 - m), minValue);
  }

  predicate Requested(value: int, minValue: int, e: nat, minBits: nat) {
    && 0 <= minValue <= value <= U64 && e <= 18 && minBits <= 64
    && (minValue > 0 ==> value <= I63) && (value > 0 ==> minValue < I63)
    && (minValue > 0 ==> minBits + BitLength(minValue) <= 64)
    && (e > 0 ==> minBits <= 61 && value <= I63 && Ceiling(minBits) * Pow(10, e) <= U64)
  }

  lemma UnscaledFits(value: int, minValue: int, minBits: nat, v: nat, mantissa: nat)
    requires Requested(value, minValue, 0, minBits) && v == value - minValue
    requires mantissa == minBits || mantissa == BitLength(v) || (mantissa == 1 && v == 0)
    ensures mantissa <= 64 && Ceiling(mantissa) + minValue <= U64
  {
    Pow2Of64();
    assert Pow2(1) == 2;
    if mantissa == minBits {
      BitsTogether(mantissa, minValue);
    } else if mantissa == BitLength(v) {
      BitLengthBelow(v, if minValue > 0 then 63 else 64);
      Pow2Monotone(mantissa, if minValue > 0 then 63 else 64);
    }
  }

  /** The digits of the value itself: 2^bits is at most twice the value. */
  lemma OwnBitsFit(value: int, v: nat, t: int, floor: int, c: int)
    requires t > 0 && c <= 2 * v - 1 && floor == value - v * t && v * t <= value <= I63
    ensures c * t + floor <= U64
  {
    ProductMonotone(c, 2 * v - 1, t);
    assert (2 * v - 1) * t == 2 * (v * t) - t;
  }

  lemma AskedBitsFit(m: nat, t: int, floor: int, minValue: int)
    requires m <= 64 && Pow2(m) * t + Pow2(64 - m) <= U64 + 1 && floor < minValue + t && minValue < Pow2(64 - m)
    ensures Ceiling(m) * t + floor <= U64
  {
    assert (Pow2(m) - 1) * t == Pow2(m) * t - t;
  }

  lemma SmallScale(e: nat)
    requires e <= 18
    ensures 0 < Pow(10, e) <= 1000000000000000000
  {
    PowGrows(e, 18);
    MostTenPowers();
  }

  lemma ScaledFits(value: int, minValue: int, e: nat, minBits: nat, v: nat, floor: int, mantissa: nat)
    requires Requested(value, minValue, e, minBits) && e > 0 && Reaches(value - minValue, v, e) && floor == value - v * Pow(10, e)
    requires (mantissa == minBits && minBits >= 1) || (mantissa == BitLength(v) && v > 0) || (mantissa == 1 && v == 0)
    ensures mantissa <= 64 && Ceiling(mantissa) * Pow(10, e) + floor <= U64
  {
    var t := Pow(10, e);
    SmallScale(e);
    FloorBetween(value, minValue, v, t, floor);
    if mantissa == minBits && minBits >= 1 {
      RoomForFloor(minBits, e);
      BitsTogether(minBits, minValue);
      AskedBitsFit(minBits, t, floor, minValue);
    } else if v > 0 {
      OwnBitsFit(value, v, t, floor, Ceiling(mantissa));
      Pow2Of64();
      ProductMonotone(1, t, v);
      BitLengthBelow(v, 63);
    } else {
      assert Pow2(1) == 2;
    }
  }

  /** The chosen header states a range that contains the value and that a uint64 holds. */
  lemma RangeFits(value: int, minValue: int, e: nat, minBits: nat, v: nat, floor: int, mantissa: nat)
    requires Requested(value, minValue, e, minBits) && Reaches(value - minValue, v, e) && floor == value - v * Pow(10, e)
    requires mantissa >= 1 && mantissa >= minBits && mantissa >= BitLength(v)
    requires mantissa == minBits || mantissa == BitLength(v) || (mantissa == 1 && v == 0)
    ensures minValue <= floor <= value <= Ceiling(mantissa) * Scale(e) + floor
    ensures ValidHeader(e, mantissa, if floor == 0 then None else Some(floor))
  {
    PowPositive(10, e);
    FloorBetween(value, minValue, v, Pow(10, e), floor);
    if e == 0 {
      assert Pow(10, 0) == 1;
      UnscaledFits(value, minValue, minBits, v, mantissa);
      assert Ceiling(mantissa) * 1 == Ceiling(mantissa);
    } else {
      ScaledFits(value, minValue, e, minBits, v, floor, mantissa);
    }
    FitsMantissa(v, mantissa, BitLength(v));
    ProductMonotone(v, Ceiling(mantissa), Pow(10, e));
  }
}
