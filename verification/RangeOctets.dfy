/** The octets of a range proof: the header, packed sign bits, ring commitments and the ring signature. */
module RangeOctets {
  import opened Modular
  import opened Octets
  import opened Borromean
  import opened RangeParams
  import opened RangeProofs
  import opened RangeMessage

  // ---- sign bits

  function Bit(v: nat, i: nat): bool { (v / Pow2(i)) % 2 == 1 }

  function BitsValue(bs: seq<bool>): (v: nat)
    ensures v < Pow2(|bs|)
  {
    if bs == [] then 0 else (if bs[0] then 1 else 0) + 2 * BitsValue(bs[1..])
  }

  lemma HalfQuotient(v: nat, p: int)
    requires p > 0
    ensures v / (2 * p) == (v / 2) / p
  {
    var q, r := v / (2 * p), v % (2 * p);
    assert v == q * (2 * p) + r;
    assert q * (2 * p) == 2 * (q * p);
    DivModUnique(v / 2, p, q, v / 2 - q * p);
  }

  lemma NextBit(v: nat, i: nat)
    requires i > 0
    ensures Bit(v, i) == Bit(v / 2, i - 1)
  {
    HalfQuotient(v, Pow2(i - 1));
  }

  lemma {:induction false} BitOfValue(bs: seq<bool>, i: nat)
    requires i < |bs|
    ensures Bit(BitsValue(bs), i) == bs[i]
    decreases i
  {
    if i > 0 {
      NextBit(BitsValue(bs), i);
      BitOfValue(bs[1..], i - 1);
    }
  }

  function BitsOf(v: nat, k: nat): (bs: seq<bool>)
    ensures |bs| == k
  {
    seq(k, i requires 0 <= i < k => Bit(v, i))
  }

  lemma {:induction false} ValueOfBits(v: nat, k: nat)
    requires v < Pow2(k)
    ensures BitsValue(BitsOf(v, k)) == v
  {
    if k > 0 {
      ValueOfBits(v / 2, k - 1);
      forall i | 0 <= i < k - 1 ensures BitsOf(v, k)[1..][i] == BitsOf(v / 2, k - 1)[i] { NextBit(v, i + 1); }
      assert BitsOf(v, k)[1..] == BitsOf(v / 2, k - 1);
    }
  }

  /** How many octets the sign bits of that many rings take: one bit per ring but the last, rounded up. */
  function SignOctets(rings: nat): nat { (rings + 6) / 8 }

  /** The bits the k-th octet carries. */
  function Group8(signs: seq<bool>, k: nat): (bs: seq<bool>)
    requires 8 * k <= |signs|
    ensures |bs| <= 8
  {
    signs[8 * k..if 8 * k + 8 <= |signs| then 8 * k + 8 else |signs|]
  }

  function PackOctet(signs: seq<bool>, k: nat): byte
    requires 8 * k <= |signs|
  {
    Below256(Group8(signs, k));
    BitsValue(Group8(signs, k))
  }

  lemma Below256(bs: seq<bool>)
    requires |bs| <= 8
    ensures BitsValue(bs) < 256
  {
    Pow2Monotone(|bs|, 8);
    assert Pow2(8) == 256 by { assert Pow2(4) == 16; }
  }

  function PackSigns(signs: seq<bool>): (b: Bytes)
    ensures |b| == SignOctets(|signs| + 1)
  {
    seq(SignOctets(|signs| + 1), k requires 0 <= k < SignOctets(|signs| + 1) => PackOctet(signs, k))
  }

  function UnpackSigns(octets: Bytes, m: nat): (signs: seq<bool>)
    requires |octets| == SignOctets(m + 1)
    ensures |signs| == m
  {
    seq(m, i requires 0 <= i < m => Bit(octets[i / 8], i % 8))
  }

  /** No bit is set above the last sign bit. */
  predicate PaddingClear(octets: Bytes, m: nat)
    requires |octets| == SignOctets(m + 1)
  {
    m % 8 != 0 ==> octets[|octets| - 1] < Pow2(m % 8)
  }

  lemma UnpackPack(signs: seq<bool>)
    ensures PaddingClear(PackSigns(signs), |signs|) && UnpackSigns(PackSigns(signs), |signs|) == signs
  {
    var m, b := |signs|, PackSigns(signs);
    forall i | 0 <= i < m ensures Bit(b[i / 8], i % 8) == signs[i] {
      BitOfValue(Group8(signs, i / 8), i % 8);
      assert Group8(signs, i / 8)[i % 8] == signs[8 * (i / 8) + i % 8];
    }
    if m % 8 != 0 { assert |Group8(signs, m / 8)| == m % 8 && |b| - 1 == m / 8; }
  }

  lemma PackUnpack(octets: Bytes, m: nat)
    requires |octets| == SignOctets(m + 1) && PaddingClear(octets, m)
    ensures PackSigns(UnpackSigns(octets, m)) == octets
  {
    var signs := UnpackSigns(octets, m);
    assert Pow2(8) == 256 by { assert Pow2(4) == 16; }
    forall k | 0 <= k < |octets| ensures PackOctet(signs, k) == octets[k] {
      var g := Group8(signs, k);
      forall i | 0 <= i < |g| ensures g[i] == Bit(octets[k], i) {
        assert g[i] == signs[8 * k + i];
        assert (8 * k + i) / 8 == k && (8 * k + i) % 8 == i;
      }
      assert g == BitsOf(octets[k], |g|);
      ValueOfBits(octets[k], |g|);
    }
  }

  // ---- numbers of 32 octets

  function WriteNums(xs: seq<int>): Bytes
    requires forall i :: 0 <= i < |xs| ==> xs[i] >= 0
  {
    if xs == [] then [] else ToBytes(xs[0], 32) + WriteNums(xs[1..])
  }

  function ReadNums(b: Bytes, k: nat): (r: Option<(seq<int>, Bytes)>)
    ensures r.Some? ==> |r.value.0| == k
  {
    if k == 0 then Some(([], b)) else if |b| < 32 then None else
      match ReadNums(b[32..], k - 1)
      case None => None
      case Some(rest) => Some(([Num(b[..32])] + rest.0, rest.1))
  }

  predicate Fit(xs: seq<int>) { forall i :: 0 <= i < |xs| ==> 0 <= xs[i] < Pow(256, 32) }

  lemma {:induction false} ReadWritten(xs: seq<int>, rest: Bytes)
    requires Fit(xs)
    ensures ReadNums(WriteNums(xs) + rest, |xs|) == Some((xs, rest))
  {
    if xs == [] {
      assert WriteNums(xs) + rest == rest;
    } else {
      var b := WriteNums(xs) + rest;
      NumToBytes(xs[0], 32);
      assert b[..32] == ToBytes(xs[0], 32) && b[32..] == WriteNums(xs[1..]) + rest;
      ReadWritten(xs[1..], rest);
      assert [xs[0]] + xs[1..] == xs;
    }
  }

  lemma {:induction false} WrittenRead(b: Bytes, k: nat)
    requires ReadNums(b, k).Some?
    ensures var r := ReadNums(b, k).value; Fit(r.0) && b == WriteNums(r.0) + r.1
    decreases k
  {
    if k == 0 {
      assert WriteNums([]) + b == b;
    } else {
      WrittenRead(b[32..], k - 1);
      NumBound(b[..32]);
      ToBytesNum(b[..32]);
      assert b == b[..32] + b[32..];
      assert ReadNums(b, k).value.0[1..] == ReadNums(b[32..], k - 1).value.0;
    }
  }

  function WriteRings(s: seq<seq<int>>): Bytes
    requires forall i, j :: 0 <= i < |s| && 0 <= j < |s[i]| ==> s[i][j] >= 0
  {
    if s == [] then [] else WriteNums(s[0]) + WriteRings(s[1..])
  }

  function ReadRings(b: Bytes, rsizes: seq<nat>): (r: Option<(seq<seq<int>>, Bytes)>)
    ensures r.Some? ==> |r.value.0| == |rsizes| && forall i :: 0 <= i < |rsizes| ==> |r.value.0[i]| == rsizes[i]
    decreases |rsizes|
  {
    if rsizes == [] then Some(([], b)) else
      match ReadNums(b, rsizes[0])
      case None => None
      case Some(ring) =>
        match ReadRings(ring.1, rsizes[1..])
        case None => None
        case Some(rest) => Some(([ring.0] + rest.0, rest.1))
  }

  predicate AllFit(s: seq<seq<int>>) { forall i :: 0 <= i < |s| ==> Fit(s[i]) }

  lemma {:induction false} RingsReadWritten(s: seq<seq<int>>, rsizes: seq<nat>, rest: Bytes)
    requires AllFit(s) && |s| == |rsizes| && forall i :: 0 <= i < |s| ==> |s[i]| == rsizes[i]
    ensures ReadRings(WriteRings(s) + rest, rsizes) == Some((s, rest))
    decreases |s|
  {
    if s == [] {
      assert WriteRings(s) + rest == rest;
    } else {
      assert WriteRings(s) + rest == WriteNums(s[0]) + (WriteRings(s[1..]) + rest);
      ReadWritten(s[0], WriteRings(s[1..]) + rest);
      RingsReadWritten(s[1..], rsizes[1..], rest);
      assert [s[0]] + s[1..] == s;
    }
  }

  lemma {:induction false} RingsWrittenRead(b: Bytes, rsizes: seq<nat>)
    requires ReadRings(b, rsizes).Some?
    ensures var r := ReadRings(b, rsizes).value; AllFit(r.0) && b == WriteRings(r.0) + r.1
    decreases |rsizes|
  {
    if rsizes == [] {
      assert WriteRings([]) + b == b;
    } else {
      WrittenRead(b, rsizes[0]);
      var ring := ReadNums(b, rsizes[0]).value;
      RingsWrittenRead(ring.1, rsizes[1..]);
      var rest := ReadRings(ring.1, rsizes[1..]).value;
      assert ReadRings(b, rsizes).value.0[1..] == rest.0;
      assert b == WriteNums(ring.0) + (WriteRings(rest.0) + rest.1);
    }
  }

  // ---- the header

  function HasRange(flags: byte): bool { (flags / 64) % 2 == 1 }

  function HasMin(flags: byte): bool { (flags / 32) % 2 == 1 }

  /** The fields the flags octet says follow it, and what is left. */
  function ParseHeader(b: Bytes): (r: Option<(int, int, Option<int>, Bytes)>)
    ensures r.Some? ==> 0 <= r.value.1 <= 64
  {
    if b == [] || b[0] >= 128 then None
    else if HasRange(b[0]) then
      if |b| < 2 || b[1] > 63 then None else ParseMin(b[0], b[0] % 32, b[1] as int + 1, b[2..])
    else ParseMin(b[0], -1, 0, b[1..])
  }

  function ParseMin(flags: byte, exp: int, mantissa: int, b: Bytes): Option<(int, int, Option<int>, Bytes)> {
    if !HasMin(flags) then Some((exp, mantissa, None, b))
    else if |b| < 8 then None else Some((exp, mantissa, Some(Num(b[..8])), b[8..]))
  }

  lemma FlagBits(exp: int, mantissa: int, hasMin: bool)
    requires 0 <= exp <= MAX_EXP
    ensures var f := (if mantissa != 0 then 64 + exp else 0) + (if hasMin then 32 else 0);
            && 0 <= f < 128 && HasRange(f) == (mantissa != 0) && HasMin(f) == hasMin && (mantissa != 0 ==> f % 32 == exp)
  {
  }

  /** A header reads back from what is written. */
  lemma HeaderRoundTrip(exp: int, mantissa: int, minValue: Option<int>, rest: Bytes)
    requires ValidHeader(exp, mantissa, minValue)
    ensures ParseHeader(HeaderOctets(exp, mantissa, minValue) + rest) == Some((exp, mantissa, minValue, rest))
  {
    var h := HeaderOctets(exp, mantissa, minValue);
    FlagBits(if mantissa != 0 then exp else 0, mantissa, minValue.Some?);
    var m := if minValue.Some? then ToBytes(minValue.value, 8) else [];
    FloorOctets(minValue);
    MinRead(h[0], exp, mantissa, minValue, m, rest);
    HeaderSplit(h[0], if mantissa != 0 then [mantissa - 1] else [], m, rest);
  }

  lemma FloorOctets(minValue: Option<int>)
    requires minValue.Some? ==> 0 <= minValue.value <= U64
    ensures minValue.Some? ==> Num(ToBytes(minValue.value, 8)) == minValue.value
  {
    EightOctets();
    if minValue.Some? { NumToBytes(minValue.value, 8); }
  }

  lemma HeaderSplit(flags: byte, a: Bytes, m: Bytes, rest: Bytes)
    requires |a| <= 1
    ensures var b := [flags] + a + m + rest;
            b[0] == flags && b[1 + |a|..] == m + rest && (a != [] ==> b[1] == a[0])
  {
  }

  lemma MinRead(flags: byte, exp: int, mantissa: int, minValue: Option<int>, m: Bytes, rest: Bytes)
    requires HasMin(flags) == minValue.Some?
    requires minValue.Some? ==> |m| == 8 && Num(m) == minValue.value
    requires minValue.None? ==> m == []
    ensures ParseMin(flags, exp, mantissa, m + rest) == Some((exp, mantissa, minValue, rest))
  {
    if minValue.Some? {
      assert (m + rest)[..8] == m && (m + rest)[8..] == rest;
    } else {
      assert m + rest == rest;
    }
  }

  /** The flags say the range, or the five bits that only a range reads are zero. */
  predicate NoStrayBits(b: Bytes) {
    b != [] && (HasRange(b[0]) || b[0] % 32 == 0)
  }

  lemma FlagsBack(flags: byte)
    requires flags < 128
    ensures var exp := if HasRange(flags) then flags % 32 else 0;
            (if HasRange(flags) then 64 + exp else 0) + (if HasMin(flags) then 32 else 0) == flags
            <==> HasRange(flags) || flags % 32 == 0
  {
  }

  /** A header that was read is written back as it was, exactly when no bit was ignored. */
  lemma HeaderWrittenBack(b: Bytes)
    requires ParseHeader(b).Some?
    requires var h := ParseHeader(b).value; ValidHeader(h.0, h.1, h.2)
    ensures var h := ParseHeader(b).value;
            && |HeaderOctets(h.0, h.1, h.2)| + |h.3| == |b| && h.3 == b[|b| - |h.3|..]
            && (b == HeaderOctets(h.0, h.1, h.2) + h.3 <==> NoStrayBits(b))
  {
    var h := ParseHeader(b).value;
    var flags := b[0];
    FlagsBack(flags);
    var fields := if HasRange(flags) then b[2..] else b[1..];
    if HasMin(flags) {
      ToBytesNum(fields[..8]);
      assert fields == fields[..8] + fields[8..];
    }
    var written := HeaderOctets(h.0, h.1, h.2);
    assert b == [flags] + b[1..];
    if HasRange(flags) { assert b[1..] == [b[1]] + b[2..]; }
    var head := if HasRange(flags) then [b[1]] else [];
    var min := if HasMin(flags) then fields[..8] else [];
    assert b == [flags] + head + min + h.3;
    assert written == [written[0]] + head + min;
    assert written[0] == flags <==> NoStrayBits(b);
    assert (written + h.3)[0] == written[0];
  }

  // ---- the whole proof

  /** serialize, for a proof that is valid. */
  function Serialized(p: RangeProof, n: int): Bytes
    requires ValidProof(p, n)
  {
    HeaderOctets(p.exp, p.mantissa, p.minValue) + PackSigns(p.signs) + WriteNums(p.xs) + p.sig.e0 + WriteRings(p.sig.s)
  }

  /** The sign bits that head a body, the padding above the last one being clear. */
  function ReadSigns(b: Bytes, m: nat): Option<(seq<bool>, Bytes)> {
    var k := SignOctets(m + 1);
    if |b| < k || !PaddingClear(b[..k], m) then None else Some((UnpackSigns(b[..k], m), b[k..]))
  }

  /** What ends a proof: e0 and the rings, with no octet after them. */
  function ParseSig(b: Bytes, rsizes: seq<nat>): Option<BorromeanSig> {
    if |b| < 32 then None else
      match ReadRings(b[32..], rsizes)
      case None => None
      case Some(s) => if s.1 != [] then None else Some(BorromeanSig(b[..32], s.0))
  }

  function ParseBody(b: Bytes, mantissa: nat): Option<(seq<bool>, seq<int>, BorromeanSig)> {
    ParseParts(b, Rsizes(mantissa))
  }

  /** Sign bits and coordinates of every ring but the last, then the signature. */
  function ParseParts(b: Bytes, rsizes: seq<nat>): Option<(seq<bool>, seq<int>, BorromeanSig)>
    requires rsizes != []
  {
    var m := |rsizes| - 1;
    match ReadSigns(b, m)
    case None => None
    case Some(signs) =>
      match ReadNums(signs.1, m)
      case None => None
      case Some(xs) =>
        match ParseSig(xs.1, rsizes)
        case None => None
        case Some(sig) => Some((signs.0, xs.0, sig))
  }

  /** parse with its validity check. */
  function Parsed(b: Bytes, n: int): Option<RangeProof> {
    match ParseHeader(b)
    case None => None
    case Some(h) =>
      match ParseBody(h.3, h.1)
      case None => None
      case Some(body) =>
        var p := RangeProof(h.0, h.1, h.2, body.0, body.1, body.2);
        if ValidProof(p, n) then Some(p) else None
  }

  lemma ScalarsFit(p: RangeProof, n: int)
    requires ValidProof(p, n) && n <= Pow(256, 32)
    ensures Fit(p.xs) && AllFit(p.sig.s)
  {
  }

  lemma SignsReadWritten(signs: seq<bool>, rest: Bytes)
    ensures ReadSigns(PackSigns(signs) + rest, |signs|) == Some((signs, rest))
  {
    var b := PackSigns(signs);
    UnpackPack(signs);
    assert (b + rest)[..|b|] == b && (b + rest)[|b|..] == rest;
  }

  lemma SigReadWritten(sig: BorromeanSig, rsizes: seq<nat>)
    requires AllFit(sig.s) && |sig.e0| == 32 && |sig.s| == |rsizes| && forall i :: 0 <= i < |rsizes| ==> |sig.s[i]| == rsizes[i]
    ensures ParseSig(sig.e0 + WriteRings(sig.s), rsizes) == Some(sig)
  {
    var rings := WriteRings(sig.s);
    assert (sig.e0 + rings)[..32] == sig.e0 && (sig.e0 + rings)[32..] == rings;
    assert rings + [] == rings;
    RingsReadWritten(sig.s, rsizes, []);
  }

  lemma BodyRoundTrip(p: RangeProof, n: int)
    requires ValidProof(p, n) && n <= Pow(256, 32) && |p.sig.e0| == 32
    ensures ParseBody(PackSigns(p.signs) + WriteNums(p.xs) + p.sig.e0 + WriteRings(p.sig.s), p.mantissa) == Some((p.signs, p.xs, p.sig))
  {
    var signs, xs, sig := PackSigns(p.signs), WriteNums(p.xs), p.sig.e0 + WriteRings(p.sig.s);
    ScalarsFit(p, n);
    assert signs + xs + p.sig.e0 + WriteRings(p.sig.s) == signs + (xs + sig);
    SignsReadWritten(p.signs, xs + sig);
    ReadWritten(p.xs, sig);
    SigReadWritten(p.sig, Rsizes(p.mantissa));
  }

  /** parse(serialize(p)) = p for every valid proof with an e0 of 32 octets. */
  lemma ParseSerialize(p: RangeProof, n: int)
    requires ValidProof(p, n) && n <= Pow(256, 32) && |p.sig.e0| == 32
    ensures Parsed(Serialized(p, n), n) == Some(p)
  {
    var signs, xs, rings := PackSigns(p.signs), WriteNums(p.xs), WriteRings(p.sig.s);
    HeaderRoundTrip(p.exp, p.mantissa, p.minValue, signs + xs + p.sig.e0 + rings);
    BodyRoundTrip(p, n);
    FiveParts(HeaderOctets(p.exp, p.mantissa, p.minValue), signs, xs, p.sig.e0, rings);
  }

  lemma FiveParts(h: Bytes, a: Bytes, b: Bytes, c: Bytes, d: Bytes)
    ensures h + a + b + c + d == h + (a + b + c + d)
  {
  }

  lemma FourParts(b: Bytes, k: nat, a: Bytes, x: Bytes, rest: Bytes, e: Bytes, s: Bytes)
    requires k <= |b| && b[..k] == a && b[k..] == x + rest && |rest| >= 32 && rest[..32] == e && rest[32..] == s
    ensures b == a + x + e + s
  {
    assert rest == e + s && b == b[..k] + b[k..];
  }

  lemma BodyWrittenBack(b: Bytes, mantissa: nat)
    requires ParseBody(b, mantissa).Some?
    ensures var body := ParseBody(b, mantissa).value;
            && Fit(body.1) && AllFit(body.2.s) && |body.2.e0| == 32
            && b == PackSigns(body.0) + WriteNums(body.1) + body.2.e0 + WriteRings(body.2.s)
  {
    var m := |Rsizes(mantissa)| - 1;
    var k := SignOctets(m + 1);
    PackUnpack(b[..k], m);
    WrittenRead(b[k..], m);
    var xs := ReadNums(b[k..], m).value;
    SigWrittenBack(xs.1, Rsizes(mantissa));
    var sig := ParseSig(xs.1, Rsizes(mantissa)).value;
    FourParts(b, k, b[..k], WriteNums(xs.0), xs.1, sig.e0, WriteRings(sig.s));
  }

  lemma SigWrittenBack(b: Bytes, rsizes: seq<nat>)
    requires ParseSig(b, rsizes).Some?
    ensures var sig := ParseSig(b, rsizes).value;
            |sig.e0| == 32 && AllFit(sig.s) && b == sig.e0 + WriteRings(sig.s)
  {
    RingsWrittenRead(b[32..], rsizes);
    var s := ReadRings(b[32..], rsizes).value;
    assert WriteRings(s.0) + [] == WriteRings(s.0);
    assert b == b[..32] + b[32..];
  }

  /** serialize(parse(b)) = b for an accepted b exactly when no flag bit was ignored. */
  lemma SerializeParse(b: Bytes, n: int)
    requires Parsed(b, n).Some?
    ensures Serialized(Parsed(b, n).value, n) == b <==> NoStrayBits(b)
  {
    var h := ParseHeader(b).value;
    HeaderWrittenBack(b);
    BodyWrittenBack(h.3, h.1);
    var body := ParseBody(h.3, h.1).value;
    FiveParts(HeaderOctets(h.0, h.1, h.2), PackSigns(body.0), WriteNums(body.1), body.2.e0, WriteRings(body.2.s));
  }

  /** Flags with a stray bit and no range, then an e0 and one scalar, all zero. */
  function StrayOctets(): Bytes { [1] + ZeroBytes(64) }

  lemma ZeroRing(n: int)
    requires n > 0
    ensures ParseBody(ZeroBytes(64), 0) == Some(([], [], BorromeanSig(ZeroBytes(32), [[0]])))
  {
    var b := ZeroBytes(64);
    assert b[..0] == [] && b[0..] == b;
    assert b[..32] == ZeroBytes(32) && b[32..] == ZeroBytes(32);
    var t := ZeroBytes(32);
    assert t[..32] == t && t[32..] == [];
    NumZeros(32);
    assert ReadNums([], 0) == Some(([], []));
    assert [0] + [] == [0];
    assert ReadNums(t, 1) == Some(([0], []));
    assert ReadRings([], [1][1..]) == Some(([], []));
    assert [[0]] + [] == [[0]];
    assert ReadRings(t, [1]) == Some(([[0]], []));
  }

  /** An input that does not come back: it is accepted, and what is written has no stray bit. */
  lemma StrayInput(n: int)
    requires n > 0
    ensures Parsed(StrayOctets(), n).Some? && Serialized(Parsed(StrayOctets(), n).value, n) == [0] + ZeroBytes(64) != StrayOctets()
  {
    var b := StrayOctets();
    assert b[1..] == ZeroBytes(64) && !HasRange(1) && !HasMin(1);
    ZeroRing(n);
    var p := RangeProof(-1, 0, None, [], [], BorromeanSig(ZeroBytes(32), [[0]]));
    assert Parsed(b, n) == Some(p);
    StrayWritten(p, n);
  }

  lemma StrayWritten(p: RangeProof, n: int)
    requires p == RangeProof(-1, 0, None, [], [], BorromeanSig(ZeroBytes(32), [[0]])) && ValidProof(p, n)
    ensures Serialized(p, n) == [0] + ZeroBytes(64)
  {
    ToBytesNum(ZeroBytes(32));
    NumZeros(32);
    assert PackSigns([]) == [] && WriteNums([]) == [];
    assert WriteNums([0]) == ZeroBytes(32);
    assert WriteRings([[0]]) == ZeroBytes(32) + [];
  }

  // ---- the octets written in place, and read from a stream

  /** v with a bit that is clear set. */
  function WithBit(v: nat, i: nat, set_: bool): nat { if set_ then v + Pow2(i) else v }

  lemma {:induction false} AppendBit(bs: seq<bool>, set_: bool)
    ensures BitsValue(bs + [set_]) == WithBit(BitsValue(bs), |bs|, set_)
  {
    if bs == [] {
      assert ([] + [set_])[1..] == [];
      assert Pow2(0) == 1;
    } else {
      assert (bs + [set_])[1..] == bs[1..] + [set_];
      AppendBit(bs[1..], set_);
    }
  }

  lemma GroupGrows(signs: seq<bool>, i: nat, k: nat)
    requires i < |signs| && 8 * k <= i + 1
    ensures k == i / 8 ==> 8 * k <= i && Group8(signs[..i + 1], k) == Group8(signs[..i], k) + [signs[i]] && |Group8(signs[..i], k)| == i % 8
    ensures k != i / 8 && 8 * k <= i ==> Group8(signs[..i + 1], k) == Group8(signs[..i], k)
  {
  }

  /** The sign bits, each set in its octet of a buffer of zeros. */
  method WriteSigns(signs: seq<bool>) returns (b: Bytes)
    ensures b == PackSigns(signs)
  {
    var size := SignOctets(|signs| + 1);
    var octets := new byte[size](_ => 0);
    for i := 0 to |signs|
      invariant forall k :: 0 <= k < size ==> octets[k] == (if 8 * k <= i then PackOctet(signs[..i], k) else 0)
    {
      var k0 := i / 8;
      assert k0 < size && 8 * k0 <= i;
      GroupGrows(signs, i, k0);
      AppendBit(Group8(signs[..i], k0), signs[i]);
      Below256(Group8(signs[..i + 1], k0));
      octets[k0] := WithBit(octets[k0], i % 8, signs[i]);
      forall k | 0 <= k < size && 8 * k <= i + 1 && k != k0 ensures octets[k] == PackOctet(signs[..i + 1], k) {
        GroupGrows(signs, i, k);
        if 8 * k == i + 1 { assert Group8(signs[..i + 1], k) == []; }
      }
    }
    assert signs[..|signs|] == signs;
    b := octets[..];
  }

  method Serialize(p: RangeProof, n: int) returns (b: Bytes)
    requires ValidProof(p, n)
    ensures b == Serialized(p, n)
  {
    var signs := WriteSigns(p.signs);
    b := HeaderOctets(p.exp, p.mantissa, p.minValue) + signs;
    ghost var head := b;
    for i := 0 to |p.xs|
      invariant b == head + WriteNums(p.xs[..i])
    {
      WriteNumsLast(p.xs, i);
      b := b + ToBytes(p.xs[i], 32);
    }
    assert p.xs[..|p.xs|] == p.xs;
    b := b + p.sig.e0 + WriteRings(p.sig.s);
  }

  lemma {:induction false} WriteNumsLast(xs: seq<int>, i: nat)
    requires i < |xs| && forall k :: 0 <= k < |xs| ==> xs[k] >= 0
    ensures WriteNums(xs[..i + 1]) == WriteNums(xs[..i]) + ToBytes(xs[i], 32)
    decreases i
  {
    if i == 0 {
      assert xs[..1][1..] == [] && xs[..0] == [];
    } else {
      assert xs[..i + 1][1..] == xs[1..][..i] && xs[..i][1..] == xs[1..][..i - 1];
      WriteNumsLast(xs[1..], i - 1);
    }
  }

  /** Numbers of 32 octets off a stream. */
  method TakeNums(stream: Stream, k: nat) returns (r: Option<seq<int>>)
    requires stream.Valid()
    modifies stream
    ensures stream.Valid() && (r.None? <==> ReadNums(old(stream.Rest()), k).None?)
    ensures r.Some? ==> ReadNums(old(stream.Rest()), k) == Some((r.value, stream.Rest()))
  {
    if k == 0 { return Some([]); }
    var head := stream.ReadExactly(32);
    if head.None? { return None; }
    var rest := TakeNums(stream, k - 1);
    if rest.None? { return None; }
    return Some([Num(head.value)] + rest.value);
  }

  method TakeRings(stream: Stream, rsizes: seq<nat>) returns (r: Option<seq<seq<int>>>)
    requires stream.Valid()
    modifies stream
    ensures stream.Valid() && (r.None? <==> ReadRings(old(stream.Rest()), rsizes).None?)
    ensures r.Some? ==> ReadRings(old(stream.Rest()), rsizes) == Some((r.value, stream.Rest()))
    decreases |rsizes|
  {
    if rsizes == [] { return Some([]); }
    var ring := TakeNums(stream, rsizes[0]);
    if ring.None? { return None; }
    var rest := TakeRings(stream, rsizes[1..]);
    if rest.None? { return None; }
    return Some([ring.value] + rest.value);
  }

  /** parse: None for every refusal, the validity of the result being checked last. */
  method Parse(b: Bytes, n: int) returns (r: Option<RangeProof>)
    ensures r == Parsed(b, n)
  {
    var h := ParseHeader(b);
    if h.None? { return None; }
    var exp, mantissa, minValue, rest := h.value.0, h.value.1, h.value.2, h.value.3;
    var body := TakeBody(rest, mantissa);
    if body.None? { return None; }
    var p := RangeProof(exp, mantissa, minValue, body.value.0, body.value.1, body.value.2);
    return if ValidProof(p, n) then Some(p) else None;
  }

  method TakeSig(stream: Stream, rsizes: seq<nat>) returns (r: Option<BorromeanSig>)
    requires stream.Valid()
    modifies stream
    ensures r == ParseSig(old(stream.Rest()), rsizes)
  {
    var e0 := stream.ReadExactly(32);
    if e0.None? { return None; }
    var s := TakeRings(stream, rsizes);
    if s.None? { return None; }
    var more := stream.Read(1);
    if more != [] { return None; }
    return Some(BorromeanSig(e0.value, s.value));
  }

  method TakeSigns(stream: Stream, m: nat) returns (r: Option<seq<bool>>)
    requires stream.Valid()
    modifies stream
    ensures stream.Valid() && (r.None? <==> ReadSigns(old(stream.Rest()), m).None?)
    ensures r.Some? ==> ReadSigns(old(stream.Rest()), m) == Some((r.value, stream.Rest()))
  {
    var octets := stream.ReadExactly(SignOctets(m + 1));
    if octets.None? || !PaddingClear(octets.value, m) { return None; }
    return Some(UnpackSigns(octets.value, m));
  }

  method TakeBody(b: Bytes, mantissa: nat) returns (r: Option<(seq<bool>, seq<int>, BorromeanSig)>)
    ensures r == ParseBody(b, mantissa)
  {
    r := TakeParts(b, Rsizes(mantissa));
  }

  method TakeParts(b: Bytes, rsizes: seq<nat>) returns (r: Option<(seq<bool>, seq<int>, BorromeanSig)>)
    requires rsizes != []
    ensures r == ParseParts(b, rsizes)
  {
    var stream := new Stream(b);
    var m := |rsizes| - 1;
    var signs := TakeSigns(stream, m);
    if signs.None? { return None; }
    var xs := TakeNums(stream, m);
    if xs.None? { return None; }
    var sig := TakeSig(stream, rsizes);
    if sig.None? { return None; }
    return Some((signs.value, xs.value, sig.value));
  }
}
