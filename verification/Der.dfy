/** DER signatures: strict and lax parsing of a stream of octets, and the canonical encoding. */
module Der {
  import opened Modular
  import opened Octets
  import opened Recodings

  const MAX_SIZE: nat := 0x0200_0000
  const MAX_SIG_DATA: nat := 70

  // ---- writing

  /** X.690 8.1.3: one octet below 128, otherwise the count of the octets that follow. */
  function DerLength(n: nat): Bytes
    requires BitLength(n) <= 1016
  {
    if n < 0x80 then [n] else
      var k := (BitLength(n) + 7) / 8;
      [0x80 + k] + ToBytes(n, k)
  }

  /** The octets of a scalar, a zero in front of a highest bit that is set. */
  function ScalarOctets(v: nat): (b: Bytes)
    ensures |b| >= 1
  {
    ToBytes(v, BitLength(v) / 8 + 1)
  }

  /** A size that DerLength can write. */
  predicate Writable(v: nat) { BitLength(|ScalarOctets(v)|) <= 1016 }

  function SerializeScalar(v: nat): Bytes
    requires Writable(v)
  {
    [0x02] + DerLength(|ScalarOctets(v)|) + ScalarOctets(v)
  }

  function SigBody(r: nat, s: nat): Bytes
    requires Writable(r) && Writable(s)
  {
    SerializeScalar(r) + SerializeScalar(s)
  }

  function Serialize(r: nat, s: nat): Bytes
    requires Writable(r) && Writable(s) && BitLength(|SigBody(r, s)|) <= 1016
  {
    [0x30] + DerLength(|SigBody(r, s)|) + SigBody(r, s)
  }

  // ---- reading, on the octets that are left

  function LittleEndian(b: Bytes): nat {
    if b == [] then 0 else b[0] + 256 * LittleEndian(b[1..])
  }

  /** How many octets a wide prefix announces, and the least size they may carry. */
  function WidePrefix(size: byte): Option<(nat, nat)> {
    if size == 0xFD then Some((2, 0xFD))
    else if size == 0xFE then Some((4, 0x1_0000))
    else if size == 0xFF then Some((8, 0x1_0000_0000))
    else None
  }

  /** The size in front of an element and what follows it; CompactSize when lax, the short form when strict. */
  function ParseSize(b: Bytes, strict: bool): (r: Option<(nat, Bytes)>)
    ensures r.Some? ==> |r.value.1| < |b| && r.value.1 == b[|b| - |r.value.1|..]
  {
    if b == [] || (strict && b[0] >= 0x80) then None else
      match WidePrefix(b[0])
      case None => Some((b[0], b[1..]))
      case Some(wide) =>
        if |b| - 1 < wide.0 then None else
          var size := LittleEndian(b[1..1 + wide.0]);
          if size < wide.1 || size > MAX_SIZE then None else Some((size, b[1 + wide.0..]))
  }

  function ParseValue(b: Bytes, strict: bool): (r: Option<(Bytes, Bytes)>)
    ensures r.Some? ==> |r.value.0| > 0 && |r.value.1| < |b|
  {
    match ParseSize(b, strict)
    case None => None
    case Some(head) =>
      if head.0 == 0 || |head.1| < head.0 then None else Some((head.1[..head.0], head.1[head.0..]))
  }

  /** A padded or a negative integer, which strict parsing refuses. */
  predicate NonCanonical(v: Bytes)
    requires v != []
  {
    (|v| > 1 && v[0] == 0 && v[1] < 0x80) || v[0] >= 0x80
  }

  function DeserializeScalar(b: Bytes, strict: bool): (r: Option<(nat, Bytes)>) {
    if b == [] || b[0] != 0x02 then None else
      match ParseValue(b[1..], strict)
      case None => None
      case Some(value) => if strict && NonCanonical(value.0) then None else Some((Num(value.0), value.1))
  }

  /** The two scalars of the data, which must be consumed entirely. */
  function ParseData(data: Bytes, strict: bool): Option<(nat, nat)> {
    match DeserializeScalar(data, strict)
    case None => None
    case Some(r) =>
      match DeserializeScalar(r.1, strict)
      case None => None
      case Some(s) => if s.1 != [] then None else Some((r.0, s.0))
  }

  /** Sig.parse before the scalars themselves are validated. */
  function ParseSig(b: Bytes, strict: bool): Option<(nat, nat)> {
    if b == [] || b[0] != 0x30 then None else
      match ParseValue(b[1..], strict)
      case None => None
      case Some(value) =>
        if strict && |value.0| > MAX_SIG_DATA then None else
          match ParseData(value.0, strict)
          case None => None
          case Some(sig) => if strict && value.1 != [] then None else Some(sig)
  }

  // ---- the same, consuming a stream

  method ParseDerSize(stream: Stream, strict: bool) returns (r: Option<nat>)
    requires stream.Valid()
    modifies stream
    ensures stream.Valid() && (r.None? <==> ParseSize(old(stream.Rest()), strict).None?)
    ensures r.Some? ==> ParseSize(old(stream.Rest()), strict) == Some((r.value, stream.Rest()))
  {
    var prefix := stream.Read(1);
    if prefix == [] { return None; }
    var size: nat := prefix[0];
    if strict && size >= 0x80 { return None; }
    var wide := WidePrefix(prefix[0]);
    if wide.Some? {
      ghost var k, was := wide.value.0, stream.Rest();
      var octets := stream.Read(wide.value.0);
      if |octets| != wide.value.0 { return None; }
      assert was == old(stream.Rest())[1..] && octets == was[..k] == old(stream.Rest())[1..1 + k];
      assert stream.Rest() == old(stream.Rest())[1 + k..];
      size := LittleEndian(octets);
      if size < wide.value.1 { return None; }
    }
    if size > MAX_SIZE { return None; }
    return Some(size);
  }

  method ParseDerValue(stream: Stream, strict: bool) returns (r: Option<Bytes>)
    requires stream.Valid()
    modifies stream
    ensures stream.Valid() && (r.None? <==> ParseValue(old(stream.Rest()), strict).None?)
    ensures r.Some? ==> ParseValue(old(stream.Rest()), strict) == Some((r.value, stream.Rest()))
  {
    var size := ParseDerSize(stream, strict);
    if size.None? || size.value == 0 { return None; }
    var value := stream.Read(size.value);
    if |value| != size.value { return None; }
    return Some(value);
  }

  method ReadScalar(stream: Stream, strict: bool) returns (r: Option<nat>)
    requires stream.Valid()
    modifies stream
    ensures stream.Valid() && (r.None? <==> DeserializeScalar(old(stream.Rest()), strict).None?)
    ensures r.Some? ==> DeserializeScalar(old(stream.Rest()), strict) == Some((r.value, stream.Rest()))
  {
    ghost var was := stream.Rest();
    var marker := stream.Read(1);
    if marker != [0x02] { return None; }
    assert was[0] == 0x02 && stream.Rest() == was[1..];
    var value := ParseDerValue(stream, strict);
    if value.None? || (strict && NonCanonical(value.value)) { return None; }
    return Some(Num(value.value));
  }

  /** Sig.parse, the scalars being validated last where that is asked for. */
  method Parse(b: Bytes, strict: bool, checkValidity: bool, valid: (nat, nat) -> bool) returns (r: Option<(nat, nat)>)
    ensures r == match ParseSig(b, strict)
                 case None => None
                 case Some(sig) => if checkValidity && !valid(sig.0, sig.1) then None else Some(sig)
  {
    var stream := new Stream(b);
    var marker := stream.Read(1);
    if marker != [0x30] { return None; }
    assert b[0] == 0x30 && stream.Rest() == b[1..];
    var data := ParseDerValue(stream, strict);
    if data.None? || (strict && |data.value| > MAX_SIG_DATA) { return None; }
    var sig := ParseScalars(data.value, strict);
    if sig.None? { return None; }
    if strict {
      var trailing := stream.Read(1);
      if trailing != [] { return None; }
    }
    if checkValidity && !valid(sig.value.0, sig.value.1) { return None; }
    return sig;
  }

  method ParseScalars(data: Bytes, strict: bool) returns (r: Option<(nat, nat)>)
    ensures r == ParseData(data, strict)
  {
    var inner := new Stream(data);
    var x := ReadScalar(inner, strict);
    if x.None? { return None; }
    var y := ReadScalar(inner, strict);
    if y.None? { return None; }
    var more := inner.Read(1);
    return if more != [] then None else Some((x.value, y.value));
  }

  // ---- the encoding of a scalar is canonical, and the only one

  lemma {:induction false} PowOf256(k: nat)
    ensures Pow(256, k) == Pow2(8 * k)
  {
    if k > 0 {
      PowOf256(k - 1);
      Pow2Add(8, 8 * (k - 1));
      assert Pow2(8) == 256 by { assert Pow2(4) == 16; }
    }
  }

  /** The octets hold the scalar, and leave its sign bit clear. */
  lemma ScalarFits(v: nat)
    ensures var size := BitLength(v) / 8 + 1;
            v < Pow2(8 * size - 1) && v < Pow(256, size)
  {
    var size := BitLength(v) / 8 + 1;
    Pow2Monotone(BitLength(v), 8 * size - 1);
    Pow2Monotone(BitLength(v), 8 * size);
    PowOf256(size);
  }

  /** The first octet is the number's leading 256th. */
  lemma {:induction false} FirstOctet(b: Bytes)
    requires b != []
    ensures Num(b) == b[0] * Pow(256, |b| - 1) + Num(b[1..]) && Num(b[1..]) < Pow(256, |b| - 1)
  {
    NumConcat([b[0]], b[1..]);
    assert b == [b[0]] + b[1..];
    assert Num([b[0]]) == b[0] by { assert [b[0]][..0] == []; }
    NumBound(b[1..]);
  }

  lemma OctetsNumber(v: nat)
    ensures Num(ScalarOctets(v)) == v
  {
    ScalarFits(v);
    NumToBytes(v, BitLength(v) / 8 + 1);
  }

  /** What is written is neither padded nor negative. */
  lemma ScalarCanonical(v: nat)
    ensures !NonCanonical(ScalarOctets(v))
  {
    var b := ScalarOctets(v);
    var k := |b|;
    OctetsNumber(v);
    ScalarFits(v);
    FirstOctet(b);
    PowOf256(k - 1);
    var p := Pow(256, k - 1);
    assert Pow2(8 * k - 1) == 128 * p by { SevenBits(k); }
    if b[0] >= 0x80 { ProductMonotone(0x80, b[0], p); }
    if k > 1 && b[0] == 0 && b[1] < 0x80 { NotPadded(b, v); }
  }

  lemma SevenBits(k: nat)
    requires k >= 1
    ensures Pow2(8 * k - 1) == 128 * Pow2(8 * (k - 1))
  {
    Pow2Add(7, 8 * (k - 1));
    assert Pow2(7) == 128 by { assert Pow2(3) == 8; }
  }

  /** A zero octet in front of a clear bit would mean fewer bits than the size says. */
  lemma NotPadded(b: Bytes, v: nat)
    requires |b| > 1 && b[0] == 0 && b[1] < 0x80 && Num(b) == v
    ensures BitLength(v) / 8 + 1 < |b|
  {
    var k := |b|;
    FirstOctet(b);
    FirstOctet(b[1..]);
    var p := Pow(256, k - 2);
    PowOf256(k - 2);
    SevenBits(k - 1);
    ProductMonotone(b[1], 0x7F, p);
    assert v < 128 * p;
    BitLengthBelow(v, 8 * (k - 1) - 1);
  }

  /** Octets that are neither padded nor negative are the ones that are written. */
  lemma CanonicalOctets(b: Bytes)
    requires b != [] && !NonCanonical(b)
    ensures ScalarOctets(Num(b)) == b
  {
    var k, v := |b|, Num(b);
    FirstOctet(b);
    var p := Pow(256, k - 1);
    PowOf256(k - 1);
    SevenBits(k);
    ProductMonotone(b[0], 0x7F, p);
    BitLengthBelow(v, 8 * k - 1);
    if k > 1 { EnoughBits(b, v); }
    assert BitLength(v) / 8 + 1 == k;
    ToBytesNum(b);
  }

  lemma EnoughBits(b: Bytes, v: nat)
    requires |b| > 1 && (b[0] >= 1 || b[1] >= 0x80) && Num(b) == v
    ensures BitLength(v) >= 8 * (|b| - 1)
  {
    var k := |b|;
    FirstOctet(b);
    PowOf256(k - 1);
    PowOf256(k - 2);
    SevenBits(k - 1);
    if b[0] >= 1 {
      ProductMonotone(1, b[0], Pow(256, k - 1));
      Pow2Below(8 * (k - 1) - 1, BitLength(v));
    } else {
      FirstOctet(b[1..]);
      ProductMonotone(0x80, b[1], Pow(256, k - 2));
      Pow2Below(8 * (k - 1) - 1, BitLength(v));
    }
  }

  // ---- writing and reading undo each other

  lemma ShortForm(n: nat, rest: Bytes, strict: bool)
    requires n < 0x80
    ensures BitLength(n) <= 1016 && DerLength(n) == [n] && ParseSize(DerLength(n) + rest, strict) == Some((n, rest))
  {
    assert Pow2(7) == 128 by { assert Pow2(3) == 8; }
    BitLengthBelow(n, 7);
    assert ([n] + rest)[1..] == rest;
  }

  /** An element of less than 128 octets, however read. */
  lemma ElementRead(tag: byte, v: Bytes, rest: Bytes, strict: bool)
    requires 0 < |v| < 0x80
    ensures BitLength(|v|) <= 1016
    ensures ParseValue(([tag] + DerLength(|v|) + v + rest)[1..], strict) == Some((v, rest))
  {
    ShortForm(|v|, v + rest, strict);
    Untagged(tag, DerLength(|v|), v, rest);
    Halves(v, rest);
  }

  lemma Untagged(tag: byte, a: Bytes, v: Bytes, rest: Bytes)
    ensures ([tag] + a + v + rest)[1..] == a + (v + rest)
  {
  }

  lemma Halves(v: Bytes, rest: Bytes)
    ensures (v + rest)[..|v|] == v && (v + rest)[|v|..] == rest
  {
  }

  /** A written scalar reads back, by either parser. */
  lemma ScalarRoundTrip(v: nat, rest: Bytes, strict: bool)
    requires |ScalarOctets(v)| < 0x80
    ensures Writable(v) && DeserializeScalar(SerializeScalar(v) + rest, strict) == Some((v, rest))
  {
    ElementRead(0x02, ScalarOctets(v), rest, strict);
    ScalarCanonical(v);
    OctetsNumber(v);
    assert SerializeScalar(v) + rest == [0x02] + DerLength(|ScalarOctets(v)|) + ScalarOctets(v) + rest;
  }

  predicate ShortSig(r: nat, s: nat) {
    |ScalarOctets(r)| + |ScalarOctets(s)| + 4 <= MAX_SIG_DATA
  }

  lemma BodyRoundTrip(r: nat, s: nat, strict: bool)
    requires ShortSig(r, s)
    ensures Writable(r) && Writable(s) && |SigBody(r, s)| == |ScalarOctets(r)| + |ScalarOctets(s)| + 4
    ensures ParseData(SigBody(r, s), strict) == Some((r, s))
  {
    ScalarRoundTrip(r, SerializeScalar(s), strict) by { ScalarRoundTrip(s, [], strict); }
    ScalarRoundTrip(s, [], strict);
    ShortForm(|ScalarOctets(r)|, [], strict);
    ShortForm(|ScalarOctets(s)|, [], strict);
    assert SerializeScalar(s) + [] == SerializeScalar(s);
  }

  /** Every signature that fits the strict bound reads back from what is written. */
  lemma SigRoundTrip(r: nat, s: nat, strict: bool)
    requires ShortSig(r, s)
    ensures Writable(r) && Writable(s) && BitLength(|SigBody(r, s)|) <= 1016 && ParseSig(Serialize(r, s), strict) == Some((r, s))
  {
    BodyRoundTrip(r, s, strict);
    WholeRoundTrip(SigBody(r, s), r, s, strict);
  }

  lemma WholeRoundTrip(body: Bytes, r: nat, s: nat, strict: bool)
    requires 0 < |body| <= MAX_SIG_DATA && ParseData(body, strict) == Some((r, s))
    ensures BitLength(|body|) <= 1016 && ParseSig([0x30] + DerLength(|body|) + body, strict) == Some((r, s))
  {
    ElementRead(0x30, body, [], strict);
    assert [0x30] + DerLength(|body|) + body == [0x30] + DerLength(|body|) + body + [];
  }

  /** Scalars below an order of 256 bits fit. */
  lemma ScalarsFit(r: nat, s: nat)
    requires r < Pow2(256) && s < Pow2(256)
    ensures ShortSig(r, s)
  {
    BitLengthBelow(r, 256);
    BitLengthBelow(s, 256);
  }

  /** parse(serialize(sig)) = sig for every signature of secp256k1 that is valid. */
  lemma ParseSerialize(r: nat, s: nat, n: nat)
    requires n <= Pow2(256) && 0 < r < n && 0 < s < n
    ensures Writable(r) && Writable(s) && BitLength(|SigBody(r, s)|) <= 1016 && ParseSig(Serialize(r, s), true) == Some((r, s))
  {
    ScalarsFit(r, s);
    SigRoundTrip(r, s, true);
  }

  // ---- what strict parsing accepts

  /** A strict element is its short length and its octets. */
  lemma StrictElement(b: Bytes)
    requires ParseValue(b, true).Some?
    ensures var r := ParseValue(b, true).value;
            0 < |r.0| < 0x80 && BitLength(|r.0|) <= 1016 && b == DerLength(|r.0|) + r.0 + r.1
    ensures ParseValue(b, false) == ParseValue(b, true)
  {
    var r := ParseValue(b, true).value;
    ShortForm(|r.0|, [], true);
    assert b == [b[0]] + b[1..];
    assert b[1..] == r.0 + r.1;
  }

  lemma StrictScalar(b: Bytes)
    requires DeserializeScalar(b, true).Some?
    ensures var r := DeserializeScalar(b, true).value;
            Writable(r.0) && b == SerializeScalar(r.0) + r.1
    ensures DeserializeScalar(b, false) == DeserializeScalar(b, true)
  {
    var v := ParseValue(b[1..], true).value;
    StrictElement(b[1..]);
    CanonicalOctets(v.0);
    StrictTagged(b, DerLength(|v.0|), v.0, v.1);
  }

  lemma StrictTagged(b: Bytes, a: Bytes, v: Bytes, rest: Bytes)
    requires b != [] && b[0] == 0x02 && b[1..] == a + v + rest
    ensures b == [0x02] + a + v + rest
  {
    assert b == [b[0]] + b[1..];
  }

  lemma StrictData(data: Bytes)
    requires ParseData(data, true).Some?
    ensures var sig := ParseData(data, true).value;
            Writable(sig.0) && Writable(sig.1) && data == SigBody(sig.0, sig.1)
    ensures ParseData(data, false) == ParseData(data, true)
  {
    StrictScalar(data);
    var r := DeserializeScalar(data, true).value;
    StrictScalar(r.1);
    var s := DeserializeScalar(r.1, true).value;
    assert SerializeScalar(s.0) + [] == SerializeScalar(s.0);
  }

  /** Strict parsing accepts the canonical octets alone, and lax parsing reads them the same. */
  lemma StrictIsCanonical(b: Bytes)
    requires ParseSig(b, true).Some?
    ensures var sig := ParseSig(b, true).value;
            && Writable(sig.0) && Writable(sig.1) && BitLength(|SigBody(sig.0, sig.1)|) <= 1016 && Serialize(sig.0, sig.1) == b
            && |SigBody(sig.0, sig.1)| <= MAX_SIG_DATA
    ensures ParseSig(b, false) == ParseSig(b, true)
  {
    var value := ParseValue(b[1..], true).value;
    StrictElement(b[1..]);
    StrictData(value.0);
    Tagged(b, DerLength(|value.0|), value.0, value.1);
  }

  lemma Tagged(b: Bytes, a: Bytes, v: Bytes, rest: Bytes)
    requires b != [] && b[1..] == a + v + rest && rest == []
    ensures b == [b[0]] + a + v
  {
    assert b == [b[0]] + b[1..];
  }

  /** The octets strict parsing accepts are exactly what is written for scalars within its bound. */
  lemma StrictIff(b: Bytes, r: nat, s: nat)
    ensures ParseSig(b, true) == Some((r, s)) <==> ShortSig(r, s) && b == SerializedShort(r, s)
  {
    if ParseSig(b, true) == Some((r, s)) {
      StrictIsCanonical(b);
      BodyLength(r, s);
    }
    if ShortSig(r, s) { SigRoundTrip(r, s, true); }
  }

  function SerializedShort(r: nat, s: nat): Bytes
    requires ShortSig(r, s)
  {
    SigRoundTrip(r, s, true);
    Serialize(r, s)
  }

  lemma BodyLength(r: nat, s: nat)
    requires Writable(r) && Writable(s) && |SigBody(r, s)| <= MAX_SIG_DATA
    ensures ShortSig(r, s)
  {
    LengthOctets(|ScalarOctets(r)|);
    LengthOctets(|ScalarOctets(s)|);
  }

  lemma LengthOctets(n: nat)
    requires BitLength(n) <= 1016
    ensures |DerLength(n)| >= 1
  {
  }
}
