/** What the octets of a DER signature are, as both parsers read them and as they are written. */
module DerForms {
  import opened Modular
  import opened Octets
  import opened Recodings
  import opened Der

  // ---- the lax size: Bitcoin's CompactSize, as far as 2^25

  /** One octet below 0xFD, or 0xFD and two octets, or 0xFE and four, the least significant first and none narrower fitting. */
  ghost predicate IsCompactSize(b: Bytes, size: nat) {
    || (|b| == 1 && b[0] == size < 0xFD)
    || (|b| == 3 && b[0] == 0xFD && size == b[1] + 0x100 * (b[2] as int) && 0xFD <= size)
    || (|b| == 5 && b[0] == 0xFE && size == b[1] + 0x100 * (b[2] as int) + 0x1_0000 * (b[3] as int) + 0x100_0000 * (b[4] as int) && 0x1_0000 <= size <= MAX_SIZE)
  }

  /** One octet below 0x80. */
  ghost predicate IsShortSize(b: Bytes, size: nat) {
    |b| == 1 && b[0] == size < 0x80
  }

  ghost predicate IsSize(b: Bytes, size: nat, strict: bool) {
    if strict then IsShortSize(b, size) else IsCompactSize(b, size)
  }

  lemma TwoOctets(b: Bytes)
    requires |b| == 2
    ensures LittleEndian(b) == b[0] + 0x100 * (b[1] as int)
  {
    assert b[1..] == [b[1]];
    assert LittleEndian([b[1]]) == b[1] by { assert [b[1]][1..] == []; }
  }

  lemma FourOctets(b: Bytes)
    requires |b| == 4
    ensures LittleEndian(b) == b[0] + 0x100 * (b[1] as int) + 0x1_0000 * (b[2] as int) + 0x100_0000 * (b[3] as int)
  {
    TwoOctets(b[2..]);
    assert b[1..][1..] == b[2..];
    assert LittleEndian(b[1..]) == b[1] + 256 * LittleEndian(b[2..]);
  }

  /** A size is read exactly where the octets open with one, and the wide form of eight octets never is one. */
  lemma SizeIff(b: Bytes, size: nat, rest: Bytes, strict: bool)
    ensures ParseSize(b, strict) == Some((size, rest)) <==> exists k :: 0 <= k <= |b| && IsSize(b[..k], size, strict) && rest == b[k..]
  {
    if ParseSize(b, strict) == Some((size, rest)) {
      var k := |b| - |rest|;
      SizeRead(b, strict);
      assert IsSize(b[..k], size, strict) && rest == b[k..];
    }
    if k :| 0 <= k <= |b| && IsSize(b[..k], size, strict) && rest == b[k..] {
      SizeWritten(b, k, size, strict);
    }
  }

  lemma SizeRead(b: Bytes, strict: bool)
    requires ParseSize(b, strict).Some?
    ensures var r := ParseSize(b, strict).value;
            var k := |b| - |r.1|;
            0 <= k <= |b| && IsSize(b[..k], r.0, strict) && r.1 == b[k..]
  {
    if b[0] == 0xFD {
      TwoOctets(b[1..3]);
    } else if b[0] == 0xFE {
      FourOctets(b[1..5]);
    }
  }

  lemma SizeWritten(b: Bytes, k: nat, size: nat, strict: bool)
    requires k <= |b| && IsSize(b[..k], size, strict)
    ensures ParseSize(b, strict) == Some((size, b[k..]))
  {
    assert b[..k][0] == b[0];
    if k == 3 {
      TwoOctets(b[1..3]);
      assert b[..k][1] == b[1] && b[..k][2] == b[2];
    } else if k == 5 {
      FourOctets(b[1..5]);
      assert b[..k][1] == b[1] && b[..k][2] == b[2] && b[..k][3] == b[3] && b[..k][4] == b[4];
    }
  }

  // ---- an element, and an integer

  /** A size and that many octets, at least one, ahead of the rest. */
  ghost predicate IsElement(b: Bytes, k: nat, value: Bytes, rest: Bytes, strict: bool) {
    k <= |b| && IsSize(b[..k], |value|, strict) && value != [] && b[k..] == value + rest
  }

  lemma ElementIff(b: Bytes, value: Bytes, rest: Bytes, strict: bool)
    ensures ParseValue(b, strict) == Some((value, rest)) <==> exists k: nat :: IsElement(b, k, value, rest, strict)
  {
    if ParseValue(b, strict) == Some((value, rest)) {
      var size := ParseSize(b, strict).value;
      SizeRead(b, strict);
      assert IsElement(b, |b| - |size.1|, value, rest, strict);
    }
    if k: nat :| IsElement(b, k, value, rest, strict) {
      SizeWritten(b, k, |value|, strict);
      assert (value + rest)[..|value|] == value && (value + rest)[|value|..] == rest;
    }
  }

  /** The tag 0x02 and an element, its octets the most significant first; lax parsing reads a padded or a negative one as the
      unsigned number it spells, strict parsing refuses it. */
  ghost predicate IsInteger(b: Bytes, v: nat, rest: Bytes, strict: bool) {
    && b != [] && b[0] == 0x02
    && exists k: nat, value :: IsElement(b[1..], k, value, rest, strict) && Num(value) == v && !(strict && NonCanonical(value))
  }

  lemma IntegerIff(b: Bytes, v: nat, rest: Bytes, strict: bool)
    ensures DeserializeScalar(b, strict) == Some((v, rest)) <==> IsInteger(b, v, rest, strict)
  {
    if DeserializeScalar(b, strict) == Some((v, rest)) {
      var r := ParseValue(b[1..], strict).value;
      ElementIff(b[1..], r.0, r.1, strict);
      var k: nat :| IsElement(b[1..], k, r.0, r.1, strict);
    }
    if IsInteger(b, v, rest, strict) {
      var k: nat, value :| IsElement(b[1..], k, value, rest, strict) && Num(value) == v && !(strict && NonCanonical(value));
      ElementIff(b[1..], value, rest, strict);
    }
  }

  /** Padding an integer does not change what lax parsing reads. */
  lemma PaddingIgnored(value: Bytes)
    ensures Num([0] + value) == Num(value)
  {
    NumConcat([0], value);
    assert Num([0]) == 0 by { assert [0][..0] == []; }
  }

  // ---- a signature

  /** The tag 0x30 and an element that is two integers and nothing else; strict parsing bounds it and refuses what follows. */
  ghost predicate IsSignature(b: Bytes, r: nat, s: nat, strict: bool) {
    && b != [] && b[0] == 0x30
    && exists k: nat, data, rest ::
         && IsElement(b[1..], k, data, rest, strict) && (strict ==> |data| <= MAX_SIG_DATA && rest == [])
         && IsPair(data, r, s, strict)
  }

  ghost predicate IsPair(data: Bytes, r: nat, s: nat, strict: bool) {
    exists tail :: IsInteger(data, r, tail, strict) && IsInteger(tail, s, [], strict)
  }

  lemma PairIff(data: Bytes, r: nat, s: nat, strict: bool)
    ensures ParseData(data, strict) == Some((r, s)) <==> IsPair(data, r, s, strict)
  {
    if ParseData(data, strict) == Some((r, s)) {
      var tail := DeserializeScalar(data, strict).value.1;
      IntegerIff(data, r, tail, strict);
      IntegerIff(tail, s, [], strict);
    }
    if tail :| IsInteger(data, r, tail, strict) && IsInteger(tail, s, [], strict) {
      IntegerIff(data, r, tail, strict);
      IntegerIff(tail, s, [], strict);
    }
  }

  /** What either parser accepts, and what it reads there. */
  lemma SignatureIff(b: Bytes, r: nat, s: nat, strict: bool)
    ensures ParseSig(b, strict) == Some((r, s)) <==> IsSignature(b, r, s, strict)
  {
    if ParseSig(b, strict) == Some((r, s)) {
      var v := ParseValue(b[1..], strict).value;
      ElementIff(b[1..], v.0, v.1, strict);
      PairIff(v.0, r, s, strict);
      var k: nat :| IsElement(b[1..], k, v.0, v.1, strict);
    }
    if IsSignature(b, r, s, strict) {
      var k: nat, data, rest :|
        && IsElement(b[1..], k, data, rest, strict) && (strict ==> |data| <= MAX_SIG_DATA && rest == [])
        && IsPair(data, r, s, strict);
      ElementIff(b[1..], data, rest, strict);
      PairIff(data, r, s, strict);
    }
  }

  // ---- what is written

  /** X.690 8.1.3: n itself below 128; otherwise 0x80 and the count of the octets that spell n with no zero in front. */
  lemma LengthForms(n: nat)
    requires BitLength(n) <= 1016
    ensures n < 0x80 ==> DerLength(n) == [n]
    ensures n >= 0x80 ==>
      var b := DerLength(n); 2 <= |b| <= 128 && b[0] == 0x80 + (|b| - 1) && Num(b[1..]) == n && b[1] != 0
  {
    if n >= 0x80 {
      var k := (BitLength(n) + 7) / 8;
      var b := ToBytes(n, k);
      assert Pow2(7) == 128 by { assert Pow2(3) == 8; }
      Pow2Below(7, BitLength(n));
      BitsBound(n);
      Pow2Monotone(BitLength(n), 8 * k);
      PowOf256(k);
      NumToBytes(n, k);
      assert DerLength(n)[1..] == b;
      if b[0] == 0 {
        FirstOctet(b);
        PowOf256(k - 1);
        BitLengthBelow(n, 8 * (k - 1));
      }
    }
  }

  lemma BitsBound(n: nat)
    ensures n < Pow2(BitLength(n))
  {
  }

  /** A written integer: its tag, its length, its octets. */
  lemma WrittenInteger(v: nat)
    requires |ScalarOctets(v)| < 0x80
    ensures var V := ScalarOctets(v);
            && Writable(v) && SerializeScalar(v) == [0x02, |V|] + V
            && Num(V) == v && !NonCanonical(V)
  {
    var V := ScalarOctets(v);
    ShortForm(|V|, [], true);
    OctetsNumber(v);
    ScalarCanonical(v);
    Headed(0x02, |V|, V);
  }

  lemma Headed(tag: byte, size: byte, v: Bytes)
    ensures [tag] + [size] + v == [tag, size] + v
  {
  }

  /** A signature under 128 octets of body, octet by octet: two tags, three lengths, and two shortest nonnegative integers. */
  lemma WrittenOctets(r: nat, s: nat)
    requires ShortSig(r, s)
    ensures var R, S := ScalarOctets(r), ScalarOctets(s);
            && SerializedShort(r, s) == [0x30, 4 + |R| + |S|] + ([0x02, |R|] + R + ([0x02, |S|] + S))
            && Num(R) == r && !NonCanonical(R) && Num(S) == s && !NonCanonical(S)
  {
    WrittenInteger(r);
    WrittenInteger(s);
    BodyRoundTrip(r, s, true);
    SigRoundTrip(r, s, true);
    var body := SigBody(r, s);
    ShortForm(|body|, [], true);
    Headed(0x30, |body|, body);
  }
}
