/** Where every field of a serialized range proof stands. */
module RangeLayout {
  import opened Modular
  import opened Octets
  import opened Borromean
  import opened RangeParams
  import opened RangeProofs
  import opened RangeMessage
  import opened RangeOctets

  /** Bit i of the packed signs is bit i % 8 of octet i / 8, the least significant first. */
  ghost predicate SignsState(b: Bytes, signs: seq<bool>) {
    && |b| == (|signs| + 7) / 8
    && forall i :: 0 <= i < |signs| ==> (b[i / 8] / Pow2(i % 8)) % 2 == (if signs[i] then 1 else 0)
  }

  lemma PackedSigns(signs: seq<bool>)
    ensures SignsState(PackSigns(signs), signs)
  {
    var b := PackSigns(signs);
    UnpackPack(signs);
    forall i | 0 <= i < |signs| ensures (b[i / 8] / Pow2(i % 8)) % 2 == (if signs[i] then 1 else 0) {
      assert UnpackSigns(b, |signs|)[i] == Bit(b[i / 8], i % 8);
    }
  }

  /** Numbers of 32 octets, one after the other. */
  ghost predicate NumsState(b: Bytes, xs: seq<int>) {
    |b| == 32 * |xs| && forall i :: 0 <= i < |xs| ==> Num(b[32 * i..32 * i + 32]) == xs[i]
  }

  lemma {:induction false} WrittenNums(xs: seq<int>)
    requires Fit(xs)
    ensures NumsState(WriteNums(xs), xs)
  {
    if xs != [] {
      var head, rest := ToBytes(xs[0], 32), WriteNums(xs[1..]);
      var b := head + rest;
      WrittenNums(xs[1..]);
      NumToBytes(xs[0], 32);
      forall i | 0 <= i < |xs| ensures Num(b[32 * i..32 * i + 32]) == xs[i] {
        if i == 0 {
          assert b[0..32] == head;
        } else {
          assert b[32 * i..32 * i + 32] == rest[32 * (i - 1)..32 * (i - 1) + 32];
          assert Num(rest[32 * (i - 1)..32 * (i - 1) + 32]) == xs[1..][i - 1];
        }
      }
    }
  }

  /** How many keys stand before ring i. */
  function KeysBefore(s: seq<seq<int>>, i: nat): nat
    requires i <= |s|
  {
    if i == 0 then 0 else KeysBefore(s, i - 1) + |s[i - 1]|
  }

  /** The scalars ring by ring, key by key. */
  ghost predicate RingsState(b: Bytes, s: seq<seq<int>>) {
    && |b| == 32 * KeysBefore(s, |s|)
    && forall i :: 0 <= i < |s| ==> RingStates(b, s, i)
  }

  ghost predicate RingStates(b: Bytes, s: seq<seq<int>>, i: nat)
    requires i < |s|
  {
    var at := 32 * KeysBefore(s, i);
    at + 32 * |s[i]| <= |b| && NumsState(b[at..at + 32 * |s[i]|], s[i])
  }

  lemma {:induction false} KeysShifted(s: seq<seq<int>>, i: nat)
    requires s != [] && 0 < i <= |s|
    ensures KeysBefore(s, i) == |s[0]| + KeysBefore(s[1..], i - 1)
  {
    if i > 1 { KeysShifted(s, i - 1); }
  }

  lemma {:induction false} WrittenRings(s: seq<seq<int>>)
    requires AllFit(s)
    ensures RingsState(WriteRings(s), s)
  {
    if s != [] {
      var head, rest := WriteNums(s[0]), WriteRings(s[1..]);
      WrittenNums(s[0]);
      WrittenRings(s[1..]);
      KeysShifted(s, |s|);
      forall i | 0 <= i < |s| ensures RingStates(head + rest, s, i) { RingShifted(s, head, rest, i); }
    }
  }

  lemma RingShifted(s: seq<seq<int>>, head: Bytes, rest: Bytes, i: nat)
    requires i < |s| && NumsState(head, s[0]) && RingsState(rest, s[1..])
    ensures RingStates(head + rest, s, i)
  {
    if i == 0 {
      assert (head + rest)[0..|head|] == head;
    } else {
      KeysShifted(s, i);
      assert RingStates(rest, s[1..], i - 1);
      var at := 32 * KeysBefore(s[1..], i - 1);
      assert (head + rest)[|head| + at..|head| + at + 32 * |s[i]|] == rest[at..at + 32 * |s[i]|];
    }
  }

  /** The header, the sign bits, the abscissas, e0 and the scalars, in this order and with nothing between them. */
  ghost predicate ProofStates(b: Bytes, p: RangeProof) {
    var h := HeaderLength(p.mantissa, p.minValue);
    var k := h + (|p.signs| + 7) / 8;
    var e := k + 32 * |p.xs|;
    && |b| == e + 32 + 32 * KeysBefore(p.sig.s, |p.sig.s|)
    && HeaderStates(b[..h], p.exp, p.mantissa, p.minValue)
    && SignsState(b[h..k], p.signs)
    && NumsState(b[k..e], p.xs)
    && b[e..e + 32] == p.sig.e0
    && RingsState(b[e + 32..], p.sig.s)
  }

  /** What serialize writes, field by field. */
  lemma SerializedStates(p: RangeProof, n: int)
    requires ValidProof(p, n) && n <= Pow(256, 32) && |p.sig.e0| == 32
    ensures ProofStates(Serialized(p, n), p)
  {
    var h, s, x, r := HeaderOctets(p.exp, p.mantissa, p.minValue), PackSigns(p.signs), WriteNums(p.xs), WriteRings(p.sig.s);
    ScalarsFit(p, n);
    HeaderOctetsState(p.exp, p.mantissa, p.minValue);
    PackedSigns(p.signs);
    WrittenNums(p.xs);
    WrittenRings(p.sig.s);
    PartsState(p, h, s, x, r);
  }

  lemma PartsState(p: RangeProof, h: Bytes, s: Bytes, x: Bytes, r: Bytes)
    requires HeaderStates(h, p.exp, p.mantissa, p.minValue) && SignsState(s, p.signs) && NumsState(x, p.xs) && RingsState(r, p.sig.s)
    requires |p.sig.e0| == 32
    ensures ProofStates(h + s + x + p.sig.e0 + r, p)
  {
    FiveSlices(h, s, x, p.sig.e0, r);
  }

  lemma FiveSlices(h: Bytes, s: Bytes, x: Bytes, e: Bytes, r: Bytes)
    ensures var b, i, j, k := h + s + x + e + r, |h|, |h| + |s|, |h| + |s| + |x|;
            b[..i] == h && b[i..j] == s && b[j..k] == x && b[k..k + |e|] == e && b[k + |e|..] == r
  {
  }

  /** What parse reads in a header: the bits that say which fields follow, and the fields. Refused exactly where bit 7 is set, a
      field is cut short or the mantissa is above 64. */
  lemma HeaderReads(b: Bytes)
    ensures var range, floor := b != [] && (b[0] / 64) % 2 == 1, b != [] && (b[0] / 32) % 2 == 1;
            var at := 1 + (if range then 1 else 0);
            && (ParseHeader(b).Some? <==>
                  b != [] && b[0] < 128 && |b| >= at + (if floor then 8 else 0) && (range ==> b[1] <= 63))
            && (ParseHeader(b).Some? ==>
                  var (exp, mantissa, minValue, rest) := ParseHeader(b).value;
                  && exp == (if range then b[0] % 32 else -1) && mantissa == (if range then b[1] as int + 1 else 0)
                  && minValue == (if floor then Some(Num(b[at..at + 8])) else None) && rest == b[HeaderLength(mantissa, minValue)..])
  {
    if |b| >= 10 { assert b[2..][..8] == b[2..10] && b[2..][8..] == b[10..]; }
    if |b| >= 9 { assert b[1..][..8] == b[1..9] && b[1..][8..] == b[9..]; }
  }
}
