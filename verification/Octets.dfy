/** Octet strings and big-endian numbers. */
module Octets {
  import opened Modular

  type byte = x: int | 0 <= x < 256

  type Bytes = seq<byte>

  function Num(b: Bytes): (v: nat)
  {
    if b == [] then 0 else 256 * Num(b[..|b| - 1]) + b[|b| - 1]
  }

  /** value.to_bytes(size, "big"), for a value that fits. */
  function ToBytes(v: nat, size: nat): (b: Bytes)
    ensures |b| == size
  {
    if size == 0 then [] else ToBytes(v / 256, size - 1) + [v % 256]
  }

  function ZeroBytes(k: nat): (b: Bytes)
    ensures |b| == k && forall i :: 0 <= i < k ==> b[i] == 0
  {
    seq(k, _ => 0)
  }

  lemma {:induction false} NumBound(b: Bytes)
    ensures Num(b) < Pow(256, |b|)
  {
    if b != [] { NumBound(b[..|b| - 1]); }
  }

  lemma QuotientBelowPower(v: nat, size: nat)
    requires size > 0 && v < Pow(256, size)
    ensures v / 256 < Pow(256, size - 1)
  {
    assert Pow(256, size) == 256 * Pow(256, size - 1);
  }

  lemma {:induction false} NumToBytes(v: nat, size: nat)
    requires v < Pow(256, size)
    ensures Num(ToBytes(v, size)) == v
  {
    if size > 0 {
      QuotientBelowPower(v, size);
      NumToBytes(v / 256, size - 1);
      var b := ToBytes(v / 256, size - 1);
      assert (b + [v % 256])[..|b| + 1 - 1] == b;
    }
  }

  lemma {:induction false} ToBytesNum(b: Bytes)
    ensures ToBytes(Num(b), |b|) == b
  {
    if b != [] {
      var n := |b| - 1;
      ToBytesNum(b[..n]);
      assert Num(b) / 256 == Num(b[..n]) && Num(b) % 256 == b[n];
      assert b == b[..n] + [b[n]];
    }
  }

  lemma {:induction false} NumConcat(a: Bytes, b: Bytes)
    ensures Num(a + b) == Num(a) * Pow(256, |b|) + Num(b)
    decreases |b|
  {
    if b == [] {
      assert a + b == a;
      assert Pow(256, 0) == 1;
    } else {
      var n := |b| - 1;
      assert (a + b)[..|a| + n] == a + b[..n] && (a + b)[|a| + n] == b[n];
      NumConcat(a, b[..n]);
      var p := Pow(256, n);
      assert Pow(256, |b|) == 256 * p;
      assert 256 * (Num(a) * p) == Num(a) * (256 * p);
    }
  }

  lemma {:induction false} NumZeros(k: nat)
    ensures Num(ZeroBytes(k)) == 0
  {
    if k > 0 {
      assert ZeroBytes(k)[..k - 1] == ZeroBytes(k - 1);
      NumZeros(k - 1);
    }
  }

  // ---- a stream

  class Stream {
    const data: Bytes
    var at: nat

    ghost predicate Valid()
      reads this
    {
      at <= |data|
    }

    /** What is left to read. */
    function Rest(): Bytes
      reads this
      requires Valid()
    {
      data[at..]
    }

    constructor (data: Bytes)
      ensures Valid() && Rest() == data
    {
      this.data, at := data, 0;
    }

    /** Up to k octets, fewer where the stream ends. */
    method Read(k: nat) returns (b: Bytes)
      requires Valid()
      modifies this
      ensures Valid()
      ensures k <= |old(Rest())| ==> b == old(Rest())[..k] && Rest() == old(Rest())[k..]
      ensures k > |old(Rest())| ==> b == old(Rest()) && Rest() == []
    {
      var next := if at + k <= |data| then at + k else |data|;
      b := data[at..next];
      assert b == Rest()[..next - at] && data[next..] == Rest()[next - at..];
      at := next;
    }

    /** Exactly k octets, or None where the stream ends before. */
    method ReadExactly(k: nat) returns (b: Option<Bytes>)
      requires Valid()
      modifies this
      ensures Valid() && (b.None? <==> k > |old(Rest())|)
      ensures b.Some? ==> b.value == old(Rest())[..k] && Rest() == old(Rest())[k..]
    {
      var octets := Read(k);
      return if |octets| != k then None else Some(octets);
    }
  }
}
