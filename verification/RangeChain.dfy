/** The nonce chain of a range proof: blocks drawn from a seed, a message and the value xored into them. */
module RangeChain {
  import opened Modular
  import opened Octets

  // ---- xor

  function XorBits(a: nat, b: nat, k: nat): (r: nat)
    ensures r < Pow2(k)
  {
    if k == 0 then 0 else 2 * XorBits(a / 2, b / 2, k - 1) + (a + b) % 2
  }

  lemma {:induction false} XorTwice(a: nat, b: nat, k: nat)
    requires b < Pow2(k)
    ensures XorBits(XorBits(a, b, k), a, k) == b
  {
    if k > 0 {
      XorTwice(a / 2, b / 2, k - 1);
      HalvesOfXor(XorBits(a / 2, b / 2, k - 1), a, b);
    }
  }

  lemma HalvesOfXor(x: nat, a: nat, b: nat)
    ensures var y := 2 * x + (a + b) % 2;
            y / 2 == x && (y + a) % 2 == b % 2
  {
  }

  lemma {:induction false} XorSelf(a: nat, k: nat)
    ensures XorBits(a, a, k) == 0
  {
    if k > 0 { XorSelf(a / 2, k - 1); }
  }

  function Xor(a: byte, b: byte): byte {
    assert Pow2(8) == 256 by { assert Pow2(4) == 16; }
    XorBits(a, b, 8)
  }

  /** Bit by bit: a bit of the xor is set where exactly one of the two is. */
  lemma {:induction false} XorBitAt(a: nat, b: nat, k: nat, i: nat)
    requires i < k
    ensures (XorBits(a, b, k) / Pow2(i)) % 2 == ((a / Pow2(i)) % 2 + (b / Pow2(i)) % 2) % 2
  {
    XorHalf(a, b, k);
    if i == 0 {
      assert Pow2(0) == 1;
    } else {
      XorBitAt(a / 2, b / 2, k - 1, i - 1);
      HalfThenShift(XorBits(a, b, k), i);
      HalfThenShift(a, i);
      HalfThenShift(b, i);
    }
  }

  lemma XorHalf(a: nat, b: nat, k: nat)
    requires k > 0
    ensures XorBits(a, b, k) / 2 == XorBits(a / 2, b / 2, k - 1) && XorBits(a, b, k) % 2 == (a % 2 + b % 2) % 2
  {
    HalvesOfXor(XorBits(a / 2, b / 2, k - 1), a, b);
    SumParity(a, b, XorBits(a / 2, b / 2, k - 1));
  }

  lemma SumParity(a: nat, b: nat, x: nat)
    ensures (2 * x + (a + b) % 2) % 2 == (a % 2 + b % 2) % 2
  {
  }

  lemma HalfThenShift(v: nat, i: nat)
    requires i > 0
    ensures v / Pow2(i) == (v / 2) / Pow2(i - 1)
  {
    var p := Pow2(i - 1);
    var h := v / 2;
    var q, r := h / p, h % p;
    assert h == q * p + r;
    assert v == q * (2 * p) + (2 * r + v % 2) by { assert q * (2 * p) == 2 * (q * p); }
    DivModUnique(v, 2 * p, q, 2 * r + v % 2);
  }

  lemma XorUndone(a: byte, b: byte)
    ensures Xor(Xor(a, b), a) == b && Xor(a, a) == 0
  {
    assert Pow2(8) == 256 by { assert Pow2(4) == 16; }
    XorTwice(a, b, 8);
    XorSelf(a, 8);
  }

  function XorBytes(a: Bytes, b: Bytes): (r: Bytes)
    requires |a| == |b|
    ensures |r| == |a|
  {
    seq(|a|, i requires 0 <= i < |a| => Xor(a[i], b[i]))
  }

  /** What was xored in is what xoring the block out leaves. */
  lemma XorBytesUndone(block: Bytes, b: Bytes)
    requires |block| == |b|
    ensures XorBytes(XorBytes(block, b), block) == b
  {
    forall i | 0 <= i < |b| ensures XorBytes(XorBytes(block, b), block)[i] == b[i] { XorUndone(block[i], b[i]); }
  }

  lemma XorWithZeros(block: Bytes)
    ensures XorBytes(block, ZeroBytes(|block|)) == block
  {
    var zeros := ZeroBytes(|block|);
    forall i | 0 <= i < |block| ensures XorBytes(block, zeros)[i] == block[i] {
      XorUndone(block[i], block[i]);
      XorUndone(block[i], 0);
      ZeroRight(block[i], 8);
    }
  }

  lemma {:induction false} ZeroRight(a: nat, k: nat)
    ensures a < Pow2(k) ==> XorBits(a, 0, k) == a
  {
    if k > 0 { ZeroRight(a / 2, k - 1); }
  }

  /** The xor of two scalars, one scalar wide. */
  function Ch32Xor(a: nat, b: nat): (r: Bytes)
    ensures |r| == 32
  {
    XorBytes(ToBytes(a, 32), ToBytes(b, 32))
  }

  // ---- the buffer folded into the draws

  function MessageRoom(rsizes: seq<nat>): nat
    requires |rsizes| > 0
  {
    128 * (|rsizes| - 1)
  }

  /** An octet of 128, seven of zero, and the value three times. */
  function Encoding(v: nat): (b: Bytes)
    ensures |b| == 32
  {
    [128] + ZeroBytes(7) + ToBytes(v, 8) + ToBytes(v, 8) + ToBytes(v, 8)
  }

  /** The key of the last ring that carries the value: its last, or the one before where the digit is that one. */
  function EncodingKey(last: nat, digit: nat): nat
    requires last > 1
  {
    if digit == last - 1 then last - 2 else last - 1
  }

  /** None for a message longer than the rings before the last hold. */
  function Prep(rsizes: seq<nat>, v: nat, digit: nat, message: Bytes): (r: Option<Bytes>)
    requires |rsizes| > 0 && rsizes[|rsizes| - 1] <= 4
    ensures r.Some? <==> |message| <= MessageRoom(rsizes)
    ensures r.Some? ==> |r.value| == 128 * |rsizes|
  {
    var n, last := |rsizes|, rsizes[|rsizes| - 1];
    if |message| > MessageRoom(rsizes) then None else
      var prep := message + ZeroBytes(128 * n - |message|);
      if last > 1 then
        var offset := (4 * (n - 1) + EncodingKey(last, digit)) * 32;
        Some(prep[..offset] + Encoding(v) + prep[offset + 32..])
      else Some(prep)
  }

  /** What is folded into the draw of key j of ring i. */
  function PrepBlock(prep: Bytes, i: nat, j: nat): (b: Bytes)
    requires j < 4 && (4 * i + j) * 32 + 32 <= |prep|
    ensures |b| == 32
  {
    prep[(4 * i + j) * 32..(4 * i + j) * 32 + 32]
  }

  /** Nothing is folded into the draws of ring i but at one key. */
  predicate ZeroBut(prep: Bytes, i: nat, key: nat)
    requires 128 * (i + 1) <= |prep|
  {
    forall j :: 0 <= j < 4 && j != key ==> PrepBlock(prep, i, j) == ZeroBytes(32)
  }

  /** The encoding sits at its key, the rest of the last ring is zero, and the message heads the buffer. */
  lemma PrepContents(rsizes: seq<nat>, v: nat, digit: nat, message: Bytes)
    requires |rsizes| > 0 && 1 < rsizes[|rsizes| - 1] <= 4 && |message| <= MessageRoom(rsizes)
    ensures var prep, n, last := Prep(rsizes, v, digit, message).value, |rsizes|, rsizes[|rsizes| - 1];
            && |prep| == 128 * n
            && PrepBlock(prep, n - 1, EncodingKey(last, digit)) == Encoding(v)
            && ZeroBut(prep, n - 1, EncodingKey(last, digit))
            && prep[..128 * (n - 1)] == message + ZeroBytes(MessageRoom(rsizes) - |message|)
  {
    var prep, n, last := Prep(rsizes, v, digit, message).value, |rsizes|, rsizes[|rsizes| - 1];
    var offset := (4 * (n - 1) + EncodingKey(last, digit)) * 32;
    assert prep[offset..offset + 32] == Encoding(v);
    var i := n - 1;
    forall j | 0 <= j < 4 && j != EncodingKey(last, digit) ensures PrepBlock(prep, i, j) == ZeroBytes(32) {
      var b := PrepBlock(prep, i, j);
      forall k | 0 <= k < 32 ensures b[k] == 0 { assert b[k] == prep[(4 * i + j) * 32 + k]; }
    }
    assert prep[..128 * (n - 1)] == message + ZeroBytes(MessageRoom(rsizes) - |message|);
  }

  /** An octet of 128, seven of zero, and the value three times, its most significant octet first. */
  lemma EncodingOctets(v: nat)
    requires v < Pow(256, 8)
    ensures var b := Encoding(v);
            && b[0] == 128 && (forall k :: 1 <= k < 8 ==> b[k] == 0)
            && Num(b[8..16]) == Num(b[16..24]) == Num(b[24..32]) == v
  {
    var b, t := Encoding(v), ToBytes(v, 8);
    NumToBytes(v, 8);
    assert b[8..16] == t && b[16..24] == t && b[24..32] == t;
  }

  /** The buffer, octet by octet: the message and zeros before the last ring, and in the last ring zeros but for the value's
      encoding, at its last key or, where that is the digit's, at the one before it. */
  lemma BufferOctets(rsizes: seq<nat>, v: nat, digit: nat, message: Bytes)
    requires |rsizes| > 0 && 1 < rsizes[|rsizes| - 1] <= 4 && |message| <= 128 * (|rsizes| - 1) && digit < rsizes[|rsizes| - 1]
    ensures var prep, start, last := Prep(rsizes, v, digit, message).value, 128 * (|rsizes| - 1), rsizes[|rsizes| - 1];
            var at := start + 32 * (if digit == last - 1 then last - 2 else last - 1);
            && |prep| == start + 128 && prep[..|message|] == message && prep[at..at + 32] == Encoding(v)
            && forall k :: |message| <= k < |prep| && !(at <= k < at + 32) ==> prep[k] == 0
  {
    var n, last := |rsizes|, rsizes[|rsizes| - 1];
    var at := (4 * (n - 1) + EncodingKey(last, digit)) * 32;
    assert at == 128 * (n - 1) + 32 * EncodingKey(last, digit);
    BufferSpliced(message, message + ZeroBytes(128 * n - |message|), at, Encoding(v));
  }

  lemma BufferSpliced(message: Bytes, buffer: Bytes, at: nat, e: Bytes)
    requires |e| == 32 && |message| <= at && at + 32 <= |buffer|
    requires buffer[..|message|] == message && forall k :: |message| <= k < |buffer| ==> buffer[k] == 0
    ensures var prep := buffer[..at] + e + buffer[at + 32..];
            && |prep| == |buffer| && prep[..|message|] == message && prep[at..at + 32] == e
            && forall k :: |message| <= k < |prep| && !(at <= k < at + 32) ==> prep[k] == 0
  {
  }

  // ---- where the chain takes its blocks

  /** One scalar per ring and one per key. */
  datatype NonceChain = NonceChain(factors: seq<int>, draws: seq<seq<int>>)

  /** The first block from position k that is a nonzero scalar. */
  function FirstScalar(n: int, blocks: seq<Bytes>, k: nat): (f: Option<nat>)
    ensures f.Some? ==> k <= f.value < |blocks| && 0 < Num(blocks[f.value]) < n
    decreases |blocks| - k
  {
    if k >= |blocks| then None
    else if 0 < Num(blocks[k]) < n then Some(k)
    else FirstScalar(n, blocks, k + 1)
  }

  function Sum(xs: seq<int>): int {
    if xs == [] then 0 else Sum(xs[..|xs| - 1]) + xs[|xs| - 1]
  }

  datatype Layout = Layout(factors: seq<int>, starts: seq<nat>, next: nat)

  /** The blinding factors of the first i rings and where their draws start; what is folded in does not matter. */
  function LayoutOf(n: int, blocks: seq<Bytes>, rsizes: seq<nat>, i: nat): (r: Option<Layout>)
    requires n > 0 && i <= |rsizes|
    ensures r.Some? ==> |r.value.factors| == |r.value.starts| == i
  {
    if i == 0 then Some(Layout([], [], 0)) else
      match LayoutOf(n, blocks, rsizes, i - 1)
      case None => None
      case Some(l) =>
        match RingStart(n, blocks, rsizes, i - 1, l)
        case None => None
        case Some(at) => Some(Layout(l.factors + [at.0], l.starts + [at.1], at.1 + rsizes[i - 1]))
  }

  /** A ring's factor and the position of its first draw; None where the blocks run out. */
  function RingStart(n: int, blocks: seq<Bytes>, rsizes: seq<nat>, i: nat, l: Layout): (r: Option<(int, nat)>)
    requires n > 0 && i < |rsizes|
    ensures r.Some? ==> r.value.1 + rsizes[i] <= |blocks|
  {
    if i == |rsizes| - 1 then
      (if l.next + rsizes[i] <= |blocks| then Some((-Sum(l.factors) % n, l.next)) else None)
    else
      // a block is spent before the one that is tested
      match FirstScalar(n, blocks, l.next + 1)
      case None => None
      case Some(f) => if f + 1 + rsizes[i] <= |blocks| then Some((Num(blocks[f]), f + 1)) else None
  }

  /** The draw of key j of ring i: its block with the buffer folded in. */
  function Draw(blocks: seq<Bytes>, start: nat, prep: Bytes, i: nat, j: nat): int
    requires start + j < |blocks| && |blocks[start + j]| == 32 && j < 4 && (4 * i + j) * 32 + 32 <= |prep|
  {
    Num(XorBytes(blocks[start + j], PrepBlock(prep, i, j)))
  }

  predicate Blocks32(blocks: seq<Bytes>) {
    forall k :: 0 <= k < |blocks| ==> |blocks[k]| == 32
  }

  predicate Rings(rsizes: seq<nat>, prep: Bytes) {
    |rsizes| > 0 && |prep| == 128 * |rsizes| && forall i :: 0 <= i < |rsizes| ==> 1 <= rsizes[i] <= 4
  }

  /** The chain's draws are those of its layout, and every one is a nonzero scalar. */
  ghost predicate IsChain(n: int, blocks: seq<Bytes>, rsizes: seq<nat>, prep: Bytes, chain: NonceChain)
    requires n > 0 && Blocks32(blocks) && Rings(rsizes, prep)
  {
    var l := LayoutOf(n, blocks, rsizes, |rsizes|);
    && l.Some? && chain.factors == l.value.factors && |chain.draws| == |rsizes|
    && forall i :: 0 <= i < |rsizes| ==> RingDrawn(n, blocks, rsizes[i], l.value.starts[i], prep, i, chain.draws[i])
  }

  ghost predicate RingDrawn(n: int, blocks: seq<Bytes>, size: nat, start: nat, prep: Bytes, i: nat, draws: seq<int>)
    requires Blocks32(blocks) && size <= 4 && 128 * (i + 1) <= |prep|
  {
    && |draws| == size && start + size <= |blocks|
    && forall j :: 0 <= j < size ==> draws[j] == Draw(blocks, start, prep, i, j) && 0 < draws[j] < n
  }

  /** The draws of one ring; None for one that is no scalar. */
  method DrawRing(n: int, blocks: seq<Bytes>, size: nat, start: nat, prep: Bytes, i: nat) returns (r: Option<seq<int>>)
    requires Blocks32(blocks) && size <= 4 && 128 * (i + 1) <= |prep| && start + size <= |blocks|
    ensures r.Some? ==> RingDrawn(n, blocks, size, start, prep, i, r.value)
    ensures r.None? ==> exists j :: 0 <= j < size && !(0 < Draw(blocks, start, prep, i, j) < n)
  {
    var ring: seq<int> := [];
    for j := 0 to size
      invariant |ring| == j && forall k :: 0 <= k < j ==> ring[k] == Draw(blocks, start, prep, i, k) && 0 < ring[k] < n
    {
      var s := Draw(blocks, start, prep, i, j);
      if s <= 0 || s >= n { return None; }
      ring := ring + [s];
    }
    return Some(ring);
  }

  /** A seed has one chain. */
  lemma ChainOnce(n: int, blocks: seq<Bytes>, rsizes: seq<nat>, prep: Bytes, a: NonceChain, b: NonceChain)
    requires n > 0 && Blocks32(blocks) && Rings(rsizes, prep)
    requires IsChain(n, blocks, rsizes, prep, a) && IsChain(n, blocks, rsizes, prep, b)
    ensures a == b
  {
    var starts := LayoutOf(n, blocks, rsizes, |rsizes|).value.starts;
    forall i | 0 <= i < |rsizes| ensures a.draws[i] == b.draws[i] {
      assert RingDrawn(n, blocks, rsizes[i], starts[i], prep, i, a.draws[i]);
      assert RingDrawn(n, blocks, rsizes[i], starts[i], prep, i, b.draws[i]);
    }
  }

  /** The layout and the draws of the first i rings. */
  ghost predicate DrawnTo(n: int, blocks: seq<Bytes>, rsizes: seq<nat>, prep: Bytes, i: nat, l: Layout, draws: seq<seq<int>>)
    requires n > 0 && Blocks32(blocks) && Rings(rsizes, prep) && i <= |rsizes|
  {
    && LayoutOf(n, blocks, rsizes, i) == Some(l) && |draws| == i
    && forall k :: 0 <= k < i ==> RingDrawn(n, blocks, rsizes[k], l.starts[k], prep, k, draws[k])
  }

  /** A layout, and the ring that starts after it. */
  function Extended(l: Layout, at: (int, nat), size: nat): Layout {
    Layout(l.factors + [at.0], l.starts + [at.1], at.1 + size)
  }

  lemma NextDrawn(n: int, blocks: seq<Bytes>, rsizes: seq<nat>, prep: Bytes, i: nat, l: Layout, draws: seq<seq<int>>, at: (int, nat), ring: seq<int>)
    requires n > 0 && Blocks32(blocks) && Rings(rsizes, prep) && i < |rsizes| && DrawnTo(n, blocks, rsizes, prep, i, l, draws)
    requires RingStart(n, blocks, rsizes, i, l) == Some(at) && RingDrawn(n, blocks, rsizes[i], at.1, prep, i, ring)
    ensures DrawnTo(n, blocks, rsizes, prep, i + 1, Extended(l, at, rsizes[i]), draws + [ring])
  {
    var l', ds := Extended(l, at, rsizes[i]), draws + [ring];
    forall k | 0 <= k < i + 1 ensures RingDrawn(n, blocks, rsizes[k], l'.starts[k], prep, k, ds[k]) {
      if k < i { assert l'.starts[k] == l.starts[k] && ds[k] == draws[k]; }
    }
  }

  lemma DrawnIsChain(n: int, blocks: seq<Bytes>, rsizes: seq<nat>, prep: Bytes, l: Layout, draws: seq<seq<int>>)
    requires n > 0 && Blocks32(blocks) && Rings(rsizes, prep) && DrawnTo(n, blocks, rsizes, prep, |rsizes|, l, draws)
    ensures IsChain(n, blocks, rsizes, prep, NonceChain(l.factors, draws))
  {
  }

  /** _genrand: None where the blocks run out or a draw is no scalar. */
  method Genrand(n: int, blocks: seq<Bytes>, rsizes: seq<nat>, prep: Bytes) returns (r: Option<NonceChain>)
    requires n > 0 && Blocks32(blocks) && Rings(rsizes, prep)
    ensures r.Some? ==> IsChain(n, blocks, rsizes, prep, r.value)
    ensures r.None? ==> forall chain :: !IsChain(n, blocks, rsizes, prep, chain)
  {
    var factors: seq<int>, draws: seq<seq<int>> := [], [];
    var acc, next := 0, 0;
    ghost var l := Layout([], [], 0);
    for i := 0 to |rsizes|
      invariant DrawnTo(n, blocks, rsizes, prep, i, l, draws)
      invariant factors == l.factors && next == l.next && Cong(acc, Sum(factors), n)
    {
      OppositeSum(n, acc, Sum(factors));
      var at := NextRing(n, blocks, rsizes, i, factors, acc, next, l.starts);
      if at.None? {
        LayoutStops(n, blocks, rsizes, i + 1);
        return None;
      }
      var ring := DrawRing(n, blocks, rsizes[i], at.value.1, prep, i);
      if ring.None? {
        ChainStops(n, blocks, rsizes, prep, i, l, at.value);
        return None;
      }
      Accumulates(n, acc, factors, at.value.0);
      NextDrawn(n, blocks, rsizes, prep, i, l, draws, at.value, ring.value);
      l := Extended(l, at.value, rsizes[i]);
      acc := (acc + at.value.0) % n;
      factors, draws, next := factors + [at.value.0], draws + [ring.value], at.value.1 + rsizes[i];
    }
    DrawnIsChain(n, blocks, rsizes, prep, l, draws);
    return Some(NonceChain(factors, draws));
  }

  // ---- the blocks read are a prefix of an endless stream

  lemma {:induction false} FirstScalarLonger(n: int, blocks: seq<Bytes>, more: seq<Bytes>, k: nat)
    requires FirstScalar(n, blocks, k).Some?
    ensures FirstScalar(n, blocks + more, k) == FirstScalar(n, blocks, k)
    decreases |blocks| - k
  {
    if !(0 < Num(blocks[k]) < n) { FirstScalarLonger(n, blocks, more, k + 1); }
  }

  lemma StartLonger(n: int, blocks: seq<Bytes>, more: seq<Bytes>, rsizes: seq<nat>, i: nat, l: Layout)
    requires n > 0 && i < |rsizes| && RingStart(n, blocks, rsizes, i, l).Some?
    ensures RingStart(n, blocks + more, rsizes, i, l) == RingStart(n, blocks, rsizes, i, l)
  {
    if i < |rsizes| - 1 { FirstScalarLonger(n, blocks, more, l.next + 1); }
  }

  lemma {:induction false} LayoutLonger(n: int, blocks: seq<Bytes>, more: seq<Bytes>, rsizes: seq<nat>, i: nat)
    requires n > 0 && i <= |rsizes| && LayoutOf(n, blocks, rsizes, i).Some?
    ensures LayoutOf(n, blocks + more, rsizes, i) == LayoutOf(n, blocks, rsizes, i)
  {
    if i > 0 {
      LayoutLonger(n, blocks, more, rsizes, i - 1);
      StartLonger(n, blocks, more, rsizes, i - 1, LayoutOf(n, blocks, rsizes, i - 1).value);
    }
  }

  lemma LayoutInside(n: int, blocks: seq<Bytes>, rsizes: seq<nat>, i: nat)
    requires n > 0 && i < |rsizes| && LayoutOf(n, blocks, rsizes, |rsizes|).Some?
    ensures LayoutOf(n, blocks, rsizes, |rsizes|).value.starts[i] + rsizes[i] <= |blocks|
  {
    LayoutPrefix(n, blocks, rsizes, i, |rsizes|);
    LayoutPrefix(n, blocks, rsizes, i + 1, |rsizes|);
  }

  lemma RingLonger(n: int, blocks: seq<Bytes>, more: seq<Bytes>, size: nat, start: nat, prep: Bytes, i: nat, draws: seq<int>)
    requires Blocks32(blocks) && Blocks32(blocks + more) && size <= 4 && 128 * (i + 1) <= |prep| && start + size <= |blocks|
    ensures RingDrawn(n, blocks + more, size, start, prep, i, draws) <==> RingDrawn(n, blocks, size, start, prep, i, draws)
  {
    forall j | 0 <= j < size ensures Draw(blocks + more, start, prep, i, j) == Draw(blocks, start, prep, i, j) {
      assert (blocks + more)[start + j] == blocks[start + j];
    }
  }

  /** Once a prefix of the stream reaches the last ring, the chain, or that there is none, is that of every longer prefix. */
  lemma ChainLonger(n: int, blocks: seq<Bytes>, more: seq<Bytes>, rsizes: seq<nat>, prep: Bytes, chain: NonceChain)
    requires n > 0 && Blocks32(blocks) && Blocks32(more) && Rings(rsizes, prep) && LayoutOf(n, blocks, rsizes, |rsizes|).Some?
    ensures Blocks32(blocks + more)
    ensures IsChain(n, blocks + more, rsizes, prep, chain) <==> IsChain(n, blocks, rsizes, prep, chain)
  {
    LayoutLonger(n, blocks, more, rsizes, |rsizes|);
    var starts := LayoutOf(n, blocks, rsizes, |rsizes|).value.starts;
    if |chain.draws| == |rsizes| {
      forall i | 0 <= i < |rsizes|
        ensures starts[i] + rsizes[i] <= |blocks|
        ensures RingDrawn(n, blocks + more, rsizes[i], starts[i], prep, i, chain.draws[i])
           <==> RingDrawn(n, blocks, rsizes[i], starts[i], prep, i, chain.draws[i])
      {
        LayoutInside(n, blocks, rsizes, i);
        RingLonger(n, blocks, more, rsizes[i], starts[i], prep, i, chain.draws[i]);
      }
    }
  }

  lemma Accumulates(n: int, acc: int, factors: seq<int>, x: int)
    requires n > 0 && Cong(acc, Sum(factors), n)
    ensures Cong((acc + x) % n, Sum(factors + [x]), n)
  {
    SumSnoc(factors, x);
    CongAdd(acc, Sum(factors), x, x, n);
    ModCong(acc + x, n);
  }

  lemma OppositeSum(n: int, acc: int, sum: int)
    requires n > 0 && Cong(acc, sum, n)
    ensures -acc % n == -sum % n
  {
    CongNeg(acc, sum, n);
  }

  /** The factor of the next ring: the first scalar past a spent block, or what makes the sum vanish. */
  method NextRing(n: int, blocks: seq<Bytes>, rsizes: seq<nat>, i: nat, factors: seq<int>, acc: int, next: nat, ghost starts: seq<nat>)
    returns (at: Option<(int, nat)>)
    requires n > 0 && i < |rsizes| && -acc % n == -Sum(factors) % n
    ensures at == RingStart(n, blocks, rsizes, i, Layout(factors, starts, next))
  {
    if i == |rsizes| - 1 {
      return if next + rsizes[i] <= |blocks| then Some((-acc % n, next)) else None;
    }
    var k := next + 1;
    while k < |blocks| && !(0 < Num(blocks[k]) < n)
      invariant k >= next + 1
      invariant FirstScalar(n, blocks, k) == FirstScalar(n, blocks, next + 1)
      decreases |blocks| - k
    {
      k := k + 1;
    }
    if k >= |blocks| { return None; }
    return if k + 1 + rsizes[i] <= |blocks| then Some((Num(blocks[k]), k + 1)) else None;
  }

  lemma {:induction false} LayoutStops(n: int, blocks: seq<Bytes>, rsizes: seq<nat>, i: nat)
    requires n > 0 && i <= |rsizes| && LayoutOf(n, blocks, rsizes, i).None?
    ensures LayoutOf(n, blocks, rsizes, |rsizes|).None?
    decreases |rsizes| - i
  {
    if i < |rsizes| { LayoutStops(n, blocks, rsizes, i + 1); }
  }

  /** The layout of all rings starts with the layout of the first. */
  lemma {:induction false} LayoutPrefix(n: int, blocks: seq<Bytes>, rsizes: seq<nat>, i: nat, k: nat)
    requires n > 0 && i <= k <= |rsizes| && LayoutOf(n, blocks, rsizes, k).Some?
    ensures LayoutOf(n, blocks, rsizes, i).Some?
    ensures LayoutOf(n, blocks, rsizes, i).value.starts <= LayoutOf(n, blocks, rsizes, k).value.starts
    ensures LayoutOf(n, blocks, rsizes, i).value.factors <= LayoutOf(n, blocks, rsizes, k).value.factors
    decreases k
  {
    if i < k { LayoutPrefix(n, blocks, rsizes, i, k - 1); }
  }

  lemma ChainStops(n: int, blocks: seq<Bytes>, rsizes: seq<nat>, prep: Bytes, i: nat, l: Layout, at: (int, nat))
    requires n > 0 && Blocks32(blocks) && Rings(rsizes, prep) && i < |rsizes| && LayoutOf(n, blocks, rsizes, i) == Some(l)
    requires RingStart(n, blocks, rsizes, i, l) == Some(at)
    requires exists j :: 0 <= j < rsizes[i] && !(0 < Draw(blocks, at.1, prep, i, j) < n)
    ensures forall chain :: !IsChain(n, blocks, rsizes, prep, chain)
  {
    if LayoutOf(n, blocks, rsizes, |rsizes|).Some? {
      LayoutPrefix(n, blocks, rsizes, i + 1, |rsizes|);
      forall chain ensures !IsChain(n, blocks, rsizes, prep, chain) { ChainDraws(n, blocks, rsizes, prep, chain, i, at.1); }
    }
  }

  /** What a chain says of the draws of one ring. */
  lemma ChainDraws(n: int, blocks: seq<Bytes>, rsizes: seq<nat>, prep: Bytes, chain: NonceChain, i: nat, start: nat)
    requires n > 0 && Blocks32(blocks) && Rings(rsizes, prep) && i < |rsizes| && start + rsizes[i] <= |blocks|
    requires LayoutOf(n, blocks, rsizes, |rsizes|).Some? && LayoutOf(n, blocks, rsizes, |rsizes|).value.starts[i] == start
    ensures IsChain(n, blocks, rsizes, prep, chain) ==> forall j :: 0 <= j < rsizes[i] ==> 0 < Draw(blocks, start, prep, i, j) < n
  {
    if IsChain(n, blocks, rsizes, prep, chain) {
      assert RingDrawn(n, blocks, rsizes[i], start, prep, i, chain.draws[i]);
      assert forall j :: 0 <= j < rsizes[i] ==> chain.draws[i][j] == Draw(blocks, start, prep, i, j);
    }
  }

  /** The blinding factors of a chain sum to zero modulo n, and each but the last is a nonzero scalar. */
  lemma FactorsCancel(n: int, blocks: seq<Bytes>, rsizes: seq<nat>, prep: Bytes, chain: NonceChain)
    requires n > 0 && Blocks32(blocks) && Rings(rsizes, prep) && IsChain(n, blocks, rsizes, prep, chain)
    ensures |chain.factors| == |rsizes| && Cong(Sum(chain.factors), 0, n)
    ensures forall i :: 0 <= i < |rsizes| - 1 ==> 0 < chain.factors[i] < n
    ensures 0 <= chain.factors[|rsizes| - 1] < n
  {
    LayoutCancels(n, blocks, rsizes);
    forall i | 0 <= i < |rsizes| - 1 ensures 0 < chain.factors[i] < n { EarlierFactor(n, blocks, rsizes, i); }
  }

  /** The last factor is what makes the sum vanish. */
  lemma LayoutCancels(n: int, blocks: seq<Bytes>, rsizes: seq<nat>)
    requires n > 0 && |rsizes| > 0 && LayoutOf(n, blocks, rsizes, |rsizes|).Some?
    ensures var factors := LayoutOf(n, blocks, rsizes, |rsizes|).value.factors;
            Cong(Sum(factors), 0, n) && 0 <= factors[|rsizes| - 1] < n
  {
    var k := |rsizes| - 1;
    var before := LayoutOf(n, blocks, rsizes, k).value.factors;
    Cancelling(n, Sum(before));
    LastFactor(n, before, -Sum(before) % n);
    assert LayoutOf(n, blocks, rsizes, k + 1).value.factors == before + [-Sum(before) % n];
  }

  lemma EarlierFactor(n: int, blocks: seq<Bytes>, rsizes: seq<nat>, i: nat)
    requires n > 0 && i < |rsizes| - 1 && LayoutOf(n, blocks, rsizes, |rsizes|).Some?
    ensures 0 < LayoutOf(n, blocks, rsizes, |rsizes|).value.factors[i] < n
  {
    LayoutPrefix(n, blocks, rsizes, i, |rsizes|);
    LayoutPrefix(n, blocks, rsizes, i + 1, |rsizes|);
  }

  lemma LastFactor(n: int, before: seq<int>, x: int)
    requires n > 0 && Cong(Sum(before) + x, 0, n)
    ensures Cong(Sum(before + [x]), 0, n)
  {
    SumSnoc(before, x);
  }

  lemma SumSnoc(xs: seq<int>, x: int)
    ensures Sum(xs + [x]) == Sum(xs) + x
  {
    assert (xs + [x])[..|xs|] == xs;
  }

  lemma Cancelling(n: int, sum: int)
    requires n > 0
    ensures Cong(sum + -sum % n, 0, n) && 0 <= -sum % n < n
  {
    ModCong(-sum, n);
    CongAdd(sum, sum, -sum % n, -sum, n);
  }

  /** Two chains of one seed share their factors, and their draws differ by what was folded in. */
  lemma SameSeed(n: int, blocks: seq<Bytes>, rsizes: seq<nat>, prep: Bytes, chain: NonceChain, raw: NonceChain, i: nat, j: nat)
    requires n > 0 && Blocks32(blocks) && Rings(rsizes, prep) && Rings(rsizes, ZeroBytes(|prep|))
    requires IsChain(n, blocks, rsizes, prep, chain) && IsChain(n, blocks, rsizes, ZeroBytes(|prep|), raw)
    requires i < |rsizes| && j < rsizes[i]
    ensures chain.factors == raw.factors && |chain.draws| == |raw.draws| == |rsizes|
    ensures |chain.draws[i]| == |raw.draws[i]| == rsizes[i] && chain.draws[i][j] > 0 && raw.draws[i][j] > 0
    ensures Ch32Xor(chain.draws[i][j], raw.draws[i][j]) == PrepBlock(prep, i, j)
    ensures PrepBlock(prep, i, j) == ZeroBytes(32) ==> chain.draws[i][j] == raw.draws[i][j]
  {
    var start := LayoutOf(n, blocks, rsizes, |rsizes|).value.starts[i];
    assert RingDrawn(n, blocks, rsizes[i], start, prep, i, chain.draws[i]);
    assert RingDrawn(n, blocks, rsizes[i], start, ZeroBytes(|prep|), i, raw.draws[i]);
    var block, b := blocks[start + j], PrepBlock(prep, i, j);
    assert PrepBlock(ZeroBytes(|prep|), i, j) == ZeroBytes(32);
    XorWithZeros(block);
    ToBytesNum(block);
    ToBytesNum(XorBytes(block, b));
    XorBytesUndone(block, b);
  }

  // ---- the chain, block by block

  /** Where the blocks of ring i are taken from: after the draws of the ring before it. */
  function From(rsizes: seq<nat>, starts: seq<nat>, i: nat): nat
    requires i <= |starts| <= |rsizes|
  {
    if i == 0 then 0 else starts[i - 1] + rsizes[i - 1]
  }

  /** Every ring but the last spends a block unread, skips what is no scalar and takes its factor from the block before its draws. */
  ghost predicate FactorTaken(n: int, blocks: seq<Bytes>, from: nat, start: nat, factor: int) {
    && from + 2 <= start <= |blocks| && factor == Num(blocks[start - 1]) && 0 < factor < n
    && forall k {:trigger blocks[k]} :: from + 1 <= k < start - 1 ==> !(0 < Num(blocks[k]) < n)
  }

  ghost predicate FactorAt(n: int, blocks: seq<Bytes>, rsizes: seq<nat>, factors: seq<int>, starts: seq<nat>, i: nat)
    requires i < |rsizes| == |factors| == |starts|
  {
    FactorTaken(n, blocks, From(rsizes, starts, i), starts[i], factors[i]) && starts[i] + rsizes[i] <= |blocks|
  }

  /** The draws of a ring: consecutive blocks, each xored with the 32 octets of the buffer at its ring's and its key's place. */
  ghost predicate DrawsTaken(n: int, blocks: seq<Bytes>, start: nat, prep: Bytes, i: nat, size: nat, draws: seq<int>)
    requires Blocks32(blocks) && size <= 4 && 128 * (i + 1) <= |prep|
  {
    && |draws| == size && start + size <= |blocks|
    && forall j :: 0 <= j < size ==>
         0 < draws[j] < n && draws[j] == Num(XorBytes(blocks[start + j], prep[128 * i + 32 * j..128 * i + 32 * j + 32]))
  }

  /** Factor, then draws, ring by ring; the last ring takes no block for its factor, which makes the sum vanish. */
  ghost predicate BlocksTaken(n: int, blocks: seq<Bytes>, rsizes: seq<nat>, prep: Bytes, chain: NonceChain, starts: seq<nat>)
    requires n > 0 && Blocks32(blocks) && Rings(rsizes, prep)
  {
    var last := |rsizes| - 1;
    && |starts| == |chain.factors| == |chain.draws| == |rsizes|
    && (forall i :: 0 <= i < last ==> FactorAt(n, blocks, rsizes, chain.factors, starts, i))
    && starts[last] == From(rsizes, starts, last) && 0 <= chain.factors[last] < n && Cong(Sum(chain.factors), 0, n)
    && forall i :: 0 <= i < |rsizes| ==> DrawsTaken(n, blocks, starts[i], prep, i, rsizes[i], chain.draws[i])
  }

  lemma DrawsAre(n: int, blocks: seq<Bytes>, start: nat, prep: Bytes, i: nat, size: nat, draws: seq<int>)
    requires Blocks32(blocks) && size <= 4 && 128 * (i + 1) <= |prep|
    ensures RingDrawn(n, blocks, size, start, prep, i, draws) <==> DrawsTaken(n, blocks, start, prep, i, size, draws)
  {
    forall j | 0 <= j < size ensures PrepBlock(prep, i, j) == prep[128 * i + 32 * j..128 * i + 32 * j + 32] {
      assert (4 * i + j) * 32 == 128 * i + 32 * j;
    }
  }

  lemma {:induction false} ScalarFound(n: int, blocks: seq<Bytes>, k: nat, f: nat)
    requires k <= f
    ensures FirstScalar(n, blocks, k) == Some(f) <==>
      f < |blocks| && 0 < Num(blocks[f]) < n && forall l {:trigger blocks[l]} :: k <= l < f ==> !(0 < Num(blocks[l]) < n)
    decreases f - k
  {
    if k < f { ScalarFound(n, blocks, k + 1, f); }
  }

  /** One ring's start in the layout is one factor taken. */
  lemma StartTaken(n: int, blocks: seq<Bytes>, rsizes: seq<nat>, i: nat, l: Layout, factor: int, start: nat)
    requires n > 0 && i < |rsizes| - 1
    ensures RingStart(n, blocks, rsizes, i, l) == Some((factor, start)) <==>
      FactorTaken(n, blocks, l.next, start, factor) && start + rsizes[i] <= |blocks|
  {
    if start >= l.next + 2 { ScalarFound(n, blocks, l.next + 1, start - 1); }
  }

  /** A layout as far as ring i, read off the factors and the starts of all. */
  ghost predicate LayoutIs(n: int, blocks: seq<Bytes>, rsizes: seq<nat>, factors: seq<int>, starts: seq<nat>, i: nat)
    requires n > 0 && i <= |rsizes| == |factors| == |starts|
  {
    LayoutOf(n, blocks, rsizes, i) == Some(Layout(factors[..i], starts[..i], From(rsizes, starts, i)))
  }

  lemma PrefixGrows<T>(xs: seq<T>, i: nat)
    requires i < |xs|
    ensures xs[..i + 1] == xs[..i] + [xs[i]]
  {
  }

  lemma LayoutSteps(n: int, blocks: seq<Bytes>, rsizes: seq<nat>, i: nat, l: Layout, at: (int, nat))
    requires n > 0 && i < |rsizes| && LayoutOf(n, blocks, rsizes, i) == Some(l) && RingStart(n, blocks, rsizes, i, l) == Some(at)
    ensures LayoutOf(n, blocks, rsizes, i + 1) == Some(Extended(l, at, rsizes[i]))
  {
  }

  lemma LayoutGrows(n: int, blocks: seq<Bytes>, rsizes: seq<nat>, factors: seq<int>, starts: seq<nat>, i: nat)
    requires n > 0 && i < |rsizes| == |factors| == |starts| && LayoutIs(n, blocks, rsizes, factors, starts, i)
    requires RingStart(n, blocks, rsizes, i, Layout(factors[..i], starts[..i], From(rsizes, starts, i))) == Some((factors[i], starts[i]))
    ensures LayoutIs(n, blocks, rsizes, factors, starts, i + 1)
  {
    LayoutSteps(n, blocks, rsizes, i, Layout(factors[..i], starts[..i], From(rsizes, starts, i)), (factors[i], starts[i]));
    PrefixGrows(factors, i);
    PrefixGrows(starts, i);
  }

  ghost predicate FactorsTaken(n: int, blocks: seq<Bytes>, rsizes: seq<nat>, factors: seq<int>, starts: seq<nat>)
    requires |rsizes| == |factors| == |starts|
  {
    forall k :: 0 <= k < |rsizes| - 1 ==> FactorAt(n, blocks, rsizes, factors, starts, k)
  }

  lemma LayoutNext(n: int, blocks: seq<Bytes>, rsizes: seq<nat>, factors: seq<int>, starts: seq<nat>, i: nat, l: Layout)
    requires n > 0 && i < |rsizes| - 1 && |rsizes| == |factors| == |starts| && LayoutIs(n, blocks, rsizes, factors, starts, i)
    requires l == Layout(factors[..i], starts[..i], From(rsizes, starts, i))
    requires FactorTaken(n, blocks, l.next, starts[i], factors[i]) && starts[i] + rsizes[i] <= |blocks|
    ensures LayoutIs(n, blocks, rsizes, factors, starts, i + 1)
  {
    StartTaken(n, blocks, rsizes, i, l, factors[i], starts[i]);
    LayoutGrows(n, blocks, rsizes, factors, starts, i);
  }

  lemma {:induction false} LayoutTaken(n: int, blocks: seq<Bytes>, rsizes: seq<nat>, factors: seq<int>, starts: seq<nat>, i: nat)
    requires n > 0 && i < |rsizes| == |factors| == |starts| && FactorsTaken(n, blocks, rsizes, factors, starts)
    ensures LayoutIs(n, blocks, rsizes, factors, starts, i)
  {
    if i > 0 {
      var k := i - 1;
      LayoutTaken(n, blocks, rsizes, factors, starts, k);
      assert FactorAt(n, blocks, rsizes, factors, starts, k);
      LayoutNext(n, blocks, rsizes, factors, starts, k, Layout(factors[..k], starts[..k], From(rsizes, starts, k)));
    }
  }

  lemma LastIsOpposite(n: int, factors: seq<int>)
    requires n > 0 && factors != [] && Cong(Sum(factors), 0, n) && 0 <= factors[|factors| - 1] < n
    ensures -Sum(factors[..|factors| - 1]) % n == factors[|factors| - 1]
  {
    var before, x := factors[..|factors| - 1], factors[|factors| - 1];
    CongAdd(Sum(before) + x, 0, Sum(before), Sum(before), n);
    SmallMod(x, n);
  }

  lemma LastStart(n: int, blocks: seq<Bytes>, rsizes: seq<nat>, l: Layout, factor: int)
    requires n > 0 && |rsizes| > 0 && -Sum(l.factors) % n == factor && l.next + rsizes[|rsizes| - 1] <= |blocks|
    ensures RingStart(n, blocks, rsizes, |rsizes| - 1, l) == Some((factor, l.next))
  {
  }

  lemma LastLayout(n: int, blocks: seq<Bytes>, rsizes: seq<nat>, factors: seq<int>, starts: seq<nat>)
    requires n > 0 && 0 < |rsizes| == |factors| == |starts| && FactorsTaken(n, blocks, rsizes, factors, starts)
    requires var last := |rsizes| - 1;
             && starts[last] == From(rsizes, starts, last) && starts[last] + rsizes[last] <= |blocks|
             && 0 <= factors[last] < n && Cong(Sum(factors), 0, n)
    ensures LayoutIs(n, blocks, rsizes, factors, starts, |rsizes|)
  {
    var last := |rsizes| - 1;
    var l := Layout(factors[..last], starts[..last], From(rsizes, starts, last));
    LayoutTaken(n, blocks, rsizes, factors, starts, last);
    LastIsOpposite(n, factors);
    LastNext(n, blocks, rsizes, factors, starts, last, l);
  }

  lemma LastNext(n: int, blocks: seq<Bytes>, rsizes: seq<nat>, factors: seq<int>, starts: seq<nat>, last: nat, l: Layout)
    requires n > 0 && last == |rsizes| - 1 && |rsizes| == |factors| == |starts| && LayoutIs(n, blocks, rsizes, factors, starts, last)
    requires l == Layout(factors[..last], starts[..last], From(rsizes, starts, last)) && -Sum(l.factors) % n == factors[last]
    requires starts[last] == l.next && l.next + rsizes[last] <= |blocks|
    ensures LayoutIs(n, blocks, rsizes, factors, starts, |rsizes|)
  {
    LastStart(n, blocks, rsizes, l, factors[last]);
    LayoutGrows(n, blocks, rsizes, factors, starts, last);
  }

  /** Backwards: a layout of all rings says where each factor was taken. */
  lemma LayoutFactor(n: int, blocks: seq<Bytes>, rsizes: seq<nat>, i: nat)
    requires n > 0 && i < |rsizes| && LayoutOf(n, blocks, rsizes, |rsizes|).Some?
    ensures var l := LayoutOf(n, blocks, rsizes, |rsizes|).value;
            && l.starts[i] + rsizes[i] <= |blocks|
            && (i < |rsizes| - 1 ==> FactorTaken(n, blocks, From(rsizes, l.starts, i), l.starts[i], l.factors[i]))
            && (i == |rsizes| - 1 ==> l.starts[i] == From(rsizes, l.starts, i))
  {
    LayoutPrefix(n, blocks, rsizes, i, |rsizes|);
    LayoutPrefix(n, blocks, rsizes, i + 1, |rsizes|);
    LayoutInside(n, blocks, rsizes, i);
    var before, l := LayoutOf(n, blocks, rsizes, i).value, LayoutOf(n, blocks, rsizes, |rsizes|).value;
    StartOf(n, blocks, rsizes, i);
    NextIs(n, blocks, rsizes, i);
    if i > 0 { assert before.starts[i - 1] == l.starts[i - 1]; }
    if i < |rsizes| - 1 { StartTaken(n, blocks, rsizes, i, before, l.factors[i], l.starts[i]); }
  }

  lemma StartOf(n: int, blocks: seq<Bytes>, rsizes: seq<nat>, i: nat)
    requires n > 0 && i < |rsizes| && LayoutOf(n, blocks, rsizes, i + 1).Some?
    ensures LayoutOf(n, blocks, rsizes, i).Some?
    ensures var l := LayoutOf(n, blocks, rsizes, i + 1).value;
            RingStart(n, blocks, rsizes, i, LayoutOf(n, blocks, rsizes, i).value) == Some((l.factors[i], l.starts[i]))
  {
  }

  lemma NextIs(n: int, blocks: seq<Bytes>, rsizes: seq<nat>, i: nat)
    requires n > 0 && i <= |rsizes| && LayoutOf(n, blocks, rsizes, i).Some?
    ensures LayoutOf(n, blocks, rsizes, i).value.next == From(rsizes, LayoutOf(n, blocks, rsizes, i).value.starts, i)
  {
  }

  /** A chain is exactly what taking the blocks in this order gives. */
  lemma ChainIff(n: int, blocks: seq<Bytes>, rsizes: seq<nat>, prep: Bytes, chain: NonceChain)
    requires n > 0 && Blocks32(blocks) && Rings(rsizes, prep)
    ensures IsChain(n, blocks, rsizes, prep, chain) <==> exists starts :: BlocksTaken(n, blocks, rsizes, prep, chain, starts)
  {
    if IsChain(n, blocks, rsizes, prep, chain) { ChainTaken(n, blocks, rsizes, prep, chain); }
    if starts :| BlocksTaken(n, blocks, rsizes, prep, chain, starts) { TakenChain(n, blocks, rsizes, prep, chain, starts); }
  }

  lemma TakenChain(n: int, blocks: seq<Bytes>, rsizes: seq<nat>, prep: Bytes, chain: NonceChain, starts: seq<nat>)
    requires n > 0 && Blocks32(blocks) && Rings(rsizes, prep) && BlocksTaken(n, blocks, rsizes, prep, chain, starts)
    ensures IsChain(n, blocks, rsizes, prep, chain)
  {
    forall i | 0 <= i < |rsizes|
      ensures starts[i] + rsizes[i] <= |blocks| && RingDrawn(n, blocks, rsizes[i], starts[i], prep, i, chain.draws[i])
    {
      assert DrawsTaken(n, blocks, starts[i], prep, i, rsizes[i], chain.draws[i]);
      DrawsAre(n, blocks, starts[i], prep, i, rsizes[i], chain.draws[i]);
    }
    LastLayout(n, blocks, rsizes, chain.factors, starts);
    LayoutWhole(n, blocks, rsizes, chain.factors, starts);
  }

  lemma LayoutWhole(n: int, blocks: seq<Bytes>, rsizes: seq<nat>, factors: seq<int>, starts: seq<nat>)
    requires n > 0 && |rsizes| == |factors| == |starts| && LayoutIs(n, blocks, rsizes, factors, starts, |rsizes|)
    ensures var l := LayoutOf(n, blocks, rsizes, |rsizes|); l.Some? && l.value.factors == factors && l.value.starts == starts
  {
    assert factors[..|factors|] == factors && starts[..|starts|] == starts;
  }

  lemma ChainTaken(n: int, blocks: seq<Bytes>, rsizes: seq<nat>, prep: Bytes, chain: NonceChain)
    requires n > 0 && Blocks32(blocks) && Rings(rsizes, prep) && IsChain(n, blocks, rsizes, prep, chain)
    ensures BlocksTaken(n, blocks, rsizes, prep, chain, LayoutOf(n, blocks, rsizes, |rsizes|).value.starts)
  {
    var l := LayoutOf(n, blocks, rsizes, |rsizes|).value;
    FactorsCancel(n, blocks, rsizes, prep, chain);
    LayoutFactor(n, blocks, rsizes, |rsizes| - 1);
    forall i | 0 <= i < |rsizes| - 1 ensures FactorAt(n, blocks, rsizes, chain.factors, l.starts, i) {
      LayoutFactor(n, blocks, rsizes, i);
    }
    forall i | 0 <= i < |rsizes| ensures DrawsTaken(n, blocks, l.starts[i], prep, i, rsizes[i], chain.draws[i]) {
      assert RingDrawn(n, blocks, rsizes[i], l.starts[i], prep, i, chain.draws[i]);
      DrawsAre(n, blocks, l.starts[i], prep, i, rsizes[i], chain.draws[i]);
    }
  }
}
