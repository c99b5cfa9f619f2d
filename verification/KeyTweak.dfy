/** Tweaking a group key, x-only or plain, as MuSig2 and FROST share it. */
module KeyTweak {
  import opened Modular
  import opened Groups
  import opened SchnorrGroup

  /** The tweaked point, the negations x-only tweaking forced and the sum of the tweaks. */
  datatype TweakContext<P> = TweakContext(Q: P, gacc: int, tacc: int)

  datatype Tweak = Tweak(value: nat, isXonly: bool)

  /** None for a tweak out of range or one that lands on infinity. */
  function ApplyTweak<P(==, !new)>(c: Schnorr<P>, ctx: TweakContext<P>, tweak: Tweak): Option<TweakContext<P>>
    requires c.n > 0
  {
    var negate := tweak.isXonly && c.odd(ctx.Q);
    var g := if negate then c.n - 1 else 1;
    if tweak.value >= c.n then None else
      var Q := c.g.add(if negate then c.g.neg(ctx.Q) else ctx.Q, Mul(c.g, tweak.value, c.G));
      if Q == c.g.zero then None
      else Some(TweakContext(Q, g * ctx.gacc % c.n, (tweak.value + g * ctx.tacc) % c.n))
  }

  function ApplyTweaks<P(==, !new)>(c: Schnorr<P>, ctx: TweakContext<P>, tweaks: seq<Tweak>): Option<TweakContext<P>>
    requires c.n > 0
  {
    if tweaks == [] then Some(ctx) else
      match ApplyTweaks(c, ctx, tweaks[..|tweaks| - 1])
      case None => None
      case Some(before) => ApplyTweak(c, before, tweaks[|tweaks| - 1])
  }

  // ---- what one tweak answers

  /** The even point under an x-only tweak, the point itself under a plain one, and the tweak's multiple of G. */
  function TweakSum<P(!new)>(c: Schnorr<P>, Q: P, tweak: Tweak): P {
    c.g.add(if tweak.isXonly then Even(c, Q) else Q, Mul(c.g, tweak.value, c.G))
  }

  /** Refused exactly out of range or at infinity; only an x-only tweak of an odd point negates, and the accumulators follow. */
  lemma TweakAnswers<P(!new)>(c: Schnorr<P>, ctx: TweakContext<P>, tweak: Tweak)
    requires c.n > 0 && 0 <= ctx.gacc < c.n
    ensures ApplyTweak(c, ctx, tweak).Some? <==> tweak.value < c.n && TweakSum(c, ctx.Q, tweak) != c.g.zero
    ensures ApplyTweak(c, ctx, tweak).Some? ==>
      var r, t, f := ApplyTweak(c, ctx, tweak).value, tweak.value, ParityFactor(c, ctx.Q);
      && r.Q == TweakSum(c, ctx.Q, tweak)
      && (!tweak.isXonly ==> r.gacc == ctx.gacc && r.tacc == (t + ctx.tacc) % c.n)
      && (tweak.isXonly ==> r.gacc == f * ctx.gacc % c.n && r.tacc == (t + f * ctx.tacc) % c.n)
  {
    SmallMod(ctx.gacc, c.n);
  }

  predicate AllPlain(tweaks: seq<Tweak>) {
    forall i :: 0 <= i < |tweaks| ==> !tweaks[i].isXonly
  }

  function SumOfTweaks(tweaks: seq<Tweak>): nat {
    if tweaks == [] then 0 else SumOfTweaks(tweaks[..|tweaks| - 1]) + tweaks[|tweaks| - 1].value
  }

  /** Plain tweaks never negate, whatever the parities on the way: they add their sum. */
  lemma {:induction false} PlainTweaksAdd<P(!new)>(c: Schnorr<P>, ctx: TweakContext<P>, tweaks: seq<Tweak>)
    requires Laws(c) && c.g.has(ctx.Q) && 0 <= ctx.gacc < c.n && 0 <= ctx.tacc < c.n && AllPlain(tweaks)
    requires ApplyTweaks(c, ctx, tweaks).Some?
    ensures var r := ApplyTweaks(c, ctx, tweaks).value;
            && r.Q == c.g.add(ctx.Q, Mul(c.g, SumOfTweaks(tweaks), c.G))
            && r.gacc == ctx.gacc && r.tacc == (ctx.tacc + SumOfTweaks(tweaks)) % c.n
    decreases |tweaks|
  {
    if tweaks == [] {
      SmallMod(ctx.tacc, c.n);
    } else {
      var n := |tweaks| - 1;
      var before, t := ApplyTweaks(c, ctx, tweaks[..n]), tweaks[n].value;
      PlainTweaksAdd(c, ctx, tweaks[..n]);
      TweakAnswers(c, before.value, tweaks[n]);
      var sum := SumOfTweaks(tweaks[..n]);
      assert Associates(c.g, ctx.Q, Mul(c.g, sum, c.G), Mul(c.g, t, c.G));
      MulAdd(c.g, sum, t, c.G);
      AddReduced(c.n, t, ctx.tacc + sum);
    }
  }

  lemma AddReduced(n: int, t: int, a: int)
    requires n > 0
    ensures (t + a % n) % n == (a + t) % n
  {
    ModCong(a, n);
    CongAdd(t, t, a % n, a, n);
  }

  /** Tweaks are applied from the first to the last. */
  lemma {:induction false} TweaksInOrder<P(!new)>(c: Schnorr<P>, ctx: TweakContext<P>, tweak: Tweak, rest: seq<Tweak>)
    requires c.n > 0
    ensures ApplyTweaks(c, ctx, [tweak] + rest)
         == match ApplyTweak(c, ctx, tweak) case None => None case Some(next) => ApplyTweaks(c, next, rest)
    decreases |rest|
  {
    var tweaks := [tweak] + rest;
    if rest == [] {
      assert tweaks == [tweak] && tweaks[..0] == [];
    } else {
      var n := |rest| - 1;
      assert tweaks[..|tweaks| - 1] == [tweak] + rest[..n];
      TweaksInOrder(c, ctx, tweak, rest[..n]);
    }
  }

  // ---- what every tweak keeps

  /** Q = gacc*Q0 + tacc*G, gacc being 1 or -1. */
  ghost predicate Tweaked<P(!new)>(c: Schnorr<P>, Q0: P, ctx: TweakContext<P>) {
    && c.g.has(ctx.Q) && ctx.Q != c.g.zero && 0 <= ctx.tacc < c.n && (ctx.gacc == 1 || ctx.gacc == c.n - 1)
    && ctx.Q == c.g.add(Mul(c.g, ctx.gacc, Q0), Mul(c.g, ctx.tacc, c.G))
  }

  lemma Untweaked<P(!new)>(c: Schnorr<P>, Q0: P)
    requires Laws(c) && c.g.has(Q0) && Q0 != c.g.zero
    ensures Tweaked(c, Q0, TweakContext(Q0, 1, 0))
  {
    MulOne(c.g, Q0);
    MulOne(c.g, c.G);
  }

  lemma NegationFactor<P(!new)>(c: Schnorr<P>, gacc: int)
    requires Laws(c) && (gacc == 1 || gacc == c.n - 1)
    ensures ((c.n - 1) * gacc) % c.n == c.n - gacc
  {
    if gacc == 1 {
      SmallMod(c.n - 1, c.n);
    } else {
      assert (c.n - 1) * (c.n - 1) == (c.n - 2) * c.n + 1;
      DivModUnique((c.n - 1) * (c.n - 1), c.n, c.n - 2, 1);
    }
  }

  /** The x-only step on an odd point: it is negated, and both accumulators with it. */
  lemma NegatedContext<P(!new)>(c: Schnorr<P>, Q0: P, ctx: TweakContext<P>)
    requires Laws(c) && c.g.has(Q0) && Tweaked(c, Q0, ctx)
    ensures c.g.neg(ctx.Q) == c.g.add(Mul(c.g, c.n - ctx.gacc, Q0), Mul(c.g, (c.n - 1) * ctx.tacc, c.G))
  {
    NegAdd(c.g, Mul(c.g, ctx.gacc, Q0), Mul(c.g, ctx.tacc, c.G));
    OppositeScalar(c, ctx.gacc, Q0);
    OppositeScalar(c, ctx.tacc, c.G);
    assert (c.n - 1) * ctx.tacc == c.n - ctx.tacc + (ctx.tacc - 1) * c.n;
    CongStep(c.n - ctx.tacc, ctx.tacc - 1, c.n);
    SameMultiple(c, (c.n - 1) * ctx.tacc, c.n - ctx.tacc, c.G);
  }

  lemma AddTweak<P(!new)>(c: Schnorr<P>, A: P, k: int, t: int)
    requires Laws(c) && c.g.has(A)
    ensures c.g.add(c.g.add(A, Mul(c.g, k, c.G)), Mul(c.g, t, c.G)) == c.g.add(A, Mul(c.g, (t + k) % c.n, c.G))
  {
    assert Associates(c.g, A, Mul(c.g, k, c.G), Mul(c.g, t, c.G));
    MulAdd(c.g, k, t, c.G);
    assert k + t == t + k;
    ReducedMultiple(c, t + k, c.G);
  }

  /** Every tweak that is accepted keeps Q = gacc*Q0 + tacc*G. */
  lemma ApplyTweakKeeps<P(!new)>(c: Schnorr<P>, Q0: P, ctx: TweakContext<P>, tweak: Tweak)
    requires Laws(c) && c.g.has(Q0) && Tweaked(c, Q0, ctx)
    ensures ApplyTweak(c, ctx, tweak).Some? ==> Tweaked(c, Q0, ApplyTweak(c, ctx, tweak).value)
  {
    var t := tweak.value;
    ModCong(t + ctx.tacc, c.n);
    ModCong(t + (c.n - 1) * ctx.tacc, c.n);
    if tweak.isXonly && c.odd(ctx.Q) {
      NegationFactor(c, ctx.gacc);
      NegatedContext(c, Q0, ctx);
      AddTweak(c, Mul(c.g, c.n - ctx.gacc, Q0), (c.n - 1) * ctx.tacc, t);
    } else {
      SmallMod(ctx.gacc, c.n);
      AddTweak(c, Mul(c.g, ctx.gacc, Q0), ctx.tacc, t);
    }
  }

  /** Any sequence of x-only and plain tweaks keeps it. */
  lemma {:induction false} ApplyTweaksKeep<P(!new)>(c: Schnorr<P>, Q0: P, ctx: TweakContext<P>, tweaks: seq<Tweak>)
    requires Laws(c) && c.g.has(Q0) && Tweaked(c, Q0, ctx)
    ensures ApplyTweaks(c, ctx, tweaks).Some? ==> Tweaked(c, Q0, ApplyTweaks(c, ctx, tweaks).value)
    decreases |tweaks|
  {
    if tweaks != [] {
      var n := |tweaks| - 1;
      ApplyTweaksKeep(c, Q0, ctx, tweaks[..n]);
      var before := ApplyTweaks(c, ctx, tweaks[..n]);
      if before.Some? { ApplyTweakKeeps(c, Q0, before.value, tweaks[n]); }
    }
  }

  /** The tweaks one after the other. */
  method TweakAll<P(==, !new)>(c: Schnorr<P>, ctx0: TweakContext<P>, tweaks: seq<Tweak>) returns (r: Option<TweakContext<P>>)
    requires c.n > 0
    ensures r == ApplyTweaks(c, ctx0, tweaks)
  {
    var ctx := ctx0;
    for i := 0 to |tweaks|
      invariant ApplyTweaks(c, ctx0, tweaks[..i]) == Some(ctx)
    {
      assert tweaks[..i + 1][..i] == tweaks[..i];
      var next := ApplyTweak(c, ctx, tweaks[i]);
      if next.None? {
        RefusedStays(c, ctx0, tweaks, i + 1);
        return None;
      }
      ctx := next.value;
    }
    assert tweaks[..|tweaks|] == tweaks;
    return Some(ctx);
  }

  lemma {:induction false} RefusedStays<P(!new)>(c: Schnorr<P>, ctx: TweakContext<P>, tweaks: seq<Tweak>, i: nat)
    requires c.n > 0 && i <= |tweaks| && ApplyTweaks(c, ctx, tweaks[..i]).None?
    ensures ApplyTweaks(c, ctx, tweaks).None?
    decreases |tweaks|
  {
    if i == |tweaks| {
      assert tweaks[..i] == tweaks;
    } else {
      assert tweaks[..|tweaks| - 1][..i] == tweaks[..i];
      RefusedStays(c, ctx, tweaks[..|tweaks| - 1], i);
    }
  }
}
