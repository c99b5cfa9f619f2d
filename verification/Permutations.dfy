/** Products and sums over 1..h do not depend on the order their terms are taken in. */
module Permutations {

  function Range(h: nat): (s: seq<int>)
    ensures |s| == h && forall i :: 0 <= i < h ==> s[i] == i + 1
  {
    seq(h, i => i + 1)
  }

  function ProdOf(f: int -> int, s: seq<int>): int {
    if s == [] then 1 else f(s[0]) * ProdOf(f, s[1..])
  }

  function SumOf(f: int -> int, s: seq<int>): int {
    if s == [] then 0 else f(s[0]) + SumOf(f, s[1..])
  }

  ghost predicate Distinct(s: seq<int>) {
    forall i, j :: 0 <= i < j < |s| ==> s[i] != s[j]
  }

  /** The values of s are 1..h, each once. */
  ghost predicate IsPermutation(s: seq<int>, h: nat) {
    |s| == h && Distinct(s) && forall i :: 0 <= i < h ==> 1 <= s[i] <= h
  }

  lemma {:induction false} Without(f: int -> int, t: seq<int>, j: nat)
    requires j < |t|
    ensures ProdOf(f, t) == f(t[j]) * ProdOf(f, t[..j] + t[j + 1..])
    ensures SumOf(f, t) == f(t[j]) + SumOf(f, t[..j] + t[j + 1..])
  {
    var rest := t[..j] + t[j + 1..];
    if j == 0 {
      assert rest == t[1..];
    } else {
      Without(f, t[1..], j - 1);
      assert rest[1..] == t[1..][..j - 1] + t[1..][j..];
      var x, y, z := f(t[0]), f(t[j]), ProdOf(f, rest[1..]);
      assert x * (y * z) == y * (x * z);
    }
  }

  lemma {:induction false} SameTerms(f: int -> int, s: seq<int>, t: seq<int>)
    requires multiset(s) == multiset(t)
    ensures ProdOf(f, s) == ProdOf(f, t) && SumOf(f, s) == SumOf(f, t)
  {
    if s == [] {
      assert |multiset(t)| == |t|;
    } else {
      assert s[0] in multiset(t);
      var j :| 0 <= j < |t| && t[j] == s[0];
      var rest := t[..j] + t[j + 1..];
      Without(f, t, j);
      assert s == [s[0]] + s[1..];
      assert t == t[..j] + [t[j]] + t[j + 1..];
      assert multiset(s[1..]) == multiset(s) - multiset{s[0]};
      assert multiset(rest) == multiset(t) - multiset{t[j]};
      SameTerms(f, s[1..], rest);
    }
  }

  ghost function Values(s: seq<int>): set<int> { set x | x in s }

  lemma {:induction false} DistinctValues(s: seq<int>)
    requires Distinct(s)
    ensures |Values(s)| == |s|
    ensures forall x :: multiset(s)[x] == if x in s then 1 else 0
  {
    if s != [] {
      var r := s[1..];
      DistinctValues(r);
      assert s == [s[0]] + r;
      assert s[0] !in r;
      assert Values(s) == {s[0]} + Values(r);
      assert multiset(s) == multiset{s[0]} + multiset(r);
    }
  }

  lemma FullSubset(a: set<int>, b: set<int>)
    requires a <= b && |a| == |b|
    ensures a == b
  {
    assert b == a + (b - a);
    assert |b| == |a| + |b - a|;
  }

  lemma PermutationTerms(s: seq<int>, h: nat)
    requires IsPermutation(s, h)
    ensures multiset(s) == multiset(Range(h))
  {
    DistinctValues(s);
    DistinctValues(Range(h));
    assert forall x | x in s :: Range(h)[x - 1] == x;
    FullSubset(Values(s), Values(Range(h)));
    forall x ensures multiset(s)[x] == multiset(Range(h))[x] {
      assert x in s <==> x in Values(s);
      assert x in Range(h) <==> x in Values(Range(h));
    }
  }

  /** A permutation of 1..h leaves a product and a sum over 1..h as they were. */
  lemma Reindex(f: int -> int, s: seq<int>, h: nat)
    requires IsPermutation(s, h)
    ensures ProdOf(f, s) == ProdOf(f, Range(h)) && SumOf(f, s) == SumOf(f, Range(h))
  {
    PermutationTerms(s, h);
    SameTerms(f, s, Range(h));
  }
}
