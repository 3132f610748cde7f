/** Index sequences that reorder a sequence, and what reordering leaves unchanged. */
module Permutations {

  ghost predicate IsPermutation(p: seq<nat>) {
    && (forall i :: 0 <= i < |p| ==> p[i] < |p|)
    && (forall i, j :: 0 <= i < j < |p| ==> p[i] != p[j])
  }

  /** Element i of the result is element p[i] of s. */
  function Reorder<T>(p: seq<nat>, s: seq<T>): (r: seq<T>)
    requires forall i :: 0 <= i < |p| ==> p[i] < |s|
    ensures |r| == |p| && forall i :: 0 <= i < |p| ==> r[i] == s[p[i]]
  {
    seq(|p|, i requires 0 <= i < |p| => s[p[i]])
  }

  function Below(n: nat): (s: set<nat>)
    ensures forall x: nat :: x in s <==> x < n
  {
    if n == 0 then {} else Below(n - 1) + {n - 1}
  }

  lemma {:induction false} BelowSize(n: nat)
    ensures |Below(n)| == n
  {
    if n > 0 {
      BelowSize(n - 1);
    }
  }

  function Elements<T>(s: seq<T>): set<T> {
    set x | x in s
  }

  /** A sequence has at most as many distinct elements as entries, and as many only without repeats. */
  lemma {:induction false} DistinctElements<T>(s: seq<T>)
    ensures |Elements(s)| <= |s|
    ensures |Elements(s)| == |s| <==> forall i, j :: 0 <= i < j < |s| ==> s[i] != s[j]
  {
    if s == [] {
      assert Elements(s) == {};
    } else {
      var n := |s| - 1;
      DistinctElements(s[..n]);
      assert Elements(s) == Elements(s[..n]) + {s[n]};
      if s[n] in Elements(s[..n]) {
        assert Elements(s) == Elements(s[..n]);
        var i :| 0 <= i < n && s[..n][i] == s[n];
      } else {
        forall i | 0 <= i < n
          ensures s[i] != s[n]
        {
          assert s[..n][i] in Elements(s[..n]);
        }
      }
    }
  }

  lemma SubsetOfSameSize<T>(a: set<T>, b: set<T>)
    requires a <= b && |b| <= |a|
    ensures a == b
  {
    assert |b - a| == |b| - |a|;
  }

  /** Pigeonhole: n entries among which each of 0 .. n-1 occurs form a permutation. */
  lemma CoveringIsPermutation(p: seq<nat>)
    ensures (forall i: nat :: i < |p| ==> i in p) <==> IsPermutation(p)
  {
    BelowSize(|p|);
    DistinctElements(p);
    if forall i: nat :: i < |p| ==> i in p {
      assert Below(|p|) <= Elements(p);
      SubsetOfSameSize(Below(|p|), Elements(p));
      forall i | 0 <= i < |p|
        ensures p[i] < |p|
      {
        assert p[i] in Elements(p);
      }
    } else if IsPermutation(p) {
      assert Elements(p) <= Below(|p|);
      SubsetOfSameSize(Elements(p), Below(|p|));
      forall i: nat | i < |p|
        ensures i in p
      {
        assert i in Elements(p);
      }
    }
  }

  ghost function Position(p: seq<nat>, x: nat): (i: nat)
    requires x in p
    ensures i < |p| && p[i] == x
  {
    var i :| 0 <= i < |p| && p[i] == x;
    i
  }

  /** The reordering that undoes p. */
  ghost function Inverse(p: seq<nat>): (q: seq<nat>)
    requires IsPermutation(p)
    ensures |q| == |p| && IsPermutation(q)
    ensures forall i :: 0 <= i < |p| ==> p[q[i]] == i && q[p[i]] == i
  {
    CoveringIsPermutation(p);
    seq(|p|, i requires 0 <= i < |p| => Position(p, i))
  }

  lemma InverseUndoes<T>(p: seq<nat>, s: seq<T>)
    requires IsPermutation(p) && |s| == |p|
    ensures Reorder(Inverse(p), Reorder(p, s)) == s
    ensures Reorder(p, Reorder(Inverse(p), s)) == s
  {
  }

  lemma MultisetWithout<T>(s: seq<T>, k: nat)
    requires k < |s|
    ensures multiset(s) == multiset(s[..k] + s[k + 1..]) + multiset{s[k]}
  {
    assert s == s[..k] + [s[k]] + s[k + 1..];
  }

  /** Reordering keeps the multiset of elements. */
  lemma {:induction false} ReorderKeepsMultiset<T>(p: seq<nat>, s: seq<T>)
    requires IsPermutation(p) && |s| == |p|
    ensures multiset(Reorder(p, s)) == multiset(s)
  {
    if p != [] {
      var n := |p| - 1;
      CoveringIsPermutation(p);
      // move the largest index to the end, then reorder the rest
      var k := Position(p, n);
      var rest := p[..k] + p[k + 1..];
      assert IsPermutation(rest);
      ReorderKeepsMultiset(rest, s[..n]);
      var r := Reorder(p, s);
      assert Reorder(rest, s[..n]) == r[..k] + r[k + 1..];
      MultisetWithout(r, k);
      assert s == s[..n] + [s[n]];
    }
  }

  // ---- sums ----

  function Sum(s: seq<real>): real {
    if s == [] then 0.0 else Sum(s[..|s| - 1]) + s[|s| - 1]
  }

  lemma {:induction false} SumConcat(a: seq<real>, b: seq<real>)
    ensures Sum(a + b) == Sum(a) + Sum(b)
  {
    if b == [] {
      assert a + b == a;
    } else {
      var n := |b| - 1;
      SumConcat(a, b[..n]);
      assert (a + b)[..|a| + n] == a + b[..n];
    }
  }

  /** A sum depends only on the multiset of its terms. */
  lemma {:induction false} SumOfMultiset(a: seq<real>, b: seq<real>)
    requires multiset(a) == multiset(b)
    ensures Sum(a) == Sum(b)
  {
    if a == [] {
      assert |multiset(b)| == |b|;
    } else {
      var n := |a| - 1;
      assert a == a[..n] + [a[n]];
      assert a[n] in multiset(b);
      var k :| 0 <= k < |b| && b[k] == a[n];
      var rest := b[..k] + b[k + 1..];
      assert b == b[..k] + [b[k]] + b[k + 1..];
      MultisetWithout(b, k);
      assert multiset(a) == multiset(a[..n]) + multiset{a[n]};
      assert multiset(rest) == multiset(b) - multiset{b[k]};
      assert multiset(a[..n]) == multiset(a) - multiset{a[n]};
      SumOfMultiset(a[..n], rest);
      SumConcat(b[..k], b[k + 1..]);
      SumConcat(b[..k] + [b[k]], b[k + 1..]);
      SumConcat(b[..k], [b[k]]);
      assert Sum([b[k]]) == Sum([]) + b[k];
    }
  }

  /** Terms may be summed in any order. */
  lemma SumReordered(p: seq<nat>, s: seq<real>)
    requires IsPermutation(p) && |s| == |p|
    ensures Sum(Reorder(p, s)) == Sum(s)
  {
    ReorderKeepsMultiset(p, s);
    SumOfMultiset(Reorder(p, s), s);
  }
}
