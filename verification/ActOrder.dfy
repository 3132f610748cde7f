/**
 Act-order: rows sorted by group, stably, and products computed from the sorted rows
 (csrc/layers/quantization/marlin_utils.cpp, `sort_g_idx`; csrc/layers/quantization/gptq.cpp).
 */
module ActOrder {
  import opened BitFields
  import opened MarlinTiles
  import opened Permutations

  /** Row `a` comes before row `b`: smaller group, or same group and smaller index. */
  predicate Precedes(g: seq<int>, a: nat, b: nat)
    requires a < |g| && b < |g|
  {
    g[a] < g[b] || (g[a] == g[b] && a < b)
  }

  ghost predicate StablySorted(g: seq<int>, p: seq<nat>) {
    && |p| == |g| && IsPermutation(p)
    && forall i, j :: 0 <= i < j < |p| ==> Precedes(g, p[i], p[j])
  }

  /** Where the next row is inserted: behind all rows of its group and smaller ones. */
  function InsertAt(g: seq<int>, p: seq<nat>, x: int): (k: nat)
    requires forall i :: 0 <= i < |p| ==> p[i] < |g|
    ensures k <= |p| && (forall i :: k <= i < |p| ==> x < g[p[i]]) && (k > 0 ==> g[p[k - 1]] <= x)
  {
    if p == [] || g[p[|p| - 1]] <= x then |p| else InsertAt(g, p[..|p| - 1], x)
  }

  /** The stable order of the row numbers. */
  function StableOrder(g: seq<int>): (p: seq<nat>)
    ensures |p| == |g| && forall i :: 0 <= i < |p| ==> p[i] < |g|
  {
    if g == [] then []
    else
      var n := |g| - 1;
      var p := StableOrder(g[..n]);
      var k := InsertAt(g, p, g[n]);
      p[..k] + [n] + p[k..]
  }

  lemma StrictlyOrdered(g: seq<int>, r: seq<nat>)
    requires |r| == |g| && (forall i :: 0 <= i < |r| ==> r[i] < |g|)
    requires forall i, j :: 0 <= i < j < |r| ==> Precedes(g, r[i], r[j])
    ensures StablySorted(g, r)
  {
    forall i, j | 0 <= i < j < |r|
      ensures r[i] != r[j]
    {
      assert Precedes(g, r[i], r[j]);
    }
  }

  lemma Earlier(g: seq<int>, p: seq<nat>, i: nat, k: nat)
    requires StablySorted(g, p) && i <= k < |p|
    ensures p[i] == p[k] || Precedes(g, p[i], p[k])
  {
  }

  lemma Inserted(g: seq<int>, p: seq<nat>, k: nat)
    requires g != [] && StablySorted(g[..|g| - 1], p) && k <= |p|
    requires (forall i :: k <= i < |p| ==> g[|g| - 1] < g[p[i]]) && (k > 0 ==> g[p[k - 1]] <= g[|g| - 1])
    ensures StablySorted(g, p[..k] + [|g| - 1] + p[k..])
  {
    var r := p[..k] + [|g| - 1] + p[k..];
    forall i, j | 0 <= i < j < |r|
      ensures Precedes(g, r[i], r[j])
    {
      InsertedInOrder(g, p, k, i, j);
    }
    StrictlyOrdered(g, r);
  }

  lemma InsertedInOrder(g: seq<int>, p: seq<nat>, k: nat, i: nat, j: nat)
    requires g != [] && StablySorted(g[..|g| - 1], p) && k <= |p| && i < j <= |p|
    requires (forall i :: k <= i < |p| ==> g[|g| - 1] < g[p[i]]) && (k > 0 ==> g[p[k - 1]] <= g[|g| - 1])
    ensures
      var r := p[..k] + [|g| - 1] + p[k..];
      r[i] < |g| && r[j] < |g| && Precedes(g, r[i], r[j])
  {
    var before, r := g[..|g| - 1], p[..k] + [|g| - 1] + p[k..];
    if i == k {
      assert r[j] == p[j - 1];
    } else if j == k {
      assert r[i] == p[i];
      Earlier(before, p, i, k - 1);
    } else {
      var a, b := if i < k then i else i - 1, if j < k then j else j - 1;
      assert r[i] == p[a] && r[j] == p[b];
      Earlier(before, p, a, b);
      assert p[a] != p[b];
    }
  }

  lemma {:induction false} StableOrderSorts(g: seq<int>)
    ensures StablySorted(g, StableOrder(g))
  {
    if g != [] {
      var p := StableOrder(g[..|g| - 1]);
      StableOrderSorts(g[..|g| - 1]);
      Inserted(g, p, InsertAt(g, p, g[|g| - 1]));
    }
  }

  lemma NotEarlier(p: seq<nat>, q: seq<nat>, i: nat) returns (j: nat)
    requires IsPermutation(p) && IsPermutation(q) && |p| == |q| && i < |p| && p[..i] == q[..i]
    ensures i <= j < |q| && q[j] == p[i]
  {
    assert forall l :: 0 <= l < i ==> p[..i][l] == q[..i][l] && p[l] == q[l];
    CoveringIsPermutation(q);
    j := Position(q, p[i]);
  }

  lemma {:induction false} SamePrefix(g: seq<int>, p: seq<nat>, q: seq<nat>, n: nat)
    requires StablySorted(g, p) && StablySorted(g, q) && n <= |g|
    ensures p[..n] == q[..n]
  {
    if n > 0 {
      var i: nat := n - 1;
      SamePrefix(g, p, q, i);
      var j := NotEarlier(p, q, i);
      var k := NotEarlier(q, p, i);
      Earlier(g, p, i, k);
      Earlier(g, q, i, j);
      assert p[..n] == p[..i] + [p[i]] && q[..n] == q[..i] + [q[i]];
    }
  }

  /** There is only one stable order, so any stable sort finds it. */
  lemma OnlyOneOrder(g: seq<int>, p: seq<nat>)
    ensures StablySorted(g, p) <==> p == StableOrder(g)
  {
    StableOrderSorts(g);
    if StablySorted(g, p) {
      SamePrefix(g, p, StableOrder(g), |g|);
    }
  }

  /** `sort_g_idx` */
  method SortGIdx(g: seq<int>) returns (indices: seq<nat>, sorted: seq<int>)
    ensures StablySorted(g, indices) && |sorted| == |g|
    ensures forall i :: 0 <= i < |g| ==> sorted[i] == g[indices[i]]
    ensures forall i, j :: 0 <= i < j < |g| ==> sorted[i] <= sorted[j]
  {
    indices := StableOrder(g);
    StableOrderSorts(g);
    sorted := [];
    for i := 0 to |g|
      invariant |sorted| == i && forall l :: 0 <= l < i ==> sorted[l] == g[indices[l]]
    {
      sorted := sorted + [g[indices[i]]];
    }
    forall i, j | 0 <= i < j < |g|
      ensures sorted[i] <= sorted[j]
    {
      assert Precedes(g, indices[i], indices[j]);
    }
  }

  // ---- products ----

  /** One term of a column's product: input times the weight restored from its stored value and its row's group. */
  function Term(x: real, value: nat, group: int, n: nat, restore: (nat, int, nat) -> real): real {
    x * restore(value, group, n)
  }

  /** The terms of column `n` in the original row order. */
  function Terms(xs: seq<real>, qweight: seq<nat>, fmt: Format, g: seq<int>, n: nat,
                 restore: (nat, int, nat) -> real): (t: seq<real>)
    requires fmt.Valid() && |xs| == |g| == fmt.sizeK
    requires forall k: nat :: k < fmt.sizeK ==> GptqWord(fmt.sizeN, k, n, fmt.bits) < |qweight|
    ensures |t| == fmt.sizeK
  {
    seq(fmt.sizeK, k requires 0 <= k < fmt.sizeK =>
        Term(xs[k], GptqValue(qweight, fmt.sizeN, k, n, fmt.bits), g[k], n, restore))
  }

  /** The terms the kernel adds: repacked rows, sorted groups, and the input read through the permutation. */
  function SortedTerms(xs: seq<real>, out: seq<nat>, fmt: Format, perm: seq<nat>, sorted: seq<int>, n: nat,
                       restore: (nat, int, nat) -> real): (t: seq<real>)
    requires fmt.Valid() && |xs| == |perm| == |sorted| == fmt.sizeK
    requires forall i :: 0 <= i < |perm| ==> perm[i] < |xs|
    requires forall k: nat :: k < fmt.sizeK ==> WordOf(fmt, k, n) < |out|
    ensures |t| == fmt.sizeK
  {
    seq(fmt.sizeK, k requires 0 <= k < fmt.sizeK => Term(xs[perm[k]], Decode(out, fmt, k, n), sorted[k], n, restore))
  }

  ghost predicate Converted(qweight: Matrix, out: Matrix, fmt: Format, g: seq<int>, perm: seq<nat>, sorted: seq<int>) {
    && fmt.Valid() && qweight.Valid() && qweight.rows == WordsFor(fmt.sizeK, fmt.bits) && qweight.cols == fmt.sizeN
    && |g| == fmt.sizeK && StablySorted(g, perm) && |sorted| == |g|
    && (forall i :: 0 <= i < |g| ==> sorted[i] == g[perm[i]])
    && Restores(out, fmt, GptqGetter(qweight.data, perm, fmt))
  }

  lemma RestoredAt(out: Matrix, fmt: Format, get: Getter, k: nat, n: nat)
    requires fmt.Valid() && Restores(out, fmt, get) && k < fmt.sizeK && n < fmt.sizeN
    ensures get.requires(k, n) && WordOf(fmt, k, n) < |out.data| && Decode(out.data, fmt, k, n) == get(k, n)
  {
  }

  lemma PermutedRow(data: seq<nat>, perm: seq<nat>, fmt: Format, k: nat, n: nat)
    requires fmt.Valid() && k < |perm| && GptqWord(fmt.sizeN, perm[k], n, fmt.bits) < |data|
    ensures var get := GptqGetter(data, perm, fmt);
      get.requires(k, n) && get(k, n) == GptqValue(data, fmt.sizeN, perm[k], n, fmt.bits)
  {
  }

  lemma RowPaired(qweight: Matrix, out: Matrix, fmt: Format, g: seq<int>, perm: seq<nat>, sorted: seq<int>, k: nat,
                  n: nat)
    requires Converted(qweight, out, fmt, g, perm, sorted) && k < fmt.sizeK && n < fmt.sizeN
    ensures WordOf(fmt, k, n) < |out.data| && GptqWord(fmt.sizeN, perm[k], n, fmt.bits) < |qweight.data|
    ensures Decode(out.data, fmt, k, n) == GptqValue(qweight.data, fmt.sizeN, perm[k], n, fmt.bits)
    ensures sorted[k] == g[perm[k]]
  {
    RestoredAt(out, fmt, GptqGetter(qweight.data, perm, fmt), k, n);
    GptqReads(qweight, fmt, perm[k], n);
    PermutedRow(qweight.data, perm, fmt, k, n);
  }

  /**
   Sorting the rows by group changes no product: for every input and every way of restoring a weight
   from its stored value, group and column, the terms of a column add up to the same number.
   */
  lemma ColumnSumKept(xs: seq<real>, qweight: Matrix, out: Matrix, fmt: Format, g: seq<int>, perm: seq<nat>,
                      sorted: seq<int>,
                      n: nat, restore: (nat, int, nat) -> real)
    requires Converted(qweight, out, fmt, g, perm, sorted) && |xs| == fmt.sizeK && n < fmt.sizeN
    ensures forall k: nat :: k < fmt.sizeK ==> GptqWord(fmt.sizeN, k, n, fmt.bits) < |qweight.data|
    ensures forall k: nat :: k < fmt.sizeK ==> WordOf(fmt, k, n) < |out.data|
    ensures Sum(SortedTerms(xs, out.data, fmt, perm, sorted, n, restore))
            == Sum(Terms(xs, qweight.data, fmt, g, n, restore))
  {
    forall k: nat | k < fmt.sizeK
      ensures GptqWord(fmt.sizeN, k, n, fmt.bits) < |qweight.data| && WordOf(fmt, k, n) < |out.data|
    {
      GptqReads(qweight, fmt, k, n);
      RowPaired(qweight, out, fmt, g, perm, sorted, k, n);
    }
    var terms, moved :=
      Terms(xs, qweight.data, fmt, g, n, restore), SortedTerms(xs, out.data, fmt, perm, sorted, n, restore);
    forall k | 0 <= k < fmt.sizeK
      ensures moved[k] == Reorder(perm, terms)[k]
    {
      RowPaired(qweight, out, fmt, g, perm, sorted, k, n);
    }
    assert moved == Reorder(perm, terms);
    SumReordered(perm, terms);
  }
}
