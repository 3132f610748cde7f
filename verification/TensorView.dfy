/**
 Reinterpreting a strided tensor under another shape without moving data
 (src/tensor/tensor.cpp).
 */
module TensorView {
  import opened DivMod
  import opened Results
  import opened Shapes

  /** Strides of a freshly created tensor. */
  method RowMajorStrides(shape: Shape) returns (strides: Strides)
    ensures |strides| == |shape| && IsRowMajor(shape, strides)
    ensures AllPositive(shape) ==> forall l: nat :: l < Prod(shape) ==> Address(shape, strides, l) == l
  {
    var ndim := |shape|;
    strides := seq(ndim, _ => 0);
    if ndim > 0 {
      strides := strides[ndim - 1 := 1];
      var i := ndim - 2;
      assert shape[ndim..] == [];
      while i >= 0
        invariant -1 <= i <= ndim - 2 && |strides| == ndim
        invariant forall j :: i < j < ndim ==> strides[j] == Prod(shape[j + 1..])
      {
        ProdSuffix(shape, i + 1);
        strides := strides[i := strides[i + 1] * shape[i + 1]];
        i := i - 1;
      }
    }
    if AllPositive(shape) {
      forall l: nat | l < Prod(shape)
        ensures Address(shape, strides, l) == l
      {
        RowMajorAddress(shape, strides, l);
      }
    }
  }

  /** The contiguity test; on a tensor of rank 0 the program writes before the start of a vector. */
  method IsContiguous(shape: Shape, strides: Strides) returns (r: Result<bool, Failure>)
    requires |shape| == |strides|
    ensures r.Err? <==> shape == []
    ensures r.Ok? ==> (r.value <==> IsRowMajor(shape, strides))
    ensures r == Ok(true) && AllPositive(shape) ==>
              forall l: nat :: l < Prod(shape) ==> Address(shape, strides, l) == l
  {
    if shape == [] {
      return Err(Undefined);
    }
    var expected := RowMajorStrides(shape);
    if expected != strides {
      var i :| 0 <= i < |shape| && expected[i] != strides[i];
      assert strides[i] != Prod(shape[i + 1..]);
    }
    return Ok(expected == strides);
  }

  method CountElements(shape: Shape) returns (numel: nat)
    ensures numel == Prod(shape)
  {
    numel := 1;
    for i := 0 to |shape|
      invariant numel == Prod(shape[..i])
    {
      ProdPrefix(shape, i);
      numel := numel * shape[i];
    }
    assert shape[..|shape|] == shape;
  }

  // ---- where the old strides break ----

  /** Dimension k does not continue dimension k - 1. */
  predicate Breaks(shape: Shape, strides: Strides, k: nat)
    requires |shape| == |strides| && 0 < k < |shape|
  {
    strides[k] * shape[k] != strides[k - 1]
  }

  /** Some leading dimensions of the shape hold exactly p elements. */
  ghost predicate HasBoundary(shape: Shape, p: nat) {
    exists i :: 0 <= i <= |shape| && Prod(shape[..i]) == p
  }

  /** Every stride break of the old tensor is a dimension boundary of the new shape. */
  ghost predicate BreaksAligned(shape: Shape, strides: Strides, newShape: Shape)
    requires |shape| == |strides|
  {
    forall k :: 0 < k < |shape| && Breaks(shape, strides, k) ==> HasBoundary(newShape, Prod(shape[..k]))
  }

  /** The merged form of the first n dimensions: same addresses, boundaries only at breaks. */
  ghost predicate MergesPrefix(shape: Shape, strides: Strides, n: nat, merged: Shape, mergedStrides: Strides)
    requires |shape| == |strides| && n <= |shape|
    requires |merged| == |mergedStrides|
  {
    && Prod(merged) == Prod(shape[..n])
    && (AllPositive(shape) ==>
          && AllPositive(merged)
          && forall l: nat {:trigger Address(merged, mergedStrides, l)} ::
               Address(merged, mergedStrides, l) == Address(shape[..n], strides[..n], l))
  }

  /**
   Merged dimension m starts at old dimension cuts[m]; the cuts after the first are
   exactly the breaks below n.
   */
  ghost predicate CutsAtBreaks(shape: Shape, strides: Strides, n: nat, merged: Shape, cuts: seq<nat>)
    requires |shape| == |strides| && n <= |shape|
  {
    && |cuts| == |merged|
    && (cuts != [] ==> cuts[0] == 0)
    && (forall m :: 0 < m < |cuts| ==>
          && 0 < cuts[m] < n
          && Breaks(shape, strides, cuts[m])
          && Prod(merged[..m]) == Prod(shape[..cuts[m]]))
    && (forall k :: 0 < k < n && Breaks(shape, strides, k) ==> k in cuts)
  }

  lemma AppendKeepsMerge(shape: Shape, strides: Strides, n: nat, merged: Shape, mergedStrides: Strides)
    requires |shape| == |strides| && n < |shape| && |merged| == |mergedStrides|
    requires MergesPrefix(shape, strides, n, merged, mergedStrides)
    ensures MergesPrefix(shape, strides, n + 1, merged + [shape[n]], mergedStrides + [strides[n]])
  {
    var merged', mergedStrides' := merged + [shape[n]], mergedStrides + [strides[n]];
    ProdSnoc(merged, shape[n]);
    ProdPrefix(shape, n);
    if AllPositive(shape) {
      forall l: nat
        ensures Address(merged', mergedStrides', l) == Address(shape[..n + 1], strides[..n + 1], l)
      {
        AddressSnoc(merged, mergedStrides, shape[n], strides[n], l);
        assert shape[..n + 1] == shape[..n] + [shape[n]] && strides[..n + 1] == strides[..n] + [strides[n]];
        AddressSnoc(shape[..n], strides[..n], shape[n], strides[n], l);
      }
    }
  }

  lemma FuseKeepsMerge(shape: Shape, strides: Strides, n: nat, merged: Shape, mergedStrides: Strides)
    requires |shape| == |strides| && n < |shape| && |merged| == |mergedStrides| > 0
    requires MergesPrefix(shape, strides, n, merged, mergedStrides)
    requires strides[n] * shape[n] == mergedStrides[|merged| - 1]
    ensures
      var z := |merged| - 1;
      MergesPrefix(shape, strides, n + 1, merged[z := merged[z] * shape[n]], mergedStrides[z := strides[n]])
  {
    var z := |merged| - 1;
    var d, s, c := shape[n], strides[n], merged[z];
    var front, frontStrides := merged[..z], mergedStrides[..z];
    assert merged[z := c * d] == front + [c * d] && mergedStrides[z := s] == frontStrides + [s];
    ProdSnoc(front, c * d);
    MulAssoc(Prod(front), c, d);
    ProdPrefix(shape, n);
    if AllPositive(shape) {
      MulLe(1, c, d);
      AppendKeepsMerge(shape, strides, n, merged, mergedStrides);
      assert merged + [d] == front + [c] + [d] && mergedStrides + [s] == frontStrides + [d * s] + [s];
      forall l: nat
        ensures Address(front + [c * d], frontStrides + [s], l) == Address(shape[..n + 1], strides[..n + 1], l)
      {
        MergeInnermost(front, frontStrides, c, d, s, l);
      }
    }
  }

  /** A dimension fused into the last merged one adds no cut. */
  lemma FuseKeepsCuts(shape: Shape, strides: Strides, n: nat, merged: Shape, merged': Shape, cuts: seq<nat>)
    requires |shape| == |strides| && 0 < n < |shape| && !Breaks(shape, strides, n)
    requires CutsAtBreaks(shape, strides, n, merged, cuts)
    requires |merged'| == |merged| > 0 && merged'[..|merged| - 1] == merged[..|merged| - 1]
    ensures CutsAtBreaks(shape, strides, n + 1, merged', cuts)
  {
    forall m | 0 < m < |merged|
      ensures merged'[..m] == merged[..m]
    {
      assert merged'[..|merged| - 1][..m] == merged[..|merged| - 1][..m];
    }
  }

  /** A dimension that breaks the run adds one cut. */
  lemma AppendKeepsCuts(shape: Shape, strides: Strides, n: nat, merged: Shape, d: nat, cuts: seq<nat>)
    requires |shape| == |strides| && 0 < n < |shape| && Breaks(shape, strides, n)
    requires CutsAtBreaks(shape, strides, n, merged, cuts)
    requires merged != [] && Prod(merged) == Prod(shape[..n])
    ensures CutsAtBreaks(shape, strides, n + 1, merged + [d], cuts + [n])
  {
    forall m | 0 < m <= |merged|
      ensures (merged + [d])[..m] == merged[..m]
    {
    }
    assert merged[..|merged|] == merged;
  }

  /** The loop invariant of the merge. */
  ghost predicate Merging(shape: Shape, strides: Strides, n: nat, merged: Shape, mergedStrides: Strides, cuts: seq<nat>)
    requires |shape| == |strides| && n <= |shape|
  {
    && |merged| == |mergedStrides| > 0 && n > 0
    && mergedStrides[|merged| - 1] == strides[n - 1]
    && MergesPrefix(shape, strides, n, merged, mergedStrides)
    && CutsAtBreaks(shape, strides, n, merged, cuts)
  }

  lemma MergeStart(shape: Shape, strides: Strides)
    requires |shape| == |strides| > 0
    ensures Merging(shape, strides, 1, [shape[0]], [strides[0]], [0])
  {
    assert [shape[0]] == shape[..1] && [strides[0]] == strides[..1];
  }

  lemma FuseStep(shape: Shape, strides: Strides, n: nat, merged: Shape, mergedStrides: Strides, cuts: seq<nat>)
    requires |shape| == |strides| && n < |shape| && Merging(shape, strides, n, merged, mergedStrides, cuts)
    requires strides[n] * shape[n] == mergedStrides[|merged| - 1]
    ensures
      var z := |merged| - 1;
      Merging(shape, strides, n + 1, merged[z := Times(merged[z], shape[n])], mergedStrides[z := strides[n]], cuts)
  {
    var z := |merged| - 1;
    FuseKeepsMerge(shape, strides, n, merged, mergedStrides);
    FuseKeepsCuts(shape, strides, n, merged, merged[z := Times(merged[z], shape[n])], cuts);
  }

  lemma AppendStep(shape: Shape, strides: Strides, n: nat, merged: Shape, mergedStrides: Strides, cuts: seq<nat>)
    requires |shape| == |strides| && n < |shape| && Merging(shape, strides, n, merged, mergedStrides, cuts)
    requires strides[n] * shape[n] != mergedStrides[|merged| - 1]
    ensures Merging(shape, strides, n + 1, merged + [shape[n]], mergedStrides + [strides[n]], cuts + [n])
  {
    AppendKeepsMerge(shape, strides, n, merged, mergedStrides);
    AppendKeepsCuts(shape, strides, n, merged, shape[n], cuts);
  }

  /** Step 3 of the view: fuse every run of dimensions that the strides make contiguous. */
  method MergeDims(shape: Shape, strides: Strides) returns (merged: Shape, mergedStrides: Strides, ghost cuts: seq<nat>)
    requires |shape| == |strides|
    ensures |merged| == |mergedStrides|
    ensures if shape == [] then merged == [] else Merging(shape, strides, |shape|, merged, mergedStrides, cuts)
  {
    merged, mergedStrides, cuts := [], [], [];
    if shape != [] {
      merged, mergedStrides, cuts := [shape[0]], [strides[0]], [0];
      MergeStart(shape, strides);
      for i := 1 to |shape|
        invariant Merging(shape, strides, i, merged, mergedStrides, cuts)
      {
        var z := |merged| - 1;
        if strides[i] * shape[i] == mergedStrides[z] {
          FuseStep(shape, strides, i, merged, mergedStrides, cuts);
          merged := merged[z := Times(merged[z], shape[i])];
          mergedStrides := mergedStrides[z := strides[i]];
        } else {
          AppendStep(shape, strides, i, merged, mergedStrides, cuts);
          merged := merged + [shape[i]];
          mergedStrides := mergedStrides + [strides[i]];
          cuts := cuts + [i];
        }
      }
    }
  }

  // ---- step 4: splitting the merged dimensions ----

  /** All interior boundaries of the merged shape are boundaries of the new shape. */
  ghost predicate Aligned(merged: Shape, newShape: Shape) {
    forall m :: 0 < m < |merged| ==> HasBoundary(newShape, Prod(merged[..m]))
  }

  /**
   Progress of the split after i new dimensions, with merged dimension j open: `taken` of its
   elements are already spread over new dimensions, `remaining` are not, and `abandoned` is the
   product of what was left over in the merged dimensions before j.
   */
  ghost predicate Splitting(merged: Shape, mergedStrides: Strides, newShape: Shape, newStrides: Strides,
                            i: nat, j: nat, taken: nat, remaining: nat, abandoned: nat)
    requires |merged| == |mergedStrides| && AllPositive(merged) && j < |merged|
    requires |newStrides| == |newShape| && i <= |newShape|
  {
    && AllPositive(newShape[..i])
    && taken > 0 && remaining > 0 && abandoned > 0
    && taken * remaining == merged[j]
    && Prod(newShape[..i]) * remaining * abandoned == Prod(merged[..j + 1])
    && (abandoned == 1 ==>
          && (forall m :: 0 < m <= j ==> HasBoundary(newShape, Prod(merged[..m])))
          && AllPositive(merged[..j] + [taken])
          && forall l: nat {:trigger Address(newShape[..i], newStrides[..i], l)} ::
               Address(newShape[..i], newStrides[..i], l)
               == Address(merged[..j] + [taken], mergedStrides[..j] + [mergedStrides[j] * remaining], l))
  }

  lemma SplitStart(merged: Shape, mergedStrides: Strides, newShape: Shape, newStrides: Strides)
    requires |merged| == |mergedStrides| > 0 && AllPositive(merged) && |newStrides| == |newShape|
    ensures Splitting(merged, mergedStrides, newShape, newStrides, 0, 0, 1, merged[0], 1)
  {
    assert newShape[..0] == [] && newStrides[..0] == [];
    assert merged[..1] == [] + [merged[0]];
    ProdSnoc([], merged[0]);
    forall l: nat
      ensures Address([], [], l) == Address(merged[..0] + [1], mergedStrides[..0] + [mergedStrides[0] * merged[0]], l)
    {
      AddressSnoc([], [], 1, mergedStrides[0] * merged[0], l);
      assert merged[..0] + [1] == [] + [1];
      assert mergedStrides[..0] + [mergedStrides[0] * merged[0]] == [] + [mergedStrides[0] * merged[0]];
      assert l % 1 == 0 && 0 * (mergedStrides[0] * merged[0]) == 0;
    }
  }

  /** Moving on to the next merged dimension abandons what is left of this one. */
  lemma SplitAdvance(merged: Shape, mergedStrides: Strides, newShape: Shape, newStrides: Strides,
                     i: nat, j: nat, taken: nat, remaining: nat, abandoned: nat)
    requires |merged| == |mergedStrides| && AllPositive(merged) && j + 1 < |merged|
    requires |newStrides| == |newShape| && i <= |newShape|
    requires Splitting(merged, mergedStrides, newShape, newStrides, i, j, taken, remaining, abandoned)
    ensures Splitting(merged, mergedStrides, newShape, newStrides, i, j + 1, 1, merged[j + 1], remaining * abandoned)
  {
    var p, d, s := Prod(newShape[..i]), merged[j + 1], mergedStrides[j + 1];
    ProdPrefix(merged, j + 1);
    MulAssoc(p, remaining, abandoned);
    assert p * d * (remaining * abandoned) == Prod(merged[..j + 2]) by {
      MulAssoc(p, d, remaining * abandoned);
      MulAssoc(p, remaining * abandoned, d);
    }
    MulLe(1, remaining, abandoned);
    if remaining * abandoned == 1 {
      ProductIsOne(remaining, abandoned);
      assert merged[..j] + [taken] == merged[..j + 1];
      assert mergedStrides[..j] + [mergedStrides[j] * remaining] == mergedStrides[..j + 1];
      assert Prod(newShape[..i]) == Prod(merged[..j + 1]);
      forall l: nat
        ensures Address(newShape[..i], newStrides[..i], l)
             == Address(merged[..j + 1] + [1], mergedStrides[..j + 1] + [s * d], l)
      {
        AddressSnoc(merged[..j + 1], mergedStrides[..j + 1], 1, s * d, l);
        assert l / 1 == l && l % 1 == 0 && 0 * (s * d) == 0;
      }
    }
  }

  lemma TakeProducts(p: nat, taken: nat, n: nat, remaining: nat, abandoned: nat)
    requires n > 0 && remaining % n == 0 && remaining > 0 && taken > 0
    ensures
      var rest := remaining / n;
      && remaining == n * rest && rest > 0 && taken * n > 0
      && (p * n) * rest * abandoned == p * remaining * abandoned
      && (taken * n) * rest == taken * remaining
  {
    var rest := remaining / n;
    MulAssoc(p, n, rest);
    MulAssoc(taken, n, rest);
    MulLe(1, taken, n);
  }

  /** A new dimension of size n takes n of the remaining elements' positions. */
  lemma SplitTake(merged: Shape, mergedStrides: Strides, newShape: Shape, newStrides: Strides,
                  i: nat, j: nat, taken: nat, remaining: nat, abandoned: nat)
    requires |merged| == |mergedStrides| && AllPositive(merged) && j < |merged|
    requires |newStrides| == |newShape| && i < |newShape|
    requires Splitting(merged, mergedStrides, newShape, newStrides, i, j, taken, remaining, abandoned)
    requires newShape[i] > 0 && remaining % newShape[i] == 0
    ensures
      var rest := remaining / newShape[i];
      Splitting(merged, mergedStrides, newShape, newStrides[i := mergedStrides[j] * rest],
                i + 1, j, taken * newShape[i], rest, abandoned)
  {
    var n, s := newShape[i], mergedStrides[j];
    var rest := remaining / n;
    var p := Prod(newShape[..i]);
    var newStrides' := newStrides[i := s * rest];
    TakeProducts(p, taken, n, remaining, abandoned);
    ProdPrefix(newShape, i);
    assert newShape[..i + 1] == newShape[..i] + [n];
    assert newStrides'[..i + 1] == newStrides[..i] + [s * rest];
    if abandoned == 1 {
      forall l: nat
        ensures Address(newShape[..i] + [n], newStrides[..i] + [s * rest], l)
             == Address(merged[..j] + [taken * n], mergedStrides[..j] + [s * rest], l)
      {
        TakeKeepsAddress(newShape[..i], newStrides[..i], merged[..j], mergedStrides[..j], taken, n, s, rest, l);
      }
    }
  }

  lemma TakeKeepsAddress(done: Shape, doneStrides: Strides, front: Shape, frontStrides: Strides,
                         taken: nat, n: nat, s: int, rest: nat, l: nat)
    requires |done| == |doneStrides| && AllPositive(done)
    requires |front| == |frontStrides| && AllPositive(front) && taken > 0 && n > 0
    requires AllPositive(front + [taken])
    requires Address(done, doneStrides, l / n) == Address(front + [taken], frontStrides + [s * (n * rest)], l / n)
    ensures taken * n > 0
    ensures Address(done + [n], doneStrides + [s * rest], l)
         == Address(front + [taken * n], frontStrides + [s * rest], l)
  {
    AddressSnoc(done, doneStrides, n, s * rest, l);
    TakeAddress(front, frontStrides, taken, n, s, rest, l);
  }

  lemma TakeAddress(front: Shape, frontStrides: Strides, taken: nat, n: nat, s: int, rest: nat, l: nat)
    requires |front| == |frontStrides| && AllPositive(front) && taken > 0 && n > 0
    ensures taken * n > 0 && AllPositive(front + [taken]) && AllPositive(front + [taken * n])
    ensures Address(front + [taken], frontStrides + [s * (n * rest)], l / n) + (l % n) * (s * rest)
         == Address(front + [taken * n], frontStrides + [s * rest], l)
  {
    MulAssoc(n, s, rest);
    MulAssoc(s, n, rest);
    AddressSnoc(front + [taken], frontStrides + [s * (n * rest)], n, s * rest, l);
    MergeInnermost(front, frontStrides, taken, n, s * rest, l);
  }

  /** Inside a boundary of the new shape, the next new dimension always fits and divides. */
  lemma BoundaryFits(newShape: Shape, i: nat, remaining: nat, k: nat)
    requires AllPositive(newShape) && i < |newShape| && k <= |newShape|
    requires Prod(newShape[..k]) == Prod(newShape[..i]) * remaining
    ensures remaining == 1 || k > i
    ensures k > i ==> newShape[i] <= remaining && remaining % newShape[i] == 0
  {
    if k <= i {
      assert newShape[..i][..k] == newShape[..k];
      ProdSplit(newShape[..i], k);
      ProdPositive(newShape[..k]);
      FactorOfItself(Prod(newShape[..k]), Prod(newShape[..i][k..]), remaining);
    } else {
      assert newShape[..k][..i] == newShape[..i] && newShape[..k][i..][0] == newShape[i];
      ProdSplit(newShape[..k], i);
      ProdSuffix(newShape[..k], i);
      ProdPositive(newShape[..i]);
      ProdPositive(newShape[..k][i + 1..]);
      FactorDivides(Prod(newShape[..i]), newShape[i], Prod(newShape[..k][i + 1..]), remaining);
    }
  }

  /** When all is placed, nothing was abandoned and the merged dimensions after j hold one element each. */
  lemma NothingAbandoned(merged: Shape, mergedStrides: Strides, newShape: Shape, newStrides: Strides,
                         j: nat, taken: nat, remaining: nat, abandoned: nat)
    requires |merged| == |mergedStrides| && AllPositive(merged) && j < |merged|
    requires |newStrides| == |newShape| && Prod(merged) == Prod(newShape)
    requires Splitting(merged, mergedStrides, newShape, newStrides, |newShape|, j, taken, remaining, abandoned)
    ensures remaining == 1 && abandoned == 1 && Prod(merged[j + 1..]) == 1 && AllPositive(newShape)
  {
    assert newShape[..|newShape|] == newShape;
    ProdSplit(merged, j + 1);
    ProdPositive(newShape);
    CancelToOne(Prod(newShape), remaining, abandoned, Prod(merged[j + 1..]));
  }

  lemma SplitEnd(merged: Shape, mergedStrides: Strides, newShape: Shape, newStrides: Strides,
                 j: nat, taken: nat, remaining: nat, abandoned: nat)
    requires |merged| == |mergedStrides| && AllPositive(merged) && j < |merged|
    requires |newStrides| == |newShape| && Prod(merged) == Prod(newShape)
    requires Splitting(merged, mergedStrides, newShape, newStrides, |newShape|, j, taken, remaining, abandoned)
    ensures AllPositive(newShape) && SameAddresses(merged, mergedStrides, newShape, newStrides)
    ensures Aligned(merged, newShape)
  {
    NothingAbandoned(merged, mergedStrides, newShape, newStrides, j, taken, remaining, abandoned);
    forall l: nat
      ensures Address(merged, mergedStrides, l) == Address(newShape, newStrides, l)
    {
      SplitEndAddress(merged, mergedStrides, newShape, newStrides, j, taken, l);
    }
    forall m | j < m < |merged|
      ensures HasBoundary(newShape, Prod(merged[..m]))
    {
      OnesKeepProd(merged, j + 1, m);
      assert newShape[..|newShape|] == newShape;
      assert Prod(newShape[..|newShape|]) == Prod(merged[..m]);
    }
  }

  lemma SplitEndAddress(merged: Shape, mergedStrides: Strides, newShape: Shape, newStrides: Strides,
                        j: nat, taken: nat, l: nat)
    requires |merged| == |mergedStrides| && AllPositive(merged) && j < |merged|
    requires |newStrides| == |newShape| && Prod(merged[j + 1..]) == 1
    requires Splitting(merged, mergedStrides, newShape, newStrides, |newShape|, j, taken, 1, 1)
    ensures AllPositive(newShape) && Address(merged, mergedStrides, l) == Address(newShape, newStrides, l)
  {
    assert newShape[..|newShape|] == newShape && newStrides[..|newShape|] == newStrides;
    assert merged[..j] + [taken] == merged[..j + 1];
    assert mergedStrides[..j] + [mergedStrides[j] * 1] == mergedStrides[..j + 1];
    OnesAddNothing(merged, mergedStrides, j + 1, l);
  }

  lemma OnesKeepProd(shape: Shape, n: nat, m: nat)
    requires n <= m <= |shape| && Prod(shape[n..]) == 1
    ensures Prod(shape[..m]) == Prod(shape[..n])
  {
    assert shape[..m][..n] == shape[..n] && shape[n..][..m - n] == shape[..m][n..];
    ProdSplit(shape[..m], n);
    ProdSplit(shape[n..], m - n);
    ProductIsOne(Prod(shape[..m][n..]), Prod(shape[n..][m - n..]));
  }

  /** Trailing dimensions of one element do not change addresses. */
  lemma {:induction false} OnesAddNothing(shape: Shape, strides: Strides, n: nat, l: nat)
    requires |shape| == |strides| && AllPositive(shape) && n <= |shape| && Prod(shape[n..]) == 1
    ensures Address(shape, strides, l) == Address(shape[..n], strides[..n], l)
  {
    if n == |shape| {
      assert shape[..n] == shape && strides[..n] == strides;
    } else {
      var z := |shape| - 1;
      assert shape[n..][..z - n] == shape[..z][n..];
      ProductIsOne(Prod(shape[n..][..z - n]), shape[z]);
      OnesAddNothing(shape[..z], strides[..z], n, l);
      assert shape[..z][..n] == shape[..n] && strides[..z][..n] == strides[..n];
      assert l / 1 == l && l % 1 == 0 && 0 * strides[z] == 0;
    }
  }

  /** On aligned boundaries the loop only leaves a fully used dimension, and never divides with a remainder. */
  lemma AlignedFits(merged: Shape, newShape: Shape, i: nat, j: nat, remaining: nat)
    requires AllPositive(merged) && AllPositive(newShape) && i < |newShape| && j < |merged|
    requires Prod(merged) == Prod(newShape) && remaining > 0
    requires Aligned(merged, newShape)
    requires Prod(newShape[..i]) * remaining == Prod(merged[..j + 1])
    ensures newShape[i] > remaining ==> remaining == 1 && j + 1 < |merged|
    ensures newShape[i] <= remaining ==> remaining % newShape[i] == 0
  {
    if j + 1 < |merged| {
      var k :| 0 <= k <= |newShape| && Prod(newShape[..k]) == Prod(merged[..j + 1]);
      BoundaryFits(newShape, i, remaining, k);
    } else {
      assert merged[..j + 1] == merged && newShape[..|newShape|] == newShape;
      BoundaryFits(newShape, i, remaining, |newShape|);
    }
  }

  lemma RowMajorTake(newShape: Shape, i: nat, remaining: nat)
    requires AllPositive(newShape) && i < |newShape|
    requires Prod(newShape[..i]) * remaining == Prod(newShape)
    ensures remaining / newShape[i] == Prod(newShape[i + 1..])
  {
    ProdSplit(newShape, i);
    ProdSuffix(newShape, i);
    ProdPositive(newShape[..i]);
    QuotientOfRest(Prod(newShape[..i]), remaining, newShape[i], Prod(newShape[i + 1..]), Prod(newShape[i..]));
  }

  /** The loop invariant of the split; it says nothing about shapes with an empty dimension. */
  ghost predicate Progress(merged: Shape, mergedStrides: Strides, newShape: Shape, newStrides: Strides,
                           i: nat, j: nat, taken: nat, remaining: nat, abandoned: nat)
    requires |merged| == |mergedStrides| && j < |merged|
    requires |newStrides| == |newShape| && i <= |newShape|
  {
    AllPositive(merged) ==>
      && Splitting(merged, mergedStrides, newShape, newStrides, i, j, taken, remaining, abandoned)
      && (Aligned(merged, newShape) ==> abandoned == 1)
  }

  /** The inner loop: find the merged dimension that the new dimension i comes from. */
  method SkipMerged(merged: Shape, mergedStrides: Strides, newShape: Shape, ghost newStrides: Strides, i: nat,
                    mergedIdx: nat, remaining: nat, ghost taken: nat, ghost abandoned: nat)
    returns (idx: nat, rest: nat, ghost taken': nat, ghost abandoned': nat)
    requires |merged| == |mergedStrides| && mergedIdx < |merged| && Prod(merged) == Prod(newShape)
    requires |newStrides| == |newShape| && i < |newShape|
    requires Progress(merged, mergedStrides, newShape, newStrides, i, mergedIdx, taken, remaining, abandoned)
    ensures idx <= |merged|
    ensures idx == |merged| ==> !(AllPositive(merged) && Aligned(merged, newShape))
    ensures idx < |merged| ==>
              && newShape[i] <= rest
              && Progress(merged, mergedStrides, newShape, newStrides, i, idx, taken', rest, abandoned')
  {
    idx, rest, taken', abandoned' := mergedIdx, remaining, taken, abandoned;
    while newShape[i] > rest
      invariant idx < |merged|
      invariant Progress(merged, mergedStrides, newShape, newStrides, i, idx, taken', rest, abandoned')
      decreases |merged| - idx
    {
      ghost var positive, aligned := AllPositive(merged), Aligned(merged, newShape);
      if positive && aligned {
        ProdPositive(merged);
        ProdPositive(newShape);
        AlignedFits(merged, newShape, i, idx, rest);
      }
      idx := idx + 1;
      if idx >= |merged| {
        return;
      }
      if positive {
        SplitAdvance(merged, mergedStrides, newShape, newStrides, i, idx - 1, taken', rest, abandoned');
      }
      taken', abandoned' := 1, Times(rest, abandoned');
      rest := merged[idx];
    }
  }

  /** One new dimension: on aligned boundaries it divides, and taking it keeps the invariant. */
  lemma TakeStep(merged: Shape, mergedStrides: Strides, newShape: Shape, newStrides: Strides,
                 i: nat, j: nat, taken: nat, remaining: nat, abandoned: nat)
    requires |merged| == |mergedStrides| && j < |merged| && Prod(merged) == Prod(newShape)
    requires |newStrides| == |newShape| && i < |newShape| && 0 < newShape[i] <= remaining
    requires Progress(merged, mergedStrides, newShape, newStrides, i, j, taken, remaining, abandoned)
    ensures AllPositive(merged) && Aligned(merged, newShape) ==> remaining % newShape[i] == 0
    ensures
      remaining % newShape[i] == 0 ==>
        var rest := remaining / newShape[i];
        && Progress(merged, mergedStrides, newShape, newStrides[i := mergedStrides[j] * rest],
                    i + 1, j, Times(taken, newShape[i]), rest, abandoned)
        && (mergedStrides == [1] && AllPositive(merged) ==> rest == Prod(newShape[i + 1..]))
  {
    if AllPositive(merged) {
      ProdPositive(merged);
      ProdPositive(newShape);
      if Aligned(merged, newShape) {
        AlignedFits(merged, newShape, i, j, remaining);
      }
      if remaining % newShape[i] == 0 {
        SplitTake(merged, mergedStrides, newShape, newStrides, i, j, taken, remaining, abandoned);
        if mergedStrides == [1] {
          assert merged[..1] == merged;
          RowMajorTake(newShape, i, remaining);
        }
      }
    }
  }

  /** Step 4 of the view: the stride of every new dimension, or a failed assertion. */
  method SplitDims(merged: Shape, mergedStrides: Strides, newShape: Shape) returns (r: Result<Strides, Failure>)
    requires |merged| == |mergedStrides| > 0 && Prod(merged) == Prod(newShape)
    ensures r.Ok? ==>
              && |r.value| == |newShape| && AllPositive(merged) && AllPositive(newShape)
              && SameAddresses(merged, mergedStrides, newShape, r.value)
    ensures r.Ok? <==> AllPositive(merged) && Aligned(merged, newShape)
    ensures r.Ok? && mergedStrides == [1] ==> IsRowMajor(newShape, r.value)
  {
    var newStrides: Strides := seq(|newShape|, _ => 0);
    var mergedIdx: nat, remaining: nat := 0, merged[0];
    ghost var taken: nat, abandoned: nat := 1, 1;
    ProdPositive(merged);
    ProdPositive(newShape);
    if AllPositive(merged) {
      SplitStart(merged, mergedStrides, newShape, newStrides);
    }
    for i := 0 to |newShape|
      invariant |newStrides| == |newShape| && mergedIdx < |merged|
      invariant AllPositive(newShape[..i])
      invariant Progress(merged, mergedStrides, newShape, newStrides, i, mergedIdx, taken, remaining, abandoned)
      invariant mergedStrides == [1] && AllPositive(merged) ==>
                  forall k :: 0 <= k < i ==> newStrides[k] == Prod(newShape[k + 1..])
    {
      mergedIdx, remaining, taken, abandoned :=
        SkipMerged(merged, mergedStrides, newShape, newStrides, i, mergedIdx, remaining, taken, abandoned);
      if mergedIdx >= |merged| {
        return Err(AssertionFailed);
      }
      if newShape[i] == 0 {
        return Err(Undefined); // remainder by zero
      }
      TakeStep(merged, mergedStrides, newShape, newStrides, i, mergedIdx, taken, remaining, abandoned);
      if remaining % newShape[i] != 0 {
        return Err(AssertionFailed);
      }
      taken := Times(taken, newShape[i]);
      newStrides := newStrides[i := mergedStrides[mergedIdx] * (remaining / newShape[i])];
      remaining := remaining / newShape[i];
    }
    assert newShape[..|newShape|] == newShape;
    if AllPositive(merged) {
      SplitEnd(merged, mergedStrides, newShape, newStrides, mergedIdx, taken, remaining, abandoned);
    }
    return Ok(newStrides);
  }

  // ---- the whole view ----

  /** Boundaries of the merged shape lie on the new shape exactly when the old breaks do. */
  lemma BreaksAreBoundaries(shape: Shape, strides: Strides, merged: Shape, newShape: Shape, cuts: seq<nat>)
    requires |shape| == |strides| && CutsAtBreaks(shape, strides, |shape|, merged, cuts)
    ensures BreaksAligned(shape, strides, newShape) <==> Aligned(merged, newShape)
  {
    if Aligned(merged, newShape) {
      forall k | 0 < k < |shape| && Breaks(shape, strides, k)
        ensures HasBoundary(newShape, Prod(shape[..k]))
      {
        var m :| 0 <= m < |cuts| && cuts[m] == k;
        assert HasBoundary(newShape, Prod(merged[..m]));
      }
    }
  }

  /** A row-major tensor has no breaks, and merges into one dimension of stride one. */
  lemma RowMajorNeverBreaks(shape: Shape, strides: Strides)
    requires |shape| == |strides| && IsRowMajor(shape, strides)
    ensures forall k :: 0 < k < |shape| ==> !Breaks(shape, strides, k)
    ensures shape != [] ==> strides[|shape| - 1] == 1
  {
    forall k | 0 < k < |shape|
      ensures !Breaks(shape, strides, k)
    {
      ProdSuffix(shape, k);
      assert strides[k - 1] == Prod(shape[k..]);
    }
    if shape != [] {
      assert shape[|shape|..] == [];
    }
  }

  /** What the merged form keeps of the tensor it came from. */
  lemma MergedForm(shape: Shape, strides: Strides, merged: Shape, mergedStrides: Strides, cuts: seq<nat>,
                   newShape: Shape)
    requires |shape| == |strides| > 0 && |merged| == |mergedStrides|
    requires Merging(shape, strides, |shape|, merged, mergedStrides, cuts)
    ensures Prod(merged) == Prod(shape) && (AllPositive(merged) <==> AllPositive(shape))
    ensures AllPositive(shape) ==> SameAddresses(shape, strides, merged, mergedStrides)
    ensures BreaksAligned(shape, strides, newShape) <==> Aligned(merged, newShape)
    ensures IsRowMajor(shape, strides) ==> mergedStrides == [1] && Aligned(merged, newShape)
  {
    assert shape[..|shape|] == shape && strides[..|strides|] == strides;
    ProdPositive(shape);
    ProdPositive(merged);
    BreaksAreBoundaries(shape, strides, merged, newShape, cuts);
    if IsRowMajor(shape, strides) {
      ghost var secondCut := if |cuts| > 1 then cuts[1] else 0;
      RowMajorNeverBreaks(shape, strides);
      assert secondCut == 0 && |merged| == 1;
    }
  }

  /**
   `Tensor::view`: the strides under which the new shape reads the same storage. It succeeds
   exactly when the sizes agree and every stride break of the old tensor is a boundary of the
   new shape; whenever it succeeds every element keeps its offset.
   */
  method View(shape: Shape, strides: Strides, newShape: Shape) returns (r: Result<Strides, Failure>)
    requires |shape| == |strides|
    ensures r.Ok? ==>
              && |r.value| == |newShape| && AllPositive(shape) && AllPositive(newShape)
              && SameAddresses(shape, strides, newShape, r.value)
    ensures r.Ok? <==>
              && shape != [] && AllPositive(shape)
              && Prod(shape) == Prod(newShape) && BreaksAligned(shape, strides, newShape)
    ensures shape != [] && AllPositive(shape) && IsRowMajor(shape, strides) && Prod(shape) == Prod(newShape) ==>
              r.Ok? && IsRowMajor(newShape, r.value)
  {
    var numel := CountElements(shape);
    var newNumel := CountElements(newShape);
    if numel != newNumel {
      return Err(AssertionFailed);
    }
    var merged, mergedStrides, cuts := MergeDims(shape, strides);
    if merged == [] {
      return Err(Undefined); // merged_strides[0] of an empty vector
    }
    MergedForm(shape, strides, merged, mergedStrides, cuts, newShape);
    r := SplitDims(merged, mergedStrides, newShape);
  }
}
