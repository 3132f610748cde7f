/** Slicing: a smaller box of the same storage (src/tensor/transform.cpp, `sliceImpl`). */
module TensorSlice {
  import opened DivMod
  import opened Results
  import opened Shapes

  datatype SliceParams = SliceParams(dim: nat, start: nat, len: nat)

  predicate Admissible(shape: Shape, s: SliceParams) {
    s.dim < |shape| && s.len > 0 && s.start + s.len <= shape[s.dim]
  }

  predicate AllAdmissible(shape: Shape, slices: seq<SliceParams>) {
    forall i :: 0 <= i < |slices| ==> Admissible(shape, slices[i])
  }

  /** Total start requested in every dimension. */
  function Starts(shape: Shape, slices: seq<SliceParams>): (starts: seq<nat>)
    requires AllAdmissible(shape, slices)
    ensures |starts| == |shape|
  {
    if slices == [] then seq(|shape|, _ => 0)
    else
      var k := |slices| - 1;
      var before, s := Starts(shape, slices[..k]), slices[k];
      before[s.dim := before[s.dim] + s.start]
  }

  /** Size left in every dimension: the length of the last slice that names it. */
  function Lengths(shape: Shape, slices: seq<SliceParams>): (lens: Shape)
    requires AllAdmissible(shape, slices)
    ensures |lens| == |shape|
  {
    if slices == [] then shape
    else
      var k := |slices| - 1;
      Lengths(shape, slices[..k])[slices[k].dim := slices[k].len]
  }

  function Shift(index: seq<nat>, starts: seq<nat>): (shifted: seq<nat>)
    requires |index| == |starts|
    ensures |shifted| == |index|
  {
    seq(|index|, i requires 0 <= i < |index| => index[i] + starts[i])
  }

  predicate DistinctDims(slices: seq<SliceParams>) {
    forall i, j :: 0 <= i < j < |slices| ==> slices[i].dim != slices[j].dim
  }

  /** What one slice asks for is what its dimension gets, if no other slice names that dimension. */
  lemma {:induction false} OwnSlice(shape: Shape, slices: seq<SliceParams>, i: nat)
    requires AllAdmissible(shape, slices) && i < |slices|
    requires forall j :: 0 <= j < |slices| && j != i ==> slices[j].dim != slices[i].dim
    ensures Starts(shape, slices)[slices[i].dim] == slices[i].start
    ensures Lengths(shape, slices)[slices[i].dim] == slices[i].len
  {
    var k := |slices| - 1;
    if i == k {
      UntouchedDim(shape, slices[..k], slices[i].dim);
    } else {
      OwnSlice(shape, slices[..k], i);
    }
  }

  /** A dimension that no slice names stays whole. */
  lemma {:induction false} UntouchedDim(shape: Shape, slices: seq<SliceParams>, d: nat)
    requires AllAdmissible(shape, slices) && d < |shape|
    requires forall j :: 0 <= j < |slices| ==> slices[j].dim != d
    ensures Starts(shape, slices)[d] == 0 && Lengths(shape, slices)[d] == shape[d]
  {
    if slices != [] {
      UntouchedDim(shape, slices[..|slices| - 1], d);
    }
  }

  /** Index i of the slice is index i plus the starts of the tensor, at the same storage offset. */
  lemma {:induction false} OffsetAdds(index: seq<nat>, starts: seq<nat>, strides: Strides)
    requires |index| == |starts| == |strides|
    ensures Offset(Shift(index, starts), strides) == Offset(index, strides) + Offset(starts, strides)
  {
    if index != [] {
      var n := |index| - 1;
      OffsetAdds(index[..n], starts[..n], strides[..n]);
      assert Shift(index, starts)[..n] == Shift(index[..n], starts[..n]);
      MulDistributes(index[n], starts[n], strides[n]);
    }
  }

  lemma {:induction false} OffsetOfUpdate(index: seq<nat>, strides: Strides, d: nat, x: nat)
    requires |index| == |strides| && d < |index|
    ensures Offset(index[d := index[d] + x], strides) == Offset(index, strides) + x * strides[d]
  {
    var n := |index| - 1;
    var index' := index[d := index[d] + x];
    if d == n {
      assert index'[..n] == index[..n];
      MulDistributes(index[n], x, strides[n]);
    } else {
      OffsetOfUpdate(index[..n], strides[..n], d, x);
      assert index'[..n] == index[..n][d := index[..n][d] + x];
    }
  }

  lemma {:induction false} ZeroOffset(n: nat, strides: Strides)
    requires |strides| == n
    ensures Offset(seq(n, _ => 0), strides) == 0
  {
    if n > 0 {
      ZeroOffset(n - 1, strides[..n - 1]);
      assert seq(n, _ => 0)[..n - 1] == seq(n - 1, _ => 0);
    }
  }

  lemma SnocAdmissible(shape: Shape, before: seq<SliceParams>, s: SliceParams)
    requires AllAdmissible(shape, before) && Admissible(shape, s)
    ensures AllAdmissible(shape, before + [s])
    ensures Lengths(shape, before + [s]) == Lengths(shape, before)[s.dim := s.len]
    ensures var was := Starts(shape, before); Starts(shape, before + [s]) == was[s.dim := was[s.dim] + s.start]
  {
    assert (before + [s])[..|before|] == before;
  }

  lemma OffsetSnoc(shape: Shape, strides: Strides, before: seq<SliceParams>, s: SliceParams)
    requires |shape| == |strides| && AllAdmissible(shape, before) && Admissible(shape, s)
    ensures AllAdmissible(shape, before + [s])
    ensures Offset(Starts(shape, before + [s]), strides)
         == Offset(Starts(shape, before), strides) + s.start * strides[s.dim]
  {
    SnocAdmissible(shape, before, s);
    OffsetOfUpdate(Starts(shape, before), strides, s.dim, s.start);
  }

  /** The sliced tensor's shape and its offset, in elements, from the tensor it came from. */
  method Slice(shape: Shape, strides: Strides, slices: seq<SliceParams>) returns (r: Result<(Shape, int), Failure>)
    requires |shape| == |strides|
    ensures r.Ok? <==> AllAdmissible(shape, slices)
    ensures r.Ok? ==> r.value == (Lengths(shape, slices), Offset(Starts(shape, slices), strides))
  {
    var newShape, offset := shape, 0;
    ZeroOffset(|shape|, strides);
    for i := 0 to |slices|
      invariant AllAdmissible(shape, slices[..i])
      invariant newShape == Lengths(shape, slices[..i])
      invariant offset == Offset(Starts(shape, slices[..i]), strides)
    {
      var s := slices[i];
      if s.len == 0 {
        assert !Admissible(shape, slices[i]);
        return Err(AssertionFailed);
      }
      if s.dim >= |shape| {
        assert !Admissible(shape, slices[i]);
        return Err(Undefined); // read past the end of the shape
      }
      if !(shape[s.dim] >= s.start + s.len) {
        assert !Admissible(shape, slices[i]);
        return Err(AssertionFailed);
      }
      SnocAdmissible(shape, slices[..i], s);
      OffsetSnoc(shape, strides, slices[..i], s);
      assert slices[..i + 1] == slices[..i] + [s];
      newShape := newShape[s.dim := s.len];
      offset := offset + s.start * strides[s.dim];
    }
    assert slices[..|slices|] == slices;
    return Ok((newShape, offset));
  }

  ghost predicate StaysInside(shape: Shape, slices: seq<SliceParams>)
    requires AllAdmissible(shape, slices)
  {
    forall index: seq<nat> :: InBox(index, Lengths(shape, slices)) ==> InBox(Shift(index, Starts(shape, slices)), shape)
  }

  lemma {:induction false} SliceSizes(shape: Shape, slices: seq<SliceParams>)
    requires AllAdmissible(shape, slices)
    ensures AllPositive(shape) ==> AllPositive(Lengths(shape, slices))
    ensures DistinctDims(slices) ==> forall d :: 0 <= d < |shape| ==>
            Starts(shape, slices)[d] + Lengths(shape, slices)[d] <= shape[d]
    ensures forall d :: 0 <= d < |shape| && (forall i :: 0 <= i < |slices| ==> slices[i].dim != d) ==>
              Starts(shape, slices)[d] == 0 && Lengths(shape, slices)[d] == shape[d]
  {
    if slices != [] {
      var k := |slices| - 1;
      SliceSizes(shape, slices[..k]);
      forall d | 0 <= d < |shape| && forall i :: 0 <= i < |slices| ==> slices[i].dim != d
        ensures Starts(shape, slices)[d] == 0 && Lengths(shape, slices)[d] == shape[d]
      {
        assert forall i :: 0 <= i < k ==> slices[..k][i].dim != d;
      }
      if DistinctDims(slices) {
        assert forall i :: 0 <= i < k ==> slices[..k][i].dim != slices[k].dim;
      }
    }
  }

  predicate HasEmptyDim(shape: Shape) {
    exists d :: 0 <= d < |shape| && shape[d] == 0
  }

  /** In every dimension the total start plus the last length fits. */
  predicate AllFit(shape: Shape, slices: seq<SliceParams>)
    requires AllAdmissible(shape, slices)
  {
    forall d :: 0 <= d < |shape| ==> Starts(shape, slices)[d] + Lengths(shape, slices)[d] <= shape[d]
  }

  /** An empty dimension cannot be sliced, and the slice of an empty tensor has no index. */
  lemma EmptyStaysEmpty(shape: Shape, slices: seq<SliceParams>)
    requires AllAdmissible(shape, slices) && HasEmptyDim(shape)
    ensures StaysInside(shape, slices)
  {
    SliceSizes(shape, slices);
    var d :| 0 <= d < |shape| && shape[d] == 0;
    assert forall i :: 0 <= i < |slices| ==> slices[i].dim != d;
    assert Lengths(shape, slices)[d] == 0;
  }

  /** The last index of the slice leaves the tensor if something does. */
  lemma CornerDecides(shape: Shape, slices: seq<SliceParams>)
    requires AllPositive(shape) && AllAdmissible(shape, slices)
    ensures StaysInside(shape, slices) <==> AllFit(shape, slices)
  {
    SliceSizes(shape, slices);
    var starts, lens := Starts(shape, slices), Lengths(shape, slices);
    if StaysInside(shape, slices) {
      var corner := seq(|shape|, i requires 0 <= i < |shape| => (lens[i] - 1) as nat);
      assert InBox(corner, lens);
      assert InBox(Shift(corner, starts), shape);
      forall d | 0 <= d < |shape|
        ensures starts[d] + lens[d] <= shape[d]
      {
        assert Shift(corner, starts)[d] < shape[d];
      }
    }
  }

  /**
   The slice lies inside the tensor exactly when the tensor is empty or in every dimension the total
   start plus the last length fits. Slices of different dimensions always do; the program does not
   check that the dimensions differ.
   */
  lemma SliceInside(shape: Shape, slices: seq<SliceParams>)
    requires AllAdmissible(shape, slices)
    ensures StaysInside(shape, slices) <==> HasEmptyDim(shape) || AllFit(shape, slices)
    ensures DistinctDims(slices) ==> StaysInside(shape, slices)
  {
    if HasEmptyDim(shape) {
      EmptyStaysEmpty(shape, slices);
    } else {
      assert forall d :: 0 <= d < |shape| ==> shape[d] != 0;
      CornerDecides(shape, slices);
      SliceSizes(shape, slices);
    }
  }

  /** Two slices of one dimension are accepted and together leave the tensor. */
  lemma RepeatedDimLeaves()
    ensures
      var shape, slices := [10], [SliceParams(0, 5, 5), SliceParams(0, 5, 5)];
      AllPositive(shape) && AllAdmissible(shape, slices) && !StaysInside(shape, slices)
  {
    var shape, slices := [10], [SliceParams(0, 5, 5), SliceParams(0, 5, 5)];
    assert slices[..1] == [SliceParams(0, 5, 5)] && slices[..1][..0] == [];
    SliceInside(shape, slices);
    assert Starts(shape, slices)[0] == 10;
  }
}
