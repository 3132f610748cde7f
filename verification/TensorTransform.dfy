/**
 Slicing, merging, splitting and permuting the dimensions of a tensor descriptor
 (src/tensor/transform.cpp).
 */
module TensorTransform {
  import opened DivMod
  import opened Permutations
  import opened Results
  import opened Shapes

  // ---- addresses of concatenated shapes ----

  lemma {:induction false} AddressConcat(a: Shape, sa: Strides, b: Shape, sb: Strides, l: nat)
    requires |a| == |sa| && |b| == |sb| && AllPositive(a) && AllPositive(b)
    ensures AllPositive(a + b) && Prod(b) > 0
    ensures Address(a + b, sa + sb, l) == Address(a, sa, l / Prod(b)) + Address(b, sb, l % Prod(b))
  {
    ProdPositive(b);
    if b == [] {
      assert a + b == a && sa + sb == sa;
    } else {
      var n := |b| - 1;
      var d := b[n];
      assert (a + b)[..|a| + n] == a + b[..n] && (sa + sb)[..|a| + n] == sa + sb[..n];
      AddressConcat(a, sa, b[..n], sb[..n], l / d);
      TwoDigits(l, Prod(b[..n]), d);
      var q := (l / d) % Prod(b[..n]);
      DivModUnique(q * d + l % d, d, q, l % d);
    }
  }

  /** In a run of dimensions that continue each other, linear index l is l times the last stride. */
  ghost predicate Continues(shape: Shape, strides: Strides)
    requires |shape| == |strides|
  {
    forall i :: 0 < i < |shape| ==> strides[i - 1] == shape[i] * strides[i]
  }

  lemma {:induction false} RunAddress(shape: Shape, strides: Strides, l: nat)
    requires |shape| == |strides| > 0 && AllPositive(shape) && Continues(shape, strides)
    requires l < Prod(shape)
    ensures Address(shape, strides, l) == l * strides[|shape| - 1]
  {
    var n := |shape| - 1;
    var d, s := shape[n], strides[n];
    DivModIdentity(l, d);
    QuotientBelow(l, Prod(shape[..n]), d);
    if n == 0 {
      assert l / d == 0;
    } else {
      RunAddress(shape[..n], strides[..n], l / d);
      MulAssoc(l / d, d, s);
      MulDistributes((l / d) * d, l % d, s);
    }
  }

  lemma SingleAddress(d: nat, s: int, l: nat)
    requires l < d
    ensures AllPositive([d]) && Address([d], [s], l) == l * s
  {
    AddressSnoc([], [], d, s, l);
    assert [d] == [] + [d] && [s] == [] + [s];
    DivModUnique(l, d, 0, l);
  }

  lemma AddressOfThree(a: Shape, sa: Strides, b: Shape, sb: Strides, c: Shape, sc: Strides, l: nat)
    requires |a| == |sa| && |b| == |sb| && |c| == |sc|
    requires AllPositive(a) && AllPositive(b) && AllPositive(c)
    ensures Prod(b) > 0 && Prod(c) > 0
    ensures Address(a + b + c, sa + sb + sc, l)
         == Address(a, sa, l / Prod(c) / Prod(b)) + Address(b, sb, l / Prod(c) % Prod(b)) + Address(c, sc, l % Prod(c))
  {
    AddressConcat(a + b, sa + sb, c, sc, l);
    AddressConcat(a, sa, b, sb, l / Prod(c));
  }

  /** Replacing inner dimensions b by b' that address alike leaves the whole tensor's addresses unchanged. */
  lemma ReplaceInside(a: Shape, sa: Strides, b: Shape, sb: Strides, b': Shape, sb': Strides, c: Shape, sc: Strides)
    requires |a| == |sa| && |b| == |sb| && |b'| == |sb'| && |c| == |sc|
    requires AllPositive(a) && AllPositive(b) && AllPositive(b') && AllPositive(c)
    requires SameAddresses(b, sb, b', sb')
    ensures SameAddresses(a + b + c, sa + sb + sc, a + b' + c, sa + sb' + sc)
  {
    assert Prod(a + b + c) == Prod(a + b' + c) by {
      ProdConcat(a, b);
      ProdConcat(a, b');
      ProdConcat(a + b, c);
      ProdConcat(a + b', c);
    }
    forall l: nat
      ensures Address(a + b + c, sa + sb + sc, l) == Address(a + b' + c, sa + sb' + sc, l)
    {
      AddressOfThree(a, sa, b, sb, c, sc, l);
      AddressOfThree(a, sa, b', sb', c, sc, l);
      DivModIdentity(l / Prod(c), Prod(b));
    }
  }

  // ---- 64-bit conversions in the split ----

  const TWO_63: int := 0x8000_0000_0000_0000
  const TWO_64: int := 0x1_0000_0000_0000_0000

  function ToUnsigned(x: int): (u: nat) {
    x % TWO_64
  }

  function ToSigned(u: nat): (x: int)
    requires u < TWO_64
  {
    if u < TWO_63 then u else u - TWO_64
  }

  /**
   The stride of a split dimension: `stride * size` is computed as an unsigned number, divided by
   the product of the leading parts, and stored back as a signed one.
   */
  function SplitStride(stride: int, size: nat, leading: nat): (s: int)
    requires leading > 0
  {
    var u := ToUnsigned(stride * size);
    DivMod.MulLe(1, leading, u / leading);
    ToSigned(u / leading)
  }

  /** Stride times size fits the machine type that the split computes it in. */
  predicate SpanFits(stride: int, size: nat) {
    -TWO_63 <= stride * size < TWO_63
  }

  lemma SplitStrideOf(stride: int, size: nat, leading: nat, rest: nat)
    requires leading > 0 && size == leading * rest && SpanFits(stride, size)
    ensures stride >= 0 ==> SplitStride(stride, size, leading) == stride * rest
    ensures stride < 0 && leading >= 2 ==> SplitStride(stride, size, leading) >= 0
  {
    if stride >= 0 {
      MulLe(0, size, stride);
      calc {
        stride * size;
        { MulAssoc(stride, rest, leading); }
        (stride * rest) * leading;
      }
      DivOfProduct(stride * size, leading, stride * rest);
      MulLe(0, rest, stride);
      MulLe(1, leading, stride * rest);
    } else if leading >= 2 {
      var u := ToUnsigned(stride * size);
      DivModIdentity(u, leading);
      MulLe(2, leading, u / leading);
      assert u / leading < TWO_63;
    }
  }

  /** Product of the parts up to and including part i. */
  function LeadingProd(dims: Shape, i: nat): (p: nat)
    requires AllPositive(dims) && i < |dims|
    ensures p > 0
  {
    ProdPositive(dims[..i + 1]);
    Prod(dims[..i + 1])
  }

  function PartStrides(stride: int, size: nat, dims: Shape): (parts: Strides)
    requires AllPositive(dims)
  {
    seq(|dims|, i requires 0 <= i < |dims| => SplitStride(stride, size, LeadingProd(dims, i)))
  }

  lemma PartStridesSnoc(stride: int, size: nat, dims: Shape, d: nat)
    requires AllPositive(dims + [d])
    ensures AllPositive(dims) && Prod(dims + [d]) > 0
    ensures PartStrides(stride, size, dims + [d])
         == PartStrides(stride, size, dims) + [SplitStride(stride, size, Prod(dims + [d]))]
  {
    forall j | 0 <= j < |dims|
      ensures dims[j] > 0
    {
      assert (dims + [d])[j] == dims[j];
    }
    forall j | 0 <= j < |dims|
      ensures LeadingProd(dims + [d], j) == LeadingProd(dims, j)
    {
      assert (dims + [d])[..j + 1] == dims[..j + 1];
    }
    assert (dims + [d])[..|dims| + 1] == dims + [d];
    ProdPositive(dims + [d]);
  }

  lemma Rotate(a: int, b: int, c: int)
    ensures a * (b * c) == b * (a * c)
  {
    MulAssoc(a, b, c);
    MulAssoc(b, a, c);
  }

  lemma SplitStrideAt(stride: int, size: nat, dims: Shape, i: nat)
    requires AllPositive(dims) && Prod(dims) == size && SpanFits(stride, size) && i < |dims|
    ensures stride >= 0 ==> PartStrides(stride, size, dims)[i] == stride * Prod(dims[i + 1..])
    ensures stride < 0 && Prod(dims[..i + 1]) >= 2 ==> PartStrides(stride, size, dims)[i] >= 0
  {
    ProdSplit(dims, i + 1);
    SplitStrideOf(stride, size, LeadingProd(dims, i), Prod(dims[i + 1..]));
  }

  /** Each dimension steps over all those behind it. */
  ghost predicate Dense(shape: Shape, strides: Strides, last: int) {
    |strides| == |shape| && forall i :: 0 <= i < |shape| ==> strides[i] == last * Prod(shape[i + 1..])
  }

  lemma PartsAre(stride: int, size: nat, dims: Shape)
    requires AllPositive(dims) && Prod(dims) == size
    ensures stride >= 0 && SpanFits(stride, size) ==> Dense(dims, PartStrides(stride, size, dims), stride)
  {
    if stride >= 0 && SpanFits(stride, size) {
      forall i | 0 <= i < |dims|
        ensures PartStrides(stride, size, dims)[i] == stride * Prod(dims[i + 1..])
      {
        SplitStrideAt(stride, size, dims, i);
      }
    }
  }

  /** With a non-negative stride the parts of a split continue each other and end in the old stride. */
  lemma SplitContinues(stride: int, size: nat, dims: Shape)
    requires AllPositive(dims) && Prod(dims) == size && SpanFits(stride, size) && stride >= 0
    ensures Continues(dims, PartStrides(stride, size, dims))
    ensures dims != [] ==> PartStrides(stride, size, dims)[|dims| - 1] == stride
  {
    var strides := PartStrides(stride, size, dims);
    PartsAre(stride, size, dims);
    forall i | 0 < i < |dims|
      ensures strides[i - 1] == dims[i] * strides[i]
    {
      assert strides[i - 1] == stride * Prod(dims[i..]);
      ProdSuffix(dims, i);
      Rotate(stride, dims[i], Prod(dims[i + 1..]));
    }
    if dims != [] {
      assert dims[|dims|..] == [];
    }
  }

  /** The address of the element whose only non-zero digit is a one in dimension i is that dimension's stride. */
  lemma UnitAddress(shape: Shape, strides: Strides, i: nat)
    requires |shape| == |strides| && AllPositive(shape) && i < |shape| && shape[i] > 1
    ensures Prod(shape[i + 1..]) < Prod(shape)
    ensures Address(shape, strides, Prod(shape[i + 1..])) == strides[i]
  {
    UnitBelow(shape, i);
    var u := Prod(shape[i + 1..]);
    assert shape == shape[..i + 1] + shape[i + 1..] && strides == strides[..i + 1] + strides[i + 1..];
    AddressConcat(shape[..i + 1], strides[..i + 1], shape[i + 1..], strides[i + 1..], u);
    DivModUnique(u, u, 1, 0);
    ZeroAddress(shape[i + 1..], strides[i + 1..]);
    LastDigit(shape[..i + 1], strides[..i + 1], 1);
  }

  lemma UnitBelow(shape: Shape, i: nat)
    requires AllPositive(shape) && i < |shape| && shape[i] > 1
    ensures 0 < Prod(shape[i + 1..]) < Prod(shape)
  {
    var u := Prod(shape[i + 1..]);
    ProdPositive(shape[i + 1..]);
    ProdPositive(shape[..i]);
    ProdSplit(shape, i);
    ProdSuffix(shape, i);
    MulLe(2, shape[i], u);
    MulLe(1, Prod(shape[..i]), shape[i] * u);
  }

  lemma LastDigit(shape: Shape, strides: Strides, i: nat)
    requires |shape| == |strides| > 0 && AllPositive(shape) && i < shape[|shape| - 1]
    ensures Address(shape, strides, i) == i * strides[|shape| - 1]
  {
    var n := |shape| - 1;
    DivModUnique(i, shape[n], 0, i);
    ZeroAddress(shape[..n], strides[..n]);
  }

  lemma {:induction false} ZeroAddress(shape: Shape, strides: Strides)
    requires |shape| == |strides| && AllPositive(shape)
    ensures Address(shape, strides, 0) == 0
  {
    if shape != [] {
      var n := |shape| - 1;
      ZeroAddress(shape[..n], strides[..n]);
      DivModUnique(0, shape[n], 0, 0);
    }
  }

  /** `r` has `parts` in place of the `n` elements from `i`, and everything else as in `s`. */
  ghost predicate Spliced<T>(s: seq<T>, i: nat, n: nat, parts: seq<T>, r: seq<T>) {
    && i + n <= |s| && |r| == |s| - n + |parts|
    && r[..i] == s[..i] && r[i..i + |parts|] == parts && r[i + |parts|..] == s[i + n..]
  }

  lemma SplicedIn<T>(s: seq<T>, i: nat, n: nat, parts: seq<T>)
    requires i + n <= |s|
    ensures Spliced(s, i, n, parts, s[..i] + parts + s[i + n..])
  {
    Sections(s[..i], parts, s[i + n..]);
  }

  // ---- merging and splitting as functions of shape and strides ----

  ghost predicate MergeAllowed(shape: Shape, strides: Strides, start: nat, end: nat)
    requires |shape| == |strides|
  {
    start <= end < |shape| && Continues(shape[start..end + 1], strides[start..end + 1])
  }

  function MergedShape(shape: Shape, start: nat, end: nat): Shape
    requires start <= end < |shape|
  {
    shape[..start] + [Prod(shape[start..end + 1])] + shape[end + 1..]
  }

  function MergedStrides(strides: Strides, start: nat, end: nat): Strides
    requires start <= end < |strides|
  {
    strides[..start] + [strides[end]] + strides[end + 1..]
  }

  function SplitShape(shape: Shape, dim: nat, dims: Shape): Shape
    requires dim < |shape|
  {
    shape[..dim] + dims + shape[dim + 1..]
  }

  function SplitStrides(shape: Shape, strides: Strides, dim: nat, dims: Shape): Strides
    requires |shape| == |strides| && dim < |shape| && AllPositive(dims)
  {
    strides[..dim] + PartStrides(strides[dim], shape[dim], dims) + strides[dim + 1..]
  }

  /** `dimMerge` keeps every element's address. */
  lemma MergeKeepsAddresses(shape: Shape, strides: Strides, start: nat, end: nat)
    requires |shape| == |strides| && AllPositive(shape) && MergeAllowed(shape, strides, start, end)
    ensures AllPositive(MergedShape(shape, start, end))
    ensures SameAddresses(shape, strides, MergedShape(shape, start, end), MergedStrides(strides, start, end))
  {
    var run, runStrides := shape[start..end + 1], strides[start..end + 1];
    ProdPositive(run);
    ProdSnoc([], Prod(run));
    assert [Prod(run)] == [] + [Prod(run)];
    forall l: nat | l < Prod(run)
      ensures Address(run, runStrides, l) == Address([Prod(run)], [strides[end]], l)
    {
      RunAddress(run, runStrides, l);
      SingleAddress(Prod(run), strides[end], l);
    }
    assert shape == shape[..start] + run + shape[end + 1..];
    assert strides == strides[..start] + runStrides + strides[end + 1..];
    ReplaceInside(shape[..start], strides[..start], run, runStrides, [Prod(run)], [strides[end]],
                  shape[end + 1..], strides[end + 1..]);
  }

  /** What a merge gives. */
  lemma MergedAll(shape: Shape, strides: Strides, start: nat, end: nat)
    requires |shape| == |strides| && MergeAllowed(shape, strides, start, end)
    ensures Spliced(shape, start, end - start + 1, [Prod(shape[start..end + 1])], MergedShape(shape, start, end))
    ensures Spliced(strides, start, end - start + 1, [strides[end]], MergedStrides(strides, start, end))
    ensures AllPositive(shape) ==>
      && AllPositive(MergedShape(shape, start, end))
      && SameAddresses(shape, strides, MergedShape(shape, start, end), MergedStrides(strides, start, end))
  {
    SplicedIn(shape, start, end - start + 1, [Prod(shape[start..end + 1])]);
    SplicedIn(strides, start, end - start + 1, [strides[end]]);
    if AllPositive(shape) {
      MergeKeepsAddresses(shape, strides, start, end);
    }
  }

  /** Merging a single dimension changes nothing. */
  lemma MergeOfOne(shape: Shape, strides: Strides, i: nat)
    requires |shape| == |strides| && i < |shape|
    ensures MergeAllowed(shape, strides, i, i)
    ensures MergedShape(shape, i, i) == shape && MergedStrides(strides, i, i) == strides
    ensures Spliced(shape, i, 1, [Prod(shape[i..i + 1])], shape) && Spliced(strides, i, 1, [strides[i]], strides)
  {
    assert shape[i..i + 1] == [] + [shape[i]];
    ProdSnoc([], shape[i]);
    Rejoin(shape, i);
    Rejoin(strides, i);
    SplicedIn(shape, i, 1, [shape[i]]);
    SplicedIn(strides, i, 1, [strides[i]]);
  }

  /** The parts of a split address like the dimension they replace exactly when its stride is not negative. */
  lemma PartsAddress(stride: int, dims: Shape)
    requires AllPositive(dims) && SpanFits(stride, Prod(dims))
    requires stride >= 0 || Prod(dims) == 1
    ensures Prod(dims) > 0 && AllPositive([Prod(dims)])
    ensures SameAddresses([Prod(dims)], [stride], dims, PartStrides(stride, Prod(dims), dims))
  {
    var n, parts := Prod(dims), PartStrides(stride, Prod(dims), dims);
    ProdPositive(dims);
    ProdSnoc([], n);
    assert [n] == [] + [n];
    forall l: nat | l < n
      ensures Address([n], [stride], l) == Address(dims, parts, l)
    {
      SingleAddress(n, stride, l);
      if n == 1 {
        ZeroAddress(dims, parts);
      } else {
        SplitContinues(stride, n, dims);
        RunAddress(dims, parts, l);
      }
    }
  }

  /** A negative stride split into parts of more than one element misplaces an element. */
  lemma NegativeSplitMisplaces(shape: Shape, strides: Strides, dim: nat, dims: Shape)
    requires |shape| == |strides| && AllPositive(shape) && dim < |shape| && AllPositive(dims)
    requires Prod(dims) == shape[dim] && SpanFits(strides[dim], shape[dim])
    requires strides[dim] < 0 && shape[dim] > 1
    ensures !SameAddresses(shape, strides, SplitShape(shape, dim, dims), SplitStrides(shape, strides, dim, dims))
  {
    var inner, l := PositiveUnit(shape, strides, dim, dims);
    NegativeAddress(shape, strides, dim, inner, l);
    SplitKeepsProd(shape, dim, dims);
  }

  /** A digit of a negatively split dimension that the split addresses at or after the start. */
  lemma PositiveUnit(shape: Shape, strides: Strides, dim: nat, dims: Shape) returns (inner: nat, l: nat)
    requires |shape| == |strides| && AllPositive(shape) && dim < |shape| && AllPositive(dims)
    requires Prod(dims) == shape[dim] && SpanFits(strides[dim], shape[dim])
    requires strides[dim] < 0 && shape[dim] > 1
    ensures 0 < inner < shape[dim]
    ensures l == inner * Prod(shape[dim + 1..]) && l < Prod(SplitShape(shape, dim, dims))
    ensures Address(SplitShape(shape, dim, dims), SplitStrides(shape, strides, dim, dims), l) >= 0
  {
    var split, splitStrides := SplitShape(shape, dim, dims), SplitStrides(shape, strides, dim, dims);
    var i := SomeLargeDim(dims);
    inner := Prod(dims[i + 1..]);
    UnitBelow(dims, i);
    PositivePart(shape, strides, dim, dims, i);
    UnitAddress(split, splitStrides, dim + i);
    l := Prod(split[dim + i + 1..]);
  }

  lemma PositivePart(shape: Shape, strides: Strides, dim: nat, dims: Shape, i: nat)
    requires |shape| == |strides| && dim < |shape| && AllPositive(dims) && i < |dims| && dims[i] > 1
    requires Prod(dims) == shape[dim] && SpanFits(strides[dim], shape[dim]) && strides[dim] < 0
    ensures
      var split, splitStrides := SplitShape(shape, dim, dims), SplitStrides(shape, strides, dim, dims);
      && split[dim + i] == dims[i] && splitStrides[dim + i] >= 0
      && Prod(split[dim + i + 1..]) == Prod(dims[i + 1..]) * Prod(shape[dim + 1..])
  {
    LeadingIsLarge(dims, i);
    SplitStrideAt(strides[dim], shape[dim], dims, i);
    SplitTail(shape, dim, dims, i);
  }

  lemma LeadingIsLarge(dims: Shape, i: nat)
    requires AllPositive(dims) && i < |dims| && dims[i] > 1
    ensures Prod(dims[..i + 1]) >= 2
  {
    ProdPositive(dims[..i]);
    ProdPrefix(dims, i);
    MulLe(1, Prod(dims[..i]), dims[i]);
  }

  lemma SplitTail(shape: Shape, dim: nat, dims: Shape, i: nat)
    requires dim < |shape| && i < |dims|
    ensures Prod(SplitShape(shape, dim, dims)[dim + i + 1..]) == Prod(dims[i + 1..]) * Prod(shape[dim + 1..])
  {
    ProdConcat(dims[i + 1..], shape[dim + 1..]);
    assert SplitShape(shape, dim, dims)[dim + i + 1..] == dims[i + 1..] + shape[dim + 1..];
  }

  lemma SplitKeepsProd(shape: Shape, dim: nat, dims: Shape)
    requires dim < |shape| && Prod(dims) == shape[dim]
    ensures Prod(SplitShape(shape, dim, dims)) == Prod(shape)
  {
    ProdConcat(shape[..dim], dims);
    ProdConcat(shape[..dim] + dims, shape[dim + 1..]);
    ProdPrefix(shape, dim);
    ProdSplit(shape, dim + 1);
  }

  /** Element i of dimension dim, all other digits zero, lies at i times the stride. */
  lemma NegativeAddress(shape: Shape, strides: Strides, dim: nat, i: nat, l: nat)
    requires |shape| == |strides| && AllPositive(shape) && dim < |shape| && 0 < i < shape[dim]
    requires strides[dim] < 0 && l == i * Prod(shape[dim + 1..])
    ensures Address(shape, strides, l) < 0
  {
    var front, after := shape[..dim + 1], shape[dim + 1..];
    ProdPositive(after);
    assert shape == front + after && strides == strides[..dim + 1] + strides[dim + 1..];
    AddressConcat(front, strides[..dim + 1], after, strides[dim + 1..], l);
    DivModUnique(l, Prod(after), i, 0);
    ZeroAddress(after, strides[dim + 1..]);
    LastDigit(front, strides[..dim + 1], i);
    MulLe(1, i, -strides[dim]);
  }

  /** Sizes with a product above one include one above one; its leading product is then above one too. */
  lemma {:induction false} SomeLargeDim(dims: Shape) returns (i: nat)
    requires AllPositive(dims) && Prod(dims) > 1
    ensures i < |dims| && dims[i] > 1 && Prod(dims[..i + 1]) >= 2
  {
    var n := |dims| - 1;
    if dims[n] > 1 {
      i := n;
      assert dims[..n + 1] == dims;
    } else {
      i := SomeLargeDim(dims[..n]);
      assert dims[..n][..i + 1] == dims[..i + 1];
    }
  }

  /** `dimSplit` keeps every element's address exactly when the split stride is not negative or nothing is split. */
  lemma SplitKeepsAddresses(shape: Shape, strides: Strides, dim: nat, dims: Shape)
    requires |shape| == |strides| && AllPositive(shape) && dim < |shape|
    requires Prod(dims) == shape[dim] && SpanFits(strides[dim], shape[dim])
    ensures AllPositive(dims)
    ensures SameAddresses(shape, strides, SplitShape(shape, dim, dims), SplitStrides(shape, strides, dim, dims))
            <==> strides[dim] >= 0 || shape[dim] == 1
  {
    ProdPositive(dims);
    if strides[dim] >= 0 || shape[dim] == 1 {
      PartsAddress(strides[dim], dims);
      assert shape == shape[..dim] + [shape[dim]] + shape[dim + 1..];
      assert strides == strides[..dim] + [strides[dim]] + strides[dim + 1..];
      ReplaceInside(shape[..dim], strides[..dim], [shape[dim]], [strides[dim]],
                    dims, PartStrides(strides[dim], shape[dim], dims), shape[dim + 1..], strides[dim + 1..]);
    } else {
      NegativeSplitMisplaces(shape, strides, dim, dims);
    }
  }

  /** Merging the parts of a split gives back the descriptor that was split. */
  lemma SplitThenMerge(shape: Shape, strides: Strides, dim: nat, dims: Shape)
    requires |shape| == |strides| && dim < |shape| && dims != [] && AllPositive(dims)
    requires Prod(dims) == shape[dim] && SpanFits(strides[dim], shape[dim]) && strides[dim] >= 0
    ensures
      var split, splitStrides := SplitShape(shape, dim, dims), SplitStrides(shape, strides, dim, dims);
      var end := dim + |dims| - 1;
      && MergeAllowed(split, splitStrides, dim, end)
      && MergedShape(split, dim, end) == shape
      && MergedStrides(splitStrides, dim, end) == strides
  {
    var split, splitStrides := SplitShape(shape, dim, dims), SplitStrides(shape, strides, dim, dims);
    var parts := PartStrides(strides[dim], shape[dim], dims);
    SplitContinues(strides[dim], shape[dim], dims);
    var end := dim + |dims| - 1;
    Sections(shape[..dim], dims, shape[dim + 1..]);
    Sections(strides[..dim], parts, strides[dim + 1..]);
    Rejoin(shape, dim);
    Rejoin(strides, dim);
  }

  lemma Rejoin<T>(s: seq<T>, i: nat)
    requires i < |s|
    ensures s == s[..i] + [s[i]] + s[i + 1..]
  {
  }

  lemma Sections<T>(a: seq<T>, b: seq<T>, c: seq<T>)
    ensures
      var s, i, j := a + b + c, |a|, |a| + |b|;
      s[..i] == a && s[i..j] == b && s[j..] == c && (b != [] ==> s[j - 1] == b[|b| - 1])
  {
  }

  // ---- permuting ----

  lemma {:induction false} OffsetIsSum(index: seq<nat>, strides: Strides)
    requires |index| == |strides|
    ensures Offset(index, strides) as real
         == Sum(seq(|index|, i requires 0 <= i < |index| => (index[i] * strides[i]) as real))
  {
    if index != [] {
      var n := |index| - 1;
      OffsetIsSum(index[..n], strides[..n]);
      var terms := seq(|index|, i requires 0 <= i < |index| => (index[i] * strides[i]) as real);
      assert terms[..n] == seq(n, i requires 0 <= i < n => (index[..n][i] * strides[..n][i]) as real);
    }
  }

  /** A permuted index addresses through the permuted strides what the index addresses through the old ones. */
  lemma PermuteKeepsOffsets(order: seq<nat>, shape: Shape, strides: Strides, index: seq<nat>)
    requires IsPermutation(order) && |order| == |shape| == |strides| == |index|
    ensures Offset(Reorder(order, index), Reorder(order, strides)) == Offset(index, strides)
    ensures InBox(Reorder(order, index), Reorder(order, shape)) <==> InBox(index, shape)
  {
    var terms := seq(|index|, i requires 0 <= i < |index| => (index[i] * strides[i]) as real);
    OffsetIsSum(index, strides);
    OffsetIsSum(Reorder(order, index), Reorder(order, strides));
    assert Reorder(order, terms)
        == seq(|index|, i requires 0 <= i < |index| => (Reorder(order, index)[i] * Reorder(order, strides)[i]) as real);
    SumReordered(order, terms);
    if InBox(Reorder(order, index), Reorder(order, shape)) {
      forall j | 0 <= j < |shape|
        ensures index[j] < shape[j]
      {
        CoveringIsPermutation(order);
        var i := Position(order, j);
        assert Reorder(order, index)[i] < Reorder(order, shape)[i];
      }
    }
  }

  /** Permuting by the inverse order gives back shape and strides. */
  lemma PermuteUndone(order: seq<nat>, shape: Shape, strides: Strides)
    requires IsPermutation(order) && |order| == |shape| == |strides|
    ensures Reorder(Inverse(order), Reorder(order, shape)) == shape
    ensures Reorder(Inverse(order), Reorder(order, strides)) == strides
  {
    InverseUndoes(order, shape);
    InverseUndoes(order, strides);
  }

  /** The stride loop of the split; `None` when a leading product is zero. */
  method SplitParts(stride: int, size: nat, dims: Shape) returns (parts: Option<Strides>)
    ensures parts.Some? <==> AllPositive(dims)
    ensures parts.Some? ==> parts.value == PartStrides(stride, size, dims)
  {
    var strides := [];
    for i := 0 to |dims|
      invariant AllPositive(dims[..i])
      invariant strides == PartStrides(stride, size, dims[..i])
    {
      var leading := Prod(dims[..i + 1]);
      ProdPositive(dims[..i + 1]);
      if leading == 0 {
        assert !AllPositive(dims);
        return None;
      }
      assert dims[..i + 1] == dims[..i] + [dims[i]];
      PartStridesSnoc(stride, size, dims[..i], dims[i]);
      strides := strides + [SplitStride(stride, size, leading)];
    }
    assert dims[..|dims|] == dims;
    return Some(strides);
  }

  // ---- the descriptor ----

  class TensorDesc {
    var shape: Shape
    var strides: Strides

    predicate Valid()
      reads this
    {
      |shape| == |strides|
    }

    constructor (shape: Shape, strides: Strides)
      requires |shape| == |strides|
      ensures Valid() && this.shape == shape && this.strides == strides
    {
      this.shape := shape;
      this.strides := strides;
    }

    method DimMerge(dimStart: nat, dimEnd: nat) returns (ok: bool)
      requires Valid()
      modifies this
      ensures Valid()
      ensures ok <==> MergeAllowed(old(shape), old(strides), dimStart, dimEnd)
      ensures !ok ==> shape == old(shape) && strides == old(strides)
      ensures ok ==>
                && shape == MergedShape(old(shape), dimStart, dimEnd)
                && strides == MergedStrides(old(strides), dimStart, dimEnd)
      ensures ok ==>
                && Spliced(old(shape), dimStart, dimEnd - dimStart + 1, [Prod(old(shape)[dimStart..dimEnd + 1])], shape)
                && Spliced(old(strides), dimStart, dimEnd - dimStart + 1, [old(strides)[dimEnd]], strides)
      ensures ok && AllPositive(old(shape)) ==>
                AllPositive(shape) && SameAddresses(old(shape), old(strides), shape, strides)
    {
      if !(dimStart <= dimEnd < |shape|) {
        return false;
      }
      if dimStart == dimEnd {
        MergeOfOne(shape, strides, dimStart);
        return true;
      }
      var continues := CheckRun(dimStart, dimEnd);
      if !continues {
        return false;
      }
      MergedAll(shape, strides, dimStart, dimEnd);
      shape, strides := MergedShape(shape, dimStart, dimEnd), MergedStrides(strides, dimStart, dimEnd);
      return true;
    }

    /** The loop that compares each stride with the next. */
    method CheckRun(dimStart: nat, dimEnd: nat) returns (continues: bool)
      requires Valid() && dimStart <= dimEnd < |shape|
      ensures continues <==> MergeAllowed(shape, strides, dimStart, dimEnd)
    {
      ghost var run, runStrides := shape[dimStart..dimEnd + 1], strides[dimStart..dimEnd + 1];
      for i := dimStart + 1 to dimEnd + 1
        invariant forall j :: 0 < j < i - dimStart ==> runStrides[j - 1] == run[j] * runStrides[j]
      {
        assert runStrides[i - dimStart - 1] == strides[i - 1] && runStrides[i - dimStart] == strides[i];
        if strides[i - 1] != shape[i] * strides[i] {
          assert run[i - dimStart] == shape[i];
          return false;
        }
      }
      return true;
    }

    /** `None` on success. The shape is read at `dim` unchecked. */
    method DimSplit(dim: nat, dims: Shape) returns (failure: Option<Failure>)
      requires Valid()
      modifies this
      ensures Valid()
      ensures failure.None? <==> dim < |old(shape)| && Prod(dims) == old(shape)[dim] && old(shape)[dim] > 0
      ensures failure.Some? ==> shape == old(shape) && strides == old(strides)
      ensures failure.None? ==>
                && AllPositive(dims)
                && shape == SplitShape(old(shape), dim, dims)
                && strides == SplitStrides(old(shape), old(strides), dim, dims)
      ensures failure.None? ==>
                && Spliced(old(shape), dim, 1, dims, shape)
                && |strides| == |shape| && Spliced(old(strides), dim, 1, strides[dim..dim + |dims|], strides)
                && (old(strides)[dim] >= 0 && SpanFits(old(strides)[dim], old(shape)[dim]) ==>
                    Dense(dims, strides[dim..dim + |dims|], old(strides)[dim]))
      ensures failure.None? && AllPositive(old(shape)) && SpanFits(old(strides)[dim], old(shape)[dim]) ==>
                && AllPositive(shape)
                && (SameAddresses(old(shape), old(strides), shape, strides)
                    <==> old(strides)[dim] >= 0 || old(shape)[dim] == 1)
    {
      if dim >= |shape| {
        return Some(Undefined); // read past the end of the shape
      }
      if shape[dim] != Prod(dims) {
        return Some(AssertionFailed);
      }
      ProdPositive(dims);
      if AllPositive(shape) && SpanFits(strides[dim], shape[dim]) {
        SplitKeepsAddresses(shape, strides, dim, dims);
      }
      var parts := SplitParts(strides[dim], shape[dim], dims);
      if parts.None? {
        return Some(Undefined); // division by zero
      }
      PartsAre(strides[dim], shape[dim], dims);
      SplicedIn(shape, dim, 1, dims);
      SplicedIn(strides, dim, 1, parts.value);
      shape, strides := shape[..dim] + dims + shape[dim + 1..], strides[..dim] + parts.value + strides[dim + 1..];
      return None;
    }

    /**
     `None` on success. Each step first looks i up in the order and then reads entry order[i],
     which may lie outside before a later step would have failed its assertion.
     */
    method Permute(order: seq<nat>) returns (failure: Option<Failure>)
      requires Valid()
      modifies this
      ensures Valid()
      ensures failure.None? <==> |order| == |old(shape)| && IsPermutation(order)
      ensures failure.Some? ==> shape == old(shape) && strides == old(strides)
      ensures failure.None? ==> shape == Reorder(order, old(shape)) && strides == Reorder(order, old(strides))
      ensures failure.None? ==> forall i :: 0 <= i < |order| ==>
                shape[i] == old(shape)[order[i]] && strides[i] == old(strides)[order[i]]
    {
      CoveringIsPermutation(order);
      if |shape| != |order| {
        return Some(AssertionFailed);
      }
      var oldShape, oldStrides := shape, strides;
      var newShape: Shape := seq(|order|, _ => 0);
      var newStrides: Strides := seq(|order|, _ => 0);
      for i := 0 to |order|
        invariant |newShape| == |newStrides| == |order|
        invariant forall j: nat :: j < i ==> j in order && order[j] < |order|
        invariant forall j :: 0 <= j < i ==> newShape[j] == oldShape[order[j]] && newStrides[j] == oldStrides[order[j]]
      {
        if i !in order {
          return Some(AssertionFailed);
        }
        if order[i] >= |oldShape| {
          return Some(Undefined); // read past the end of the shape
        }
        newShape := newShape[i := oldShape[order[i]]];
        newStrides := newStrides[i := oldStrides[order[i]]];
      }
      shape, strides := newShape, newStrides;
      return None;
    }
  }
}
