/**
 Shapes, strides and storage addresses (src/tensor.hpp, src/tensor/tensor.cpp).

 A tensor element has a row-major linear index; its storage offset is the sum of
 digit times stride over the dimensions, the last dimension holding the lowest digit.
 */
module Shapes {
  import opened DivMod

  type Shape = seq<nat>
  type Strides = seq<int>

  /** Number of elements. */
  function Prod(shape: Shape): (p: nat)
  {
    if shape == [] then 1 else Prod(shape[..|shape| - 1]) * shape[|shape| - 1]
  }

  predicate AllPositive(shape: Shape) {
    forall i :: 0 <= i < |shape| ==> shape[i] > 0
  }

  /** Storage offset, relative to the tensor's own offset, of row-major linear index l. */
  function Address(shape: Shape, strides: Strides, l: nat): int
    requires |shape| == |strides| && AllPositive(shape)
  {
    if shape == [] then 0
    else
      var n := |shape| - 1;
      Address(shape[..n], strides[..n], l / shape[n]) + (l % shape[n]) * strides[n]
  }

  /** Both tensors hold the same elements at the same storage offsets, in the same order. */
  ghost predicate SameAddresses(shape: Shape, strides: Strides, shape': Shape, strides': Strides)
    requires |shape| == |strides| && AllPositive(shape)
    requires |shape'| == |strides'| && AllPositive(shape')
  {
    && Prod(shape) == Prod(shape')
    && forall l: nat :: l < Prod(shape) ==> Address(shape, strides, l) == Address(shape', strides', l)
  }

  lemma {:induction false} ProdPositive(shape: Shape)
    ensures AllPositive(shape) <==> Prod(shape) > 0
  {
    if shape != [] {
      var n := |shape| - 1;
      ProdPositive(shape[..n]);
      if AllPositive(shape) {
        assert AllPositive(shape[..n]);
        MulLe(1, Prod(shape[..n]), shape[n]);
      } else if shape[n] > 0 {
        var i :| 0 <= i < |shape| && shape[i] == 0;
        assert shape[..n][i] == 0;
      }
    }
  }

  lemma ProdSnoc(shape: Shape, d: nat)
    ensures Prod(shape + [d]) == Prod(shape) * d
  {
    assert (shape + [d])[..|shape|] == shape;
  }

  lemma ProdPrefix(shape: Shape, i: nat)
    requires i < |shape|
    ensures Prod(shape[..i + 1]) == Prod(shape[..i]) * shape[i]
  {
    assert shape[..i + 1] == shape[..i] + [shape[i]];
    ProdSnoc(shape[..i], shape[i]);
  }

  lemma {:induction false} ProdConcat(a: Shape, b: Shape)
    ensures Prod(a + b) == Prod(a) * Prod(b)
  {
    if b == [] {
      assert a + b == a;
    } else {
      var n := |b| - 1;
      assert (a + b)[..|a| + n] == a + b[..n];
      ProdConcat(a, b[..n]);
      MulAssoc(Prod(a), Prod(b[..n]), b[n]);
    }
  }

  lemma ProdSplit(shape: Shape, i: nat)
    requires i <= |shape|
    ensures Prod(shape) == Prod(shape[..i]) * Prod(shape[i..])
  {
    assert shape == shape[..i] + shape[i..];
    ProdConcat(shape[..i], shape[i..]);
  }

  lemma AddressSnoc(shape: Shape, strides: Strides, d: nat, s: int, l: nat)
    requires |shape| == |strides| && AllPositive(shape) && d > 0
    ensures AllPositive(shape + [d])
    ensures Address(shape + [d], strides + [s], l) == Address(shape, strides, l / d) + (l % d) * s
  {
    assert (shape + [d])[..|shape|] == shape;
    assert (strides + [s])[..|shape|] == strides;
  }

  /** Two innermost dimensions of sizes c and n with strides n * s and s act as one of size c * n. */
  lemma MergeInnermost(shape: Shape, strides: Strides, c: nat, n: nat, s: int, l: nat)
    requires |shape| == |strides| && AllPositive(shape) && c > 0 && n > 0
    ensures c * n > 0 && AllPositive(shape + [c * n]) && AllPositive(shape + [c] + [n])
    ensures Address(shape + [c] + [n], strides + [n * s] + [s], l) == Address(shape + [c * n], strides + [s], l)
  {
    TwoDigits(l, c, n);
    AddressSnoc(shape, strides, c, n * s, l / n);
    AddressSnoc(shape + [c], strides + [n * s], n, s, l);
    AddressSnoc(shape, strides, c * n, s, l);
    var q := (l / n) % c;
    calc {
      Address(shape + [c] + [n], strides + [n * s] + [s], l);
      Address(shape, strides, l / n / c) + q * (n * s) + (l % n) * s;
      { MulAssoc(q, n, s); }
      Address(shape, strides, l / n / c) + (q * n) * s + (l % n) * s;
      { MulDistributes(q * n, l % n, s); }
      Address(shape, strides, l / (c * n)) + (l % (c * n)) * s;
    }
  }

  // ---- row-major strides ----

  /** The stride of dimension i is the number of elements in the dimensions after it. */
  ghost predicate IsRowMajor(shape: Shape, strides: Strides)
    requires |shape| == |strides|
  {
    forall i :: 0 <= i < |shape| ==> strides[i] == Prod(shape[i + 1..])
  }

  lemma ProdSuffix(shape: Shape, i: nat)
    requires i < |shape|
    ensures Prod(shape[i..]) == shape[i] * Prod(shape[i + 1..])
  {
    assert shape[i..] == [shape[i]] + shape[i + 1..];
    ProdConcat([shape[i]], shape[i + 1..]);
    assert [shape[i]][..0] == [];
    assert Prod([shape[i]]) == Prod([]) * shape[i];
  }

  /** Scaling every stride scales every address. */
  lemma {:induction false} AddressScaled(shape: Shape, strides: Strides, scaled: Strides, m: nat, l: nat)
    requires |shape| == |strides| == |scaled| && AllPositive(shape)
    requires forall i :: 0 <= i < |shape| ==> scaled[i] == strides[i] * m
    ensures Address(shape, scaled, l) == Address(shape, strides, l) * m
  {
    if shape != [] {
      var n := |shape| - 1;
      AddressScaled(shape[..n], strides[..n], scaled[..n], m, l / shape[n]);
      MulAssoc(l % shape[n], strides[n], m);
      MulDistributes(Address(shape[..n], strides[..n], l / shape[n]), (l % shape[n]) * strides[n], m);
    }
  }

  lemma RowMajorPrefix(shape: Shape, strides: Strides) returns (inner: Strides)
    requires |shape| == |strides| > 0 && IsRowMajor(shape, strides)
    ensures |inner| == |shape| - 1 && IsRowMajor(shape[..|shape| - 1], inner)
    ensures forall i :: 0 <= i < |inner| ==> strides[i] == inner[i] * shape[|shape| - 1]
    ensures strides[|shape| - 1] == 1
  {
    var n := |shape| - 1;
    inner := seq(n, i requires 0 <= i < n => Prod(shape[..n][i + 1..]));
    forall i | 0 <= i < n
      ensures strides[i] == inner[i] * shape[n]
    {
      assert shape[i + 1..] == shape[..n][i + 1..] + [shape[n]];
      ProdSnoc(shape[..n][i + 1..], shape[n]);
    }
    assert shape[n + 1..] == [];
  }

  /** Row-major strides place linear index l at offset l. */
  lemma {:induction false} RowMajorAddress(shape: Shape, strides: Strides, l: nat)
    requires |shape| == |strides| && AllPositive(shape) && IsRowMajor(shape, strides)
    requires l < Prod(shape)
    ensures Address(shape, strides, l) == l
  {
    if shape != [] {
      var n := |shape| - 1;
      var d := shape[n];
      var inner := RowMajorPrefix(shape, strides);
      QuotientBelow(l, Prod(shape[..n]), d);
      RowMajorAddress(shape[..n], inner, l / d);
      AddressScaled(shape[..n], inner, strides[..n], d, l / d);
      DivModIdentity(l, d);
    }
  }

  // ---- multi-dimensional indices ----

  predicate InBox(index: seq<nat>, shape: Shape) {
    |index| == |shape| && forall i :: 0 <= i < |shape| ==> index[i] < shape[i]
  }

  /** Storage offset of a multi-dimensional index. */
  function Offset(index: seq<nat>, strides: Strides): int
    requires |index| == |strides|
  {
    if index == [] then 0
    else
      var n := |index| - 1;
      Offset(index[..n], strides[..n]) + index[n] * strides[n]
  }

  function Digits(shape: Shape, l: nat): (index: seq<nat>)
    requires AllPositive(shape)
    ensures InBox(index, shape)
  {
    if shape == [] then []
    else
      var n := |shape| - 1;
      Digits(shape[..n], l / shape[n]) + [l % shape[n]]
  }

  /** The address of a linear index is the offset of its digits. */
  lemma {:induction false} AddressIsOffset(shape: Shape, strides: Strides, l: nat)
    requires |shape| == |strides| && AllPositive(shape)
    ensures Address(shape, strides, l) == Offset(Digits(shape, l), strides)
  {
    if shape != [] {
      var n := |shape| - 1;
      AddressIsOffset(shape[..n], strides[..n], l / shape[n]);
      assert Digits(shape, l)[..n] == Digits(shape[..n], l / shape[n]);
    }
  }
}
