/**
 Conversion of a loaded AWQ or GPTQ layer to the Marlin format: the guard, then parameter after
 parameter (csrc/layers/quantization/awq.cpp, csrc/layers/quantization/gptq.cpp).
 */
module MarlinConvert {
  import opened DivMod
  import opened BitFields
  import opened MarlinTiles
  import opened MarlinColumns
  import opened ActOrder
  import opened Results

  /** `supports_shape` */
  predicate SupportsShape(input: nat, output: nat, groupSize: int) {
    && output % 64 == 0 && input % 128 == 0
    && groupSize in {-1, 32, 64, 128}
    && (groupSize == -1 || input % groupSize == 0)
  }

  /** Every size that a later step checks follows from the guard. */
  lemma SupportedSizes(input: nat, output: nat, groupSize: int)
    requires SupportsShape(input, output, groupSize)
    ensures Format(input, output, 4).Valid() && Format(input, output, 8).Valid()
    ensures PosIn(output, 4) == 0 && PosIn(output, 8) == 0 && PosIn(input, 4) == 0 && PosIn(input, 8) == 0
    ensures groupSize != -1 ==> Times(input / groupSize, output) % 64 == 0
  {
    DivModIdentity(input, 128);
    DivModUnique(input, 16, input / 128 * 8, 0);
    DivModUnique(input, 64, input / 128 * 2, 0);
    WholeWordRows(input, 4);
    WholeWordRows(input, 8);
    WholeWordRows(output, 4);
    WholeWordRows(output, 8);
    if groupSize != -1 {
      RowsOfBlocks(input / groupSize, output, 64);
    }
  }

  /**
   For a supported shape the permutations of scales and of zero points keep every element in its row:
   (r, c) of the permuted matrix is an element of row r of the matrix that was loaded.
   */
  lemma SupportedStaysInRow<T>(input: nat, output: nat, groupSize: int, scales: Scales<T>, qzeros: Matrix, r: nat,
                               c: nat)
    requires SupportsShape(input, output, groupSize) && scales.cols == output
    requires |scales.data| == Times(scales.rows, output)
    requires qzeros.Valid() && qzeros.rows == scales.rows && qzeros.cols == WordsFor(output, 4)
    requires r < scales.rows && c < output
    ensures
      var perm := ScaleOrder(input, groupSize);
      && Blocks(scales.data, perm) && Source(c, perm) < output
      && At(r, output, c) < |scales.data| && At(r, output, Source(c, perm)) < |scales.data|
      && BlockPermuted(scales.data, perm)[At(r, output, c)] == scales.data[At(r, output, Source(c, perm))]
    ensures
      && WholeBlocks(qzeros.data, 4) && ZeroColumn(c, 4) < output
      && At(r, WordsFor(output, 4), WordsFor(c, 4)) < |qzeros.data|
      && AwqWord(output, r, ZeroColumn(c, 4), 4) < |qzeros.data|
      && Field(ZeroPoints(qzeros.data, 4)[At(r, WordsFor(output, 4), WordsFor(c, 4))], 4, PosIn(c, 4))
           == AwqValue(qzeros.data, output, r, ZeroColumn(c, 4), 4)
  {
    ScalesKept(scales, input, groupSize, ScaleOrder(input, groupSize), r, c);
    WholeWordRows(output, 4);
    RowsOfBlocks(qzeros.rows, output, 64);
    PackedSize(qzeros.rows, output, 4);
    ZeroPointAt(qzeros.data, 4, qzeros.rows, output, r, c);
  }

  /**
   In AWQ, the zero point at every position of the result comes from the same column as the scale that is meant
   for it exactly when the group size is neither -1 nor the number of rows: for one group over all rows the
   scales are put into the other order, the zero points are not.
   */
  lemma OneColumnOrderExactly(input: nat, output: nat, groupSize: int)
    requires SupportsShape(input, output, groupSize) && output > 0
    ensures
      (forall c: nat :: c < output ==> ZeroColumn(c, 4) == Source(Source(c, PackIdx(4)), ScaleOrder(input, groupSize)))
      <==> groupSize != -1 && groupSize < input
  {
    // position 1 holds column 2, and the two orders differ there
    SourceOfFields(1);
    GroupedSource(2);
    SingleSource(2);
  }

  /** The division of the inputs into groups never decides: every size that is allowed divides 128. */
  lemma SupportedExactly(input: nat, output: nat, groupSize: int)
    ensures SupportsShape(input, output, groupSize)
       <==> output % 64 == 0 && input % 128 == 0
            && (groupSize == -1 || groupSize == 32 || groupSize == 64 || groupSize == 128)
  {
    if input % 128 == 0 {
      DivModIdentity(input, 128);
      DivModUnique(input, 32, input / 128 * 4, 0);
      DivModUnique(input, 64, input / 128 * 2, 0);
    }
  }

  /** What a load that changes the layer step by step has come to. */
  datatype Outcome = Untouched | Converted | Failed(error: Failure)

  // ---- AWQ ----

  /** The number of groups that the conversion expects. */
  function Groups(input: nat, groupSize: int): nat
    requires groupSize > 0 || (groupSize == -1 && input > 0)
  {
    if groupSize == -1 then 1 else input / groupSize
  }

  /** The conversion's verdict on a layer, from the shapes it was loaded with. */
  function AwqOutcome(nvidia: bool, bits: nat, groupSize: int, qweight: Matrix, scaleCount: nat,
                      qzeros: Matrix): Outcome {
    var input, output := qweight.rows, qweight.cols * 8;
    if !nvidia || bits != 4 || !SupportsShape(input, output, groupSize) then Untouched
    else if scaleCount % |ScaleOrder(input, groupSize)| != 0 then Failed(AssertionFailed)
    else if groupSize == -1 && input == 0 then Failed(Undefined)
    else if qzeros.rows != Groups(input, groupSize) || qzeros.cols != qweight.cols then Failed(AssertionFailed)
    else Outcome.Converted
  }

  class AwqLayer<T(0)> {
    const nvidia: bool
    const kernel: AwqKernel
    const bits: nat
    const groupSize: int
    var qweight: Matrix
    var scales: Scales<T>
    var qzeros: Matrix

    constructor (nvidia: bool, kernel: AwqKernel, bits: nat, groupSize: int,
                 qweight: Matrix, scales: Scales<T>, qzeros: Matrix)
      ensures this.nvidia == nvidia && this.kernel == kernel && this.bits == bits && this.groupSize == groupSize
      ensures this.qweight == qweight && this.scales == scales && this.qzeros == qzeros
    {
      this.nvidia, this.kernel, this.bits, this.groupSize := nvidia, kernel, bits, groupSize;
      this.qweight, this.scales, this.qzeros := qweight, scales, qzeros;
    }

    /**
     A failure can come after the weights, or the weights and the scales, have been replaced: then they
     stay converted while the zero points are not.
     */
    method ProcessWeightsAfterLoading() returns (r: Outcome)
      requires qweight.Valid() && qzeros.Valid()
      modifies this
      ensures r == AwqOutcome(nvidia, bits, groupSize, old(qweight), |old(scales).data|, old(qzeros))
      ensures !r.Untouched? <==>
              && nvidia && bits == 4 && old(qweight).cols * 8 % 64 == 0 && old(qweight).rows % 128 == 0
              && (groupSize == -1 || groupSize == 32 || groupSize == 64 || groupSize == 128)
      ensures r.Untouched? ==> qweight == old(qweight) && scales == old(scales) && qzeros == old(qzeros)
      ensures !r.Untouched? ==>
        var fmt := Format(old(qweight).rows, old(qweight).cols * 8, 4);
        && fmt.Valid() && qweight == kernel(old(qweight), fmt)
        && (RepacksAwq(kernel) ==> Restores(qweight, fmt, AwqGetter(old(qweight).data, fmt)))
      ensures !r.Untouched? ==>
        var perm := ScaleOrder(old(qweight).rows, groupSize);
        if |old(scales).data| % |perm| != 0 then
          scales == old(scales)
        else
          && Blocks(old(scales).data, perm)
          && scales == Scales(old(scales).rows, old(qweight).cols * 8, BlockPermuted(old(scales).data, perm))
      ensures r.Converted? ==>
        WholeBlocks(old(qzeros).data, 4)
            && qzeros == Matrix(old(qzeros).rows, old(qzeros).cols, ZeroPoints(old(qzeros).data, 4))
      ensures !r.Converted? ==> qzeros == old(qzeros)
    {
      if !nvidia || bits != 4 {
        return Untouched;
      }
      var input, output := qweight.rows, qweight.cols * 8;
      SupportedExactly(input, output, groupSize);
      if !SupportsShape(input, output, groupSize) {
        return Untouched;
      }
      SupportedSizes(input, output, groupSize);
      var fmt := Format(input, output, 4);
      assert WordsFor(output, 4) == qweight.cols;
      var weights := AwqMarlinRepack(qweight, fmt, Some(kernel));
      qweight := weights.value;
      var permuted := PermuteScales(scales, input, output, groupSize);
      if permuted.Err? {
        return Failed(AssertionFailed);
      }
      scales := permuted.value;
      if groupSize == -1 && input == 0 {
        return Failed(Undefined); // division by zero
      }
      var groups := Groups(input, groupSize);
      RowsOfBlocks(groups, output, 64);
      var zeros := AwqToMarlinZeroPoints(qzeros, groups, output, 4);
      if zeros.Err? {
        return Failed(AssertionFailed);
      }
      qzeros := zeros.value;
      r := Outcome.Converted;
    }
  }

  /** Rows of scales and zero points that are allocated: `size_t / int` makes -1 the largest 64-bit number. */
  function LayoutRows(input: nat, groupSize: int): nat
    requires groupSize != 0 && -0x1_0000_0000_0000_0000 < groupSize
  {
    input / (if groupSize < 0 then groupSize + 0x1_0000_0000_0000_0000 else groupSize)
  }

  /**
   A layer allocated by `get_param_layout` and accepted by the guard is converted exactly when its group
   size is not -1: for -1 no row of zero points is allocated where the conversion expects one.
   */
  lemma LayoutConvertsExactly(input: nat, output: nat, groupSize: int, qweight: Matrix, scaleCount: nat, qzeros: Matrix)
    requires 0 < input < 0xFFFF_FFFF_FFFF_FFFF && output % 8 == 0 && SupportsShape(input, output, groupSize)
    requires qweight.rows == input && qweight.cols == output / 8
    requires scaleCount == Times(LayoutRows(input, groupSize), output)
    requires qzeros.rows == LayoutRows(input, groupSize) && qzeros.cols == output / 8
    ensures AwqOutcome(true, 4, groupSize, qweight, scaleCount, qzeros).Converted? <==> groupSize != -1
  {
    assert qweight.cols * 8 == output;
    DivModIdentity(output, 64);
    DivModUnique(output, 32, output / 64 * 2, 0);
    var rows := LayoutRows(input, groupSize);
    RowsOfBlocks(rows, output, 64);
    RowsOfBlocks(rows, output, 32);
    if groupSize == -1 {
      DivModUnique(input, 0xFFFF_FFFF_FFFF_FFFF, 0, input);
    }
  }

  // ---- GPTQ ----

  /** The conversion's verdict on a layer, from the shapes it was loaded with. */
  function GptqOutcome(nvidia: bool, bits: nat, sym: bool, descAct: bool, groupSize: int, qweight: Matrix,
                       scaleCount: nat, groups: nat): Outcome {
    var input, output := qweight.rows * 8, qweight.cols;
    if !nvidia || bits != 4 || !sym || !SupportsShape(input, output, groupSize) then Untouched
    else if descAct && groups != 0 && groups != input then Failed(AssertionFailed)
    else if scaleCount % |ScaleOrder(input, groupSize)| != 0 then Failed(AssertionFailed)
    else Outcome.Converted
  }

  class GptqLayer<T(0)> {
    const nvidia: bool
    const kernel: GptqKernel
    const bits: nat
    const sym: bool
    const descAct: bool
    const groupSize: int
    var qweight: Matrix
    var scales: Scales<T>
    var gIdx: seq<int>
    var perm: seq<nat>

    constructor (nvidia: bool, kernel: GptqKernel, bits: nat, sym: bool, descAct: bool, groupSize: int,
                 qweight: Matrix, scales: Scales<T>, gIdx: seq<int>)
      ensures this.nvidia == nvidia && this.kernel == kernel && this.bits == bits && this.sym == sym
      ensures this.descAct == descAct && this.groupSize == groupSize
      ensures this.qweight == qweight && this.scales == scales && this.gIdx == gIdx && perm == []
    {
      this.nvidia, this.kernel, this.bits, this.sym := nvidia, kernel, bits, sym;
      this.descAct, this.groupSize := descAct, groupSize;
      this.qweight, this.scales, this.gIdx, this.perm := qweight, scales, gIdx, [];
    }

    /**
     With act-order, afterwards the stored permutation, groups and weights belong together; without it
     the weights are repacked in their own row order.
     */
    method ProcessWeightsAfterLoading() returns (r: Outcome)
      requires qweight.Valid()
      modifies this
      ensures r == GptqOutcome(nvidia, bits, sym, descAct, groupSize, old(qweight), |old(scales).data|, |old(gIdx)|)
      ensures !r.Untouched? <==>
              && nvidia && bits == 4 && sym && old(qweight).cols % 64 == 0 && old(qweight).rows * 8 % 128 == 0
              && (groupSize == -1 || groupSize == 32 || groupSize == 64 || groupSize == 128)
      ensures r.Untouched? ==>
                qweight == old(qweight) && scales == old(scales) && gIdx == old(gIdx) && perm == old(perm)
      ensures r.Converted? ==>
        var fmt := Format(old(qweight).rows * 8, old(qweight).cols, 4);
        && fmt.Valid() && qweight == kernel(old(qweight), perm, fmt)
        && (RepacksGptq(kernel) ==> Restores(qweight, fmt, GptqGetter(old(qweight).data, perm, fmt)))
        && (RepacksGptq(kernel) && descAct && old(gIdx) != [] ==>
              ActOrder.Converted(old(qweight), qweight, fmt, old(gIdx), perm, gIdx))
        && (!descAct ==> perm == [] && gIdx == [])
      // what a failure leaves behind: sorted groups, and repacked weights if the scales were to blame
      ensures r.Failed? ==> scales == old(scales)
      ensures r.Failed? && descAct ==> StablySorted(old(gIdx), perm) && |gIdx| == |perm|
      ensures r.Failed? ==>
        var fmt := Format(old(qweight).rows * 8, old(qweight).cols, 4);
        if descAct && old(gIdx) != [] && |old(gIdx)| != fmt.sizeK then qweight == old(qweight)
        else fmt.Valid() && qweight == kernel(old(qweight), perm, fmt)
      ensures r.Converted? ==>
        var order := ScaleOrder(old(qweight).rows * 8, groupSize);
        Blocks(old(scales).data, order)
            && scales == Scales(old(scales).rows, old(qweight).cols, BlockPermuted(old(scales).data, order))
    {
      if !nvidia || bits != 4 || !sym {
        return Untouched;
      }
      var input, output := qweight.rows * 8, qweight.cols;
      SupportedExactly(input, output, groupSize);
      if !SupportsShape(input, output, groupSize) {
        return Untouched;
      }
      SupportedSizes(input, output, groupSize);
      if descAct {
        perm, gIdx := SortGIdx(gIdx);
      } else {
        perm, gIdx := [], [];
      }
      var fmt := Format(input, output, 4);
      assert WordsFor(input, 4) == qweight.rows;
      var weights := GptqMarlinRepack(qweight, perm, fmt, Some(kernel));
      if weights.Err? {
        return Failed(AssertionFailed);
      }
      qweight := weights.value;
      var permuted := PermuteScales(scales, input, output, groupSize);
      if permuted.Err? {
        return Failed(AssertionFailed);
      }
      scales := permuted.value;
      r := Outcome.Converted;
    }
  }

  /**
   A GPTQ layer allocated by `get_param_layout` and accepted by the guard is always reported as
   converted; for group size -1 it has no scales at all.
   */
  lemma GptqLayoutConverts(input: nat, output: nat, groupSize: int, descAct: bool, qweight: Matrix, scaleCount: nat)
    requires input < 0xFFFF_FFFF_FFFF_FFFF && SupportsShape(input, output, groupSize)
    requires qweight.rows == input / 8 && qweight.cols == output
    requires scaleCount == Times(LayoutRows(input, groupSize), output)
    ensures GptqOutcome(true, 4, true, descAct, groupSize, qweight, scaleCount, input).Converted?
    ensures input > 0 ==> (scaleCount == 0 <==> groupSize == -1 || output == 0)
  {
    SupportedSizes(input, output, groupSize);
    assert qweight.rows * 8 == input by { InItsWord(input, 4); }
    var rows := LayoutRows(input, groupSize);
    RowsOfBlocks(rows, output, 64);
    DivModIdentity(output, 64);
    DivModUnique(output, 32, output / 64 * 2, 0);
    RowsOfBlocks(rows, output, 32);
    if groupSize == -1 {
      DivModUnique(input, 0xFFFF_FFFF_FFFF_FFFF, 0, input);
    } else if input > 0 {
      DivModIdentity(input, groupSize);
      NoRowsNoScales(rows, output);
    }
  }

  lemma NoRowsNoScales(rows: nat, cols: nat)
    ensures Times(rows, cols) == 0 <==> rows == 0 || cols == 0
  {
  }

  /** The smallest such layer: 128 inputs and 64 outputs, converted without a scale. */
  lemma GptqWithoutScales()
    ensures SupportsShape(128, 64, -1) && LayoutRows(128, -1) == 0
    ensures GptqOutcome(true, 4, true, false, -1, Matrix(16, 64, seq(1024, _ => 0)), 0, 128).Converted?
  {
  }

  /** The same layer in AWQ fails after its weights and scales have been replaced. */
  lemma AwqFailsHalfway()
    ensures SupportsShape(128, 64, -1) && LayoutRows(128, -1) == 0
    ensures AwqOutcome(true, 4, -1, Matrix(128, 8, seq(1024, _ => 0)), 0, Matrix(0, 8, [])) == Failed(AssertionFailed)
  {
  }
}
