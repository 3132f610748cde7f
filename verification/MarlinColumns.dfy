/**
 Column orders of scales, bias and zero points for the Marlin kernel: permutations of fixed blocks of
 consecutive elements, and the packing around them (csrc/layers/quantization/marlin_utils.cpp).
 */
module MarlinColumns {
  import opened DivMod
  import opened BitFields
  import opened Permutations
  import opened MarlinTiles
  import opened Results

  // ---- the permutations ----

  function ScaleBlock(): (perm: seq<nat>)
    ensures |perm| == 64
  {
    seq(64, p requires 0 <= p < 64 => p / 8 + 8 * (p % 8))
  }

  lemma ScaleBlockRange()
    ensures forall i :: 0 <= i < 64 ==> ScaleBlock()[i] < 64
  {
  }

  const SINGLE_OFFSETS: seq<nat> := [0, 1, 8, 9, 16, 17, 24, 25]

  function SingleBlock(): (perm: seq<nat>)
    ensures |perm| == 32
  {
    seq(32, p requires 0 <= p < 32 => 2 * (p / 8) + SINGLE_OFFSETS[p % 8])
  }

  method ScalePerm() returns (perm: seq<nat>)
    ensures perm == ScaleBlock()
  {
    perm := [];
    for i := 0 to 8
      invariant perm == ScaleBlock()[..8 * i]
    {
      for j := 0 to 8
        invariant perm == ScaleBlock()[..8 * i + j]
      {
        assert ScaleBlock()[8 * i + j] == i + 8 * j by { DivModUnique(8 * i + j, 8, i, j); }
        perm := perm + [i + 8 * j];
      }
    }
  }

  method ScalePermSingle() returns (perm: seq<nat>)
    ensures perm == SingleBlock()
  {
    perm := [];
    for i := 0 to 4
      invariant perm == SingleBlock()[..8 * i]
    {
      for t := 0 to 8
        invariant perm == SingleBlock()[..8 * i + t]
      {
        assert SingleBlock()[8 * i + t] == 2 * i + SINGLE_OFFSETS[t] by { DivModUnique(8 * i + t, 8, i, t); }
        perm := perm + [2 * i + SINGLE_OFFSETS[t]];
      }
    }
  }

  /** `q` undoes `p`, so both are permutations. */
  ghost predicate Undoes(q: seq<nat>, p: seq<nat>) {
    && |q| == |p| && (forall i :: 0 <= i < |p| ==> p[i] < |p|) && (forall i :: 0 <= i < |p| ==> q[i] < |p|)
    && (forall i :: 0 <= i < |p| ==> q[p[i]] == i)
  }

  lemma UndoneIsPermutation(q: seq<nat>, p: seq<nat>)
    requires Undoes(q, p)
    ensures IsPermutation(p) && q == Inverse(p) && Undoes(p, q)
  {
    forall i, j | 0 <= i < j < |p|
      ensures p[i] != p[j]
    {
      assert q[p[i]] == i && q[p[j]] == j;
    }
    var inv := Inverse(p);
    forall x | 0 <= x < |p|
      ensures q[x] == inv[x]
    {
      assert q[p[inv[x]]] == inv[x];
    }
  }

  /** Transposing an 8 x 8 block twice changes nothing. */
  lemma ScaleBlockUndone()
    ensures Undoes(ScaleBlock(), ScaleBlock())
  {
    forall p | 0 <= p < 64
      ensures ScaleBlock()[p] < 64 && ScaleBlock()[ScaleBlock()[p]] == p
    {
      var a, b := p / 8, p % 8;
      DivModUnique(a + 8 * b, 8, b, a);
    }
  }

  function SingleInverse(): (perm: seq<nat>)
    ensures |perm| == 32
  {
    seq(32, v requires 0 <= v < 32 => 8 * (v % 8 / 2) + 2 * (v / 8) + v % 2)
  }

  lemma OffsetDigits(t: nat)
    requires t < 8
    ensures SINGLE_OFFSETS[t] == 8 * (t / 2) + t % 2
  {
    if t == 0 {} else if t == 1 {} else if t == 2 {} else if t == 3 {}
    else if t == 4 {} else if t == 5 {} else if t == 6 {} else {}
  }

  lemma SingleBlockUndone()
    ensures Undoes(SingleInverse(), SingleBlock())
  {
    forall v | 0 <= v < 32
      ensures SingleInverse()[v] < 32
    {
    }
    forall p | 0 <= p < 32
      ensures SingleBlock()[p] < 32 && SingleInverse()[SingleBlock()[p]] == p
    {
      var i, t := p / 8, p % 8;
      OffsetDigits(t);
      SingleDigits(i, t / 2, t % 2, SingleBlock()[p]);
    }
  }

  lemma SingleDigits(i: nat, b: nat, l: nat, v: nat)
    requires i < 4 && b < 4 && l < 2 && v == 2 * i + (8 * b + l)
    ensures v < 32 && v % 8 / 2 == i && v / 8 == b && v % 2 == l
  {
    DivModUnique(v, 8, b, 2 * i + l);
    DivModUnique(2 * i + l, 2, i, l);
    DivModUnique(v, 2, i + 4 * b, l);
  }

  /** The order in which fields are packed and the one in which AWQ keeps columns undo each other. */
  lemma InterleaveUndone(bits: nat)
    requires Width(bits)
    ensures Undoes(Undo(bits), PackIdx(bits)) && Undoes(PackIdx(bits), Undo(bits))
  {
    if bits == 4 {
      InterleaveOf4();
    } else {
      InterleaveOf8();
    }
  }

  lemma InterleaveOf4()
    ensures Undoes([0, 4, 1, 5, 2, 6, 3, 7], [0, 2, 4, 6, 1, 3, 5, 7])
    ensures Undoes([0, 2, 4, 6, 1, 3, 5, 7], [0, 4, 1, 5, 2, 6, 3, 7])
  {
  }

  lemma InterleaveOf8()
    ensures Undoes([0, 2, 1, 3], [0, 2, 1, 3])
  {
  }

  // ---- permuting blocks ----

  ghost predicate Blocks<T>(s: seq<T>, perm: seq<nat>) {
    |perm| > 0 && |s| % |perm| == 0 && forall i :: 0 <= i < |perm| ==> perm[i] < |perm|
  }

  /** Where element `x` comes from when every block is permuted. */
  function Source(x: nat, perm: seq<nat>): nat
    requires |perm| > 0
  {
    At(Quotient(x, |perm|), |perm|, perm[x % |perm|])
  }

  lemma SourceBelow(x: nat, n: nat, perm: seq<nat>)
    requires |perm| > 0 && n % |perm| == 0 && x < n && perm[x % |perm|] < |perm|
    ensures Source(x, perm) < n
    ensures Source(x, perm) / |perm| == x / |perm| && Source(x, perm) % |perm| == perm[x % |perm|]
  {
    var b := |perm|;
    DivModIdentity(n, b);
    AtSplits(x, Quotient(n, b), b);
    AtBelow(Quotient(x, b), perm[x % b], Quotient(n, b), b);
    AtDivMod(Quotient(x, b), b, perm[x % b]);
  }

  function Moved<T>(s: seq<T>, perm: seq<nat>, x: nat): T
    requires Blocks(s, perm) && x < |s|
  {
    SourceBelow(x, |s|, perm);
    s[Source(x, perm)]
  }

  function BlockPermuted<T>(s: seq<T>, perm: seq<nat>): (r: seq<T>)
    requires Blocks(s, perm)
    ensures |r| == |s|
  {
    seq(|s|, x requires 0 <= x < |s| => Moved(s, perm, x))
  }

  lemma BlockUndone<T>(s: seq<T>, perm: seq<nat>, back: seq<nat>)
    requires Blocks(s, perm) && Undoes(back, perm)
    ensures BlockPermuted(BlockPermuted(s, back), perm) == s
  {
    var r := BlockPermuted(s, back);
    forall x | 0 <= x < |s|
      ensures BlockPermuted(r, perm)[x] == s[x]
    {
      SourceBelow(x, |s|, perm);
      var y := Source(x, perm);
      SourceBelow(y, |s|, back);
      assert back[perm[x % |perm|]] == x % |perm|;
      DivModIdentity(x, |perm|);
    }
  }

  /** The loops that permute every block into a new vector. */
  method PermuteBlocks<T(0)>(src: seq<T>, perm: seq<nat>) returns (dst: array<T>)
    requires Blocks(src, perm)
    ensures fresh(dst) && dst[..] == BlockPermuted(src, perm)
  {
    var block, rows := |perm|, Quotient(|src|, |perm|);
    DivModIdentity(|src|, block);
    dst := new T[|src|];
    assert Times(0, block) == 0;
    for row := 0 to rows
      invariant fresh(dst) && dst.Length == |src| && Times(row, block) <= |src|
      invariant dst[..Times(row, block)] == BlockPermuted(src, perm)[..Times(row, block)]
    {
      NextGroup(row, block);
      MulLe(row + 1, rows, block);
      for i := 0 to block
        invariant fresh(dst) && dst.Length == |src|
        invariant dst[..At(row, block, i)] == BlockPermuted(src, perm)[..At(row, block, i)]
      {
        AtDivMod(row, block, i);
        SourceBelow(At(row, block, i), |src|, perm);
        dst[At(row, block, i)] := src[At(row, block, perm[i])];
      }
    }
  }

  /** In a matrix whose rows are whole blocks, every element stays in its row. */
  lemma StaysInRow(r: nat, c: nat, cols: nat, perm: seq<nat>)
    requires |perm| > 0 && cols % |perm| == 0 && c < cols && (forall i :: 0 <= i < |perm| ==> perm[i] < |perm|)
    ensures Source(c, perm) < cols && Source(At(r, cols, c), perm) == At(r, cols, Source(c, perm))
  {
    var b, q := |perm|, Quotient(cols, |perm|);
    DivModIdentity(cols, b);
    SourceBelow(c, cols, perm);
    DivModIdentity(c, b);
    assert At(r, cols, c) == At(At(r, q, Quotient(c, b)), b, c % b) by {
      MulAssoc(r, q, b);
      MulDistributes(r * q, Quotient(c, b), b);
    }
    AtDivMod(At(r, q, Quotient(c, b)), b, c % b);
    MulAssoc(r, q, b);
    MulDistributes(r * q, Quotient(c, b), b);
  }

  // ---- scales and bias ----

  /** The permutation for scales: grouped, or one group over all of `sizeK`. */
  function ScaleOrder(sizeK: nat, groupSize: int): seq<nat> {
    if groupSize < sizeK && groupSize != -1 then ScaleBlock() else SingleBlock()
  }

  lemma ScaleOrderIsPermutation(sizeK: nat, groupSize: int)
    ensures IsPermutation(ScaleOrder(sizeK, groupSize)) && |ScaleOrder(sizeK, groupSize)| in {32, 64}
  {
    ScaleBlockUndone();
    SingleBlockUndone();
    UndoneIsPermutation(ScaleBlock(), ScaleBlock());
    UndoneIsPermutation(SingleInverse(), SingleBlock());
  }

  /** Where the scale of column `c` comes from, for groups of rows and for one group over all rows. */
  function ScaleColumn(grouped: bool, c: nat): nat {
    if grouped then 64 * (c / 64) + c % 64 / 8 + 8 * (c % 8)
    else 32 * (c / 32) + 2 * (c % 32 / 8) + 8 * (c % 8 / 2) + c % 2
  }

  lemma SourceOfScale(sizeK: nat, groupSize: int, c: nat)
    ensures Source(c, ScaleOrder(sizeK, groupSize)) == ScaleColumn(groupSize != -1 && groupSize < sizeK, c)
  {
    LowDigits(c);
    if groupSize != -1 && groupSize < sizeK {
      GroupedSource(c);
    } else {
      SingleSource(c);
    }
  }

  lemma LowDigits(c: nat)
    ensures c % 64 % 8 == c % 8 && c % 32 % 8 == c % 8 && c % 32 % 2 == c % 2
  {
    DivModUnique(c, 8, 8 * (c / 64) + c % 64 / 8, c % 64 % 8);
    DivModUnique(c, 8, 4 * (c / 32) + c % 32 / 8, c % 32 % 8);
    DivModUnique(c, 2, 16 * (c / 32) + c % 32 / 2, c % 32 % 2);
  }

  lemma GroupedSource(c: nat)
    requires c % 64 % 8 == c % 8
    ensures Source(c, ScaleBlock()) == ScaleColumn(true, c)
  {
    assert ScaleBlock()[c % 64] == c % 64 / 8 + 8 * (c % 64 % 8);
  }

  lemma SingleSource(c: nat)
    requires c % 32 % 8 == c % 8 && c % 32 % 2 == c % 2
    ensures Source(c, SingleBlock()) == ScaleColumn(false, c)
  {
    SingleEntry(c % 32);
  }

  lemma SingleEntry(p: nat)
    requires p < 32
    ensures SingleBlock()[p] == 2 * (p / 8) + 8 * (p % 8 / 2) + p % 2
  {
    var t := p % 8;
    OffsetDigits(t);
    DivModUnique(p, 2, 4 * (p / 8) + t / 2, t % 2);
  }

  /** Every element comes from the column that the order names. */
  ghost predicate TakenFrom<T>(data: seq<T>, permuted: seq<T>, grouped: bool) {
    |permuted| == |data| && forall x: nat :: x < |data| ==>
      ScaleColumn(grouped, x) < |data| && permuted[x] == data[ScaleColumn(grouped, x)]
  }

  lemma PermutedScales<T>(data: seq<T>, sizeK: nat, groupSize: int)
    requires Blocks(data, ScaleOrder(sizeK, groupSize))
    ensures
      TakenFrom(data, BlockPermuted(data, ScaleOrder(sizeK, groupSize)), groupSize != -1 && groupSize < sizeK)
  {
    forall x: nat | x < |data|
      ensures ScaleColumn(groupSize != -1 && groupSize < sizeK, x) < |data|
      ensures BlockPermuted(data, ScaleOrder(sizeK, groupSize))[x]
              == data[ScaleColumn(groupSize != -1 && groupSize < sizeK, x)]
    {
      SourceOfScale(sizeK, groupSize, x);
      PermutedAt(data, ScaleOrder(sizeK, groupSize), x);
    }
  }

  lemma PermutedAt<T>(data: seq<T>, perm: seq<nat>, x: nat)
    requires Blocks(data, perm) && x < |data|
    ensures Source(x, perm) < |data| && BlockPermuted(data, perm)[x] == data[Source(x, perm)]
  {
    SourceBelow(x, |data|, perm);
  }

  datatype Scales<T> = Scales(rows: nat, cols: nat, data: seq<T>)

  /** `permute_scales` */
  method PermuteScales<T(0)>(scales: Scales<T>, sizeK: nat, sizeN: nat, groupSize: int)
    returns (r: Result<Scales<T>, Failure>)
    ensures var perm := ScaleOrder(sizeK, groupSize);
      && (r.Ok? <==> |scales.data| % |perm| == 0)
      && (r.Ok? ==>
            && Blocks(scales.data, perm)
            && r.value == Scales(scales.rows, sizeN, BlockPermuted(scales.data, perm)))
    ensures r.Ok? ==> TakenFrom(scales.data, r.value.data, groupSize != -1 && groupSize < sizeK)
  {
    ScaleOrderIsPermutation(sizeK, groupSize);
    var perm;
    if groupSize < sizeK && groupSize != -1 {
      perm := ScalePerm();
    } else {
      perm := ScalePermSingle();
    }
    if |scales.data| % |perm| != 0 {
      return Err(AssertionFailed);
    }
    var dst := PermuteBlocks(scales.data, perm);
    PermutedScales(scales.data, sizeK, groupSize);
    r := Ok(Scales(scales.rows, sizeN, dst[..]));
  }

  /** `permute_bias` */
  method PermuteBias<T(0)>(bias: seq<T>) returns (r: Result<seq<T>, Failure>)
    ensures r.Ok? <==> |bias| % 32 == 0
    ensures r.Ok? ==> Blocks(bias, SingleBlock()) && r.value == BlockPermuted(bias, SingleBlock())
    ensures r.Ok? ==> TakenFrom(bias, r.value, false)
  {
    SingleBlockUndone();
    var perm := ScalePermSingle();
    if |bias| % |perm| != 0 {
      return Err(AssertionFailed);
    }
    var dst := PermuteBlocks(bias, perm);
    PermutedScales(bias, 0, -1);
    r := Ok(dst[..]);
  }

  /** Element (r, c) of the permuted matrix is an element of the same row. */
  lemma RowPermuted<T>(data: seq<T>, rows: nat, cols: nat, perm: seq<nat>, r: nat, c: nat)
    requires |data| == Times(rows, cols) && |perm| > 0 && cols % |perm| == 0 && r < rows && c < cols
    requires forall i :: 0 <= i < |perm| ==> perm[i] < |perm|
    ensures Blocks(data, perm) && Source(c, perm) < cols
    ensures At(r, cols, c) < |data| && At(r, cols, Source(c, perm)) < |data|
    ensures BlockPermuted(data, perm)[At(r, cols, c)] == data[At(r, cols, Source(c, perm))]
  {
    RowsOfBlocks(rows, cols, |perm|);
    StaysInRow(r, c, cols, perm);
    AtBelow(r, c, rows, cols);
    AtBelow(r, Source(c, perm), rows, cols);
  }

  /** Every scale can be found again: none is lost, and none moves to another row. */
  lemma ScalesKept<T>(s: Scales<T>, sizeK: nat, groupSize: int, perm: seq<nat>, r: nat, c: nat)
    requires |s.data| == Times(s.rows, s.cols) && s.cols % 64 == 0 && r < s.rows && c < s.cols
    requires perm == ScaleOrder(sizeK, groupSize)
    ensures IsPermutation(perm) && Blocks(s.data, perm) && Source(c, perm) < s.cols
    ensures At(r, s.cols, c) < |s.data| && At(r, s.cols, Source(c, perm)) < |s.data|
    ensures BlockPermuted(s.data, perm)[At(r, s.cols, c)] == s.data[At(r, s.cols, Source(c, perm))]
    ensures BlockPermuted(BlockPermuted(s.data, perm), Inverse(perm)) == s.data
  {
    ScaleOrderIsPermutation(sizeK, groupSize);
    assert s.cols % |perm| == 0;
    RowPermuted(s.data, s.rows, s.cols, perm, r, c);
    UndoneByInverse(s.data, perm);
  }

  lemma UndoneByInverse<T>(data: seq<T>, perm: seq<nat>)
    requires IsPermutation(perm) && Blocks(data, perm)
    ensures Blocks(BlockPermuted(data, perm), Inverse(perm))
    ensures BlockPermuted(BlockPermuted(data, perm), Inverse(perm)) == data
  {
    assert Undoes(perm, Inverse(perm));
    BlockUndone(data, Inverse(perm), perm);
  }

  lemma RowsOfBlocks(rows: nat, cols: nat, block: nat)
    requires block > 0 && cols % block == 0
    ensures Times(rows, cols) % block == 0
  {
    DivModIdentity(cols, block);
    MulAssoc(rows, cols / block, block);
    DivModUnique(Times(rows, cols), block, rows * (cols / block), 0);
  }

  // ---- packing ----

  ghost predicate AllWords(data: seq<nat>) {
    forall i :: 0 <= i < |data| ==> data[i] < WORD_SIZE
  }

  function FieldAt(data: seq<nat>, bits: nat, x: nat): nat
    requires Width(bits) && x < Times(|data|, PerWord(bits))
  {
    AtSplits(x, |data|, PerWord(bits));
    Field(data[WordsFor(x, bits)], bits, PosIn(x, bits))
  }

  /** The fields of all words, one after the other. */
  function Unpacked(data: seq<nat>, bits: nat): (vals: seq<nat>)
    requires Width(bits)
    ensures |vals| == Times(|data|, PerWord(bits))
  {
    seq(Times(|data|, PerWord(bits)), x requires 0 <= x < Times(|data|, PerWord(bits)) => FieldAt(data, bits, x))
  }

  /** The values that go into word `w`. */
  function Group(vals: seq<nat>, bits: nat, w: nat): seq<nat>
    requires Width(bits) && w < WordsFor(|vals|, bits)
  {
    GroupFits(|vals|, bits, w);
    vals[At(w, PerWord(bits), 0)..At(w, PerWord(bits), PerWord(bits))]
  }

  lemma GroupFits(n: nat, bits: nat, w: nat)
    requires Width(bits) && w < WordsFor(n, bits)
    ensures At(w, PerWord(bits), PerWord(bits)) <= n
  {
  }

  function Packed(vals: seq<nat>, bits: nat): (data: seq<nat>)
    requires Width(bits)
    ensures |data| == WordsFor(|vals|, bits)
  {
    seq(WordsFor(|vals|, bits), w requires 0 <= w < WordsFor(|vals|, bits) => Assemble(Group(vals, bits, w), bits))
  }

  lemma UnpackedFits(data: seq<nat>, bits: nat)
    requires Width(bits)
    ensures Fits(Unpacked(data, bits), bits)
  {
    forall x | 0 <= x < |Unpacked(data, bits)|
      ensures Unpacked(data, bits)[x] < Pow2(bits)
    {
      AtSplits(x, |data|, PerWord(bits));
      FieldIs(data[WordsFor(x, bits)], bits, PosIn(x, bits));
    }
  }

  /** A value stands at its position in the group of its word. */
  lemma InItsGroup(vals: seq<nat>, bits: nat, x: nat)
    requires Width(bits) && x < |vals| && WordsFor(x, bits) < WordsFor(|vals|, bits)
    ensures
      var group := Group(vals, bits, WordsFor(x, bits));
      |group| == PerWord(bits) && group[PosIn(x, bits)] == vals[x]
  {
    var w := WordsFor(x, bits);
    GroupFits(|vals|, bits, w);
    GroupSize(w, bits);
    InItsWord(x, bits);
    assert x == At(w, PerWord(bits), 0) + PosIn(x, bits);
  }

  lemma GroupInside(vals: seq<nat>, bits: nat, w: nat)
    requires Width(bits) && Fits(vals, bits) && w < WordsFor(|vals|, bits)
    ensures Fits(Group(vals, bits, w), bits)
  {
    GroupFits(|vals|, bits, w);
  }

  lemma UnpackPackedAt(vals: seq<nat>, bits: nat, x: nat)
    requires Width(bits) && Fits(vals, bits) && x < |vals| && WordsFor(x, bits) < WordsFor(|vals|, bits)
    ensures Field(Packed(vals, bits)[WordsFor(x, bits)], bits, PosIn(x, bits)) == vals[x]
  {
    InItsGroup(vals, bits, x);
    GroupInside(vals, bits, WordsFor(x, bits));
    FieldOfAssembled(Group(vals, bits, WordsFor(x, bits)), bits, PosIn(x, bits));
  }

  lemma UnpackedAt(data: seq<nat>, bits: nat, x: nat)
    requires Width(bits) && x < |Unpacked(data, bits)|
    ensures WordsFor(x, bits) < |data|
    ensures Unpacked(data, bits)[x] == Field(data[WordsFor(x, bits)], bits, PosIn(x, bits))
  {
    AtSplits(x, |data|, PerWord(bits));
  }

  lemma UnpackPacked(vals: seq<nat>, bits: nat)
    requires Width(bits) && Fits(vals, bits) && PosIn(|vals|, bits) == 0
    ensures Unpacked(Packed(vals, bits), bits) == vals
  {
    InItsWord(|vals|, bits);
    var back := Unpacked(Packed(vals, bits), bits);
    forall x | 0 <= x < |vals|
      ensures back[x] == vals[x]
    {
      UnpackedAt(Packed(vals, bits), bits, x);
      UnpackPackedAt(vals, bits, x);
    }
  }

  lemma PackUnpacked(data: seq<nat>, bits: nat)
    requires Width(bits) && AllWords(data)
    ensures Packed(Unpacked(data, bits), bits) == data
  {
    var vals := Unpacked(data, bits);
    assert WordsFor(|vals|, bits) == |data|;
    forall w: nat | w < |data|
      ensures Packed(vals, bits)[w] == data[w]
    {
      GroupFits(|vals|, bits, w);
      assert Group(vals, bits, w) == Fields(data[w], bits, PerWord(bits)) by { GroupOfUnpacked(data, bits, w); }
      AssembledFields(data[w], bits);
    }
  }

  lemma GroupOfUnpacked(data: seq<nat>, bits: nat, w: nat)
    requires Width(bits) && w < |data| == WordsFor(|Unpacked(data, bits)|, bits)
    ensures Group(Unpacked(data, bits), bits, w) == Fields(data[w], bits, PerWord(bits))
  {
    var vals, pf := Unpacked(data, bits), PerWord(bits);
    GroupFits(|vals|, bits, w);
    forall i: nat | i < pf
      ensures Group(vals, bits, w)[i] == Field(data[w], bits, i)
    {
      AtBelow(w, i, |data|, pf);
      assert Group(vals, bits, w)[i] == vals[At(w, pf, i)];
      FieldInWord(data, bits, w, i);
    }
  }

  lemma FieldInWord(data: seq<nat>, bits: nat, w: nat, i: nat)
    requires Width(bits) && w < |data| && i < PerWord(bits)
    ensures At(w, PerWord(bits), i) < |Unpacked(data, bits)|
    ensures Unpacked(data, bits)[At(w, PerWord(bits), i)] == Field(data[w], bits, i)
  {
    AtBelow(w, i, |data|, PerWord(bits));
    AtDivMod(w, PerWord(bits), i);
  }

  /** The inner loop of `unpack_cols`: the fields of one word, into the output. */
  method UnpackWord(word: nat, bits: nat, out: array<nat>, base: nat)
    requires Width(bits) && base + PerWord(bits) <= out.Length
    modifies out
    ensures forall i: nat :: i < PerWord(bits) ==> out[..][base + i] == Field(word, bits, i)
    ensures out[..base] == old(out[..base])
  {
    var rest := word;
    for i := 0 to PerWord(bits)
      invariant rest == ShiftRight(word, bits * i)
      invariant forall j: nat :: j < i ==> out[..][base + j] == Field(word, bits, j)
      invariant out[..base] == old(out[..base])
    {
      assert And(rest, Mask(bits)) == Field(word, bits, i);
      out[base + i] := And(rest, Mask(bits));
      ShiftAgain(word, bits * i, bits);
      assert bits * (i + 1) == bits * i + bits;
      rest := ShiftRight(rest, bits);
    }
  }

  lemma NextWordUnpacked(data: seq<nat>, bits: nat, w: nat, before: seq<nat>, after: seq<nat>)
    requires Width(bits) && w < |data| && |before| == |after| == Times(|data|, PerWord(bits))
    requires At(w, PerWord(bits), PerWord(bits)) <= |before|
    requires before[..At(w, PerWord(bits), 0)] == Unpacked(data, bits)[..At(w, PerWord(bits), 0)]
    requires after[..At(w, PerWord(bits), 0)] == before[..At(w, PerWord(bits), 0)]
    requires forall i: nat :: i < PerWord(bits) ==> after[At(w, PerWord(bits), 0) + i] == Field(data[w], bits, i)
    ensures At(w + 1, PerWord(bits), 0) == At(w, PerWord(bits), PerWord(bits))
    ensures after[..At(w, PerWord(bits), PerWord(bits))] == Unpacked(data, bits)[..At(w, PerWord(bits), PerWord(bits))]
  {
    var n, m := At(w, PerWord(bits), 0), At(w, PerWord(bits), PerWord(bits));
    NextGroup(w, PerWord(bits));
    forall x | 0 <= x < m
      ensures after[x] == Unpacked(data, bits)[x]
    {
      if x < n {
        assert after[x] == after[..n][x] == Unpacked(data, bits)[..n][x];
      } else {
        AtDivMod(w, PerWord(bits), x - n);
        assert after[n + (x - n)] == Field(data[w], bits, x - n);
      }
    }
  }

  lemma WholeWords(sizeN: nat, bits: nat, r: nat, c: nat)
    requires Width(bits) && PosIn(sizeN, bits) == 0
    ensures r * sizeN + c * PerWord(bits) == At(At(r, WordsFor(sizeN, bits), c), PerWord(bits), 0)
  {
    InItsWord(sizeN, bits);
    MulAssoc(r, WordsFor(sizeN, bits), PerWord(bits));
    MulDistributes(r * WordsFor(sizeN, bits), c, PerWord(bits));
  }

  /** `unpack_cols` */
  method UnpackCols(packed: seq<nat>, sizeK: nat, sizeN: nat, bits: nat) returns (out: array<nat>)
    requires Width(bits) && PosIn(sizeN, bits) == 0 && |packed| == Times(sizeK, WordsFor(sizeN, bits))
    ensures fresh(out) && out[..] == Unpacked(packed, bits)
  {
    var perRow := WordsFor(sizeN, bits);
    out := new nat[Times(|packed|, PerWord(bits))](_ => 0);
    NothingUnpacked(packed, bits, out[..]);
    ghost var w: nat := 0;
    for r := 0 to sizeK
      invariant fresh(out) && w == Times(r, perRow) && UnpackedTo(packed, bits, w, out[..])
    {
      for c := 0 to perRow
        invariant fresh(out) && w == At(r, perRow, c) && UnpackedTo(packed, bits, w, out[..])
      {
        AtBelow(r, c, sizeK, perRow);
        WholeWords(sizeN, bits, r, c);
        UnpackNext(packed, packed[r * perRow + c], bits, out, r * sizeN + c * PerWord(bits), w);
        w := w + 1;
      }
      NextGroup(r, perRow);
    }
    AllUnpacked(packed, bits, out[..]);
  }

  lemma NothingUnpacked(data: seq<nat>, bits: nat, out: seq<nat>)
    requires Width(bits) && |out| == Times(|data|, PerWord(bits))
    ensures UnpackedTo(data, bits, 0, out)
  {
    assert Times(0, PerWord(bits)) == 0;
  }

  lemma AllUnpacked(data: seq<nat>, bits: nat, out: seq<nat>)
    requires Width(bits) && UnpackedTo(data, bits, |data|, out)
    ensures out == Unpacked(data, bits)
  {
    assert out[..|out|] == out;
  }

  ghost predicate UnpackedTo(data: seq<nat>, bits: nat, w: nat, out: seq<nat>)
    requires Width(bits)
  {
    && |out| == Times(|data|, PerWord(bits)) && w <= |data| && Times(w, PerWord(bits)) <= |out|
    && out[..Times(w, PerWord(bits))] == Unpacked(data, bits)[..Times(w, PerWord(bits))]
  }

  /** One word of the row loop. */
  method UnpackNext(packed: seq<nat>, word: nat, bits: nat, out: array<nat>, base: nat, ghost w: nat)
    requires Width(bits) && w < |packed| && word == packed[w] && base == At(w, PerWord(bits), 0)
    requires UnpackedTo(packed, bits, w, out[..])
    modifies out
    ensures UnpackedTo(packed, bits, w + 1, out[..])
  {
    NextGroup(w, PerWord(bits));
    MulLe(w + 1, |packed|, PerWord(bits));
    ghost var before := out[..];
    UnpackWord(word, bits, out, base);
    NextWordUnpacked(packed, bits, w, before, out[..]);
  }

  /** The inner loop of `pack_cols`. */
  method PackWord(vals: seq<nat>, base: nat, bits: nat) returns (word: nat)
    requires Width(bits) && base + PerWord(bits) <= |vals| && Fits(vals, bits)
    ensures word == Assemble(vals[base..base + PerWord(bits)], bits) < WORD_SIZE
  {
    word := 0;
    for i := 0 to PerWord(bits)
      invariant word == Assemble(vals[base..base + i], bits) < WORD_SIZE
    {
      ghost var group := vals[base..base + i];
      assert Fits(group, bits) && vals[base..base + i + 1] == group + [vals[base + i]];
      PutField(group, bits, vals[base + i]);
      word := Or(word, ShiftLeft(vals[base + i], bits * i));
    }
  }

  ghost predicate PackedTo(vals: seq<nat>, bits: nat, w: nat, out: seq<nat>)
    requires Width(bits)
  {
    w <= |out| == WordsFor(|vals|, bits) && out[..w] == Packed(vals, bits)[..w]
  }

  /** One word of the row loop. */
  method PackNext(vals: seq<nat>, base: nat, bits: nat, out: array<nat>, w: nat)
    requires Width(bits) && Fits(vals, bits) && w < out.Length && base == At(w, PerWord(bits), 0)
    requires PackedTo(vals, bits, w, out[..])
    modifies out
    ensures PackedTo(vals, bits, w + 1, out[..])
  {
    PackedAt(vals, bits, w);
    var word := PackWord(vals, base, bits);
    out[w] := word;
  }

  lemma PackedAt(vals: seq<nat>, bits: nat, w: nat)
    requires Width(bits) && w < WordsFor(|vals|, bits)
    ensures
      var base := At(w, PerWord(bits), 0);
      base + PerWord(bits) <= |vals| && Packed(vals, bits)[w] == Assemble(vals[base..base + PerWord(bits)], bits)
  {
    GroupFits(|vals|, bits, w);
    assert At(w, PerWord(bits), PerWord(bits)) == At(w, PerWord(bits), 0) + PerWord(bits);
  }

  /** `pack_cols` */
  method PackCols(unpacked: seq<nat>, sizeK: nat, sizeN: nat, bits: nat) returns (out: array<nat>)
    requires Width(bits) && PosIn(sizeN, bits) == 0 && |unpacked| == Times(sizeK, sizeN) && Fits(unpacked, bits)
    ensures fresh(out) && out[..] == Packed(unpacked, bits)
  {
    var perRow := WordsFor(sizeN, bits);
    out := new nat[Times(sizeK, perRow)](_ => 0);
    PackedSize(sizeK, sizeN, bits);
    for r := 0 to sizeK
      invariant fresh(out) && PackedTo(unpacked, bits, Times(r, perRow), out[..])
    {
      for c := 0 to perRow
        invariant fresh(out) && PackedTo(unpacked, bits, At(r, perRow, c), out[..])
      {
        AtBelow(r, c, sizeK, perRow);
        WholeWords(sizeN, bits, r, c);
        PackNext(unpacked, r * sizeN + c * PerWord(bits), bits, out, r * perRow + c);
      }
      NextGroup(r, perRow);
    }
    assert out[..out.Length] == out[..];
  }

  lemma PackedSize(sizeK: nat, sizeN: nat, bits: nat)
    requires Width(bits) && PosIn(sizeN, bits) == 0
    ensures WordsFor(Times(sizeK, sizeN), bits) == Times(sizeK, WordsFor(sizeN, bits))
    ensures Times(Times(sizeK, WordsFor(sizeN, bits)), PerWord(bits)) == Times(sizeK, sizeN)
    ensures PosIn(Times(sizeK, sizeN), bits) == 0
  {
    InItsWord(sizeN, bits);
    MulAssoc(sizeK, WordsFor(sizeN, bits), PerWord(bits));
    DivModUnique(Times(sizeK, sizeN), PerWord(bits), Times(sizeK, WordsFor(sizeN, bits)), 0);
  }

  // ---- zero points ----

  ghost predicate WholeBlocks(data: seq<nat>, bits: nat) {
    Width(bits) && Times(|data|, PerWord(bits)) % 64 == 0 && AllWords(data)
  }

  lemma BlocksOfWords(data: seq<nat>, bits: nat)
    requires WholeBlocks(data, bits)
    ensures Blocks(Unpacked(data, bits), Undo(bits)) && Blocks(Unpacked(data, bits), PackIdx(bits))
    ensures Blocks(Unpacked(data, bits), ScaleBlock())
  {
    WholeWordRows(Times(|data|, PerWord(bits)), bits);
    ScaleBlockRange();
  }

  /** The columns in their logical order: the middle stage. */
  function Columns(data: seq<nat>, bits: nat): (vals: seq<nat>)
    requires WholeBlocks(data, bits)
    ensures |vals| == Times(|data|, PerWord(bits))
  {
    BlocksOfWords(data, bits);
    BlockPermuted(Unpacked(data, bits), Undo(bits))
  }

  /** What is packed at the end. */
  function Interleaved(data: seq<nat>, bits: nat): (vals: seq<nat>)
    requires WholeBlocks(data, bits)
    ensures |vals| == Times(|data|, PerWord(bits))
  {
    BlocksOfWords(data, bits);
    BlockPermuted(BlockPermuted(Columns(data, bits), ScaleBlock()), PackIdx(bits))
  }

  function ZeroPoints(data: seq<nat>, bits: nat): (out: seq<nat>)
    requires WholeBlocks(data, bits)
    ensures |out| == |data|
  {
    Packed(Interleaved(data, bits), bits)
  }

  lemma PermutedFits(s: seq<nat>, perm: seq<nat>, bits: nat)
    requires Blocks(s, perm) && Fits(s, bits)
    ensures Fits(BlockPermuted(s, perm), bits)
  {
    var r := BlockPermuted(s, perm);
    forall x | 0 <= x < |r|
      ensures r[x] < Pow2(bits)
    {
      SourceBelow(x, |s|, perm);
      assert r[x] == s[Source(x, perm)];
    }
  }

  lemma InterleavedFits(data: seq<nat>, bits: nat)
    requires WholeBlocks(data, bits)
    ensures Fits(Columns(data, bits), bits) && Fits(Interleaved(data, bits), bits)
  {
    BlocksOfWords(data, bits);
    UnpackedFits(data, bits);
    PermutedFits(Unpacked(data, bits), Undo(bits), bits);
    PermutedFits(Columns(data, bits), ScaleBlock(), bits);
    PermutedFits(BlockPermuted(Columns(data, bits), ScaleBlock()), PackIdx(bits), bits);
  }

  lemma ZeroPointsAreWords(data: seq<nat>, bits: nat)
    requires WholeBlocks(data, bits)
    ensures WholeBlocks(ZeroPoints(data, bits), bits)
    ensures Unpacked(ZeroPoints(data, bits), bits) == Interleaved(data, bits)
  {
    var vals := Interleaved(data, bits);
    InterleavedFits(data, bits);
    UnpackPacked(vals, bits);
    forall w: nat | w < |ZeroPoints(data, bits)|
      ensures ZeroPoints(data, bits)[w] < WORD_SIZE
    {
      GroupInWord(vals, bits, w);
    }
  }

  lemma GroupInWord(vals: seq<nat>, bits: nat, w: nat)
    requires Width(bits) && Fits(vals, bits) && w < WordsFor(|vals|, bits)
    ensures Assemble(Group(vals, bits, w), bits) < WORD_SIZE
  {
    GroupFits(|vals|, bits, w);
    var group := Group(vals, bits, w);
    GroupSize(w, bits);
    FitsInWord(group, bits);
  }

  lemma GroupSize(w: nat, bits: nat)
    requires Width(bits)
    ensures At(w, PerWord(bits), PerWord(bits)) - At(w, PerWord(bits), 0) == PerWord(bits)
  {
  }

  lemma FitsInWord(group: seq<nat>, bits: nat)
    requires Width(bits) && |group| == PerWord(bits) && Fits(group, bits)
    ensures Assemble(group, bits) < WORD_SIZE
  {
    AssembleBelow(group, bits);
    PlaceInWord(bits, PerWord(bits));
  }

  /** The conversion is its own inverse, so no zero point is lost or changed. */
  lemma ZeroPointsUndone(data: seq<nat>, bits: nat)
    requires WholeBlocks(data, bits)
    ensures WholeBlocks(ZeroPoints(data, bits), bits)
    ensures ZeroPoints(ZeroPoints(data, bits), bits) == data
  {
    var out := ZeroPoints(data, bits);
    ZeroPointsAreWords(data, bits);
    BlocksOfWords(data, bits);
    InterleaveUndone(bits);
    ScaleBlockUndone();
    var cols := Columns(data, bits);
    var scaled := BlockPermuted(cols, ScaleBlock());
    assert Columns(out, bits) == scaled by { UndoAfter(scaled, PackIdx(bits), Undo(bits)); }
    assert BlockPermuted(scaled, ScaleBlock()) == cols by { UndoAfter(cols, ScaleBlock(), ScaleBlock()); }
    assert BlockPermuted(cols, PackIdx(bits)) == Unpacked(data, bits)
        by { UndoAfter(Unpacked(data, bits), Undo(bits), PackIdx(bits)); }
    PackUnpacked(data, bits);
  }

  lemma UndoAfter<T>(s: seq<T>, first: seq<nat>, second: seq<nat>)
    requires Blocks(s, first) && Undoes(first, second)
    ensures Blocks(BlockPermuted(s, first), second) && BlockPermuted(BlockPermuted(s, first), second) == s
  {
    BlockUndone(s, second, first);
  }

  /** The middle stage holds at (r, c) what `awq_value` reads there: zero points and weights share one column order. */
  lemma ColumnsAreAwqValues(data: seq<nat>, bits: nat, rows: nat, cols: nat, r: nat, c: nat)
    requires WholeBlocks(data, bits) && PosIn(cols, bits) == 0 && |data| == Times(rows, WordsFor(cols, bits))
    requires r < rows && c < cols
    ensures At(r, cols, c) < |Columns(data, bits)| && AwqWord(cols, r, c, bits) < |data|
    ensures Columns(data, bits)[At(r, cols, c)] == AwqValue(data, cols, r, c, bits)
  {
    BlocksOfWords(data, bits);
    PackedSize(rows, cols, bits);
    AtBelow(r, c, rows, cols);
    WordBelow(c, cols, bits);
    AtBelow(r, WordsFor(c, bits), rows, WordsFor(cols, bits));
    var x := At(r, cols, c);
    WordsInRow(r, cols, c, bits);
    SourceBelow(x, |Columns(data, bits)|, Undo(bits));
  }

  lemma WordsInRow(r: nat, cols: nat, c: nat, bits: nat)
    requires Width(bits) && PosIn(cols, bits) == 0
    ensures WordsFor(At(r, cols, c), bits) == At(r, WordsFor(cols, bits), WordsFor(c, bits))
    ensures PosIn(At(r, cols, c), bits) == PosIn(c, bits)
  {
    InItsWord(c, bits);
    WholeWords(cols, bits, r, WordsFor(c, bits));
    AtDivMod(At(r, WordsFor(cols, bits), WordsFor(c, bits)), PerWord(bits), PosIn(c, bits));
  }

  /** Where the converted zero point of column `c` comes from. */
  function ZeroColumn(c: nat, bits: nat): nat
    requires Width(bits)
  {
    Source(Source(c, PackIdx(bits)), ScaleBlock())
  }

  /** The orders of the eight columns of a word, as the fields are packed and as AWQ keeps them. */
  lemma SourceOfFields(c: nat)
    ensures Source(c, PackIdx(4)) == 8 * (c / 8) + 2 * (c % 4) + c % 8 / 4
    ensures Source(c, Undo(4)) == 8 * (c / 8) + 4 * (c % 2) + c % 8 / 2
  {
    OrdersDeal(4, c % 8);
    assert c % 8 % 4 == c % 4 && c % 8 % 2 == c % 2;
  }

  /** The zero point at position `c` comes from the column of the scale that stands at the column of that position. */
  lemma ZeroColumnIs(c: nat)
    ensures ZeroColumn(c, 4) == ScaleColumn(true, 8 * (c / 8) + 2 * (c % 4) + c % 8 / 4)
  {
    SourceOfFields(c);
    SourceOfScale(1, 0, Source(c, PackIdx(4)));
  }

  /**
   Column `c` of a row of the result is column ZeroColumn(c) of the same row: the scales' order with the
   fields of each word interleaved.
   */
  lemma ZeroPointAt(data: seq<nat>, bits: nat, rows: nat, cols: nat, r: nat, c: nat)
    requires WholeBlocks(data, bits) && cols % 64 == 0 && |data| == Times(rows, WordsFor(cols, bits))
    requires r < rows && c < cols
    ensures At(r, WordsFor(cols, bits), WordsFor(c, bits)) < |data|
    ensures ZeroColumn(c, bits) < cols && AwqWord(cols, r, ZeroColumn(c, bits), bits) < |data|
    ensures Field(ZeroPoints(data, bits)[At(r, WordsFor(cols, bits), WordsFor(c, bits))], bits, PosIn(c, bits))
         == AwqValue(data, cols, r, ZeroColumn(c, bits), bits)
  {
    WholeWordRows(cols, bits);
    InterleavedAt(data, bits, rows, cols, r, c);
    UnpackedZeroPoint(data, bits, rows, cols, r, c);
  }

  lemma UnpackedZeroPoint(data: seq<nat>, bits: nat, rows: nat, cols: nat, r: nat, c: nat)
    requires WholeBlocks(data, bits) && PosIn(cols, bits) == 0 && |data| == Times(rows, WordsFor(cols, bits))
    requires r < rows && c < cols
    ensures At(r, WordsFor(cols, bits), WordsFor(c, bits)) < |data| && At(r, cols, c) < |Interleaved(data, bits)|
    ensures Field(ZeroPoints(data, bits)[At(r, WordsFor(cols, bits), WordsFor(c, bits))], bits, PosIn(c, bits))
         == Interleaved(data, bits)[At(r, cols, c)]
  {
    var out := ZeroPoints(data, bits);
    assert Unpacked(out, bits) == Interleaved(data, bits) by { ZeroPointsAreWords(data, bits); }
    FieldInRow(out, bits, rows, cols, r, c);
  }

  lemma InterleavedAt(data: seq<nat>, bits: nat, rows: nat, cols: nat, r: nat, c: nat)
    requires WholeBlocks(data, bits) && cols % 64 == 0 && |data| == Times(rows, WordsFor(cols, bits))
    requires r < rows && c < cols
    ensures ZeroColumn(c, bits) < cols && AwqWord(cols, r, ZeroColumn(c, bits), bits) < |data|
    ensures At(r, cols, c) < |Interleaved(data, bits)|
    ensures Interleaved(data, bits)[At(r, cols, c)] == AwqValue(data, cols, r, ZeroColumn(c, bits), bits)
  {
    WholeWordRows(cols, bits);
    PackedSize(rows, cols, bits);
    var columns := Columns(data, bits);
    MovedTwice(columns, bits, rows, cols, r, c);
    ColumnsAreAwqValues(data, bits, rows, cols, r, ZeroColumn(c, bits));
  }

  lemma MovedTwice(columns: seq<nat>, bits: nat, rows: nat, cols: nat, r: nat, c: nat)
    requires Width(bits) && cols % 64 == 0 && |columns| == Times(rows, cols) && r < rows && c < cols
    ensures ZeroColumn(c, bits) < cols && At(r, cols, c) < |columns| && At(r, cols, ZeroColumn(c, bits)) < |columns|
    ensures Blocks(columns, ScaleBlock()) && Blocks(columns, PackIdx(bits))
    ensures BlockPermuted(BlockPermuted(columns, ScaleBlock()), PackIdx(bits))[At(r, cols, c)]
            == columns[At(r, cols, ZeroColumn(c, bits))]
  {
    ScaleBlockRange();
    WholeWordRows(cols, bits);
    MovedByBoth(columns, ScaleBlock(), PackIdx(bits), rows, cols, r, c);
  }

  /** Element (r, c) after permuting the blocks of every row twice. */
  lemma MovedByBoth<T>(data: seq<T>, p: seq<nat>, q: seq<nat>, rows: nat, cols: nat, r: nat, c: nat)
    requires |data| == Times(rows, cols) && |p| > 0 && |q| > 0 && cols % |p| == 0 && cols % |q| == 0 && r < rows
    requires c < cols
    requires forall i :: 0 <= i < |p| ==> p[i] < |p|
    requires forall i :: 0 <= i < |q| ==> q[i] < |q|
    ensures Blocks(data, p) && Blocks(data, q) && Source(Source(c, q), p) < cols
    ensures At(r, cols, c) < |data| && At(r, cols, Source(Source(c, q), p)) < |data|
    ensures BlockPermuted(BlockPermuted(data, p), q)[At(r, cols, c)] == data[At(r, cols, Source(Source(c, q), p))]
  {
    RowPermuted(data, rows, cols, q, r, c);
    RowPermuted(data, rows, cols, p, r, Source(c, q));
    RowPermuted(BlockPermuted(data, p), rows, cols, q, r, c);
  }

  lemma FieldInRow(data: seq<nat>, bits: nat, rows: nat, cols: nat, r: nat, c: nat)
    requires Width(bits) && PosIn(cols, bits) == 0 && |data| == Times(rows, WordsFor(cols, bits)) && r < rows
    requires c < cols
    ensures At(r, cols, c) < |Unpacked(data, bits)| && At(r, WordsFor(cols, bits), WordsFor(c, bits)) < |data|
    ensures Unpacked(data, bits)[At(r, cols, c)]
            == Field(data[At(r, WordsFor(cols, bits), WordsFor(c, bits))], bits, PosIn(c, bits))
  {
    PackedSize(rows, cols, bits);
    AtBelow(r, c, rows, cols);
    WordBelow(c, cols, bits);
    AtBelow(r, WordsFor(c, bits), rows, WordsFor(cols, bits));
    WordsInRow(r, cols, c, bits);
  }

  /** `awq_to_marlin_zero_points` on the host */
  method AwqToMarlinZeroPoints(qzeros: Matrix, sizeK: nat, sizeN: nat, bits: nat) returns (r: Result<Matrix, Failure>)
    requires Width(bits) && PosIn(sizeN, bits) == 0 && qzeros.Valid()
    ensures r.Ok? <==> qzeros.rows == sizeK && qzeros.cols == WordsFor(sizeN, bits) && Times(sizeK, sizeN) % 64 == 0
    ensures r.Ok? ==>
              && WholeBlocks(qzeros.data, bits)
              && r.value == Matrix(sizeK, WordsFor(sizeN, bits), ZeroPoints(qzeros.data, bits))
    ensures r.Ok? ==> r.value.Valid()
  {
    if qzeros.rows != sizeK || qzeros.cols != WordsFor(sizeN, bits) {
      return Err(AssertionFailed);
    }
    PackedSize(sizeK, sizeN, bits);
    var unpacked := UnpackCols(qzeros.data, sizeK, sizeN, bits);
    var unpermuted := PermuteBlocks(unpacked[..], Undo(bits));
    var perm := ScalePerm();
    if unpermuted.Length % |perm| != 0 {
      return Err(AssertionFailed);
    }
    ScaleBlockRange();
    var permuted := PermuteBlocks(unpermuted[..], perm);
    var interleaved := PermuteBlocks(permuted[..], PackIdx(bits));
    assert WholeBlocks(qzeros.data, bits) && interleaved[..] == Interleaved(qzeros.data, bits);
    InterleavedFits(qzeros.data, bits);
    var packed := PackCols(interleaved[..], sizeK, sizeN, bits);
    ZeroPointsAreWords(qzeros.data, bits);
    r := Ok(Matrix(sizeK, WordsFor(sizeN, bits), packed[..]));
  }
}
