/**
 The inputs of the compiled decode graphs and their refresh before a replay
 (csrc/engine/compiler/paged_compiler.cpp). The block tables of all graphs are views of one buffer.
 */
module GraphInputs {
  import opened DivMod
  import opened Results

  // ---- the batch sizes that get a graph ----

  predicate HasGraph(b: nat) {
    || 1 <= b < 64
    || (64 <= b < 128 && b % 16 == 0)
    || (128 <= b < 256 && b % 32 == 0)
    || (256 <= b <= 512 && b % 64 == 0)
  }

  const MAX_BATCH := 512

  ghost predicate SizesBelow(sizes: seq<nat>, limit: nat) {
    && (forall b: nat :: b in sizes <==> HasGraph(b) && b < limit)
    && (forall i, j :: 0 <= i < j < |sizes| ==> sizes[i] < sizes[j])
  }

  /** One more size, or a gap of unsupported ones. */
  lemma SizesGrow(sizes: seq<nat>, b: nat, next: nat)
    requires SizesBelow(sizes, b) && HasGraph(b) && b < next
    requires forall c: nat :: b < c < next ==> !HasGraph(c)
    ensures SizesBelow(sizes + [b], next)
  {
    forall i, j | 0 <= i < j < |sizes + [b]|
      ensures (sizes + [b])[i] < (sizes + [b])[j]
    {
      assert sizes[i] in sizes;
    }
  }

  method DecodeBatchSizes() returns (sizes: seq<nat>)
    ensures SizesBelow(sizes, MAX_BATCH + 1) && MAX_BATCH in sizes
  {
    sizes := [];
    var b := 1;
    while b < 64
      invariant 1 <= b <= 64 && SizesBelow(sizes, b)
    {
      SizesGrow(sizes, b, b + 1);
      sizes, b := sizes + [b], b + 1;
    }
    b := 64;
    while b < 128
      invariant 64 <= b <= 128 && b % 16 == 0 && SizesBelow(sizes, b)
    {
      SizesGrow(sizes, b, b + 16);
      sizes, b := sizes + [b], b + 16;
    }
    b := 128;
    while b < 256
      invariant 128 <= b <= 256 && b % 32 == 0 && SizesBelow(sizes, b)
    {
      SizesGrow(sizes, b, b + 32);
      sizes, b := sizes + [b], b + 32;
    }
    b := 256;
    while b <= 512
      invariant 256 <= b <= 576 && b % 64 == 0 && SizesBelow(sizes, b)
    {
      SizesGrow(sizes, b, b + 64);
      sizes, b := sizes + [b], b + 64;
    }
  }

  // ---- runtime inputs ----

  datatype Input = Input(
    ids: seq<int>, positions: seq<int>, totals: seq<int>, offsets: seq<int>, cuSeqlens: seq<int>,
    table: seq<seq<int>>, width: nat, slots: seq<int>,
    mambaInit: Option<seq<int>>, mambaFinal: Option<seq<int>>)
  {
    function Batch(): nat {
      |table|
    }

    predicate Mamba() {
      mambaInit.Some? && mambaFinal.Some?
    }

    ghost predicate Valid() {
      forall i: nat :: i < |table| ==> |table[i]| == width
    }

    /** The fields copied before the table's width is looked at have the lengths of a graph's buffers. */
    predicate Fits(rows: nat) {
      |ids| == rows && |positions| == rows && |totals| == rows && |offsets| == rows + 1 && |cuSeqlens| == rows + 1
    }

    predicate MambaFits(rows: nat) {
      && (mambaInit.Some? ==> |mambaInit.value| == rows)
      && (mambaFinal.Some? ==> |mambaFinal.value| == rows)
    }

    /** What a graph with these sizes makes of the input; a copy between different lengths is an error. */
    function Verdict(rows: nat, graphWidth: nat, mamba: bool): (r: Refreshed)
      ensures r.Refreshed? <==>
              && |ids| == |positions| == |totals| == |slots| == rows && |offsets| == |cuSeqlens| == rows + 1
              && width <= graphWidth && (mamba <==> mambaInit.Some? && mambaFinal.Some?)
              && (mamba ==> |mambaInit.value| == |mambaFinal.value| == rows)
      ensures r.Declined? ==> width > graphWidth || (mamba <==> mambaInit.None? || mambaFinal.None?)
    {
      if !Fits(rows) then Failed
      else if width > graphWidth then Declined
      else if |slots| != rows then Failed
      else if mamba != Mamba() then Declined
      else if mamba && !MambaFits(rows) then Failed
      else Refreshed
    }
  }

  datatype Refreshed = Refreshed | Declined | Failed

  /** The entry of a block table padded to the width of a graph. */
  function Padded(input: Input, i: nat, j: nat): int
    requires input.Valid() && i < input.Batch()
  {
    if j < input.width then input.table[i][j] else -1
  }

  // ---- the buffers of one graph ----

  class GraphInput {
    var ids: seq<int>
    var positions: seq<int>
    var totals: seq<int>
    var offsets: seq<int>
    var cuSeqlens: seq<int>
    var slots: seq<int>
    var mambaInit: seq<int>
    var mambaFinal: seq<int>
    const mamba: bool
    const rows: nat
    const width: nat
    const table: array<int>

    constructor (rows: nat, width: nat, table: array<int>, mamba: bool)
      ensures Sized()
      ensures this.rows == rows && this.width == width && this.table == table && this.mamba == mamba
    {
      this.rows, this.width, this.table, this.mamba := rows, width, table, mamba;
      var zeros := seq(rows, _ => 0);
      var counting := seq(rows + 1, i => i);
      ids, positions, slots := zeros, zeros, zeros;
      totals, offsets, cuSeqlens := seq(rows, _ => 1), counting, counting;
      mambaInit, mambaFinal := zeros, seq(rows, _ => 1);
    }

    ghost predicate Valid() {
      Times(rows, width) <= table.Length
    }

    /** The buffers never change their lengths. */
    ghost predicate Sized()
      reads this
    {
      && |ids| == |positions| == |totals| == |slots| == |mambaInit| == |mambaFinal| == rows
      && |offsets| == |cuSeqlens| == rows + 1
    }

    /** The fields that are copied whole. */
    ghost predicate Copied(input: Input)
      reads this
    {
      && ids == input.ids && positions == input.positions && totals == input.totals && offsets == input.offsets
      && cuSeqlens == input.cuSeqlens && slots == input.slots
      && (mamba ==> Some(mambaInit) == input.mambaInit && Some(mambaFinal) == input.mambaFinal)
    }

    ghost predicate TableIs(input: Input)
      requires Valid() && input.Valid() && input.Batch() == rows
      reads table
    {
      forall i: nat, j: nat :: i < rows && j < width ==>
        At(i, width, j) < table.Length && table[At(i, width, j)] == Padded(input, i, j)
    }

    /** Fill the rows of this graph with -1. */
    method ClearRows()
      requires Valid()
      modifies table
      ensures forall k :: 0 <= k < Times(rows, width) ==> table[k] == -1
      ensures forall k :: Times(rows, width) <= k < table.Length ==> table[k] == old(table[k])
    {
      for k := 0 to Times(rows, width)
        invariant forall l :: 0 <= l < k ==> table[l] == -1
        invariant forall l :: k <= l < table.Length ==> table[l] == old(table[l])
      {
        table[k] := -1;
      }
    }

    /** Overwrite the first columns of one row. */
    method CopyRow(i: nat, row: seq<int>)
      requires Valid() && i < rows && |row| <= width
      modifies table
      ensures At(i, width, |row|) <= table.Length
      ensures forall j: nat :: j < |row| ==> table[At(i, width, j)] == row[j]
      ensures forall k :: 0 <= k < table.Length && !(At(i, width, 0) <= k < At(i, width, |row|)) ==>
              table[k] == old(table[k])
    {
      NextGroup(i, width);
      MulLe(i + 1, rows, width);
      for j := 0 to |row|
        invariant forall l: nat :: l < j ==> table[At(i, width, l)] == row[l]
        invariant forall k :: 0 <= k < table.Length && !(At(i, width, 0) <= k < At(i, width, j)) ==>
                  table[k] == old(table[k])
      {
        table[At(i, width, j)] := row[j];
      }
    }

    ghost predicate RowsDone(input: Input, n: nat)
      requires Valid() && input.Valid() && input.Batch() == rows
      reads table
    {
      && (forall i: nat, j: nat :: i < n && i < rows && j < width ==>
            At(i, width, j) < table.Length && table[At(i, width, j)] == Padded(input, i, j))
      && (forall k :: Times(n, width) <= k < Times(rows, width) ==> table[k] == -1)
    }

    method RefreshTable(input: Input)
      requires Valid() && input.Valid() && input.Batch() == rows && input.width <= width
      modifies table
      ensures TableIs(input)
      ensures forall k :: Times(rows, width) <= k < table.Length ==> table[k] == old(table[k])
    {
      ClearRows();
      assert Times(0, width) == 0;
      for i := 0 to rows
        invariant RowsDone(input, i)
        invariant forall k :: Times(rows, width) <= k < table.Length ==> table[k] == old(table[k])
      {
        label before:
        CopyRow(i, input.table[i]);
        NextGroup(i, width);
        MulLe(i + 1, rows, width);
        forall l: nat, j: nat | l < i + 1 && j < width
          ensures At(l, width, j) < table.Length && table[At(l, width, j)] == Padded(input, l, j)
        {
          MulLe(l + 1, i + 1, width);
          NextGroup(l, width);
          if l < i {
            MulLe(l + 1, i, width);
            assert old@before(table[At(l, width, j)]) == Padded(input, l, j);
          } else if j >= input.width {
            assert old@before(table[At(i, width, j)]) == -1;
          }
        }
      }
    }

    /** Copy the runtime input into the buffers. */
    method Refresh(input: Input) returns (r: Refreshed)
      requires Valid() && Sized() && input.Valid() && input.Batch() == rows
      modifies this, table
      ensures Sized() && r == input.Verdict(rows, width, mamba)
      ensures r.Refreshed? ==> Copied(input) && TableIs(input)
      ensures forall k :: Times(rows, width) <= k < table.Length ==> table[k] == old(table[k])
    {
      var ok := CopyFields(input);
      if !ok {
        return Failed;
      }
      if input.width > width {
        return Declined;
      }
      RefreshTable(input);
      if |input.slots| != |slots| {
        return Failed;
      }
      slots := input.slots;
      if mamba != input.Mamba() {
        return Declined;
      }
      if mamba {
        if |input.mambaInit.value| != |mambaInit| {
          return Failed;
        }
        mambaInit := input.mambaInit.value;
        if |input.mambaFinal.value| != |mambaFinal| {
          return Failed;
        }
        mambaFinal := input.mambaFinal.value;
      }
      r := Refreshed;
    }

    /** The copies before the width is looked at; the first whose lengths differ throws. */
    method CopyFields(input: Input) returns (ok: bool)
      requires Sized()
      modifies this
      ensures Sized() && (ok <==> input.Fits(rows))
      ensures ok ==> ids == input.ids && positions == input.positions && totals == input.totals
      ensures ok ==> offsets == input.offsets && cuSeqlens == input.cuSeqlens
    {
      if |input.ids| != |ids| {
        return false;
      }
      ids := input.ids;
      if |input.positions| != |positions| {
        return false;
      }
      positions := input.positions;
      if |input.totals| != |totals| {
        return false;
      }
      totals := input.totals;
      if |input.offsets| != |offsets| {
        return false;
      }
      offsets := input.offsets;
      if |input.cuSeqlens| != |cuSeqlens| {
        return false;
      }
      cuSeqlens := input.cuSeqlens;
      ok := true;
    }
  }

  // ---- the compiler ----

  class PagedCompiler {
    const paged: bool
    const nblocks: nat
    const mamba: bool
    var sizes: seq<nat>
    var holder: array<int>
    var compiled: map<nat, GraphInput>

    ghost predicate Valid()
      reads this, compiled.Values
    {
      && (forall b: nat :: b in compiled ==> compiled[b].Sized())
      && holder.Length == Times(MAX_BATCH, nblocks) && SizesBelow(sizes, MAX_BATCH + 1)
      && (forall b: nat :: b in compiled ==>
            && HasGraph(b) && compiled[b].rows == b && compiled[b].width == nblocks
            && compiled[b].table == holder && compiled[b].mamba == mamba)
      && (forall b: nat, c: nat :: b in compiled && c in compiled && compiled[b] == compiled[c] ==> b == c)
    }

    constructor (paged: bool, nblocks: nat, mamba: bool)
      ensures Valid() && compiled == map[] && fresh(holder)
      ensures this.paged == paged && this.nblocks == nblocks && this.mamba == mamba
    {
      this.paged, this.nblocks, this.mamba, compiled := paged, nblocks, mamba, map[];
      holder := new int[Times(MAX_BATCH, nblocks)];
      var supported := DecodeBatchSizes();
      sizes := supported;
    }

    /** Graphs for exactly the supported sizes, all reading their tables from one new buffer. */
    method Compile()
      requires Valid()
      modifies this`compiled, this`holder
      ensures Valid()
      ensures paged ==> fresh(holder) && forall b: nat :: b in compiled <==> HasGraph(b)
      ensures paged ==> forall b: nat :: b in compiled ==> fresh(compiled[b])
      ensures !paged ==> compiled == old(compiled) && holder == old(holder)
    {
      if paged {
        compiled := map[];
        holder := new int[Times(MAX_BATCH, nblocks)](_ => 0);
        for k := 0 to |sizes|
          invariant Valid() && fresh(holder)
          invariant forall b: nat :: b in compiled <==> b in sizes[..k]
          invariant forall b: nat :: b in compiled ==> fresh(compiled[b])
        {
          var b := sizes[k];
          assert b in sizes && sizes[..k + 1] == sizes[..k] + [b];
          var graph := new GraphInput(b, nblocks, holder, mamba);
          compiled := compiled[b := graph];
        }
        assert sizes[..|sizes|] == sizes;
      }
    }

    /**
     The graph for a decode batch, with its buffers holding this input whatever was run before; or
     null, and then the caller runs without a graph. `failed` is an exception from a copy.
     */
    method GetCompiled(input: Input) returns (graph: GraphInput?, failed: bool)
      requires Valid() && input.Valid()
      modifies holder, set b: nat | b in compiled && b == input.Batch() :: compiled[b]
      ensures Valid()
      ensures
        var tried := paged && input.Batch() == |input.ids| && input.Batch() in compiled;
        && (graph != null <==> tried && input.Verdict(input.Batch(), nblocks, mamba).Refreshed?)
        && (failed <==> tried && input.Verdict(input.Batch(), nblocks, mamba).Failed?)
      ensures graph != null ==>
                graph == compiled[input.Batch()] && graph.rows == input.Batch() && graph.width == nblocks
      ensures graph != null ==> graph.Valid() && graph.Copied(input) && graph.TableIs(input)
      ensures forall k :: Times(input.Batch(), nblocks) <= k < holder.Length ==> holder[k] == old(holder[k])
    {
      graph, failed := null, false;
      if paged {
        var batch := input.Batch();
        if batch != |input.ids| {
          return;
        }
        if batch !in compiled {
          return;
        }
        var found := compiled[batch];
        MulLe(batch, MAX_BATCH, nblocks);
        var r := found.Refresh(input);
        failed := r.Failed?;
        if r.Refreshed? {
          graph := found;
        }
      }
    }
  }

  // ---- the decode test ----

  function Tokens(lens: seq<nat>): nat {
    if lens == [] then 0 else lens[0] + Tokens(lens[1..])
  }

  lemma {:induction false} AtLeastOneEach(lens: seq<nat>)
    requires forall i :: 0 <= i < |lens| ==> lens[i] >= 1
    ensures Tokens(lens) >= |lens|
    ensures Tokens(lens) == |lens| <==> forall i :: 0 <= i < |lens| ==> lens[i] == 1
  {
    if lens != [] {
      AtLeastOneEach(lens[1..]);
      assert forall i :: 1 <= i < |lens| ==> lens[i] == lens[1..][i - 1];
      if forall i :: 0 <= i < |lens| ==> lens[i] == 1 {
        assert forall i :: 0 <= i < |lens[1..]| ==> lens[1..][i] == 1;
      }
    }
  }

  /** With a request that has no token the same test lets a prefill through. */
  lemma EmptyRequestPassesTest()
    ensures Tokens([0, 2]) == |[0, 2]|
  {
    assert [0, 2][1..] == [2] && [2][1..] == [];
    assert Tokens([2]) == 2;
  }
}
