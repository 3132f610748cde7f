/**
 Key-value addressing over a whole `generate` run with a paged cache
 (python/infinilm/infer_engine.py, `InferEngine.generate`).
 */
module PagedGenerate {
  import opened DivMod
  import opened Results

  /** Python's `range(lo, hi, step)`. */
  function Range(lo: nat, hi: nat, step: nat): (r: seq<nat>)
    requires step > 0
    decreases hi - lo
  {
    if lo >= hi then [] else [lo] + Range(lo + step, hi, step)
  }

  lemma {:induction false} RangeIs(q: nat, r: nat, batch: nat, size: nat)
    requires r < size
    ensures
      var range := Range(At(q, size, r), Times(batch, size), size);
      && |range| == (if q <= batch then batch - q else 0)
      && forall b: nat :: b < |range| ==> range[b] == At(q + b, size, r)
    decreases batch - q
  {
    if q < batch {
      AtBelow(q, r, batch, size);
      assert At(q, size, r) + size == At(q + 1, size, r) by { NextGroup(q, size); }
      RangeIs(q + 1, r, batch, size);
      var range := Range(At(q, size, r), Times(batch, size), size);
      var rest := Range(At(q + 1, size, r), Times(batch, size), size);
      forall b: nat | b < |range|
        ensures range[b] == At(q + b, size, r)
      {
        if b > 0 {
          assert rest[b - 1] == At(q + 1 + (b - 1), size, r);
        }
      }
    } else {
      MulLe(batch, q, size);
    }
  }

  /**
   The decode step's `range` has one element for each request exactly when the position is inside a
   request's slots.
   */
  lemma OneSlotEach(past: nat, batch: nat, size: nat)
    requires batch > 0 && size > 0
    ensures |Range(past, Times(batch, size), size)| == batch <==> past < size
  {
    var q: nat, r: nat := past / size, past % size;
    DivModIdentity(past, size);
    assert past == At(q, size, r);
    assert q == 0 <==> past < size by { if q > 0 { MulLe(1, q, size); } }
    RangeIs(q, r, batch, size);
  }

  // ---- the run ----

  /** What one forward call is given. */
  datatype Call = Call(inputs: seq<int>, positions: seq<nat>, slots: seq<nat>, past: nat, seqLen: nat)

  /** Blocks needed for the prompt and everything that may be generated. */
  function BlocksPerRequest(promptLen: nat, maxNew: nat, blockSize: nat): nat
    requires blockSize > 0
  {
    (promptLen + maxNew + blockSize - 1) / blockSize
  }

  /** The slots reserved for each request. */
  function Reserved(promptLen: nat, maxNew: nat, blockSize: nat): nat
    requires blockSize > 0
  {
    Times(BlocksPerRequest(promptLen, maxNew, blockSize), blockSize)
  }

  lemma ReservedIsEnough(promptLen: nat, maxNew: nat, blockSize: nat)
    requires blockSize > 0
    ensures promptLen + maxNew <= Reserved(promptLen, maxNew, blockSize) < promptLen + maxNew + blockSize
  {
    DivModIdentity(promptLen + maxNew + blockSize - 1, blockSize);
  }

  /** Where the block table of request `b` puts position `i`. */
  function TableSlot(tables: seq<seq<nat>>, blockSize: nat, b: nat, i: nat): nat
    requires blockSize > 0 && b < |tables| && i / blockSize < |tables[b]|
  {
    At(tables[b][i / blockSize], blockSize, i % blockSize)
  }

  ghost predicate Tables(tables: seq<seq<nat>>, batch: nat, blocks: nat) {
    && |tables| == batch
    && (forall b: nat :: b < batch ==> |tables[b]| == blocks)
    && (forall b: nat, k: nat :: b < batch && k < blocks ==> tables[b][k] == At(b, blocks, k))
  }

  function PastAt(t: nat, promptLen: nat): nat {
    if t == 0 then 0 else promptLen + t - 1
  }

  function LenAt(t: nat, promptLen: nat): nat {
    if t == 0 then promptLen else 1
  }

  /** A call hands each of the requests `seqLen` tokens, at the next positions and into the slots reserved for them. */
  ghost predicate Addresses(c: Call, batch: nat, size: nat) {
    && |c.slots| == |c.positions| == Times(batch, c.seqLen)
    && (forall b: nat, j: nat :: b < batch && j < c.seqLen ==>
          && At(b, c.seqLen, j) < |c.slots|
          && c.slots[At(b, c.seqLen, j)] == At(b, size, c.past + j)
          && c.positions[At(b, c.seqLen, j)] == c.past + j)
  }

  ghost predicate CallAt(c: Call, t: nat, batch: nat, promptLen: nat, size: nat) {
    c.past == PastAt(t, promptLen) && c.seqLen == LenAt(t, promptLen) && c.past + c.seqLen <= size
        && Addresses(c, batch, size)
  }

  ghost predicate Calls(calls: seq<Call>, batch: nat, promptLen: nat, size: nat) {
    forall t: nat :: t < |calls| ==> CallAt(calls[t], t, batch, promptLen, size)
  }

  lemma CallsSnoc(calls: seq<Call>, c: Call, batch: nat, promptLen: nat, size: nat)
    requires Calls(calls, batch, promptLen, size) && CallAt(c, |calls|, batch, promptLen, size)
    ensures Calls(calls + [c], batch, promptLen, size)
  {
    forall t: nat | t < |calls + [c]|
      ensures CallAt((calls + [c])[t], t, batch, promptLen, size)
    {
      if t < |calls| {
        assert CallAt(calls[t], t, batch, promptLen, size);
      }
    }
  }

  /** `list(range(lo, lo + n)) * batch` */
  method Repeated(lo: nat, n: nat, batch: nat) returns (r: seq<nat>)
    ensures |r| == Times(batch, n)
    ensures forall b: nat, j: nat :: b < batch && j < n ==> At(b, n, j) < |r| && r[At(b, n, j)] == lo + j
  {
    r := [];
    for k := 0 to batch
      invariant |r| == Times(k, n)
      invariant forall b: nat, j: nat :: b < k && j < n ==> At(b, n, j) < |r| && r[At(b, n, j)] == lo + j
    {
      r := Extended(r, k, n, lo);
      assert forall j: nat :: j < n ==> r[At(k, n, j)] == lo + j;
    }
  }

  /** One more group of consecutive numbers. */
  function Extended(r: seq<nat>, k: nat, n: nat, lo: nat): (r': seq<nat>)
    requires |r| == Times(k, n)
    ensures |r'| == Times(k + 1, n) && r <= r'
    ensures forall j: nat :: j < n ==> At(k, n, j) < |r'| && r'[At(k, n, j)] == lo + j
  {
    NextGroup(k, n);
    r + seq(n, j requires 0 <= j < n => lo + j)
  }

  method PrefillSlots(n: nat, batch: nat, size: nat) returns (r: seq<nat>)
    ensures |r| == Times(batch, n)
    ensures forall b: nat, j: nat :: b < batch && j < n ==> At(b, n, j) < |r| && r[At(b, n, j)] == At(b, size, j)
  {
    r := [];
    for k := 0 to batch
      invariant |r| == Times(k, n)
      invariant forall b: nat, j: nat :: b < k && j < n ==> At(b, n, j) < |r| && r[At(b, n, j)] == At(b, size, j)
    {
      r := Extended(r, k, n, Times(k, size));
      assert forall j: nat :: j < n ==> r[At(k, n, j)] == At(k, size, j);
    }
  }

  method BlockTables(batch: nat, blocks: nat) returns (tables: seq<seq<nat>>)
    ensures Tables(tables, batch, blocks)
  {
    tables := [];
    for i := 0 to batch
      invariant |tables| == i && Tables(tables, i, blocks)
    {
      NextGroup(i, blocks);
      tables := tables + [seq(blocks, k requires 0 <= k < blocks => At(i, blocks, k))];
    }
  }

  lemma DecodeAddresses(c: Call, batch: nat, size: nat)
    requires c.seqLen == 1 && c.past < size
    requires |c.positions| == Times(batch, 1) && c.slots == Range(c.past, Times(batch, size), size)
    requires forall b: nat, j: nat :: b < batch && j < 1 ==>
              At(b, 1, j) < |c.positions| && c.positions[At(b, 1, j)] == c.past + j
    ensures Addresses(c, batch, size)
  {
    SingleGroups(batch);
    forall b: nat, j: nat | b < batch && j < c.seqLen
      ensures At(b, c.seqLen, j) < |c.slots| && c.slots[At(b, c.seqLen, j)] == At(b, size, c.past + j)
    {
      DecodeSlot(c.past, batch, size, b);
      SingleGroups(b);
    }
    RangeOf(c.past, batch, size);
  }

  /** The decode step's slot of request `b`. */
  lemma DecodeSlot(past: nat, batch: nat, size: nat, b: nat)
    requires past < size && b < batch
    ensures var range := Range(past, Times(batch, size), size); b < |range| && range[b] == At(b, size, past)
  {
    RangeOf(past, batch, size);
    RangeIs(0, past, batch, size);
    assert Range(past, Times(batch, size), size)[b] == At(0 + b, size, past);
  }

  lemma RangeOf(past: nat, batch: nat, size: nat)
    requires past < size
    ensures At(0, size, past) == past && |Range(past, Times(batch, size), size)| == batch
  {
    assert Times(0, size) == 0;
    RangeIs(0, past, batch, size);
  }

  lemma SingleGroups(n: nat)
    ensures Times(n, 1) == n && At(n, 1, 0) == n
  {
  }

  predicate Stops(batch: nat, stopOnEos: bool, eos: set<int>, output: seq<int>) {
    batch == 1 && stopOnEos && |output| > 0 && output[0] in eos
  }

  function Flattened(rows: seq<seq<int>>): seq<int> {
    if rows == [] then [] else rows[0] + Flattened(rows[1..])
  }

  /** Every request has `n` tokens. */
  ghost predicate Even(rows: seq<seq<int>>, n: nat) {
    forall b: nat :: b < |rows| ==> |rows[b]| == n
  }

  lemma {:induction false} FlattenedSize(rows: seq<seq<int>>, n: nat)
    requires Even(rows, n)
    ensures |Flattened(rows)| == Times(|rows|, n)
  {
    if rows != [] {
      FlattenedSize(rows[1..], n);
      NextGroup(|rows| - 1, n);
    } else {
      assert Times(0, n) == 0;
    }
  }

  /** `view([1, batch_size * seq_len])`: the rows one after the other. */
  lemma {:induction false} FlattenedAt(rows: seq<seq<int>>, n: nat, b: nat, j: nat)
    requires Even(rows, n) && b < |rows| && j < n
    ensures |Flattened(rows)| == Times(|rows|, n) && At(b, n, j) < Times(|rows|, n)
    ensures Flattened(rows)[At(b, n, j)] == rows[b][j]
  {
    FlattenedSize(rows, n);
    AtBelow(b, j, |rows|, n);
    if b == 0 {
      assert Times(0, n) == 0;
    } else {
      FlattenedAt(rows[1..], n, b - 1, j);
      NextGroup(b - 1, n);
    }
  }

  lemma FlattenedIs(rows: seq<seq<int>>, n: nat)
    requires Even(rows, n)
    ensures |Flattened(rows)| == Times(|rows|, n)
    ensures forall b: nat, j: nat :: b < |rows| && j < n ==>
              At(b, n, j) < |Flattened(rows)| && Flattened(rows)[At(b, n, j)] == rows[b][j]
  {
    FlattenedSize(rows, n);
    forall b: nat, j: nat | b < |rows| && j < n
      ensures At(b, n, j) < |Flattened(rows)| && Flattened(rows)[At(b, n, j)] == rows[b][j]
    {
      FlattenedAt(rows, n, b, j);
    }
  }

  function Inputs(t: nat, prompt: seq<seq<int>>, answers: nat -> seq<int>): seq<int> {
    if t == 0 then Flattened(prompt) else answers(t - 1)
  }

  /** Every iteration is given what the one before returned. */
  ghost predicate Fed(calls: seq<Call>, produced: seq<seq<int>>, prompt: seq<seq<int>>, answers: nat -> seq<int>) {
    && |produced| == |calls|
    && (forall t: nat :: t < |calls| ==> calls[t].inputs == Inputs(t, prompt, answers))
    && (forall t: nat :: t < |calls| ==> produced[t] == answers(t))
  }

  lemma FedSnoc(calls: seq<Call>, produced: seq<seq<int>>, prompt: seq<seq<int>>, answers: nat -> seq<int>, c: Call)
    requires Fed(calls, produced, prompt, answers) && c.inputs == Inputs(|calls|, prompt, answers)
    ensures Fed(calls + [c], produced + [answers(|calls|)], prompt, answers)
  {
  }

  /** The run ends at the token limit, or right after the first answer to a single request that is an end token. */
  ghost predicate EndsRight(n: nat, limit: nat, batch: nat, stopOnEos: bool, eos: set<int>, answers: nat -> seq<int>) {
    && n <= limit
    && (batch == 1 && stopOnEos ==> forall t: nat :: t < n - 1 && answers(t) != [] ==> answers(t)[0] !in eos)
    && (n < limit ==> n > 0 && batch == 1 && stopOnEos && answers(n - 1) != [] && answers(n - 1)[0] in eos)
  }

  /**
   `answers(t)` holds the tokens the model returns in iteration `t`, one for each request. A missing
   token limit is an error for one request as well: it is used in arithmetic further down.
   */
  method Generate(prompt: seq<seq<int>>, promptLen: nat, maxNew: Option<nat>, blockSize: nat,
                  stopOnEos: bool, eos: set<int>, answers: nat -> seq<int>)
    returns (outputs: Result<seq<seq<int>>, Failure>, calls: seq<Call>, tables: seq<seq<nat>>)
    requires blockSize > 0
    ensures outputs.Ok? <==> maxNew.Some?
    ensures outputs.Ok? ==>
      && Calls(calls, |prompt|, promptLen, Reserved(promptLen, maxNew.value, blockSize))
      && Fed(calls, outputs.value, prompt, answers)
      && Tables(tables, |prompt|, BlocksPerRequest(promptLen, maxNew.value, blockSize))
      && EndsRight(|calls|, maxNew.value, |prompt|, stopOnEos, eos, answers)
    ensures outputs.Ok? && calls != [] && Even(prompt, promptLen) ==>
      && |calls[0].inputs| == |calls[0].slots|
      && forall b: nat, j: nat :: b < |prompt| && j < promptLen ==>
           At(b, promptLen, j) < |calls[0].inputs| && calls[0].inputs[At(b, promptLen, j)] == prompt[b][j]
  {
    if Even(prompt, promptLen) {
      FlattenedIs(prompt, promptLen);
    }
    calls, tables := [], [];
    if maxNew.None? {
      return Err(Undefined), calls, tables;
    }
    var limit, batch, blocks := maxNew.value, |prompt|, BlocksPerRequest(promptLen, maxNew.value, blockSize);
    var size := Times(blocks, blockSize);
    ReservedIsEnough(promptLen, limit, blockSize);
    tables := BlockTables(batch, blocks);
    var produced, inputs, past, seqLen, iter := [], Flattened(prompt), 0, promptLen, 0;
    while iter < limit
      invariant iter == |calls| <= limit
      invariant past == PastAt(iter, promptLen) && seqLen == LenAt(iter, promptLen)
      invariant inputs == Inputs(iter, prompt, answers)
      invariant Calls(calls, batch, promptLen, size) && Fed(calls, produced, prompt, answers)
      invariant forall t: nat :: t < iter ==> !Stops(batch, stopOnEos, eos, answers(t))
    {
      var call := OneCall(inputs, iter == 0, past, seqLen, batch, size);
      CallsSnoc(calls, call, batch, promptLen, size);
      FedSnoc(calls, produced, prompt, answers, call);
      var output := answers(iter);
      calls, produced := calls + [call], produced + [output];
      if Stops(batch, stopOnEos, eos, output) {
        break;
      }
      inputs, past, seqLen := output, past + seqLen, 1;
      iter := iter + 1;
    }
    outputs := Ok(produced);
  }

  /** The addressing arguments of one iteration. */
  method OneCall(inputs: seq<int>, first: bool, past: nat, seqLen: nat, batch: nat, size: nat) returns (c: Call)
    requires past + seqLen <= size
    requires if first then past == 0 else seqLen == 1
    ensures c.inputs == inputs && c.past == past && c.seqLen == seqLen && Addresses(c, batch, size)
  {
    var positions := Repeated(past, seqLen, batch);
    if first {
      var slots := PrefillSlots(seqLen, batch, size);
      c := Call(inputs, positions, slots, past, seqLen);
    } else {
      c := Call(inputs, positions, Range(past, Times(batch, size), size), past, seqLen);
      DecodeAddresses(c, batch, size);
    }
  }

  // ---- the whole run ----

  /** The `k`-th write of iteration `t` goes to this slot. */
  ghost predicate Wrote(calls: seq<Call>, t: nat, k: nat, slot: nat) {
    t < |calls| && k < |calls[t].slots| && calls[t].slots[k] == slot
  }

  /** A write of iteration `t` belongs to one request and position. */
  lemma WriteBelongs(calls: seq<Call>, batch: nat, promptLen: nat, size: nat, t: nat, k: nat) returns (b: nat, j: nat)
    requires Calls(calls, batch, promptLen, size) && t < |calls| && k < |calls[t].slots|
    ensures b < batch && j < calls[t].seqLen && k == At(b, calls[t].seqLen, j)
    ensures calls[t].slots[k] == At(b, size, calls[t].past + j) && calls[t].past + j < size
  {
    var n := calls[t].seqLen;
    assert Times(batch, 0) == 0;
    DivModIdentity(k, n);
    b, j := k / n, k % n;
    if b >= batch {
      MulLe(batch, b, n);
      assert false;
    }
    assert Addresses(calls[t], batch, size);
  }

  lemma LaterPositions(t: nat, u: nat, promptLen: nat)
    requires t < u
    ensures PastAt(t, promptLen) + LenAt(t, promptLen) <= PastAt(u, promptLen)
  {
  }

  /** No slot is written twice in the run. */
  lemma NoSlotTwice(calls: seq<Call>, batch: nat, promptLen: nat, size: nat, t: nat, k: nat, u: nat, l: nat, slot: nat)
    requires Calls(calls, batch, promptLen, size) && Wrote(calls, t, k, slot) && Wrote(calls, u, l, slot)
    ensures t == u && k == l
  {
    var b, j := WriteBelongs(calls, batch, promptLen, size, t, k);
    var c, m := WriteBelongs(calls, batch, promptLen, size, u, l);
    AtUnique(b, calls[t].past + j, c, calls[u].past + m, size);
    if t < u {
      LaterPositions(t, u, promptLen);
    } else if u < t {
      LaterPositions(u, t, promptLen);
    }
  }

  /**
   The slot the block table gives for position `i` of request `b` is written in iteration `t` or before,
   and by the write of exactly that request and position: attention reads what was meant for it.
   */
  lemma ReadsOwnPositions(calls: seq<Call>, tables: seq<seq<nat>>, batch: nat, promptLen: nat, blocks: nat,
                          blockSize: nat,
                          t: nat, b: nat, i: nat) returns (u: nat, k: nat)
    requires blockSize > 0 && Tables(tables, batch, blocks) && Calls(calls, batch, promptLen, Times(blocks, blockSize))
    requires t < |calls| && b < batch && i < calls[t].past + calls[t].seqLen
    ensures i / blockSize < blocks && TableSlot(tables, blockSize, b, i) == At(b, Times(blocks, blockSize), i)
    ensures u <= t && Wrote(calls, u, k, TableSlot(tables, blockSize, b, i))
    ensures |calls[u].positions| == |calls[u].slots| && calls[u].positions[k] == i
    ensures calls[u].seqLen > 0 && k / calls[u].seqLen == b
  {
    TableSlotIs(tables, batch, blocks, blockSize, b, i);
    u := if i < promptLen then 0 else i - promptLen + 1;
    var c, size := calls[u], Times(blocks, blockSize);
    assert Addresses(c, batch, size);
    k := At(b, c.seqLen, i - c.past);
    DivModUnique(k, c.seqLen, b, i - c.past);
  }

  lemma TableSlotIs(tables: seq<seq<nat>>, batch: nat, blocks: nat, blockSize: nat, b: nat, i: nat)
    requires blockSize > 0 && Tables(tables, batch, blocks) && b < batch && i < Times(blocks, blockSize)
    ensures i / blockSize < blocks && TableSlot(tables, blockSize, b, i) == At(b, Times(blocks, blockSize), i)
  {
    var q: nat, r: nat := i / blockSize, i % blockSize;
    DivModIdentity(i, blockSize);
    if q >= blocks {
      MulLe(blocks, q, blockSize);
      assert false;
    }
    assert tables[b][q] == At(b, blocks, q);
    MulDistributes(b * blocks, q, blockSize);
    MulAssoc(b, blocks, blockSize);
  }

  /** After `n` iterations exactly the slots of the positions handled so far are written, request by request. */
  lemma WrittenExactly(calls: seq<Call>, batch: nat, promptLen: nat, size: nat, slot: nat)
    requires Calls(calls, batch, promptLen, size) && |calls| > 0
    ensures (exists t: nat, k: nat :: Wrote(calls, t, k, slot))
       <==> (exists b: nat, i: nat :: b < batch && i < PastAt(|calls|, promptLen) && slot == At(b, size, i))
  {
    if t: nat, k: nat :| Wrote(calls, t, k, slot) {
      assert Wrote(calls, t, k, slot);
      var b, j := WriteBelongs(calls, batch, promptLen, size, t, k);
      LaterPositions(t, |calls|, promptLen);
      assert slot == At(b, size, calls[t].past + j);
    }
    if b: nat, i: nat :| b < batch && i < PastAt(|calls|, promptLen) && slot == At(b, size, i) {
      var u: nat := if i < promptLen then 0 else i - promptLen + 1;
      var c := calls[u];
      assert Addresses(c, batch, size);
      assert Wrote(calls, u, At(b, c.seqLen, i - c.past), slot);
    }
  }

  // ---- whose tokens are written and read ----

  /** Token `i` of request `b`: of its prompt, or the answer it was given at that position. */
  function Token(prompt: seq<seq<int>>, promptLen: nat, answers: nat -> seq<int>, b: nat, i: nat): int
    requires Even(prompt, promptLen) && b < |prompt|
    requires i >= promptLen ==> b < |answers(i - promptLen)|
  {
    if i < promptLen then prompt[b][i] else answers(i - promptLen)[b]
  }

  /** The model answers every request with one token. */
  ghost predicate OneEach(answers: nat -> seq<int>, batch: nat) {
    forall t: nat :: |answers(t)| == batch
  }

  /**
   Every call hands over as many tokens as slots, and the token that is written for position `i` of request
   `b` is that request's token `i`.
   */
  lemma WritesOwnTokens(calls: seq<Call>, produced: seq<seq<int>>, prompt: seq<seq<int>>, promptLen: nat, size: nat,
                        answers: nat -> seq<int>, t: nat, k: nat, b: nat, i: nat)
    requires Calls(calls, |prompt|, promptLen, size) && Fed(calls, produced, prompt, answers)
    requires Even(prompt, promptLen) && OneEach(answers, |prompt|)
    requires b < |prompt| && i < size && Wrote(calls, t, k, At(b, size, i))
    ensures |calls[t].inputs| == |calls[t].slots|
    ensures calls[t].inputs[k] == Token(prompt, promptLen, answers, b, i)
  {
    var c, j := WriteBelongs(calls, |prompt|, promptLen, size, t, k);
    AtUnique(b, i, c, calls[t].past + j, size);
    SingleGroups(|prompt|);
    SingleGroups(b);
    assert calls[t].inputs == Inputs(t, prompt, answers);
    if t == 0 {
      FlattenedIs(prompt, promptLen);
    }
  }

  /** What attention reads for position `i` of request `b` was computed from that request's token `i`. */
  lemma ReadsOwnTokens(calls: seq<Call>, produced: seq<seq<int>>, tables: seq<seq<nat>>, prompt: seq<seq<int>>,
                       promptLen: nat, answers: nat -> seq<int>, blocks: nat, blockSize: nat, t: nat, b: nat, i: nat)
    returns (u: nat, k: nat)
    requires blockSize > 0 && Tables(tables, |prompt|, blocks)
    requires Calls(calls, |prompt|, promptLen, Times(blocks, blockSize)) && Fed(calls, produced, prompt, answers)
    requires Even(prompt, promptLen) && OneEach(answers, |prompt|)
    requires t < |calls| && b < |prompt| && i < calls[t].past + calls[t].seqLen
    ensures i / blockSize < blocks && u <= t && Wrote(calls, u, k, TableSlot(tables, blockSize, b, i))
    ensures k < |calls[u].inputs| && calls[u].inputs[k] == Token(prompt, promptLen, answers, b, i)
  {
    u, k := ReadsOwnPositions(calls, tables, |prompt|, promptLen, blocks, blockSize, t, b, i);
    WritesOwnTokens(calls, produced, prompt, promptLen, Times(blocks, blockSize), answers, u, k, b, i);
  }
}
