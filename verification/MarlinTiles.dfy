/**
 Repacking of a quantised weight matrix into the order the Marlin kernel reads: 16 x 64 tiles, and in
 each tile one or two words for every thread of four warps
 (csrc/layers/quantization/marlin_utils.cpp, `repack_to_marlin_tiles`).
 */
module MarlinTiles {
  import opened DivMod
  import opened BitFields
  import opened Results

  // ---- the fixed orders ----

  /** Which of the eight values of a thread goes into each field of a word. */
  function PackIdx(bits: nat): (p: seq<nat>)
    requires Width(bits)
    ensures |p| == PerWord(bits) && forall i :: 0 <= i < |p| ==> p[i] < |p|
  {
    if bits == 4 then [0, 2, 4, 6, 1, 3, 5, 7] else [0, 2, 1, 3]
  }

  /** The fields of a word in which AWQ keeps consecutive columns. */
  function Undo(bits: nat): (p: seq<nat>)
    requires Width(bits)
    ensures |p| == PerWord(bits) && forall i :: 0 <= i < |p| ==> p[i] < |p|
  {
    if bits == 4 then [0, 4, 1, 5, 2, 6, 3, 7] else [0, 2, 1, 3]
  }

  /** Both deal the first half of a word and the second half out in turn: one puts them together, one apart. */
  lemma OrdersDeal(bits: nat, f: nat)
    requires Width(bits) && f < PerWord(bits)
    ensures
      var half := PerWord(bits) / 2;
      PackIdx(bits)[f] == 2 * (f % half) + f / half && Undo(bits)[f] == half * (f % 2) + f / 2
  {
    if f == 0 {} else if f == 1 {} else if f == 2 {} else if f == 3 {}
    else if f == 4 {} else if f == 5 {} else if f == 6 {} else {}
  }

  const TC_OFFSETS: seq<nat> := [0, 1, 8, 9]

  function TileWords(bits: nat): (n: nat)
    requires Width(bits)
    ensures n == if bits == 4 then 128 else 256
  {
    16 * 64 / PerWord(bits)
  }

  /** The value of a thread that field `f` of its word (for 8 bits, of one of its two words) holds. */
  function Lane(bits: nat, upper: bool, f: nat): (a: nat)
    requires Width(bits) && f < PerWord(bits)
    ensures a < 8
  {
    (if bits == 8 && upper then 4 else 0) + PackIdx(bits)[f]
  }

  ghost predicate PackedFrom(word: nat, vals: seq<nat>, bits: nat, upper: bool)
    requires Width(bits) && |vals| == 8
  {
    forall f: nat :: f < PerWord(bits) ==> Field(word, bits, f) == vals[Lane(bits, upper, f)]
  }

  /** The values that go into the fields of one word. */
  function Picked(vals: seq<nat>, bits: nat, upper: bool): (fields: seq<nat>)
    requires Width(bits) && |vals| == 8
    ensures |fields| == PerWord(bits)
  {
    seq(PerWord(bits), f requires 0 <= f < PerWord(bits) => vals[Lane(bits, upper, f)])
  }

  lemma PickedFits(vals: seq<nat>, bits: nat, upper: bool)
    requires Width(bits) && |vals| == 8 && Fits(vals, bits)
    ensures Fits(Picked(vals, bits, upper), bits)
  {
  }

  lemma PickedFrom(fields: seq<nat>, vals: seq<nat>, bits: nat, upper: bool)
    requires Width(bits) && |vals| == 8 && Fits(fields, bits) && fields == Picked(vals, bits, upper)
    ensures PackedFrom(Assemble(fields, bits), vals, bits, upper)
  {
    forall f: nat | f < PerWord(bits)
      ensures Field(Assemble(fields, bits), bits, f) == vals[Lane(bits, upper, f)]
    {
      FieldOfAssembled(fields, bits, f);
    }
  }

  lemma PutNext(fields: seq<nat>, bits: nat, i: nat)
    requires Width(bits) && Fits(fields, bits) && i < |fields| == PerWord(bits)
    ensures Or(Assemble(fields[..i], bits), ShiftLeft(fields[i], bits * i))
            == Assemble(fields[..i + 1], bits) < WORD_SIZE
  {
    assert fields[..i + 1] == fields[..i] + [fields[i]] && Fits(fields[..i], bits);
    PutField(fields[..i], bits, fields[i]);
  }

  /** `pack_repack_values` */
  method PackRepackValues(vals: seq<nat>, bits: nat, upper: bool) returns (word: nat)
    requires Width(bits) && |vals| == 8 && Fits(vals, bits)
    ensures word < WORD_SIZE && PackedFrom(word, vals, bits, upper)
  {
    word := 0;
    ghost var fields := Picked(vals, bits, upper);
    PickedFits(vals, bits, upper);
    for i := 0 to PerWord(bits)
      invariant word == Assemble(fields[..i], bits) < WORD_SIZE
    {
      PutNext(fields, bits, i);
      word := Or(word, ShiftLeft(vals[Lane(bits, upper, i)], bits * i));
    }
    assert fields[..PerWord(bits)] == fields;
    PickedFrom(fields, vals, bits, upper);
  }

  // ---- where a word and field of a tile comes from ----

  function Thread(bits: nat, r: nat): nat {
    if bits == 4 then r / 4 else r / 8
  }

  function Warp(bits: nat, r: nat): nat {
    if bits == 4 then r % 4 else r % 8 / 2
  }

  function UpperWord(bits: nat, r: nat): bool {
    bits == 8 && r % 2 == 1
  }

  function LaneRow(th: nat, a: nat): (k: nat)
    requires a < 8
    ensures k < 16
  {
    th % 4 * 2 + TC_OFFSETS[a % 4]
  }

  function LaneCol(warp: nat, th: nat, a: nat): nat {
    warp * 16 + th / 4 + 8 * (a / 4)
  }

  function RowIn(bits: nat, r: nat, f: nat): (k: nat)
    requires Width(bits) && f < PerWord(bits)
    ensures k < 16
  {
    LaneRow(Thread(bits, r), Lane(bits, UpperWord(bits, r), f))
  }

  function ColIn(bits: nat, r: nat, f: nat): nat
    requires Width(bits) && f < PerWord(bits)
  {
    LaneCol(Warp(bits, r), Thread(bits, r), Lane(bits, UpperWord(bits, r), f))
  }

  // ---- where a value of a tile goes ----

  function LaneOf(k: nat, n: nat): (a: nat)
    requires k < 16
    ensures a < 8
  {
    4 * (n % 16 / 8) + 2 * (k / 8) + k % 2
  }

  function ThreadOf(k: nat, n: nat): nat {
    4 * (n % 8) + k % 8 / 2
  }

  function ThreadWord(bits: nat, warp: nat, th: nat, a: nat): nat {
    if bits == 4 then th * 4 + warp else th * 8 + warp * 2 + a / 4
  }

  function LaneField(bits: nat, a: nat): (f: nat)
    requires Width(bits) && a < 8
    ensures f < PerWord(bits)
  {
    if bits == 4 then a / 2 + 4 * (a % 2) else PackIdx(8)[a % 4]
  }

  function WordIn(bits: nat, k: nat, n: nat): nat
    requires k < 16 && n < 64
  {
    ThreadWord(bits, n / 16, ThreadOf(k, n), LaneOf(k, n))
  }

  function FieldIn(bits: nat, k: nat, n: nat): (f: nat)
    requires Width(bits) && k < 16
    ensures f < PerWord(bits)
  {
    LaneField(bits, LaneOf(k, n))
  }

  lemma LanesOfThread(th: nat, warp: nat, a: nat)
    requires th < 32 && warp < 4 && a < 8
    ensures
      var k, n := LaneRow(th, a), LaneCol(warp, th, a);
      n < 64 && LaneOf(k, n) == a && ThreadOf(k, n) == th && n / 16 == warp
  {
    var q, c, h, u, l := th % 4, th / 4, a / 4, a % 4 / 2, a % 2;
    assert th == 4 * c + q && a == 4 * h + (2 * u + l);
    LaneOfDigits(q, c, h, u, l, warp, th, a);
    DigitsOfLane(8 * u + 2 * q + l, 16 * warp + 8 * h + c, u, q, l, warp, h, c);
  }

  lemma DigitsOfLane(k: nat, n: nat, u: nat, q: nat, l: nat, w: nat, h: nat, c: nat)
    requires u < 2 && q < 4 && l < 2 && w < 4 && h < 2 && c < 8
    requires k == 8 * u + 2 * q + l && n == 16 * w + 8 * h + c
    ensures k < 16 && LaneOf(k, n) == 4 * h + 2 * u + l && ThreadOf(k, n) == 4 * c + q && n / 16 == w && n < 64
  {
    DivModUnique(k, 8, u, 2 * q + l);
    DivModUnique(2 * q + l, 2, q, l);
    DivModUnique(k, 2, 4 * u + q, l);
    DivModUnique(n, 16, w, 8 * h + c);
    DivModUnique(8 * h + c, 8, h, c);
    DivModUnique(n, 8, 2 * w + h, c);
  }

  lemma SplitRow(k: nat) returns (u: nat, q: nat, l: nat)
    requires k < 16
    ensures u < 2 && q < 4 && l < 2 && k == 8 * u + 2 * q + l
    ensures k / 8 == u && k % 8 / 2 == q && k % 2 == l
  {
    u, q, l := k / 8, k % 8 / 2, k % 2;
  }

  lemma SplitCol(n: nat) returns (w: nat, h: nat, c: nat)
    requires n < 64
    ensures w < 4 && h < 2 && c < 8 && n == 16 * w + 8 * h + c
    ensures n / 16 == w && n % 16 / 8 == h && n % 8 == c
  {
    w, h, c := n / 16, n % 16 / 8, n % 8;
  }

  lemma OffsetOf(u: nat, l: nat)
    requires u < 2 && l < 2
    ensures TC_OFFSETS[2 * u + l] == 8 * u + l
  {
    if u == 0 {
      if l == 0 {} else {}
    } else {
      if l == 0 {} else {}
    }
  }

  lemma LaneOfDigits(q: nat, c: nat, h: nat, u: nat, l: nat, w: nat, th: nat, a: nat)
    requires q < 4 && u < 2 && l < 2 && h < 2 && th == 4 * c + q && a == 4 * h + (2 * u + l)
    ensures LaneRow(th, a) == 8 * u + 2 * q + l
    ensures LaneCol(w, th, a) == 16 * w + 8 * h + c
  {
    OffsetOf(u, l);
    DivModUnique(th, 4, c, q);
    DivModUnique(a, 4, h, 2 * u + l);
  }

  lemma ThreadOfLanes(k: nat, n: nat)
    requires k < 16 && n < 64
    ensures ThreadOf(k, n) < 32 && n / 16 < 4
    ensures LaneRow(ThreadOf(k, n), LaneOf(k, n)) == k && LaneCol(n / 16, ThreadOf(k, n), LaneOf(k, n)) == n
  {
    var u, q, l := SplitRow(k);
    var w, h, c := SplitCol(n);
    assert ThreadOf(k, n) == 4 * c + q && LaneOf(k, n) == 4 * h + (2 * u + l);
    LaneOfDigits(q, c, h, u, l, w, ThreadOf(k, n), LaneOf(k, n));
  }

  /** The field of a lane holds this lane, in the word of its half. */
  lemma LaneFieldUndone(bits: nat, a: nat)
    requires Width(bits) && a < 8
    ensures Lane(bits, bits == 8 && a >= 4, LaneField(bits, a)) == a
  {
  }

  lemma WordsOfThread(bits: nat, warp: nat, th: nat, a: nat)
    requires Width(bits) && warp < 4 && th < 32 && a < 8
    ensures
      var r := ThreadWord(bits, warp, th, a);
      && r < TileWords(bits) && Thread(bits, r) == th && Warp(bits, r) == warp
      && Lane(bits, UpperWord(bits, r), LaneField(bits, a)) == a
  {
    LaneFieldUndone(bits, a);
    var r, half: nat := ThreadWord(bits, warp, th, a), a / 4;
    if bits == 4 {
      DivModUnique(r, 4, th, warp);
    } else {
      DivModUnique(r, 8, th, warp * 2 + half);
      DivModUnique(warp * 2 + half, 2, warp, half);
      DivModUnique(r, 2, th * 4 + warp, half);
    }
  }

  lemma ThreadOfWord(bits: nat, r: nat, f: nat)
    requires Width(bits) && r < TileWords(bits) && f < PerWord(bits)
    ensures
      var a := Lane(bits, UpperWord(bits, r), f);
      && Warp(bits, r) < 4 && Thread(bits, r) < 32
      && ThreadWord(bits, Warp(bits, r), Thread(bits, r), a) == r && LaneField(bits, a) == f
  {
  }

  lemma InTileThere(bits: nat, k: nat, n: nat)
    requires Width(bits) && k < 16 && n < 64
    ensures WordIn(bits, k, n) < TileWords(bits)
    ensures RowIn(bits, WordIn(bits, k, n), FieldIn(bits, k, n)) == k
    ensures ColIn(bits, WordIn(bits, k, n), FieldIn(bits, k, n)) == n
  {
    ThreadOfLanes(k, n);
    WordsOfThread(bits, n / 16, ThreadOf(k, n), LaneOf(k, n));
  }

  lemma InTileBack(bits: nat, r: nat, f: nat)
    requires Width(bits) && r < TileWords(bits) && f < PerWord(bits)
    ensures ColIn(bits, r, f) < 64
    ensures WordIn(bits, RowIn(bits, r, f), ColIn(bits, r, f)) == r
    ensures FieldIn(bits, RowIn(bits, r, f), ColIn(bits, r, f)) == f
  {
    ThreadOfWord(bits, r, f);
    LanesOfThread(Thread(bits, r), Warp(bits, r), Lane(bits, UpperWord(bits, r), f));
  }

  // ---- the whole matrix ----

  datatype Format = Format(sizeK: nat, sizeN: nat, bits: nat) {
    predicate Valid() {
      Width(bits) && sizeK % 16 == 0 && sizeN % 64 == 0
    }

    function NTiles(): nat {
      sizeN / 64
    }

    function Words(): nat
      requires Valid()
    {
      Times(Times(sizeK / 16, NTiles()), TileWords(bits))
    }
  }

  function Row(fmt: Format, w: nat, f: nat): nat
    requires fmt.Valid() && fmt.NTiles() > 0 && f < PerWord(fmt.bits)
  {
    var tile := Quotient(w, TileWords(fmt.bits));
    At(Quotient(tile, fmt.NTiles()), 16, RowIn(fmt.bits, w % TileWords(fmt.bits), f))
  }

  function Col(fmt: Format, w: nat, f: nat): nat
    requires fmt.Valid() && fmt.NTiles() > 0 && f < PerWord(fmt.bits)
  {
    var tile := Quotient(w, TileWords(fmt.bits));
    At(tile % fmt.NTiles(), 64, ColIn(fmt.bits, w % TileWords(fmt.bits), f))
  }

  function WordOf(fmt: Format, k: nat, n: nat): nat
    requires fmt.Valid()
  {
    At(At(k / 16, fmt.NTiles(), n / 64), TileWords(fmt.bits), WordIn(fmt.bits, k % 16, n % 64))
  }

  function FieldOf(fmt: Format, k: nat, n: nat): (f: nat)
    requires fmt.Valid()
    ensures f < PerWord(fmt.bits)
  {
    FieldIn(fmt.bits, k % 16, n % 64)
  }

  lemma AtDivMod(b: nat, n: nat, j: nat)
    requires j < n
    ensures At(b, n, j) / n == b && At(b, n, j) % n == j
  {
    DivModUnique(At(b, n, j), n, b, j);
  }

  /** A quotient and rest below bounds, from a number below their product. */
  lemma AtSplits(x: nat, count: nat, n: nat)
    requires x < Times(count, n)
    ensures n > 0 && x / n < count && x % n < n && At(x / n, n, x % n) == x
  {
    assert n > 0;
    DivModIdentity(x, n);
    if x / n >= count {
      MulLe(count, x / n, n);
      assert false;
    }
  }

  /** Each matrix entry has one field of one word, and that field comes from this entry. */
  lemma PlacedOnce(fmt: Format, k: nat, n: nat)
    requires fmt.Valid() && k < fmt.sizeK && n < fmt.sizeN
    ensures WordOf(fmt, k, n) < fmt.Words() && fmt.NTiles() > 0
    ensures Row(fmt, WordOf(fmt, k, n), FieldOf(fmt, k, n)) == k
    ensures Col(fmt, WordOf(fmt, k, n), FieldOf(fmt, k, n)) == n
  {
    var kt: nat, nt: nat, ki: nat, ni: nat := k / 16, n / 64, k % 16, n % 64;
    InTileThere(fmt.bits, ki, ni);
    var r := WordIn(fmt.bits, ki, ni);
    assert kt < fmt.sizeK / 16 && nt < fmt.NTiles();
    AtBelow(kt, nt, fmt.sizeK / 16, fmt.NTiles());
    AtBelow(At(kt, fmt.NTiles(), nt), r, Times(fmt.sizeK / 16, fmt.NTiles()), TileWords(fmt.bits));
    AtDivMod(At(kt, fmt.NTiles(), nt), TileWords(fmt.bits), r);
    AtDivMod(kt, fmt.NTiles(), nt);
  }

  /** Every field of every word comes from one entry of the matrix, and is the field of that entry. */
  lemma FilledOnce(fmt: Format, w: nat, f: nat)
    requires fmt.Valid() && w < fmt.Words() && f < PerWord(fmt.bits)
    ensures fmt.NTiles() > 0 && Row(fmt, w, f) < fmt.sizeK && Col(fmt, w, f) < fmt.sizeN
    ensures WordOf(fmt, Row(fmt, w, f), Col(fmt, w, f)) == w && FieldOf(fmt, Row(fmt, w, f), Col(fmt, w, f)) == f
  {
    var tw := TileWords(fmt.bits);
    AtSplits(w, Times(fmt.sizeK / 16, fmt.NTiles()), tw);
    var tile: nat, r: nat := w / tw, w % tw;
    AtSplits(tile, fmt.sizeK / 16, fmt.NTiles());
    var kt: nat, nt: nat := tile / fmt.NTiles(), tile % fmt.NTiles();
    InTileBack(fmt.bits, r, f);
    var ki, ni := RowIn(fmt.bits, r, f), ColIn(fmt.bits, r, f);
    AtBelow(kt, ki, fmt.sizeK / 16, 16);
    AtBelow(nt, ni, fmt.NTiles(), 64);
    AtDivMod(kt, 16, ki);
    AtDivMod(nt, 64, ni);
  }

  // ---- repacking ----

  type Getter = (nat, nat) --> nat

  ghost predicate Reads(get: Getter, fmt: Format) {
    forall k: nat, n: nat :: k < fmt.sizeK && n < fmt.sizeN ==> get.requires(k, n) && get(k, n) < Pow2(fmt.bits)
  }

  /** Field by field, the word holds the entries of this place of the tile. */
  ghost predicate WordRight(word: nat, fmt: Format, kt: nat, nt: nat, r: nat, get: Getter)
    requires fmt.Valid()
  {
    && word < WORD_SIZE
    && forall f: nat :: f < PerWord(fmt.bits) ==>
         var k, n := At(kt, 16, RowIn(fmt.bits, r, f)), At(nt, 64, ColIn(fmt.bits, r, f));
         get.requires(k, n) && Field(word, fmt.bits, f) == get(k, n)
  }

  /** The word is the one of its warp and thread, in the loops' order, before `warp` and `th`. */
  predicate Before(bits: nat, r: nat, warp: nat, th: nat) {
    Warp(bits, r) < warp || (Warp(bits, r) == warp && Thread(bits, r) < th)
  }

  lemma InMatrix(fmt: Format, kt: nat, nt: nat, warp: nat, th: nat, a: nat)
    requires fmt.Valid() && kt < fmt.sizeK / 16 && nt < fmt.NTiles() && warp < 4 && th < 32 && a < 8
    ensures At(kt, 16, LaneRow(th, a)) < fmt.sizeK && At(nt, 64, LaneCol(warp, th, a)) < fmt.sizeN
  {
    LanesOfThread(th, warp, a);
    AtBelow(kt, LaneRow(th, a), fmt.sizeK / 16, 16);
    AtBelow(nt, LaneCol(warp, th, a), fmt.NTiles(), 64);
  }

  ghost predicate ThreadHolds(vals: seq<nat>, kt: nat, nt: nat, warp: nat, th: nat, get: Getter)
    requires |vals| == 8
  {
    forall a: nat :: a < 8 ==>
      var k, n := At(kt, 16, LaneRow(th, a)), At(nt, 64, LaneCol(warp, th, a));
      get.requires(k, n) && vals[a] == get(k, n)
  }

  /** The values of the first lanes, in column `n` of the matrix. */
  ghost predicate LanesHold(vals: seq<nat>, bits: nat, kt: nat, th: nat, n: nat, get: Getter) {
    && Fits(vals, bits)
    && forall a: nat :: a < |vals| && a < 4 ==>
         get.requires(At(kt, 16, LaneRow(th, a)), n) && vals[a] == get(At(kt, 16, LaneRow(th, a)), n)
  }

  /** One more lane. */
  method ReadLane(fmt: Format, kt: nat, th: nat, k: nat, n: nat, vals: seq<nat>, get: Getter) returns (more: seq<nat>)
    requires fmt.Valid() && Reads(get, fmt) && k < fmt.sizeK && n < fmt.sizeN && |vals| < 4
    requires k == At(kt, 16, LaneRow(th, |vals|)) && LanesHold(vals, fmt.bits, kt, th, n, get)
    ensures |more| == |vals| + 1 && LanesHold(more, fmt.bits, kt, th, n, get)
  {
    more := vals + [get(k, n)];
  }

  /** The column of a thread's first lanes and that of its last. */
  lemma LaneColumns(fmt: Format, kt: nat, nt: nat, warp: nat, th: nat, i: nat)
    requires fmt.Valid() && kt < fmt.sizeK / 16 && nt < fmt.NTiles() && warp < 4 && th < 32 && i < 4
    ensures
      var n0 := nt * 64 + warp * 16 + th / 4;
      && At(kt, 16, LaneRow(th, i)) == kt * 16 + (th % 4 * 2 + TC_OFFSETS[i]) < fmt.sizeK
      && n0 == At(nt, 64, LaneCol(warp, th, i)) && n0 + 8 == At(nt, 64, LaneCol(warp, th, 4 + i)) < fmt.sizeN
  {
    InMatrix(fmt, kt, nt, warp, th, i);
    InMatrix(fmt, kt, nt, warp, th, 4 + i);
  }

  /** The eight values of one thread. */
  method ThreadValues(fmt: Format, kt: nat, nt: nat, warp: nat, th: nat, get: Getter) returns (vals: seq<nat>)
    requires fmt.Valid() && Reads(get, fmt) && kt < fmt.sizeK / 16 && nt < fmt.NTiles() && warp < 4 && th < 32
    ensures |vals| == 8 && Fits(vals, fmt.bits) && ThreadHolds(vals, kt, nt, warp, th, get)
  {
    var tcCol, tcRow := th / 4, th % 4 * 2;
    var n0 := nt * 64 + warp * 16 + tcCol;
    var low: seq<nat>, high: seq<nat> := [], [];
    for i := 0 to 4
      invariant |low| == |high| == i
      invariant LanesHold(low, fmt.bits, kt, th, n0, get) && LanesHold(high, fmt.bits, kt, th, n0 + 8, get)
    {
      LaneColumns(fmt, kt, nt, warp, th, i);
      var k := kt * 16 + (tcRow + TC_OFFSETS[i]);
      low := ReadLane(fmt, kt, th, k, n0, low, get);
      high := ReadLane(fmt, kt, th, k, n0 + 8, high, get);
    }
    vals := low + high;
    HalvesHold(low, high, fmt.bits, kt, nt, warp, th, n0, get);
  }

  lemma HalvesHold(low: seq<nat>, high: seq<nat>, bits: nat, kt: nat, nt: nat, warp: nat, th: nat, n0: nat, get: Getter)
    requires |low| == |high| == 4 && n0 == nt * 64 + warp * 16 + th / 4
    requires LanesHold(low, bits, kt, th, n0, get) && LanesHold(high, bits, kt, th, n0 + 8, get)
    ensures Fits(low + high, bits) && ThreadHolds(low + high, kt, nt, warp, th, get)
  {
    forall a: nat | a < 8
      ensures
        var k, n := At(kt, 16, LaneRow(th, a)), At(nt, 64, LaneCol(warp, th, a));
        get.requires(k, n) && (low + high)[a] == get(k, n)
    {
      assert LaneRow(th, a) == LaneRow(th, a % 4);
      assert At(nt, 64, LaneCol(warp, th, a)) == if a < 4 then n0 else n0 + 8;
    }
  }

  lemma PackedRight(word: nat, vals: seq<nat>, fmt: Format, kt: nat, nt: nat, r: nat, get: Getter)
    requires fmt.Valid() && r < TileWords(fmt.bits) && |vals| == 8 && word < WORD_SIZE
    requires ThreadHolds(vals, kt, nt, Warp(fmt.bits, r), Thread(fmt.bits, r), get)
    requires PackedFrom(word, vals, fmt.bits, UpperWord(fmt.bits, r))
    ensures WordRight(word, fmt, kt, nt, r, get)
  {
  }

  ghost predicate Covers(P: (nat, nat) -> bool, fmt: Format, kt: nat, nt: nat, get: Getter)
    requires fmt.Valid()
  {
    forall word: nat, r: nat :: WordRight(word, fmt, kt, nt, r, get) ==> P(word, r)
  }

  lemma PackedCovered(word: nat, vals: seq<nat>, fmt: Format, kt: nat, nt: nat, r: nat, get: Getter,
                      P: (nat, nat) -> bool)
    requires fmt.Valid() && r < TileWords(fmt.bits) && |vals| == 8 && word < WORD_SIZE && Covers(P, fmt, kt, nt, get)
    requires ThreadHolds(vals, kt, nt, Warp(fmt.bits, r), Thread(fmt.bits, r), get)
    requires PackedFrom(word, vals, fmt.bits, UpperWord(fmt.bits, r))
    ensures P(word, r)
  {
    PackedRight(word, vals, fmt, kt, nt, r, get);
  }

  function FirstWord(bits: nat, warp: nat, th: nat): nat {
    if bits == 4 then th * 4 + warp else th * 8 + warp * 2
  }

  function WordsPerThread(bits: nat): nat {
    if bits == 4 then 1 else 2
  }

  lemma WordsTogether(bits: nat, warp: nat, th: nat, r: nat)
    requires Width(bits) && warp < 4 && th < 32 && r < TileWords(bits)
    ensures FirstWord(bits, warp, th) + WordsPerThread(bits) <= TileWords(bits)
    ensures Warp(bits, r) == warp && Thread(bits, r) == th
       <==> FirstWord(bits, warp, th) <= r < FirstWord(bits, warp, th) + WordsPerThread(bits)
    ensures r == FirstWord(bits, warp, th) ==> !UpperWord(bits, r)
    ensures bits == 8 && r == FirstWord(bits, warp, th) + 1 ==> UpperWord(bits, r)
  {
  }

  /** One word of a thread. */
  method OneWord(fmt: Format, kt: nat, nt: nat, warp: nat, th: nat, upper: bool, vals: seq<nat>, get: Getter,
                    ghost r: nat, ghost P: (nat, nat) -> bool)
    returns (word: nat)
    requires fmt.Valid() && |vals| == 8 && Fits(vals, fmt.bits) && ThreadHolds(vals, kt, nt, warp, th, get)
    requires r < TileWords(fmt.bits) && Warp(fmt.bits, r) == warp && Thread(fmt.bits, r) == th
    requires UpperWord(fmt.bits, r) == upper
    requires Covers(P, fmt, kt, nt, get)
    ensures P(word, r)
  {
    word := PackRepackValues(vals, fmt.bits, upper);
    PackedCovered(word, vals, fmt, kt, nt, r, get, P);
  }

  /** The words of one thread. */
  method ThreadWords(fmt: Format, kt: nat, nt: nat, warp: nat, th: nat, get: Getter, ghost P: (nat, nat) -> bool)
    returns (words: seq<nat>)
    requires fmt.Valid() && Reads(get, fmt) && kt < fmt.sizeK / 16 && nt < fmt.NTiles() && warp < 4 && th < 32
    requires Covers(P, fmt, kt, nt, get)
    ensures |words| == WordsPerThread(fmt.bits)
    ensures forall i: nat :: i < |words| ==> P(words[i], FirstWord(fmt.bits, warp, th) + i)
  {
    ghost var r := FirstWord(fmt.bits, warp, th);
    assert r < TileWords(fmt.bits) && Warp(fmt.bits, r) == warp && Thread(fmt.bits, r) == th && !UpperWord(fmt.bits, r)
      by { WordsTogether(fmt.bits, warp, th, r); }
    var vals := ThreadValues(fmt, kt, nt, warp, th, get);
    var word := OneWord(fmt, kt, nt, warp, th, false, vals, get, r, P);
    if fmt.bits == 4 {
      words := [word];
    } else {
      assert r + 1 < TileWords(8) && Warp(8, r + 1) == warp && Thread(8, r + 1) == th && UpperWord(8, r + 1)
        by { WordsTogether(8, warp, th, r + 1); }
      var upper := OneWord(fmt, kt, nt, warp, th, true, vals, get, r + 1, P);
      words := [word, upper];
    }
  }

  ghost predicate TileHolds(tile: seq<nat>, bits: nat, warp: nat, th: nat, P: (nat, nat) -> bool) {
    forall r: nat :: r < |tile| && Before(bits, r, warp, th) ==> P(tile[r], r)
  }

  lemma TileStep(tile: seq<nat>, tile': seq<nat>, bits: nat, warp: nat, th: nat, P: (nat, nat) -> bool)
    requires Width(bits) && warp < 4 && th < 32 && |tile| == |tile'| == TileWords(bits)
    requires TileHolds(tile, bits, warp, th, P)
    requires forall r: nat :: r < |tile| ==>
      var first := FirstWord(bits, warp, th);
      if first <= r < first + WordsPerThread(bits) then P(tile'[r], r) else tile'[r] == tile[r]
    ensures TileHolds(tile', bits, warp, th + 1, P)
  {
    forall r: nat | r < |tile'| && Before(bits, r, warp, th + 1)
      ensures P(tile'[r], r)
    {
      WordsTogether(bits, warp, th, r);
    }
  }

  lemma NextWarp(tile: seq<nat>, bits: nat, warp: nat, P: (nat, nat) -> bool)
    requires Width(bits) && |tile| == TileWords(bits) && TileHolds(tile, bits, warp, 32, P)
    ensures TileHolds(tile, bits, warp + 1, 0, P)
  {
    forall r: nat | r < |tile| && Before(bits, r, warp + 1, 0)
      ensures P(tile[r], r)
    {
      assert Thread(bits, r) < 32;
    }
  }

  /** Consecutive words, written into a tile of the output. */
  method PutWords(out: array<nat>, base: nat, size: nat, first: nat, words: seq<nat>)
    requires base + size <= out.Length && first + |words| <= size && 1 <= |words| <= 2
    modifies out
    ensures forall i: nat :: i < |words| ==> out[base..base + size][first + i] == words[i]
    ensures
      var before, after := old(out[base..base + size]), out[base..base + size];
      forall r: nat :: r < size && !(first <= r < first + |words|) ==> after[r] == before[r]
    ensures forall i :: 0 <= i < base || base + size <= i < out.Length ==> out[i] == old(out[i])
  {
    out[base + first] := words[0];
    if |words| == 2 {
      out[base + first + 1] := words[1];
    }
  }

  /** The words of one thread, put into the output. */
  method PutThread(fmt: Format, kt: nat, nt: nat, warp: nat, th: nat, out: array<nat>, base: nat, get: Getter,
                   ghost P: (nat, nat) -> bool)
    requires fmt.Valid() && Reads(get, fmt) && kt < fmt.sizeK / 16 && nt < fmt.NTiles() && warp < 4 && th < 32
    requires base + TileWords(fmt.bits) <= out.Length && Covers(P, fmt, kt, nt, get)
    requires TileHolds(out[base..base + TileWords(fmt.bits)], fmt.bits, warp, th, P)
    modifies out
    ensures TileHolds(out[base..base + TileWords(fmt.bits)], fmt.bits, warp, th + 1, P)
    ensures forall i :: 0 <= i < base || base + TileWords(fmt.bits) <= i < out.Length ==> out[i] == old(out[i])
  {
    var words := ThreadWords(fmt, kt, nt, warp, th, get, P);
    var bits, size, first := fmt.bits, TileWords(fmt.bits), FirstWord(fmt.bits, warp, th);
    WordsTogether(bits, warp, th, 0);
    ghost var tile := out[base..base + size];
    PutWords(out, base, size, first, words);
    TileWritten(tile, out[base..base + size], bits, warp, th, words, P);
  }

  lemma TileWritten(tile: seq<nat>, tile': seq<nat>, bits: nat, warp: nat, th: nat, words: seq<nat>,
                    P: (nat, nat) -> bool)
    requires Width(bits) && warp < 4 && th < 32 && |tile| == |tile'| == TileWords(bits)
    requires TileHolds(tile, bits, warp, th, P) && |words| == WordsPerThread(bits)
    requires FirstWord(bits, warp, th) + |words| <= |tile|
    requires forall i: nat :: i < |words| ==>
              tile'[FirstWord(bits, warp, th) + i] == words[i] && P(words[i], FirstWord(bits, warp, th) + i)
    requires forall r: nat :: r < |tile| && !(FirstWord(bits, warp, th) <= r < FirstWord(bits, warp, th) + |words|) ==>
              tile'[r] == tile[r]
    ensures TileHolds(tile', bits, warp, th + 1, P)
  {
    var first := FirstWord(bits, warp, th);
    forall r: nat | first <= r < first + |words|
      ensures P(tile'[r], r)
    {
      var i: nat := r - first;
      assert P(words[i], first + i);
    }
    TileStep(tile, tile', bits, warp, th, P);
  }

  /** One 16 x 64 tile. */
  method RepackTile(fmt: Format, kt: nat, nt: nat, out: array<nat>, base: nat, get: Getter, ghost P: (nat, nat) -> bool)
    requires fmt.Valid() && Reads(get, fmt) && kt < fmt.sizeK / 16 && nt < fmt.NTiles()
    requires base + TileWords(fmt.bits) <= out.Length && Covers(P, fmt, kt, nt, get)
    modifies out
    ensures TileHolds(out[base..base + TileWords(fmt.bits)], fmt.bits, 4, 0, P)
    ensures forall i :: 0 <= i < base || base + TileWords(fmt.bits) <= i < out.Length ==> out[i] == old(out[i])
  {
    for warp := 0 to 4
      invariant TileHolds(out[base..base + TileWords(fmt.bits)], fmt.bits, warp, 0, P)
      invariant forall i :: 0 <= i < base || base + TileWords(fmt.bits) <= i < out.Length ==> out[i] == old(out[i])
    {
      for th := 0 to 32
        invariant TileHolds(out[base..base + TileWords(fmt.bits)], fmt.bits, warp, th, P)
        invariant forall i :: 0 <= i < base || base + TileWords(fmt.bits) <= i < out.Length ==> out[i] == old(out[i])
      {
        PutThread(fmt, kt, nt, warp, th, out, base, get, P);
      }
      NextWarp(out[base..base + TileWords(fmt.bits)], fmt.bits, warp, P);
    }
  }

  // ---- the whole output ----

  /** Every field of the word holds the entry it comes from. */
  ghost predicate WordHolds(word: nat, fmt: Format, w: nat, get: Getter)
    requires fmt.Valid()
  {
    && word < WORD_SIZE && fmt.NTiles() > 0
    && forall f: nat :: f < PerWord(fmt.bits) ==>
         get.requires(Row(fmt, w, f), Col(fmt, w, f)) && Field(word, fmt.bits, f) == get(Row(fmt, w, f), Col(fmt, w, f))
  }

  ghost predicate Repacked(out: seq<nat>, fmt: Format, get: Getter)
    requires fmt.Valid()
  {
    |out| == fmt.Words() && forall w: nat :: w < |out| ==> WordHolds(out[w], fmt, w, get)
  }

  lemma TileWordHolds(word: nat, fmt: Format, kt: nat, nt: nat, r: nat, get: Getter)
    requires fmt.Valid() && kt < fmt.sizeK / 16 && nt < fmt.NTiles() && r < TileWords(fmt.bits)
    requires WordRight(word, fmt, kt, nt, r, get)
    ensures At(At(kt, fmt.NTiles(), nt), TileWords(fmt.bits), r) < fmt.Words()
    ensures WordHolds(word, fmt, At(At(kt, fmt.NTiles(), nt), TileWords(fmt.bits), r), get)
  {
    AtBelow(kt, nt, fmt.sizeK / 16, fmt.NTiles());
    AtBelow(At(kt, fmt.NTiles(), nt), r, Times(fmt.sizeK / 16, fmt.NTiles()), TileWords(fmt.bits));
    AtDivMod(At(kt, fmt.NTiles(), nt), TileWords(fmt.bits), r);
    AtDivMod(kt, fmt.NTiles(), nt);
  }

  ghost predicate Done(out: seq<nat>, n: nat, Q: (nat, nat) -> bool) {
    forall w: nat :: w < n && w < |out| ==> Q(out[w], w)
  }

  function TileOffset(fmt: Format, kt: nat, nt: nat): nat
    requires fmt.Valid()
  {
    Times(At(kt, fmt.NTiles(), nt), TileWords(fmt.bits))
  }

  /** A finished tile after the finished ones. */
  lemma TileDone(before: seq<nat>, out: seq<nat>, n: nat, bits: nat, P: (nat, nat) -> bool, Q: (nat, nat) -> bool)
    requires Width(bits) && n + TileWords(bits) <= |out| == |before|
    requires Done(before, n, Q) && forall i :: 0 <= i < n ==> out[i] == before[i]
    requires TileHolds(out[n..n + TileWords(bits)], bits, 4, 0, P) && Shifted(P, Q, n, TileWords(bits))
    ensures Done(out, n + TileWords(bits), Q)
  {
    var tile := out[n..n + TileWords(bits)];
    forall w: nat | n <= w < n + TileWords(bits)
      ensures Q(out[w], w)
    {
      assert Before(bits, w - n, 4, 0);
      assert P(tile[w - n], w - n);
    }
  }

  /** What holds of word `r` of a tile holds of word `n + r` of the output. */
  ghost predicate Shifted(P: (nat, nat) -> bool, Q: (nat, nat) -> bool, n: nat, size: nat) {
    forall word: nat, r: nat :: r < size && P(word, r) ==> Q(word, n + r)
  }

  /** A word that holds its entries satisfies `Q`. */
  ghost predicate Says(Q: (nat, nat) -> bool, fmt: Format, get: Getter)
    requires fmt.Valid()
  {
    forall word: nat, w: nat {:trigger WordHolds(word, fmt, w, get)} :: WordHolds(word, fmt, w, get) ==> Q(word, w)
  }

  lemma TileSaid(fmt: Format, kt: nat, nt: nat, n: nat, get: Getter, P: (nat, nat) -> bool, Q: (nat, nat) -> bool)
    requires fmt.Valid() && kt < fmt.sizeK / 16 && nt < fmt.NTiles() && Says(Q, fmt, get)
    requires n == TileOffset(fmt, kt, nt)
    requires forall word: nat, r: nat :: P(word, r) ==> WordRight(word, fmt, kt, nt, r, get)
    ensures Shifted(P, Q, n, TileWords(fmt.bits))
  {
    forall word: nat, r: nat | r < TileWords(fmt.bits) && P(word, r)
      ensures Q(word, n + r)
    {
      TileWordHolds(word, fmt, kt, nt, r, get);
    }
  }

  lemma TileFits(fmt: Format, kt: nat, nt: nat)
    requires fmt.Valid() && kt < fmt.sizeK / 16 && nt < fmt.NTiles()
    ensures TileOffset(fmt, kt, nt) + TileWords(fmt.bits) <= fmt.Words()
    ensures TileOffset(fmt, kt, nt + 1) == TileOffset(fmt, kt, nt) + TileWords(fmt.bits)
    ensures TileOffset(fmt, kt, nt) == (kt * fmt.NTiles() + nt) * TileWords(fmt.bits)
  {
    AtBelow(kt, nt, fmt.sizeK / 16, fmt.NTiles());
    NextGroup(At(kt, fmt.NTiles(), nt), TileWords(fmt.bits));
    AtBelow(At(kt, fmt.NTiles(), nt), TileWords(fmt.bits) - 1, Times(fmt.sizeK / 16, fmt.NTiles()),
            TileWords(fmt.bits));
  }

  /** One more tile after the finished ones. */
  method RepackNextTile(fmt: Format, kt: nat, nt: nat, out: array<nat>, base: nat, get: Getter,
                        ghost Q: (nat, nat) -> bool)
    requires fmt.Valid() && Reads(get, fmt) && kt < fmt.sizeK / 16 && nt < fmt.NTiles()
    requires base == TileOffset(fmt, kt, nt) && base + TileWords(fmt.bits) <= out.Length
    requires Says(Q, fmt, get) && Done(out[..], base, Q)
    modifies out
    ensures Done(out[..], base + TileWords(fmt.bits), Q)
  {
    ghost var before, P := out[..], (word: nat, r: nat) => WordRight(word, fmt, kt, nt, r, get);
    RepackTile(fmt, kt, nt, out, base, get, P);
    TileSaid(fmt, kt, nt, base, get, P, Q);
    TileDone(before, out[..], base, fmt.bits, P, Q);
  }

  method RepackAllTiles(fmt: Format, get: Getter, ghost Q: (nat, nat) -> bool) returns (out: array<nat>)
    requires fmt.Valid() && Reads(get, fmt) && Says(Q, fmt, get)
    ensures fresh(out) && out.Length == fmt.Words() && Done(out[..], fmt.Words(), Q)
  {
    var kTiles, nTiles, tileWords := fmt.sizeK / 16, fmt.NTiles(), TileWords(fmt.bits);
    out := new nat[fmt.Words()](_ => 0);
    ghost var done := 0;
    for kt := 0 to kTiles
      invariant fresh(out) && out.Length == fmt.Words()
      invariant done == TileOffset(fmt, kt, 0) && Done(out[..], done, Q)
    {
      for nt := 0 to nTiles
        invariant fresh(out) && out.Length == fmt.Words()
        invariant done == TileOffset(fmt, kt, nt) && Done(out[..], done, Q)
      {
        TileFits(fmt, kt, nt);
        RepackNextTile(fmt, kt, nt, out, (kt * nTiles + nt) * tileWords, get, Q);
        done := done + tileWords;
      }
      NextGroup(kt, nTiles);
    }
    assert done == fmt.Words();
  }

  /** `repack_to_marlin_tiles` */
  method RepackToMarlinTiles(fmt: Format, get: Getter) returns (out: array<nat>)
    requires fmt.Valid() && Reads(get, fmt)
    ensures fresh(out) && Repacked(out[..], fmt, get)
  {
    ghost var Q := (word: nat, w: nat) => WordHolds(word, fmt, w, get);
    out := RepackAllTiles(fmt, get, Q);
    forall w: nat | w < out.Length
      ensures WordHolds(out[..][w], fmt, w, get)
    {
      assert Q(out[..][w], w);
    }
  }

  /** Decoding its field of the repacked matrix gives every entry back. */
  lemma DecodesTo(out: seq<nat>, fmt: Format, get: Getter, k: nat, n: nat)
    requires fmt.Valid() && Repacked(out, fmt, get) && k < fmt.sizeK && n < fmt.sizeN
    ensures WordOf(fmt, k, n) < |out| && get.requires(k, n)
    ensures Field(out[WordOf(fmt, k, n)], fmt.bits, FieldOf(fmt, k, n)) == get(k, n)
  {
    PlacedOnce(fmt, k, n);
    assert WordHolds(out[WordOf(fmt, k, n)], fmt, WordOf(fmt, k, n), get);
  }

  /** Two matrices with the same repacked form have the same entries, and the form is determined by them. */
  lemma RepackedExactly(out: seq<nat>, out': seq<nat>, fmt: Format, get: Getter, get': Getter)
    requires fmt.Valid() && Repacked(out, fmt, get) && Repacked(out', fmt, get')
    ensures out == out' <==> forall k: nat, n: nat :: k < fmt.sizeK && n < fmt.sizeN ==>
            get.requires(k, n) && get'.requires(k, n) && get(k, n) == get'(k, n)
  {
    if out == out' {
      forall k: nat, n: nat | k < fmt.sizeK && n < fmt.sizeN
        ensures get.requires(k, n) && get'.requires(k, n) && get(k, n) == get'(k, n)
      {
        DecodesTo(out, fmt, get, k, n);
        DecodesTo(out', fmt, get', k, n);
      }
    }
    if forall k: nat, n: nat :: k < fmt.sizeK && n < fmt.sizeN ==>
        get.requires(k, n) && get'.requires(k, n) && get(k, n) == get'(k, n) {
      forall w: nat | w < |out|
        ensures out[w] == out'[w]
      {
        SameWord(out[w], out'[w], fmt, w, get, get');
      }
    }
  }

  lemma SameWord(word: nat, word': nat, fmt: Format, w: nat, get: Getter, get': Getter)
    requires fmt.Valid() && w < fmt.Words() && WordHolds(word, fmt, w, get) && WordHolds(word', fmt, w, get')
    requires forall k: nat, n: nat :: k < fmt.sizeK && n < fmt.sizeN ==>
              get.requires(k, n) && get'.requires(k, n) && get(k, n) == get'(k, n)
    ensures word == word'
  {
    AssembledFields(word, fmt.bits);
    AssembledFields(word', fmt.bits);
    forall f: nat | f < PerWord(fmt.bits)
      ensures Field(word, fmt.bits, f) == Field(word', fmt.bits, f)
    {
      FilledOnce(fmt, w, f);
    }
    assert Fields(word, fmt.bits, PerWord(fmt.bits)) == Fields(word', fmt.bits, PerWord(fmt.bits));
  }

  // ---- the packed inputs ----

  /** A matrix of words in row-major order. */
  datatype Matrix = Matrix(rows: nat, cols: nat, data: seq<nat>) {
    ghost predicate Valid() {
      |data| == Times(rows, cols) && forall i :: 0 <= i < |data| ==> data[i] < WORD_SIZE
    }
  }

  /** Where `awq_value` reads: rows of packed columns. */
  function AwqWord(sizeN: nat, k: nat, n: nat, bits: nat): nat
    requires Width(bits)
  {
    At(k, WordsFor(sizeN, bits), WordsFor(n, bits))
  }

  /** `awq_value`: the columns of a word are interleaved. */
  function AwqValue(packed: seq<nat>, sizeN: nat, k: nat, n: nat, bits: nat): nat
    requires Width(bits) && AwqWord(sizeN, k, n, bits) < |packed|
  {
    Field(packed[AwqWord(sizeN, k, n, bits)], bits, Undo(bits)[PosIn(n, bits)])
  }

  /** Where `gptq_value` reads: packed rows. */
  function GptqWord(sizeN: nat, k: nat, n: nat, bits: nat): nat
    requires Width(bits)
  {
    At(WordsFor(k, bits), sizeN, n)
  }

  /** `gptq_value` */
  function GptqValue(packed: seq<nat>, sizeN: nat, k: nat, n: nat, bits: nat): nat
    requires Width(bits) && GptqWord(sizeN, k, n, bits) < |packed|
  {
    Field(packed[GptqWord(sizeN, k, n, bits)], bits, PosIn(k, bits))
  }

  /** The values of consecutive columns as AWQ puts them into a word: the even ones, then the odd ones. */
  ghost predicate EvenThenOdd(fields: seq<nat>, columns: seq<nat>, bits: nat)
    requires Width(bits)
  {
    |fields| == |columns| == PerWord(bits) && forall f: nat :: f < PerWord(bits) ==>
      var half := PerWord(bits) / 2;
      fields[f] == columns[2 * (f % half) + f / half]
  }

  /** `awq_value` reads back what was packed for its columns. */
  lemma AwqValueReadsBack(packed: seq<nat>, sizeN: nat, k: nat, n: nat, bits: nat, fields: seq<nat>, columns: seq<nat>)
    requires Width(bits) && AwqWord(sizeN, k, n, bits) < |packed| && Fits(fields, bits)
    requires EvenThenOdd(fields, columns, bits) && packed[AwqWord(sizeN, k, n, bits)] == Assemble(fields, bits)
    ensures AwqValue(packed, sizeN, k, n, bits) == columns[PosIn(n, bits)]
  {
    var f := Undo(bits)[PosIn(n, bits)];
    FieldOfAssembled(fields, bits, f);
    DealtBack(bits, PosIn(n, bits));
  }

  lemma DealtBack(bits: nat, p: nat)
    requires Width(bits) && p < PerWord(bits)
    ensures
      var f, half := Undo(bits)[p], PerWord(bits) / 2;
      2 * (f % half) + f / half == p
  {
    OrdersDeal(bits, p);
    if p == 0 {} else if p == 1 {} else if p == 2 {} else if p == 3 {}
    else if p == 4 {} else if p == 5 {} else if p == 6 {} else {}
  }

  /** `gptq_value` reads back what was packed for its rows, which stand in a word in order. */
  lemma GptqValueReadsBack(packed: seq<nat>, sizeN: nat, k: nat, n: nat, bits: nat, rows: seq<nat>)
    requires Width(bits) && GptqWord(sizeN, k, n, bits) < |packed| && |rows| == PerWord(bits) && Fits(rows, bits)
    requires packed[GptqWord(sizeN, k, n, bits)] == Assemble(rows, bits)
    ensures GptqValue(packed, sizeN, k, n, bits) == rows[PosIn(k, bits)]
  {
    FieldOfAssembled(rows, bits, PosIn(k, bits));
  }

  lemma AwqReads(packed: Matrix, fmt: Format, k: nat, n: nat)
    requires fmt.Valid() && packed.Valid() && packed.rows == fmt.sizeK && packed.cols == WordsFor(fmt.sizeN, fmt.bits)
    requires k < fmt.sizeK && n < fmt.sizeN
    ensures AwqWord(fmt.sizeN, k, n, fmt.bits) < |packed.data|
    ensures AwqValue(packed.data, fmt.sizeN, k, n, fmt.bits) < Pow2(fmt.bits)
  {
    WholeWordRows(fmt.sizeN, fmt.bits);
    WordBelow(n, fmt.sizeN, fmt.bits);
    AtBelow(k, WordsFor(n, fmt.bits), fmt.sizeK, WordsFor(fmt.sizeN, fmt.bits));
    FieldIs(packed.data[AwqWord(fmt.sizeN, k, n, fmt.bits)], fmt.bits, Undo(fmt.bits)[PosIn(n, fmt.bits)]);
  }

  lemma GptqReads(packed: Matrix, fmt: Format, k: nat, n: nat)
    requires fmt.Valid() && packed.Valid() && packed.rows == WordsFor(fmt.sizeK, fmt.bits) && packed.cols == fmt.sizeN
    requires k < fmt.sizeK && n < fmt.sizeN
    ensures GptqWord(fmt.sizeN, k, n, fmt.bits) < |packed.data|
    ensures GptqValue(packed.data, fmt.sizeN, k, n, fmt.bits) < Pow2(fmt.bits)
  {
    WholeWordRows(fmt.sizeK, fmt.bits);
    WordBelow(k, fmt.sizeK, fmt.bits);
    AtBelow(WordsFor(k, fmt.bits), n, WordsFor(fmt.sizeK, fmt.bits), fmt.sizeN);
    FieldIs(packed.data[GptqWord(fmt.sizeN, k, n, fmt.bits)], fmt.bits, PosIn(k, fmt.bits));
  }

  /** Reading its field of a repacked matrix. */
  function Decode(out: seq<nat>, fmt: Format, k: nat, n: nat): nat
    requires fmt.Valid() && WordOf(fmt, k, n) < |out|
  {
    Field(out[WordOf(fmt, k, n)], fmt.bits, FieldOf(fmt, k, n))
  }

  /** The repacked matrix has the kernel's shape, and every entry can be read back from it. */
  ghost predicate Restores(out: Matrix, fmt: Format, get: Getter)
    requires fmt.Valid()
  {
    && out.Valid() && out.rows == fmt.sizeK / 16 && out.cols == WordsFor(fmt.sizeN * 16, fmt.bits)
    && Repacked(out.data, fmt, get)
    && forall k: nat, n: nat :: k < fmt.sizeK && n < fmt.sizeN ==>
         get.requires(k, n) && WordOf(fmt, k, n) < |out.data| && Decode(out.data, fmt, k, n) == get(k, n)
  }

  lemma OutputSize(fmt: Format)
    requires fmt.Valid()
    ensures fmt.Words() == Times(fmt.sizeK / 16, WordsFor(fmt.sizeN * 16, fmt.bits))
  {
    var kt: nat, nt: nat, tw := fmt.sizeK / 16, fmt.sizeN / 64, TileWords(fmt.bits);
    assert fmt.sizeN == 64 * nt;
    assert WordsFor(fmt.sizeN * 16, fmt.bits) == nt * tw;
    MulAssoc(kt, nt, tw);
  }

  lemma RestoredFrom(out: Matrix, fmt: Format, get: Getter)
    requires fmt.Valid() && Repacked(out.data, fmt, get)
    requires out.rows == fmt.sizeK / 16 && out.cols == WordsFor(fmt.sizeN * 16, fmt.bits)
    ensures Restores(out, fmt, get)
  {
    OutputSize(fmt);
    forall w: nat | w < |out.data|
      ensures out.data[w] < WORD_SIZE
    {
      assert WordHolds(out.data[w], fmt, w, get);
    }
    forall k: nat, n: nat | k < fmt.sizeK && n < fmt.sizeN
      ensures get.requires(k, n) && WordOf(fmt, k, n) < |out.data| && Decode(out.data, fmt, k, n) == get(k, n)
    {
      DecodesTo(out.data, fmt, get, k, n);
    }
  }

  method RepackedMatrix(fmt: Format, get: Getter) returns (m: Matrix)
    requires fmt.Valid() && Reads(get, fmt)
    ensures Restores(m, fmt, get)
  {
    var out := RepackToMarlinTiles(fmt, get);
    m := Matrix(fmt.sizeK / 16, WordsFor(fmt.sizeN * 16, fmt.bits), out[..]);
    RestoredFrom(m, fmt, get);
  }

  function AwqGetter(qweight: seq<nat>, fmt: Format): Getter
    requires fmt.Valid()
  {
    (k: nat, n: nat) requires AwqWord(fmt.sizeN, k, n, fmt.bits) < |qweight| =>
        AwqValue(qweight, fmt.sizeN, k, n, fmt.bits)
  }

  /** What the device's repacking kernel returns; the host loops below are used without a device. */
  type AwqKernel = (Matrix, Format) -> Matrix

  ghost predicate AwqShape(qweight: Matrix, fmt: Format) {
    fmt.Valid() && qweight.rows == fmt.sizeK && qweight.cols == WordsFor(fmt.sizeN, fmt.bits)
  }

  /** The kernel repacks as the host loops do. */
  ghost predicate RepacksAwq(kernel: AwqKernel) {
    forall q: Matrix, fmt: Format :: q.Valid() && AwqShape(q, fmt) ==>
      Restores(kernel(q, fmt), fmt, AwqGetter(q.data, fmt))
  }

  /** `awq_marlin_repack` */
  method AwqMarlinRepack(qweight: Matrix, fmt: Format, kernel: Option<AwqKernel>) returns (r: Result<Matrix, Failure>)
    requires qweight.Valid()
    ensures r.Ok? <==> AwqShape(qweight, fmt)
    ensures r.Ok? && kernel.Some? ==> r.value == kernel.value(qweight, fmt)
    ensures r.Ok? && (kernel.None? || RepacksAwq(kernel.value)) ==> Restores(r.value, fmt, AwqGetter(qweight.data, fmt))
  {
    if !fmt.Valid() {
      return Err(AssertionFailed);
    }
    if qweight.rows != fmt.sizeK || qweight.cols != WordsFor(fmt.sizeN, fmt.bits) {
      return Err(AssertionFailed);
    }
    if kernel.Some? {
      return Ok(kernel.value(qweight, fmt));
    }
    var get := AwqGetter(qweight.data, fmt);
    forall k: nat, n: nat | k < fmt.sizeK && n < fmt.sizeN
      ensures get.requires(k, n) && get(k, n) < Pow2(fmt.bits)
    {
      AwqReads(qweight, fmt, k, n);
    }
    var m := RepackedMatrix(fmt, get);
    r := Ok(m);
  }

  /** Rows are read through the permutation; without one they are read in order. */
  function GptqGetter(qweight: seq<nat>, perm: seq<nat>, fmt: Format): Getter
    requires fmt.Valid()
  {
    (k: nat, n: nat) requires
      && (perm != [] ==> k < |perm|)
      && GptqWord(fmt.sizeN, if perm == [] then k else perm[k], n, fmt.bits) < |qweight|
    => GptqValue(qweight, fmt.sizeN, if perm == [] then k else perm[k], n, fmt.bits)
  }

  /** Every row that is read through the permutation is a row of the matrix. */
  predicate RowsInside(perm: seq<nat>, fmt: Format) {
    fmt.sizeN == 0 || forall i :: 0 <= i < |perm| ==> perm[i] < fmt.sizeK
  }

  type GptqKernel = (Matrix, seq<nat>, Format) -> Matrix

  ghost predicate GptqShape(qweight: Matrix, perm: seq<nat>, fmt: Format) {
    && fmt.Valid() && qweight.rows == WordsFor(fmt.sizeK, fmt.bits) && qweight.cols == fmt.sizeN
    && (perm == [] || |perm| == fmt.sizeK)
  }

  /** The kernel repacks as the host loops do, for permutations inside the matrix. */
  ghost predicate RepacksGptq(kernel: GptqKernel) {
    forall q: Matrix, perm: seq<nat>, fmt: Format :: q.Valid() && GptqShape(q, perm, fmt) && RowsInside(perm, fmt) ==>
      Restores(kernel(q, perm, fmt), fmt, GptqGetter(q.data, perm, fmt))
  }

  /** `gptq_marlin_repack`; an empty permutation stands for none. The host uses its entries unchecked. */
  method GptqMarlinRepack(qweight: Matrix, perm: seq<nat>, fmt: Format, kernel: Option<GptqKernel>)
    returns (r: Result<Matrix, Failure>)
    requires qweight.Valid()
    ensures r.Ok? <==> GptqShape(qweight, perm, fmt) && (kernel.Some? || RowsInside(perm, fmt))
    ensures r.Ok? && kernel.Some? ==> r.value == kernel.value(qweight, perm, fmt)
    ensures r.Ok? && RowsInside(perm, fmt) && (kernel.None? || RepacksGptq(kernel.value)) ==>
              Restores(r.value, fmt, GptqGetter(qweight.data, perm, fmt))
  {
    if !fmt.Valid() {
      return Err(AssertionFailed);
    }
    if qweight.rows != WordsFor(fmt.sizeK, fmt.bits) || qweight.cols != fmt.sizeN {
      return Err(AssertionFailed);
    }
    if perm != [] && |perm| != fmt.sizeK {
      return Err(AssertionFailed);
    }
    if kernel.Some? {
      return Ok(kernel.value(qweight, perm, fmt));
    }
    if !RowsInside(perm, fmt) {
      return Err(Undefined); // read outside the matrix
    }
    var get := GptqGetter(qweight.data, perm, fmt);
    forall k: nat, n: nat | k < fmt.sizeK && n < fmt.sizeN
      ensures get.requires(k, n) && get(k, n) < Pow2(fmt.bits)
    {
      GptqReads(qweight, fmt, if perm == [] then k else perm[k], n);
    }
    var m := RepackedMatrix(fmt, get);
    r := Ok(m);
  }
}
