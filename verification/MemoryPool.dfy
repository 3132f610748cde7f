/**
 The pool allocator itself (src/allocator/memory_allocator.cpp): an address-ordered set of
 blocks, a size index of iterators into it, and a pointer map.
 */
module MemoryPool {
  import opened BitFields
  import opened DivMod
  import opened PoolBlocks
  import opened Results

  /** The identity of every node of the ordered set: an erased node's number is never used again. */
  type Ids = map<int, nat>

  /** An iterator into the ordered set: the pointer that orders its node, and the node. */
  datatype Iter = Iter(ptr: int, id: nat)

  /** An entry of the size index. Entries with one key are ordered by insertion, that is by id. */
  datatype Entry = Entry(size: nat, it: Iter)

  ghost predicate IsPowerOfTwo(n: nat) {
    n == 1 || (n > 0 && n % 2 == 0 && IsPowerOfTwo(n / 2))
  }

  /** `(size + alignment - 1) & ~(alignment - 1)` for an alignment that is a power of two. */
  function AlignUp(size: nat, alignment: nat): (n: nat)
    requires alignment > 0
    ensures size <= n < size + alignment && n % alignment == 0
  {
    var q := (size + alignment - 1) / alignment;
    DivModIdentity(size + alignment - 1, alignment);
    DivOfProduct(q * alignment, alignment, q);
    q * alignment
  }

  lemma {:induction false} AndSelf(a: nat)
    ensures And(a, a) == a
  {
    if a > 0 {
      AndSelf(a / 2);
    }
  }

  /** The constructor's bit test accepts exactly the powers of two. */
  lemma {:induction false} PowerOfTwoTest(n: nat)
    ensures n != 0 && And(n, n - 1) == 0 <==> IsPowerOfTwo(n)
  {
    if n % 2 == 1 {
      AndSelf(n / 2);
    } else if n > 0 {
      PowerOfTwoTest(n / 2);
    }
  }

  lemma {:induction false} PowerIsPow2(n: nat) returns (s: nat)
    requires IsPowerOfTwo(n)
    ensures n == Pow2(s)
  {
    if n == 1 {
      s := 0;
    } else {
      s := PowerIsPow2(n / 2);
      s := s + 1;
    }
  }

  /** Masking the low bits off a number takes away what they hold. */
  lemma AlignUpMasks(size: nat, alignment: nat)
    requires IsPowerOfTwo(alignment)
    ensures alignment > 0 && AlignUp(size, alignment) == size + alignment - 1 - And(size + alignment - 1, alignment - 1)
  {
    var s := PowerIsPow2(alignment);
    AndMask(size + alignment - 1, s);
    DivModIdentity(size + alignment - 1, alignment);
  }

  /** `lower_bound`: the first entry, by size and then age, that is large enough. */
  predicate BestFit(index: set<Entry>, n: nat, e: Entry) {
    && e in index && n <= e.size
    && forall f :: f in index && n <= f.size ==> e.size < f.size || (e.size == f.size && e.it.id <= f.it.id)
  }

  lemma {:induction false} BestFitExists(index: set<Entry>, n: nat)
    requires exists e :: e in index && n <= e.size
    ensures exists e :: BestFit(index, n, e)
    decreases |index|
  {
    var e :| e in index && n <= e.size;
    var rest := index - {e};
    if exists f :: f in rest && n <= f.size {
      BestFitExists(rest, n);
      var g :| BestFit(rest, n, g);
      var best := if g.size < e.size || (g.size == e.size && g.it.id <= e.it.id) then g else e;
      assert BestFit(index, n, best);
    } else {
      assert BestFit(index, n, e);
    }
  }

  /** `std::next` and `std::prev` in the pointer order. */
  predicate IsNext(keys: set<int>, p: int, n: int) {
    n in keys && p < n && forall k: int :: k in keys && p < k ==> n <= k
  }

  predicate IsPrev(keys: set<int>, p: int, n: int) {
    n in keys && n < p && forall k: int :: k in keys && k < p ==> k <= n
  }

  lemma {:induction false} NextExists(keys: set<int>, p: int)
    requires exists k: int :: k in keys && p < k
    ensures exists n: int :: IsNext(keys, p, n)
    decreases |keys|
  {
    var k: int :| k in keys && p < k;
    var rest := keys - {k};
    if exists j: int :: j in rest && p < j {
      NextExists(rest, p);
      var n: int :| IsNext(rest, p, n);
      var least := if n < k then n else k;
      assert forall j: int :: j in keys && p < j ==> j == k || j in rest;
      assert IsNext(keys, p, least);
    } else {
      assert forall j: int :: j in keys && p < j ==> j == k || j in rest;
      assert IsNext(keys, p, k);
    }
  }

  lemma {:induction false} PrevExists(keys: set<int>, p: int)
    requires exists k: int :: k in keys && k < p
    ensures exists n: int :: IsPrev(keys, p, n)
    decreases |keys|
  {
    var k: int :| k in keys && k < p;
    var rest := keys - {k};
    if exists j: int :: j in rest && j < p {
      PrevExists(rest, p);
      var n: int :| IsPrev(rest, p, n);
      var greatest := if n < k then k else n;
      assert forall j: int :: j in keys && j < p ==> j == k || j in rest;
      assert IsPrev(keys, p, greatest);
    } else {
      assert forall j: int :: j in keys && j < p ==> j == k || j in rest;
      assert IsPrev(keys, p, k);
    }
  }

  /** `erase(key)` of the size index, for each of these keys, removes every entry with it. */
  function EraseSizes(index: set<Entry>, sizes: set<nat>): set<Entry> {
    set e | e in index && e.size !in sizes
  }

  /** Start of the free block that block p becomes part of when released. */
  ghost function MergedStart(b: Blocks, p: int): int
    requires p in b
  {
    StartOf(p, PrevOf(b, p))
  }

  /** The keys that one release erases from the size index. */
  ghost function ErasedSizes(b: Blocks, p: int): set<nat>
    requires p in b
  {
    TouchingOf(b, p);
    GoneSizes(b, p, NextOf(b, p), PrevOf(b, p))
  }

  /** A block that touches block p is its neighbour in the pointer order. */
  lemma AdjacentIsNeighbour(b: Blocks, p: int)
    requires Sized(b) && Disjoint(b) && p in b
    ensures p + b[p].size in b ==> IsNext(b.Keys, p, p + b[p].size)
    ensures forall q: int :: FreeBefore(b, p, q) ==> IsPrev(b.Keys, p, q)
  {
  }

  function SizesAt(b: Blocks, o: Option<int>): set<nat>
    requires o.Some? ==> o.value in b
  {
    if o.Some? then {b[o.value].size} else {}
  }

  ghost function GoneSizes(b: Blocks, p: int, next: Option<int>, prev: Option<int>): set<nat>
    requires p in b && Touching(b, p, next, prev)
  {
    {b[p].size} + SizesAt(b, next) + SizesAt(b, prev)
  }

  // ---- the three structures agree ----

  /** The iterator's node has not been erased. */
  predicate Live(ids: Ids, it: Iter) {
    it.ptr in ids && ids[it.ptr] == it.id
  }

  ghost predicate IdsBelow(b: Blocks, ids: Ids, nextId: nat) {
    ids.Keys == b.Keys && forall p: int :: p in ids ==> ids[p] < nextId
  }

  /** Every index entry names a live node of a free block of that size. */
  ghost predicate IndexSound(b: Blocks, ids: Ids, index: set<Entry>) {
    forall e :: e in index ==> Live(ids, e.it) && e.it.ptr in b && b[e.it.ptr].free && b[e.it.ptr].size == e.size
  }

  ghost function EntryOf(b: Blocks, ids: Ids, p: int): Entry
    requires p in b && p in ids
  {
    Entry(b[p].size, Iter(p, ids[p]))
  }

  /** Every free block can be found through the size index. */
  ghost predicate IndexComplete(b: Blocks, ids: Ids, index: set<Entry>) {
    forall p: int :: p in b && p in ids && b[p].free ==> EntryOf(b, ids, p) in index
  }

  /** The pointer map holds exactly the blocks in use. */
  ghost predicate PointersExact(b: Blocks, ids: Ids, ptrs: map<int, Iter>) {
    && (forall p: int :: p in ptrs <==> p in b && !b[p].free)
    && forall p: int :: p in ptrs ==> ptrs[p].ptr == p && Live(ids, ptrs[p])
  }

  /** What a release does to nodes and index, the rest being as it was. */
  ghost predicate Reindexed(b: Blocks, ids: Ids, index: set<Entry>, b': Blocks, ids': Ids, index': set<Entry>,
                            p: int, id: nat)
    requires p in b
  {
    var start := MergedStart(b, p);
    && start in b' && b'[start].free && ids'.Keys == b'.Keys && ids'[start] == id
    && (forall q: int :: q in b' && q != start ==> q in b && b'[q] == b[q] && q in ids && ids'[q] == ids[q])
    && (forall e :: e in index' <==> e == EntryOf(b', ids', start) || (e in index && e.size !in ErasedSizes(b, p)))
  }

  /** Blocks that a release removes are gone from the index too, because their sizes were erased. */
  lemma ReindexedSound(b: Blocks, ids: Ids, index: set<Entry>, b': Blocks, ids': Ids, index': set<Entry>, p: int,
                       id: nat)
    requires Sized(b) && Disjoint(b) && p in b && !b[p].free && b' == Released(b, p)
    requires ids.Keys == b.Keys && IndexSound(b, ids, index) && Reindexed(b, ids, index, b', ids', index', p, id)
    ensures IndexSound(b', ids', index')
    ensures IndexComplete(b, ids, index) ==>
              (IndexComplete(b', ids', index') <==> NoOtherErased(b, p))
  {
    forall e | e in index && e.size !in ErasedSizes(b, p)
      ensures e.it.ptr in b' && e.it.ptr != MergedStart(b, p)
    {
      SurvivesRelease(b, p, e.it.ptr);
    }
  }

  /** A free block whose size is not erased is neither removed nor replaced. */
  lemma SurvivesRelease(b: Blocks, p: int, q: int)
    requires p in b && !b[p].free
    requires q in b && b[q].free && b[q].size !in ErasedSizes(b, p)
    ensures q in Released(b, p) && q != MergedStart(b, p)
  {
    TouchingOf(b, p);
  }

  /** No free block but those that are merged has a size that the release erases. */
  ghost predicate NoOtherErased(b: Blocks, p: int)
    requires p in b
  {
    var gone := Gone(p, NextOf(b, p), PrevOf(b, p));
    forall q: int :: q in b && b[q].free && q !in gone ==> b[q].size !in ErasedSizes(b, p)
  }

  lemma ReleaseResult(b: Blocks, ids: Ids, index: set<Entry>, b': Blocks, ids': Ids, index': set<Entry>,
                      p: int, next: Option<int>, prev: Option<int>, id: nat)
    requires Sized(b) && Disjoint(b) && p in b && !b[p].free && Touching(b, p, next, prev)
    requires ids.Keys == b.Keys && IndexSound(b, ids, index)
    requires b' == Merged(b, p, next, prev)
    requires ids' == (ids - Gone(p, next, prev))[StartOf(p, prev) := id]
    requires forall e :: e in index' <==>
               || e == Entry(MergedBlock(b, p, next, prev).size, Iter(StartOf(p, prev), id))
               || (e in index && e.size !in GoneSizes(b, p, next, prev))
    ensures b' == Released(b, p) && IndexSound(b', ids', index')
    ensures IndexComplete(b, ids, index) ==> (IndexComplete(b', ids', index') <==> NoOtherErased(b, p))
  {
    OnlyTouching(b, p, next, prev);
    ReindexedSound(b, ids, index, b', ids', index', p, id);
  }

  /** The effect of one allocation of n aligned bytes on blocks and regions. */
  ghost predicate Allocates(b: Blocks, index: set<Entry>, rs: Regions, b': Blocks, rs': Regions,
                            n: nat, region: int, p: int, alignment: nat)
  {
    if exists e :: e in index && n <= e.size then
      // the best fit among the indexed free blocks
      && (exists e :: BestFit(index, n, e) && e.it.ptr == p)
      && p in b && b[p].free && n <= b[p].size
      && b' == Allocated(b, p, n, alignment) && rs' == rs
    else
      // no indexed block is large enough: a whole new region
      p == region && b' == Grown(b, region, n) && rs' == rs[region := n]
  }

  lemma AllocatesKeeps(b: Blocks, index: set<Entry>, rs: Regions, b': Blocks, rs': Regions,
                       n: nat, region: int, p: int, alignment: nat)
    requires WellFormed(b, rs) && NewRegion(rs, region, n) && alignment > 0 && n % alignment == 0
    requires Allocates(b, index, rs, b', rs', n, region, p, alignment)
    ensures WellFormed(b', rs') && p !in Busy(b) && Busy(b') == Busy(b) + {p} && b'[p].size == n
    ensures Tiled(b, rs, alignment) ==> Tiled(b', rs', alignment)
    ensures Next(State(b, rs), State(b', rs'), alignment)
  {
    var s, s' := State(b, rs), State(b', rs');
    if exists e :: e in index && n <= e.size {
      assert AllocStep(s, s', alignment, p, n);
      AllocatedWellFormed(b, rs, p, n, alignment);
    } else {
      assert GrowStep(s, s', alignment, region, n);
      GrownWellFormed(b, rs, region, n);
    }
    StepKeeps(s, s', alignment);
  }

  lemma GrownAllocates(b: Blocks, index: set<Entry>, rs: Regions, n: nat, region: int, alignment: nat)
    requires forall e :: e in index ==> e.size < n
    requires region !in b && alignment > 0
    ensures Allocates(b, index, rs, Allocated(b[region := Block(region, n, true)], region, n, alignment),
                      rs[region := n],
                      n, region, region, alignment)
  {
    assert Allocated(b[region := Block(region, n, true)], region, n, alignment) == Grown(b, region, n);
  }

  lemma FoundAllocates(b: Blocks, index: set<Entry>, rs: Regions, n: nat, region: int, entry: Entry, alignment: nat)
    requires BestFit(index, n, entry) && entry.it.ptr in b && b[entry.it.ptr].free && n <= b[entry.it.ptr].size
    ensures Allocates(b, index, rs, Allocated(b, entry.it.ptr, n, alignment), rs, n, region, entry.it.ptr, alignment)
  {
  }

  lemma RegionFits(b: Blocks, regions: Regions, region: int, size: nat)
    requires WellFormed(b, regions) && NewRegion(regions, region, size)
    ensures region !in b && forall p: int :: p in b ==> region + size <= p || p + b[p].size <= region
  {
    GrownWellFormed(b, regions, region, size);
    forall p: int | p in b
      ensures region + size <= p || p + b[p].size <= region
    {
      BlockOutside(b, regions, p, region, size);
    }
  }

  lemma MarkedDisjoint(b: Blocks, p: int)
    requires Sized(b) && Disjoint(b) && p in b
    ensures Sized(b[p := b[p].(free := true)]) && Disjoint(b[p := b[p].(free := true)])
  {
  }

  // ---- the structures together ----

  lemma ReplaceKey<K, V>(m: map<K, V>, k: K, v: V)
    ensures (m - {k})[k := v] == m[k := v]
  {
  }

  datatype Tables = Tables(blocks: Blocks, ids: Ids, nextId: nat, index: set<Entry>, ptrs: map<int, Iter>)

  /** Nodes, size index and pointer map fit the blocks. */
  ghost predicate Agree(t: Tables) {
    && Sized(t.blocks) && Disjoint(t.blocks) && IdsBelow(t.blocks, t.ids, t.nextId)
    && IndexSound(t.blocks, t.ids, t.index) && PointersExact(t.blocks, t.ids, t.ptrs)
  }

  ghost predicate Full(t: Tables) {
    IndexComplete(t.blocks, t.ids, t.index)
  }

  function WithRegion(t: Tables, region: int, size: nat): Tables {
    Tables(t.blocks[region := Block(region, size, true)], t.ids[region := t.nextId], t.nextId + 1,
           t.index + {Entry(size, Iter(region, t.nextId))}, t.ptrs)
  }

  lemma RegionIndex(t: Tables, region: int, size: nat)
    requires IdsBelow(t.blocks, t.ids, t.nextId) && IndexSound(t.blocks, t.ids, t.index) && region !in t.blocks
    ensures
      var t' := WithRegion(t, region, size);
      && IdsBelow(t'.blocks, t'.ids, t'.nextId) && IndexSound(t'.blocks, t'.ids, t'.index) && (Full(t) ==> Full(t'))
  {
  }

  lemma RegionPointers(t: Tables, region: int, size: nat)
    requires PointersExact(t.blocks, t.ids, t.ptrs) && region !in t.blocks
    ensures PointersExact(WithRegion(t, region, size).blocks, WithRegion(t, region, size).ids, t.ptrs)
  {
  }

  lemma RegionDisjoint(b: Blocks, region: int, size: nat)
    requires Sized(b) && Disjoint(b) && size > 0 && region !in b
    requires forall p: int :: p in b ==> region + size <= p || p + b[p].size <= region
    ensures Sized(b[region := Block(region, size, true)]) && Disjoint(b[region := Block(region, size, true)])
  {
  }

  lemma RegionAgrees(t: Tables, region: int, size: nat)
    requires Agree(t) && size > 0 && region !in t.blocks
    requires forall p: int :: p in t.blocks ==> region + size <= p || p + t.blocks[p].size <= region
    ensures Agree(WithRegion(t, region, size)) && (Full(t) ==> Full(WithRegion(t, region, size)))
  {
    RegionDisjoint(t.blocks, region, size);
    RegionIndex(t, region, size);
    RegionPointers(t, region, size);
  }

  /** The entry's block is in use, in its first n bytes if enough is left for a block of its own. */
  function WithTaken(t: Tables, entry: Entry, n: nat, alignment: nat): Tables
    requires entry.it.ptr in t.blocks && n <= t.blocks[entry.it.ptr].size
  {
    var p := entry.it.ptr;
    var rest := t.blocks[p].size - n;
    var taken := Tables(Allocated(t.blocks, p, n, alignment), t.ids[p := t.nextId], t.nextId + 1,
                        t.index - {entry}, t.ptrs[p := Iter(p, t.nextId)]);
    if rest >= alignment then
      taken.(ids := taken.ids[p + n := t.nextId + 1], nextId := t.nextId + 2,
             index := taken.index + {Entry(rest, Iter(p + n, t.nextId + 1))})
    else taken
  }

  /** Only the entry itself names its block. */
  lemma OnlyEntry(t: Tables, entry: Entry, e: Entry)
    requires IndexSound(t.blocks, t.ids, t.index) && entry in t.index && e in t.index && e.it.ptr == entry.it.ptr
    ensures e == entry && entry == EntryOf(t.blocks, t.ids, entry.it.ptr)
  {
  }

  lemma TakenSound(t: Tables, entry: Entry, n: nat, alignment: nat)
    requires Agree(t) && entry in t.index && 0 < n <= entry.size && alignment > 0
    ensures
      var t' := WithTaken(t, entry, n, alignment);
      IdsBelow(t'.blocks, t'.ids, t'.nextId) && IndexSound(t'.blocks, t'.ids, t'.index)
  {
    var t' := WithTaken(t, entry, n, alignment);
    AllocatedDisjoint(t.blocks, entry.it.ptr, n, alignment);
    forall e | e in t'.index
      ensures Live(t'.ids, e.it) && e.it.ptr in t'.blocks && t'.blocks[e.it.ptr].free
      ensures t'.blocks[e.it.ptr].size == e.size
    {
      if e in t.index && e.it.ptr == entry.it.ptr {
        OnlyEntry(t, entry, e);
      }
    }
  }

  lemma TakenFull(t: Tables, entry: Entry, n: nat, alignment: nat)
    requires Agree(t) && entry in t.index && 0 < n <= entry.size && alignment > 0 && Full(t)
    ensures Full(WithTaken(t, entry, n, alignment))
  {
    var t' := WithTaken(t, entry, n, alignment);
    AllocatedDisjoint(t.blocks, entry.it.ptr, n, alignment);
    forall q: int | q in t'.blocks && q in t'.ids && t'.blocks[q].free
      ensures EntryOf(t'.blocks, t'.ids, q) in t'.index
    {
      if q != entry.it.ptr + n {
        assert EntryOf(t.blocks, t.ids, q) in t.index;
      }
    }
  }

  lemma TakenPointers(t: Tables, entry: Entry, n: nat, alignment: nat)
    requires Agree(t) && entry in t.index && 0 < n <= entry.size && alignment > 0
    ensures
      var t' := WithTaken(t, entry, n, alignment);
      PointersExact(t'.blocks, t'.ids, t'.ptrs)
  {
    var p, t' := entry.it.ptr, WithTaken(t, entry, n, alignment);
    AllocatedDisjoint(t.blocks, p, n, alignment);
    forall q: int | q != p
      ensures q in t'.ptrs <==> q in t'.blocks && !t'.blocks[q].free
      ensures q in t'.ptrs ==> t'.ptrs[q].ptr == q && Live(t'.ids, t'.ptrs[q])
    {
      assert q in t'.ptrs <==> q in t.ptrs;
    }
  }

  lemma TakenAgrees(t: Tables, entry: Entry, n: nat, alignment: nat)
    requires Agree(t) && entry in t.index && 0 < n <= entry.size && alignment > 0
    ensures Agree(WithTaken(t, entry, n, alignment)) && (Full(t) ==> Full(WithTaken(t, entry, n, alignment)))
  {
    AllocatedDisjoint(t.blocks, entry.it.ptr, n, alignment);
    TakenSound(t, entry, n, alignment);
    if Full(t) {
      TakenFull(t, entry, n, alignment);
    }
    TakenPointers(t, entry, n, alignment);
  }

  /** Block p with the free blocks that touch it: their entries go, and every entry of one of their sizes. */
  ghost function WithMerged(t: Tables, p: int, next: Option<int>, prev: Option<int>): Tables
    requires p in t.blocks && Touching(t.blocks, p, next, prev)
  {
    var start, merged := StartOf(p, prev), MergedBlock(t.blocks, p, next, prev);
    Tables(Merged(t.blocks, p, next, prev), (t.ids - Gone(p, next, prev))[start := t.nextId], t.nextId + 1,
           EraseSizes(t.index, GoneSizes(t.blocks, p, next, prev))
               + {Entry(merged.size, Iter(start, t.nextId))}, t.ptrs)
  }

  /** Taking things out one after another is taking them out together. */
  lemma TakenOut<V>(m: map<int, V>, p: int, next: Option<int>, prev: Option<int>)
    ensures m - {p} - Keys(next) - Keys(prev) == m - Gone(p, next, prev)
  {
  }

  lemma ErasedSizesAdd(index: set<Entry>, a: set<nat>, b: set<nat>, c: set<nat>)
    ensures EraseSizes(EraseSizes(EraseSizes(index, a), b), c) == EraseSizes(index, a + b + c)
  {
  }

  /** Block p is free in a new node, without an entry and a pointer. */
  function WithMarked(t: Tables, p: int): Tables
    requires p in t.blocks
  {
    Tables(t.blocks[p := t.blocks[p].(free := true)], t.ids[p := t.nextId], t.nextId + 1, t.index, t.ptrs - {p})
  }

  lemma MarkedTouches(b: Blocks, p: int, next: Option<int>, prev: Option<int>)
    requires Sized(b) && p in b && Touching(b[p := b[p].(free := true)], p, next, prev)
    ensures Touching(b, p, next, prev)
    ensures MergedBlock(b[p := b[p].(free := true)], p, next, prev) == MergedBlock(b, p, next, prev)
    ensures GoneSizes(b[p := b[p].(free := true)], p, next, prev) == GoneSizes(b, p, next, prev)
    ensures Merged(b[p := b[p].(free := true)], p, next, prev) == Merged(b, p, next, prev)
  {
    forall q: int
      ensures FreeBefore(b, p, q) <==> FreeBefore(b[p := b[p].(free := true)], p, q)
    {
    }
  }

  lemma ReleasedPointers(t: Tables, p: int, next: Option<int>, prev: Option<int>, t': Tables)
    requires Agree(t) && p in t.blocks && Touching(t.blocks, p, next, prev) && !t.blocks[p].free
    requires t' == WithMerged(t.(nextId := t.nextId + 1, ptrs := t.ptrs - {p}), p, next, prev)
    ensures IdsBelow(t'.blocks, t'.ids, t'.nextId) && PointersExact(t'.blocks, t'.ids, t'.ptrs)
  {
    forall q: int | q in t'.ids
      ensures t'.ids[q] < t'.nextId
    {
      assert q != StartOf(p, prev) ==> t'.ids[q] == t.ids[q];
    }
    forall q: int | q in t'.ptrs
      ensures q !in Gone(p, next, prev)
    {
      assert !t.blocks[q].free;
    }
  }

  /** Marking a block free and merging it is merging it. */
  lemma MarkedMerged(t: Tables, p: int, next: Option<int>, prev: Option<int>)
    requires Sized(t.blocks) && p in t.blocks && p in t.ids && Touching(WithMarked(t, p).blocks, p, next, prev)
    ensures Touching(t.blocks, p, next, prev)
    ensures WithMerged(WithMarked(t, p), p, next, prev)
            == WithMerged(t.(nextId := t.nextId + 1, ptrs := t.ptrs - {p}), p, next, prev)
  {
    MarkedTouches(t.blocks, p, next, prev);
    assert t.ids[p := t.nextId] - Gone(p, next, prev) == t.ids - Gone(p, next, prev);
  }

  /** A release leaves the structures in agreement, and the index complete unless another block had an erased size. */
  lemma ReleasedAgrees(t: Tables, p: int, next: Option<int>, prev: Option<int>, t': Tables)
    requires Agree(t) && p in t.blocks && !t.blocks[p].free && Touching(WithMarked(t, p).blocks, p, next, prev)
    requires t' == WithMerged(WithMarked(t, p), p, next, prev)
    ensures Agree(t') && t'.blocks == Released(t.blocks, p)
    ensures Full(t) ==> (Full(t') <==> NoOtherErased(t.blocks, p))
  {
    MarkedMerged(t, p, next, prev);
    MergedDisjoint(t.blocks, p, next, prev);
    ReleasedPointers(t, p, next, prev, t');
    ReleaseResult(t.blocks, t.ids, t.index, t'.blocks, t'.ids, t'.index, p, next, prev, t.nextId + 1);
  }

  class MemoryPool {
    const alignment: nat
    var baseRegions: seq<int>
    var allBlocks: Blocks
    var nodeIds: Ids
    var freeBlocks: set<Entry>
    var ptrToBlock: map<int, Iter>
    var nextId: nat
    ghost var regions: Regions

    ghost function Contents(): Tables
      reads this
    {
      Tables(allBlocks, nodeIds, nextId, freeBlocks, ptrToBlock)
    }

    ghost predicate Valid()
      reads this
    {
      && alignment > 0
      && (forall r: int :: r in regions <==> r in baseRegions)
      && WellFormed(allBlocks, regions) && Agree(Contents())
    }

    ghost predicate Complete()
      reads this
    {
      Full(Contents())
    }

    ghost predicate TiledPool()
      reads this
      requires alignment > 0
    {
      Tiled(allBlocks, regions, alignment)
    }

    /** `region` is what the device returns if a first region is requested. */
    constructor (initialSize: nat, alignment: nat, region: int)
      requires IsPowerOfTwo(alignment)
      ensures Valid() && Complete() && this.alignment == alignment
      ensures allBlocks == Fresh(initialSize, region).blocks && regions == Fresh(initialSize, region).regions
      ensures initialSize % alignment == 0 ==> TiledPool()
    {
      this.alignment := alignment;
      if initialSize > 0 {
        baseRegions := [region];
        allBlocks := map[region := Block(region, initialSize, true)];
        nodeIds := map[region := 0];
        freeBlocks := {Entry(initialSize, Iter(region, 0))};
        regions := map[region := initialSize];
      } else {
        baseRegions, allBlocks, nodeIds, freeBlocks, regions := [], map[], map[], {}, map[];
      }
      ptrToBlock := map[];
      nextId := 1;
      new;
      FreshCovers(initialSize, region);
    }

    /** The constructor with its check; an alignment that is no power of two is an error. */
    static method Create(initialSize: nat, alignment: nat, region: int) returns (pool: MemoryPool?)
      ensures pool != null <==> IsPowerOfTwo(alignment)
      ensures pool != null ==>
                && fresh(pool) && pool.Valid() && pool.Complete() && pool.alignment == alignment
                && pool.allBlocks == Fresh(initialSize, region).blocks
                && pool.regions == Fresh(initialSize, region).regions
                && (initialSize % alignment == 0 ==> pool.TiledPool())
    {
      PowerOfTwoTest(alignment);
      if alignment == 0 || And(alignment, alignment - 1) != 0 {
        return null;
      }
      pool := new MemoryPool(initialSize, alignment, region);
    }

    /** `set::insert` of a block at a pointer that no block has. */
    method Insert(p: int, block: Block) returns (it: Iter)
      requires p !in allBlocks
      modifies this`allBlocks, this`nodeIds, this`nextId
      ensures it == Iter(p, old(nextId)) && nextId == old(nextId) + 1
      ensures allBlocks == old(allBlocks)[p := block] && nodeIds == old(nodeIds)[p := old(nextId)]
    {
      it := Iter(p, nextId);
      allBlocks, nodeIds, nextId := allBlocks[p := block], nodeIds[p := nextId], nextId + 1;
    }

    /** `set::erase` of a node. */
    method Erase(p: int)
      requires p in allBlocks
      modifies this`allBlocks, this`nodeIds
      ensures allBlocks == old(allBlocks) - {p} && nodeIds == old(nodeIds) - {p}
    {
      allBlocks, nodeIds := allBlocks - {p}, nodeIds - {p};
    }

    /** A region of exactly the requested size becomes one free, indexed block. */
    method AllocateNewRegion(size: nat, region: int)
      requires Valid() && NewRegion(regions, region, size)
      modifies this
      ensures region !in old(allBlocks) && Contents() == WithRegion(old(Contents()), region, size) && Agree(Contents())
      ensures old(Complete()) ==> Complete()
      ensures baseRegions == old(baseRegions) + [region] && regions == old(regions)[region := size]
    {
      RegionFits(allBlocks, regions, region, size);
      RegionAgrees(Contents(), region, size);
      AddRegion(size, region);
    }

    method AddRegion(size: nat, region: int)
      requires region !in allBlocks
      modifies this
      ensures Contents() == WithRegion(old(Contents()), region, size)
      ensures baseRegions == old(baseRegions) + [region] && regions == old(regions)[region := size]
    {
      baseRegions := baseRegions + [region];
      regions := regions[region := size];
      var it := Insert(region, Block(region, size, true));
      freeBlocks := freeBlocks + {Entry(size, it)};
    }

    /** The smallest indexed block that fits; a new region's block exactly if there is none. */
    method FindEntry(aligned: nat, region: int) returns (entry: Entry, ghost grown: bool)
      requires Valid() && NewRegion(regions, region, aligned)
      modifies this
      ensures entry in freeBlocks && aligned <= entry.size && Agree(Contents())
      ensures forall r: int :: r in regions <==> r in baseRegions
      ensures old(Complete()) ==> Complete()
      ensures grown <==> forall e :: e in old(freeBlocks) ==> e.size < aligned
      ensures BestFit(freeBlocks, aligned, entry)
      ensures !grown ==> unchanged(this)
      ensures grown ==>
                && region !in old(allBlocks) && Contents() == WithRegion(old(Contents()), region, aligned)
                && entry == Entry(aligned, Iter(region, old(nextId))) && regions == old(regions)[region := aligned]
    {
      grown := forall e :: e in freeBlocks ==> e.size < aligned;
      ghost var index0, id := freeBlocks, nextId;
      if !exists e :: e in freeBlocks && aligned <= e.size {
        AllocateNewRegion(aligned, region);
        assert BestFit(freeBlocks, aligned, Entry(aligned, Iter(region, id)));
      } else {
        BestFitExists(freeBlocks, aligned);
      }
      entry :| entry in freeBlocks && BestFit(freeBlocks, aligned, entry);
      assert BestFit(freeBlocks, aligned, entry);
      assert grown ==> entry !in index0;
    }

    /**
     Allocate. `region` is what the device returns if a new region is needed. The search after
     growing always succeeds, so the program's allocation failure cannot happen here.
     */
    method Alloc(size: nat, region: int) returns (r: Option<int>)
      requires Valid()
      requires size > 0 ==> NewRegion(regions, region, AlignUp(size, alignment))
      modifies this
      ensures Valid()
      ensures r.None? <==> size == 0
      ensures r.None? ==> unchanged(this)
      ensures r.Some? ==>
                && Allocates(old(allBlocks), old(freeBlocks), old(regions), allBlocks, regions,
                             AlignUp(size, alignment), region, r.value, alignment)
                && r.value !in old(Busy(allBlocks)) && Busy(allBlocks) == old(Busy(allBlocks)) + {r.value}
                && allBlocks[r.value].size == AlignUp(size, alignment)
      ensures old(TiledPool()) ==> TiledPool()
      ensures old(Complete()) ==> Complete()
    {
      if size == 0 {
        return None;
      }
      var aligned := AlignUp(size, alignment);
      ghost var b0, regions0, index0 := allBlocks, regions, freeBlocks;
      var p := TakeBlock(aligned, region);
      AllocatesKeeps(b0, index0, regions0, allBlocks, regions, aligned, region, p, alignment);
      return Some(p);
    }

    method TakeBlock(aligned: nat, region: int) returns (p: int)
      requires Valid() && NewRegion(regions, region, aligned)
      modifies this
      ensures Allocates(old(allBlocks), old(freeBlocks), old(regions), allBlocks, regions, aligned, region, p,
                        alignment)
      ensures Agree(Contents()) && (old(Complete()) ==> Complete())
      ensures forall r: int :: r in regions <==> r in baseRegions
    {
      ghost var b0, index0, regions0 := allBlocks, freeBlocks, regions;
      var entry, grown := FindEntry(aligned, region);
      ghost var b1, index1 := allBlocks, freeBlocks;
      TakeEntry(entry, aligned);
      p := entry.it.ptr;
      if grown {
        GrownAllocates(b0, index0, regions0, aligned, region, alignment);
      } else {
        FoundAllocates(b0, index0, regions0, aligned, region, entry, alignment);
      }
    }

    /** Take the block of an index entry out of the index and mark it, or its first part, in use. */
    method TakeEntry(entry: Entry, aligned: nat)
      requires alignment > 0 && Agree(Contents()) && entry in freeBlocks && 0 < aligned <= entry.size
      modifies this`allBlocks, this`nodeIds, this`nextId, this`freeBlocks, this`ptrToBlock
      ensures entry.it.ptr in old(allBlocks) && old(allBlocks)[entry.it.ptr].size == entry.size
      ensures old(allBlocks)[entry.it.ptr].free
      ensures allBlocks == Allocated(old(allBlocks), entry.it.ptr, aligned, alignment)
      ensures Agree(Contents()) && (old(Complete()) ==> Complete())
    {
      ghost var before := Contents();
      TakenAgrees(before, entry, aligned, alignment);
      AllocatedDisjoint(allBlocks, entry.it.ptr, aligned, alignment);
      SplitBlock(entry, aligned);
    }

    method SplitBlock(entry: Entry, aligned: nat)
      requires entry.it.ptr in allBlocks && 0 < aligned <= allBlocks[entry.it.ptr].size && alignment > 0
      requires allBlocks[entry.it.ptr].size > aligned ==> entry.it.ptr + aligned !in allBlocks
      modifies this`allBlocks, this`nodeIds, this`nextId, this`freeBlocks, this`ptrToBlock
      ensures Contents() == WithTaken(old(Contents()), entry, aligned, alignment)
    {
      var ptr := entry.it.ptr;
      var block := allBlocks[ptr];
      freeBlocks := freeBlocks - {entry};
      ReplaceKey(allBlocks, ptr, Block(block.base, aligned, false));
      ReplaceKey(nodeIds, ptr, nextId);
      Erase(ptr);
      var remaining := block.size - aligned;
      var it := Insert(ptr, Block(block.base, aligned, false));
      ptrToBlock := ptrToBlock[ptr := it];
      if remaining >= alignment {
        var rest := ptr + aligned;
        var restIt := Insert(rest, Block(block.base, remaining, true));
        freeBlocks := freeBlocks + {Entry(remaining, restIt)};
      }
    }

    /** The following set node, if it is free and touches block p. */
    method FreeAfter(p: int) returns (next: Option<int>)
      requires Sized(allBlocks) && Disjoint(allBlocks) && p in allBlocks
      ensures next.Some? ==>
                next.value == p + allBlocks[p].size && next.value in allBlocks && allBlocks[next.value].free
      ensures next.None? ==> p + allBlocks[p].size in allBlocks ==> !allBlocks[p + allBlocks[p].size].free
    {
      AdjacentIsNeighbour(allBlocks, p);
      if exists k: int :: k in allBlocks.Keys && p < k {
        NextExists(allBlocks.Keys, p);
        var n: int :| n in allBlocks.Keys && IsNext(allBlocks.Keys, p, n);
        if allBlocks[n].free && p + allBlocks[p].size == n {
          return Some(n);
        }
      }
      return None;
    }

    /** The preceding set node, if it is free and touches block p. */
    method FreeBeforeNode(p: int) returns (prev: Option<int>)
      requires Sized(allBlocks) && Disjoint(allBlocks) && p in allBlocks
      ensures prev.Some? ==> FreeBefore(allBlocks, p, prev.value)
      ensures prev.None? ==> forall q: int :: !FreeBefore(allBlocks, p, q)
    {
      AdjacentIsNeighbour(allBlocks, p);
      if exists k: int :: k in allBlocks.Keys && k < p {
        PrevExists(allBlocks.Keys, p);
        var n: int :| n in allBlocks.Keys && IsPrev(allBlocks.Keys, p, n);
        if allBlocks[n].free && n + allBlocks[n].size == p {
          return Some(n);
        }
      }
      return None;
    }

    /** Merge the free, unindexed block p with its free neighbours and index the result. */
    method TryCoalesce(p: int) returns (ghost next: Option<int>, ghost prev: Option<int>)
      requires Sized(allBlocks) && Disjoint(allBlocks) && p in allBlocks && allBlocks[p].free
      modifies this`allBlocks, this`nodeIds, this`freeBlocks, this`nextId
      ensures Touching(old(allBlocks), p, next, prev)
      ensures Contents() == WithMerged(old(Contents()), p, next, prev)
    {
      var after := FreeAfter(p);
      var before := FreeBeforeNode(p);
      next, prev := after, before;
      MergeBlocks(p, after, before);
    }

    /** Take out block p and the blocks that touch it, and put in the block they make together. */
    method MergeBlocks(p: int, after: Option<int>, before: Option<int>)
      requires p in allBlocks && Touching(allBlocks, p, after, before) && (after.Some? ==> p < after.value)
      modifies this`allBlocks, this`nodeIds, this`freeBlocks, this`nextId
      ensures Contents() == WithMerged(old(Contents()), p, after, before)
    {
      TakenOut(allBlocks, p, after, before);
      TakenOut(nodeIds, p, after, before);
      ErasedSizesAdd(freeBlocks, {allBlocks[p].size}, SizesAt(allBlocks, after), SizesAt(allBlocks, before));
      var merged := allBlocks[p];
      var own := Absorb(Some(p));
      var next := Absorb(after);
      if before.Some? {
        merged := merged.(base := allBlocks[before.value].base);
      }
      var prev := Absorb(before);
      PutMerged(StartOf(p, before), Block(merged.base, own + next + prev, true));
    }

    /** Erase a node, if there is one to merge, and every index entry with its size. */
    method Absorb(touching: Option<int>) returns (size: nat)
      requires touching.Some? ==> touching.value in allBlocks
      modifies this`allBlocks, this`nodeIds, this`freeBlocks
      ensures size == if touching.Some? then old(allBlocks)[touching.value].size else 0
      ensures allBlocks == old(allBlocks) - Keys(touching) && nodeIds == old(nodeIds) - Keys(touching)
      ensures freeBlocks == EraseSizes(old(freeBlocks), old(SizesAt(allBlocks, touching)))
    {
      size := 0;
      if touching.Some? {
        size := allBlocks[touching.value].size;
        freeBlocks := EraseSizes(freeBlocks, {size});
        Erase(touching.value);
      }
    }

    /** Put the merged block in, free, and index it. */
    method PutMerged(p: int, merged: Block)
      requires p !in allBlocks
      modifies this`allBlocks, this`nodeIds, this`freeBlocks, this`nextId
      ensures Contents() == old(Tables(allBlocks[p := merged], nodeIds[p := nextId], nextId + 1,
                                       freeBlocks + {Entry(merged.size, Iter(p, nextId))}, ptrToBlock))
    {
      var it := Insert(p, merged);
      freeBlocks := freeBlocks + {Entry(merged.size, it)};
    }

    /** Give back a pointer; `false` is the exception for a pointer that is not in use. */
    method Release(ptr: Option<int>) returns (ok: bool)
      requires Valid()
      modifies this
      ensures Valid() && regions == old(regions)
      ensures ok <==> ptr.None? || ptr.value in old(Busy(allBlocks))
      ensures ptr.None? || !ok ==> unchanged(this)
      ensures ok && ptr.Some? ==>
                && allBlocks == Released(old(allBlocks), ptr.value)
                && Busy(allBlocks) == old(Busy(allBlocks)) - {ptr.value}
      ensures old(TiledPool()) ==> TiledPool()
      // the index stays complete unless some other free block has one of the erased sizes
      ensures ok && ptr.Some? && old(Complete()) ==>
                (Complete() <==> NoOtherErased(old(allBlocks), ptr.value))
    {
      if ptr.None? {
        return true;
      }
      var p := ptr.value;
      if p !in ptrToBlock {
        return false;
      }
      ghost var b0 := allBlocks;
      MarkAndCoalesce(p);
      ReleasedWellFormed(b0, regions, p);
      if Tiled(b0, regions, alignment) {
        ReleasedTiled(b0, regions, p, alignment);
      }
      return true;
    }

    method MarkAndCoalesce(p: int)
      requires Agree(Contents()) && p in ptrToBlock
      modifies this`allBlocks, this`nodeIds, this`freeBlocks, this`nextId, this`ptrToBlock
      ensures p in old(allBlocks) && allBlocks == Released(old(allBlocks), p) && Agree(Contents())
      ensures old(Complete()) ==> (Complete() <==> NoOtherErased(old(allBlocks), p))
    {
      ghost var t := Contents();
      var block := allBlocks[ptrToBlock[p].ptr];
      ReplaceKey(allBlocks, p, block.(free := true));
      ReplaceKey(nodeIds, p, nextId);
      Erase(p);
      var newIt := Insert(p, block.(free := true));
      ptrToBlock := ptrToBlock - {p};
      assert Contents() == WithMarked(t, p);
      MarkedDisjoint(t.blocks, p);
      ghost var next, prev := TryCoalesce(p);
      ReleasedAgrees(t, p, next, prev, Contents());
    }
  }

  // ---- calls that forget ----

  /** Two regions apart from each other, one free and one in use, of the same size. */
  function TwoRegions(r: int, n: nat, free: bool): Blocks {
    map[r := Block(r, n, true), r + 2 * n := Block(r + 2 * n, n, free)]
  }

  /** Releasing the one in use erases the entry of the other, which stays free. */
  lemma EntryErased(r: int, n: nat)
    requires n > 0
    ensures
      var b, regions := TwoRegions(r, n, false), map[r := n, r + 2 * n := n];
      && WellFormed(b, regions) && Gapped(regions)
      && Released(b, r + 2 * n) == TwoRegions(r, n, true) && !NoOtherErased(b, r + 2 * n)
  {
    var b, regions, p := TwoRegions(r, n, false), map[r := n, r + 2 * n := n], r + 2 * n;
    assert Touching(b, p, None, None);
    OnlyTouching(b, p, None, None);
    assert Released(b, p)[r].size in ErasedSizes(b, p);
    forall a: int | Covered(b, a)
      ensures Owned(regions, a)
    {
      assert RegionHolds(regions, r, a) || RegionHolds(regions, p, a);
    }
  }

  /** Without an entry that is large enough, an allocation takes a new region whole. */
  lemma AllocatesRegion(b: Blocks, index: set<Entry>, rs: Regions, b': Blocks, rs': Regions, n: nat, region: int,
                        p: int, alignment: nat)
    requires Allocates(b, index, rs, b', rs', n, region, p, alignment) && forall e :: e in index ==> e.size < n
    ensures p == region && b' == b[region := Block(region, n, false)] && rs' == rs[region := n]
  {
  }

  lemma NothingIndexed(t: Tables, n: nat)
    requires Agree(t) && forall p: int :: p in t.blocks ==> !t.blocks[p].free || t.blocks[p].size < n
    ensures forall e :: e in t.index ==> e.size < n
  {
  }

  lemma FirstReleased(r: int, n: nat)
    requires n > 0
    ensures
      var b := map[r := Block(r, n, false), r + 2 * n := Block(r + 2 * n, n, false)];
      Released(b, r) == TwoRegions(r, n, false)
  {
    var b := map[r := Block(r, n, false), r + 2 * n := Block(r + 2 * n, n, false)];
    assert Touching(b, r, None, None);
    OnlyTouching(b, r, None, None);
  }

  /** An allocation for which no free block is large enough, by its effect on blocks and regions. */
  method AllocRegion(pool: MemoryPool, size: nat, region: int) returns (p: int)
    requires pool.Valid() && size > 0 && size % pool.alignment == 0 && NewRegion(pool.regions, region, size)
    requires forall q: int :: q in pool.allBlocks ==> !pool.allBlocks[q].free || pool.allBlocks[q].size < size
    modifies pool
    ensures pool.Valid() && p == region
    ensures pool.allBlocks == old(pool.allBlocks)[region := Block(region, size, false)]
    ensures pool.regions == old(pool.regions)[region := size]
    ensures old(pool.Complete()) ==> pool.Complete()
  {
    ghost var b0, index0, rs0 := pool.allBlocks, pool.freeBlocks, pool.regions;
    NothingIndexed(pool.Contents(), size);
    ExactSize(size, pool.alignment);
    var r := pool.Alloc(size, region);
    p := r.value;
    AllocatesRegion(b0, index0, rs0, pool.allBlocks, pool.regions, size, region, p, pool.alignment);
  }

  /** A release with a known result. */
  method ReleaseTo(pool: MemoryPool, p: int, ghost goal: Blocks)
    requires pool.Valid() && pool.Complete() && p in pool.allBlocks && !pool.allBlocks[p].free
    requires Released(pool.allBlocks, p) == goal
    modifies pool
    ensures pool.Valid() && pool.allBlocks == goal && pool.regions == old(pool.regions)
    ensures pool.Complete() <==> NoOtherErased(old(pool.allBlocks), p)
  {
    assert p in Busy(pool.allBlocks);
    var ok := pool.Release(Some(p));
  }

  /** A new pool, by its blocks and regions. */
  method NewPool(initialSize: nat, alignment: nat, r: int) returns (pool: MemoryPool)
    requires IsPowerOfTwo(alignment)
    ensures fresh(pool) && pool.Valid() && pool.Complete() && pool.alignment == alignment
    ensures State(pool.allBlocks, pool.regions) == Fresh(initialSize, r)
  {
    pool := new MemoryPool(initialSize, alignment, r);
  }

  method TwoInUse(r: int) returns (pool: MemoryPool)
    ensures fresh(pool) && pool.Valid() && pool.Complete()
    ensures pool.allBlocks == map[r := Block(r, 512, false), r + 1024 := Block(r + 1024, 512, false)]
    ensures pool.regions == map[r := 512, r + 1024 := 512]
  {
    PowerIs512();
    pool := NewPool(0, 512, r);
    var first := AllocRegion(pool, 512, r);
    var second := AllocRegion(pool, 512, r + 1024);
  }

  lemma NoneErased(b: Blocks, p: int)
    requires p in b && forall q: int :: q in b ==> !b[q].free
    ensures NoOtherErased(b, p)
  {
  }

  /** Five calls on a pool with gaps between its regions leave a free block that the index does not find. */
  method ForgetFreeBlock(r: int) returns (pool: MemoryPool)
    ensures fresh(pool) && pool.Valid() && Gapped(pool.regions) && !pool.Complete()
    ensures pool.allBlocks == TwoRegions(r, 512, true)
  {
    pool := TwoInUse(r);
    FirstKeepsEntries(pool.allBlocks, r);
    ReleaseTo(pool, r, TwoRegions(r, 512, false));
    SecondErasesEntry(r);
    ReleaseTo(pool, r + 1024, TwoRegions(r, 512, true));
  }

  lemma FirstKeepsEntries(b: Blocks, r: int)
    requires b == map[r := Block(r, 512, false), r + 1024 := Block(r + 1024, 512, false)]
    ensures Released(b, r) == TwoRegions(r, 512, false) && NoOtherErased(b, r)
  {
    FirstReleased(r, 512);
    NoneErased(b, r);
  }

  lemma SecondErasesEntry(r: int)
    ensures
      var b := TwoRegions(r, 512, false);
      Released(b, r + 1024) == TwoRegions(r, 512, true) && !NoOtherErased(b, r + 1024)
    ensures Gapped(map[r := 512, r + 1024 := 512])
  {
    EntryErased(r, 512);
  }

  lemma PowerIs512()
    ensures IsPowerOfTwo(512)
  {
    assert IsPowerOfTwo(8);
    assert IsPowerOfTwo(64);
  }

  // ---- calls that lose memory ----

  /** The allocation of n bytes out of a pool's only block, which the index finds. */
  method AllocOnly(pool: MemoryPool, n: nat, region: int, ghost r: int) returns (p: int)
    requires pool.Valid() && pool.Complete() && n > 0 && n % pool.alignment == 0 && NewRegion(pool.regions, region, n)
    requires pool.allBlocks.Keys == {r} && pool.allBlocks[r].free && n <= pool.allBlocks[r].size
    modifies pool
    ensures pool.Valid() && p == r
    ensures pool.allBlocks == Allocated(old(pool.allBlocks), r, n, pool.alignment) && pool.regions == old(pool.regions)
  {
    ExactSize(n, pool.alignment);
    ghost var e := EntryOf(pool.allBlocks, pool.nodeIds, r);
    assert e in pool.freeBlocks && n <= e.size;
    var a := pool.Alloc(n, region);
    p := a.value;
  }

  /** One allocation out of a first region larger than the alignment. */
  method LoseRest(pool: MemoryPool, initialSize: nat, r: int)
    requires pool.Valid() && pool.Complete() && initialSize % pool.alignment != 0 && initialSize >= pool.alignment
    requires pool.allBlocks == map[r := Block(r, initialSize, true)] && pool.regions == map[r := initialSize]
    modifies pool
    ensures pool.Valid() && pool.regions == old(pool.regions) && !NothingLost(State(pool.allBlocks, pool.regions))
  {
    MultipleBelow(initialSize, pool.alignment);
    var n := initialSize - initialSize % pool.alignment;
    FreshCovers(initialSize, r);
    AllocatedCovers(pool.allBlocks, r, n, pool.alignment);
    var p := AllocOnly(pool, n, r + initialSize, r);
  }

  /** The pool of a small first region, all free. */
  ghost predicate Small(pool: MemoryPool, initialSize: nat, r: int)
    reads pool
  {
    && pool.Valid() && pool.Complete() && 0 < initialSize < pool.alignment
    && pool.allBlocks == map[r := Block(r, initialSize, true)] && pool.regions == map[r := initialSize]
  }

  /** Take a region that touches a smaller first one. */
  method TakeTouching(pool: MemoryPool, initialSize: nat, r: int) returns (p: int)
    requires Small(pool, initialSize, r)
    modifies pool
    ensures pool.Valid() && pool.Complete() && p == r + initialSize
    ensures pool.allBlocks == Grown(map[r := Block(r, initialSize, true)], p, pool.alignment)
    ensures pool.regions == Joined(initialSize, r, pool.alignment).regions
  {
    WholeAlignment(pool.alignment);
    p := AllocRegion(pool, pool.alignment, r + initialSize);
  }

  /** Give it back: the two become one block. */
  method GiveBack(pool: MemoryPool, initialSize: nat, r: int, p: int)
    requires pool.Valid() && pool.Complete() && 0 < initialSize < pool.alignment && p == r + initialSize
    requires pool.allBlocks == Grown(map[r := Block(r, initialSize, true)], p, pool.alignment)
    requires pool.regions == Joined(initialSize, r, pool.alignment).regions
    modifies pool
    ensures pool.Valid() && pool.Complete()
    ensures State(pool.allBlocks, pool.regions) == Joined(initialSize, r, pool.alignment)
  {
    JoinFacts(pool.allBlocks, initialSize, r, pool.alignment, p);
    ReleaseTo(pool, p, Joined(initialSize, r, pool.alignment).blocks);
  }

  lemma JoinFacts(b: Blocks, initialSize: nat, r: int, alignment: nat, p: int)
    requires 0 < initialSize < alignment && p == r + initialSize
    requires b == Grown(map[r := Block(r, initialSize, true)], p, alignment)
    ensures p in b && !b[p].free && Released(b, p) == Joined(initialSize, r, alignment).blocks
    ensures NoOtherErased(b, p)
  {
    JoinedByRelease(initialSize, r, alignment);
    OnlyBefore(b, p, r);
    OnlyOneLeft(b, Joined(initialSize, r, alignment).blocks, p, r);
  }

  /** The pool with a first region smaller than the alignment. */
  method LoseFirst(pool: MemoryPool, initialSize: nat, r: int)
    requires Small(pool, initialSize, r)
    modifies pool
    ensures pool.Valid() && !NothingLost(State(pool.allBlocks, pool.regions))
  {
    var p := TakeTouching(pool, initialSize, r);
    GiveBack(pool, initialSize, r, p);
    LoseJoined(pool, initialSize, r);
  }

  lemma ZeroIsMultiple(alignment: nat)
    requires IsPowerOfTwo(alignment)
    ensures alignment > 0 && 0 % alignment == 0
  {
  }

  lemma FreshIs(initialSize: nat, r: int)
    requires initialSize > 0
    ensures Fresh(initialSize, r) == State(map[r := Block(r, initialSize, true)], map[r := initialSize])
    ensures Gapped(map[r := initialSize])
  {
  }

  /**
   The losing runs happen: with an initial size that is no multiple of the alignment, at most three
   calls on a new pool lose part of its first region. If that region is larger than the alignment, no
   region touches another.
   */
  method LoseMemory(initialSize: nat, alignment: nat, r: int) returns (pool: MemoryPool)
    requires IsPowerOfTwo(alignment) && initialSize % alignment != 0
    ensures fresh(pool) && pool.Valid() && !NothingLost(State(pool.allBlocks, pool.regions))
    ensures initialSize >= alignment ==> Gapped(pool.regions)
  {
    ZeroIsMultiple(alignment);
    FreshIs(initialSize, r);
    pool := NewPool(initialSize, alignment, r);
    if initialSize >= alignment {
      LoseRest(pool, initialSize, r);
    } else {
      LoseFirst(pool, initialSize, r);
    }
  }

  /** One allocation out of the joined block leaves less than the alignment. */
  method LoseJoined(pool: MemoryPool, initialSize: nat, r: int)
    requires pool.Valid() && pool.Complete() && 0 < initialSize < pool.alignment
    requires State(pool.allBlocks, pool.regions) == Joined(initialSize, r, pool.alignment)
    modifies pool
    ensures pool.Valid() && !NothingLost(State(pool.allBlocks, pool.regions))
  {
    WholeAlignment(pool.alignment);
    JoinedCovers(initialSize, r, pool.alignment);
    AllocatedCovers(pool.allBlocks, r, pool.alignment, pool.alignment);
    var p := AllocOnly(pool, pool.alignment, r + initialSize + pool.alignment, r);
  }

  lemma OnlyBefore(b: Blocks, p: int, r: int)
    requires Sized(b) && Disjoint(b) && p in b && FreeBefore(b, p, r)
    ensures PrevOf(b, p) == Some(r)
  {
    TouchingOf(b, p);
    OneBefore(b, p, r, PrevOf(b, p).value);
  }

  lemma OnlyOneLeft(b: Blocks, b': Blocks, p: int, r: int)
    requires p in b && b' == Released(b, p) && b'.Keys == {r} && PrevOf(b, p) == Some(r)
    ensures NoOtherErased(b, p)
  {
  }

  lemma ExactSize(n: nat, alignment: nat)
    requires alignment > 0 && n % alignment == 0
    ensures AlignUp(n, alignment) == n
  {
    DivModIdentity(n, alignment);
    DivModUnique(n + alignment - 1, alignment, n / alignment, alignment - 1);
  }
}
