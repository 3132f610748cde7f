/**
 The memory pool's blocks as a map from address to block (src/allocator.hpp), without the
 size index: what allocations and releases do to the tiling of the regions.
 */
module PoolBlocks {
  import opened DivMod
  import opened Results

  datatype Block = Block(base: int, size: nat, free: bool)

  /** The blocks, keyed by the pointer that orders them. */
  type Blocks = map<int, Block>

  /** Start and size of every region obtained from the device. */
  type Regions = map<int, nat>

  ghost predicate Holds(b: Blocks, p: int, a: int) {
    p in b && p <= a < p + b[p].size
  }

  ghost predicate RegionHolds(regions: Regions, r: int, a: int) {
    r in regions && r <= a < r + regions[r]
  }

  /** Address a lies in some block. */
  ghost predicate Covered(b: Blocks, a: int) {
    exists p: int :: Holds(b, p, a)
  }

  /** Address a lies in some region. */
  ghost predicate Owned(regions: Regions, a: int) {
    exists r: int :: RegionHolds(regions, r, a)
  }

  ghost predicate Disjoint(b: Blocks) {
    forall p: int, q: int :: p in b && q in b && p < q ==> p + b[p].size <= q
  }

  ghost predicate RegionsDisjoint(regions: Regions) {
    forall r: int, t: int :: r in regions && t in regions && r < t ==> r + regions[r] <= t
  }

  /** No two regions touch. */
  ghost predicate Gapped(regions: Regions) {
    forall r: int, t: int :: r in regions && t in regions && r < t ==> r + regions[r] < t
  }

  /** A free block is never directly followed by a free block. */
  ghost predicate Coalesced(b: Blocks) {
    forall p: int :: p in b && b[p].free && p + b[p].size in b ==> !b[p + b[p].size].free
  }

  ghost predicate Sized(b: Blocks) {
    forall p: int :: p in b ==> b[p].size > 0
  }

  /** What every state of the pool keeps, whatever the initial size. */
  ghost predicate WellFormed(b: Blocks, regions: Regions) {
    && Sized(b) && (forall r: int :: r in regions ==> regions[r] > 0)
    && Disjoint(b) && RegionsDisjoint(regions) && Coalesced(b)
    && forall a: int :: Covered(b, a) ==> Owned(regions, a)
  }

  /** No memory is lost: the blocks, all multiples of the alignment, tile the regions exactly. */
  ghost predicate Tiled(b: Blocks, regions: Regions, alignment: nat)
    requires alignment > 0
  {
    && (forall a: int :: Covered(b, a) <==> Owned(regions, a))
    && forall p: int :: p in b ==> b[p].size % alignment == 0
  }

  ghost function Busy(b: Blocks): set<int> {
    set p: int | p in b && !b[p].free
  }

  // ---- allocation ----

  /** Take n bytes of the free block p; what is left stays a block only if it is at least one alignment. */
  function Allocated(b: Blocks, p: int, n: nat, alignment: nat): Blocks
    requires p in b && n <= b[p].size
  {
    var rest := b[p].size - n;
    var taken := b[p := Block(b[p].base, n, false)];
    if rest >= alignment then taken[p + n := Block(b[p].base, rest, true)] else taken
  }

  /** Blocks do not overlap: one instance. */
  lemma Apart(b: Blocks, p: int, q: int)
    requires Disjoint(b) && p in b && q in b && p != q
    ensures p + b[p].size <= q || q + b[q].size <= p
  {
  }

  lemma AllocatedDisjoint(b: Blocks, p: int, n: nat, alignment: nat)
    requires Sized(b) && Disjoint(b) && alignment > 0 && p in b && 0 < n <= b[p].size
    ensures Sized(Allocated(b, p, n, alignment)) && Disjoint(Allocated(b, p, n, alignment))
    ensures b[p].size > n ==> p + n !in b
  {
    var b' := Allocated(b, p, n, alignment);
    forall q: int, t: int | q in b' && t in b' && q < t
      ensures q + b'[q].size <= t
    {
      if q in b && t in b && q != p + n && t != p + n {
        Apart(b, q, t);
      } else if q in b && q != p {
        Apart(b, q, p);
      } else if t in b && t != p {
        Apart(b, t, p);
      }
    }
  }

  lemma AllocatedCoalesced(b: Blocks, p: int, n: nat, alignment: nat)
    requires Sized(b) && Disjoint(b) && Coalesced(b) && alignment > 0 && p in b && b[p].free && 0 < n <= b[p].size
    ensures Coalesced(Allocated(b, p, n, alignment))
  {
    var b' := Allocated(b, p, n, alignment);
    forall q: int | q in b' && b'[q].free && q + b'[q].size in b'
      ensures !b'[q + b'[q].size].free
    {
      if q != p + n || q in b {
        Apart(b, q, p);
      }
    }
  }

  lemma AllocatedBusy(b: Blocks, p: int, n: nat, alignment: nat)
    requires Sized(b) && Disjoint(b) && alignment > 0 && p in b && b[p].free && 0 < n <= b[p].size
    ensures Busy(Allocated(b, p, n, alignment)) == Busy(b) + {p}
  {
    AllocatedDisjoint(b, p, n, alignment);
  }

  lemma AllocatedInside(b: Blocks, p: int, n: nat, alignment: nat, a: int)
    requires p in b && 0 < n <= b[p].size && Covered(Allocated(b, p, n, alignment), a)
    ensures Covered(b, a)
  {
    var q: int :| Holds(Allocated(b, p, n, alignment), q, a);
    assert Holds(b, q, a) || Holds(b, p, a);
  }

  lemma AllocatedWellFormed(b: Blocks, regions: Regions, p: int, n: nat, alignment: nat)
    requires WellFormed(b, regions) && alignment > 0
    requires p in b && b[p].free && 0 < n <= b[p].size
    ensures WellFormed(Allocated(b, p, n, alignment), regions)
    ensures Busy(Allocated(b, p, n, alignment)) == Busy(b) + {p}
  {
    AllocatedDisjoint(b, p, n, alignment);
    AllocatedCoalesced(b, p, n, alignment);
    AllocatedBusy(b, p, n, alignment);
    forall a: int | Covered(Allocated(b, p, n, alignment), a)
      ensures Owned(regions, a)
    {
      AllocatedInside(b, p, n, alignment, a);
    }
  }

  /** An allocation loses no address exactly when it leaves nothing or at least one alignment. */
  lemma AllocatedCovers(b: Blocks, p: int, n: nat, alignment: nat)
    requires Sized(b) && Disjoint(b) && alignment > 0 && p in b && 0 < n <= b[p].size
    ensures (forall a: int :: Covered(b, a) <==> Covered(Allocated(b, p, n, alignment), a))
            <==> b[p].size == n || b[p].size - n >= alignment
  {
    var b' := Allocated(b, p, n, alignment);
    if b[p].size == n || b[p].size - n >= alignment {
      forall a: int
        ensures Covered(b, a) <==> Covered(b', a)
      {
        if Covered(b, a) {
          var q: int :| Holds(b, q, a);
          assert Holds(b', if q == p && a >= p + n then p + n else q, a);
        }
        if Covered(b', a) {
          var q: int :| Holds(b', q, a);
          assert Holds(b, q, a) || Holds(b, p, a);
        }
      }
    } else {
      assert Holds(b, p, p + n) && Covered(b, p + n);
      assert !Covered(b', p + n);
    }
  }

  lemma MultiplesSubtract(x: nat, n: nat, alignment: nat)
    requires alignment > 0 && n <= x && x % alignment == 0 && n % alignment == 0
    ensures (x - n) % alignment == 0 && (x == n || x - n >= alignment)
  {
    var i, j := x / alignment, n / alignment;
    DivModIdentity(x, alignment);
    DivModIdentity(n, alignment);
    MulDistributes(i, j, alignment);
    DivOfProduct(x - n, alignment, i - j);
    if x != n && x - n < alignment {
      DivModUnique(x - n, alignment, 0, x - n);
    }
  }

  lemma AllocatedTiled(b: Blocks, regions: Regions, p: int, n: nat, alignment: nat)
    requires WellFormed(b, regions) && alignment > 0 && Tiled(b, regions, alignment)
    requires p in b && b[p].free && 0 < n <= b[p].size && n % alignment == 0
    ensures Tiled(Allocated(b, p, n, alignment), regions, alignment)
  {
    MultiplesSubtract(b[p].size, n, alignment);
    AllocatedCovers(b, p, n, alignment);
  }

  // ---- growth ----

  /** The device returned a region of n bytes at r that overlaps no other. */
  ghost predicate NewRegion(regions: Regions, r: int, n: nat) {
    n > 0 && forall t: int :: t in regions ==> r + n <= t || t + regions[t] <= r
  }

  function Grown(b: Blocks, r: int, n: nat): Blocks {
    b[r := Block(r, n, false)]
  }

  lemma GrownDisjoint(b: Blocks, r: int, n: nat)
    requires Sized(b) && Disjoint(b) && n > 0 && r !in b
    requires forall p: int :: p in b ==> r + n <= p || p + b[p].size <= r
    ensures Sized(Grown(b, r, n)) && Disjoint(Grown(b, r, n))
  {
  }

  lemma GrownCoalesced(b: Blocks, r: int, n: nat)
    requires Coalesced(b) && r !in b
    ensures Coalesced(Grown(b, r, n)) && Busy(Grown(b, r, n)) == Busy(b) + {r}
  {
  }

  lemma GrownRegions(regions: Regions, r: int, n: nat)
    requires RegionsDisjoint(regions) && NewRegion(regions, r, n) && forall t: int :: t in regions ==> regions[t] > 0
    ensures r !in regions && RegionsDisjoint(regions[r := n])
  {
  }

  lemma GrownWellFormed(b: Blocks, regions: Regions, r: int, n: nat)
    requires WellFormed(b, regions) && NewRegion(regions, r, n)
    ensures r !in b && r !in regions
    ensures WellFormed(Grown(b, r, n), regions[r := n])
    ensures Busy(Grown(b, r, n)) == Busy(b) + {r}
  {
    forall p: int | p in b
      ensures p != r && (r + n <= p || p + b[p].size <= r)
    {
      BlockOutside(b, regions, p, r, n);
    }
    GrownRegions(regions, r, n);
    GrownDisjoint(b, r, n);
    GrownCoalesced(b, r, n);
    forall a: int | Covered(Grown(b, r, n), a)
      ensures Owned(regions[r := n], a)
    {
      GrownOwned(b, regions, r, n, a);
    }
  }

  lemma GrownOwned(b: Blocks, regions: Regions, r: int, n: nat, a: int)
    requires WellFormed(b, regions) && r !in regions
    requires Covered(Grown(b, r, n), a)
    ensures Owned(regions[r := n], a)
  {
    var q: int :| Holds(Grown(b, r, n), q, a);
    if q == r {
      assert RegionHolds(regions[r := n], r, a);
    } else {
      assert Holds(b, q, a) && Covered(b, a);
      var t: int :| RegionHolds(regions, t, a);
      assert RegionHolds(regions[r := n], t, a);
    }
  }

  lemma BlockOutside(b: Blocks, regions: Regions, p: int, r: int, n: nat)
    requires WellFormed(b, regions) && NewRegion(regions, r, n) && p in b
    ensures r + n <= p || p + b[p].size <= r
  {
    if p < r + n && r < p + b[p].size {
      var a := if p < r then r else p;
      assert Holds(b, p, a) && Covered(b, a);
    }
  }

  lemma GrownTiled(b: Blocks, regions: Regions, r: int, n: nat, alignment: nat)
    requires WellFormed(b, regions) && NewRegion(regions, r, n)
    requires alignment > 0 && n % alignment == 0 && Tiled(b, regions, alignment)
    ensures Tiled(Grown(b, r, n), regions[r := n], alignment)
  {
    var b', regions' := Grown(b, r, n), regions[r := n];
    GrownWellFormed(b, regions, r, n);
    forall a: int | Owned(regions', a)
      ensures Covered(b', a)
    {
      var t: int :| RegionHolds(regions', t, a);
      if t == r {
        assert Holds(b', r, a);
      } else {
        assert RegionHolds(regions, t, a) && Owned(regions, a);
        var p: int :| Holds(b, p, a);
        assert Holds(b', p, a);
      }
    }
  }

  // ---- release ----

  ghost predicate FreeBefore(b: Blocks, p: int, q: int) {
    q in b && q < p && b[q].free && q + b[q].size == p
  }

  /** The free block that starts where block p ends. */
  function NextOf(b: Blocks, p: int): Option<int>
    requires p in b
  {
    if p + b[p].size in b && b[p + b[p].size].free then Some(p + b[p].size) else None
  }

  /** The free block that ends where block p starts. */
  ghost function PrevOf(b: Blocks, p: int): Option<int> {
    if q: int :| FreeBefore(b, p, q) then Some(q) else None
  }

  /** `next` and `prev` are the free blocks that touch block p, if any. */
  ghost predicate Touching(b: Blocks, p: int, next: Option<int>, prev: Option<int>)
    requires p in b
  {
    && (next.Some? ==> next.value == p + b[p].size && next.value in b && b[next.value].free)
    && (next.None? ==> p + b[p].size in b ==> !b[p + b[p].size].free)
    && (prev.Some? ==> FreeBefore(b, p, prev.value))
    && (prev.None? ==> forall q: int :: !FreeBefore(b, p, q))
  }

  lemma TouchingOf(b: Blocks, p: int)
    requires p in b
    ensures Touching(b, p, NextOf(b, p), PrevOf(b, p))
  {
  }

  lemma OneBefore(b: Blocks, p: int, q: int, t: int)
    requires Disjoint(b) && Sized(b) && FreeBefore(b, p, q) && FreeBefore(b, p, t)
    ensures q == t
  {
    if q != t {
      Apart(b, q, t);
    }
  }

  /** Only one pair of blocks touches block p. */
  lemma OnlyTouching(b: Blocks, p: int, next: Option<int>, prev: Option<int>)
    requires Sized(b) && Disjoint(b) && p in b && Touching(b, p, next, prev)
    ensures next == NextOf(b, p) && prev == PrevOf(b, p)
  {
    TouchingOf(b, p);
    if prev.Some? {
      assert FreeBefore(b, p, prev.value);
      OneBefore(b, p, prev.value, PrevOf(b, p).value);
    }
  }

  function Keys(o: Option<int>): set<int> {
    if o.Some? then {o.value} else {}
  }

  ghost function Gone(p: int, next: Option<int>, prev: Option<int>): set<int> {
    {p} + Keys(next) + Keys(prev)
  }

  function StartOf(p: int, prev: Option<int>): int {
    if prev.Some? then prev.value else p
  }

  ghost function MergedBlock(b: Blocks, p: int, next: Option<int>, prev: Option<int>): Block
    requires p in b && Touching(b, p, next, prev)
  {
    Block(b[StartOf(p, prev)].base,
          b[p].size + (if next.Some? then b[next.value].size else 0) + (if prev.Some? then b[prev.value].size else 0),
          true)
  }

  /** Block p and the free blocks that touch it become one free block. */
  ghost function Merged(b: Blocks, p: int, next: Option<int>, prev: Option<int>): Blocks
    requires p in b && Touching(b, p, next, prev)
  {
    (b - Gone(p, next, prev))[StartOf(p, prev) := MergedBlock(b, p, next, prev)]
  }

  ghost function Released(b: Blocks, p: int): Blocks
    requires p in b
  {
    TouchingOf(b, p);
    Merged(b, p, NextOf(b, p), PrevOf(b, p))
  }

  ghost predicate SameCover(b: Blocks, b': Blocks) {
    forall a: int :: Covered(b, a) <==> Covered(b', a)
  }

  /** The first address behind the merged block. */
  ghost function EndOf(b: Blocks, p: int, next: Option<int>): int
    requires p in b && (next.Some? ==> next.value in b)
  {
    p + b[p].size + if next.Some? then b[next.value].size else 0
  }

  lemma MergedSpan(b: Blocks, p: int, next: Option<int>, prev: Option<int>)
    requires p in b && Touching(b, p, next, prev)
    ensures StartOf(p, prev) <= p && StartOf(p, prev) + MergedBlock(b, p, next, prev).size == EndOf(b, p, next)
  {
  }

  /** A block that is not merged lies outside what is. */
  lemma OutsideMerged(b: Blocks, p: int, next: Option<int>, prev: Option<int>, q: int)
    requires Sized(b) && Disjoint(b) && p in b && Touching(b, p, next, prev) && q in b && q !in Gone(p, next, prev)
    ensures q + b[q].size <= StartOf(p, prev) || EndOf(b, p, next) <= q
  {
    Apart(b, q, p);
    if next.Some? {
      Apart(b, q, next.value);
    }
    if prev.Some? {
      Apart(b, q, prev.value);
    }
  }

  lemma MergedDisjoint(b: Blocks, p: int, next: Option<int>, prev: Option<int>)
    requires Sized(b) && Disjoint(b) && p in b && Touching(b, p, next, prev)
    ensures Sized(Merged(b, p, next, prev)) && Disjoint(Merged(b, p, next, prev))
  {
    var m, start := Merged(b, p, next, prev), StartOf(p, prev);
    MergedSpan(b, p, next, prev);
    forall q: int, t: int | q in m && t in m && q < t
      ensures q + m[q].size <= t
    {
      if q == start {
        OutsideMerged(b, p, next, prev, t);
      } else if t == start {
        OutsideMerged(b, p, next, prev, q);
      } else {
        Apart(b, q, t);
      }
    }
  }

  lemma NoneFreeBefore(b: Blocks, p: int, next: Option<int>, prev: Option<int>, q: int)
    requires Sized(b) && Coalesced(b) && p in b && Touching(b, p, next, prev) && q in b && b[q].free
    ensures q + b[q].size != StartOf(p, prev)
  {
    assert prev.None? ==> !FreeBefore(b, p, q);
  }

  lemma NoneFreeAfter(b: Blocks, p: int, next: Option<int>, prev: Option<int>)
    requires Sized(b) && Coalesced(b) && p in b && Touching(b, p, next, prev)
    ensures StartOf(p, prev) < EndOf(b, p, next) && (EndOf(b, p, next) in b ==> !b[EndOf(b, p, next)].free)
  {
  }

  lemma MergedCoalesced(b: Blocks, p: int, next: Option<int>, prev: Option<int>)
    requires Sized(b) && Disjoint(b) && Coalesced(b) && p in b && Touching(b, p, next, prev)
    ensures Coalesced(Merged(b, p, next, prev))
  {
    var m, start := Merged(b, p, next, prev), StartOf(p, prev);
    MergedSpan(b, p, next, prev);
    NoneFreeAfter(b, p, next, prev);
    forall q: int | q in m && m[q].free && q + m[q].size in m
      ensures !m[q + m[q].size].free
    {
      if q != start {
        NoneFreeBefore(b, p, next, prev, q);
      }
    }
  }

  lemma MergedCovers(b: Blocks, p: int, next: Option<int>, prev: Option<int>, a: int)
    requires p in b && Touching(b, p, next, prev)
    ensures Covered(b, a) <==> Covered(Merged(b, p, next, prev), a)
  {
    var m, start := Merged(b, p, next, prev), StartOf(p, prev);
    MergedSpan(b, p, next, prev);
    if q: int :| Holds(b, q, a) {
      assert if q in Gone(p, next, prev) then Holds(m, start, a) else q == start || Holds(m, q, a);
    }
    if q: int :| Holds(m, q, a) {
      assert if q == start
          then Holds(b, p, a) || (next.Some? && Holds(b, next.value, a)) || (prev.Some? && Holds(b, prev.value, a))
             else Holds(b, q, a);
    }
  }

  lemma MergedBusy(b: Blocks, p: int, next: Option<int>, prev: Option<int>)
    requires p in b && Touching(b, p, next, prev)
    ensures Busy(Merged(b, p, next, prev)) == Busy(b) - {p}
    ensures forall q: int :: q in Busy(b) - {p} ==> Merged(b, p, next, prev)[q] == b[q]
  {
  }

  /** After a release no free block touches another. */
  lemma ReleasedCoalesces(b: Blocks, p: int)
    requires Sized(b) && Disjoint(b) && Coalesced(b) && p in b
    ensures Sized(Released(b, p)) && Disjoint(Released(b, p)) && Coalesced(Released(b, p))
    ensures Busy(Released(b, p)) == Busy(b) - {p}
    ensures forall q: int :: q in Busy(b) - {p} ==> Released(b, p)[q] == b[q]
  {
    var next, prev := NextOf(b, p), PrevOf(b, p);
    TouchingOf(b, p);
    MergedDisjoint(b, p, next, prev);
    MergedCoalesced(b, p, next, prev);
    MergedBusy(b, p, next, prev);
  }

  lemma ReleasedCovers(b: Blocks, p: int)
    requires p in b
    ensures SameCover(b, Released(b, p))
  {
    TouchingOf(b, p);
    forall a: int
      ensures Covered(b, a) <==> Covered(Released(b, p), a)
    {
      MergedCovers(b, p, NextOf(b, p), PrevOf(b, p), a);
    }
  }

  lemma ReleasedWellFormed(b: Blocks, regions: Regions, p: int)
    requires WellFormed(b, regions) && p in b && !b[p].free
    ensures WellFormed(Released(b, p), regions)
    ensures SameCover(b, Released(b, p))
    ensures Busy(Released(b, p)) == Busy(b) - {p}
    ensures forall q: int :: q in Busy(b) - {p} ==> Released(b, p)[q] == b[q]
  {
    ReleasedCoalesces(b, p);
    ReleasedCovers(b, p);
  }

  lemma SumOfMultiples(x: nat, y: nat, alignment: nat)
    requires alignment > 0 && x % alignment == 0 && y % alignment == 0
    ensures (x + y) % alignment == 0
  {
    var i, j := x / alignment, y / alignment;
    DivModIdentity(x, alignment);
    DivModIdentity(y, alignment);
    MulDistributes(i, j, alignment);
    DivOfProduct(x + y, alignment, i + j);
  }

  /** Sizes that are multiples of the alignment stay multiples. */
  lemma ReleasedSizes(b: Blocks, p: int, alignment: nat)
    requires p in b && alignment > 0 && forall q: int :: q in b ==> b[q].size % alignment == 0
    ensures forall q: int :: q in Released(b, p) ==> Released(b, p)[q].size % alignment == 0
  {
    var next, prev := NextOf(b, p), PrevOf(b, p);
    TouchingOf(b, p);
    MergedSize(b, p, next, prev, alignment);
  }

  lemma MergedSize(b: Blocks, p: int, next: Option<int>, prev: Option<int>, alignment: nat)
    requires p in b && Touching(b, p, next, prev) && alignment > 0 && b[p].size % alignment == 0
    requires (next.Some? ==> b[next.value].size % alignment == 0)
    requires (prev.Some? ==> b[prev.value].size % alignment == 0)
    ensures MergedBlock(b, p, next, prev).size % alignment == 0
  {
    var size := b[p].size;
    if next.Some? {
      SumOfMultiples(size, b[next.value].size, alignment);
      size := size + b[next.value].size;
    }
    if prev.Some? {
      SumOfMultiples(size, b[prev.value].size, alignment);
    }
  }

  lemma ReleasedTiled(b: Blocks, regions: Regions, p: int, alignment: nat)
    requires p in b && alignment > 0 && Tiled(b, regions, alignment)
    ensures Tiled(Released(b, p), regions, alignment)
  {
    ReleasedCovers(b, p);
    ReleasedSizes(b, p, alignment);
  }

  // ---- inverse and drain ----

  /** Releasing what was just allocated gives back the blocks, when the allocation lost nothing. */
  lemma ReleaseUndoesAllocate(b: Blocks, p: int, n: nat, alignment: nat)
    requires Sized(b) && Disjoint(b) && Coalesced(b) && alignment > 0
    requires p in b && b[p].free && 0 < n <= b[p].size
    requires b[p].size == n || b[p].size - n >= alignment
    ensures Released(Allocated(b, p, n, alignment), p) == b
  {
    var b' := Allocated(b, p, n, alignment);
    var next := if b[p].size == n then None else Some(p + n);
    AllocatedDisjoint(b, p, n, alignment);
    AllocatedTouching(b, p, n, alignment);
    OnlyTouching(b', p, next, None);
    MergedBack(b, p, n, alignment);
  }

  lemma AllocatedTouching(b: Blocks, p: int, n: nat, alignment: nat)
    requires Coalesced(b) && alignment > 0 && p in b && b[p].free && 0 < n <= b[p].size
    requires b[p].size == n || b[p].size - n >= alignment
    ensures Touching(Allocated(b, p, n, alignment), p, if b[p].size == n then None else Some(p + n), None)
  {
    forall q: int
      ensures !FreeBefore(Allocated(b, p, n, alignment), p, q)
    {
      assert !FreeBefore(b, p, q);
    }
  }

  lemma MergedBack(b: Blocks, p: int, n: nat, alignment: nat)
    requires alignment > 0 && p in b && b[p].free && 0 < n <= b[p].size && (b[p].size > n ==> p + n !in b)
    requires b[p].size == n || b[p].size - n >= alignment
    requires Touching(Allocated(b, p, n, alignment), p, if b[p].size == n then None else Some(p + n), None)
    ensures Merged(Allocated(b, p, n, alignment), p, if b[p].size == n then None else Some(p + n), None) == b
  {
  }

  /** The blocks of a pool in which nothing is in use: one free block per region. */
  function WholeRegions(regions: Regions): Blocks {
    map r: int | r in regions :: Block(r, regions[r], true)
  }

  ghost predicate SameTiles(b: Blocks, b': Blocks) {
    b.Keys == b'.Keys && forall p: int :: p in b ==> b[p].size == b'[p].size && b[p].free == b'[p].free
  }

  /** Free blocks that tile gapped regions and never touch are the regions themselves. */
  lemma AllFreeIsWhole(b: Blocks, regions: Regions)
    requires WellFormed(b, regions) && Gapped(regions)
    requires forall a: int :: Covered(b, a) <==> Owned(regions, a)
    requires Busy(b) == {}
    ensures SameTiles(b, WholeRegions(regions))
  {
    forall p: int | p in b
      ensures b[p].free
    {
      assert p !in Busy(b);
    }
    forall r: int | r in regions
      ensures r in b && b[r].size == regions[r]
    {
      RegionIsOneBlock(b, regions, r);
    }
    forall p: int | p in b
      ensures p in regions
    {
      assert Holds(b, p, p) && Covered(b, p);
      var r: int :| RegionHolds(regions, r, p);
      assert Holds(b, r, p);
    }
  }

  /** The addresses just before and just after a region belong to no region. */
  lemma EdgeNotOwned(regions: Regions, r: int, a: int)
    requires Gapped(regions) && r in regions && (a == r - 1 || a == r + regions[r])
    ensures !Owned(regions, a)
  {
    if t: int :| RegionHolds(regions, t, a) && t < r {
      assert false;
    }
  }

  /** If the address just after a block is covered, a block starts there. */
  lemma NextStarts(b: Blocks, p: int)
    requires Sized(b) && Disjoint(b) && p in b
    ensures Covered(b, p + b[p].size) ==> p + b[p].size in b
  {
    if Covered(b, p + b[p].size) {
      var q: int :| Holds(b, q, p + b[p].size);
    }
  }

  lemma RegionIsOneBlock(b: Blocks, regions: Regions, r: int)
    requires WellFormed(b, regions) && Gapped(regions) && r in regions
    requires forall a: int :: Covered(b, a) <==> Owned(regions, a)
    requires forall p: int :: p in b ==> b[p].free
    ensures r in b && b[r].size == regions[r]
  {
    assert RegionHolds(regions, r, r) && Owned(regions, r);
    var p: int :| Holds(b, p, r);
    assert Holds(b, p, r - 1) ==> Covered(b, r - 1);
    EdgeNotOwned(regions, r, r - 1);
    assert p == r;
    var e, end := r + b[r].size, r + regions[r];
    assert Holds(b, r, end) ==> Covered(b, end);
    EdgeNotOwned(regions, r, end);
    assert e <= end;
    assert RegionHolds(regions, r, e) ==> Owned(regions, e);
    NextStarts(b, r);
  }

  /** Release pointers one after another. */
  ghost function ReleasedAll(b: Blocks, order: seq<int>): Blocks
    requires forall i, j :: 0 <= i < j < |order| ==> order[i] != order[j]
    requires forall p: int :: p in order ==> p in b && !b[p].free
    requires Sized(b) && Disjoint(b) && Coalesced(b)
    decreases |order|
  {
    if order == [] then b
    else
      ReleasedCoalesces(b, order[0]);
      ReleasedAll(Released(b, order[0]), order[1..])
  }

  /** Releasing every pointer in use, in whatever order, leaves one whole free block per region. */
  lemma {:induction false} DrainIsWhole(b: Blocks, regions: Regions, alignment: nat, order: seq<int>)
    requires WellFormed(b, regions) && Gapped(regions) && alignment > 0 && Tiled(b, regions, alignment)
    requires forall i, j :: 0 <= i < j < |order| ==> order[i] != order[j]
    requires forall p: int :: p in order <==> p in Busy(b)
    ensures SameTiles(ReleasedAll(b, order), WholeRegions(regions))
    decreases |order|
  {
    if order == [] {
      assert forall p: int :: p in Busy(b) ==> p in order;
      AllFreeIsWhole(b, regions);
    } else {
      var p := order[0];
      assert p in Busy(b);
      ReleasedWellFormed(b, regions, p);
      ReleasedTiled(b, regions, p, alignment);
      forall q: int
        ensures q in order[1..] <==> q in Busy(Released(b, p))
      {
        assert q in order <==> q == p || q in order[1..];
      }
      DrainIsWhole(Released(b, p), regions, alignment, order[1..]);
    }
  }

  // ---- runs ----

  datatype State = State(blocks: Blocks, regions: Regions)

  ghost predicate AllocStep(s: State, s': State, alignment: nat, p: int, n: nat) {
    && n > 0 && alignment > 0 && n % alignment == 0
    && p in s.blocks && s.blocks[p].free && n <= s.blocks[p].size
    && s' == s.(blocks := Allocated(s.blocks, p, n, alignment))
  }

  ghost predicate GrowStep(s: State, s': State, alignment: nat, r: int, n: nat) {
    && alignment > 0 && n % alignment == 0 && NewRegion(s.regions, r, n)
    && s' == State(Grown(s.blocks, r, n), s.regions[r := n])
  }

  ghost predicate ReleaseStep(s: State, s': State, p: int) {
    && p in s.blocks && !s.blocks[p].free
    && s' == s.(blocks := Released(s.blocks, p))
  }

  /** One call on the pool, whichever free block an allocation chooses. */
  ghost predicate Next(s: State, s': State, alignment: nat) {
    || (exists p: int, n: nat :: AllocStep(s, s', alignment, p, n))
    || (exists r: int, n: nat :: GrowStep(s, s', alignment, r, n))
    || (exists p: int :: ReleaseStep(s, s', p))
  }

  ghost predicate Run(states: seq<State>, alignment: nat) {
    states != [] && forall i :: 0 <= i < |states| - 1 ==> Next(states[i], states[i + 1], alignment)
  }

  /** The pool just after construction, with one region at r unless the initial size is zero. */
  function Fresh(initial: nat, r: int): State {
    if initial == 0 then State(map[], map[]) else State(map[r := Block(r, initial, true)], map[r := initial])
  }

  ghost predicate NothingLost(s: State) {
    forall a: int :: Covered(s.blocks, a) <==> Owned(s.regions, a)
  }

  lemma StepKeeps(s: State, s': State, alignment: nat)
    requires alignment > 0 && WellFormed(s.blocks, s.regions) && Next(s, s', alignment)
    ensures WellFormed(s'.blocks, s'.regions)
    ensures Tiled(s.blocks, s.regions, alignment) ==> Tiled(s'.blocks, s'.regions, alignment)
  {
    if p: int, n: nat :| AllocStep(s, s', alignment, p, n) {
      AllocatedWellFormed(s.blocks, s.regions, p, n, alignment);
      if Tiled(s.blocks, s.regions, alignment) {
        AllocatedTiled(s.blocks, s.regions, p, n, alignment);
      }
    } else if r: int, n: nat :| GrowStep(s, s', alignment, r, n) {
      GrownWellFormed(s.blocks, s.regions, r, n);
      if Tiled(s.blocks, s.regions, alignment) {
        GrownTiled(s.blocks, s.regions, r, n, alignment);
      }
    } else {
      var p: int :| ReleaseStep(s, s', p);
      ReleasedWellFormed(s.blocks, s.regions, p);
      if Tiled(s.blocks, s.regions, alignment) {
        ReleasedTiled(s.blocks, s.regions, p, alignment);
      }
    }
  }

  lemma FreshCovers(initial: nat, r: int)
    ensures WellFormed(Fresh(initial, r).blocks, Fresh(initial, r).regions) && NothingLost(Fresh(initial, r))
  {
    var s := Fresh(initial, r);
    forall a: int
      ensures Covered(s.blocks, a) <==> Owned(s.regions, a)
    {
      assert Holds(s.blocks, r, a) <==> RegionHolds(s.regions, r, a);
    }
  }

  /** Every reachable state is well formed, and tiles its regions if the initial size is a multiple of the alignment. */
  lemma {:induction false} ReachableKeeps(states: seq<State>, alignment: nat, initial: nat, r: int)
    requires alignment > 0 && Run(states, alignment) && states[0] == Fresh(initial, r)
    ensures var s := states[|states| - 1];
            && WellFormed(s.blocks, s.regions)
            && (initial % alignment == 0 ==> Tiled(s.blocks, s.regions, alignment))
  {
    if |states| == 1 {
      FreshCovers(initial, r);
    } else {
      var k := |states| - 1;
      ReachableKeeps(states[..k], alignment, initial, r);
      assert Next(states[k - 1], states[k], alignment);
      StepKeeps(states[k - 1], states[k], alignment);
    }
  }

  /** A region larger than the alignment loses its last bytes to the first allocation. */
  lemma LosingSplit(initial: nat, r: int, alignment: nat) returns (s: State)
    requires alignment > 0 && initial % alignment != 0 && initial >= alignment
    ensures Next(Fresh(initial, r), s, alignment) && !NothingLost(s) && s.regions == Fresh(initial, r).regions
  {
    var s0 := Fresh(initial, r);
    var n := initial - initial % alignment;
    MultipleBelow(initial, alignment);
    FreshCovers(initial, r);
    s := s0.(blocks := Allocated(s0.blocks, r, n, alignment));
    assert AllocStep(s0, s, alignment, r, n);
    AllocatedCovers(s0.blocks, r, n, alignment);
  }

  lemma MultipleBelow(x: nat, alignment: nat)
    requires alignment > 0 && x % alignment != 0 && x >= alignment
    ensures var n := x - x % alignment; 0 < n < x && n % alignment == 0 && x - n < alignment
  {
    DivModIdentity(x, alignment);
    DivOfProduct(x - x % alignment, alignment, x / alignment);
  }

  /** The pool of a small first region after a region that touches it was taken and given back. */
  function Joined(initial: nat, r: int, alignment: nat): State {
    State(map[r := Block(r, initial + alignment, true)], map[r := initial, r + initial := alignment])
  }

  lemma JoinedByRelease(initial: nat, r: int, alignment: nat)
    requires 0 < initial < alignment
    ensures
      var s1 := State(Grown(Fresh(initial, r).blocks, r + initial, alignment), Joined(initial, r, alignment).regions);
      Released(s1.blocks, r + initial) == Joined(initial, r, alignment).blocks
  {
    var q, b := r + initial, Grown(Fresh(initial, r).blocks, r + initial, alignment);
    assert FreeBefore(b, q, r);
    assert Touching(b, q, None, Some(r));
    OnlyTouching(b, q, None, Some(r));
  }

  lemma JoinedCovers(initial: nat, r: int, alignment: nat)
    requires 0 < initial < alignment
    ensures NothingLost(Joined(initial, r, alignment))
  {
    var s := Joined(initial, r, alignment);
    forall a: int
      ensures Covered(s.blocks, a) <==> Owned(s.regions, a)
    {
      assert Holds(s.blocks, r, a) <==> RegionHolds(s.regions, r, a) || RegionHolds(s.regions, r + initial, a);
    }
  }

  lemma WholeAlignment(alignment: nat)
    requires alignment > 0
    ensures alignment % alignment == 0
  {
    DivOfProduct(alignment, alignment, 1);
  }

  /** A region smaller than the alignment is lost once it has been merged with a region that touches it. */
  lemma LosingMerge(initial: nat, r: int, alignment: nat) returns (states: seq<State>)
    requires 0 < initial < alignment
    ensures Run(states, alignment) && states[0] == Fresh(initial, r) && !NothingLost(states[|states| - 1])
    ensures |states| == 4
  {
    var s0, q := Fresh(initial, r), r + initial;
    var s1, s2 := State(Grown(s0.blocks, q, alignment), s0.regions[q := alignment]), Joined(initial, r, alignment);
    var s3 := s2.(blocks := Allocated(s2.blocks, r, alignment, alignment));
    WholeAlignment(alignment);
    assert GrowStep(s0, s1, alignment, q, alignment);
    JoinedByRelease(initial, r, alignment);
    assert ReleaseStep(s1, s2, q);
    assert AllocStep(s2, s3, alignment, r, alignment);
    JoinedCovers(initial, r, alignment);
    AllocatedCovers(s2.blocks, r, alignment, alignment);
    states := [s0, s1, s2, s3];
  }

  /** An initial size that is no multiple of the alignment loses memory in at most three calls. */
  lemma LosingRun(initial: nat, r: int, alignment: nat) returns (states: seq<State>)
    requires alignment > 0 && initial % alignment != 0
    ensures Run(states, alignment) && states[0] == Fresh(initial, r) && !NothingLost(states[|states| - 1])
    ensures |states| <= if initial >= alignment then 2 else 4
    ensures initial >= alignment ==> forall i :: 0 <= i < |states| ==> Gapped(states[i].regions)
  {
    if initial >= alignment {
      var s := LosingSplit(initial, r, alignment);
      states := [Fresh(initial, r), s];
    } else {
      states := LosingMerge(initial, r, alignment);
    }
  }

  lemma GrownCovers(b: Blocks, regions: Regions, r: int, n: nat)
    requires r !in b && r !in regions
    requires forall a: int :: Covered(b, a) <==> Owned(regions, a)
    ensures forall a: int :: Covered(Grown(b, r, n), a) <==> Owned(regions[r := n], a)
  {
    var b', regions' := Grown(b, r, n), regions[r := n];
    forall a: int
      ensures Covered(b', a) <==> Owned(regions', a)
    {
      if Covered(b', a) {
        var q: int :| Holds(b', q, a);
        assert q != r ==> Holds(b, q, a) && Owned(regions, a);
        if t: int :| RegionHolds(regions, t, a) {
          assert RegionHolds(regions', t, a);
        }
        assert q == r ==> RegionHolds(regions', r, a);
      }
      if Owned(regions', a) {
        var t: int :| RegionHolds(regions', t, a);
        assert t != r ==> RegionHolds(regions, t, a) && Covered(b, a);
        if q: int :| Holds(b, q, a) {
          assert Holds(b', q, a);
        }
        assert t == r ==> Holds(b', r, a);
      }
    }
  }

  /** No run loses memory exactly when the initial size is a multiple of the alignment. */
  lemma NothingLostExactly(initial: nat, r: int, alignment: nat)
    requires alignment > 0
    ensures (forall states: seq<State> :: Run(states, alignment) && states[0] == Fresh(initial, r) ==>
               NothingLost(states[|states| - 1]))
            <==> initial % alignment == 0
  {
    if initial % alignment == 0 {
      forall states: seq<State> | Run(states, alignment) && states[0] == Fresh(initial, r)
        ensures NothingLost(states[|states| - 1])
      {
        ReachableKeeps(states, alignment, initial, r);
      }
    } else {
      var states := LosingRun(initial, r, alignment);
      assert Run(states, alignment);
    }
  }

  // ---- regions that never touch ----

  ghost predicate GappedRun(states: seq<State>, alignment: nat) {
    Run(states, alignment) && forall i :: 0 <= i < |states| ==> Gapped(states[i].regions)
  }

  /** A small first region stays apart as one free block; all other blocks are multiples of the alignment. */
  ghost predicate Aside(s: State, initial: nat, r: int, alignment: nat)
    requires alignment > 0
  {
    && WellFormed(s.blocks, s.regions) && NothingLost(s)
    && r in s.regions && s.regions[r] == initial && r in s.blocks && s.blocks[r] == Block(r, initial, true)
    && forall p: int :: p in s.blocks && p != r ==> s.blocks[p].size % alignment == 0
  }

  /** A block other than the first region's does not touch it. */
  lemma NotTouchingFirst(s: State, initial: nat, r: int, alignment: nat, p: int)
    requires alignment > 0 && Aside(s, initial, r, alignment) && Gapped(s.regions) && p in s.blocks && p != r
    ensures p + s.blocks[p].size != r && r + initial != p
  {
    var last := p + s.blocks[p].size - 1;
    assert Holds(s.blocks, p, last) && Holds(s.blocks, p, p);
    assert Covered(s.blocks, last) && Covered(s.blocks, p);
    EdgeNotOwned(s.regions, r, r - 1);
    EdgeNotOwned(s.regions, r, r + initial);
  }

  lemma AsideAlloc(s: State, s': State, initial: nat, r: int, alignment: nat, p: int, n: nat)
    requires 0 < initial < alignment && Aside(s, initial, r, alignment) && AllocStep(s, s', alignment, p, n)
    ensures Aside(s', initial, r, alignment)
  {
    if n < alignment {
      DivModUnique(n, alignment, 0, n);
    }
    assert p != r;
    MultiplesSubtract(s.blocks[p].size, n, alignment);
    AllocatedWellFormed(s.blocks, s.regions, p, n, alignment);
    AllocatedCovers(s.blocks, p, n, alignment);
    Apart(s.blocks, p, r);
  }

  lemma AsideGrow(s: State, s': State, initial: nat, r: int, alignment: nat, q: int, n: nat)
    requires 0 < initial < alignment && Aside(s, initial, r, alignment) && GrowStep(s, s', alignment, q, n)
    ensures Aside(s', initial, r, alignment)
  {
    GrownWellFormed(s.blocks, s.regions, q, n);
    GrownCovers(s.blocks, s.regions, q, n);
  }

  lemma AsideRelease(s: State, s': State, initial: nat, r: int, alignment: nat, p: int)
    requires 0 < initial < alignment && Aside(s, initial, r, alignment) && Gapped(s.regions) && ReleaseStep(s, s', p)
    ensures Aside(s', initial, r, alignment)
  {
    var b, next, prev := s.blocks, NextOf(s.blocks, p), PrevOf(s.blocks, p);
    TouchingOf(b, p);
    NotTouchingFirst(s, initial, r, alignment, p);
    assert next != Some(r);
    assert prev != Some(r);
    ReleasedWellFormed(b, s.regions, p);
    AsideSizes(b, p, next, prev, r, alignment);
  }

  lemma AsideSizes(b: Blocks, p: int, next: Option<int>, prev: Option<int>, r: int, alignment: nat)
    requires alignment > 0 && p in b && p != r && Touching(b, p, next, prev) && r in b && next != Some(r)
    requires prev != Some(r)
    requires forall q: int :: q in b && q != r ==> b[q].size % alignment == 0
    ensures
      var m := Merged(b, p, next, prev);
      r in m && m[r] == b[r] && forall q: int :: q in m && q != r ==> m[q].size % alignment == 0
  {
    MergedSize(b, p, next, prev, alignment);
  }

  lemma {:induction false} GappedKeepsAside(states: seq<State>, alignment: nat, initial: nat, r: int)
    requires 0 < initial < alignment && GappedRun(states, alignment) && states[0] == Fresh(initial, r)
    ensures Aside(states[|states| - 1], initial, r, alignment)
  {
    if |states| == 1 {
      FreshCovers(initial, r);
    } else {
      var k := |states| - 1;
      GappedKeepsAside(states[..k], alignment, initial, r);
      var s, s' := states[k - 1], states[k];
      assert Next(s, s', alignment);
      if p: int, n: nat :| AllocStep(s, s', alignment, p, n) {
        AsideAlloc(s, s', initial, r, alignment, p, n);
      } else if q: int, n: nat :| GrowStep(s, s', alignment, q, n) {
        AsideGrow(s, s', initial, r, alignment, q, n);
      } else {
        var p: int :| ReleaseStep(s, s', p);
        AsideRelease(s, s', initial, r, alignment, p);
      }
    }
  }

  /**
   When no two regions ever touch, no run loses memory exactly when the initial size is a multiple of
   the alignment or below it: a region below it is never used.
   */
  lemma NothingLostGappedExactly(initial: nat, r: int, alignment: nat)
    requires alignment > 0
    ensures (forall states: seq<State> :: GappedRun(states, alignment) && states[0] == Fresh(initial, r) ==>
               NothingLost(states[|states| - 1]))
            <==> initial % alignment == 0 || initial < alignment
  {
    if initial % alignment == 0 || initial < alignment {
      forall states: seq<State> | GappedRun(states, alignment) && states[0] == Fresh(initial, r)
        ensures NothingLost(states[|states| - 1])
      {
        if initial % alignment == 0 {
          ReachableKeeps(states, alignment, initial, r);
        } else {
          GappedKeepsAside(states, alignment, initial, r);
        }
      }
    } else {
      var states := LosingRun(initial, r, alignment);
      assert GappedRun(states, alignment);
    }
  }
}
