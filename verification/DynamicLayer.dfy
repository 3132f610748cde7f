/**
 The growing key-value buffers of one layer (python/infinilm/cache_utils.py, `DynamicLayer`). An
 element stands for everything the cache holds for one position.
 */
module DynamicLayer {

  function Max(a: nat, b: nat): nat {
    if a >= b then a else b
  }

  // ---- sizes ----

  /** Capacity once allocated, positions in use, and how many positions regrowing has copied in all. */
  datatype Sizes = Unused | InUse(capacity: nat, position: nat, copied: nat)

  function Grow(s: Sizes, maxPos: nat, len: nat): Sizes {
    match s
    case Unused => InUse(Max(maxPos, len), len, 0)
    case InUse(capacity, position, copied) =>
      if position + len >= capacity then InUse(Max(capacity * 2, position + len), position + len, copied + position)
      else InUse(capacity, position + len, copied)
  }

  function Grown(maxPos: nat, lens: seq<nat>): Sizes {
    if lens == [] then Unused else Grow(Grown(maxPos, lens[..|lens| - 1]), maxPos, lens[|lens| - 1])
  }

  function Total(lens: seq<nat>): nat {
    if lens == [] then 0 else Total(lens[..|lens| - 1]) + lens[|lens| - 1]
  }

  /**
   After any sequence of updates the buffers hold every position, are at most twice as long as needed
   unless the configured length or the first input asks for more, and regrowing has copied no more
   positions than they have room for. They are full only right after an input of at least half of it all.
   */
  lemma {:induction false} GrowthIsAmortised(maxPos: nat, lens: seq<nat>)
    requires lens != []
    ensures
      var s := Grown(maxPos, lens);
      && s.InUse? && s.position == Total(lens) <= s.capacity && maxPos <= s.capacity
      && s.capacity <= Max(Max(maxPos, lens[0]), 2 * Total(lens))
      && s.copied <= s.capacity
      && (s.position == s.capacity ==> 2 * lens[|lens| - 1] >= Total(lens))
  {
    var before := lens[..|lens| - 1];
    if before != [] {
      GrowthIsAmortised(maxPos, before);
    }
  }

  /**
   So the work of `n` updates, writes and copies together, is linear in the positions they bring and the
   initial room.
   */
  lemma TotalWork(maxPos: nat, lens: seq<nat>)
    requires lens != []
    ensures Total(lens) + Grown(maxPos, lens).copied <= maxPos + 3 * Total(lens)
  {
    GrowthIsAmortised(maxPos, lens);
    FirstInTotal(lens);
  }

  lemma {:induction false} FirstInTotal(lens: seq<nat>)
    requires lens != []
    ensures lens[0] <= Total(lens)
  {
    if |lens| > 1 {
      FirstInTotal(lens[..|lens| - 1]);
    }
  }

  // ---- the buffers ----

  class DynamicLayer<T(0)> {
    const maxPos: nat
    var keys: array?<T>
    var values: array?<T>
    var position: nat
    ghost var copied: nat

    ghost predicate Valid()
      reads this, keys, values
    {
      && (keys == null <==> values == null) && (keys == null ==> position == 0 && copied == 0)
      && (keys != null && values != null ==> keys != values && keys.Length == values.Length && position <= keys.Length)
    }

    ghost function Sizes(): Sizes
      reads this, keys
    {
      if keys == null then Unused else InUse(keys.Length, position, copied)
    }

    ghost function Keys(): seq<T>
      requires Valid()
      reads this, keys, values
    {
      if keys == null then [] else keys[..position]
    }

    ghost function Values(): seq<T>
      requires Valid()
      reads this, keys, values
    {
      if values == null then [] else values[..position]
    }

    constructor (maxPos: nat)
      ensures Valid() && this.maxPos == maxPos && Sizes() == Unused && Keys() == [] && Values() == []
    {
      this.maxPos, keys, values, position, copied := maxPos, null, null, 0, 0;
    }

    /** A larger buffer with the same first positions. */
    method Regrown(buffer: array<T>, n: nat, capacity: nat) returns (larger: array<T>)
      requires n <= buffer.Length && n <= capacity
      ensures fresh(larger) && larger.Length == capacity && larger[..n] == buffer[..n]
    {
      larger := new T[capacity];
      for i := 0 to n
        invariant larger[..i] == buffer[..i]
      {
        larger[i] := buffer[i];
      }
    }

    method LazyInitialization(seqLen: nat)
      requires Valid()
      modifies this
      ensures Valid() && keys != null && position == old(position) && position + seqLen <= keys.Length
      ensures Keys() == old(Keys()) && Values() == old(Values())
      ensures InUse(keys.Length, position + seqLen, copied) == Grow(old(Sizes()), maxPos, seqLen)
      ensures keys == old(keys) || fresh(keys)
      ensures values == old(values) || fresh(values)
    {
      if keys == null {
        position := 0;
        keys := new T[Max(maxPos, seqLen)];
        values := new T[Max(maxPos, seqLen)];
      } else if position + seqLen >= keys.Length {
        var capacity := Max(keys.Length * 2, position + seqLen);
        var keysNew := Regrown(keys, position, capacity);
        var valuesNew := Regrown(values, position, capacity);
        keys, values := keysNew, valuesNew;
        copied := copied + position;
      }
    }

    /** Overwrite part of a buffer. */
    method CopyInto(buffer: array<T>, index: nat, xs: seq<T>)
      requires index + |xs| <= buffer.Length
      modifies buffer
      ensures buffer[..index + |xs|] == old(buffer[..index]) + xs
    {
      for i := 0 to |xs|
        invariant buffer[..index + i] == old(buffer[..index]) + xs[..i]
      {
        buffer[index + i] := xs[i];
      }
    }

    /**
     Appends, and returns everything so far. What was handed out before keeps its contents: the first
     positions of an earlier buffer are not written again.
     */
    method Update(keyStates: seq<T>, valueStates: seq<T>) returns (allKeys: seq<T>, allValues: seq<T>)
      requires Valid() && |keyStates| == |valueStates|
      modifies this, keys, values
      ensures Valid() && keys != null
      ensures Keys() == old(Keys()) + keyStates && Values() == old(Values()) + valueStates
      ensures allKeys == Keys() && allValues == Values()
      ensures Sizes() == Grow(old(Sizes()), maxPos, |keyStates|)
      ensures keys == old(keys) || fresh(keys)
      ensures values == old(values) || fresh(values)
      ensures old(keys) != null ==>
              old(keys)[..old(position)] == old(Keys()) && old(values)[..old(position)] == old(Values())
    {
      LazyInitialization(|keyStates|);
      CopyInto(keys, position, keyStates);
      CopyInto(values, position, valueStates);
      position := position + |keyStates|;
      allKeys, allValues := keys[..position], values[..position];
    }
  }

  function Concat<T>(parts: seq<seq<T>>): seq<T> {
    if parts == [] then [] else Concat(parts[..|parts| - 1]) + parts[|parts| - 1]
  }

  function Lengths<T>(parts: seq<seq<T>>): (lens: seq<nat>)
    ensures |lens| == |parts|
  {
    seq(|parts|, i requires 0 <= i < |parts| => |parts[i]|)
  }

  /** After any sequence of updates a new layer holds the concatenation of all inputs. */
  method UpdateAll<T(0)>(maxPos: nat, keyParts: seq<seq<T>>, valueParts: seq<seq<T>>) returns (layer: DynamicLayer<T>)
    requires Lengths(keyParts) == Lengths(valueParts)
    ensures layer.Valid() && layer.Keys() == Concat(keyParts) && layer.Values() == Concat(valueParts)
    ensures layer.Sizes() == Grown(maxPos, Lengths(keyParts))
  {
    layer := new DynamicLayer<T>(maxPos);
    assert Lengths(keyParts)[..0] == [];
    for i := 0 to |keyParts|
      invariant layer.Valid() && layer.maxPos == maxPos && fresh(layer)
      invariant layer.keys != null ==> fresh(layer.keys)
      invariant layer.values != null ==> fresh(layer.values)
      invariant layer.Keys() == Concat(keyParts[..i]) && layer.Values() == Concat(valueParts[..i])
      invariant layer.Sizes() == Grown(maxPos, Lengths(keyParts)[..i])
    {
      assert keyParts[..i + 1][..i] == keyParts[..i] && valueParts[..i + 1][..i] == valueParts[..i];
      assert Lengths(keyParts)[..i + 1][..i] == Lengths(keyParts)[..i];
      assert |valueParts[i]| == Lengths(valueParts)[i];
      var _, _ := layer.Update(keyParts[i], valueParts[i]);
    }
    assert keyParts[..|keyParts|] == keyParts && valueParts[..|keyParts|] == valueParts;
    assert Lengths(keyParts)[..|keyParts|] == Lengths(keyParts);
  }
}
