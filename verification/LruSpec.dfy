/**
 The descriptor cache as a recency list, most recently used first (src/cache_manager/opcache_manager.hpp),
 and what every history of calls keeps.
 */
module LruSpec {
  import opened Results

  datatype Item<D> = Item(key: nat, desc: D)

  /** Live items, most recent first, and the descriptors handed to the destroyer so far. */
  datatype Cache<D> = Cache(items: seq<Item<D>>, destroyed: seq<D>)

  ghost predicate DistinctKeys<D>(items: seq<Item<D>>) {
    forall i, j :: 0 <= i < j < |items| ==> items[i].key != items[j].key
  }

  /** Position of a key, or the number of items. */
  function Find<D>(items: seq<Item<D>>, key: nat): (i: nat)
    ensures i <= |items|
    ensures forall j :: 0 <= j < i ==> items[j].key != key
    ensures i < |items| ==> items[i].key == key
  {
    if items == [] || items[0].key == key then 0 else 1 + Find(items[1..], key)
  }

  function Without<T>(s: seq<T>, k: nat): (r: seq<T>)
    requires k < |s|
    ensures |r| == |s| - 1
    ensures forall i :: 0 <= i < |r| ==> r[i] == s[if i < k then i else i + 1]
  {
    s[..k] + s[k + 1..]
  }

  function Get<D>(c: Cache<D>, key: nat): (Cache<D>, Option<D>) {
    var i := Find(c.items, key);
    if i == |c.items| then (c, None)
    else (c.(items := [c.items[i]] + Without(c.items, i)), Some(c.items[i].desc))
  }

  function Put<D>(c: Cache<D>, capacity: nat, key: nat, desc: D): Cache<D>
    requires capacity > 0
  {
    var i := Find(c.items, key);
    if i < |c.items| then
      Cache([Item(key, desc)] + Without(c.items, i), c.destroyed + [c.items[i].desc])
    else if |c.items| >= capacity then
      var last := |c.items| - 1;
      Cache([Item(key, desc)] + c.items[..last], c.destroyed + [c.items[last].desc])
    else
      Cache([Item(key, desc)] + c.items, c.destroyed)
  }

  // ---- histories ----

  datatype Call<D> = GetCall(key: nat) | PutCall(key: nat, desc: D)

  function Step<D>(c: Cache<D>, capacity: nat, call: Call<D>): Cache<D>
    requires capacity > 0
  {
    match call
    case GetCall(key) => Get(c, key).0
    case PutCall(key, desc) => Put(c, capacity, key, desc)
  }

  function After<D>(history: seq<Call<D>>, capacity: nat): Cache<D>
    requires capacity > 0
  {
    if history == [] then Cache([], [])
    else Step(After(history[..|history| - 1], capacity), capacity, history[|history| - 1])
  }

  /** Index of the last call that mentions a key, or -1. */
  function LastUse<D>(history: seq<Call<D>>, key: nat): (t: int)
    ensures -1 <= t < |history|
  {
    if history == [] then -1
    else
      var n := |history| - 1;
      if history[n].key == key then n else LastUse(history[..n], key)
  }

  /** The descriptor of the last put of a key. */
  function LastPut<D>(history: seq<Call<D>>, key: nat): Option<D> {
    if history == [] then None
    else
      var n := |history| - 1;
      if history[n].PutCall? && history[n].key == key then Some(history[n].desc) else LastPut(history[..n], key)
  }

  /** All descriptors ever put. */
  function Puts<D>(history: seq<Call<D>>): seq<D> {
    if history == [] then []
    else
      var n := |history| - 1;
      Puts(history[..n]) + (if history[n].PutCall? then [history[n].desc] else [])
  }

  function Descs<D>(items: seq<Item<D>>): seq<D> {
    seq(|items|, i requires 0 <= i < |items| => items[i].desc)
  }

  /** Items are listed by time of last use, the most recent first. */
  ghost predicate ByRecency<D>(items: seq<Item<D>>, history: seq<Call<D>>) {
    && DistinctKeys(items)
    && (forall i :: 0 <= i < |items| ==> LastUse(history, items[i].key) >= 0)
    && forall i, j :: 0 <= i < j < |items| ==> LastUse(history, items[i].key) > LastUse(history, items[j].key)
  }

  ghost predicate Current<D>(items: seq<Item<D>>, history: seq<Call<D>>) {
    forall i :: 0 <= i < |items| ==> LastPut(history, items[i].key) == Some(items[i].desc)
  }

  lemma DescsWithout<D>(items: seq<Item<D>>, i: nat)
    requires i < |items|
    ensures multiset(Descs(items)) == multiset(Descs(Without(items, i))) + multiset{items[i].desc}
  {
    assert Descs(items) == Descs(items[..i]) + [items[i].desc] + Descs(items[i + 1..]);
    assert Descs(Without(items, i)) == Descs(items[..i]) + Descs(items[i + 1..]);
  }

  lemma DescsPrepend<D>(item: Item<D>, items: seq<Item<D>>)
    ensures multiset(Descs([item] + items)) == multiset{item.desc} + multiset(Descs(items))
  {
    assert Descs([item] + items) == [item.desc] + Descs(items);
  }

  /** One call keeps the bound and moves, adds or destroys exactly one descriptor. */
  lemma StepConserves<D>(c: Cache<D>, capacity: nat, call: Call<D>)
    requires capacity > 0 && |c.items| <= capacity
    ensures
      var c' := Step(c, capacity, call);
      && |c'.items| <= capacity
      && multiset(Descs(c'.items)) + multiset(c'.destroyed)
         == multiset(Descs(c.items)) + multiset(c.destroyed)
             + (if call.PutCall? then multiset{call.desc} else multiset{})
  {
    var i := Find(c.items, call.key);
    if i < |c.items| {
      DescsWithout(c.items, i);
      DescsPrepend(if call.PutCall? then Item(call.key, call.desc) else c.items[i], Without(c.items, i));
    } else if call.PutCall? {
      if |c.items| >= capacity {
        var last := |c.items| - 1;
        assert c.items[..last] == Without(c.items, last);
        DescsWithout(c.items, last);
        DescsPrepend(Item(call.key, call.desc), c.items[..last]);
      } else {
        DescsPrepend(Item(call.key, call.desc), c.items);
      }
    }
  }

  /**
   After any history: no more items than the capacity, and every descriptor ever put is either
   live or was destroyed, exactly once.
   */
  lemma {:induction false} Conservation<D>(history: seq<Call<D>>, capacity: nat)
    requires capacity > 0
    ensures |After(history, capacity).items| <= capacity
    ensures multiset(Puts(history))
         == multiset(Descs(After(history, capacity).items)) + multiset(After(history, capacity).destroyed)
  {
    if history == [] {
      assert Descs(After(history, capacity).items) == [];
    } else {
      var n := |history| - 1;
      Conservation(history[..n], capacity);
      StepConserves(After(history[..n], capacity), capacity, history[n]);
    }
  }

  /** `rest` lists some of the items in the same order; pos[i] is where its item i comes from. */
  ghost predicate SubList<D>(rest: seq<Item<D>>, items: seq<Item<D>>, pos: seq<nat>) {
    && |pos| == |rest|
    && (forall i :: 0 <= i < |pos| ==> pos[i] < |items| && rest[i] == items[pos[i]])
    && forall i, j :: 0 <= i < j < |pos| ==> pos[i] < pos[j]
  }

  lemma WithoutIsSubList<D>(items: seq<Item<D>>, i: nat) returns (pos: seq<nat>)
    requires i < |items|
    ensures SubList(Without(items, i), items, pos)
  {
    pos := seq(|items| - 1, j requires 0 <= j < |items| - 1 => if j < i then j else j + 1);
  }

  lemma PrefixIsSubList<D>(items: seq<Item<D>>, k: nat) returns (pos: seq<nat>)
    requires k <= |items|
    ensures SubList(items[..k], items, pos)
  {
    pos := seq(k, j requires 0 <= j < k => j);
  }

  /** A call on a key other than these leaves their last use as it was. */
  lemma OthersUntouched<D>(items: seq<Item<D>>, history: seq<Call<D>>, call: Call<D>, rest: seq<Item<D>>, pos: seq<nat>)
    requires SubList(rest, items, pos)
    requires ByRecency(items, history) && Current(items, history)
    requires forall i :: 0 <= i < |rest| ==> rest[i].key != call.key
    ensures ByRecency(rest, history + [call]) && Current(rest, history + [call])
    ensures forall i :: 0 <= i < |rest| ==> LastUse(history + [call], rest[i].key) < |history|
  {
    assert (history + [call])[..|history|] == history;
    forall i | 0 <= i < |rest|
      ensures LastUse(history + [call], rest[i].key) == LastUse(history, items[pos[i]].key)
      ensures LastPut(history + [call], rest[i].key) == LastPut(history, items[pos[i]].key)
    {
    }
  }

  /** An item used later than all the others goes in front of them. */
  lemma MovedToFront<D>(history: seq<Call<D>>, front: Item<D>, rest: seq<Item<D>>)
    requires ByRecency(rest, history) && Current(rest, history)
    requires LastPut(history, front.key) == Some(front.desc) && LastUse(history, front.key) >= 0
    requires forall i :: 0 <= i < |rest| ==> LastUse(history, rest[i].key) < LastUse(history, front.key)
    ensures ByRecency([front] + rest, history) && Current([front] + rest, history)
  {
    var items := [front] + rest;
    forall i, j | 0 <= i < j < |items|
      ensures items[i].key != items[j].key && LastUse(history, items[i].key) > LastUse(history, items[j].key)
    {
      assert items[j] == rest[j - 1];
      if i > 0 {
        assert items[i] == rest[i - 1];
      }
    }
  }

  /** After any history the items are in order of last use and hold the latest descriptors. */
  lemma {:induction false} Recency<D>(history: seq<Call<D>>, capacity: nat)
    requires capacity > 0
    ensures ByRecency(After(history, capacity).items, history)
    ensures Current(After(history, capacity).items, history)
  {
    if history != [] {
      var n := |history| - 1;
      var before, call := history[..n], history[n];
      Recency(before, capacity);
      assert history == before + [call];
      StepKeepsRecency(After(before, capacity), before, capacity, call);
    }
  }

  lemma StepKeepsRecency<D>(c: Cache<D>, before: seq<Call<D>>, capacity: nat, call: Call<D>)
    requires capacity > 0 && ByRecency(c.items, before) && Current(c.items, before)
    ensures ByRecency(Step(c, capacity, call).items, before + [call])
    ensures Current(Step(c, capacity, call).items, before + [call])
  {
    if Find(c.items, call.key) < |c.items| {
      HitKeepsRecency(c, before, capacity, call);
    } else {
      MissKeepsRecency(c, before, capacity, call);
    }
  }

  lemma HitKeepsRecency<D>(c: Cache<D>, before: seq<Call<D>>, capacity: nat, call: Call<D>)
    requires capacity > 0 && ByRecency(c.items, before) && Current(c.items, before)
    requires Find(c.items, call.key) < |c.items|
    ensures ByRecency(Step(c, capacity, call).items, before + [call])
    ensures Current(Step(c, capacity, call).items, before + [call])
  {
    var items, i := c.items, Find(c.items, call.key);
    assert (before + [call])[..|before|] == before;
    var front := if call.PutCall? then Item(call.key, call.desc) else items[i];
    var pos := WithoutIsSubList(items, i);
    OthersUntouched(items, before, call, Without(items, i), pos);
    MovedToFront(before + [call], front, Without(items, i));
  }

  lemma MissKeepsRecency<D>(c: Cache<D>, before: seq<Call<D>>, capacity: nat, call: Call<D>)
    requires capacity > 0 && ByRecency(c.items, before) && Current(c.items, before)
    requires Find(c.items, call.key) == |c.items|
    ensures ByRecency(Step(c, capacity, call).items, before + [call])
    ensures Current(Step(c, capacity, call).items, before + [call])
  {
    var items := c.items;
    assert (before + [call])[..|before|] == before;
    var k := if call.PutCall? && |items| >= capacity then |items| - 1 else |items|;
    var pos := PrefixIsSubList(items, k);
    assert items[..|items|] == items;
    OthersUntouched(items, before, call, items[..k], pos);
    if call.PutCall? {
      MovedToFront(before + [call], Item(call.key, call.desc), items[..k]);
    }
  }

  /** A put that evicts removes the one live item whose last use is oldest. */
  lemma EvictsLeastRecentlyUsed<D>(history: seq<Call<D>>, capacity: nat, key: nat, desc: D)
    requires capacity > 0
    requires var items := After(history, capacity).items; Find(items, key) == |items| && |items| >= capacity
    ensures
      var items := After(history, capacity).items;
      var evicted := items[|items| - 1];
      && After(history + [PutCall(key, desc)], capacity).items == [Item(key, desc)] + items[..|items| - 1]
      && forall i :: 0 <= i < |items| - 1 ==> LastUse(history, evicted.key) < LastUse(history, items[i].key)
  {
    Recency(history, capacity);
    assert (history + [PutCall(key, desc)])[..|history|] == history;
  }

  ghost predicate IsLive<D>(items: seq<Item<D>>, key: nat) {
    exists i :: 0 <= i < |items| && items[i].key == key
  }

  /** A key is found exactly when an item with it is live, and then with the descriptor that it was last put with. */
  lemma HitReturnsLastPut<D>(history: seq<Call<D>>, capacity: nat, key: nat)
    requires capacity > 0
    ensures
      var items, hit := After(history, capacity).items, Get(After(history, capacity), key).1;
      && (hit.Some? <==> IsLive(items, key))
      && (hit.Some? ==> hit == LastPut(history, key))
  {
    Recency(history, capacity);
  }

  /** What was put is found by the next call. */
  lemma PutThenHit<D>(c: Cache<D>, capacity: nat, key: nat, desc: D)
    requires capacity > 0
    ensures Get(Put(c, capacity, key, desc), key).1 == Some(desc)
  {
  }

  // ---- what stays ----

  /** The keys ever put. */
  function PutKeys<D>(history: seq<Call<D>>): set<nat> {
    if history == [] then {}
    else
      var n := |history| - 1;
      PutKeys(history[..n]) + (if history[n].PutCall? then {history[n].key} else {})
  }

  ghost predicate LiveAre<D>(items: seq<Item<D>>, keys: set<nat>) {
    forall key: nat :: IsLive(items, key) <==> key in keys
  }

  lemma {:induction false} LiveCount<D>(items: seq<Item<D>>, keys: set<nat>)
    requires DistinctKeys(items) && LiveAre(items, keys)
    ensures |items| == |keys|
  {
    if items != [] {
      var n := |items| - 1;
      assert IsLive(items, items[n].key);
      forall key: nat
        ensures IsLive(items[..n], key) <==> key in keys - {items[n].key}
      {
        LiveWithout(items, n, key);
        assert Without(items, n) == items[..n];
      }
      LiveCount(items[..n], keys - {items[n].key});
    } else {
      assert forall key: nat :: key in keys ==> IsLive(items, key);
    }
  }

  /**
   While no more keys than the capacity have been put, nothing is evicted: every key ever put is found, and
   only replaced descriptors have been destroyed.
   */
  lemma {:induction false} NoneEvicted<D>(history: seq<Call<D>>, capacity: nat)
    requires capacity > 0 && |PutKeys(history)| <= capacity
    ensures
      var c := After(history, capacity);
      LiveAre(c.items, PutKeys(history)) && |c.destroyed| == |Puts(history)| - |PutKeys(history)|
  {
    if history != [] {
      var n := |history| - 1;
      CardinalityGrows(PutKeys(history[..n]), PutKeys(history));
      NoneEvicted(history[..n], capacity);
      Recency(history[..n], capacity);
      LiveCount(After(history[..n], capacity).items, PutKeys(history[..n]));
      NoneEvictedStep(After(history[..n], capacity), PutKeys(history[..n]), capacity, history[n]);
    }
  }

  lemma NoneEvictedStep<D>(c: Cache<D>, keys: set<nat>, capacity: nat, call: Call<D>)
    requires capacity > 0 && DistinctKeys(c.items) && LiveAre(c.items, keys) && |c.items| == |keys|
    requires call.PutCall? && call.key !in keys ==> |keys| < capacity
    ensures
      var c', keys' := Step(c, capacity, call), keys + (if call.PutCall? then {call.key} else {});
      && LiveAre(c'.items, keys')
      && |c'.destroyed| + |keys'| == |c.destroyed| + |keys| + (if call.PutCall? then 1 else 0)
  {
    var keys' := keys + (if call.PutCall? then {call.key} else {});
    assert IsLive(c.items, call.key) <==> call.key in keys;
    forall key: nat
      ensures IsLive(Step(c, capacity, call).items, key) <==> key in keys'
    {
      StepKeepsLive(c, capacity, call, key);
    }
    StepKeepsLive(c, capacity, call, call.key);
    if call.key in keys {
      assert keys + {call.key} == keys;
    }
  }

  lemma CardinalityGrows<T>(a: set<T>, b: set<T>)
    requires a <= b
    ensures |a| <= |b|
  {
    assert b == a + (b - a);
  }

  lemma LiveInFront<D>(front: Item<D>, rest: seq<Item<D>>, key: nat)
    ensures IsLive([front] + rest, key) <==> front.key == key || IsLive(rest, key)
  {
    var items := [front] + rest;
    assert items[0] == front;
    if i :| 0 <= i < |rest| && rest[i].key == key {
      assert items[i + 1].key == key;
    }
    if i :| 0 <= i < |items| && items[i].key == key {
      assert i > 0 ==> rest[i - 1].key == key;
    }
  }

  lemma LiveWithout<D>(items: seq<Item<D>>, k: nat, key: nat)
    requires k < |items| && DistinctKeys(items)
    ensures IsLive(Without(items, k), key) <==> IsLive(items, key) && key != items[k].key
  {
    var rest := Without(items, k);
    if i :| 0 <= i < |rest| && rest[i].key == key {
      assert items[if i < k then i else i + 1].key == key;
    }
    if i :| 0 <= i < |items| && items[i].key == key {
      assert i != k ==> rest[if i < k then i else i - 1].key == key;
    }
  }

  /** A call makes the key that is put live, and takes away the last item exactly when a new key finds no room. */
  lemma StepKeepsLive<D>(c: Cache<D>, capacity: nat, call: Call<D>, key: nat)
    requires capacity > 0 && DistinctKeys(c.items)
    ensures
      var c', miss := Step(c, capacity, call), call.PutCall? && !IsLive(c.items, call.key);
      if miss && |c.items| >= capacity then
        var last := c.items[|c.items| - 1];
        && (IsLive(c'.items, key) <==> key == call.key || (IsLive(c.items, key) && key != last.key))
        && c'.destroyed == c.destroyed + [last.desc]
      else
        && (IsLive(c'.items, key) <==> IsLive(c.items, key) || (miss && key == call.key))
        && |c'.destroyed| == |c.destroyed| + (if call.PutCall? && !miss then 1 else 0)
  {
    var items, i := c.items, Find(c.items, call.key);
    if i < |items| {
      LiveWithout(items, i, key);
      LiveInFront(if call.PutCall? then Item(call.key, call.desc) else items[i], Without(items, i), key);
    } else if call.PutCall? && |items| >= capacity {
      LiveWithout(items, |items| - 1, key);
      assert Without(items, |items| - 1) == items[..|items| - 1];
      LiveInFront(Item(call.key, call.desc), items[..|items| - 1], key);
    } else if call.PutCall? {
      LiveInFront(Item(call.key, call.desc), items, key);
    }
  }
}
