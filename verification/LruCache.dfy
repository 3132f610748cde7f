/**
 The descriptor cache as it is built: a doubly linked list between two sentinels and a hash map
 from keys to list nodes (src/cache_manager/opcache_manager.hpp). Every method is proved
 against the recency list of LruSpec.
 */
module LruCache {
  import opened LruSpec
  import opened Results

  class CacheNode<D> {
    var key: nat
    var desc: D
    var prev: CacheNode?<D>
    var next: CacheNode?<D>

    constructor (key: nat, desc: D)
      ensures this.key == key && this.desc == desc
    {
      this.key, this.desc, this.prev, this.next := key, desc, null, null;
    }
  }

  ghost predicate Distinct<T>(s: seq<T>) {
    forall i, j :: 0 <= i < j < |s| ==> s[i] != s[j]
  }

  /** The links connect the nodes in order, both ways. */
  ghost predicate Linked<D>(nodes: seq<CacheNode<D>>)
    reads (set n | n in nodes)`next, (set n | n in nodes)`prev
  {
    && (forall i {:trigger nodes[i].next} :: 0 <= i < |nodes| - 1 ==> nodes[i].next == nodes[i + 1])
    && (forall i {:trigger nodes[i].prev} :: 0 < i < |nodes| ==> nodes[i].prev == nodes[i - 1])
  }

  /** Each node stores the item of the same position. */
  ghost predicate Stores<D>(nodes: seq<CacheNode<D>>, items: seq<Item<D>>)
    reads (set n | n in nodes)`key, (set n | n in nodes)`desc
  {
    |nodes| == |items| && forall i :: 0 <= i < |nodes| ==>
        nodes[i].key == items[i].key && nodes[i].desc == items[i].desc
  }

  /** The map takes the keys of the items, and no other, to the nodes of the same position. */
  ghost predicate Mapped<D>(cache: map<nat, CacheNode<D>>, nodes: seq<CacheNode<D>>, items: seq<Item<D>>) {
    && |nodes| == |items|
    && (forall i :: 0 <= i < |items| ==> items[i].key in cache && cache[items[i].key] == nodes[i])
    && forall k :: k in cache ==> Find(items, k) < |items|
  }

  lemma DropMembers<T>(s: seq<T>, k: nat)
    requires k < |s|
    ensures forall x :: x in Without(s, k) ==> x in s
    ensures Distinct(s) ==> Distinct(Without(s, k)) && s[k] !in Without(s, k)
  {
  }

  lemma DropInner<T>(first: T, s: seq<T>, last: T, k: nat)
    requires k < |s|
    ensures [first] + Without(s, k) + [last] == Without([first] + s + [last], k + 1)
  {
  }

  lemma FrontMembers<T>(first: T, s: seq<T>, last: T, k: nat)
    requires k < |s|
    ensures forall x :: x in [first] + ([s[k]] + Without(s, k)) + [last] <==> x in [first] + s + [last]
  {
    forall x | x in s
      ensures x in [s[k]] + Without(s, k)
    {
      var i :| 0 <= i < |s| && s[i] == x;
      if i != k {
        assert Without(s, k)[if i < k then i else i - 1] == x;
      }
    }
  }

  lemma InnerDistinct<T>(first: T, s: seq<T>, last: T)
    ensures Distinct([first] + s + [last]) ==> Distinct(s)
  {
    var chain := [first] + s + [last];
    assert forall i :: 0 <= i < |s| ==> s[i] == chain[i + 1];
  }

  lemma DescsHead<D>(items: seq<Item<D>>)
    requires items != []
    ensures Descs(items) == [items[0].desc] + Descs(Without(items, 0))
  {
  }

  /** Destroying the first of the rest moves it from one list to the other. */
  lemma DrainStep<D>(destroyed: seq<D>, items: seq<Item<D>>)
    requires items != []
    ensures destroyed + [items[0].desc] + Descs(Without(items, 0)) == destroyed + Descs(items)
  {
    DescsHead(items);
  }

  lemma FindAt<D>(items: seq<Item<D>>, i: nat)
    requires i < |items|
    ensures Find(items, items[i].key) <= i
  {
  }

  /** Nodes that are distinct have items with distinct keys. */
  lemma MappedDistinct<D>(cache: map<nat, CacheNode<D>>, nodes: seq<CacheNode<D>>, items: seq<Item<D>>)
    requires Mapped(cache, nodes, items) && Distinct(nodes)
    ensures DistinctKeys(items)
    ensures forall key :: key in cache <==> Find(items, key) < |items|
    ensures forall key :: key in cache ==> nodes[Find(items, key)] == cache[key]
  {
  }

  /** A key other than the dropped one is still among the items. */
  lemma StillFound<D>(items: seq<Item<D>>, k: nat, key: nat)
    requires k < |items| && Find(items, key) < |items| && key != items[k].key
    ensures Find(Without(items, k), key) < |items| - 1
  {
    var i := Find(items, key);
    FindAt(Without(items, k), if i < k then i else i - 1);
  }

  /** The other items keep their nodes. */
  lemma OthersMapped<D>(cache: map<nat, CacheNode<D>>, nodes: seq<CacheNode<D>>, items: seq<Item<D>>, k: nat, j: nat)
    requires Mapped(cache, nodes, items) && k < |nodes| && j < |nodes| && nodes[j] != nodes[k]
    ensures items[j].key in cache - {items[k].key} && (cache - {items[k].key})[items[j].key] == nodes[j]
  {
    assert cache[items[j].key] == nodes[j] && cache[items[k].key] == nodes[k];
  }

  lemma MappedDrop<D>(cache: map<nat, CacheNode<D>>, nodes: seq<CacheNode<D>>, items: seq<Item<D>>, k: nat)
    requires Mapped(cache, nodes, items) && k < |nodes| && Distinct(nodes)
    ensures Mapped(cache - {items[k].key}, Without(nodes, k), Without(items, k))
  {
    var rest := Without(items, k);
    forall i | 0 <= i < |rest|
      ensures rest[i].key in cache - {items[k].key} && (cache - {items[k].key})[rest[i].key] == Without(nodes, k)[i]
    {
      OthersMapped(cache, nodes, items, k, if i < k then i else i + 1);
    }
    forall key | key in cache && key != items[k].key
      ensures Find(rest, key) < |rest|
    {
      StillFound(items, k, key);
    }
  }

  lemma MappedFront<D>(cache: map<nat, CacheNode<D>>, nodes: seq<CacheNode<D>>, items: seq<Item<D>>,
                       node: CacheNode<D>, item: Item<D>)
    requires Mapped(cache, nodes, items) && item.key !in cache
    ensures Mapped(cache[item.key := node], [node] + nodes, [item] + items)
  {
    assert ([item] + items)[1..] == items;
  }

  lemma MappedToFront<D>(cache: map<nat, CacheNode<D>>, nodes: seq<CacheNode<D>>, items: seq<Item<D>>, k: nat,
                         item: Item<D>)
    requires Mapped(cache, nodes, items) && k < |nodes| && Distinct(nodes) && item.key == items[k].key
    ensures Mapped(cache, [nodes[k]] + Without(nodes, k), [item] + Without(items, k))
  {
    MappedDrop(cache, nodes, items, k);
    MappedFront(cache - {item.key}, Without(nodes, k), Without(items, k), nodes[k], item);
    assert (cache - {item.key})[item.key := nodes[k]] == cache;
  }

  lemma StoresFront<D>(nodes: seq<CacheNode<D>>, items: seq<Item<D>>, node: CacheNode<D>)
    requires Stores(nodes, items)
    ensures Stores([node] + nodes, [Item(node.key, node.desc)] + items)
  {
  }

  lemma StoresDrop<D>(nodes: seq<CacheNode<D>>, items: seq<Item<D>>, k: nat)
    requires Stores(nodes, items) && k < |nodes|
    ensures Stores(Without(nodes, k), Without(items, k))
  {
  }

  lemma StoresToFront<D>(nodes: seq<CacheNode<D>>, items: seq<Item<D>>, k: nat)
    requires Stores(nodes, items) && k < |nodes|
    ensures Stores([nodes[k]] + Without(nodes, k), [items[k]] + Without(items, k))
  {
  }

  /** A new descriptor under the same key changes neither keys nor positions. */
  lemma ReplaceAt<D>(cache: map<nat, CacheNode<D>>, nodes: seq<CacheNode<D>>, items: seq<Item<D>>, k: nat,
                     item: Item<D>)
    requires Mapped(cache, nodes, items) && k < |items| && item.key == items[k].key && Find(items, item.key) == k
    ensures Mapped(cache, nodes, items[k := item])
    ensures Find(items[k := item], item.key) == k
  {
    var items' := items[k := item];
    forall key
      ensures Find(items', key) == Find(items, key)
    {
      SameKeysSameFind(items, items', key);
    }
  }

  lemma ReplacedElsewhere<T>(s: seq<T>, k: nat, x: T)
    requires k < |s|
    ensures Without(s[k := x], k) == Without(s, k) && s[k := x][k] == x
  {
  }

  lemma WithoutLast<T>(s: seq<T>)
    requires s != []
    ensures Without(s, |s| - 1) == s[..|s| - 1]
  {
  }

  lemma {:induction false} SameKeysSameFind<D>(items: seq<Item<D>>, items': seq<Item<D>>, key: nat)
    requires |items| == |items'| && forall i :: 0 <= i < |items| ==> items[i].key == items'[i].key
    ensures Find(items, key) == Find(items', key)
  {
    if items != [] && items[0].key != key {
      SameKeysSameFind(items[1..], items'[1..], key);
    }
  }

  class LRUDescriptorCache<D> {
    var cache: map<nat, CacheNode<D>>
    const head: CacheNode<D>
    const tail: CacheNode<D>
    const capacity: nat
    var size: nat
    /** The calls made to the descriptor destroyer, in order. */
    var destroyed: seq<D>
    /** The list nodes between the sentinels. */
    ghost var nodes: seq<CacheNode<D>>
    /** What they store: the cache as a recency list. */
    ghost var items: seq<Item<D>>

    ghost function Chain(): seq<CacheNode<D>>
      reads this`nodes
    {
      [head] + nodes + [tail]
    }

    ghost predicate Valid()
      reads this, set n | n in Chain()
    {
      && Distinct(Chain()) && Linked(Chain())
      && Stores(nodes, items) && Mapped(cache, nodes, items)
      && size == |nodes| <= capacity && capacity > 0
    }

    ghost function Contents(): Cache<D>
      reads this`items, this`destroyed
    {
      Cache(items, destroyed)
    }

    constructor (capacity: nat, blank: D)
      requires capacity > 0
      ensures Valid() && fresh(Chain()) && this.capacity == capacity
      ensures Contents() == Cache([], [])
    {
      this.capacity, this.size, this.cache, this.destroyed := capacity, 0, map[], [];
      var h := new CacheNode(0, blank);
      var t := new CacheNode(0, blank);
      this.head, this.tail, this.nodes, this.items := h, t, [], [];
      new;
      head.next := tail;
      tail.prev := head;
    }

    /** What the sentinels' links give. */
    lemma Ends()
      requires Valid()
      ensures nodes == [] <==> head.next == tail
      ensures nodes != [] ==> head.next == nodes[0] && tail.prev == nodes[|nodes| - 1]
      ensures forall i :: 0 <= i < |nodes| ==> nodes[i] in Chain()
    {
      var chain := Chain();
      assert chain[0] == head && chain[0].next == chain[1];
      assert chain[|nodes| + 1] == tail && chain[|nodes| + 1].prev == chain[|nodes|];
      assert forall i :: 0 <= i < |nodes| ==> nodes[i] == chain[i + 1];
    }

    /** Unlink node k. */
    method Unlink(node: CacheNode<D>, ghost k: nat)
      requires Distinct(Chain()) && Linked(Chain()) && k < |nodes| && nodes[k] == node
      modifies this`nodes, (set n | n in Chain())`next, (set n | n in Chain())`prev
      ensures Distinct(Chain()) && Linked(Chain()) && nodes == Without(old(nodes), k)
      ensures node !in Chain() && forall n :: n in Chain() ==> n in old(Chain())
    {
      ghost var chain := Chain();
      DropMembers(chain, k + 1);
      DropInner(head, nodes, tail, k);
      assert chain[k + 1] == node && chain[k] == node.prev && chain[k + 2] == node.next;
      node.prev.next := node.next;
      node.next.prev := node.prev;
      nodes := Without(nodes, k);
      ghost var rest := Without(chain, k + 1);
      forall i | 0 <= i < |rest| - 1
        ensures rest[i].next == rest[i + 1] && rest[i + 1].prev == rest[i]
      {
        assert i != k ==> rest[i] != chain[k] && rest[i + 1] != chain[k + 2];
      }
    }

    /** Link a node that is not in the list directly behind the head. */
    method LinkTop(node: CacheNode<D>)
      requires Distinct(Chain()) && Linked(Chain()) && node !in Chain()
      modifies this`nodes, (set n | n in Chain())`next, (set n | n in Chain())`prev, node`next, node`prev
      ensures Distinct(Chain()) && Linked(Chain()) && nodes == [node] + old(nodes)
      ensures forall n :: n in Chain() ==> n == node || n in old(Chain())
    {
      ghost var chain := Chain();
      assert chain[0] == head && chain[0].next == chain[1] && chain[1] in chain;
      node.next := head.next;
      node.next.prev := node;
      node.prev := head;
      head.next := node;
      nodes := [node] + nodes;
      assert Chain() == [head, node] + chain[1..];
    }

    /** Unlink node k and link it behind the head. */
    method Relink(node: CacheNode<D>, ghost k: nat)
      requires Distinct(Chain()) && Linked(Chain()) && k < |nodes| && nodes[k] == node
      modifies this`nodes, (set n | n in Chain())`next, (set n | n in Chain())`prev
      ensures Distinct(Chain()) && Linked(Chain()) && nodes == [node] + Without(old(nodes), k)
      ensures forall n :: n in Chain() <==> n in old(Chain())
    {
      FrontMembers(head, nodes, tail, k);
      Unlink(node, k);
      LinkTop(node);
    }

    /** Unlink node k, destroy its descriptor and forget its key. */
    method RemoveNode(node: CacheNode<D>, ghost k: nat)
      requires Valid() && k < |nodes| && nodes[k] == node
      modifies this, (set n | n in Chain())`next, (set n | n in Chain())`prev
      ensures cache == old(cache) - {old(items)[k].key}
      ensures Valid() && nodes == Without(old(nodes), k) && forall n :: n in Chain() ==> n in old(Chain())
      ensures Contents() == Cache(Without(old(items), k), old(destroyed) + [old(items)[k].desc])
    {
      InnerDistinct(head, nodes, tail);
      MappedDrop(cache, nodes, items, k);
      StoresDrop(nodes, items, k);
      Unlink(node, k);
      destroyed := destroyed + [node.desc];
      Forget(node.key, Without(items, k));
    }

    /** Forget an unlinked node's key. */
    method Forget(key: nat, ghost items': seq<Item<D>>)
      requires Distinct(Chain()) && Linked(Chain()) && Stores(nodes, items') && Mapped(cache - {key}, nodes, items')
      requires 0 < size == |nodes| + 1 <= capacity
      modifies this`cache, this`size, this`items
      ensures Valid() && items == items' && cache == old(cache) - {key} && size == old(size) - 1
    {
      cache := cache - {key};
      size := size - 1;
      items := items';
    }

    /** Enter a new node at the top; the program's check against the capacity cannot fire here. */
    method AddToTop(node: CacheNode<D>)
      requires Valid() && size < capacity && node !in Chain() && node.key !in cache
      modifies this, (set n | n in Chain())`next, (set n | n in Chain())`prev, node`next, node`prev
      ensures Valid() && nodes == [node] + old(nodes) && forall n :: n in Chain() ==> n == node || n in old(Chain())
      ensures Contents() == Cache([Item(node.key, node.desc)] + old(items), old(destroyed))
    {
      MappedFront(cache, nodes, items, node, Item(node.key, node.desc));
      StoresFront(nodes, items, node);
      LinkTop(node);
      Enter(node, [Item(node.key, node.desc)] + items);
      assert !(size > capacity);
    }

    /** Map a linked node's key and count the node. */
    method Enter(node: CacheNode<D>, ghost items': seq<Item<D>>)
      requires Distinct(Chain()) && Linked(Chain()) && Stores(nodes, items')
      requires Mapped(cache[node.key := node], nodes, items')
      requires size + 1 == |nodes| <= capacity
      modifies this`cache, this`size, this`items
      ensures Valid() && items == items'
    {
      cache := cache[node.key := node];
      size := size + 1;
      items := items';
    }

    /** Move node k directly behind the head. */
    method MoveToTop(node: CacheNode<D>, ghost k: nat)
      requires Valid() && k < |nodes| && nodes[k] == node
      modifies this`nodes, this`items, (set n | n in Chain())`next, (set n | n in Chain())`prev
      ensures Valid() && forall n :: n in Chain() <==> n in old(Chain())
      ensures items == [old(items)[k]] + Without(old(items), k)
    {
      ghost var items' := [items[k]] + Without(items, k);
      InnerDistinct(head, nodes, tail);
      MappedToFront(cache, nodes, items, k, items[k]);
      StoresToFront(nodes, items, k);
      Relink(node, k);
      items := items';
    }

    /** Look a key up; a hit becomes the most recently used item. */
    method Get(key: nat) returns (desc: Option<D>)
      requires Valid()
      modifies this`nodes, this`items, (set n | n in Chain())`next, (set n | n in Chain())`prev
      ensures Valid() && forall n :: n in Chain() <==> n in old(Chain())
      ensures (Contents(), desc) == LruSpec.Get(old(Contents()), key)
      ensures desc.Some? <==> IsLive(old(items), key)
      ensures forall i :: 0 <= i < |old(items)| && old(items)[i].key == key ==> desc == Some(old(items)[i].desc)
    {
      InnerDistinct(head, nodes, tail);
      MappedDistinct(cache, nodes, items);
      if key !in cache {
        return None;
      }
      var node := cache[key];
      ghost var k := Find(items, key);
      desc := Some(node.desc);
      MoveToTop(node, k);
    }

    /** Store another descriptor in node k. */
    method SetDesc(node: CacheNode<D>, ghost k: nat, desc: D)
      requires Valid() && k < |nodes| && nodes[k] == node && Find(items, items[k].key) == k
      modifies this`items, node`desc
      ensures Valid() && items == old(items)[k := Item(old(items)[k].key, desc)]
    {
      InnerDistinct(head, nodes, tail);
      ReplaceAt(cache, nodes, items, k, Item(items[k].key, desc));
      StoreDesc(node, k, desc);
    }

    method StoreDesc(node: CacheNode<D>, ghost k: nat, desc: D)
      requires Stores(nodes, items) && Distinct(nodes) && k < |nodes| && nodes[k] == node
      modifies this`items, node`desc
      ensures Stores(nodes, items) && items == old(items)[k := Item(old(items)[k].key, desc)]
    {
      node.desc := desc;
      items := items[k := Item(items[k].key, desc)];
      forall i | 0 <= i < |nodes|
        ensures nodes[i].key == items[i].key && nodes[i].desc == items[i].desc
      {
        if i != k {
          assert nodes[i] != node;
        }
      }
    }

    /** Give the descriptor of a present key to the destroyer and store a new one. */
    method Replace(key: nat, desc: D, ghost k: nat)
      requires Valid() && key in cache && Find(items, key) == k < |nodes| && cache[key] == nodes[k]
      modifies this`nodes, this`items, this`destroyed
      modifies (set n | n in Chain())`next, (set n | n in Chain())`prev, (set n | n in Chain())`desc
      ensures Valid() && forall n :: n in Chain() <==> n in old(Chain())
      ensures items == [Item(key, desc)] + Without(old(items), k)
      ensures destroyed == old(destroyed) + [old(items)[k].desc]
    {
      var node := cache[key];
      assert node == Chain()[k + 1];
      ghost var items0 := items;
      destroyed := destroyed + [node.desc];
      SetDesc(node, k, desc);
      ReplacedElsewhere(items0, k, Item(key, desc));
      MoveToTop(node, k);
    }

    /** Enter or replace a descriptor; the destroyer gets the one that is replaced or evicted. */
    method Put(key: nat, desc: D)
      requires Valid()
      modifies this, Chain()
      ensures Valid() && forall n :: n in Chain() ==> n in old(Chain()) || fresh(n)
      ensures Contents() == LruSpec.Put(old(Contents()), capacity, key, desc)
    {
      InnerDistinct(head, nodes, tail);
      MappedDistinct(cache, nodes, items);
      ghost var goal := LruSpec.Put(Contents(), capacity, key, desc);
      if key in cache {
        ghost var k := Find(items, key);
        assert goal == Cache([Item(key, desc)] + Without(items, k), destroyed + [items[k].desc]);
        Replace(key, desc, k);
      } else {
        assert goal == Cache([Item(key, desc)] + Kept(), destroyed + Evicted());
        InsertNew(key, desc);
      }
    }

    /** The list after an eviction if there is no room. */
    ghost function Kept(): seq<Item<D>>
      requires capacity > 0 && |items| <= capacity
      reads this`items
    {
      if |items| >= capacity then items[..|items| - 1] else items
    }

    ghost function Evicted(): seq<D>
      requires capacity > 0 && |items| <= capacity
      reads this`items
    {
      if |items| >= capacity then [items[|items| - 1].desc] else []
    }

    /** Evict if there is no room, and enter a new node. */
    method InsertNew(key: nat, desc: D)
      requires Valid() && key !in cache
      modifies this, (set n | n in Chain())`next, (set n | n in Chain())`prev
      ensures Valid() && forall n :: n in Chain() ==> n in old(Chain()) || fresh(n)
      ensures Contents() == Cache([Item(key, desc)] + old(Kept()), old(destroyed) + old(Evicted()))
    {
      ghost var kept, evicted := Kept(), destroyed + Evicted();
      MakeRoom();
      var node := new CacheNode(key, desc);
      assert node !in Chain();
      AddToTop(node);
      assert items == [Item(key, desc)] + kept && destroyed == evicted;
    }

    method MakeRoom()
      requires Valid()
      modifies this, (set n | n in Chain())`next, (set n | n in Chain())`prev
      ensures Valid() && size < capacity && forall n :: n in Chain() ==> n in old(Chain())
      ensures items == old(Kept()) && destroyed == old(destroyed) + old(Evicted())
      ensures forall key :: key in cache ==> key in old(cache)
    {
      if size >= capacity {
        Evict();
      }
    }

    /** Remove the node before the tail. */
    method Evict()
      requires Valid() && nodes != []
      modifies this, (set n | n in Chain())`next, (set n | n in Chain())`prev
      ensures Valid() && size < capacity && forall n :: n in Chain() ==> n in old(Chain())
      ensures cache == old(cache) - {old(items)[|old(items)| - 1].key}
      ensures items == old(items)[..|old(items)| - 1]
      ensures destroyed == old(destroyed) + [old(items)[|old(items)| - 1].desc]
    {
      Ends();
      WithoutLast(items);
      RemoveNode(tail.prev, |nodes| - 1);
    }

    /** Remove the node behind the head. */
    method RemoveFront()
      requires Valid() && nodes != []
      modifies this, (set n | n in Chain())`next, (set n | n in Chain())`prev
      ensures Valid() && nodes == Without(old(nodes), 0) && forall n :: n in Chain() ==> n in old(Chain())
      ensures destroyed + Descs(items) == old(destroyed + Descs(items))
    {
      Ends();
      DrainStep(destroyed, items);
      RemoveNode(head.next, 0);
    }

    /** The destructor: remove from the front until only the sentinels are left. */
    method Destroy()
      requires Valid()
      modifies this, (set n | n in Chain())`next, (set n | n in Chain())`prev
      ensures Valid() && Contents() == Cache([], old(destroyed) + Descs(old(items)))
    {
      Ends();
      while head.next != tail
        invariant Valid() && (nodes == [] <==> head.next == tail)
        invariant forall n :: n in Chain() ==> n in old(Chain())
        invariant destroyed + Descs(items) == old(destroyed + Descs(items))
        decreases |nodes|
      {
        RemoveFront();
        Ends();
      }
      assert Descs(items) == [];
    }

    /** One call of a history. */
    method Call(call: Call<D>)
      requires Valid()
      modifies this, set n | n in Chain()
      ensures Valid() && forall n :: n in Chain() ==> n in old(Chain()) || fresh(n)
      ensures Contents() == Step(old(Contents()), capacity, call)
    {
      match call
      case GetCall(key) =>
        var desc := Get(key);
      case PutCall(key, desc) =>
        Put(key, desc);
    }

    /** A whole history. */
    method CallAll(history: seq<Call<D>>)
      requires Valid() && Contents() == Cache([], [])
      modifies this, set n | n in Chain()
      ensures Valid() && Contents() == After(history, capacity)
      ensures forall n :: n in Chain() ==> n in old(Chain()) || fresh(n)
    {
      for i := 0 to |history|
        invariant Valid() && forall n :: n in Chain() ==> n in old(Chain()) || fresh(n)
        invariant Contents() == After(history[..i], capacity)
      {
        AfterSnoc(history, i, capacity);
        Call(history[i]);
      }
      assert history[..|history|] == history;
    }
  }

  lemma AfterSnoc<D>(history: seq<Call<D>>, i: nat, capacity: nat)
    requires i < |history| && capacity > 0
    ensures After(history[..i + 1], capacity) == Step(After(history[..i], capacity), capacity, history[i])
  {
    assert history[..i + 1][..i] == history[..i];
  }

  /** A lookup right after a put finds what was put. */
  method PutThenGet<D>(cache: LRUDescriptorCache<D>, key: nat, desc: D) returns (got: Option<D>)
    requires cache.Valid()
    modifies cache, cache.Chain()
    ensures cache.Valid() && got == Some(desc)
  {
    PutThenHit(cache.Contents(), cache.capacity, key, desc);
    cache.Put(key, desc);
    got := cache.Get(key);
  }

  /** A whole history on a new cache, and then its destructor: every descriptor ever put has been destroyed, once. */
  method RunAndDestroy<D>(history: seq<Call<D>>, capacity: nat, blank: D) returns (cache: LRUDescriptorCache<D>)
    requires capacity > 0
    ensures cache.Valid() && cache.items == []
    ensures multiset(cache.destroyed) == multiset(Puts(history))
  {
    cache := new LRUDescriptorCache(capacity, blank);
    cache.CallAll(history);
    Conservation(history, capacity);
    cache.Destroy();
  }
}
