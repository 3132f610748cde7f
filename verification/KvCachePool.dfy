/** The pool of KV caches shared by the serving tasks (scripts/kvcache_pool.py). */
module KvCachePool {
  import opened InferTask

  /** A cache as the pool sees it: an identity and the token mirror that the prefix search reads. */
  datatype Cache = Cache(id: nat, tokens: seq<int>)

  datatype Acquired = Bound(cache: Cache, pos: int) | Blocked | ShuttingDown

  /** How much of the tokens each cache has in common. */
  function Matches(available: seq<Cache>, tokens: seq<int>): (ns: seq<nat>)
    ensures |ns| == |available|
  {
    seq(|available|, j requires 0 <= j < |available| => CommonPrefix(tokens, available[j].tokens))
  }

  ghost predicate FirstMax(ns: seq<nat>, i: nat) {
    && i < |ns| && (forall j :: 0 <= j < |ns| ==> ns[j] <= ns[i])
    && forall j :: 0 <= j < i ==> ns[j] < ns[i]
  }

  /** `i` is the first of the caches with the longest common prefix. */
  ghost predicate FirstLongest(available: seq<Cache>, tokens: seq<int>, i: nat) {
    i < |available| && FirstMax(Matches(available, tokens), i)
  }

  /** The nested helper: first position at which two lists differ, or the length of the shorter. */
  method FirstDifferentIndex(a: seq<int>, b: seq<int>) returns (n: nat)
    ensures n == CommonPrefix(a, b)
  {
    var shorter := if |a| < |b| then |a| else |b|;
    for i := 0 to shorter
      invariant a[..i] == b[..i]
    {
      if a[i] != b[i] {
        CommonPrefixIs(a, b, i);
        return i;
      }
    }
    CommonPrefixIs(a, b, shorter);
    return shorter;
  }

  lemma {:induction false} CommonPrefixIs(a: seq<int>, b: seq<int>, n: nat)
    requires n <= |a| && n <= |b| && a[..n] == b[..n] && (n < |a| && n < |b| ==> a[n] != b[n])
    ensures CommonPrefix(a, b) == n
  {
    if n > 0 {
      assert a[..n][0] == b[..n][0];
      assert a[1..][..n - 1] == a[..n][1..] && b[1..][..n - 1] == b[..n][1..];
      CommonPrefixIs(a[1..], b[1..], n - 1);
    }
  }

  /** Idle caches, caches bound to tasks, and the caches dropped so far. */
  datatype Pool = Pool(available: seq<Cache>, bound: map<nat, Cache>, numCaches: nat, maxCaches: nat,
                       shutdown: bool, created: nat, dropped: seq<nat>)

  function NewPool(maxCaches: nat): Pool {
    Pool([], map[], 0, maxCaches, false, 0, [])
  }

  class KVCachePool {
    var maxCaches: nat
    var available: seq<Cache>
    var numCaches: nat
    var shutdown: bool
    var created: nat
    var dropped: seq<nat>
    const contextLen: nat

    constructor (maxCaches: nat, contextLen: nat)
      ensures available == [] && numCaches == 0 && this.maxCaches == maxCaches && !shutdown
      ensures created == 0 && dropped == [] && this.contextLen == contextLen
    {
      this.maxCaches, this.available, this.numCaches, this.shutdown := maxCaches, [], 0, false;
      this.created, this.dropped, this.contextLen := 0, [], contextLen;
    }

    ghost function State(bound: map<nat, Cache>): Pool
      reads this
    {
      Pool(available, bound, numCaches, maxCaches, shutdown, created, dropped)
    }

    /** The first of the idle caches with the longest common prefix; at least one prompt token is left to run. */
    method FindMostMatchingCache(tokens: seq<int>) returns (matched: int, index: nat)
      requires available != []
      ensures FirstLongest(available, tokens, index)
      ensures matched == BindPosition(tokens, CommonPrefix(tokens, available[index].tokens))
      ensures tokens != [] <==> 0 <= matched < |tokens|
    {
      var maxMatch := 0;
      index := 0;
      ghost var ns := Matches(available, tokens);
      for i := 0 to |available|
        invariant index < |available| && (i == 0 ==> index == 0 && maxMatch == 0)
        invariant i > 0 ==> maxMatch == ns[index]
        invariant forall j :: 0 <= j < i ==> ns[j] <= maxMatch
        invariant forall j :: 0 <= j < index ==> ns[j] < maxMatch
      {
        var common := FirstDifferentIndex(tokens, available[i].tokens);
        assert common == ns[i];
        if common > maxMatch {
          maxMatch := common;
          index := i;
        }
      }
      assert maxMatch == CommonPrefix(tokens, available[index].tokens);
      matched := Min(maxMatch, |tokens| - 1);
    }

    /** One pass of the acquiring loop under the lock; `Blocked` goes back to wait. */
    method AcquireSync(task: nat, tokens: seq<int>, ghost bound: map<nat, Cache>) returns (r: Acquired)
      requires task !in bound
      modifies this
      ensures AcquireStep(old(State(bound)), State(if r.Bound? then bound[task := r.cache] else bound), task, tokens, r,
                          contextLen)
    {
      if shutdown {
        return ShuttingDown;
      }
      if |available| == 0 {
        if numCaches < maxCaches {
          numCaches := numCaches + 1;
          created := created + 1;
          return Bound(Cache(created - 1, seq(contextLen, _ => 0)), 0);
        }
        return Blocked;
      }
      var matched, index := FindMostMatchingCache(tokens);
      var cache := available[index];
      ghost var before := State(bound);
      available := available[..index] + available[index + 1..];
      assert TakesIdle(before, State(bound[task := cache]), task, tokens, Bound(cache, matched), index);
      return Bound(cache, matched);
    }

    method ReleaseSync(task: nat, cache: Cache, ghost bound: map<nat, Cache>)
      requires task in bound && bound[task].id == cache.id
      modifies this`available
      ensures ReleaseStep(old(State(bound)), State(bound - {task}), task, cache.tokens)
      ensures available == old(available) + [cache]
      ensures old(Conserved(State(bound))) ==> Conserved(State(bound - {task}))
    {
      if Conserved(State(bound)) {
        ReleaseConserves(State(bound), State(bound).(available := available + [cache], bound := bound - {task}), task,
                         cache.tokens);
      }
      available := available + [cache];
    }

    method BeginFinalize(ghost bound: map<nat, Cache>)
      modifies this`shutdown
      ensures BeginFinalizeStep(old(State(bound)), State(bound))
    {
      shutdown := true;
    }

    /** The part of `finalize` after its waiting loop. */
    method EndFinalize(ghost bound: map<nat, Cache>)
      requires shutdown && |available| >= numCaches
      modifies this
      ensures EndFinalizeStep(old(State(bound)), State(bound))
    {
      for i := 0 to |available|
        invariant available == old(available) && dropped == old(dropped) + Ids(available[..i])
        invariant shutdown && maxCaches == old(maxCaches) && numCaches == old(numCaches) && created == old(created)
      {
        assert available[..i + 1] == available[..i] + [available[i]];
        dropped := dropped + [available[i].id];
      }
      assert available[..|available|] == available;
      available := [];
      maxCaches := 0;
      numCaches := 0;
    }
  }

  function Ids(caches: seq<Cache>): (ids: seq<nat>)
    ensures |ids| == |caches|
  {
    seq(|caches|, i requires 0 <= i < |caches| => caches[i].id)
  }

  // ---- every interleaving of the critical sections ----

  ghost predicate AcquireStep(p: Pool, p': Pool, task: nat, tokens: seq<int>, r: Acquired, contextLen: nat) {
    && task !in p.bound
    && if p.shutdown then r == ShuttingDown && p' == p
       else if p.available == [] then
         if p.numCaches < p.maxCaches then
           var cache := Cache(p.created, seq(contextLen, _ => 0));
           && r == Bound(cache, 0)
           && p' == p.(numCaches := p.numCaches + 1, created := p.created + 1, bound := p.bound[task := cache])
         else r == Blocked && p' == p
       else
         exists i: nat :: TakesIdle(p, p', task, tokens, r, i)
  }

  ghost predicate TakesIdle(p: Pool, p': Pool, task: nat, tokens: seq<int>, r: Acquired, i: nat) {
    && FirstLongest(p.available, tokens, i)
    && r == Bound(p.available[i], BindPosition(tokens, CommonPrefix(tokens, p.available[i].tokens)))
    && p' == p.(available := p.available[..i] + p.available[i + 1..], bound := p.bound[task := p.available[i]])
  }

  /** A task gives its cache back, with whatever its mirror holds by then. */
  ghost predicate ReleaseStep(p: Pool, p': Pool, task: nat, tokens: seq<int>) {
    && task in p.bound
    && p' == p.(available := p.available + [Cache(p.bound[task].id, tokens)], bound := p.bound - {task})
  }

  ghost predicate BeginFinalizeStep(p: Pool, p': Pool) {
    p' == p.(shutdown := true)
  }

  ghost predicate EndFinalizeStep(p: Pool, p': Pool) {
    && p.shutdown && |p.available| >= p.numCaches
    && p' == p.(dropped := p.dropped + Ids(p.available), available := [], maxCaches := 0, numCaches := 0)
  }

  ghost predicate Next(p: Pool, p': Pool, contextLen: nat) {
    || (exists task: nat, tokens: seq<int>, r: Acquired :: AcquireStep(p, p', task, tokens, r, contextLen))
    || (exists task: nat, tokens: seq<int> :: ReleaseStep(p, p', task, tokens))
    || BeginFinalizeStep(p, p') || EndFinalizeStep(p, p')
  }

  ghost predicate RunOf(pools: seq<Pool>, maxCaches: nat, contextLen: nat) {
    && pools != [] && pools[0] == NewPool(maxCaches)
    && forall i :: 0 <= i < |pools| - 1 ==> Next(pools[i], pools[i + 1], contextLen)
  }

  ghost predicate BoundTo(bound: map<nat, Cache>, task: nat, c: nat) {
    task in bound && bound[task].id == c
  }

  /** Cache c is idle, bound or dropped. */
  ghost predicate Somewhere(available: seq<Cache>, bound: map<nat, Cache>, dropped: seq<nat>, c: nat) {
    c in Ids(available) || c in dropped || exists t: nat :: BoundTo(bound, t, c)
  }

  /**
   No cache is in two places, none is lost, and the count is that of the caches in use.
   */
  ghost predicate Conserved(p: Pool) {
    && |p.available| + |p.bound| == p.numCaches <= p.maxCaches
    // no two places hold the same cache
    && (forall i, j :: 0 <= i < j < |p.available| ==> p.available[i].id != p.available[j].id)
    && (forall s: nat, t: nat :: s in p.bound && t in p.bound && s != t ==> p.bound[s].id != p.bound[t].id)
    && (forall i: nat, t: nat :: i < |p.available| && t in p.bound ==> p.available[i].id != p.bound[t].id)
    && (forall i, j :: 0 <= i < j < |p.dropped| ==> p.dropped[i] != p.dropped[j])
    && (forall i: nat, j: nat :: i < |p.dropped| && j < |p.available| ==> p.dropped[i] != p.available[j].id)
    && (forall i: nat, t: nat :: i < |p.dropped| && t in p.bound ==> p.dropped[i] != p.bound[t].id)
    // only created caches appear anywhere, and each of them does
    && (forall i :: 0 <= i < |p.available| ==> p.available[i].id < p.created)
    && (forall t: nat :: t in p.bound ==> p.bound[t].id < p.created)
    && (forall i :: 0 <= i < |p.dropped| ==> p.dropped[i] < p.created)
    && (forall c: nat :: c < p.created ==> Somewhere(p.available, p.bound, p.dropped, c))
  }

  lemma AcquireConserves(p: Pool, p': Pool, task: nat, tokens: seq<int>, r: Acquired, contextLen: nat)
    requires Conserved(p) && AcquireStep(p, p', task, tokens, r, contextLen)
    ensures Conserved(p')
  {
    if !p.shutdown && p.available != [] {
      var i: nat :| TakesIdle(p, p', task, tokens, r, i);
      TakeConserves(p, p', task, tokens, r, i);
    } else if !p.shutdown && p.numCaches < p.maxCaches {
      forall c: nat | c < p'.created
        ensures Somewhere(p'.available, p'.bound, p'.dropped, c)
      {
        assert c < p.created ==> Somewhere(p.available, p.bound, p.dropped, c);
        if c == p.created {
          assert BoundTo(p'.bound, task, c);
        } else if t: nat :| BoundTo(p.bound, t, c) {
          assert BoundTo(p'.bound, t, c);
        }
      }
    }
  }

  lemma TakeConserves(p: Pool, p': Pool, task: nat, tokens: seq<int>, r: Acquired, i: nat)
    requires Conserved(p) && task !in p.bound && TakesIdle(p, p', task, tokens, r, i)
    ensures Conserved(p')
  {
    forall k | 0 <= k < |p'.available|
      ensures p'.available[k] == p.available[if k < i then k else k + 1]
    {
    }
    forall c: nat | c < p'.created
      ensures Somewhere(p'.available, p'.bound, p'.dropped, c)
    {
      assert Somewhere(p.available, p.bound, p.dropped, c);
      TakenIsSomewhere(p.available, p.bound, p.dropped, task, i, c);
    }
  }

  lemma TakenIsSomewhere(available: seq<Cache>, bound: map<nat, Cache>, dropped: seq<nat>, task: nat, i: nat, c: nat)
    requires i < |available| && task !in bound && Somewhere(available, bound, dropped, c)
    ensures Somewhere(available[..i] + available[i + 1..], bound[task := available[i]], dropped, c)
  {
    var bound', rest := bound[task := available[i]], available[..i] + available[i + 1..];
    if t: nat :| BoundTo(bound, t, c) {
      assert BoundTo(bound', t, c);
    } else if c in Ids(available) {
      var k :| 0 <= k < |available| && Ids(available)[k] == c;
      if k == i {
        assert BoundTo(bound', task, c);
      } else {
        assert Ids(rest)[if k < i then k else k - 1] == c;
      }
    }
  }

  lemma ReleaseConserves(p: Pool, p': Pool, task: nat, tokens: seq<int>)
    requires Conserved(p) && ReleaseStep(p, p', task, tokens)
    ensures Conserved(p')
  {
    forall c: nat | c < p'.created
      ensures Somewhere(p'.available, p'.bound, p'.dropped, c)
    {
      assert Somewhere(p.available, p.bound, p.dropped, c);
      ReleasedIsSomewhere(p.available, p.bound, p.dropped, task, tokens, c);
    }
  }

  lemma ReleasedIsSomewhere(available: seq<Cache>, bound: map<nat, Cache>, dropped: seq<nat>, task: nat,
                            tokens: seq<int>, c: nat)
    requires task in bound && Somewhere(available, bound, dropped, c)
    ensures Somewhere(available + [Cache(bound[task].id, tokens)], bound - {task}, dropped, c)
  {
    var available', bound' := available + [Cache(bound[task].id, tokens)], bound - {task};
    if t: nat :| BoundTo(bound, t, c) {
      if t == task {
        assert Ids(available')[|available|] == c;
      } else {
        assert BoundTo(bound', t, c);
      }
    } else if c in Ids(available) {
      var k :| 0 <= k < |available| && Ids(available)[k] == c;
      assert Ids(available')[k] == c;
    }
  }

  /** `finalize` gets past its waiting loop only when every cache is back, and then drops each once. */
  lemma EndFinalizeConserves(p: Pool, p': Pool)
    requires Conserved(p) && EndFinalizeStep(p, p')
    ensures Conserved(p') && p.bound == map[]
    ensures forall c: nat :: c < p'.created ==> c in p'.dropped
  {
    assert |p.bound| == 0;
    forall c: nat | c < p'.created
      ensures c in p'.dropped
    {
      assert Somewhere(p.available, p.bound, p.dropped, c);
      assert p'.dropped == p.dropped + Ids(p.available);
      assert forall t: nat :: !BoundTo(p.bound, t, c);
    }
    assert Conserved(p') by {
      assert forall c: nat :: c < p'.created ==> Somewhere(p'.available, p'.bound, p'.dropped, c);
    }
  }

  lemma NextConserves(p: Pool, p': Pool, contextLen: nat)
    requires Conserved(p) && Next(p, p', contextLen)
    ensures Conserved(p') && p'.maxCaches <= p.maxCaches
  {
    if task: nat, tokens: seq<int>, r: Acquired :| AcquireStep(p, p', task, tokens, r, contextLen) {
      AcquireConserves(p, p', task, tokens, r, contextLen);
      AcquireKeepsMax(p, p', task, tokens, r, contextLen);
    } else if task: nat, tokens: seq<int> :| ReleaseStep(p, p', task, tokens) {
      ReleaseConserves(p, p', task, tokens);
    } else if EndFinalizeStep(p, p') {
      EndFinalizeConserves(p, p');
    }
  }

  lemma AcquireKeepsMax(p: Pool, p': Pool, task: nat, tokens: seq<int>, r: Acquired, contextLen: nat)
    requires AcquireStep(p, p', task, tokens, r, contextLen)
    ensures p'.maxCaches == p.maxCaches
  {
  }

  /** Over every interleaving: idle + bound = count <= maximum, and no cache is lost or duplicated. */
  lemma {:induction false} RunsConserve(pools: seq<Pool>, maxCaches: nat, contextLen: nat)
    requires RunOf(pools, maxCaches, contextLen)
    ensures Conserved(pools[|pools| - 1]) && pools[|pools| - 1].maxCaches <= maxCaches
  {
    if |pools| > 1 {
      var k := |pools| - 1;
      RunsConserve(pools[..k], maxCaches, contextLen);
      NextConserves(pools[k - 1], pools[k], contextLen);
    }
  }

  /**
   What acquiring comes to: refused on shutdown; blocked exactly when no cache is idle and as many as allowed
   exist, and then all of them are bound; a new cache exactly when none is idle and fewer exist.
   */
  lemma AcquireExactly(p: Pool, p': Pool, task: nat, tokens: seq<int>, r: Acquired, contextLen: nat)
    requires Conserved(p) && AcquireStep(p, p', task, tokens, r, contextLen)
    ensures r.ShuttingDown? <==> p.shutdown
    ensures r.Blocked? <==> !p.shutdown && |p.bound| == p.maxCaches
    ensures r.Bound? ==> task in p'.bound && p'.bound[task] == r.cache
    ensures r.Bound? && p.available != [] ==> r.cache in p.available && p'.created == p.created
    ensures r.Bound? && p.available == [] ==>
              r.cache.id == p.created && p'.created == p.created + 1 && p'.numCaches == p.numCaches + 1
  {
  }

  /** No idle cache agrees with more of the prompt, and the position is the largest that leaves a token to run. */
  lemma BoundAtLongest(p: Pool, p': Pool, task: nat, tokens: seq<int>, r: Acquired, contextLen: nat, j: nat, n: nat)
    requires AcquireStep(p, p', task, tokens, r, contextLen) && r.Bound? && j < |p.available|
    requires n < |tokens| && n <= |p.available[j].tokens| && p.available[j].tokens[..n] == tokens[..n]
    ensures n <= r.pos < |tokens|
  {
    var i: nat :| TakesIdle(p, p', task, tokens, r, i);
    var ns := Matches(p.available, tokens);
    assert ns[j] <= ns[i];
    LongestIsLonger(tokens, p.available[j].tokens, n);
  }

  /** The longest common prefix is no shorter than any common prefix. */
  lemma LongestIsLonger(a: seq<int>, b: seq<int>, n: nat)
    requires n <= |a| && n <= |b| && a[..n] == b[..n]
    ensures n <= CommonPrefix(a, b)
  {
    forall k | 0 <= k < n
      ensures a[k] == b[k]
    {
      assert a[..n][k] == b[..n][k];
    }
  }

  /**
   What a task leaves in its cache is found again: a prompt that continues it, acquiring next, is bound behind
   all of it.
   */
  lemma ReleasedIsFound(p: Pool, p1: Pool, p2: Pool, done: nat, task: nat, mirror: seq<int>, tokens: seq<int>,
                        n: nat, r: Acquired, contextLen: nat)
    requires ReleaseStep(p, p1, done, mirror) && AcquireStep(p1, p2, task, tokens, r, contextLen) && !p.shutdown
    requires n < |tokens| && n <= |mirror| && mirror[..n] == tokens[..n]
    ensures r.Bound? && n <= r.pos < |tokens|
  {
    assert p1.available[|p.available|].tokens == mirror;
    BoundAtLongest(p1, p2, task, tokens, r, contextLen, |p.available|, n);
  }

  lemma TakenStartsInStep(p: Pool, p': Pool, t: Task, r: Acquired, i: nat)
    requires TakesIdle(p, p', t.id, t.tokens, r, i) && t.tokens != []
    ensures r.Bound? && r.pos < |t.tokens| && Mirrors(Bind(t, r.pos), r.cache.tokens, t.tokens)
  {
    MatchStartsInStep(t, p.available[i].tokens);
  }

  lemma MatchStartsInStep(t: Task, mirror: seq<int>)
    requires t.tokens != []
    ensures
      var pos := BindPosition(t.tokens, CommonPrefix(t.tokens, mirror));
      0 <= pos < |t.tokens| && Mirrors(Bind(t, pos), mirror, t.tokens)
  {
    var n := CommonPrefix(t.tokens, mirror);
    var pos := BindPosition(t.tokens, n);
    assert mirror[..pos] == mirror[..n][..pos] && t.tokens[..pos] == t.tokens[..n][..pos];
    BindMirrors(t, mirror, pos);
  }

  /** A reuse binds where the mirror agrees with the prompt, so it starts in step with it. */
  lemma ReuseStartsInStep(p: Pool, p': Pool, t: Task, r: Acquired, contextLen: nat)
    requires AcquireStep(p, p', t.id, t.tokens, r, contextLen) && r.Bound? && t.tokens != []
    ensures r.pos < |t.tokens| && Mirrors(Bind(t, r.pos), r.cache.tokens, t.tokens)
  {
    if p.available != [] {
      var i: nat :| TakesIdle(p, p', t.id, t.tokens, r, i);
      TakenStartsInStep(p, p', t, r, i);
    } else {
      NewStartsInStep(t, r);
    }
  }

  lemma NewStartsInStep(t: Task, r: Acquired)
    requires r.Bound? && r.pos == 0 && t.tokens != []
    ensures r.pos < |t.tokens| && Mirrors(Bind(t, r.pos), r.cache.tokens, t.tokens)
  {
    var pos, mirror := r.pos, r.cache.tokens;
    assert mirror[..pos] == [] && t.tokens[..pos] == [];
    BindMirrors(t, mirror, pos);
  }
}
