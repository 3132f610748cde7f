/**
 A generation task and the host-side mirror of the tokens in its KV cache (scripts/infer_task.py).
 Lists are sliced as Python slices them: negative indices count from the end and out-of-range
 indices are clipped.
 */
module InferTask {
  import opened Results

  // ---- Python slices ----

  function Clip(i: int, n: nat): (c: nat)
    ensures c <= n
  {
    if i < 0 then (if n + i < 0 then 0 else n + i) else if i > n then n else i
  }

  /** `s[:k]` */
  function SliceTo<T>(s: seq<T>, k: int): seq<T> {
    s[..Clip(k, |s|)]
  }

  /** `s[k:]` */
  function SliceFrom<T>(s: seq<T>, k: int): seq<T> {
    s[Clip(k, |s|)..]
  }

  /** `s[a:b] = v` */
  function AssignSlice<T>(s: seq<T>, a: int, b: int, v: seq<T>): seq<T> {
    var lo := Clip(a, |s|);
    var hi := if Clip(b, |s|) < lo then lo else Clip(b, |s|);
    s[..lo] + v + s[hi..]
  }

  // ---- one task and its mirror ----

  datatype Reason = Stop | Length | Cancel

  datatype Task = Task(id: nat, tokens: seq<int>, pos: int, maxTokens: int, endTokens: set<int>, finish: Option<Reason>)

  function Bind(t: Task, pos: int): Task {
    t.(pos := pos, tokens := SliceFrom(t.tokens, pos))
  }

  function UpdateTokens(mirror: seq<int>, tokens: seq<int>, pos: int): seq<int> {
    var end, maxLen := pos + |tokens|, |mirror|;
    if end > maxLen then AssignSlice(mirror, pos, maxLen, SliceTo(tokens, maxLen - pos))
    else AssignSlice(mirror, pos, end, tokens)
  }

  /** An inference request after its tokens were run and the model answered; `None` is an empty answer. */
  function Advance(t: Task, out: Option<int>): Task {
    var pos := t.pos + |t.tokens|;
    if out.None? || out.value in t.endTokens then t.(pos := pos, finish := Some(Stop))
    else if pos >= t.maxTokens then t.(pos := pos, finish := Some(Length))
    else t.(pos := pos, tokens := [out.value])
  }

  class KVCache {
    var tokens: seq<int>

    constructor (contextLen: nat)
      ensures tokens == seq(contextLen, _ => 0)
    {
      tokens := seq(contextLen, _ => 0);
    }

    method Update(newTokens: seq<int>, pos: int)
      modifies this
      ensures tokens == UpdateTokens(old(tokens), newTokens, pos)
      ensures forall history :: InStep(newTokens, pos, old(tokens), history) ==> Spells(tokens, old(tokens), history)
    {
      forall history | InStep(newTokens, pos, tokens, history)
        ensures Spells(UpdateTokens(tokens, newTokens, pos), tokens, history)
      {
        UpdateSpells(newTokens, pos, tokens, history);
      }
      var end := pos + |newTokens|;
      var maxLen := |tokens|;
      var kept := newTokens;
      if end > maxLen {
        kept := SliceTo(newTokens, maxLen - pos);
        end := maxLen;
      }
      tokens := AssignSlice(tokens, pos, end, kept);
    }
  }

  class TaskObject {
    var task: Task
    var cache: KVCache?

    constructor (task: Task)
      ensures this.task == task && cache == null
    {
      this.task, cache := task, null;
    }

    method BindKvcache(kvCache: KVCache, pos: int)
      modifies this
      ensures task == Bind(old(task), pos) && cache == kvCache
      ensures task.pos == pos && (0 <= pos <= |old(task).tokens| ==> task.tokens == old(task).tokens[pos..])
      ensures 0 <= pos <= |old(task).tokens| && pos <= |kvCache.tokens|
              && kvCache.tokens[..pos] == old(task).tokens[..pos] ==>
                Mirrors(task, cache.tokens, old(task).tokens)
    {
      cache := kvCache;
      task := task.(pos := pos);
      task := task.(tokens := SliceFrom(task.tokens, pos));
    }

    method ReleaseKvcache() returns (released: KVCache?)
      modifies this`cache
      ensures released == old(cache) && cache == null
    {
      released := cache;
      cache := null;
    }

    method Next(out: Option<int>)
      requires cache != null
      modifies this`task, cache
      ensures task == Advance(old(task), out)
      ensures cache.tokens == UpdateTokens(old(cache.tokens), old(task).tokens, old(task).pos)
      ensures forall history :: Mirrors(old(task), old(cache.tokens), history) ==>
                && Spells(cache.tokens, old(cache.tokens), history)
                && (!Ends(old(task), out) ==> Mirrors(task, cache.tokens, history + [out.value]))
      ensures
        var ended, full := !Ordinary(old(task), out), task.pos >= task.maxTokens;
        && task.finish == (if ended then Some(Stop) else if full then Some(Length) else old(task).finish)
        && task.tokens == (if ended || full then old(task).tokens else [out.value])
        && task.pos == old(task).pos + |old(task).tokens|
      ensures !Ends(old(task), out) ==> AnswersNeeded(task) == AnswersNeeded(old(task)) - 1
    {
      OneAnswerLess(task, out);
      forall history | Mirrors(task, cache.tokens, history)
        ensures
          && Spells(UpdateTokens(cache.tokens, task.tokens, task.pos), cache.tokens, history)
          && (!Ends(task, out) ==>
              Mirrors(Advance(task, out), UpdateTokens(cache.tokens, task.tokens, task.pos), history + [out.value]))
      {
        StaysInStep(task, cache.tokens, history, out);
      }
      cache.Update(task.tokens, task.pos);
      task := task.(pos := task.pos + |task.tokens|);
      if out.None? || out.value in task.endTokens {
        task := task.(finish := Some(Stop));
      } else if task.pos >= task.maxTokens {
        task := task.(finish := Some(Length));
      } else {
        task := task.(tokens := [out.value]);
      }
    }
  }

  // ---- runs ----

  /** An answer that is neither empty nor an end token. */
  predicate Ordinary(t: Task, out: Option<int>) {
    out.Some? && out.value !in t.endTokens
  }

  /** The model's answer ends it, by an end token, an empty answer or the length limit. */
  predicate Ends(t: Task, out: Option<int>) {
    out.None? || out.value in t.endTokens || t.pos + |t.tokens| >= t.maxTokens
  }

  /** Task and mirror after a run of answers; answers after the end are not used. */
  function Run(t: Task, mirror: seq<int>, outs: seq<Option<int>>): (Task, seq<int>)
    decreases |outs|
  {
    if outs == [] then (t, mirror)
    else
      var t', mirror' := Advance(t, outs[0]), UpdateTokens(mirror, t.tokens, t.pos);
      if Ends(t, outs[0]) then (t', mirror') else Run(t', mirror', outs[1..])
  }

  /** Prompt and generated tokens that have been handed to the model after those answers. */
  function Spoken(t: Task, history: seq<int>, outs: seq<Option<int>>): seq<int>
    decreases |outs|
  {
    if outs == [] || Ends(t, outs[0]) then history
    else Spoken(Advance(t, outs[0]), history + [outs[0].value], outs[1..])
  }

  function Min(a: int, b: int): int {
    if a < b then a else b
  }

  /** The mirror spells the history up to the position; the tokens are what follows. */
  ghost predicate Mirrors(t: Task, mirror: seq<int>, history: seq<int>) {
    InStep(t.tokens, t.pos, mirror, history)
  }

  ghost predicate InStep(tokens: seq<int>, pos: int, mirror: seq<int>, history: seq<int>) {
    && 0 <= pos <= |history| && tokens == history[pos..]
    && (pos <= |mirror| || |tokens| <= 1)
    && mirror[..Min(pos, |mirror|)] == history[..Min(pos, |mirror|)]
  }

  /** The mirror has kept its length and spells the whole history, as far as it fits; the rest is as before. */
  ghost predicate Spells(mirror': seq<int>, mirror: seq<int>, history: seq<int>) {
    var n := Min(|history|, |mirror|);
    && |mirror'| == |mirror| && mirror'[..n] == history[..n]
    && forall i :: |history| <= i < |mirror| ==> mirror'[i] == mirror[i]
  }

  lemma UpdateSpells(tokens: seq<int>, pos: int, mirror: seq<int>, history: seq<int>)
    requires InStep(tokens, pos, mirror, history)
    ensures Spells(UpdateTokens(mirror, tokens, pos), mirror, history)
  {
    var maxLen, end := |mirror|, pos + |tokens|;
    if end > maxLen {
      var kept := SliceTo(tokens, maxLen - pos);
      if pos <= maxLen {
        assert kept == tokens[..maxLen - pos];
        assert kept == history[pos..maxLen];
      } else {
        assert kept == [];
      }
    }
  }

  /** An answer that does not end the task leaves it in step with the mirror it has updated. */
  lemma StaysInStep(t: Task, mirror: seq<int>, history: seq<int>, out: Option<int>)
    requires Mirrors(t, mirror, history)
    ensures Spells(UpdateTokens(mirror, t.tokens, t.pos), mirror, history)
    ensures !Ends(t, out) ==> Mirrors(Advance(t, out), UpdateTokens(mirror, t.tokens, t.pos), history + [out.value])
  {
    UpdateSpells(t.tokens, t.pos, mirror, history);
    if !Ends(t, out) {
      var n := Min(|history|, |mirror|);
      assert (history + [out.value])[..n] == history[..n];
    }
  }

  /**
   Through any run of answers the mirror keeps its length and its first min(pos, length) tokens
   spell the prompt followed by the generated tokens.
   */
  lemma {:induction false} RunMirrors(t: Task, mirror: seq<int>, history: seq<int>, outs: seq<Option<int>>)
    requires Mirrors(t, mirror, history)
    ensures
      var (t', mirror') := Run(t, mirror, outs);
      var spoken := Spoken(t, history, outs);
      && |mirror'| == |mirror| && history <= spoken && 0 <= t'.pos <= |spoken|
      && mirror'[..Min(t'.pos, |mirror|)] == spoken[..Min(t'.pos, |mirror|)]
    decreases |outs|
  {
    if outs != [] {
      StaysInStep(t, mirror, history, outs[0]);
      if !Ends(t, outs[0]) {
        var history' := history + [outs[0].value];
        RunMirrors(Advance(t, outs[0]), UpdateTokens(mirror, t.tokens, t.pos), history', outs[1..]);
      } else {
        LastAnswerMirrors(t, mirror, history, outs);
      }
    }
  }

  lemma LastAnswerMirrors(t: Task, mirror: seq<int>, history: seq<int>, outs: seq<Option<int>>)
    requires Mirrors(t, mirror, history) && outs != [] && Ends(t, outs[0])
    ensures Spoken(t, history, outs) == history && Run(t, mirror, outs).0.pos == |history|
    ensures Spells(Run(t, mirror, outs).1, mirror, history)
  {
    UpdateSpells(t.tokens, t.pos, mirror, history);
  }

  /** A task bound to a cache whose mirror starts with its first `matched` prompt tokens. */
  lemma BindMirrors(t: Task, mirror: seq<int>, matched: nat)
    requires matched <= |t.tokens| && matched <= |mirror| && mirror[..matched] == t.tokens[..matched]
    ensures Mirrors(Bind(t, matched), mirror, t.tokens)
  {
  }

  /** Length of the longest common prefix. */
  function CommonPrefix(a: seq<int>, b: seq<int>): (n: nat)
    ensures n <= |a| && n <= |b| && a[..n] == b[..n]
    ensures n < |a| && n < |b| ==> a[n] != b[n]
  {
    if a == [] || b == [] || a[0] != b[0] then 0
    else
      var n := CommonPrefix(a[1..], b[1..]);
      assert a[..n + 1] == [a[0]] + a[1..][..n] && b[..n + 1] == [b[0]] + b[1..][..n];
      n + 1
  }

  /** The position at which the pool binds a task to an idle cache with this much in common. */
  function BindPosition(prompt: seq<int>, matched: nat): int {
    Min(matched, |prompt| - 1)
  }

  /** An empty prompt is bound at position -1, and its second answer is inserted into the mirror. */
  lemma EmptyPromptGrowsMirror(t: Task, mirror: seq<int>, x: int)
    requires t.tokens == [] && t.maxTokens >= 0 && x !in t.endTokens
    ensures
      var bound := Bind(t, BindPosition(t.tokens, CommonPrefix(t.tokens, mirror)));
      |Run(bound, mirror, [Some(x), Some(x)]).1| == |mirror| + 1
  {
    var t1 := Bind(t, -1);
    var mirror1 := UpdateTokens(mirror, t1.tokens, t1.pos);
    assert mirror1 == mirror;
    var t2 := Advance(t1, Some(x));
    var mirror2 := UpdateTokens(mirror, t2.tokens, t2.pos);
    assert |mirror2| == |mirror| + 1;
    assert [Some(x), Some(x)][1..] == [Some(x)] && [Some(x)][1..] == [];
    assert Run(t2, mirror, [Some(x)]).1 == mirror2;
  }

  /** With a negative limit it ends at its first answer, and the mirror is as it was. */
  lemma NegativeLimitEndsAtOnce(t: Task, mirror: seq<int>, outs: seq<Option<int>>)
    requires t.tokens == [] && t.maxTokens < 0
    ensures Run(Bind(t, -1), mirror, outs).1 == mirror
  {
    var t1 := Bind(t, -1);
    assert UpdateTokens(mirror, t1.tokens, t1.pos) == mirror;
  }

  lemma PromptKeepsLength(t: Task, mirror: seq<int>, outs: seq<Option<int>>)
    requires t.tokens != []
    ensures |Run(Bind(t, BindPosition(t.tokens, CommonPrefix(t.tokens, mirror))), mirror, outs).1| == |mirror|
  {
    var matched := CommonPrefix(t.tokens, mirror);
    var pos := BindPosition(t.tokens, matched);
    assert mirror[..pos] == mirror[..matched][..pos] && t.tokens[..pos] == t.tokens[..matched][..pos];
    BindMirrors(t, mirror, pos);
    RunMirrors(Bind(t, pos), mirror, t.tokens, outs);
  }

  /**
   A reused mirror keeps its length through every run of answers exactly when the prompt is not empty
   or the limit is negative.
   */
  lemma LengthKeptExactly(t: Task, mirror: seq<int>, x: int)
    requires x !in t.endTokens
    ensures
      var bound := Bind(t, BindPosition(t.tokens, CommonPrefix(t.tokens, mirror)));
      (forall outs: seq<Option<int>> :: |Run(bound, mirror, outs).1| == |mirror|)
      <==> t.tokens != [] || t.maxTokens < 0
  {
    var bound := Bind(t, BindPosition(t.tokens, CommonPrefix(t.tokens, mirror)));
    if t.tokens != [] || t.maxTokens < 0 {
      forall outs: seq<Option<int>>
        ensures |Run(bound, mirror, outs).1| == |mirror|
      {
        if t.tokens != [] {
          PromptKeepsLength(t, mirror, outs);
        } else {
          NegativeLimitEndsAtOnce(t, mirror, outs);
        }
      }
    } else {
      EmptyPromptGrowsMirror(t, mirror, x);
    }
  }

  // ---- termination ----

  /** How many answers always end a task that has not ended: one for what it has now, one for each position left. */
  function AnswersNeeded(t: Task): (n: nat)
    ensures n >= 1
  {
    1 + Max(0, t.maxTokens - t.pos - |t.tokens|)
  }

  function Max(a: int, b: int): int {
    if a < b then b else a
  }

  /** An answer ends the task or leaves it with one answer less to go. */
  lemma OneAnswerLess(t: Task, out: Option<int>)
    ensures Ends(t, out) ==> Advance(t, out).finish.Some?
    ensures !Ends(t, out) ==> AnswersNeeded(Advance(t, out)) == AnswersNeeded(t) - 1
  {
  }

  /** Whatever prompt and position it starts from, that many answers end it. */
  lemma {:induction false} AnswersEnd(t: Task, mirror: seq<int>, outs: seq<Option<int>>)
    requires |outs| >= AnswersNeeded(t)
    ensures Run(t, mirror, outs).0.finish.Some?
    decreases |outs|
  {
    OneAnswerLess(t, outs[0]);
    if !Ends(t, outs[0]) {
      AnswersEnd(Advance(t, outs[0]), UpdateTokens(mirror, t.tokens, t.pos), outs[1..]);
    }
  }

  /**
   Why a task ends: with "stop" exactly when an empty answer or an end token is among the answers it needs,
   with "length" exactly when it gets all of them and they are ordinary.
   */
  lemma {:induction false} ReasonExactly(t: Task, mirror: seq<int>, outs: seq<Option<int>>)
    requires t.finish.None?
    ensures
      var finish, n := Run(t, mirror, outs).0.finish, AnswersNeeded(t);
      && (finish == Some(Stop) <==> exists k :: 0 <= k < n && k < |outs| && !Ordinary(t, outs[k]))
      && (finish == Some(Length) <==> n <= |outs| && forall k :: 0 <= k < n ==> Ordinary(t, outs[k]))
      && finish != Some(Cancel)
    decreases |outs|
  {
    if outs != [] && !Ends(t, outs[0]) {
      var rest, n := outs[1..], AnswersNeeded(t);
      OneAnswerLess(t, outs[0]);
      ReasonExactly(Advance(t, outs[0]), UpdateTokens(mirror, t.tokens, t.pos), rest);
      assert forall k :: 1 <= k < |outs| ==> outs[k] == rest[k - 1];
      if k :| 0 <= k < n && k < |outs| && !Ordinary(t, outs[k]) {
        assert !Ordinary(t, rest[k - 1]);
      }
    }
  }

  /** Fewer answers that are no end tokens leave it unfinished. */
  lemma {:induction false} FewerDoNot(t: Task, mirror: seq<int>, x: int, n: nat)
    requires t.finish.None? && x !in t.endTokens && n < AnswersNeeded(t)
    ensures Run(t, mirror, seq(n, _ => Some(x))).0.finish.None?
    decreases n
  {
    if n > 0 {
      var outs := seq(n, _ => Some(x));
      assert outs[1..] == seq(n - 1, _ => Some(x));
      FewerDoNot(Advance(t, Some(x)), UpdateTokens(mirror, t.tokens, t.pos), x, n - 1);
    }
  }

  /**
   max(1, maxTokens - pos) answers end every run exactly when the task has tokens to run or is already
   at its limit. An empty prompt takes one answer more.
   */
  lemma EndsWithinLimitExactly(t: Task, mirror: seq<int>, x: int)
    requires t.finish.None? && x !in t.endTokens
    ensures
      (forall outs: seq<Option<int>> :: |outs| >= Max(1, t.maxTokens - t.pos) ==> Run(t, mirror, outs).0.finish.Some?)
      <==> t.tokens != [] || t.maxTokens <= t.pos
  {
    var limit: nat := Max(1, t.maxTokens - t.pos);
    if t.tokens != [] || t.maxTokens <= t.pos {
      forall outs: seq<Option<int>> | |outs| >= limit
        ensures Run(t, mirror, outs).0.finish.Some?
      {
        AnswersEnd(t, mirror, outs);
      }
    } else {
      FewerDoNot(t, mirror, x, limit);
      assert |seq(limit, _ => Some(x))| >= limit;
    }
  }

  /** One answer does not end a task with an empty prompt and room for one token. */
  lemma EmptyPromptNeedsMore()
    ensures
      var t := Task(0, [], 0, 1, {}, None);
      Run(t, [], [Some(5)]).0.finish.None? && Max(1, t.maxTokens - t.pos) == 1
  {
    var t := Task(0, [], 0, 1, {}, None);
    assert [Some(5)] == seq(1, _ => Some(5));
    FewerDoNot(t, [], 5, 1);
  }
}
