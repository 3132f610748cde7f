/**
 The serving loop: batches from a request queue, one inference round each, and requeueing
 (scripts/launch_server.py, `worker_loop`). Request handlers put tasks into the queue and cancel
 them at any moment between two steps of the loop.
 */
module WorkerLoop {
  import opened DivMod
  import opened InferTask
  import opened Results

  /** A task, how often it has been served, and what it was when it was submitted. */
  datatype Entry = Entry(task: Task, served: nat, origin: Task)

  function NewEntry(task: Task): Entry {
    Entry(task, 0, task)
  }

  /** `None` is the shutdown sentinel. */
  type Item = Option<Entry>

  datatype Phase =
    | Idle
    | Filling(batch: seq<Entry>)
    | Answering(batch: seq<Entry>)
    | Stopped

  /**
   The request queue, where the loop is, all tasks with caches released in that order, how
   many items it has taken from the queue, and how many batches it has filled.
   */
  datatype Server = Server(queue: seq<Item>, phase: Phase, released: seq<Entry>, taken: nat, rounds: nat)

  const NEW_SERVER := Server([], Idle, [], 0, 0)

  function Served(e: Entry, out: Option<int>): Entry {
    Entry(Advance(e.task, out), e.served + 1, e.origin)
  }

  /** One step of the loop; `out` is the model's answer to the request at the front of an answered batch. */
  function Work(s: Server, maxBatch: nat, out: Option<int>): Server {
    match s.phase
    case Stopped => s
    case Idle =>
      if s.queue == [] then s
      else if s.queue[0].None? then s.(queue := s.queue[1..], taken := s.taken + 1, phase := Stopped)
      else s.(queue := s.queue[1..], taken := s.taken + 1, phase := Filling([s.queue[0].value]))
    case Filling(batch) =>
      if |batch| >= maxBatch || s.queue == [] then s.(phase := Answering(batch), rounds := s.rounds + 1)
      else if s.queue[0].None? then s.(queue := s.queue[1..], taken := s.taken + 1)
      else s.(queue := s.queue[1..], taken := s.taken + 1, phase := Filling(batch + [s.queue[0].value]))
    case Answering(batch) =>
      if batch == [] then s.(phase := Idle)
      else
        var e, left := Served(batch[0], out), Answering(batch[1..]);
        if e.task.finish.None? then s.(phase := left, queue := s.queue + [Some(e)])
        else s.(phase := left, released := s.released + [e])
  }

  function Cancelled(e: Entry, id: nat): Entry {
    if e.task.id == id && e.task.finish.None? then e.(task := e.task.(finish := Some(Cancel))) else e
  }

  function CancelIn(es: seq<Entry>, id: nat): (r: seq<Entry>)
    ensures |r| == |es|
  {
    seq(|es|, i requires 0 <= i < |es| => Cancelled(es[i], id))
  }

  function CancelQueued(q: seq<Item>, id: nat): (r: seq<Item>)
    ensures |r| == |q|
  {
    seq(|q|, i requires 0 <= i < |q| => if q[i].None? then None else Some(Cancelled(q[i].value, id)))
  }

  datatype Event = Submit(task: Task) | Shutdown | CancelTask(id: nat) | Worker(out: Option<int>)

  function Step(s: Server, maxBatch: nat, e: Event): Server {
    match e
    case Submit(task) => s.(queue := s.queue + [Some(NewEntry(task))])
    case Shutdown => s.(queue := s.queue + [None])
    case Worker(out) => Work(s, maxBatch, out)
    case CancelTask(id) =>
      var phase :=
        match s.phase
        case Filling(batch) => Filling(CancelIn(batch, id))
        case Answering(batch) => Answering(CancelIn(batch, id))
        case other => other;
      s.(queue := CancelQueued(s.queue, id), phase := phase)
  }

  function Run(s: Server, maxBatch: nat, events: seq<Event>): Server {
    if events == [] then s
    else Step(Run(s, maxBatch, events[..|events| - 1]), maxBatch, events[|events| - 1])
  }

  // ---- the loop itself ----

  /** The tasks among the items, in order. */
  function Entries(items: seq<Item>): seq<Entry> {
    if items == [] then []
    else if items[0].None? then Entries(items[1..])
    else [items[0].value] + Entries(items[1..])
  }

  lemma {:induction false} EntriesSnoc(items: seq<Item>, x: Item)
    ensures Entries(items + [x]) == Entries(items) + (if x.Some? then [x.value] else [])
  {
    if items != [] {
      assert (items + [x])[1..] == items[1..] + [x];
      EntriesSnoc(items[1..], x);
    }
  }

  /** The tasks of a batch, each with its answer. */
  function Answered(batch: seq<Entry>, outs: seq<Option<int>>): (answered: seq<Entry>)
    requires |batch| <= |outs|
    ensures |answered| == |batch| && forall i :: 0 <= i < |batch| ==> answered[i] == Served(batch[i], outs[i])
  {
    if batch == [] then [] else [Served(batch[0], outs[0])] + Answered(batch[1..], outs[1..])
  }

  /** Those that go on, in order. */
  function Unfinished(answered: seq<Entry>): seq<Item> {
    if answered == [] then []
    else if answered[0].task.finish.Some? then Unfinished(answered[1..])
    else [Some(answered[0])] + Unfinished(answered[1..])
  }

  /** Those that have ended, in order. */
  function Finished(answered: seq<Entry>): seq<Entry> {
    if answered == [] then []
    else if answered[0].task.finish.None? then Finished(answered[1..])
    else [answered[0]] + Finished(answered[1..])
  }

  lemma {:induction false} OneMoreAnswered(answered: seq<Entry>, e: Entry)
    ensures Unfinished(answered + [e]) == Unfinished(answered) + (if e.task.finish.None? then [Some(e)] else [])
    ensures Finished(answered + [e]) == Finished(answered) + (if e.task.finish.Some? then [e] else [])
  {
    if answered != [] {
      assert (answered + [e])[1..] == answered[1..] + [e];
      OneMoreAnswered(answered[1..], e);
    }
  }

  /** One pass through the loop body. */
  ghost predicate TurnOf(s: Server, t: Server, maxBatch: nat, outs: seq<Option<int>>) {
    if s.phase.Stopped? || s.queue == [] then t == s
    else if s.queue[0].None? then t == s.(queue := s.queue[1..], taken := s.taken + 1, phase := Stopped)
    else BatchTurn(s, t, maxBatch, outs)
  }

  /**
   The batch is the tasks among the `n` items taken, which are as many as there is room for; one answer goes
   to each of them in order, the unfinished ones queue up again and the others are released.
   */
  ghost predicate BatchTurn(s: Server, t: Server, maxBatch: nat, outs: seq<Option<int>>) {
    var n := t.taken - s.taken;
    && 0 < n <= |s.queue|
    && var batch := Entries(s.queue[..n]);
    && |batch| <= Room(maxBatch) && |batch| <= |outs|
    && (|batch| < Room(maxBatch) ==> n == |s.queue|)
    && (|batch| == Room(maxBatch) ==> s.queue[n - 1].Some?)
    && var answered := Answered(batch, outs);
       && t.phase.Idle? && t.rounds == s.rounds + 1
       && t.queue == s.queue[n..] + Unfinished(answered) && t.released == s.released + Finished(answered)
  }

  class Loop {
    var queue: seq<Item>
    var released: seq<Entry>
    var stopped: bool
    var taken: nat
    var rounds: nat
    const maxBatch: nat

    constructor (maxBatch: nat)
      ensures State() == NEW_SERVER && this.maxBatch == maxBatch
    {
      this.maxBatch := maxBatch;
      queue, released, stopped, taken, rounds := [], [], false, 0, 0;
    }

    ghost function State(): Server
      reads this
    {
      At(if stopped then Stopped else Idle)
    }

    ghost function At(phase: Phase): Server
      reads this
    {
      Server(queue, phase, released, taken, rounds)
    }

    /** The item is added behind everything that waits, which stays in order, and nothing else changes place. */
    method Put(item: Item)
      modifies this`queue
      ensures State() == old(State()).(queue := old(queue) + [item])
      ensures forall p: nat :: p < |old(queue)| ==> Follows(old(State()), State(), maxBatch, p)
      ensures forall id: nat :: Places(State(), id) == Places(old(State()), id) + Is(item, id)
    {
      forall id: nat
        ensures Queued(queue + [item], id) == Queued(queue, id) + Is(item, id)
      {
        QueuedSnoc(queue, item, id);
      }
      queue := queue + [item];
    }

    /** One pass through the loop body, undisturbed. */
    method Turn(outs: seq<Option<int>>)
      requires maxBatch <= |outs| && outs != []
      modifies this
      ensures TurnOf(old(State()), State(), maxBatch, outs)
    {
      if stopped || queue == [] {
        return; // the loop has returned, or `get` timed out
      }
      ghost var items, before := queue, taken;
      var task := queue[0];
      queue, taken := queue[1..], taken + 1;
      if task.None? {
        stopped := true;
        return;
      }
      ServeBatch(task.value, outs);
      BehindFirst(items, taken - before);
    }

    /** Fill the batch that is opened for a task, and answer it. */
    method ServeBatch(first: Entry, outs: seq<Option<int>>)
      requires maxBatch <= |outs| && outs != []
      modifies this`queue, this`released, this`taken, this`rounds
      ensures rounds == old(rounds) + 1
      ensures
        var n := taken - old(taken);
        && 0 <= n <= |old(queue)|
        && var batch := [first] + Entries(old(queue)[..n]);
        && |batch| <= Room(maxBatch) && |batch| <= |outs| && (|batch| < Room(maxBatch) ==> n == |old(queue)|)
        && (n > 0 && |batch| == Room(maxBatch) ==> old(queue)[n - 1].Some?)
        && queue == old(queue)[n..] + Unfinished(Answered(batch, outs))
        && released == old(released) + Finished(Answered(batch, outs))
    {
      var batch := FillBatch(first);
      AnswerBatch(batch, outs);
    }

    /** Take what waits until the batch has no more room. */
    method FillBatch(first: Entry) returns (batch: seq<Entry>)
      modifies this`queue, this`taken
      ensures
        var n := taken - old(taken);
        && 0 <= n <= |old(queue)| && queue == old(queue)[n..] && batch == [first] + Entries(old(queue)[..n])
        && |batch| <= Room(maxBatch) && (|batch| < Room(maxBatch) ==> n == |old(queue)|)
        && (n > 0 && |batch| == Room(maxBatch) ==> old(queue)[n - 1].Some?)
    {
      batch := [first];
      ghost var items, n := queue, 0;
      while |batch| < maxBatch && queue != []
        invariant n <= |items| && taken == old(taken) + n && queue == items[n..]
        invariant batch == [first] + Entries(items[..n]) && |batch| <= Room(maxBatch)
        invariant n > 0 && |batch| == Room(maxBatch) ==> items[n - 1].Some?
        decreases |queue|
      {
        var req := queue[0];
        EntriesSnoc(items[..n], req);
        assert items[..n + 1] == items[..n] + [req];
        queue, taken, n := queue[1..], taken + 1, n + 1;
        if req.Some? {
          batch := batch + [req.value];
        }
      }
    }

    /** Hand out the answers: unfinished tasks queue up again, the others give their caches back. */
    method AnswerBatch(batch: seq<Entry>, outs: seq<Option<int>>)
      requires |batch| <= |outs|
      modifies this`queue, this`released, this`rounds
      ensures rounds == old(rounds) + 1
      ensures queue == old(queue) + Unfinished(Answered(batch, outs))
      ensures released == old(released) + Finished(Answered(batch, outs))
    {
      rounds := rounds + 1;
      ghost var answers := Answered(batch, outs);
      for i := 0 to |batch|
        invariant rounds == old(rounds) + 1 && queue == old(queue) + Unfinished(answers[..i])
        invariant released == old(released) + Finished(answers[..i])
      {
        assert answers[..i + 1] == answers[..i] + [answers[i]];
        OneMoreAnswered(answers[..i], answers[i]);
        var answered := Served(batch[i], outs[i]);
        if answered.task.finish.None? {
          queue := queue + [Some(answered)];
        } else {
          released := released + [answered];
        }
      }
      assert answers[..|batch|] == answers;
    }
  }

  lemma BehindFirst(items: seq<Item>, n: int)
    requires 0 < n <= |items| && items[0].Some?
    ensures Entries(items[..n]) == [items[0].value] + Entries(items[1..][..n - 1])
    ensures items[n..] == items[1..][n - 1..] && (n > 1 ==> items[1..][n - 2] == items[n - 1])
  {
    assert items[..n][1..] == items[1..][..n - 1];
  }

  // ---- the loop body as steps ----

  lemma StepMore(s: Server, maxBatch: nat, events: seq<Event>, e: Event)
    ensures Run(s, maxBatch, events + [e]) == Step(Run(s, maxBatch, events), maxBatch, e)
  {
    assert (events + [e])[..|events|] == events;
  }

  lemma {:induction false} EntriesConcat(a: seq<Item>, b: seq<Item>)
    ensures Entries(a + b) == Entries(a) + Entries(b)
  {
    if a == [] {
      assert a + b == b;
    } else {
      assert (a + b)[1..] == a[1..] + b;
      EntriesConcat(a[1..], b);
    }
  }

  /** Before its last item is taken, the batch of a turn has room. */
  lemma BatchHasRoom(items: seq<Item>, maxBatch: nat, k: nat, n: nat)
    requires 0 < k < n <= |items| && items[0].Some? && |Entries(items[..n])| <= Room(maxBatch)
    requires |Entries(items[..n])| == Room(maxBatch) ==> items[n - 1].Some?
    ensures |Entries(items[..k])| < maxBatch
  {
    EntriesConcat(items[..k], items[k..n]);
    assert items[..n] == items[..k] + items[k..n];
    EntriesSnoc(items[k..n - 1], items[n - 1]);
    assert items[k..n] == items[k..n - 1] + [items[n - 1]];
    assert items[..k][0] == items[0];
  }

  /** The server when it has taken `k` items for the batch of this turn. */
  function Taking(s: Server, k: nat): Server
    requires k <= |s.queue|
  {
    Server(s.queue[k..], Filling(Entries(s.queue[..k])), s.released, s.taken + k, s.rounds)
  }

  lemma TakesNext(s: Server, maxBatch: nat, k: nat)
    requires k < |s.queue| && |Entries(s.queue[..k])| < maxBatch
    ensures Work(Taking(s, k), maxBatch, None) == Taking(s, k + 1)
  {
    EntriesSnoc(s.queue[..k], s.queue[k]);
    assert s.queue[..k + 1] == s.queue[..k] + [s.queue[k]] && s.queue[k..][1..] == s.queue[k + 1..];
  }

  lemma TakesFirst(s: Server, maxBatch: nat)
    requires s.phase.Idle? && s.queue != [] && s.queue[0].Some?
    ensures Work(s, maxBatch, None) == Taking(s, 1)
  {
    EntriesSnoc([], s.queue[0]);
    assert s.queue[..1] == [] + [s.queue[0]];
    assert [] + [s.queue[0].value] == [s.queue[0].value];
  }

  /** The server when it has handed out `i` of the answers. */
  function Answering'(u: Server, answers: seq<Entry>, i: nat): Server
    requires u.phase.Answering? && i <= |u.phase.batch| == |answers|
  {
    Server(u.queue + Unfinished(answers[..i]), Answering(u.phase.batch[i..]), u.released + Finished(answers[..i]),
           u.taken, u.rounds)
  }

  lemma AnswersNext(u: Server, answers: seq<Entry>, maxBatch: nat, out: Option<int>, i: nat)
    requires u.phase.Answering? && i < |u.phase.batch| == |answers| && answers[i] == Served(u.phase.batch[i], out)
    ensures Work(Answering'(u, answers, i), maxBatch, out) == Answering'(u, answers, i + 1)
  {
    var batch, done := u.phase.batch, answers[..i];
    OneMoreAnswered(done, answers[i]);
    assert answers[..i + 1] == done + [answers[i]] && batch[i..][1..] == batch[i + 1..];
    assert (u.queue + Unfinished(done)) + [Some(answers[i])] == u.queue + (Unfinished(done) + [Some(answers[i])]);
    assert (u.released + Finished(done)) + [answers[i]] == u.released + (Finished(done) + [answers[i]]);
  }

  lemma AnswersAll(u: Server, answers: seq<Entry>, maxBatch: nat)
    requires u.phase.Answering? && |answers| == |u.phase.batch|
    ensures Answering'(u, answers, 0) == u
    ensures Work(Answering'(u, answers, |answers|), maxBatch, None)
         == Server(u.queue + Unfinished(answers), Idle, u.released + Finished(answers), u.taken, u.rounds)
  {
    assert answers[..|answers|] == answers && answers[..0] == [] && u.phase.batch[0..] == u.phase.batch;
    assert u.queue + [] == u.queue && u.released + [] == u.released;
  }

  /** The steps that fill a batch. */
  lemma FillSteps(s: Server, maxBatch: nat, n: nat) returns (events: seq<Event>)
    requires s.phase.Idle? && 0 < n <= |s.queue| && s.queue[0].Some?
    requires forall k: nat :: 0 < k < n ==> |Entries(s.queue[..k])| < maxBatch
    requires |Entries(s.queue[..n])| >= maxBatch || n == |s.queue|
    ensures forall i :: 0 <= i < |events| ==> events[i].Worker?
    ensures Run(s, maxBatch, events) == Taking(s, n).(phase := Answering(Entries(s.queue[..n])), rounds := s.rounds + 1)
  {
    TakesFirst(s, maxBatch);
    OneStep(s, maxBatch, Worker(None));
    events := [Worker(None)];
    for k := 1 to n
      invariant forall i :: 0 <= i < |events| ==> events[i].Worker?
      invariant Run(s, maxBatch, events) == Taking(s, k)
    {
      TakesNext(s, maxBatch, k);
      StepMore(s, maxBatch, events, Worker(None));
      events := events + [Worker(None)];
    }
    StepMore(s, maxBatch, events, Worker(None));
    events := events + [Worker(None)];
  }

  /** The steps that answer a batch. */
  lemma AnswerSteps(s: Server, u: Server, maxBatch: nat, outs: seq<Option<int>>, before: seq<Event>)
    returns (events: seq<Event>)
    requires u == Run(s, maxBatch, before) && u.phase.Answering? && |u.phase.batch| <= |outs|
    requires forall i :: 0 <= i < |before| ==> before[i].Worker?
    ensures forall i :: 0 <= i < |events| ==> events[i].Worker?
    ensures
      var answers := Answered(u.phase.batch, outs);
      Run(s, maxBatch, events)
      == Server(u.queue + Unfinished(answers), Idle, u.released + Finished(answers), u.taken, u.rounds)
  {
    var n, answers := |u.phase.batch|, Answered(u.phase.batch, outs);
    AnswersAll(u, answers, maxBatch);
    events := before;
    for i := 0 to n
      invariant forall j :: 0 <= j < |events| ==> events[j].Worker?
      invariant Run(s, maxBatch, events) == Answering'(u, answers, i)
    {
      AnswersNext(u, answers, maxBatch, outs[i], i);
      StepMore(s, maxBatch, events, Worker(outs[i]));
      events := events + [Worker(outs[i])];
    }
    StepMore(s, maxBatch, events, Worker(None));
    events := events + [Worker(None)];
  }

  /** One pass through the loop body is a run of steps of the loop alone. */
  lemma TurnIsSteps(s: Server, t: Server, maxBatch: nat, outs: seq<Option<int>>) returns (events: seq<Event>)
    requires (s.phase.Idle? || s.phase.Stopped?) && TurnOf(s, t, maxBatch, outs)
    ensures Run(s, maxBatch, events) == t && forall i :: 0 <= i < |events| ==> events[i].Worker?
  {
    if s.phase.Idle? && s.queue != [] && s.queue[0].Some? {
      events := BatchSteps(s, t, maxBatch, outs);
    } else {
      events := [Worker(None)];
      OneStep(s, maxBatch, Worker(None));
      assert Work(s, maxBatch, None) == t;
    }
  }

  lemma OneStep(s: Server, maxBatch: nat, e: Event)
    ensures Run(s, maxBatch, [e]) == Step(s, maxBatch, e)
  {
    assert [e][..0] == [];
  }

  lemma BatchSteps(s: Server, t: Server, maxBatch: nat, outs: seq<Option<int>>) returns (events: seq<Event>)
    requires s.phase.Idle? && s.queue != [] && s.queue[0].Some? && BatchTurn(s, t, maxBatch, outs)
    ensures Run(s, maxBatch, events) == t && forall i :: 0 <= i < |events| ==> events[i].Worker?
  {
    var n := t.taken - s.taken;
    forall k: nat | 0 < k < n
      ensures |Entries(s.queue[..k])| < maxBatch
    {
      BatchHasRoom(s.queue, maxBatch, k, n);
    }
    events := FillSteps(s, maxBatch, n);
    events := AnswerSteps(s, Run(s, maxBatch, events), maxBatch, outs, events);
  }

  // ---- conservation ----

  function Among(es: seq<Entry>, id: nat): nat {
    if es == [] then 0 else (if es[0].task.id == id then 1 else 0) + Among(es[1..], id)
  }

  function Is(x: Item, id: nat): nat {
    if x.Some? && x.value.task.id == id then 1 else 0
  }

  function Queued(q: seq<Item>, id: nat): nat {
    if q == [] then 0 else Is(q[0], id) + Queued(q[1..], id)
  }

  function InBatch(phase: Phase, id: nat): nat {
    match phase
    case Filling(batch) => Among(batch, id)
    case Answering(batch) => Among(batch, id)
    case _ => 0
  }

  /** In how many places of queue, batch and released tasks an identifier stands. */
  function Places(s: Server, id: nat): nat {
    Queued(s.queue, id) + InBatch(s.phase, id) + Among(s.released, id)
  }

  function Submissions(events: seq<Event>, id: nat): nat {
    if events == [] then 0
    else
      var e := events[|events| - 1];
      Submissions(events[..|events| - 1], id) + (if e.Submit? && e.task.id == id then 1 else 0)
  }

  lemma {:induction false} AmongSnoc(es: seq<Entry>, e: Entry, id: nat)
    ensures Among(es + [e], id) == Among(es, id) + Is(Some(e), id)
  {
    if es != [] {
      assert (es + [e])[1..] == es[1..] + [e];
      AmongSnoc(es[1..], e, id);
    }
  }

  lemma {:induction false} QueuedSnoc(q: seq<Item>, x: Item, id: nat)
    ensures Queued(q + [x], id) == Queued(q, id) + Is(x, id)
  {
    if q != [] {
      assert (q + [x])[1..] == q[1..] + [x];
      QueuedSnoc(q[1..], x, id);
    }
  }

  lemma {:induction false} CancelKeepsAmong(es: seq<Entry>, c: nat, id: nat)
    ensures Among(CancelIn(es, c), id) == Among(es, id)
  {
    if es != [] {
      assert CancelIn(es, c)[1..] == CancelIn(es[1..], c);
      CancelKeepsAmong(es[1..], c, id);
    }
  }

  lemma {:induction false} CancelKeepsQueued(q: seq<Item>, c: nat, id: nat)
    ensures Queued(CancelQueued(q, c), id) == Queued(q, id)
  {
    if q != [] {
      assert CancelQueued(q, c)[1..] == CancelQueued(q[1..], c);
      CancelKeepsQueued(q[1..], c, id);
    }
  }

  lemma WorkConserves(s: Server, maxBatch: nat, out: Option<int>, id: nat)
    ensures Places(Work(s, maxBatch, out), id) == Places(s, id)
  {
    match s.phase
    case Stopped =>
    case Idle =>
      if s.queue != [] && s.queue[0].Some? {
        AmongSnoc([], s.queue[0].value, id);
        assert [] + [s.queue[0].value] == [s.queue[0].value];
      }
    case Filling(batch) =>
      if s.queue != [] && s.queue[0].Some? {
        AmongSnoc(batch, s.queue[0].value, id);
      }
    case Answering(batch) =>
      if batch != [] {
        var e := Served(batch[0], out);
        QueuedSnoc(s.queue, Some(e), id);
        AmongSnoc(s.released, e, id);
      }
  }

  lemma StepConserves(s: Server, maxBatch: nat, e: Event, id: nat)
    ensures Places(Step(s, maxBatch, e), id) == Places(s, id) + Submissions([e], id)
  {
    assert [e][..0] == [];
    match e
    case Submit(task) => QueuedSnoc(s.queue, Some(NewEntry(task)), id);
    case Shutdown => QueuedSnoc(s.queue, None, id);
    case Worker(out) => WorkConserves(s, maxBatch, out, id);
    case CancelTask(c) =>
      CancelKeepsQueued(s.queue, c, id);
      match s.phase {
        case Filling(batch) => CancelKeepsAmong(batch, c, id);
        case Answering(batch) => CancelKeepsAmong(batch, c, id);
        case _ =>
      }
  }

  /**
   Each submitted task is in exactly one of queue, batch and released tasks, however submissions,
   cancellations and the loop interleave; so no cache is released twice and none is forgotten.
   */
  lemma {:induction false} RunConserves(maxBatch: nat, events: seq<Event>, id: nat)
    ensures Places(Run(NEW_SERVER, maxBatch, events), id) == Submissions(events, id)
  {
    if events != [] {
      var n := |events| - 1;
      RunConserves(maxBatch, events[..n], id);
      StepConserves(Run(NEW_SERVER, maxBatch, events[..n]), maxBatch, events[n], id);
      assert [events[n]][..0] == [];
    }
  }

  // ---- how long a task is served ----

  /**
   The entry was submitted as its origin, and what it was served and what it may still need stay within
   the origin's need.
   */
  ghost predicate Live(e: Entry, events: seq<Event>) {
    && Submit(e.origin) in events && e.origin.id == e.task.id
    && e.served + AnswersNeeded(e.task) <= AnswersNeeded(e.origin)
  }

  ghost predicate Bounded(e: Entry, events: seq<Event>) {
    && Submit(e.origin) in events && e.origin.id == e.task.id
    && e.task.finish.Some? && 1 <= e.served <= AnswersNeeded(e.origin)
  }

  ghost predicate AllLive(es: seq<Entry>, events: seq<Event>) {
    forall i :: 0 <= i < |es| ==> Live(es[i], events)
  }

  ghost predicate Progressing(s: Server, events: seq<Event>) {
    && (forall i :: 0 <= i < |s.queue| && s.queue[i].Some? ==> Live(s.queue[i].value, events))
    && (match s.phase
        case Filling(batch) => AllLive(batch, events)
        case Answering(batch) => AllLive(batch, events)
        case _ => true)
    && (forall i :: 0 <= i < |s.released| ==> Bounded(s.released[i], events))
  }

  lemma ServedStep(e: Entry, out: Option<int>, events: seq<Event>)
    requires Live(e, events)
    ensures
      var e' := Served(e, out);
      if e'.task.finish.None? then Live(e', events) else Bounded(e', events)
  {
    OneAnswerLess(e.task, out);
  }

  lemma StepProgresses(s: Server, maxBatch: nat, e: Event, events: seq<Event>)
    requires Progressing(s, events) && e in events
    ensures Progressing(Step(s, maxBatch, e), events)
  {
    if e.Worker? && s.phase.Answering? && s.phase.batch != [] {
      ServedStep(s.phase.batch[0], e.out, events);
    }
  }

  lemma MoreEvents(s: Server, before: seq<Event>, events: seq<Event>)
    requires Progressing(s, before) && forall e :: e in before ==> e in events
    ensures Progressing(s, events)
  {
  }

  /**
   Whatever the tasks and the interleaving, a task is released after at least one answer and no more
   than AnswersNeeded of the task as it was submitted.
   */
  lemma {:induction false} ServedWithinNeed(maxBatch: nat, events: seq<Event>)
    ensures Progressing(Run(NEW_SERVER, maxBatch, events), events)
  {
    if events != [] {
      var n := |events| - 1;
      var s := Run(NEW_SERVER, maxBatch, events[..n]);
      ServedWithinNeed(maxBatch, events[..n]);
      MoreEvents(s, events[..n], events);
      StepProgresses(s, maxBatch, events[n], events);
    }
  }

  lemma ReleasedWithinNeed(maxBatch: nat, events: seq<Event>, i: nat)
    requires i < |Run(NEW_SERVER, maxBatch, events).released|
    ensures
      var e := Run(NEW_SERVER, maxBatch, events).released[i];
      Submit(e.origin) in events && e.origin.id == e.task.id && 1 <= e.served <= AnswersNeeded(e.origin)
  {
    ServedWithinNeed(maxBatch, events);
    assert Bounded(Run(NEW_SERVER, maxBatch, events).released[i], events);
  }

  lemma RunSnoc(maxBatch: nat, events: seq<Event>, e: Event)
    ensures Run(NEW_SERVER, maxBatch, events + [e]) == Step(Run(NEW_SERVER, maxBatch, events), maxBatch, e)
  {
    StepMore(NEW_SERVER, maxBatch, events, e);
  }

  /** One round for a task alone: take it, close the batch, answer, and idle again. */
  lemma AloneRound(before: seq<Event>, e: Entry, out: Option<int>) returns (events: seq<Event>)
    requires
      var s := Run(NEW_SERVER, 1, before);
      s.phase.Idle? && s.queue == [Some(e)]
    ensures
      var s, t, e' := Run(NEW_SERVER, 1, before), Run(NEW_SERVER, 1, events), Served(e, out);
      && t.phase.Idle?
      && t.queue == (if e'.task.finish.None? then [Some(e')] else [])
      && t.released == s.released + (if e'.task.finish.None? then [] else [e'])
  {
    var taken := before + [Worker(None)];
    RunSnoc(1, before, Worker(None));
    RunSnoc(1, taken, Worker(None));
    var answered := taken + [Worker(None)];
    RunSnoc(1, answered, Worker(out));
    RunSnoc(1, answered + [Worker(out)], Worker(None));
    events := answered + [Worker(out)] + [Worker(None)];
  }

  /** A task alone that is answered with the same ordinary token uses up all the answers it needs. */
  lemma {:induction false} ServedToTheEnd(before: seq<Event>, e: Entry, x: int) returns (events: seq<Event>)
    requires
      var s := Run(NEW_SERVER, 1, before);
      s.phase.Idle? && s.queue == [Some(e)] && s.released == []
    requires e.task.finish.None? && x !in e.task.endTokens
    ensures
      var released := Run(NEW_SERVER, 1, events).released;
      |released| == 1 && released[0].origin == e.origin && released[0].served == e.served + AnswersNeeded(e.task)
    decreases AnswersNeeded(e.task)
  {
    events := AloneRound(before, e, Some(x));
    if e.task.pos + |e.task.tokens| < e.task.maxTokens {
      events := ServedToTheEnd(events, Served(e, Some(x)), x);
    }
  }

  /** In every run, every release of this task comes after at most max(1, maxTokens - pos) answers. */
  ghost predicate LimitKept(t: Task) {
    forall maxBatch: nat, events: seq<Event>, i: nat ::
      i < |Run(NEW_SERVER, maxBatch, events).released| && Run(NEW_SERVER, maxBatch, events).released[i].origin == t ==>
        Run(NEW_SERVER, maxBatch, events).released[i].served <= Max(1, t.maxTokens - t.pos)
  }

  /** That limit is kept exactly for tasks that have tokens to run or are already at their limit. */
  lemma ServedWithinLimitExactly(t: Task, x: int)
    requires t.finish.None? && x !in t.endTokens
    ensures LimitKept(t) <==> t.tokens != [] || t.maxTokens <= t.pos
  {
    if t.tokens != [] || t.maxTokens <= t.pos {
      forall maxBatch: nat, events: seq<Event>, i: nat |
          i < |Run(NEW_SERVER, maxBatch, events).released| && Run(NEW_SERVER, maxBatch, events).released[i].origin == t
        ensures Run(NEW_SERVER, maxBatch, events).released[i].served <= Max(1, t.maxTokens - t.pos)
      {
        ReleasedWithinNeed(maxBatch, events, i);
      }
    } else {
      var events := NeedsAll(t, x);
      assert Run(NEW_SERVER, 1, events).released[0].origin == t;
    }
  }

  /** The bound of ReleasedWithinNeed is reached. */
  lemma NeedsAll(t: Task, x: int) returns (events: seq<Event>)
    requires t.finish.None? && x !in t.endTokens
    ensures
      var released := Run(NEW_SERVER, 1, events).released;
      |released| == 1 && released[0].origin == t && released[0].served == AnswersNeeded(t)
  {
    RunSnoc(1, [], Submit(t));
    assert [] + [Submit(t)] == [Submit(t)];
    events := ServedToTheEnd([Submit(t)], NewEntry(t), x);
  }

  /** An empty prompt with room for one token is served twice. */
  lemma EmptyPromptServedTwice() returns (events: seq<Event>)
    ensures
      var released := Run(NEW_SERVER, 1, events).released;
      |released| == 1 && released[0].origin == Task(0, [], 0, 1, {}, None) && released[0].served == 2
  {
    events := NeedsAll(Task(0, [], 0, 1, {}, None), 5);
  }

  // ---- order of service ----

  function BatchSize(phase: Phase): nat {
    if phase.Filling? then |phase.batch| else 0
  }

  predicate SameItem(x: Item, y: Item) {
    x.None? == y.None? && (x.Some? ==> x.value.task.id == y.value.task.id)
  }

  /** How many items a batch holds; a batch begins with the item it was opened for, whatever the limit. */
  function Room(maxBatch: nat): (m: nat)
    ensures m > 0
  {
    if maxBatch == 0 then 1 else maxBatch
  }

  /** A batch that is being filled has at least one task and no more than its room. */
  ghost predicate Begun(s: Server, maxBatch: nat) {
    s.phase.Filling? ==> 1 <= |s.phase.batch| <= Room(maxBatch)
  }

  lemma StepBegun(s: Server, maxBatch: nat, e: Event)
    requires Begun(s, maxBatch)
    ensures Begun(Step(s, maxBatch, e), maxBatch)
  {
  }

  lemma {:induction false} RunBegun(s: Server, maxBatch: nat, events: seq<Event>)
    requires Begun(s, maxBatch)
    ensures Begun(Run(s, maxBatch, events), maxBatch)
  {
    if events != [] {
      var n := |events| - 1;
      RunBegun(s, maxBatch, events[..n]);
      StepBegun(Run(s, maxBatch, events[..n]), maxBatch, events[n]);
    }
  }

  /** This holds whenever the server has been run from its start. */
  lemma AlwaysBegun(maxBatch: nat, events: seq<Event>)
    ensures Begun(Run(NEW_SERVER, maxBatch, events), maxBatch)
  {
    RunBegun(NEW_SERVER, maxBatch, events);
  }

  /**
   Until the item at position `p` of the queue of `s` is taken, it waits behind what was in front of it,
   and every batch filled since, counting what `s` had in its batch, took all it had room for.
   */
  ghost predicate Follows(s: Server, t: Server, maxBatch: nat, p: nat)
    requires p < |s.queue|
  {
    var taken := t.taken - s.taken;
    && taken >= 0 && s.rounds <= t.rounds && Begun(t, maxBatch)
    && (taken <= p ==>
          && Times(t.rounds - s.rounds, Room(maxBatch)) + BatchSize(t.phase) <= taken + BatchSize(s.phase)
          && p - taken < |t.queue| && SameItem(t.queue[p - taken], s.queue[p]))
  }

  lemma FillsWhole(rounds: nat, room: nat)
    ensures Times(rounds + 1, room) == Times(rounds, room) + room
  {
  }

  lemma StepFollows(s: Server, t: Server, maxBatch: nat, e: Event, p: nat)
    requires p < |s.queue| && Follows(s, t, maxBatch, p)
    ensures Follows(s, Step(t, maxBatch, e), maxBatch, p)
  {
    FillsWhole(t.rounds - s.rounds, Room(maxBatch));
  }

  lemma {:induction false} RunFollows(s: Server, maxBatch: nat, events: seq<Event>, p: nat)
    requires Begun(s, maxBatch) && p < |s.queue|
    ensures Follows(s, Run(s, maxBatch, events), maxBatch, p)
  {
    if events != [] {
      RunFollows(s, maxBatch, events[..|events| - 1], p);
      StepFollows(s, Run(s, maxBatch, events[..|events| - 1]), maxBatch, events[|events| - 1], p);
    }
  }

  lemma RoundsWithin(rounds: nat, room: nat, p: nat)
    requires room > 0 && Times(rounds, room) <= p
    ensures rounds <= Quotient(p, room)
  {
    if rounds > p / room {
      DivModIdentity(p, room);
      MulLe(p / room + 1, rounds, room);
    }
  }

  /**
   Fairness: the item at position `p` of the queue has been taken by the time
   floor((p + b) / room) + 1 more batches are filled, `b` being the size of the batch that is being
   filled, whatever else is submitted, cancelled or requeued meanwhile; and while it waits only the
   items that were in front of it are ahead of it.
   */
  lemma ServedInTurn(s: Server, maxBatch: nat, events: seq<Event>, p: nat)
    requires Begun(s, maxBatch) && p < |s.queue|
    ensures
      var t, b := Run(s, maxBatch, events), BatchSize(s.phase);
      && t.taken >= s.taken
      && (t.rounds >= s.rounds + (p + b) / Room(maxBatch) + 1 ==> t.taken - s.taken > p)
      && (t.taken - s.taken <= p ==>
            && p - (t.taken - s.taken) < |t.queue|
            && SameItem(t.queue[p - (t.taken - s.taken)], s.queue[p]))
  {
    RunFollows(s, maxBatch, events, p);
    var t := Run(s, maxBatch, events);
    if t.taken - s.taken <= p {
      RoundsWithin(t.rounds - s.rounds, Room(maxBatch), p + BatchSize(s.phase));
    }
  }

  /**
   The batch that is being filled counts: with room for two, and one task in it, the second task in
   the queue is still waiting after one more batch, although floor(1 / 2) + 1 = 1.
   */
  lemma MidFillWaitsLonger(a: Task, b: Task, c: Task) returns (before: seq<Event>, after: seq<Event>)
    ensures after == before + [Worker(None)] + [Worker(None)]
    ensures
      var s, t := Run(NEW_SERVER, 2, before), Run(NEW_SERVER, 2, after);
      && s.phase == Filling([NewEntry(a)]) && s.queue == [Some(NewEntry(b)), Some(NewEntry(c))]
      && t.rounds == s.rounds + 1 && t.queue == [Some(NewEntry(c))]
  {
    before := OneTaken(a);
    RunSnoc(2, before, Submit(b));
    before := before + [Submit(b)];
    RunSnoc(2, before, Submit(c));
    before := before + [Submit(c)];
    RunSnoc(2, before, Worker(None));
    after := before + [Worker(None)];
    assert Run(NEW_SERVER, 2, after).phase == Filling([NewEntry(a), NewEntry(b)]);
    RunSnoc(2, after, Worker(None));
    after := after + [Worker(None)];
  }

  /** A server whose loop has opened a batch for its only task. */
  lemma OneTaken(a: Task) returns (events: seq<Event>)
    ensures Run(NEW_SERVER, 2, events) == Server([], Filling([NewEntry(a)]), [], 1, 0)
  {
    RunSnoc(2, [], Submit(a));
    events := [] + [Submit(a)];
    RunSnoc(2, events, Worker(None));
    events := events + [Worker(None)];
  }

  // ---- cancellation ----

  /** If it is the task with this identifier, it has had at most `k` answers, and if `over`, it has a reason to end. */
  ghost predicate Capped(e: Entry, id: nat, k: nat, over: bool) {
    e.task.id == id ==> e.served <= k && (over ==> e.task.finish.Some?)
  }

  ghost predicate AllCapped(es: seq<Entry>, id: nat, k: nat, over: bool) {
    forall i :: 0 <= i < |es| ==> Capped(es[i], id, k, over)
  }

  /** Waiting tasks with this identifier have had at most `k` answers, released ones at most one more. */
  ghost predicate ServedUpTo(s: Server, id: nat, k: nat, over: bool) {
    && (forall i :: 0 <= i < |s.queue| && s.queue[i].Some? ==> Capped(s.queue[i].value, id, k, over))
    && (match s.phase
        case Filling(batch) => AllCapped(batch, id, k, over)
        case Answering(batch) => AllCapped(batch, id, k, over)
        case _ => true)
    && AllCapped(s.released, id, k + 1, false)
  }

  /** Cancelling marks the tasks with the identifier that have not ended, and changes nothing else. */
  lemma CancelMarks(s: Server, maxBatch: nat, id: nat, i: nat)
    requires i < |s.queue| && s.queue[i].Some?
    ensures
      var q, e := Step(s, maxBatch, CancelTask(id)).queue, s.queue[i].value;
      && |q| == |s.queue| && q[i].Some? && q[i].value.served == e.served && q[i].value.origin == e.origin
      && q[i].value.task == (if e.task.id == id && e.task.finish.None? then e.task.(finish := Some(Cancel)) else e.task)
  {
  }

  lemma CancelReaches(s: Server, maxBatch: nat, id: nat, k: nat)
    requires ServedUpTo(s, id, k, false)
    ensures ServedUpTo(Step(s, maxBatch, CancelTask(id)), id, k, true)
  {
  }

  lemma CancelledStep(s: Server, maxBatch: nat, e: Event, id: nat, k: nat)
    requires ServedUpTo(s, id, k, true) && (e.Submit? ==> e.task.id != id)
    ensures ServedUpTo(Step(s, maxBatch, e), id, k, true)
  {
    if e.Worker? && s.phase.Answering? && s.phase.batch != [] {
      assert Capped(s.phase.batch[0], id, k, true);
      assert Capped(Served(s.phase.batch[0], e.out), id, k + 1, true);
    }
  }

  /**
   A cancelled task is answered at most once more and never queues up again, whatever happens meanwhile,
   as long as no other task is submitted under its identifier.
   */
  lemma {:induction false} CancelledServedOnceMore(s: Server, maxBatch: nat, events: seq<Event>, id: nat, k: nat)
    requires ServedUpTo(s, id, k, false)
    requires forall i :: 0 <= i < |events| && events[i].Submit? ==> events[i].task.id != id
    ensures ServedUpTo(Run(Step(s, maxBatch, CancelTask(id)), maxBatch, events), id, k, true)
  {
    if events == [] {
      CancelReaches(s, maxBatch, id, k);
    } else {
      var n := |events| - 1;
      CancelledServedOnceMore(s, maxBatch, events[..n], id, k);
      CancelledStep(Run(Step(s, maxBatch, CancelTask(id)), maxBatch, events[..n]), maxBatch, events[n], id, k);
    }
  }

  // ---- release without further submissions ----

  /** Nothing but tasks waits, and the loop has not returned. */
  ghost predicate OnlyTasks(s: Server) {
    !s.phase.Stopped? && forall i :: 0 <= i < |s.queue| ==> s.queue[i].Some?
  }

  predicate Closed(e: Event) {
    e.Worker? || e.CancelTask?
  }

  function Batch(phase: Phase): seq<Entry> {
    match phase
    case Filling(batch) => batch
    case Answering(batch) => batch
    case _ => []
  }

  /** How many tasks the server has that are not released. */
  function Tasks(s: Server): nat {
    |s.queue| + |Batch(s.phase)|
  }

  /** Batches filled until each of `n` tasks has had a turn. */
  function Cycle(n: nat, room: nat): nat
    requires room > 0
  {
    Quotient(if n == 0 then 0 else n - 1, room) + 1
  }

  /** Batches to be filled before this need is met, one cycle for each answer after the next. */
  function Later(t: Task, n: nat, room: nat): nat
    requires room > 0
  {
    Times(AnswersNeeded(t) - 1, Cycle(n, room))
  }

  ghost predicate DueInQueue(s: Server, id: nat, p: nat, n: nat, room: nat, limit: nat)
    requires room > 0
  {
    && p < |s.queue| && s.queue[p].Some? && s.queue[p].value.task.id == id
    && s.rounds + Later(s.queue[p].value.task, n, room) + Quotient(p + BatchSize(s.phase), room) + 1 <= limit
  }

  ghost predicate DueInBatch(s: Server, id: nat, i: nat, n: nat, room: nat, limit: nat)
    requires room > 0
  {
    var batch := Batch(s.phase);
    && i < |batch| && batch[i].task.id == id
    && s.rounds + Later(batch[i].task, n, room) + (if s.phase.Filling? then 1 else 0) <= limit
  }

  ghost predicate IsReleased(s: Server, id: nat) {
    exists i :: 0 <= i < |s.released| && s.released[i].task.id == id
  }

  /** The task is released, or will be before more than `limit` batches have been filled. */
  ghost predicate Due(s: Server, id: nat, n: nat, room: nat, limit: nat)
    requires room > 0
  {
    || IsReleased(s, id)
    || (exists p: nat :: DueInQueue(s, id, p, n, room, limit))
    || (exists i: nat :: DueInBatch(s, id, i, n, room, limit))
  }

  lemma QuotientMonotone(a: nat, b: nat, room: nat)
    requires room > 0 && a <= b
    ensures Quotient(a, room) <= Quotient(b, room)
  {
    DivModIdentity(a, room);
    DivModIdentity(b, room);
    if a / room > b / room {
      MulLe(b / room + 1, a / room, room);
      assert false;
    }
  }

  lemma QuotientNext(a: nat, room: nat)
    requires room > 0
    ensures Quotient(a + room, room) == Quotient(a, room) + 1
  {
    DivModIdentity(a, room);
    DivModUnique(a + room, room, a / room + 1, a % room);
  }

  /** Requeued behind all others, a task has its turn within one cycle. */
  lemma RequeuedInTime(t: Task, t': Task, n: nat, room: nat, p: nat)
    requires room > 0 && p < n && AnswersNeeded(t') == AnswersNeeded(t) - 1
    ensures Later(t', n, room) + Quotient(p, room) + 1 <= Later(t, n, room)
  {
    QuotientMonotone(p, n - 1, room);
    FillsWhole(AnswersNeeded(t') - 1, Cycle(n, room));
  }

  lemma CancelKeepsNeed(e: Entry, c: nat)
    ensures Cancelled(e, c).task.id == e.task.id && AnswersNeeded(Cancelled(e, c).task) == AnswersNeeded(e.task)
  {
  }

  lemma CancelKeepsDue(s: Server, maxBatch: nat, c: nat, id: nat, n: nat, room: nat, limit: nat)
    requires room > 0 && Due(s, id, n, room, limit)
    ensures Due(Step(s, maxBatch, CancelTask(c)), id, n, room, limit)
  {
    var s' := Step(s, maxBatch, CancelTask(c));
    if p: nat :| DueInQueue(s, id, p, n, room, limit) {
      CancelKeepsNeed(s.queue[p].value, c);
      assert DueInQueue(s', id, p, n, room, limit);
    } else if i: nat :| DueInBatch(s, id, i, n, room, limit) {
      CancelKeepsNeed(Batch(s.phase)[i], c);
      assert DueInBatch(s', id, i, n, room, limit);
    }
  }

  /** A waiting task moves up, is taken into the batch, or has the batch in front of it closed. */
  lemma QueuedKeepsDue(s: Server, maxBatch: nat, out: Option<int>, id: nat, p: nat, n: nat, limit: nat)
    requires Begun(s, maxBatch) && OnlyTasks(s) && DueInQueue(s, id, p, n, Room(maxBatch), limit)
    ensures Due(Work(s, maxBatch, out), id, n, Room(maxBatch), limit)
  {
    var s', room := Work(s, maxBatch, out), Room(maxBatch);
    if s.phase.Answering? {
      assert DueInQueue(s', id, p, n, room, limit);
    } else if s.phase.Filling? && |s.phase.batch| >= maxBatch {
      assert BatchSize(s.phase) == room;
      QuotientNext(p, room);
      assert DueInQueue(s', id, p, n, room, limit);
    } else if p > 0 {
      assert DueInQueue(s', id, p - 1, n, room, limit);
    } else {
      assert DueInBatch(s', id, BatchSize(s.phase), n, room, limit);
    }
  }

  /** A task in the batch stays there, is requeued with one answer less to go, or is released. */
  lemma BatchedKeepsDue(s: Server, maxBatch: nat, out: Option<int>, id: nat, i: nat, n: nat, limit: nat)
    requires Begun(s, maxBatch) && Tasks(s) <= n && DueInBatch(s, id, i, n, Room(maxBatch), limit)
    ensures Due(Work(s, maxBatch, out), id, n, Room(maxBatch), limit)
  {
    var s', room := Work(s, maxBatch, out), Room(maxBatch);
    if s.phase.Filling? {
      assert DueInBatch(s', id, i, n, room, limit);
    } else if i > 0 {
      assert DueInBatch(s', id, i - 1, n, room, limit);
    } else {
      var e := Served(s.phase.batch[0], out);
      OneAnswerLess(s.phase.batch[0].task, out);
      if e.task.finish.None? {
        RequeuedInTime(s.phase.batch[0].task, e.task, n, room, |s.queue|);
        assert DueInQueue(s', id, |s.queue|, n, room, limit);
      } else {
        assert s'.released[|s.released|] == e;
      }
    }
  }

  lemma ReleasedStays(s: Server, maxBatch: nat, e: Event, id: nat)
    requires IsReleased(s, id)
    ensures IsReleased(Step(s, maxBatch, e), id)
  {
    var i :| 0 <= i < |s.released| && s.released[i].task.id == id;
    assert Step(s, maxBatch, e).released[i] == s.released[i];
  }

  lemma ClosedStep(s: Server, maxBatch: nat, e: Event)
    requires OnlyTasks(s) && Begun(s, maxBatch) && Closed(e)
    ensures OnlyTasks(Step(s, maxBatch, e)) && Tasks(Step(s, maxBatch, e)) <= Tasks(s)
  {
  }

  lemma StepKeepsDue(s: Server, maxBatch: nat, e: Event, id: nat, n: nat, limit: nat)
    requires OnlyTasks(s) && Begun(s, maxBatch) && Tasks(s) <= n && Closed(e)
    requires Due(s, id, n, Room(maxBatch), limit)
    ensures Due(Step(s, maxBatch, e), id, n, Room(maxBatch), limit)
  {
    if IsReleased(s, id) {
      ReleasedStays(s, maxBatch, e, id);
    } else if e.CancelTask? {
      CancelKeepsDue(s, maxBatch, e.id, id, n, Room(maxBatch), limit);
    } else if p: nat :| DueInQueue(s, id, p, n, Room(maxBatch), limit) {
      QueuedKeepsDue(s, maxBatch, e.out, id, p, n, limit);
    } else if i: nat :| DueInBatch(s, id, i, n, Room(maxBatch), limit) {
      BatchedKeepsDue(s, maxBatch, e.out, id, i, n, limit);
    }
  }

  lemma {:induction false} RunKeepsDue(s: Server, maxBatch: nat, events: seq<Event>, id: nat, limit: nat)
    requires OnlyTasks(s) && Begun(s, maxBatch) && (forall i :: 0 <= i < |events| ==> Closed(events[i]))
    requires Due(s, id, Tasks(s), Room(maxBatch), limit)
    ensures
      var t := Run(s, maxBatch, events);
      && OnlyTasks(t) && Begun(t, maxBatch) && Tasks(t) <= Tasks(s)
      && Due(t, id, Tasks(s), Room(maxBatch), limit)
  {
    if events != [] {
      var k := |events| - 1;
      var t := Run(s, maxBatch, events[..k]);
      RunKeepsDue(s, maxBatch, events[..k], id, limit);
      StepBegun(t, maxBatch, events[k]);
      ClosedStep(t, maxBatch, events[k]);
      StepKeepsDue(t, maxBatch, events[k], id, Tasks(s), limit);
    }
  }

  /** The batches that may be filled before the task at position `p` is released. */
  function Deadline(s: Server, maxBatch: nat, p: nat): nat
    requires p < |s.queue| && s.queue[p].Some?
  {
    Later(s.queue[p].value.task, Tasks(s), Room(maxBatch)) + Quotient(p + BatchSize(s.phase), Room(maxBatch)) + 1
  }

  /**
   No task starves: without further submissions the task at position `p` is released by the time
   (k - 1) * cycle + floor((p + b) / room) + 1 more batches have been filled and answered, for the k
   answers it needs and a cycle of floor((n - 1) / room) + 1 batches for all n tasks, however many
   answers the others need.
   */
  lemma ReleasedInTurn(s: Server, maxBatch: nat, events: seq<Event>, p: nat)
    requires OnlyTasks(s) && Begun(s, maxBatch) && (forall i :: 0 <= i < |events| ==> Closed(events[i]))
    requires p < |s.queue|
    ensures
      var t, id := Run(s, maxBatch, events), s.queue[p].value.task.id;
      && (t.rounds > s.rounds + Deadline(s, maxBatch, p) ==> IsReleased(t, id))
      && (t.rounds == s.rounds + Deadline(s, maxBatch, p) && !t.phase.Answering? ==> IsReleased(t, id))
  {
    var id, limit := s.queue[p].value.task.id, s.rounds + Deadline(s, maxBatch, p);
    assert DueInQueue(s, id, p, Tasks(s), Room(maxBatch), limit);
    RunKeepsDue(s, maxBatch, events, id, limit);
  }

  /** Weights that every step of the loop makes smaller: waiting, being collected, being answered. */
  function QueueEffort(q: seq<Item>): nat {
    if q == [] then 0
    else QueueEffort(q[..|q| - 1]) + (if q[|q| - 1].None? then 0 else 8 * AnswersNeeded(q[|q| - 1].value.task))
  }

  function BatchEffort(es: seq<Entry>, stage: nat): int {
    if es == [] then 0 else BatchEffort(es[..|es| - 1], stage) + 8 * AnswersNeeded(es[|es| - 1].task) - stage
  }

  /** An upper bound for the steps of the loop until it has nothing to do. */
  function Effort(s: Server): int {
    QueueEffort(s.queue)
      + match s.phase
        case Filling(batch) => BatchEffort(batch, 3) + 2
        case Answering(batch) => BatchEffort(batch, 4) + 1
        case _ => 0
  }

  lemma {:induction false} QueueEffortHead(q: seq<Item>)
    requires q != []
    ensures QueueEffort(q) == QueueEffort(q[1..]) + (if q[0].None? then 0 else 8 * AnswersNeeded(q[0].value.task))
  {
    if |q| > 1 {
      assert q[1..][..|q| - 2] == q[..|q| - 1][1..];
      QueueEffortHead(q[..|q| - 1]);
    }
  }

  lemma {:induction false} BatchEffortHead(es: seq<Entry>, stage: nat)
    requires es != []
    ensures BatchEffort(es, stage) == BatchEffort(es[1..], stage) + 8 * AnswersNeeded(es[0].task) - stage
  {
    if |es| > 1 {
      assert es[1..][..|es| - 2] == es[..|es| - 1][1..];
      BatchEffortHead(es[..|es| - 1], stage);
    }
  }

  lemma {:induction false} ClosingCosts(es: seq<Entry>)
    ensures BatchEffort(es, 4) == BatchEffort(es, 3) - |es|
  {
    if es != [] {
      ClosingCosts(es[..|es| - 1]);
    }
  }

  lemma {:induction false} BatchEffortPositive(es: seq<Entry>, stage: nat)
    requires stage <= 8
    ensures BatchEffort(es, stage) >= 0
  {
    if es != [] {
      BatchEffortPositive(es[..|es| - 1], stage);
    }
  }

  lemma EffortPositive(s: Server)
    ensures Effort(s) >= 0
    ensures Effort(s) == 0 ==> s.phase.Idle? || s.phase.Stopped?
  {
    BatchEffortPositive(Batch(s.phase), 3);
    BatchEffortPositive(Batch(s.phase), 4);
  }

  lemma {:induction false} CancelKeepsQueueEffort(q: seq<Item>, c: nat)
    ensures QueueEffort(CancelQueued(q, c)) == QueueEffort(q)
  {
    if q != [] {
      assert CancelQueued(q, c)[..|q| - 1] == CancelQueued(q[..|q| - 1], c);
      CancelKeepsQueueEffort(q[..|q| - 1], c);
    }
  }

  lemma {:induction false} CancelKeepsBatchEffort(es: seq<Entry>, c: nat, stage: nat)
    ensures BatchEffort(CancelIn(es, c), stage) == BatchEffort(es, stage)
  {
    if es != [] {
      assert CancelIn(es, c)[..|es| - 1] == CancelIn(es[..|es| - 1], c);
      CancelKeepsBatchEffort(es[..|es| - 1], c, stage);
    }
  }

  lemma CancelKeepsEffort(s: Server, maxBatch: nat, c: nat)
    ensures Effort(Step(s, maxBatch, CancelTask(c))) == Effort(s)
  {
    CancelKeepsQueueEffort(s.queue, c);
    CancelKeepsBatchEffort(Batch(s.phase), c, 3);
    CancelKeepsBatchEffort(Batch(s.phase), c, 4);
  }

  /** The loop has nothing to do. */
  ghost predicate Resting(s: Server) {
    s.phase.Idle? && s.queue == []
  }

  /** Taking a task from the queue into the batch. */
  lemma TakingCosts(q: seq<Item>, batch: seq<Entry>)
    requires q != [] && q[0].Some?
    ensures QueueEffort(q[1..]) + BatchEffort(batch + [q[0].value], 3) == QueueEffort(q) + BatchEffort(batch, 3) - 3
  {
    QueueEffortHead(q);
    assert (batch + [q[0].value])[..|batch|] == batch;
  }

  /** Answering the first task of the batch. */
  lemma AnsweringCosts(q: seq<Item>, batch: seq<Entry>, out: Option<int>)
    requires batch != []
    ensures
      var e := Served(batch[0], out);
      var q' := if e.task.finish.None? then q + [Some(e)] else q;
      QueueEffort(q') + BatchEffort(batch[1..], 4) < QueueEffort(q) + BatchEffort(batch, 4)
  {
    var e := Served(batch[0], out);
    BatchEffortHead(batch, 4);
    OneAnswerLess(batch[0].task, out);
    assert (q + [Some(e)])[..|q|] == q;
  }

  lemma WorkCosts(s: Server, maxBatch: nat, out: Option<int>)
    requires OnlyTasks(s) && Begun(s, maxBatch) && !Resting(s)
    ensures Effort(Work(s, maxBatch, out)) < Effort(s)
  {
    match s.phase
    case Idle =>
      TakingCosts(s.queue, []);
      assert [] + [s.queue[0].value] == [s.queue[0].value];
    case Filling(batch) =>
      if |batch| >= maxBatch || s.queue == [] {
        ClosingCosts(batch);
      } else {
        TakingCosts(s.queue, batch);
      }
    case Answering(batch) =>
      if batch != [] {
        AnsweringCosts(s.queue, batch, out);
      }
  }

  function Steps(events: seq<Event>): nat {
    if events == [] then 0
    else Steps(events[..|events| - 1]) + (if events[|events| - 1].Worker? then 1 else 0)
  }

  lemma {:induction false} RunCosts(s: Server, maxBatch: nat, events: seq<Event>)
    requires OnlyTasks(s) && Begun(s, maxBatch) && (forall i :: 0 <= i < |events| ==> Closed(events[i]))
    ensures
      var t := Run(s, maxBatch, events);
      OnlyTasks(t) && Begun(t, maxBatch) && (Resting(t) || Effort(t) + Steps(events) <= Effort(s))
  {
    if events != [] {
      var k := |events| - 1;
      var t := Run(s, maxBatch, events[..k]);
      RunCosts(s, maxBatch, events[..k]);
      StepBegun(t, maxBatch, events[k]);
      ClosedStep(t, maxBatch, events[k]);
      if events[k].CancelTask? {
        CancelKeepsEffort(t, maxBatch, events[k].id);
      } else if !Resting(t) {
        WorkCosts(t, maxBatch, events[k].out);
      }
    }
  }

  lemma NoMoreSubmissions(events: seq<Event>, id: nat)
    requires forall i :: 0 <= i < |events| ==> Closed(events[i])
    ensures Submissions(events, id) == 0
  {
  }

  lemma {:induction false} PlacesStay(s: Server, maxBatch: nat, events: seq<Event>, id: nat)
    requires forall i :: 0 <= i < |events| ==> Closed(events[i])
    ensures Places(Run(s, maxBatch, events), id) == Places(s, id)
  {
    if events != [] {
      var k := |events| - 1;
      PlacesStay(s, maxBatch, events[..k], id);
      StepConserves(Run(s, maxBatch, events[..k]), maxBatch, events[k], id);
      NoMoreSubmissions([events[k]], id);
    }
  }

  /**
   Without further submissions the loop has released every task after as many steps as the answers
   needed by all tasks allow, cancellations between them not counted.
   */
  lemma AllReleased(s: Server, maxBatch: nat, events: seq<Event>, id: nat)
    requires OnlyTasks(s) && Begun(s, maxBatch) && (forall i :: 0 <= i < |events| ==> Closed(events[i]))
    requires Steps(events) >= Effort(s)
    ensures
      var t := Run(s, maxBatch, events);
      Resting(t) && Among(t.released, id) == Places(s, id)
  {
    var t := Run(s, maxBatch, events);
    RunCosts(s, maxBatch, events);
    PlacesStay(s, maxBatch, events, id);
    EffortPositive(t);
    if t.queue != [] && !Resting(t) {
      QueueEffortHead(t.queue);
    }
  }

  // ---- shutdown ----

  /** Up to the first sentinel, every batch takes exactly what it has room for. */
  ghost predicate Exact(s: Server, t: Server, maxBatch: nat) {
    && s.taken <= t.taken && s.rounds <= t.rounds && !t.phase.Stopped? && Begun(t, maxBatch)
    && t.taken - s.taken + BatchSize(s.phase)
         == Times(t.rounds - s.rounds, Room(maxBatch)) + BatchSize(t.phase)
  }

  predicate FirstSentinel(q: seq<Item>, p: nat) {
    p < |q| && q[p].None? && forall i :: 0 <= i < p ==> q[i].Some?
  }

  lemma StepExact(s: Server, t: Server, maxBatch: nat, e: Event, p: nat)
    requires Exact(s, t, maxBatch) && t.queue != [] && (t.taken - s.taken < p ==> t.queue[0].Some?)
    requires Step(t, maxBatch, e).taken - s.taken <= p
    ensures Exact(s, Step(t, maxBatch, e), maxBatch)
  {
    FillsWhole(t.rounds - s.rounds, Room(maxBatch));
  }

  lemma StepTakes(t: Server, maxBatch: nat, e: Event)
    ensures t.taken <= Step(t, maxBatch, e).taken <= t.taken + 1
  {
  }

  lemma {:induction false} RunExact(s: Server, maxBatch: nat, events: seq<Event>, p: nat)
    requires Begun(s, maxBatch) && FirstSentinel(s.queue, p) && !s.phase.Stopped?
    requires Run(s, maxBatch, events).taken - s.taken <= p
    ensures Exact(s, Run(s, maxBatch, events), maxBatch)
  {
    if events != [] {
      var before, e := events[..|events| - 1], events[|events| - 1];
      var t := Run(s, maxBatch, before);
      StepTakes(t, maxBatch, e);
      RunExact(s, maxBatch, before, p);
      RunFollows(s, maxBatch, before, t.taken - s.taken);
      StepExact(s, t, maxBatch, e, p);
    }
  }

  /** The sentinel is next: the loop is idle, or in the middle of a batch, according to how many items were ahead. */
  lemma SentinelNext(s: Server, maxBatch: nat, events: seq<Event>, p: nat)
    requires Begun(s, maxBatch) && FirstSentinel(s.queue, p) && !s.phase.Stopped?
    requires Run(s, maxBatch, events).taken - s.taken == p
    ensures
      var t := Run(s, maxBatch, events);
      && t.queue != [] && t.queue[0].None? && !t.phase.Stopped? && t.rounds >= s.rounds && Begun(t, maxBatch)
      && p + BatchSize(s.phase) == Times(t.rounds - s.rounds, Room(maxBatch)) + BatchSize(t.phase)
  {
    RunExact(s, maxBatch, events, p);
    RunFollows(s, maxBatch, events, p);
  }

  lemma StopsWhenIdle(t: Server, maxBatch: nat, e: Event)
    requires t.queue != [] && t.queue[0].None? && !t.phase.Stopped? && Step(t, maxBatch, e).taken == t.taken + 1
    ensures t.phase.Idle? || (t.phase.Filling? && |t.phase.batch| < maxBatch)
    ensures Step(t, maxBatch, e).phase.Stopped? <==> t.phase.Idle?
  {
  }

  /**
   The shutdown sentinel ends the loop exactly when the items ahead of it, with those of the batch that
   is being filled, make whole batches. Anywhere else it is taken in the middle of a batch and dropped,
   and the loop goes on.
   */
  lemma SentinelStopsExactly(s: Server, maxBatch: nat, events: seq<Event>, e: Event, p: nat)
    requires Begun(s, maxBatch) && FirstSentinel(s.queue, p) && !s.phase.Stopped?
    requires Run(s, maxBatch, events).taken - s.taken == p
    requires Run(s, maxBatch, events + [e]).taken - s.taken == p + 1
    ensures Run(s, maxBatch, events + [e]).phase.Stopped? <==> (p + BatchSize(s.phase)) % Room(maxBatch) == 0
  {
    StepMore(s, maxBatch, events, e);
    SentinelStep(s, maxBatch, events, e, p);
  }

  lemma SentinelStep(s: Server, maxBatch: nat, events: seq<Event>, e: Event, p: nat)
    requires Begun(s, maxBatch) && FirstSentinel(s.queue, p) && !s.phase.Stopped?
    requires Run(s, maxBatch, events).taken - s.taken == p
    requires Step(Run(s, maxBatch, events), maxBatch, e).taken - s.taken == p + 1
    ensures Step(Run(s, maxBatch, events), maxBatch, e).phase.Stopped?
       <==> (p + BatchSize(s.phase)) % Room(maxBatch) == 0
  {
    SentinelNext(s, maxBatch, events, p);
    var t := Run(s, maxBatch, events);
    StopsOnWhole(t, maxBatch, e, p + BatchSize(s.phase), t.rounds - s.rounds);
  }

  lemma StopsOnWhole(t: Server, maxBatch: nat, e: Event, items: nat, rounds: nat)
    requires t.queue != [] && t.queue[0].None? && !t.phase.Stopped? && Step(t, maxBatch, e).taken == t.taken + 1
    requires Begun(t, maxBatch) && items == Times(rounds, Room(maxBatch)) + BatchSize(t.phase)
    ensures Step(t, maxBatch, e).phase.Stopped? <==> items % Room(maxBatch) == 0
  {
    StopsWhenIdle(t, maxBatch, e);
    WholeBatches(items, rounds, Room(maxBatch), BatchSize(t.phase));
  }

  lemma WholeBatches(items: nat, rounds: nat, room: nat, started: nat)
    requires items == Times(rounds, room) + started && started < room
    ensures items % room == 0 <==> started == 0
  {
    DivModUnique(items, room, rounds, started);
  }

  /** A sentinel with nothing ahead of it in the queue is dropped when it comes while a batch is being filled. */
  lemma MidFillSentinelDropped(a: Task) returns (before: seq<Event>)
    ensures
      var s, t := Run(NEW_SERVER, 2, before), Run(NEW_SERVER, 2, before + [Worker(None)]);
      s.queue == [None] && t.queue == [] && t.phase == Filling([NewEntry(a)])
  {
    before := OneTaken(a);
    RunSnoc(2, before, Shutdown);
    before := before + [Shutdown];
    RunSnoc(2, before, Worker(None));
  }

  /** Without another sentinel the loop then never ends. */
  lemma {:induction false} NeverStops(s: Server, maxBatch: nat, events: seq<Event>)
    requires !s.phase.Stopped? && (forall i :: 0 <= i < |s.queue| ==> s.queue[i].Some?)
    requires forall i :: 0 <= i < |events| ==> !events[i].Shutdown?
    ensures
      var t := Run(s, maxBatch, events);
      !t.phase.Stopped? && forall i :: 0 <= i < |t.queue| ==> t.queue[i].Some?
  {
    if events != [] {
      NeverStops(s, maxBatch, events[..|events| - 1]);
    }
  }

  lemma FourSteps(s: Server, maxBatch: nat, a: Event, b: Event, c: Event, d: Event)
    ensures Run(s, maxBatch, [a, b, c, d])
         == Step(Step(Step(Step(s, maxBatch, a), maxBatch, b), maxBatch, c), maxBatch, d)
  {
    assert [a, b, c, d][..3] == [a, b, c] && [a, b, c][..2] == [a, b] && [a, b][..1] == [a];
    OneStep(s, maxBatch, a);
    assert Run(s, maxBatch, [a, b]) == Step(Run(s, maxBatch, [a]), maxBatch, b);
    assert Run(s, maxBatch, [a, b, c]) == Step(Run(s, maxBatch, [a, b]), maxBatch, c);
  }

  /**
   One task ahead of the sentinel and room in its batch: the sentinel is taken and dropped, and the loop
   never ends.
   */
  lemma SentinelDropped(t: Task, events: seq<Event>)
    requires forall i :: 0 <= i < |events| ==> !events[i].Shutdown?
    ensures
      var s := Run(NEW_SERVER, 4, [Submit(t), Shutdown, Worker(None), Worker(None)]);
      s.taken == 2 && s.queue == [] && s.phase == Filling([NewEntry(t)]) && !Run(s, 4, events).phase.Stopped?
  {
    FourSteps(NEW_SERVER, 4, Submit(t), Shutdown, Worker(None), Worker(None));
    NeverStops(Run(NEW_SERVER, 4, [Submit(t), Shutdown, Worker(None), Worker(None)]), 4, events);
  }
}
