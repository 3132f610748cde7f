/**
 The job mailbox between the engine and its rank workers (csrc/engine/rank_worker.cpp,
 csrc/engine/infer_engine.cpp): critical sections of the mutex as atomic steps, interleaved in
 every way.
 */
module RankMailbox {
  import opened Results

  datatype Command = Load | LoadBatch | Preprocess | Run | ResetCache | Compile

  /** One submitted job; `id` tells two submissions apart. */
  datatype Job = Job(id: nat, cmd: Command, input: int)

  /** What the worker thread is doing. */
  datatype Thread = Idle | Busy(job: Job) | Gone

  datatype Outcome = Outcome(job: Job, ok: bool)

  /** The flags and payload guarded by the mutex, the thread, and the executions that have ended. */
  datatype Worker = Worker(hasJob: bool, jobDone: bool, shouldExit: bool, pending: Option<Job>,
                           output: Option<int>, thread: Thread, log: seq<Outcome>)

  function NewWorker(): Worker {
    Worker(false, false, false, None, None, Idle, [])
  }

  /** The output of a forward pass and sampling, as far as this model looks into it. */
  function Compute(input: int): int {
    input
  }

  // ---- the critical sections ----

  /** `run`, `compile`, `reset_cache`, `load_param`...: refused once the worker is to exit. */
  function Submit(w: Worker, job: Job): Worker
    requires !w.shouldExit
  {
    w.(pending := Some(job), hasJob := true, jobDone := false)
  }

  predicate CanTake(w: Worker) {
    w.thread.Idle? && w.hasJob && w.pending.Some? && !w.shouldExit
  }

  function Take(w: Worker): Worker
    requires CanTake(w)
  {
    w.(thread := Busy(w.pending.value), hasJob := false, jobDone := false)
  }

  /** Rank 0 stores the output of a run in the same critical section that reports the job done. */
  function Finish(w: Worker, rank: nat): Worker
    requires w.thread.Busy?
  {
    var job := w.thread.job;
    w.(thread := Idle, jobDone := true, log := w.log + [Outcome(job, true)],
       output := if job.cmd.Run? && rank == 0 then Some(Compute(job.input)) else w.output)
  }

  /** An exception sets both flags in one critical section and ends the thread. */
  function Fail(w: Worker): Worker
    requires w.thread.Busy?
  {
    w.(thread := Gone, shouldExit := true, jobDone := true, log := w.log + [Outcome(w.thread.job, false)])
  }

  function Close(w: Worker): Worker {
    w.(shouldExit := true, hasJob := false, pending := None)
  }

  predicate CanLeaveLoop(w: Worker) {
    w.thread.Idle? && w.shouldExit
  }

  function LeaveLoop(w: Worker): Worker
    requires CanLeaveLoop(w)
  {
    w.(thread := Gone)
  }

  /** The condition that `wait` waits for; it then throws if the worker is to exit. */
  predicate CanWake(w: Worker) {
    w.jobDone || w.shouldExit
  }

  class RankWorker {
    const rank: nat
    var state: Worker

    constructor (rank: nat)
      ensures this.rank == rank && state == NewWorker()
    {
      this.rank, state := rank, NewWorker();
    }

    /** `false` is the exception for a worker that is closing. */
    method SubmitJob(job: Job) returns (ok: bool)
      modifies this
      ensures ok <==> !old(state).shouldExit
      ensures state == if ok then Submit(old(state), job) else old(state)
      ensures ok && Quiet(old(state)) && NotRun(old(state), job) ==> Carries(state, rank, job)
    {
      if state.shouldExit {
        return false;
      }
      state := state.(pending := Some(job));
      state := state.(hasJob := true);
      state := state.(jobDone := false);
      return true;
    }

    /** One round of the worker loop, when it is enabled, with the job's outcome as the environment decides it. */
    method Round(fails: bool)
      modifies this
      ensures state ==
        if CanLeaveLoop(old(state)) then LeaveLoop(old(state))
        else if CanTake(old(state)) then (if fails then Fail(Take(old(state))) else Finish(Take(old(state)), rank))
        else old(state)
      ensures forall job :: CanTake(old(state)) && Carries(old(state), rank, job) ==>
                if fails then state.shouldExit && CanWake(state) && state.log == old(state).log + [Outcome(job, false)]
                else !state.shouldExit && CanWake(state) && Delivered(state, rank, job)
    {
      if state.thread.Idle? && state.shouldExit {
        state := state.(thread := Gone);
      } else if state.thread.Idle? && state.hasJob && state.pending.Some? {
        var job := state.pending.value;
        state := state.(hasJob := false, jobDone := false, thread := Busy(job));
        if fails {
          var log := state.log + [Outcome(job, false)];
          state := state.(shouldExit := true, jobDone := true, thread := Gone, log := log);
        } else {
          if job.cmd.Run? && rank == 0 {
            state := state.(output := Some(Compute(job.input)));
          }
          state := state.(jobDone := true, thread := Idle, log := state.log + [Outcome(job, true)]);
        }
      }
    }
  }

  // ---- the engine as the only client ----

  /**
   Where the engine stands in a call: one that submits to every worker and then waits for every worker,
   or one that submits to a worker and waits for it before it goes on to the next.
   */
  datatype Client =
    | Free
    | Submitting(job: Job, next: nat)
    | Awaiting(job: Job, next: nat)
    | OneByOne(job: Job, next: nat, submitted: bool)

  /** A returned call with the output that it delivered, or an exception. */
  datatype Reply = Returned(job: Job, output: Option<int>) | Threw(job: Job)

  datatype Engine = Engine(workers: seq<Worker>, client: Client, nextId: nat, replies: seq<Reply>)

  function NewEngine(n: nat): Engine {
    Engine(seq(n, _ => NewWorker()), Free, 0, [])
  }

  /** Forward, compile and cache reset go to all workers at once, parameters and preprocessing to one after another. */
  ghost predicate Begin(e: Engine, e': Engine, cmd: Command, input: int) {
    && e.client.Free?
    && var job := Job(e.nextId, cmd, input);
       var oneByOne := cmd.Load? || cmd.LoadBatch? || cmd.Preprocess?;
       var client := if oneByOne then OneByOne(job, 0, false) else Submitting(job, 0);
       e' == e.(client := client, nextId := e.nextId + 1)
  }

  /** Submit to the next worker, throw if it is closing, and start to wait after the last one. */
  ghost predicate SubmitNext(e: Engine, e': Engine) {
    && e.client.Submitting?
    && var Submitting(job, i) := e.client;
       if i >= |e.workers| then e' == e.(client := Awaiting(job, 0))
       else if e.workers[i].shouldExit then e' == e.(client := Free, replies := e.replies + [Threw(job)])
       else e' == e.(workers := e.workers[i := Submit(e.workers[i], job)], client := Submitting(job, i + 1))
  }

  /** Wait for the next worker, throw if it is to exit, and return after the last; forward returns rank 0's output. */
  ghost predicate AwaitNext(e: Engine, e': Engine) {
    && e.client.Awaiting?
    && var Awaiting(job, i) := e.client;
       if i >= |e.workers| then
         && (job.cmd.Run? ==> |e.workers| > 0)
         && var output := if job.cmd.Run? then e.workers[0].output else None;
            e' == e.(client := Free, replies := e.replies + [Returned(job, output)])
       else
         && CanWake(e.workers[i])
         && e' == if e.workers[i].shouldExit then e.(client := Free, replies := e.replies + [Threw(job)])
                  else e.(client := Awaiting(job, i + 1))
  }

  /** Submit to the next worker or wait for it, throw if it is to exit, and return after the last one. */
  ghost predicate OneByOneNext(e: Engine, e': Engine) {
    && e.client.OneByOne?
    && var OneByOne(job, i, submitted) := e.client;
       if i >= |e.workers| then e' == e.(client := Free, replies := e.replies + [Returned(job, None)])
       else
         && (submitted ==> CanWake(e.workers[i]))
         && e' == if e.workers[i].shouldExit then e.(client := Free, replies := e.replies + [Threw(job)])
                  else if submitted then e.(client := OneByOne(job, i + 1, false))
                  else e.(workers := e.workers[i := Submit(e.workers[i], job)], client := OneByOne(job, i, true))
  }

  /** A step of worker r's thread, or its closing by another owner. */
  ghost predicate WorkerStep(w: Worker, w': Worker, r: nat) {
    || (CanTake(w) && w' == Take(w))
    || (w.thread.Busy? && w' == Finish(w, r))
    || (w.thread.Busy? && w' == Fail(w))
    || (CanLeaveLoop(w) && w' == LeaveLoop(w))
    || w' == Close(w)
  }

  ghost predicate ThreadStep(e: Engine, e': Engine, r: nat) {
    && r < |e.workers| == |e'.workers|
    && WorkerStep(e.workers[r], e'.workers[r], r)
    && e' == e.(workers := e.workers[r := e'.workers[r]])
  }

  ghost predicate Next(e: Engine, e': Engine) {
    || (exists cmd: Command, input: int :: Begin(e, e', cmd, input))
    || SubmitNext(e, e') || AwaitNext(e, e') || OneByOneNext(e, e')
    || exists r: nat :: ThreadStep(e, e', r)
  }

  ghost predicate RunOf(engines: seq<Engine>, n: nat) {
    && engines != [] && engines[0] == NewEngine(n)
    && forall i :: 0 <= i < |engines| - 1 ==> Next(engines[i], engines[i + 1])
  }

  // ---- what every run keeps ----

  ghost predicate NotRun(w: Worker, job: Job) {
    forall i :: 0 <= i < |w.log| ==> w.log[i].job != job
  }

  /** The job ended once, with success, and was the last to end. */
  ghost predicate RanOnce(w: Worker, job: Job) {
    && w.log != [] && w.log[|w.log| - 1] == Outcome(job, true)
    && forall i :: 0 <= i < |w.log| - 1 ==> w.log[i].job != job
  }

  ghost predicate Quiet(w: Worker) {
    w.thread.Idle? && !w.hasJob
  }

  /** The job is pending, executing or done. */
  ghost predicate Carries(w: Worker, r: nat, job: Job) {
    || (w.thread.Idle? && w.hasJob && w.pending == Some(job) && !w.jobDone && NotRun(w, job))
    || (w.thread == Busy(job) && !w.hasJob && !w.jobDone && NotRun(w, job))
    || (w.thread.Idle? && !w.hasJob && w.jobDone && Delivered(w, r, job))
  }

  /** The job is done, and nothing has run or will run after it before the next submission. */
  ghost predicate Delivered(w: Worker, r: nat, job: Job) {
    && RanOnce(w, job) && !w.hasJob && (w.thread.Idle? || (w.thread.Gone? && w.shouldExit))
    && (job.cmd.Run? && r == 0 ==> w.output == Some(Compute(job.input)))
  }

  /** No execution has used an id that is still to be given out. */
  ghost predicate IdsUsed(w: Worker, nextId: nat) {
    && (forall i :: 0 <= i < |w.log| ==> w.log[i].job.id < nextId)
    && (w.thread.Busy? ==> w.thread.job.id < nextId)
    && (w.pending.Some? ==> w.pending.value.id < nextId)
  }

  /** Every worker that is not to exit is where the client's call needs it to be. */
  ghost predicate Orderly(e: Engine) {
    match e.client
    case Free => forall r :: 0 <= r < |e.workers| ==> e.workers[r].shouldExit || Quiet(e.workers[r])
    case Submitting(job, next) =>
      && next <= |e.workers|
      && (forall r :: 0 <= r < next ==> e.workers[r].shouldExit || Carries(e.workers[r], r, job))
      && forall r :: next <= r < |e.workers| ==>
          e.workers[r].shouldExit || (Quiet(e.workers[r]) && NotRun(e.workers[r], job))
    case Awaiting(job, next) =>
      && next <= |e.workers|
      && (forall r :: 0 <= r < next ==> Delivered(e.workers[r], r, job))
      && forall r :: next <= r < |e.workers| ==> e.workers[r].shouldExit || Carries(e.workers[r], r, job)
    case OneByOne(job, next, submitted) =>
      && next <= |e.workers| && (submitted ==> next < |e.workers|)
      && (forall r :: 0 <= r < next ==> Delivered(e.workers[r], r, job))
      && (submitted ==> e.workers[next].shouldExit || Carries(e.workers[next], next, job))
      && forall r :: next <= r < |e.workers| && !(submitted && r == next) ==>
           e.workers[r].shouldExit || (Quiet(e.workers[r]) && NotRun(e.workers[r], job))
  }

  /** After an exception some worker is to exit, and no later call gets past submitting to it. */
  ghost predicate Barred(e: Engine, d: nat) {
    && d < |e.workers| && e.workers[d].shouldExit
    && !e.client.Awaiting? && (!e.client.Free? ==> e.client.next <= d)
  }

  ghost predicate Inv(e: Engine) {
    && (forall r :: 0 <= r < |e.workers| ==> IdsUsed(e.workers[r], e.nextId))
    && (!e.client.Free? ==> e.client.job.id < e.nextId)
    && (Orderly(e) || exists d: nat :: Barred(e, d))
  }

  lemma ThreadKeepsWorker(w: Worker, w': Worker, r: nat, job: Job, nextId: nat)
    requires WorkerStep(w, w', r)
    ensures w.shouldExit ==> w'.shouldExit
    ensures IdsUsed(w, nextId) ==> IdsUsed(w', nextId)
    ensures Quiet(w) && NotRun(w, job) ==> w'.shouldExit || (Quiet(w') && NotRun(w', job))
    ensures Quiet(w) ==> w'.shouldExit || Quiet(w')
    ensures Carries(w, r, job) ==> w'.shouldExit || Carries(w', r, job)
    ensures Delivered(w, r, job) ==> Delivered(w', r, job)
  {
  }

  lemma ThreadKeepsInv(e: Engine, e': Engine, r: nat)
    requires Inv(e) && ThreadStep(e, e', r)
    ensures Inv(e')
  {
    var w, w' := e.workers[r], e'.workers[r];
    var job := if e.client.Free? then Job(0, Load, 0) else e.client.job;
    ThreadKeepsWorker(w, w', r, job, e.nextId);
    if d: nat :| Barred(e, d) {
      assert Barred(e', d);
    }
  }

  lemma BeginKeepsInv(e: Engine, e': Engine, cmd: Command, input: int)
    requires Inv(e) && Begin(e, e', cmd, input)
    ensures Inv(e')
  {
    if d: nat :| Barred(e, d) {
      assert Barred(e', d);
    }
  }

  lemma SubmitKeepsInv(e: Engine, e': Engine)
    requires Inv(e) && SubmitNext(e, e')
    ensures Inv(e')
  {
    var Submitting(job, i) := e.client;
    if d: nat :| Barred(e, d) {
      assert Barred(e', d);
    } else if i < |e.workers| && e.workers[i].shouldExit {
      assert Barred(e', i);
    }
  }

  lemma AwaitKeepsInv(e: Engine, e': Engine)
    requires Inv(e) && AwaitNext(e, e')
    ensures Inv(e')
  {
    var Awaiting(job, i) := e.client;
    assert forall d: nat :: !Barred(e, d);
    if i < |e.workers| && e.workers[i].shouldExit {
      assert Barred(e', i);
    }
  }

  lemma OneByOneKeepsInv(e: Engine, e': Engine)
    requires Inv(e) && OneByOneNext(e, e')
    ensures Inv(e')
  {
    var OneByOne(job, i, submitted) := e.client;
    if d: nat :| Barred(e, d) {
      assert Barred(e', d);
    } else if i < |e.workers| && e.workers[i].shouldExit {
      assert Barred(e', i);
    }
  }

  lemma {:induction false} RunsKeepInv(engines: seq<Engine>, n: nat)
    requires RunOf(engines, n)
    ensures Inv(engines[|engines| - 1]) && |engines[|engines| - 1].workers| == n
  {
    if |engines| > 1 {
      var k := |engines| - 1;
      RunsKeepInv(engines[..k], n);
      var e, e' := engines[k - 1], engines[k];
      assert Next(e, e');
      if cmd: Command, input: int :| Begin(e, e', cmd, input) {
        BeginKeepsInv(e, e', cmd, input);
      } else if SubmitNext(e, e') {
        SubmitKeepsInv(e, e');
      } else if AwaitNext(e, e') {
        AwaitKeepsInv(e, e');
      } else if OneByOneNext(e, e') {
        OneByOneKeepsInv(e, e');
      } else {
        var r: nat :| ThreadStep(e, e', r);
        ThreadKeepsInv(e, e', r);
      }
    }
  }

  /** The step in which a call returns normally. */
  ghost predicate Returns(e: Engine, e': Engine) {
    (AwaitNext(e, e') || OneByOneNext(e, e')) && e.client.next >= |e.workers|
  }

  /**
   In every run, when a call returns normally, every worker has executed its job exactly once,
   with success, as its latest execution; a forward call delivers the output computed from its
   input, and no other call delivers one.
   */
  lemma ReturnMeansDone(engines: seq<Engine>, n: nat, e': Engine)
    requires RunOf(engines, n) && Returns(engines[|engines| - 1], e')
    ensures
      var e := engines[|engines| - 1];
      var job := e.client.job;
      && |e.workers| == n && (forall r :: 0 <= r < n ==> RanOnce(e.workers[r], job))
      && e'.replies == e.replies + [Returned(job, if job.cmd.Run? then Some(Compute(job.input)) else None)]
  {
    RunsKeepInv(engines, n);
    RunsKeepKinds(engines, n);
    NotBarredAtReturn(engines[|engines| - 1], e');
  }

  /** Which commands the client is working on in which way. */
  ghost predicate Kinds(e: Engine) {
    match e.client
    case Free => true
    case OneByOne(job, _, _) => job.cmd in {Load, LoadBatch, Preprocess}
    case _ => e.client.job.cmd in {Run, ResetCache, Compile}
  }

  lemma {:induction false} RunsKeepKinds(engines: seq<Engine>, n: nat)
    requires RunOf(engines, n)
    ensures Kinds(engines[|engines| - 1])
  {
    if |engines| > 1 {
      var k := |engines| - 1;
      RunsKeepKinds(engines[..k], n);
      assert Next(engines[k - 1], engines[k]);
    }
  }

  /** Replies with an output are those of forward calls, and the output is computed from the call's input. */
  ghost predicate OutputsRight(e: Engine) {
    forall i :: 0 <= i < |e.replies| && e.replies[i].Returned? ==>
      e.replies[i].output == if e.replies[i].job.cmd.Run? then Some(Compute(e.replies[i].job.input)) else None
  }

  /** In every run, every forward call that returns has returned its own output. */
  lemma {:induction false} RunsKeepOutputs(engines: seq<Engine>, n: nat)
    requires RunOf(engines, n)
    ensures OutputsRight(engines[|engines| - 1])
  {
    if |engines| > 1 {
      var k := |engines| - 1;
      var e, e' := engines[k - 1], engines[k];
      RunsKeepOutputs(engines[..k], n);
      NewReply(e, e');
      if Returns(e, e') {
        ReturnMeansDone(engines[..k], n, e');
      }
    }
  }

  /** The job is pending at the worker or being executed by it. */
  predicate Holds(w: Worker, job: Job) {
    w.thread == Busy(job) || (w.hasJob && w.pending == Some(job))
  }

  /**
   Parameters and preprocessing go from worker to worker: while no worker is to exit, no two of them hold
   the same such job.
   */
  lemma OneByOneAlone(engines: seq<Engine>, n: nat, r: nat, q: nat, job: Job)
    requires RunOf(engines, n) && r < q < |engines[|engines| - 1].workers|
    requires forall w :: w in engines[|engines| - 1].workers ==> !w.shouldExit
    requires job.cmd in {Load, LoadBatch, Preprocess}
    ensures !Holds(engines[|engines| - 1].workers[r], job) || !Holds(engines[|engines| - 1].workers[q], job)
  {
    RunsKeepInv(engines, n);
    RunsKeepKinds(engines, n);
    assert Orderly(engines[|engines| - 1]);
  }

  lemma RunSnoc(engines: seq<Engine>, n: nat, e: Engine) returns (longer: seq<Engine>)
    requires RunOf(engines, n) && Next(engines[|engines| - 1], e)
    ensures longer == engines + [e] && RunOf(longer, n)
  {
    longer := engines + [e];
    forall i | 0 <= i < |longer| - 1
      ensures Next(longer[i], longer[i + 1])
    {
      assert i < |engines| - 1 ==> Next(engines[i], engines[i + 1]);
    }
  }

  /** Forward, compile and cache reset go to all workers before any is waited for: two of them can work at once. */
  lemma BusyTogether(n: nat, cmd: Command, input: int) returns (engines: seq<Engine>)
    requires n >= 2 && cmd in {Run, ResetCache, Compile}
    ensures RunOf(engines, n)
    ensures
      var e := engines[|engines| - 1];
      |e.workers| == n && e.workers[0].thread == e.workers[1].thread == Busy(Job(0, cmd, input))
  {
    var job := Job(0, cmd, input);
    var e0 := NewEngine(n);
    var e1 := e0.(client := Submitting(job, 0), nextId := 1);
    assert Begin(e0, e1, cmd, input);
    engines := RunSnoc([e0], n, e1);
    var e2 := e1.(workers := e1.workers[0 := Submit(e1.workers[0], job)], client := Submitting(job, 1));
    assert SubmitNext(e1, e2);
    engines := RunSnoc(engines, n, e2);
    var e3 := e2.(workers := e2.workers[1 := Submit(e2.workers[1], job)], client := Submitting(job, 2));
    assert SubmitNext(e2, e3);
    engines := RunSnoc(engines, n, e3);
    var e4 := e3.(workers := e3.workers[0 := Take(e3.workers[0])]);
    assert ThreadStep(e3, e4, 0);
    engines := RunSnoc(engines, n, e4);
    var e5 := e4.(workers := e4.workers[1 := Take(e4.workers[1])]);
    assert ThreadStep(e4, e5, 1);
    engines := RunSnoc(engines, n, e5);
  }

  /** After an exception they can: the end of a forward job still being executed is taken for that of the load. */
  lemma OneByOneOverlap() returns (engines: seq<Engine>, job: Job)
    ensures RunOf(engines, 3) && job.cmd.Load?
    ensures var e := engines[|engines| - 1]; |e.workers| == 3 && Holds(e.workers[0], job) && Holds(e.workers[1], job)
  {
    var e: Engine;
    engines, e := OneStillBusy();
    job := Job(1, Load, 0);
    var e1 := e.(client := OneByOne(job, 0, false), nextId := 2);
    assert Begin(e, e1, Load, 0);
    engines := RunSnoc(engines, 3, e1);
    var e2 := e1.(workers := e1.workers[0 := Submit(e1.workers[0], job)], client := OneByOne(job, 0, true));
    assert OneByOneNext(e1, e2);
    engines := RunSnoc(engines, 3, e2);
    var e3 := e2.(workers := e2.workers[0 := Finish(e2.workers[0], 0)]);
    assert ThreadStep(e2, e3, 0);
    engines := RunSnoc(engines, 3, e3);
    var e4 := e3.(client := OneByOne(job, 1, false));
    assert OneByOneNext(e3, e4);
    engines := RunSnoc(engines, 3, e4);
    var e5 := e4.(workers := e4.workers[1 := Submit(e4.workers[1], job)], client := OneByOne(job, 1, true));
    assert OneByOneNext(e4, e5);
    engines := RunSnoc(engines, 3, e5);
  }

  /** A forward call that threw because worker 2 was closed, while worker 0 is executing its job. */
  lemma OneStillBusy() returns (engines: seq<Engine>, e: Engine)
    ensures RunOf(engines, 3) && e == engines[|engines| - 1]
    ensures e.client.Free? && e.nextId == 1 && |e.workers| == 3
    ensures e.workers[0].thread == Busy(Job(0, Run, 0)) && !e.workers[0].shouldExit && !e.workers[1].shouldExit
  {
    var job := Job(0, Run, 0);
    var e0 := NewEngine(3);
    var e1 := e0.(client := Submitting(job, 0), nextId := 1);
    assert Begin(e0, e1, Run, 0);
    engines := RunSnoc([e0], 3, e1);
    var e2 := e1.(workers := e1.workers[0 := Submit(e1.workers[0], job)], client := Submitting(job, 1));
    assert SubmitNext(e1, e2);
    engines := RunSnoc(engines, 3, e2);
    var e3 := e2.(workers := e2.workers[0 := Take(e2.workers[0])]);
    assert ThreadStep(e2, e3, 0);
    engines := RunSnoc(engines, 3, e3);
    var e4 := e3.(workers := e3.workers[1 := Submit(e3.workers[1], job)], client := Submitting(job, 2));
    assert SubmitNext(e3, e4);
    engines := RunSnoc(engines, 3, e4);
    var e5 := e4.(workers := e4.workers[2 := Close(e4.workers[2])]);
    assert ThreadStep(e4, e5, 2);
    engines := RunSnoc(engines, 3, e5);
    e := e5.(client := Free, replies := e5.replies + [Threw(job)]);
    assert SubmitNext(e5, e);
    engines := RunSnoc(engines, 3, e);
  }

  lemma NotBarredAtReturn(e: Engine, e': Engine)
    requires Inv(e) && Returns(e, e')
    ensures Orderly(e) && forall r :: 0 <= r < |e.workers| ==> Delivered(e.workers[r], r, e.client.job)
  {
    assert forall d: nat :: !Barred(e, d);
  }

  // ---- progress ----

  /** Work that has been submitted leaves a trace: it is pending, executing or done, or the worker is to exit. */
  ghost predicate Traced(w: Worker) {
    && (w.hasJob ==> w.pending.Some?) && (w.thread.Gone? ==> w.shouldExit)
    && (w.pending.Some? ==> w.hasJob || w.thread.Busy? || w.jobDone || w.shouldExit)
  }

  /** The client has submitted to worker r and waits for it next, or later. */
  predicate AskedOf(c: Client, r: nat) {
    match c
    case Free => false
    case Submitting(_, next) => r < next
    case Awaiting(_, next) => true
    case OneByOne(_, next, submitted) => r < next || (r == next && submitted)
  }

  ghost predicate AllTraced(e: Engine) {
    forall r :: 0 <= r < |e.workers| ==>
      && Traced(e.workers[r])
      && (AskedOf(e.client, r) ==> e.workers[r].pending.Some? || e.workers[r].shouldExit)
  }

  lemma WorkerKeepsTrace(w: Worker, w': Worker, r: nat)
    requires Traced(w) && WorkerStep(w, w', r)
    ensures Traced(w') && (w.pending.Some? || w.shouldExit ==> w'.pending.Some? || w'.shouldExit)
  {
  }

  lemma ThreadKeepsTraced(e: Engine, e': Engine, r: nat)
    requires AllTraced(e) && ThreadStep(e, e', r)
    ensures AllTraced(e')
  {
    WorkerKeepsTrace(e.workers[r], e'.workers[r], r);
  }

  lemma ClientKeepsTraced(e: Engine, e': Engine)
    requires AllTraced(e) && (SubmitNext(e, e') || AwaitNext(e, e') || OneByOneNext(e, e'))
    ensures AllTraced(e')
  {
  }

  lemma StepKeepsTraced(e: Engine, e': Engine)
    requires AllTraced(e) && Next(e, e')
    ensures AllTraced(e')
  {
    if SubmitNext(e, e') || AwaitNext(e, e') || OneByOneNext(e, e') {
      ClientKeepsTraced(e, e');
    } else if r: nat :| ThreadStep(e, e', r) {
      ThreadKeepsTraced(e, e', r);
    }
  }

  lemma {:induction false} RunsKeepTraced(engines: seq<Engine>, n: nat)
    requires RunOf(engines, n)
    ensures AllTraced(engines[|engines| - 1])
  {
    if |engines| > 1 {
      var k := |engines| - 1;
      RunsKeepTraced(engines[..k], n);
      StepKeepsTraced(engines[k - 1], engines[k]);
    }
  }

  /** The worker that the client waits for. */
  predicate WaitsFor(c: Client, r: nat) {
    (c.Awaiting? && c.next == r) || (c.OneByOne? && c.next == r && c.submitted)
  }

  /** A step of a worker's thread: taking a job, ending it or leaving the loop. */
  predicate ThreadCanStep(w: Worker) {
    CanTake(w) || w.thread.Busy? || CanLeaveLoop(w)
  }

  /** Steps that a worker's thread can take before the wait for it can wake. */
  function StepsToWake(w: Worker): nat {
    if CanWake(w) then 0 else if w.thread.Busy? then 1 else 2
  }

  /**
   In every run, while a call waits for a worker, the wait can wake or the worker's thread has a step;
   and every step that its thread takes before brings the waking closer, whatever the job does.
   */
  lemma WaitProgresses(engines: seq<Engine>, n: nat, r: nat)
    requires RunOf(engines, n)
    requires
      var e := engines[|engines| - 1];
      r < |e.workers| && WaitsFor(e.client, r)
    ensures
      var w := engines[|engines| - 1].workers[r];
      && (CanWake(w) || ThreadCanStep(w))
      && forall w': Worker :: !CanWake(w) && WorkerStep(w, w', r) ==> StepsToWake(w') < StepsToWake(w)
  {
    RunsKeepTraced(engines, n);
    var e := engines[|engines| - 1];
    assert AskedOf(e.client, r);
    assert Traced(e.workers[r]);
  }

  /** Outside of waiting, the client itself always has a step. */
  lemma ClientProgresses(e: Engine)
    requires e.workers != [] && !(exists r: nat :: r < |e.workers| && WaitsFor(e.client, r))
    ensures exists e': Engine :: Next(e, e') && e'.client != e.client
  {
    match e.client
    case Free =>
      var e' := e.(client := Submitting(Job(e.nextId, Run, 0), 0), nextId := e.nextId + 1);
      assert Begin(e, e', Run, 0);
      assert Next(e, e');
    case Submitting(job, i) =>
      var e' :=
        if i >= |e.workers| then e.(client := Awaiting(job, 0))
        else if e.workers[i].shouldExit then e.(client := Free, replies := e.replies + [Threw(job)])
        else e.(workers := e.workers[i := Submit(e.workers[i], job)], client := Submitting(job, i + 1));
      assert SubmitNext(e, e');
    case Awaiting(job, i) =>
      assert i < |e.workers| ==> WaitsFor(e.client, i);
      var output := if job.cmd.Run? then e.workers[0].output else None;
      var e' := e.(client := Free, replies := e.replies + [Returned(job, output)]);
      assert AwaitNext(e, e');
    case OneByOne(job, i, submitted) =>
      assert i < |e.workers| && submitted ==> WaitsFor(e.client, i);
      var e' :=
        if i >= |e.workers| then e.(client := Free, replies := e.replies + [Returned(job, None)])
        else if e.workers[i].shouldExit then e.(client := Free, replies := e.replies + [Threw(job)])
        else e.(workers := e.workers[i := Submit(e.workers[i], job)], client := OneByOne(job, i, true));
      assert OneByOneNext(e, e');
  }

  // ---- failures ----

  /** Once a worker is to exit it stays so, starts no job, and every submit to it and wait for it throws. */
  lemma ExitIsFinal(e: Engine, e': Engine, r: nat)
    requires Next(e, e') && r < |e.workers| && e.workers[r].shouldExit
    ensures r < |e'.workers| && e'.workers[r].shouldExit
    ensures e'.workers[r].thread.Busy? ==> e.workers[r].thread == e'.workers[r].thread
    ensures !e.client.Free? && e.client.next == r && e'.client != e.client ==>
              e'.client.Free? && e'.replies == e.replies + [Threw(e.client.job)]
  {
  }

  /** The call in progress has been told by worker d that its job is done. */
  predicate Past(c: Client, d: nat) {
    (c.Awaiting? || c.OneByOne?) && c.next > d
  }

  /** How many executions have ended, counting the one that is going on. */
  function Executions(w: Worker): nat {
    |w.log| + if w.thread.Busy? then 1 else 0
  }

  /** What the call in progress may still reply once worker d is to exit. */
  predicate MayReply(c: Client, d: nat, reply: Reply) {
    reply.Threw? || (Past(c, d) && reply.job == c.job)
  }

  lemma ClosedStep(e: Engine, e': Engine, d: nat)
    requires Next(e, e') && d < |e.workers| && e.workers[d].shouldExit
    ensures d < |e'.workers| && e'.workers[d].shouldExit && Executions(e'.workers[d]) <= Executions(e.workers[d])
    ensures e'.replies == e.replies || exists reply :: e'.replies == e.replies + [reply] && MayReply(e.client, d, reply)
    ensures Past(e'.client, d) ==> Past(e.client, d) && e'.client.job == e.client.job && e'.replies == e.replies
  {
    if e'.replies != e.replies {
      var reply := e'.replies[|e.replies|];
      assert e'.replies == e.replies + [reply];
    }
  }

  /**
   From the moment a worker is to exit, in every run: it starts no further job and ends at most the one
   it was executing, and every call throws except one in progress that had already waited for it.
   */
  lemma {:induction false} ClosedForEver(engines: seq<Engine>, d: nat)
    requires engines != [] && forall i :: 0 <= i < |engines| - 1 ==> Next(engines[i], engines[i + 1])
    requires d < |engines[0].workers| && engines[0].workers[d].shouldExit
    ensures
      var first, last := engines[0], engines[|engines| - 1];
      && d < |last.workers| && last.workers[d].shouldExit && Executions(last.workers[d]) <= Executions(first.workers[d])
      && first.replies <= last.replies
      && (forall i :: |first.replies| <= i < |last.replies| ==>
            || last.replies[i].Threw?
            || (i == |first.replies| && Past(first.client, d) && last.replies[i].job == first.client.job))
      && (Past(last.client, d) ==>
          Past(first.client, d) && last.client.job == first.client.job && last.replies == first.replies)
  {
    if |engines| > 1 {
      var k := |engines| - 1;
      ClosedForEver(engines[..k], d);
      ClosedStep(engines[k - 1], engines[k], d);
    }
  }

  /** The job has ended once, with success, and will not run again. */
  ghost predicate Succeeded(w: Worker, job: Job) {
    && (exists i :: 0 <= i < |w.log| && w.log[i] == Outcome(job, true))
    && (forall i :: 0 <= i < |w.log| && w.log[i].job == job ==> w.log[i].ok)
    && w.thread != Busy(job) && (w.hasJob ==> w.pending != Some(job))
  }

  /** Every call that has returned left its job done on every worker for good. */
  ghost predicate ReturnedDone(e: Engine) {
    forall i :: 0 <= i < |e.replies| && e.replies[i].Returned? ==> JobDone(e, e.replies[i].job)
  }

  ghost predicate JobDone(e: Engine, job: Job) {
    && job.id < e.nextId && (!e.client.Free? ==> e.client.job != job)
    && forall r :: 0 <= r < |e.workers| ==> Succeeded(e.workers[r], job)
  }

  lemma WorkerKeepsSuccess(w: Worker, w': Worker, r: nat, job: Job)
    requires WorkerStep(w, w', r) && Succeeded(w, job)
    ensures Succeeded(w', job)
  {
    var i :| 0 <= i < |w.log| && w.log[i] == Outcome(job, true);
    assert w'.log[i] == Outcome(job, true);
  }

  lemma StepKeepsJobDone(e: Engine, e': Engine, job: Job)
    requires Next(e, e') && JobDone(e, job)
    ensures JobDone(e', job)
  {
    if r: nat :| ThreadStep(e, e', r) {
      WorkerKeepsSuccess(e.workers[r], e'.workers[r], r, job);
    }
  }

  lemma DeliveredSucceeded(w: Worker, r: nat, job: Job)
    requires Delivered(w, r, job)
    ensures Succeeded(w, job)
  {
    assert w.log[|w.log| - 1] == Outcome(job, true);
  }

  lemma ReturnDone(e: Engine, e': Engine)
    requires Inv(e) && Returns(e, e')
    ensures JobDone(e', e.client.job)
  {
    NotBarredAtReturn(e, e');
    forall r | 0 <= r < |e.workers|
      ensures Succeeded(e.workers[r], e.client.job)
    {
      DeliveredSucceeded(e.workers[r], r, e.client.job);
    }
  }

  /** A new reply is the return of a call or an exception. */
  lemma NewReply(e: Engine, e': Engine)
    requires Next(e, e')
    ensures e.replies <= e'.replies && |e'.replies| <= |e.replies| + 1
    ensures |e'.replies| > |e.replies| && e'.replies[|e.replies|].Returned? ==>
              Returns(e, e') && e'.replies[|e.replies|].job == e.client.job
  {
  }

  lemma {:induction false} RunsKeepReturned(engines: seq<Engine>, n: nat)
    requires RunOf(engines, n)
    ensures ReturnedDone(engines[|engines| - 1])
  {
    if |engines| > 1 {
      var k := |engines| - 1;
      var e, e' := engines[k - 1], engines[k];
      RunsKeepReturned(engines[..k], n);
      RunsKeepInv(engines[..k], n);
      NewReply(e, e');
      forall i | 0 <= i < |e'.replies| && e'.replies[i].Returned?
        ensures JobDone(e', e'.replies[i].job)
      {
        if i < |e.replies| {
          assert e'.replies[i] == e.replies[i];
          StepKeepsJobDone(e, e', e.replies[i].job);
        } else {
          ReturnDone(e, e');
        }
      }
    }
  }

  /** In every run, a job that threw on some worker is never reported as done. */
  lemma FailureIsReported(engines: seq<Engine>, n: nat, r: nat, i: nat, job: Job)
    requires RunOf(engines, n)
    requires
      var e := engines[|engines| - 1];
      r < |e.workers| && i < |e.workers[r].log| && e.workers[r].log[i] == Outcome(job, false)
    ensures
      var e := engines[|engines| - 1];
      forall k :: 0 <= k < |e.replies| && e.replies[k].job == job ==> e.replies[k].Threw?
  {
    RunsKeepReturned(engines, n);
    var e := engines[|engines| - 1];
    forall k | 0 <= k < |e.replies| && e.replies[k].job == job
      ensures e.replies[k].Threw?
    {
      assert e.replies[k].Returned? ==> Succeeded(e.workers[r], job);
    }
  }

  // ---- a client that does not wait ----

  /**
   Submitting again without waiting: the first job's completion wakes the wait for the second,
   which has not run.
   */
  lemma StaleCompletion(a: Job, b: Job)
    requires a != b
    ensures
      var w := Finish(Submit(Take(Submit(NewWorker(), a)), b), 1);
      CanWake(w) && !w.shouldExit && w.hasJob && NotRun(w, b)
  {
  }

  /** A wait before the first job wakes only when the worker is closed. */
  lemma WaitBeforeFirstJob(w': Worker, r: nat)
    requires WorkerStep(NewWorker(), w', r)
    ensures !CanWake(NewWorker()) && w'.shouldExit
  {
  }
}
