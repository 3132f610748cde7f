/**
 Graph compilation on all ranks at once (csrc/engine/compiler): every rank runs the same
 sequence of barrier waits and recordings, interleaved in any way.
 */
module GraphCompile {
  import opened RankBarrier

  /** One rank's steps. Recording a graph is two steps, so that recordings can overlap in time. */
  datatype Act = Wait | Forward | StartRecord(graph: nat) | StopRecord(graph: nat)

  datatype CacheKind = StaticCache | PagedCache | OtherCache

  /** The waits around the capture of one graph. */
  function CaptureOne(graph: nat): seq<Act> {
    [Wait, Forward, StartRecord(graph), StopRecord(graph), Wait]
  }

  function CaptureAll(graphs: nat): seq<Act> {
    if graphs == 0 then [] else CaptureAll(graphs - 1) + CaptureOne(graphs - 1)
  }

  function StaticCompile(cache: CacheKind): seq<Act> {
    if cache.StaticCache? then CaptureOne(0) else []
  }

  /** A warm-up pass, then one capture for each of the decode batch sizes. */
  function PagedCompile(cache: CacheKind, batchSizes: nat): seq<Act> {
    if cache.PagedCache? then [Forward] + CaptureAll(batchSizes) else []
  }

  /** The static compiler runs first, then the paged one. */
  function CompileProgram(cache: CacheKind, batchSizes: nat): seq<Act> {
    StaticCompile(cache) + PagedCompile(cache, batchSizes)
  }

  /** `pc[r]` is the act that rank r is at; a wait is left behind when it returns. */
  datatype Job = Job(barrier: State, pc: seq<nat>)

  function Waits(acts: seq<Act>): nat {
    if acts == [] then 0 else Waits(acts[..|acts| - 1]) + (if acts[|acts| - 1].Wait? then 1 else 0)
  }

  ghost predicate JobShaped(j: Job, program: seq<Act>) {
    && Shaped(j.barrier) && |j.pc| == |j.barrier.ranks|
    && forall r :: 0 <= r < |j.pc| ==> j.pc[r] <= |program|
  }

  ghost predicate LocalStep(j: Job, j': Job, program: seq<Act>, r: nat) {
    && JobShaped(j, program) && r < |j.pc| && j.pc[r] < |program| && !program[j.pc[r]].Wait?
    && j' == j.(pc := j.pc[r := j.pc[r] + 1])
  }

  ghost predicate ArriveStep(j: Job, j': Job, program: seq<Act>, r: nat) {
    && JobShaped(j, program) && r < |j.pc| && j.pc[r] < |program| && program[j.pc[r]].Wait?
    && Enters(j.barrier, j'.barrier, r)
    && j'.pc == if j'.barrier.ranks[r].Running? then j.pc[r := j.pc[r] + 1] else j.pc
  }

  ghost predicate LeaveStep(j: Job, j': Job, program: seq<Act>, r: nat) {
    && JobShaped(j, program) && r < |j.pc| && j.pc[r] < |program|
    && Leave(j.barrier, j'.barrier, r)
    && j'.pc == j.pc[r := j.pc[r] + 1]
  }

  ghost predicate JobNext(j: Job, j': Job, program: seq<Act>) {
    exists r: nat :: LocalStep(j, j', program, r) || ArriveStep(j, j', program, r) || LeaveStep(j, j', program, r)
  }

  /** A compile starts with every rank outside the barrier, after g0 generations of earlier compiles. */
  function JobInit(n: nat, g0: nat): Job {
    Job(Between(n, g0), seq(n, _ => 0))
  }

  /** Barrier and program agree: a rank has completed the waits that lie behind it, and waits only at a wait. */
  ghost predicate InStep(j: Job, program: seq<Act>, g0: nat) {
    Lockstep(j.barrier) && RanksInStep(j, program, g0)
  }

  ghost predicate RanksInStep(j: Job, program: seq<Act>, g0: nat) {
    && JobShaped(j, program)
    && forall r :: 0 <= r < |j.pc| ==>
         && j.barrier.completed[r] == g0 + Waits(program[..j.pc[r]])
         && (j.barrier.ranks[r].Waiting? ==> j.pc[r] < |program| && program[j.pc[r]].Wait?)
  }

  lemma WaitsSnoc(program: seq<Act>, i: nat)
    requires i < |program|
    ensures Waits(program[..i + 1]) == Waits(program[..i]) + (if program[i].Wait? then 1 else 0)
  {
    assert program[..i + 1][..i] == program[..i];
  }

  lemma {:induction false} WaitsMonotone(program: seq<Act>, i: nat, k: nat)
    requires i <= k <= |program|
    ensures Waits(program[..i]) <= Waits(program[..k])
    decreases k
  {
    if i < k {
      WaitsSnoc(program, k - 1);
      WaitsMonotone(program, i, k - 1);
    }
  }

  lemma JobInitInStep(n: nat, program: seq<Act>, g0: nat)
    requires n > 0
    ensures InStep(JobInit(n, g0), program, g0)
  {
    BetweenLockstep(n, g0);
    assert program[..0] == [];
  }

  lemma LocalKeepsInStep(j: Job, j': Job, program: seq<Act>, g0: nat, r: nat)
    requires InStep(j, program, g0) && LocalStep(j, j', program, r)
    ensures InStep(j', program, g0)
  {
    WaitsSnoc(program, j.pc[r]);
  }

  lemma ArriveKeepsInStep(j: Job, j': Job, program: seq<Act>, g0: nat, r: nat)
    requires InStep(j, program, g0) && ArriveStep(j, j', program, r) && j.barrier.shared.generation < TWO_31
    ensures InStep(j', program, g0)
  {
    ArriveKeepsLockstep(j.barrier, j'.barrier, r);
    ArriveKeepsRanks(j, j', program, g0, r);
  }

  lemma ArriveKeepsRanks(j: Job, j': Job, program: seq<Act>, g0: nat, r: nat)
    requires RanksInStep(j, program, g0) && ArriveStep(j, j', program, r)
    ensures RanksInStep(j', program, g0)
  {
    WaitsSnoc(program, j.pc[r]);
  }

  lemma LeaveKeepsInStep(j: Job, j': Job, program: seq<Act>, g0: nat, r: nat)
    requires InStep(j, program, g0) && LeaveStep(j, j', program, r)
    ensures InStep(j', program, g0)
  {
    WaitsSnoc(program, j.pc[r]);
    LeaveKeepsLockstep(j.barrier, j'.barrier, r);
  }

  lemma NextKeepsInStep(j: Job, j': Job, program: seq<Act>, g0: nat)
    requires InStep(j, program, g0) && JobNext(j, j', program) && j.barrier.shared.generation < TWO_31
    ensures InStep(j', program, g0)
  {
    var r: nat :| LocalStep(j, j', program, r) || ArriveStep(j, j', program, r) || LeaveStep(j, j', program, r);
    if ArriveStep(j, j', program, r) {
      ArriveKeepsInStep(j, j', program, g0, r);
    } else if LeaveStep(j, j', program, r) {
      LeaveKeepsInStep(j, j', program, g0, r);
    } else {
      LocalKeepsInStep(j, j', program, g0, r);
    }
  }

  ghost predicate JobRun(jobs: seq<Job>, program: seq<Act>, n: nat, g0: nat) {
    && jobs != [] && jobs[0] == JobInit(n, g0)
    && forall i :: 0 <= i < |jobs| - 1 ==> JobNext(jobs[i], jobs[i + 1], program)
  }

  /** A program of fewer than 2^31 waits stays below the generations that the barrier cannot hold. */
  lemma GenerationBelowWaits(j: Job, program: seq<Act>, g0: nat)
    requires InStep(j, program, g0)
    ensures j.barrier.shared.generation <= g0 + Waits(program)
  {
    var r := 0;
    assert program[..|program|] == program;
    WaitsMonotone(program, j.pc[r], |program|);
    match j.barrier.ranks[r]
    case Running =>
    case Waiting(saved) =>
      WaitsSnoc(program, j.pc[r]);
      WaitsMonotone(program, j.pc[r] + 1, |program|);
  }

  lemma {:induction false} RunsInStep(jobs: seq<Job>, program: seq<Act>, n: nat, g0: nat)
    requires n > 0 && JobRun(jobs, program, n, g0) && g0 + Waits(program) < TWO_31
    ensures InStep(jobs[|jobs| - 1], program, g0)
  {
    if |jobs| == 1 {
      JobInitInStep(n, program, g0);
    } else {
      var k := |jobs| - 1;
      RunsInStep(jobs[..k], program, n, g0);
      GenerationBelowWaits(jobs[k - 1], program, g0);
      NextKeepsInStep(jobs[k - 1], jobs[k], program, g0);
    }
  }

  // ---- phases ----

  /** If one rank is past position k and the waits before k outnumber those up to i, every rank is past i. */
  lemma PastTheWait(j: Job, program: seq<Act>, g0: nat, a: nat, q: nat, k: nat, i: nat)
    requires InStep(j, program, g0) && a < |j.pc| && q < |j.pc|
    requires i < k <= j.pc[a] && Waits(program[..k]) > Waits(program[..i + 1]) && !program[i].Wait?
    ensures i < j.pc[q]
  {
    WaitsMonotone(program, k, j.pc[a]);
    if j.pc[q] <= i {
      WaitsMonotone(program, j.pc[q], i);
      WaitsSnoc(program, i);
      if j.pc[q] < i {
        WaitsSnoc(program, j.pc[q]);
        WaitsMonotone(program, j.pc[q] + 1, i + 1);
      }
    }
  }

  lemma {:induction false} CapturePrefix(graphs: nat, g: nat)
    requires g <= graphs
    ensures CaptureAll(g) <= CaptureAll(graphs)
  {
    if g < graphs {
      CapturePrefix(graphs - 1, g);
    }
  }

  /** The capture of graph g stands at 5 * g, after 2 * g waits. */
  lemma CaptureAt(graphs: nat, g: nat)
    requires g < graphs
    ensures |CaptureAll(graphs)| == 5 * graphs
    ensures CaptureAll(graphs)[5 * g..5 * g + 5] == CaptureOne(g)
    ensures CaptureAll(graphs)[..5 * g] == CaptureAll(g)
  {
    CaptureLength(graphs);
    CaptureLength(g);
    CapturePrefix(graphs, g);
    CapturePrefix(graphs, g + 1);
    SlicesOfPrefix(CaptureAll(graphs), CaptureAll(g), CaptureOne(g));
  }

  lemma SlicesOfPrefix<T>(all: seq<T>, a: seq<T>, b: seq<T>)
    requires a + b <= all
    ensures all[|a|..|a| + |b|] == b && all[..|a|] == a
  {
    assert all[..|a| + |b|] == a + b;
  }

  lemma {:induction false} CaptureLength(graphs: nat)
    ensures |CaptureAll(graphs)| == 5 * graphs && Waits(CaptureAll(graphs)) == 2 * graphs
  {
    if graphs > 0 {
      CaptureLength(graphs - 1);
      WaitsConcat(CaptureAll(graphs - 1), CaptureOne(graphs - 1));
      CaptureWaits(graphs - 1);
    }
  }

  lemma CaptureWaits(g: nat)
    ensures
      var c := CaptureOne(g);
      Waits(c[..1]) == Waits(c[..2]) == Waits(c[..3]) == Waits(c[..4]) == 1 && Waits(c) == 2
  {
    var c := CaptureOne(g);
    assert c[..1] == [Wait] && [Wait][..0] == [];
    WaitsSnoc(c, 1);
    WaitsSnoc(c, 2);
    WaitsSnoc(c, 3);
    WaitsSnoc(c, 4);
    assert c[..5] == c;
  }

  lemma {:induction false} WaitsConcat(a: seq<Act>, b: seq<Act>)
    ensures Waits(a + b) == Waits(a) + Waits(b)
  {
    if b == [] {
      assert a + b == a;
    } else {
      assert (a + b)[..|a| + |b| - 1] == a + b[..|b| - 1];
      WaitsConcat(a, b[..|b| - 1]);
    }
  }

  /** The program records graph g at this position, after w waits. */
  ghost predicate RecordsAt(program: seq<Act>, g: nat, at: nat, w: nat) {
    && at + 2 <= |program|
    && program[at] == StartRecord(g) && program[at + 1] == StopRecord(g)
    && Waits(program[..at]) == w && Waits(program[..at + 2]) == w
  }

  function StartAt(g: nat): nat {
    1 + 5 * g + 2
  }

  lemma PagedRecordsAt(batchSizes: nat, g: nat)
    requires g < batchSizes
    ensures RecordsAt(CompileProgram(PagedCache, batchSizes), g, StartAt(g), 2 * g + 1)
    ensures Waits(CompileProgram(PagedCache, batchSizes)) == 2 * batchSizes
  {
    var all := CaptureAll(batchSizes);
    CaptureAt(batchSizes, g);
    CaptureLength(batchSizes);
    CaptureLength(g);
    CapturesRecordAt(all, CaptureAll(g), g);
    assert CompileProgram(PagedCache, batchSizes) == [Forward] + all;
    WaitsConcat([Forward], all);
    assert [Forward][..0] == [];
  }

  lemma CapturesRecordAt(all: seq<Act>, before: seq<Act>, g: nat)
    requires 5 * g + 5 <= |all| && all[..5 * g] == before && all[5 * g..5 * g + 5] == CaptureOne(g)
    requires Waits(before) == 2 * g
    ensures RecordsAt([Forward] + all, g, StartAt(g), 2 * g + 1)
  {
    CaptureWaits(g);
    InsideCapture(all, before, g, 2);
    InsideCapture(all, before, g, 4);
    assert all[5 * g + 2] == all[5 * g..5 * g + 5][2] && all[5 * g + 3] == all[5 * g..5 * g + 5][3];
  }

  lemma InsideCapture(all: seq<Act>, before: seq<Act>, g: nat, m: nat)
    requires 5 * g + 5 <= |all| && all[..5 * g] == before && all[5 * g..5 * g + 5] == CaptureOne(g) && m <= 5
    ensures Waits(([Forward] + all)[..1 + 5 * g + m]) == Waits(before) + Waits(CaptureOne(g)[..m])
  {
    var c := CaptureOne(g);
    assert ([Forward] + all)[..1 + 5 * g + m] == [Forward] + (before + c[..m]) by {
      assert all[..5 * g + m] == all[..5 * g] + all[5 * g..5 * g + 5][..m];
    }
    WaitsConcat([Forward], before + c[..m]);
    WaitsConcat(before, c[..m]);
    assert [Forward][..0] == [];
  }

  /**
   In every run of a paged compile, no rank starts to record graph g + 1 before every rank has
   finished recording graph g.
   */
  lemma RecordingsDoNotOverlap(jobs: seq<Job>, n: nat, g0: nat, batchSizes: nat, g: nat, a: nat, q: nat)
    requires n > 0 && g0 + 2 * batchSizes < TWO_31 && g + 1 < batchSizes
    requires JobRun(jobs, CompileProgram(PagedCache, batchSizes), n, g0)
    requires
      var j := jobs[|jobs| - 1];
      a < |j.pc| && q < |j.pc| && j.pc[a] > StartAt(g + 1)
    ensures jobs[|jobs| - 1].pc[q] > StartAt(g) + 1
  {
    var program := CompileProgram(PagedCache, batchSizes);
    PagedRecordsAt(batchSizes, g);
    PagedRecordsAt(batchSizes, g + 1);
    var at, next := StartAt(g), StartAt(g + 1);
    RecordedInTurn(jobs, program, n, g0, g, at, next, 2 * g + 1, 2 * (g + 1) + 1, a, q);
  }

  /** No rank starts to record its first graph before every rank has done its warm-up pass. */
  lemma WarmedUpBefore(jobs: seq<Job>, n: nat, g0: nat, batchSizes: nat, a: nat, q: nat)
    requires n > 0 && g0 + 2 * batchSizes < TWO_31 && batchSizes > 0
    requires JobRun(jobs, CompileProgram(PagedCache, batchSizes), n, g0)
    requires
      var j := jobs[|jobs| - 1];
      a < |j.pc| && q < |j.pc| && j.pc[a] > StartAt(0)
    ensures CompileProgram(PagedCache, batchSizes)[0].Forward? && jobs[|jobs| - 1].pc[q] > 0
  {
    var program := CompileProgram(PagedCache, batchSizes);
    PagedRecordsAt(batchSizes, 0);
    FirstIsForward(batchSizes);
    RunsInStep(jobs, program, n, g0);
    PastTheWait(jobs[|jobs| - 1], program, g0, a, q, StartAt(0), 0);
  }

  lemma FirstIsForward(batchSizes: nat)
    ensures
      var program := CompileProgram(PagedCache, batchSizes);
      program != [] && program[0].Forward? && Waits(program[..1]) == 0
  {
    var program := CompileProgram(PagedCache, batchSizes);
    assert program == [Forward] + CaptureAll(batchSizes);
    assert program[..1] == [Forward] && [Forward][..0] == [];
  }

  /** No rank is through with the compile before every rank has finished recording every graph. */
  lemma FinishedTogether(jobs: seq<Job>, n: nat, g0: nat, batchSizes: nat, g: nat, a: nat, q: nat)
    requires n > 0 && g0 + 2 * batchSizes < TWO_31 && g < batchSizes
    requires JobRun(jobs, CompileProgram(PagedCache, batchSizes), n, g0)
    requires
      var j := jobs[|jobs| - 1];
      a < |j.pc| && q < |j.pc| && j.pc[a] == |CompileProgram(PagedCache, batchSizes)|
    ensures jobs[|jobs| - 1].pc[q] > StartAt(g) + 1
  {
    var program := CompileProgram(PagedCache, batchSizes);
    PagedRecordsAt(batchSizes, g);
    RunsInStep(jobs, program, n, g0);
    assert program[..|program|] == program;
    PastTheWait(jobs[|jobs| - 1], program, g0, a, q, |program|, StartAt(g) + 1);
  }

  /** Between two recordings with a wait between them, the barrier keeps the ranks apart. */
  lemma RecordedInTurn(jobs: seq<Job>, program: seq<Act>, n: nat, g0: nat, g: nat, at: nat, at': nat, w: nat, w': nat,
                       a: nat, q: nat)
    requires n > 0 && g0 + Waits(program) < TWO_31 && JobRun(jobs, program, n, g0)
    requires RecordsAt(program, g, at, w) && RecordsAt(program, g + 1, at', w') && at + 1 < at' && w < w'
    requires
      var j := jobs[|jobs| - 1];
      a < |j.pc| && q < |j.pc| && j.pc[a] > at'
    ensures jobs[|jobs| - 1].pc[q] > at + 1
  {
    RunsInStep(jobs, program, n, g0);
    PastTheWait(jobs[|jobs| - 1], program, g0, a, q, at', at + 1);
  }

  // ---- progress ----

  ghost predicate Finished(j: Job, program: seq<Act>) {
    forall r :: 0 <= r < |j.pc| ==> j.pc[r] == |program|
  }

  /** Until all ranks have finished, some rank can take a step. */
  lemma NeverStuck(j: Job, program: seq<Act>, g0: nat)
    requires InStep(j, program, g0) && !Finished(j, program) && j.barrier.shared.generation < TWO_31
    ensures exists j': Job :: JobNext(j, j', program)
  {
    var b := j.barrier;
    if r: nat :| r < |j.pc| && b.ranks[r].Waiting? && b.ranks[r].saved != b.shared.generation {
      var b' := b.(ranks := b.ranks[r := Running], completed := b.completed[r := b.completed[r] + 1]);
      assert Leave(b, b', r);
      assert LeaveStep(j, Job(b', j.pc[r := j.pc[r] + 1]), program, r);
      assert JobNext(j, Job(b', j.pc[r := j.pc[r] + 1]), program);
    } else if r: nat :| r < |j.pc| && b.ranks[r].Running? && j.pc[r] < |program| {
      if program[j.pc[r]].Wait? {
        var (shared, last) := Arrival(b.shared, |b.ranks|);
        var b' := if last then b.(shared := shared, completed := b.completed[r := b.completed[r] + 1])
                  else b.(shared := shared, ranks := b.ranks[r := Waiting(Narrow(b.shared.generation))]);
        var j' := Job(b', if last then j.pc[r := j.pc[r] + 1] else j.pc);
        assert Enters(b, b', r);
        assert ArriveStep(j, j', program, r);
        assert JobNext(j, j', program);
      } else {
        var j' := j.(pc := j.pc[r := j.pc[r] + 1]);
        assert LocalStep(j, j', program, r);
        assert JobNext(j, j', program);
      }
    } else {
      // every rank has finished or blocks in the current generation
      NotAllBlocked(b);
      BlockedExcludesFinished(j, program, g0);
    }
  }

  /** A rank blocks in a wait that a finished rank has completed: not in the current generation. */
  lemma BlockedExcludesFinished(j: Job, program: seq<Act>, g0: nat)
    requires InStep(j, program, g0)
    ensures forall w: nat, f: nat :: w < |j.pc| && f < |j.pc| && j.barrier.ranks[f].Running? && j.pc[f] == |program|
              ==> j.barrier.ranks[w] != Waiting(j.barrier.shared.generation)
  {
    assert program[..|program|] == program;
    forall w: nat | w < |j.pc| && j.barrier.ranks[w] == Waiting(j.barrier.shared.generation)
      ensures j.barrier.shared.generation < g0 + Waits(program)
    {
      WaitsSnoc(program, j.pc[w]);
      WaitsMonotone(program, j.pc[w] + 1, |program|);
    }
  }

  lemma NotAllBlocked(b: State)
    requires Lockstep(b)
    ensures exists r: nat :: r < |b.ranks| && b.ranks[r] != Waiting(b.shared.generation)
  {
    UpToSize(|b.ranks|);
    assert Blocked(b) <= UpTo(|b.ranks|) && Blocked(b) != UpTo(|b.ranks|);
    var r: nat :| r in UpTo(|b.ranks|) && r !in Blocked(b);
  }

  /** Acts still to do, counted twice, less one for every rank already inside the barrier. */
  ghost function Remaining(j: Job, program: seq<Act>, n: nat): int
    requires JobShaped(j, program) && n <= |j.pc|
  {
    if n == 0 then 0
    else
      var inside := if j.barrier.ranks[n - 1].Waiting? then 1 else 0;
      Remaining(j, program, n - 1) + 2 * (|program| - j.pc[n - 1]) - inside
  }

  lemma {:induction false} RemainingChange(j: Job, j': Job, program: seq<Act>, r: nat, n: nat)
    requires JobShaped(j, program) && JobShaped(j', program) && |j.pc| == |j'.pc| && r < |j.pc| && n <= |j.pc|
    requires forall q :: 0 <= q < |j.pc| && q != r ==> j.pc[q] == j'.pc[q] && j.barrier.ranks[q] == j'.barrier.ranks[q]
    ensures
      var w: int, w': int :=
        if j.barrier.ranks[r].Waiting? then 1 else 0, if j'.barrier.ranks[r].Waiting? then 1 else 0;
      Remaining(j', program, n) == Remaining(j, program, n)
        + (if r < n then 2 * (j.pc[r] as int - j'.pc[r] as int) + w - w' else 0)
  {
    if n > 0 {
      RemainingChange(j, j', program, r, n - 1);
    }
  }

  /** Every step brings the job closer to its end, so every run that is never stuck finishes. */
  lemma StepsDecrease(j: Job, j': Job, program: seq<Act>, g0: nat)
    requires InStep(j, program, g0) && JobNext(j, j', program) && j.barrier.shared.generation < TWO_31
    ensures InStep(j', program, g0)
    ensures 0 <= Remaining(j', program, |j'.pc|) < Remaining(j, program, |j.pc|)
  {
    NextKeepsInStep(j, j', program, g0);
    var r: nat :| LocalStep(j, j', program, r) || ArriveStep(j, j', program, r) || LeaveStep(j, j', program, r);
    RemainingChange(j, j', program, r, |j.pc|);
    RemainingNonNegative(j', program, g0, |j'.pc|);
  }

  lemma {:induction false} RemainingNonNegative(j: Job, program: seq<Act>, g0: nat, n: nat)
    requires InStep(j, program, g0) && n <= |j.pc|
    ensures Remaining(j, program, n) >= 0
  {
    if n > 0 {
      RemainingNonNegative(j, program, g0, n - 1);
    }
  }
}
