/**
 The generation barrier of the tensor-parallel ranks (csrc/engine/rank_barrier.cpp), as a
 transition system over every interleaving of the ranks' critical sections.
 */
module RankBarrier {
  const TWO_31: int := 0x8000_0000
  const TWO_32: int := 0x1_0000_0000
  const TWO_64: int := 0x1_0000_0000_0000_0000

  /** `int gen = generation_`: a 64-bit unsigned counter stored in 32 signed bits. */
  function Narrow(generation: nat): (gen: int) {
    var low := generation % TWO_32;
    if low < TWO_31 then low else low - TWO_32
  }

  /** The saved value as it is converted for the comparison `gen != generation_`. */
  function Widen(gen: int): int {
    if gen < 0 then gen + TWO_64 else gen
  }

  /** The fields of the barrier, guarded by its mutex. */
  datatype Shared = Shared(arrived: nat, generation: nat)

  /** A rank outside the barrier, or inside with the generation it saved. */
  datatype Rank = Running | Waiting(saved: int)

  /** `completed[r]` counts the calls of `wait` that rank r has returned from. */
  datatype State = State(shared: Shared, ranks: seq<Rank>, completed: seq<nat>)

  /** What one arrival does to the fields, and whether it was the last one of the generation. */
  function Arrival(shared: Shared, n: nat): (Shared, bool) {
    if shared.arrived + 1 == n
    then (Shared(0, (shared.generation + 1) % TWO_64), true)
    else (shared.(arrived := shared.arrived + 1), false)
  }

  /** The condition that the waiting ranks wait for. */
  predicate MayLeave(shared: Shared, saved: int) {
    Widen(saved) != shared.generation
  }

  class Barrier {
    const threadCount: nat
    var arrived: nat
    var generation: nat

    constructor (numRanks: nat)
      ensures threadCount == numRanks && arrived == 0 && generation == 0
    {
      threadCount, arrived, generation := numRanks, 0, 0;
    }

    /** The part of `wait` up to the point where a rank blocks or returns. */
    method Arrive() returns (gen: int, last: bool)
      modifies this
      ensures gen == Narrow(old(generation))
      ensures (Shared(arrived, generation), last) == Arrival(Shared(old(arrived), old(generation)), threadCount)
      ensures forall s: State, s': State, r: nat ::
                Enters(s, s', r) && At(s, Shared(old(arrived), old(generation)), threadCount) ==>
                  && At(s', Shared(arrived, generation), threadCount)
                  && s'.ranks[r] == (if last then Running else Waiting(gen))
                  && ArrivalIsSound(s, s', r)
    {
      forall s: State, s': State, r: nat | Enters(s, s', r) && At(s, Shared(arrived, generation), threadCount)
        ensures ArrivalIsSound(s, s', r)
      {
        ArrivalSound(s, s', r);
      }
      gen := Narrow(generation);
      arrived := arrived + 1;
      last := arrived == threadCount;
      if last {
        generation := (generation + 1) % TWO_64;
        arrived := 0;
      }
    }
  }

  /** The shared fields of a state of n ranks. */
  ghost predicate At(s: State, shared: Shared, n: nat) {
    s.shared == shared && |s.ranks| == n
  }

  /** An arrival in lockstep keeps it, and the last one finds all others blocked in the generation it ends. */
  ghost predicate ArrivalIsSound(s: State, s': State, r: nat) {
    Lockstep(s) && s.shared.generation < TWO_31 ==>
      && Lockstep(s')
      && (s.shared.arrived + 1 == |s.ranks| ==>
            forall q: nat :: q < |s.ranks| && q != r ==> s.ranks[q] == Waiting(s.shared.generation))
  }

  lemma ArrivalSound(s: State, s': State, r: nat)
    requires Enters(s, s', r)
    ensures ArrivalIsSound(s, s', r)
  {
    if Lockstep(s) && s.shared.generation < TWO_31 {
      ArriveKeepsLockstep(s, s', r);
      if s.shared.arrived + 1 == |s.ranks| {
        LastFindsAllBlocked(s, r);
      }
    }
  }

  ghost predicate Shaped(s: State) {
    |s.ranks| == |s.completed| > 0
  }

  ghost predicate Enters(s: State, s': State, r: nat) {
    && Shaped(s) && r < |s.ranks| && s.ranks[r].Running?
    && var (shared, last) := Arrival(s.shared, |s.ranks|);
       s' == if last
             then s.(shared := shared, completed := s.completed[r := s.completed[r] + 1])
             else s.(shared := shared, ranks := s.ranks[r := Waiting(Narrow(s.shared.generation))])
  }

  ghost predicate Leave(s: State, s': State, r: nat) {
    && Shaped(s) && r < |s.ranks| && s.ranks[r].Waiting? && MayLeave(s.shared, s.ranks[r].saved)
    && s' == s.(ranks := s.ranks[r := Running], completed := s.completed[r := s.completed[r] + 1])
  }

  ghost predicate Next(s: State, s': State) {
    exists r: nat :: Enters(s, s', r) || Leave(s, s', r)
  }

  /** Every rank is outside, after g generations. */
  function Between(n: nat, g: nat): State {
    State(Shared(0, g), seq(n, _ => Running), seq(n, _ => g))
  }

  function Init(n: nat): State {
    Between(n, 0)
  }

  /** The ranks blocked in the current generation. */
  ghost function Blocked(s: State): set<nat> {
    set r: nat | r < |s.ranks| && s.ranks[r] == Waiting(s.shared.generation)
  }

  ghost function Others(n: nat, r: nat): (o: set<nat>)
    requires r < n
    ensures |o| == n - 1 && forall q: nat :: q in o <==> q < n && q != r
  {
    UpToSize(n);
    assert UpTo(n) - {r} + {r} == UpTo(n);
    UpTo(n) - {r}
  }

  ghost function UpTo(n: nat): (s: set<nat>)
    ensures forall q: nat :: q in s <==> q < n
  {
    if n == 0 then {} else UpTo(n - 1) + {n - 1}
  }

  lemma {:induction false} UpToSize(n: nat)
    ensures |UpTo(n)| == n
  {
    if n > 0 {
      UpToSize(n - 1);
    }
  }

  /**
   Lockstep: a rank outside the barrier has completed one wait per generation; one inside either
   blocks in the current generation or has yet to leave the previous one.
   */
  ghost predicate Lockstep(s: State) {
    && Shaped(s)
    && s.shared.arrived == |Blocked(s)| < |s.ranks|
    && forall r: nat :: r < |s.ranks| ==>
         match s.ranks[r]
         case Running => s.completed[r] == s.shared.generation
         case Waiting(saved) =>
           (saved == s.shared.generation || saved == s.shared.generation - 1) && s.completed[r] == saved
  }

  /** Number of waits that rank r has entered. */
  ghost function Entered(s: State, r: nat): nat
    requires Shaped(s) && r < |s.ranks|
  {
    s.completed[r] + if s.ranks[r].Waiting? then 1 else 0
  }

  lemma BetweenLockstep(n: nat, g: nat)
    requires n > 0
    ensures Lockstep(Between(n, g))
  {
    assert Blocked(Between(n, g)) == {};
  }

  /** The last arrival of a generation finds every other rank blocked in it. */
  lemma LastFindsAllBlocked(s: State, r: nat)
    requires Lockstep(s) && r < |s.ranks| && s.ranks[r].Running? && s.shared.arrived + 1 == |s.ranks|
    ensures forall q: nat :: q < |s.ranks| && q != r ==> s.ranks[q] == Waiting(s.shared.generation)
  {
    var others, blocked := Others(|s.ranks|, r), Blocked(s);
    assert |others - blocked| == |others| - |blocked|;
    forall q: nat | q < |s.ranks| && q != r
      ensures s.ranks[q] == Waiting(s.shared.generation)
    {
      assert q in others && q !in others - blocked;
      assert q in blocked;
    }
  }

  /** The last arrival finds all others blocked and opens the next generation. */
  lemma LastKeepsLockstep(s: State, s': State, r: nat)
    requires Lockstep(s) && s.shared.generation < TWO_31 && Enters(s, s', r) && s.shared.arrived + 1 == |s.ranks|
    ensures Lockstep(s')
  {
    LastFindsAllBlocked(s, r);
    assert s'.shared.generation == s.shared.generation + 1;
    assert Blocked(s') == {};
  }

  /** Any other arrival blocks in the current generation. */
  lemma BlockKeepsLockstep(s: State, s': State, r: nat)
    requires Lockstep(s) && s.shared.generation < TWO_31 && Enters(s, s', r) && s.shared.arrived + 1 < |s.ranks|
    ensures Lockstep(s')
  {
    assert Narrow(s.shared.generation) == s.shared.generation;
    assert Blocked(s') == Blocked(s) + {r};
  }

  lemma ArriveKeepsLockstep(s: State, s': State, r: nat)
    requires Lockstep(s) && s.shared.generation < TWO_31 && Enters(s, s', r)
    ensures Lockstep(s')
  {
    if s.shared.arrived + 1 == |s.ranks| {
      LastKeepsLockstep(s, s', r);
    } else {
      BlockKeepsLockstep(s, s', r);
    }
  }

  lemma LeaveKeepsLockstep(s: State, s': State, r: nat)
    requires Lockstep(s) && Leave(s, s', r)
    ensures Lockstep(s')
  {
    assert r !in Blocked(s);
    assert Blocked(s') == Blocked(s);
  }

  ghost predicate Run(states: seq<State>, n: nat) {
    && states != [] && states[0] == Init(n)
    && forall i :: 0 <= i < |states| - 1 ==> Next(states[i], states[i + 1])
  }

  /**
   In every run of n ranks, as long as no generation of 2^31 has been reached: no rank has
   returned from its k-th wait before every rank entered its k-th wait, and the numbers of
   completed waits of any two ranks differ by at most one.
   */
  lemma {:induction false} RunsInLockstep(states: seq<State>, n: nat)
    requires n > 0 && Run(states, n)
    requires forall i :: 0 <= i < |states| - 1 ==> states[i].shared.generation < TWO_31
    ensures
      var s := states[|states| - 1];
      && Lockstep(s) && |s.ranks| == n
      && forall r: nat, q: nat :: r < n && q < n ==>
           s.completed[r] <= Entered(s, q) && s.completed[r] <= s.completed[q] + 1
  {
    if |states| == 1 {
      BetweenLockstep(n, 0);
    } else {
      var k := |states| - 1;
      RunsInLockstep(states[..k], n);
      var s, s' := states[k - 1], states[k];
      var r: nat :| Enters(s, s', r) || Leave(s, s', r);
      if Enters(s, s', r) {
        ArriveKeepsLockstep(s, s', r);
      } else {
        LeaveKeepsLockstep(s, s', r);
      }
    }
  }

  /** The saved generation compares equal exactly below 2^31 and in the last 2^31 values. */
  lemma NarrowExactly(generation: nat)
    requires generation < TWO_64
    ensures Widen(Narrow(generation)) == generation <==> generation < TWO_31 || generation >= TWO_64 - TWO_31
  {
    var high := generation / TWO_32;
    assert generation == high * TWO_32 + generation % TWO_32;
  }

  /**
   A rank that arrives, and is not the last, can leave again at once, with the others still
   outside, exactly when the generation is one that the narrow copy cannot hold.
   */
  lemma LeavesAtOnceExactly(s: State, s': State, r: nat)
    requires Lockstep(s) && s.shared.generation < TWO_64 && Enters(s, s', r) && s.shared.arrived + 1 < |s.ranks|
    ensures (exists s'': State :: Leave(s', s'', r)) <==> TWO_31 <= s.shared.generation < TWO_64 - TWO_31
  {
    NarrowExactly(s.shared.generation);
    if MayLeave(s'.shared, s'.ranks[r].saved) {
      var s'' := s'.(ranks := s'.ranks[r := Running], completed := s'.completed[r := s'.completed[r] + 1]);
      assert Leave(s', s'', r);
    }
  }

  // ---- the failing generation is reachable ----

  /** In generation g the first i ranks have arrived. */
  function Arrived(n: nat, g: nat, i: nat): State {
    State(Shared(i, g), seq(n, r => if r < i then Waiting(g) else Running), seq(n, _ => g))
  }

  /** All n ranks met in generation g; the first i of the blocked ones, and the last, have left. */
  function Left(n: nat, g: nat, i: nat): State {
    State(Shared(0, g + 1), seq(n, r => if i <= r < n - 1 then Waiting(g) else Running),
          seq(n, r => if i <= r < n - 1 then g else g + 1))
  }

  /** One generation in which the ranks arrive and leave in order. */
  lemma {:induction false} ArriveInOrder(n: nat, g: nat, i: nat) returns (states: seq<State>)
    requires i < n && g < TWO_31
    ensures states != [] && states[0] == Between(n, g) && states[|states| - 1] == Arrived(n, g, i)
    ensures forall k :: 0 <= k < |states| - 1 ==> Next(states[k], states[k + 1])
  {
    if i == 0 {
      states := [Between(n, g)];
      assert Between(n, g) == Arrived(n, g, 0);
    } else {
      states := ArriveInOrder(n, g, i - 1);
      var s, s' := Arrived(n, g, i - 1), Arrived(n, g, i);
      assert s'.ranks == s.ranks[i - 1 := Waiting(g)];
      assert Enters(s, s', i - 1);
      states := states + [s'];
    }
  }

  lemma {:induction false} LeaveInOrder(n: nat, g: nat, i: nat) returns (states: seq<State>)
    requires i < n && g < TWO_31
    ensures states != [] && states[0] == Between(n, g) && states[|states| - 1] == Left(n, g, i)
    ensures forall k :: 0 <= k < |states| - 1 ==> Next(states[k], states[k + 1])
  {
    if i == 0 {
      states := ArriveInOrder(n, g, n - 1);
      var s, s' := Arrived(n, g, n - 1), Left(n, g, 0);
      assert s'.completed == s.completed[n - 1 := g + 1];
      assert s'.ranks == s.ranks;
      assert Enters(s, s', n - 1);
      states := states + [s'];
    } else {
      states := LeaveInOrder(n, g, i - 1);
      var s, s' := Left(n, g, i - 1), Left(n, g, i);
      assert s'.ranks == s.ranks[i - 1 := Running] && s'.completed == s.completed[i - 1 := g + 1];
      assert Leave(s, s', i - 1);
      states := states + [s'];
    }
  }

  /** Every generation up to 2^31 is reached with all ranks outside the barrier. */
  lemma {:induction false} GenerationReached(n: nat, g: nat) returns (states: seq<State>)
    requires n > 0 && g <= TWO_31
    ensures Run(states, n) && states[|states| - 1] == Between(n, g)
    decreases g
  {
    if g == 0 {
      states := [Init(n)];
    } else {
      var before := GenerationReached(n, g - 1);
      var round := LeaveInOrder(n, g - 1, n - 1);
      assert Left(n, g - 1, n - 1) == Between(n, g);
      states := before + round[1..];
    }
  }

  /**
   A run in which a rank returns from a wait that no other rank has entered: for two or more
   ranks lockstep does not survive generation 2^31.
   */
  lemma LockstepLost(n: nat) returns (states: seq<State>)
    requires n >= 2
    ensures Run(states, n)
    ensures
      var s := states[|states| - 1];
      Shaped(s) && |s.ranks| == n && s.completed[0] > Entered(s, 1)
  {
    var before := GenerationReached(n, TWO_31);
    var s := Between(n, TWO_31);
    var s1 := s.(shared := Shared(1, TWO_31), ranks := s.ranks[0 := Waiting(Narrow(TWO_31))]);
    var s2 := s1.(ranks := s1.ranks[0 := Running], completed := s1.completed[0 := TWO_31 + 1]);
    NarrowExactly(TWO_31);
    assert Enters(s, s1, 0);
    assert Leave(s1, s2, 0);
    states := before + [s1, s2];
  }
}
