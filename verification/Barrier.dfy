/** CyclicBarrier: threads meet in generations; a reset breaks the current one. */
module Barrier {
  import opened Seqs

  datatype Phase = Out | Waiting(gen: int, index: int, notified: bool)

  /** The threads of a finished generation in order of arrival; `tripped` by the last of them, or broken by a reset. */
  datatype Round = Round(arrivals: seq<nat>, tripped: bool)

  /** A `wait` that came back. */
  datatype Return = Return(gen: int, thread: nat, index: int)

  datatype State = State(
    parties: int,
    count: int,
    generation: int,
    threads: seq<Phase>,
    rounds: seq<Round>,
    current: seq<nat>,
    returned: set<Return>)

  datatype Step = Arrive(i: nat) | Wake(i: nat) | Reset

  predicate Enabled(s: State, step: Step) {
    match step
    case Arrive(i) => i < |s.threads| && s.threads[i] == Out
    case Wake(i) => i < |s.threads| && s.threads[i].Waiting?
    case Reset => true
  }

  function Told(p: Phase): Phase {
    if p.Waiting? then Waiting(p.gen, p.index, true) else p
  }

  function NotifyAll(threads: seq<Phase>): (r: seq<Phase>)
    ensures |r| == |threads|
  {
    seq(|threads|, i requires 0 <= i < |threads| => Told(threads[i]))
  }

  /** The barrier opens: a new generation starts and all sleepers are notified. */
  function Open(s: State, round: Round): State {
    s.(generation := s.generation + 1, count := s.parties, threads := NotifyAll(s.threads),
       rounds := s.rounds + [round], current := [])
  }

  function Next(s: State, step: Step): State
    requires Enabled(s, step)
  {
    match step
    case Arrive(i) =>
      var index := s.count - 1;
      if index == 0 then
        Open(s, Round(s.current + [i], true)).(returned := s.returned + {Return(s.generation, i, 0)})
      else
        s.(count := index, current := s.current + [i],
           threads := s.threads[i := Waiting(s.generation, index, false)])
    case Wake(i) =>
      var p := s.threads[i];
      if p.gen != s.generation then
        s.(threads := s.threads[i := Out], returned := s.returned + {Return(p.gen, i, p.index)})
      else s.(threads := s.threads[i := Waiting(p.gen, p.index, false)])
    case Reset => Open(s, Round(s.current, false))
  }

  /** The constructor takes a party count below one for one. */
  predicate Init(s: State, asked: int) {
    && s.parties == (if asked < 1 then 1 else asked) && s.count == s.parties && s.generation == 0
    && (forall i | 0 <= i < |s.threads| :: s.threads[i] == Out)
    && s.rounds == [] && s.current == [] && s.returned == {}
  }

  // ---- The invariant ----

  predicate Counters(s: State) {
    s.parties >= 1 && 1 <= s.count <= s.parties && |s.current| == s.parties - s.count && s.generation == |s.rounds|
  }

  /** Who arrived in generation `g` so far. */
  function ArrivalsOf(s: State, g: int): seq<nat> {
    if 0 <= g < |s.rounds| then s.rounds[g].arrivals else if g == |s.rounds| then s.current else []
  }

  /** Thread `t` arrived in generation `g` and was given `index`: the first gets the highest. */
  predicate Seated(s: State, g: int, t: nat, index: int) {
    var j := s.parties - 1 - index;
    0 <= j < |ArrivalsOf(s, g)| && ArrivalsOf(s, g)[j] == t
  }

  /** Sleepers know their generation and index; only those of the current generation are un-notified. */
  predicate Sleepers(s: State) {
    forall i | 0 <= i < |s.threads| && s.threads[i].Waiting? :: Sleeper(s, i, s.threads[i])
  }

  predicate Sleeper(s: State, i: nat, p: Phase)
    requires p.Waiting?
  {
    0 <= p.gen <= s.generation && Seated(s, p.gen, i, p.index) && (p.gen < s.generation ==> p.notified)
  }

  /** Everyone who arrived in the current generation sleeps. */
  predicate Present(s: State) {
    forall j | 0 <= j < |s.current| ::
      && s.current[j] < |s.threads| && s.threads[s.current[j]].Waiting?
      && s.threads[s.current[j]].gen == s.generation && s.threads[s.current[j]].index == s.parties - 1 - j
  }

  ghost predicate RoundOk(s: State, r: Round) {
    NoDup(r.arrivals) && (if r.tripped then |r.arrivals| == s.parties else |r.arrivals| < s.parties)
  }

  ghost predicate Rounds(s: State) {
    forall g | 0 <= g < |s.rounds| :: RoundOk(s, s.rounds[g])
  }

  /** An arrival of a finished generation has returned its index or is about to. */
  predicate Accounted(s: State, g: int, t: nat, index: int) {
    || Return(g, t, index) in s.returned
    || (t < |s.threads| && s.threads[t] == Waiting(g, index, true))
  }

  predicate Released(s: State) {
    forall g, j | 0 <= g < |s.rounds| && 0 <= j < |s.rounds[g].arrivals| ::
      Accounted(s, g, s.rounds[g].arrivals[j], s.parties - 1 - j)
  }

  /** Only arrivals of finished generations return, with the index they were given. */
  predicate TrueReturns(s: State) {
    forall r | r in s.returned :: 0 <= r.gen < s.generation && Seated(s, r.gen, r.thread, r.index)
  }

  ghost predicate Inv(s: State) {
    Counters(s) && Sleepers(s) && Present(s) && Rounds(s) && Released(s) && TrueReturns(s)
  }

  lemma StepCounters(s: State, step: Step)
    requires Counters(s) && Enabled(s, step)
    ensures Counters(Next(s, step))
  {
  }

  lemma StepSleeper(s: State, step: Step, i: nat)
    requires Counters(s) && Enabled(s, step) && i < |s.threads| && Next(s, step).threads[i].Waiting?
    requires s.threads[i].Waiting? ==> Sleeper(s, i, s.threads[i])
    ensures Sleeper(Next(s, step), i, Next(s, step).threads[i])
  {
  }

  lemma StepSleepers(s: State, step: Step)
    requires Counters(s) && Sleepers(s) && Enabled(s, step)
    ensures Sleepers(Next(s, step))
  {
    hide Sleeper, Counters;
    forall i | 0 <= i < |s.threads| && Next(s, step).threads[i].Waiting?
      ensures Sleeper(Next(s, step), i, Next(s, step).threads[i])
    {
      StepSleeper(s, step, i);
    }
  }

  lemma StepPresent(s: State, step: Step)
    requires Inv(s) && Enabled(s, step)
    ensures Present(Next(s, step))
  {
  }

  lemma StepRounds(s: State, step: Step)
    requires Inv(s) && Enabled(s, step)
    ensures Rounds(Next(s, step))
  {
    assert NoDup(s.current);
  }

  lemma StillAccounted(s: State, step: Step, g: int, t: nat, index: int)
    requires Enabled(s, step) && g < s.generation && Accounted(s, g, t, index)
    ensures Accounted(Next(s, step), g, t, index)
  {
  }

  lemma JustOpened(s: State, step: Step, j: nat)
    requires Counters(s) && Present(s) && Enabled(s, step) && Next(s, step).generation == s.generation + 1
    requires j < |Next(s, step).rounds[s.generation].arrivals|
    ensures Accounted(Next(s, step), s.generation, Next(s, step).rounds[s.generation].arrivals[j], s.parties - 1 - j)
  {
  }

  lemma StepReleased(s: State, step: Step)
    requires Inv(s) && Enabled(s, step)
    ensures Released(Next(s, step))
  {
    hide Accounted, Sleepers, Present, Rounds, TrueReturns;
    var s' := Next(s, step);
    forall g, j | 0 <= g < |s'.rounds| && 0 <= j < |s'.rounds[g].arrivals|
      ensures Accounted(s', g, s'.rounds[g].arrivals[j], s'.parties - 1 - j)
    {
      if g < s.generation {
        StillAccounted(s, step, g, s.rounds[g].arrivals[j], s.parties - 1 - j);
      } else {
        JustOpened(s, step, j);
      }
    }
  }

  lemma StepTrueReturns(s: State, step: Step)
    requires Counters(s) && Sleepers(s) && TrueReturns(s) && Enabled(s, step)
    ensures TrueReturns(Next(s, step))
  {
  }

  lemma StepKeepsInv(s: State, step: Step)
    requires Inv(s) && Enabled(s, step)
    ensures Inv(Next(s, step))
  {
    StepCounters(s, step);
    StepSleepers(s, step);
    StepPresent(s, step);
    StepRounds(s, step);
    StepReleased(s, step);
    StepTrueReturns(s, step);
  }

  // ---- Runs ----

  predicate CanRun(s: State, steps: seq<Step>)
    decreases |steps|
  {
    steps == [] || (Enabled(s, steps[0]) && CanRun(Next(s, steps[0]), steps[1..]))
  }

  function RunTo(s: State, steps: seq<Step>): State
    requires CanRun(s, steps)
    decreases |steps|
  {
    if steps == [] then s else RunTo(Next(s, steps[0]), steps[1..])
  }

  lemma {:induction false} RunsKeepInv(s: State, steps: seq<Step>)
    requires Inv(s) && CanRun(s, steps)
    ensures Inv(RunTo(s, steps)) && RunTo(s, steps).parties == s.parties
    decreases |steps|
  {
    if steps != [] {
      assert Next(s, steps[0]).parties == s.parties;
      hide Inv, Next;
      StepKeepsInv(s, steps[0]);
      RunsKeepInv(Next(s, steps[0]), steps[1..]);
    }
  }

  predicate AllTripped(s: State) {
    forall g | 0 <= g < |s.rounds| :: s.rounds[g].tripped
  }

  lemma {:induction false} NoResetAllTripped(s: State, steps: seq<Step>)
    requires CanRun(s, steps) && Reset !in steps && AllTripped(s)
    ensures AllTripped(RunTo(s, steps))
    decreases |steps|
  {
    if steps != [] {
      assert steps[0] in steps && AllTripped(Next(s, steps[0]));
      assert forall x | x in steps[1..] :: x in steps;
      NoResetAllTripped(Next(s, steps[0]), steps[1..]);
    }
  }

  /** Position `j` in the order of arrival, by its index. */
  function Holder(s: State, g: nat, index: nat): nat
    requires g < |s.rounds| && index < s.parties == |s.rounds[g].arrivals|
  {
    s.rounds[g].arrivals[s.parties - 1 - index]
  }

  /**
   * Generation `g` released exactly `parties` different threads, and each index
   * below `parties` went to exactly one of them; each has returned that index
   * or is notified and about to.
   */
  ghost predicate Full(s: State, g: nat) {
    && g < |s.rounds| && s.parties >= 1
    && |s.rounds[g].arrivals| == s.parties && NoDup(s.rounds[g].arrivals)
    && (forall index: nat | index < s.parties :: Accounted(s, g, Holder(s, g, index), index))
    && (forall r | r in s.returned && r.gen == g :: 0 <= r.index < s.parties && r.thread == Holder(s, g, r.index))
  }

  lemma TrippedIsFull(s: State, g: nat)
    requires Inv(s) && g < |s.rounds| && s.rounds[g].tripped
    ensures Full(s, g)
  {
    hide Sleepers, Present, Accounted;
    assert RoundOk(s, s.rounds[g]);
    forall index: nat | index < s.parties
      ensures Accounted(s, g, Holder(s, g, index), index)
    {
      var j := s.parties - 1 - index;
      assert Accounted(s, g, s.rounds[g].arrivals[j], s.parties - 1 - j);
    }
  }

  /** Without a reset every finished generation is full. */
  lemma GenerationsAreFull(s: State, asked: int, steps: seq<Step>, g: nat)
    requires Init(s, asked) && CanRun(s, steps) && Reset !in steps
    ensures |RunTo(s, steps).rounds| == RunTo(s, steps).generation
    ensures g < RunTo(s, steps).generation ==> Full(RunTo(s, steps), g)
  {
    RunsKeepInv(s, steps);
    NoResetAllTripped(s, steps);
    hide RunTo, CanRun, Full, Sleepers, Present, Rounds, Released, TrueReturns;
    if g < RunTo(s, steps).generation {
      TrippedIsFull(RunTo(s, steps), g);
    }
  }

  /** The sleepers of the current generation. */
  function Waiters(s: State): set<nat> {
    set i: nat | i < |s.threads| && s.threads[i].Waiting? && s.threads[i].gen == s.generation
  }

  function Elements(a: seq<nat>): set<nat> {
    set x | x in a
  }

  lemma {:induction false} DistinctSize(a: seq<nat>)
    requires NoDup(a)
    ensures |Elements(a)| == |a|
  {
    if a != [] {
      DistinctSize(a[1..]);
      assert Elements(a) == {a[0]} + Elements(a[1..]);
      assert a[0] !in a[1..];
    } else {
      assert Elements(a) == {};
    }
  }

  /**
   * Resets or not: `parties - count` is the number of waiters of the current
   * generation, and no waiter of an older one is left un-notified.
   */
  lemma WaitersCounted(s: State, asked: int, steps: seq<Step>)
    requires Init(s, asked) && CanRun(s, steps)
    ensures var end := RunTo(s, steps);
            && |Waiters(end)| == end.parties - end.count
            && (forall i | 0 <= i < |end.threads| && end.threads[i].Waiting? && end.threads[i].gen != end.generation ::
                  end.threads[i].notified && Next(end, Wake(i)).threads[i] == Out)
  {
    RunsKeepInv(s, steps);
    var end := RunTo(s, steps);
    hide RunTo, CanRun, Rounds, Released, TrueReturns;
    assert NoDup(end.current);
    DistinctSize(end.current);
    forall i: nat
      ensures i in Waiters(end) <==> i in end.current
    {
      if i in Waiters(end) {
        assert Sleeper(end, i, end.threads[i]);
      }
    }
    assert Waiters(end) == Elements(end.current);
  }

  /** In every reachable state, a sleeper that wakes up comes back, with its index, if and only if its generation is over. */
  lemma ReleasedIff(s: State, asked: int, steps: seq<Step>, i: nat)
    requires Init(s, asked) && CanRun(s, steps) && Enabled(RunTo(s, steps), Wake(i))
    ensures var at := RunTo(s, steps);
            var p, after := at.threads[i], Next(at, Wake(i));
            && (after.threads[i] == Out <==> 0 <= p.gen < |at.rounds|)
            && (after.threads[i] == Out ==> Return(p.gen, i, p.index) in after.returned)
            && (after.threads[i] != Out ==> after.threads[i] == Waiting(p.gen, p.index, false) && p.gen == |at.rounds|)
  {
    RunsKeepInv(s, steps);
    var at := RunTo(s, steps);
    assert Sleeper(at, i, at.threads[i]);
  }

  /** The last of the parties opens the barrier and returns at once with index 0; anyone else sleeps with theirs. */
  lemma TripsIff(s: State, asked: int, steps: seq<Step>, i: nat)
    requires Init(s, asked) && CanRun(s, steps) && Enabled(RunTo(s, steps), Arrive(i))
    ensures var at := RunTo(s, steps);
            var after, missing := Next(at, Arrive(i)), at.parties - |at.current| - 1;
            && missing >= 0
            && (missing == 0 ==> |after.rounds| == |at.rounds| + 1 && after.threads[i] == Out &&
                                 Return(|at.rounds|, i, 0) in after.returned)
            && (missing > 0 ==> after.rounds == at.rounds && after.threads[i] == Waiting(|at.rounds|, missing, false))
  {
    RunsKeepInv(s, steps);
  }

  /** A reset ends the generation and starts a full new one: everyone asleep is told, and returns on waking. */
  lemma ResetReleases(s: State, asked: int, steps: seq<Step>, i: nat)
    requires Init(s, asked) && CanRun(s, steps) && Enabled(RunTo(s, steps), Wake(i))
    ensures var at := RunTo(s, steps);
            var p, after := at.threads[i], Next(at, Reset);
            && after.count == at.parties && after.current == [] && |after.rounds| == |at.rounds| + 1
            && after.threads[i] == Waiting(p.gen, p.index, true)
            && Enabled(after, Wake(i)) && Next(after, Wake(i)).threads[i] == Out
            && Return(p.gen, i, p.index) in Next(after, Wake(i)).returned
  {
    RunsKeepInv(s, steps);
    var at := RunTo(s, steps);
    assert Sleeper(at, i, at.threads[i]);
  }
}
