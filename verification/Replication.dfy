/**
 * Full synchronisation of one replica while clients keep writing: every
 * interleaving of any number of writers with one full sync.
 */
module Replication {
  const SHARDS: nat := 64

  /** Where a write command is: `Listed` has fetched the replica list, `Queued` has passed the locked section. */
  datatype Phase = Idle | Written | Buffered | Listed | Queued | Done

  datatype SyncState = NoSync | Waiting | SendingRdb | SendingKv | Connected

  /** `Snapping(n)`: the first `n` shards are copied. `Draining`: the backlog has been taken and is being sent. */
  datatype SyncPhase = NotStarted | Snapping(n: nat) | Sending | Draining | Finished

  /** Write commands are numbered; `shard` says where each key lives. */
  datatype State = State(
    phases: seq<Phase>,
    replica: SyncState,
    sync: SyncPhase,
    /** The writes whose effect is in the copy of their shard. */
    snapshot: set<nat>,
    pending: seq<nat>,
    backlog: seq<nat>,
    /** Command messages sent to the replica, in order. */
    sent: seq<nat>)

  predicate Applied(s: State, i: nat) {
    i < |s.phases| && s.phases[i] != Idle
  }

  ghost predicate Init(s: State) {
    && (forall i | 0 <= i < |s.phases| :: s.phases[i] == Idle)
    && s.replica != SendingRdb && s.sync == NotStarted
    && s.snapshot == {} && s.pending == [] && s.backlog == [] && s.sent == []
  }

  datatype Step =
    | Write(i: nat)     // the store write
    | Buffer(i: nat)    // add_to_replication_buffer
    | ListReplicas(i: nat)
    | Queue(i: nat)     // under the lock: remember the command if the snapshot is being sent
    | Push(i: nat)      // send it if the replica follows incrementally
    | Mark              // the sync announces itself, without the lock
    | SnapShard         // copy the next shard
    | SendSnapshot
    | TakeBacklog       // under the lock: take the remembered commands and switch over
    | SendOne           // send the next of them
    | Finish

  ghost predicate Moves(s: State, i: nat, from: Phase) {
    i < |s.phases| && s.phases[i] == from
  }

  ghost predicate Enabled(s: State, step: Step) {
    match step
    case Write(i) => Moves(s, i, Idle)
    case Buffer(i) => Moves(s, i, Written)
    case ListReplicas(i) => Moves(s, i, Buffered)
    case Queue(i) => Moves(s, i, Listed)
    case Push(i) => Moves(s, i, Queued)
    case Mark => s.sync == NotStarted
    case SnapShard => s.sync.Snapping? && s.sync.n < SHARDS
    case SendSnapshot => s.sync == Snapping(SHARDS)
    case TakeBacklog => s.sync == Sending
    case SendOne => s.sync == Draining && s.backlog != []
    case Finish => s.sync == Draining && s.backlog == []
  }

  /** The writes already applied to shard `n`. */
  ghost function InShard(s: State, shard: nat -> nat, n: nat): set<nat> {
    set i: nat | i < |s.phases| && Applied(s, i) && shard(i) % SHARDS == n
  }

  ghost function Next(s: State, shard: nat -> nat, step: Step): State
    requires Enabled(s, step)
  {
    match step
    case Write(i) => s.(phases := s.phases[i := Written])
    case Buffer(i) => s.(phases := s.phases[i := Buffered])
    case ListReplicas(i) => s.(phases := s.phases[i := Listed])
    case Queue(i) =>
      s.(phases := s.phases[i := Queued], pending := if s.replica == SendingRdb then s.pending + [i] else s.pending)
    case Push(i) =>
      s.(phases := s.phases[i := Done],
         sent := if s.replica == SendingKv || s.replica == Connected then s.sent + [i] else s.sent)
    case Mark => s.(sync := Snapping(0), replica := SendingRdb)
    case SnapShard => s.(sync := Snapping(s.sync.n + 1), snapshot := s.snapshot + InShard(s, shard, s.sync.n))
    case SendSnapshot => s.(sync := Sending)
    case TakeBacklog => s.(sync := Draining, replica := Connected, backlog := s.pending, pending := [])
    case SendOne => s.(backlog := s.backlog[1..], sent := s.sent + [s.backlog[0]])
    case Finish => s.(sync := Finished)
  }

  // ---- The invariant ----

  ghost predicate InOrder(s: State) {
    && (s.sync == NotStarted ==> s.replica != SendingRdb)
    && (s.sync.Snapping? ==> s.sync.n <= SHARDS)
    && (s.sync.Snapping? || s.sync == Sending ==> s.replica == SendingRdb)
    && (s.sync == Draining || s.sync == Finished ==> s.replica == Connected && s.pending == [])
    && (s.sync != Draining ==> s.backlog == [])
    && (s.sync == NotStarted ==> s.pending == [])
  }

  /** Remembered for the replica, or already sent to it. */
  predicate Kept(s: State, i: nat) {
    i in s.snapshot || i in s.pending || i in s.backlog || i in s.sent
  }

  /** The copy of the shard of `i` is still to be made, so it will hold the write. */
  predicate Ahead(s: State, shard: nat -> nat, i: nat) {
    s.sync == NotStarted || (s.sync.Snapping? && shard(i) % SHARDS >= s.sync.n)
  }

  /** An applied write is kept, or will be copied, queued or pushed. */
  predicate Safe(s: State, shard: nat -> nat, i: nat)
    requires i < |s.phases|
  {
    || Kept(s, i)
    || Ahead(s, shard, i)
    || s.phases[i] == Written || s.phases[i] == Buffered || s.phases[i] == Listed
    || (s.phases[i] == Queued && s.replica == Connected && (s.sync == Draining || s.sync == Finished))
  }

  ghost predicate Inv(s: State, shard: nat -> nat) {
    InOrder(s) && forall i | 0 <= i < |s.phases| && s.phases[i] != Idle :: Safe(s, shard, i)
  }

  /** Nothing kept is ever forgotten. */
  lemma KeptStays(s: State, shard: nat -> nat, step: Step, i: nat)
    requires Enabled(s, step) && InOrder(s) && Kept(s, i)
    ensures Kept(Next(s, shard, step), i)
  {
    if step.SendOne? {
      assert s.backlog == [s.backlog[0]] + s.backlog[1..];
    }
  }

  lemma StepKeepsInv(s: State, shard: nat -> nat, step: Step)
    requires Enabled(s, step) && Inv(s, shard)
    ensures Inv(Next(s, shard, step), shard)
  {
    var s' := Next(s, shard, step);
    forall i | 0 <= i < |s'.phases| && s'.phases[i] != Idle
      ensures Safe(s', shard, i)
    {
      StepKeepsSafe(s, shard, step, i);
    }
  }

  lemma StepKeepsSafe(s: State, shard: nat -> nat, step: Step, i: nat)
    requires Enabled(s, step) && Inv(s, shard)
    requires i < |s.phases| && Next(s, shard, step).phases[i] != Idle
    ensures Safe(Next(s, shard, step), shard, i)
  {
    var s' := Next(s, shard, step);
    if s.phases[i] != Idle {
      assert Safe(s, shard, i);
      if Kept(s, i) {
        KeptStays(s, shard, step, i);
      }
    }
  }

  // ---- Runs ----

  ghost predicate CanRun(s: State, shard: nat -> nat, steps: seq<Step>)
    decreases |steps|
  {
    steps == [] || (Enabled(s, steps[0]) && CanRun(Next(s, shard, steps[0]), shard, steps[1..]))
  }

  ghost function RunTo(s: State, shard: nat -> nat, steps: seq<Step>): State
    requires CanRun(s, shard, steps)
    decreases |steps|
  {
    if steps == [] then s else RunTo(Next(s, shard, steps[0]), shard, steps[1..])
  }

  lemma {:induction false} RunsKeepInv(s: State, shard: nat -> nat, steps: seq<Step>)
    requires Inv(s, shard) && CanRun(s, shard, steps)
    ensures Inv(RunTo(s, shard, steps), shard)
    decreases |steps|
  {
    if steps != [] {
      StepKeepsInv(s, shard, steps[0]);
      RunsKeepInv(Next(s, shard, steps[0]), shard, steps[1..]);
    }
  }

  /**
   * Under every interleaving: once the sync and a write command have finished,
   * the write is in the snapshot, or the command was sent.
   */
  lemma NoWriteLost(s: State, shard: nat -> nat, steps: seq<Step>, i: nat)
    requires Init(s) && CanRun(s, shard, steps) && i < |s.phases|
    ensures var end := RunTo(s, shard, steps);
            && |end.phases| == |s.phases|
            && (end.sync == Finished && end.phases[i] == Done ==> i in end.snapshot || i in end.sent)
  {
    RunsKeepInv(s, shard, steps);
    SameWriters(s, shard, steps);
    var end := RunTo(s, shard, steps);
    assert end.phases[i] != Idle ==> Safe(end, shard, i);
  }

  lemma {:induction false} SameWriters(s: State, shard: nat -> nat, steps: seq<Step>)
    requires CanRun(s, shard, steps)
    ensures |RunTo(s, shard, steps).phases| == |s.phases|
    decreases |steps|
  {
    if steps != [] {
      SameWriters(Next(s, shard, steps[0]), shard, steps[1..]);
    }
  }

  // ---- Nothing is invented, and nothing is sent more than twice ----

  ghost function Times(a: seq<nat>, i: nat): nat {
    multiset(a)[i]
  }

  function One(b: bool): nat {
    if b then 1 else 0
  }

  lemma TimesEnds(a: seq<nat>, x: nat, i: nat)
    ensures Times(a + [x], i) == Times(a, i) + One(x == i)
    ensures a != [] ==> Times(a, i) == One(a[0] == i) + Times(a[1..], i)
    ensures Times([], i) == 0
  {
    if a != [] {
      assert a == [a[0]] + a[1..];
    }
  }

  /** How often command `i` is queued, in the backlog or sent. */
  ghost function Copies(s: State, i: nat): nat {
    Times(s.pending, i) + Times(s.backlog, i) + Times(s.sent, i)
  }

  /** A step makes a copy of the command it queues or pushes, and of no other. */
  lemma StepMakesCopies(s: State, shard: nat -> nat, step: Step, i: nat)
    requires Enabled(s, step) && (s.sync != Draining ==> s.backlog == [])
    ensures Copies(Next(s, shard, step), i) == Copies(s, i)
            + One(step == Queue(i) && s.replica == SendingRdb)
            + One(step == Push(i) && (s.replica == SendingKv || s.replica == Connected))
  {
    hide Times;
    match step {
      case Queue(j) => TimesEnds(s.pending, j, i);
      case Push(j) => TimesEnds(s.sent, j, i);
      case SendOne =>
        TimesEnds(s.backlog, 0, i);
        TimesEnds(s.sent, s.backlog[0], i);
      case _ => TimesEnds([], 0, i);
    }
  }

  ghost function Allowed(p: Phase): nat {
    if p == Done then 2 else if p == Queued then 1 else 0
  }

  ghost predicate Bounded(s: State) {
    && (forall i | 0 <= i < |s.phases| :: Copies(s, i) <= Allowed(s.phases[i]))
    && (forall i | i in s.snapshot :: Applied(s, i))
    && (s.sync != Draining ==> s.backlog == [])
  }

  lemma StepCopies(s: State, shard: nat -> nat, step: Step, i: nat)
    requires Enabled(s, step) && i < |s.phases| && (s.sync != Draining ==> s.backlog == [])
    requires Copies(s, i) <= Allowed(s.phases[i])
    ensures Copies(Next(s, shard, step), i) <= Allowed(Next(s, shard, step).phases[i])
  {
    hide Copies;
    StepMakesCopies(s, shard, step, i);
  }

  lemma StepKeepsBounded(s: State, shard: nat -> nat, step: Step)
    requires Enabled(s, step) && Bounded(s)
    ensures Bounded(Next(s, shard, step))
  {
    hide Copies, Allowed;
    forall i | 0 <= i < |s.phases|
      ensures Copies(Next(s, shard, step), i) <= Allowed(Next(s, shard, step).phases[i])
    {
      StepCopies(s, shard, step, i);
    }
  }

  lemma {:induction false} RunsKeepBounded(s: State, shard: nat -> nat, steps: seq<Step>)
    requires Bounded(s) && CanRun(s, shard, steps)
    ensures Bounded(RunTo(s, shard, steps))
    decreases |steps|
  {
    if steps != [] {
      StepKeepsBounded(s, shard, steps[0]);
      RunsKeepBounded(Next(s, shard, steps[0]), shard, steps[1..]);
    }
  }

  /** Only executed writes reach the replica, each command at most twice. */
  lemma AtMostTwice(s: State, shard: nat -> nat, steps: seq<Step>, i: nat)
    requires Init(s) && CanRun(s, shard, steps) && i < |s.phases|
    ensures var end := RunTo(s, shard, steps);
            && |end.phases| == |s.phases| && Times(end.sent, i) <= 2
            && (i in end.snapshot || i in end.sent ==> Applied(end, i))
  {
    RunsKeepBounded(s, shard, steps);
    SameWriters(s, shard, steps);
    var end := RunTo(s, shard, steps);
    assert Copies(end, i) <= Allowed(end.phases[i]);
  }

  // ---- How often a command is sent, exactly ----

  /** In this run the locked section remembers command `i`: the snapshot is being sent then. */
  ghost predicate Queues(s: State, shard: nat -> nat, steps: seq<Step>, i: nat)
    requires CanRun(s, shard, steps)
    decreases |steps|
  {
    steps != [] &&
    ((steps[0] == Queue(i) && s.replica == SendingRdb) || Queues(Next(s, shard, steps[0]), shard, steps[1..], i))
  }

  /** In this run the loop after it pushes command `i`: the replica follows incrementally then. */
  ghost predicate Pushes(s: State, shard: nat -> nat, steps: seq<Step>, i: nat)
    requires CanRun(s, shard, steps)
    decreases |steps|
  {
    steps != [] &&
    ((steps[0] == Push(i) && (s.replica == SendingKv || s.replica == Connected)) ||
     Pushes(Next(s, shard, steps[0]), shard, steps[1..], i))
  }

  /** A writer passes each of the two places once. */
  lemma {:induction false} OnceEach(s: State, shard: nat -> nat, steps: seq<Step>, i: nat)
    requires CanRun(s, shard, steps) && i < |s.phases|
    ensures s.phases[i] == Queued || s.phases[i] == Done ==> !Queues(s, shard, steps, i)
    ensures s.phases[i] == Done ==> !Pushes(s, shard, steps, i)
    decreases |steps|
  {
    if steps != [] {
      OnceEach(Next(s, shard, steps[0]), shard, steps[1..], i);
    }
  }

  /** Queue, backlog and wire conserve commands: every copy made is in exactly one of them. */
  lemma {:induction false} CopiesConserved(s: State, shard: nat -> nat, steps: seq<Step>, i: nat)
    requires CanRun(s, shard, steps) && i < |s.phases| && Inv(s, shard)
    ensures Copies(RunTo(s, shard, steps), i) ==
            Copies(s, i) + One(Queues(s, shard, steps, i)) + One(Pushes(s, shard, steps, i))
    decreases |steps|
  {
    if steps != [] {
      var s' := Next(s, shard, steps[0]);
      StepMakesCopies(s, shard, steps[0], i);
      StepKeepsInv(s, shard, steps[0]);
      hide Copies, Inv;
      CopiesConserved(s', shard, steps[1..], i);
      OnceEach(s', shard, steps[1..], i);
    }
  }

  /**
   * Once the sync has finished, a command has been sent once for being queued
   * and once for being pushed: twice exactly when the replica's state flipped
   * between the two, not at all exactly when neither happened.
   */
  lemma SentExactly(s: State, shard: nat -> nat, steps: seq<Step>, i: nat)
    requires Init(s) && CanRun(s, shard, steps) && i < |s.phases| && RunTo(s, shard, steps).sync == Finished
    ensures Times(RunTo(s, shard, steps).sent, i) ==
            One(Queues(s, shard, steps, i)) + One(Pushes(s, shard, steps, i))
  {
    CopiesConserved(s, shard, steps, i);
    RunsKeepInv(s, shard, steps);
  }

  // ---- Building runs ----

  lemma {:induction false} Then(s: State, shard: nat -> nat, a: seq<Step>, b: seq<Step>)
    requires CanRun(s, shard, a) && CanRun(RunTo(s, shard, a), shard, b)
    ensures CanRun(s, shard, a + b) && RunTo(s, shard, a + b) == RunTo(RunTo(s, shard, a), shard, b)
    decreases |a|
  {
    if a == [] {
      assert a + b == b;
    } else {
      assert (a + b)[1..] == a[1..] + b;
      Then(Next(s, shard, a[0]), shard, a[1..], b);
    }
  }

  /** The copying can always run to its end. */
  lemma {:induction false} CopyShards(s: State, shard: nat -> nat) returns (steps: seq<Step>)
    requires s.sync.Snapping? && s.sync.n <= SHARDS
    ensures CanRun(s, shard, steps)
    ensures var end := RunTo(s, shard, steps);
            end.sync == Snapping(SHARDS) && end == s.(sync := end.sync, snapshot := end.snapshot)
    decreases SHARDS - s.sync.n
  {
    if s.sync.n == SHARDS {
      steps := [];
    } else {
      var s' := Next(s, shard, SnapShard);
      var rest := CopyShards(s', shard);
      steps := [SnapShard] + rest;
      assert steps[1..] == rest;
    }
  }

  lemma More(s: State, shard: nat -> nat, steps: seq<Step>, step: Step) returns (longer: seq<Step>)
    requires CanRun(s, shard, steps) && Enabled(RunTo(s, shard, steps), step)
    ensures longer == steps + [step] && CanRun(s, shard, longer)
    ensures RunTo(s, shard, longer) == Next(RunTo(s, shard, steps), shard, step)
  {
    longer := steps + [step];
    var end := RunTo(s, shard, steps);
    assert CanRun(Next(end, shard, step), shard, [step][1..]);
    assert CanRun(end, shard, [step]) && RunTo(end, shard, [step]) == RunTo(Next(end, shard, step), shard, [step][1..]);
    Then(s, shard, steps, [step]);
  }

  /** The writer `i` from its store write to the fetched replica list. */
  lemma Start(s: State, shard: nat -> nat, steps: seq<Step>, i: nat) returns (longer: seq<Step>)
    requires CanRun(s, shard, steps) && Moves(RunTo(s, shard, steps), i, Idle)
    ensures longer == steps + [Write(i), Buffer(i), ListReplicas(i)] && CanRun(s, shard, longer)
    ensures RunTo(s, shard, longer) == RunTo(s, shard, steps).(phases := RunTo(s, shard, steps).phases[i := Listed])
  {
    hide CanRun, RunTo;
    var end := RunTo(s, shard, steps);
    longer := More(s, shard, steps, Write(i));
    longer := More(s, shard, longer, Buffer(i));
    longer := More(s, shard, longer, ListReplicas(i));
    assert end.phases[i := Written][i := Buffered][i := Listed] == end.phases[i := Listed];
  }

  lemma Empty(s: State, shard: nat -> nat)
    ensures CanRun(s, shard, []) && RunTo(s, shard, []) == s
  {
  }
}
