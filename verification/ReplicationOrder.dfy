/**
 * The order in which commands reach the replica: exactly when a run keeps it,
 * and runs in which it is lost.
 */
module ReplicationOrder {
  import opened Replication

  /** Every copy of `i` stands before every copy of `j`. */
  ghost predicate Precedes(sent: seq<nat>, i: nat, j: nat) {
    forall a, b | 0 <= a < |sent| && 0 <= b < |sent| && sent[a] == i && sent[b] == j :: a < b
  }

  /** Some `i` stands behind some `j`. */
  predicate Swapped(t: seq<nat>, i: nat, j: nat) {
    t != [] && ((t[0] == j && i in t[1..]) || Swapped(t[1..], i, j))
  }

  lemma {:induction false} SwappedMeans(t: seq<nat>, i: nat, j: nat)
    requires i != j
    ensures Swapped(t, i, j) <==> !Precedes(t, i, j)
  {
    if t != [] {
      SwappedMeans(t[1..], i, j);
      if t[0] == j && i in t[1..] {
        var a :| 0 <= a < |t| - 1 && t[1..][a] == i;
        assert t[a + 1] == i && t[0] == j;
      }
      if !Precedes(t[1..], i, j) {
        var a, b :| 0 <= a < |t| - 1 && 0 <= b < |t| - 1 && t[1..][a] == i && t[1..][b] == j && a >= b;
        assert t[a + 1] == i && t[b + 1] == j;
      }
      if !Precedes(t, i, j) {
        var a, b :| 0 <= a < |t| && 0 <= b < |t| && t[a] == i && t[b] == j && a >= b;
        assert t[1..][a - 1] == i;
        assert b > 0 ==> t[1..][b - 1] == j;
      }
    }
  }

  /** In front of everything there is only what is not `j`. */
  lemma {:induction false} SwappedBehind(a: seq<nat>, t: seq<nat>, i: nat, j: nat)
    requires j !in a
    ensures Swapped(a + t, i, j) <==> Swapped(t, i, j)
  {
    if a == [] {
      assert a + t == t;
    } else {
      assert (a + t)[1..] == a[1..] + t;
      SwappedBehind(a[1..], t, i, j);
    }
  }

  lemma {:induction false} SwappedWithLast(t: seq<nat>, x: nat, i: nat, j: nat)
    requires x != i
    ensures Swapped(t + [x], i, j) <==> Swapped(t, i, j)
  {
    if t == [] {
      assert t + [x] == [x];
    } else {
      assert (t + [x])[1..] == t[1..] + [x];
      SwappedWithLast(t[1..], x, i, j);
    }
  }

  // ---- What a run sends ----

  predicate Follows(s: State) {
    s.replica == SendingKv || s.replica == Connected
  }

  /** What the step puts on the wire. */
  ghost function Sends(s: State, step: Step): seq<nat>
    requires Enabled(s, step)
  {
    match step
    case Push(i) => if Follows(s) then [i] else []
    case SendOne => [s.backlog[0]]
    case _ => []
  }

  ghost function SentIn(s: State, shard: nat -> nat, steps: seq<Step>): seq<nat>
    requires CanRun(s, shard, steps)
    decreases |steps|
  {
    if steps == [] then [] else Sends(s, steps[0]) + SentIn(Next(s, shard, steps[0]), shard, steps[1..])
  }

  lemma {:induction false} WireGrows(s: State, shard: nat -> nat, steps: seq<Step>)
    requires CanRun(s, shard, steps)
    ensures RunTo(s, shard, steps).sent == s.sent + SentIn(s, shard, steps)
    decreases |steps|
  {
    if steps != [] {
      var s' := Next(s, shard, steps[0]);
      assert s'.sent == s.sent + Sends(s, steps[0]);
      WireGrows(s', shard, steps[1..]);
    }
  }

  /** A copy of `i` is still to be sent: remembered already, or queued or pushed later. */
  ghost predicate ToCome(s: State, shard: nat -> nat, steps: seq<Step>, i: nat)
    requires CanRun(s, shard, steps)
  {
    i in s.pending || i in s.backlog || Queues(s, shard, steps, i) || Pushes(s, shard, steps, i)
  }

  lemma TimesSum(a: seq<nat>, b: seq<nat>, i: nat)
    ensures Times(a + b, i) == Times(a, i) + Times(b, i)
    ensures Times(a, i) > 0 <==> i in a
  {
  }

  /** Until the sync has finished, exactly what is still to come is sent. */
  lemma ToComeIsSent(s: State, shard: nat -> nat, steps: seq<Step>, i: nat)
    requires CanRun(s, shard, steps) && Inv(s, shard) && i < |s.phases| && RunTo(s, shard, steps).sync == Finished
    ensures ToCome(s, shard, steps, i) <==> i in SentIn(s, shard, steps)
  {
    hide Times, CanRun, RunTo, SentIn, Queues, Pushes;
    WireGrows(s, shard, steps);
    CopiesConserved(s, shard, steps, i);
    RunsKeepInv(s, shard, steps);
    TimesSum(s.sent, SentIn(s, shard, steps), i);
    TimesSum(s.pending, s.backlog, i);
    TimesSum(s.backlog, [], i);
    TimesSum(SentIn(s, shard, steps), [], i);
    TimesEnds([], 0, i);
  }

  /** Some step sends `j` while a copy of `i` is still to come. */
  ghost predicate Overtaken(s: State, shard: nat -> nat, steps: seq<Step>, i: nat, j: nat)
    requires CanRun(s, shard, steps)
    decreases |steps|
  {
    steps != [] &&
    var s' := Next(s, shard, steps[0]);
    (Sends(s, steps[0]) == [j] && ToCome(s', shard, steps[1..], i)) || Overtaken(s', shard, steps[1..], i, j)
  }

  lemma {:induction false} OvertakenIff(s: State, shard: nat -> nat, steps: seq<Step>, i: nat, j: nat)
    requires CanRun(s, shard, steps) && Inv(s, shard) && i < |s.phases| && RunTo(s, shard, steps).sync == Finished
    ensures Overtaken(s, shard, steps, i, j) <==> Swapped(SentIn(s, shard, steps), i, j)
    decreases |steps|
  {
    if steps != [] {
      var s', rest := Next(s, shard, steps[0]), steps[1..];
      StepKeepsInv(s, shard, steps[0]);
      ToComeIsSent(s', shard, rest, i);
      OvertakenIff(s', shard, rest, i, j);
      var all, later := SentIn(s, shard, steps), SentIn(s', shard, rest);
      hide ToCome, Inv, Next;
      if Sends(s, steps[0]) == [] {
        assert all == later;
      } else {
        assert all[1..] == later;
      }
    }
  }

  /**
   * Any two commands of any run whose sync has finished: every copy of `i` was
   * sent before every copy of `j` if and only if no step sent `j` while a copy
   * of `i` was remembered, or was still going to be queued or pushed.
   */
  lemma OrderKeptIff(s: State, shard: nat -> nat, steps: seq<Step>, i: nat, j: nat)
    requires Init(s) && CanRun(s, shard, steps) && RunTo(s, shard, steps).sync == Finished
    requires i < |s.phases| && j < |s.phases| && i != j
    ensures Precedes(RunTo(s, shard, steps).sent, i, j) <==> !Overtaken(s, shard, steps, i, j)
  {
    WireGrows(s, shard, steps);
    assert s.sent + SentIn(s, shard, steps) == SentIn(s, shard, steps);
    OvertakenIff(s, shard, steps, i, j);
    SwappedMeans(SentIn(s, shard, steps), i, j);
  }

  // ---- One command after the other ----

  /** The command has not reached the locked section yet. */
  predicate NotQueued(s: State, j: nat) {
    j < |s.phases| && s.phases[j] != Queued && s.phases[j] != Done
  }

  /** Some step pushes `j` while `i` is in the backlog. */
  ghost predicate PushedPast(s: State, shard: nat -> nat, steps: seq<Step>, i: nat, j: nat)
    requires CanRun(s, shard, steps)
    decreases |steps|
  {
    steps != [] &&
    ((steps[0] == Push(j) && i in s.backlog) || PushedPast(Next(s, shard, steps[0]), shard, steps[1..], i, j))
  }

  /** `i` is through, and wherever both are remembered it stands first. */
  ghost predicate StandsFirst(s: State, i: nat, j: nat) {
    && i < |s.phases| && s.phases[i] == Done && i != j
    && !Swapped(s.pending, i, j) && !Swapped(s.backlog, i, j)
  }

  lemma StepKeepsFirst(s: State, shard: nat -> nat, step: Step, i: nat, j: nat)
    requires Enabled(s, step) && InOrder(s) && StandsFirst(s, i, j)
    ensures StandsFirst(Next(s, shard, step), i, j)
  {
    match step {
      case Queue(k) => SwappedWithLast(s.pending, k, i, j);
      case _ =>
    }
  }

  /** The only step that can send `j` past a finished `i`. */
  lemma StepOvertakes(s: State, shard: nat -> nat, steps: seq<Step>, i: nat, j: nat)
    requires steps != [] && CanRun(s, shard, steps) && InOrder(s) && StandsFirst(s, i, j)
    ensures Sends(s, steps[0]) == [j] && ToCome(Next(s, shard, steps[0]), shard, steps[1..], i) <==>
            steps[0] == Push(j) && i in s.backlog
  {
    var s' := Next(s, shard, steps[0]);
    StepKeepsFirst(s, shard, steps[0], i, j);
    OnceEach(s', shard, steps[1..], i);
  }

  lemma {:induction false} OvertakenByPush(s: State, shard: nat -> nat, steps: seq<Step>, i: nat, j: nat)
    requires CanRun(s, shard, steps) && Inv(s, shard) && StandsFirst(s, i, j)
    ensures Overtaken(s, shard, steps, i, j) <==> PushedPast(s, shard, steps, i, j)
    decreases |steps|
  {
    if steps != [] {
      StepOvertakes(s, shard, steps, i, j);
      StepKeepsFirst(s, shard, steps[0], i, j);
      StepKeepsInv(s, shard, steps[0]);
      hide ToCome, Inv, Next, StandsFirst, Sends;
      OvertakenByPush(Next(s, shard, steps[0]), shard, steps[1..], i, j);
    }
  }

  /**
   * A command `i` that was through before `j` came to the locked section, in
   * any run whose sync has finished: every copy of `i` was sent before every
   * copy of `j` if and only if `j` was never pushed while `i` was in the backlog.
   */
  lemma FinishedFirstIff(s: State, shard: nat -> nat, before: seq<Step>, after: seq<Step>, i: nat, j: nat)
    requires Init(s) && CanRun(s, shard, before) && CanRun(RunTo(s, shard, before), shard, after)
    requires Moves(RunTo(s, shard, before), i, Done) && NotQueued(RunTo(s, shard, before), j)
    requires RunTo(RunTo(s, shard, before), shard, after).sync == Finished
    ensures CanRun(s, shard, before + after)
    ensures Precedes(RunTo(s, shard, before + after).sent, i, j) <==>
            !PushedPast(RunTo(s, shard, before), shard, after, i, j)
  {
    var mid := RunTo(s, shard, before);
    Then(s, shard, before, after);
    RunsKeepInv(s, shard, before);
    NoCopiesYet(s, shard, before, j);
    hide CanRun, RunTo, Inv, SentIn, Overtaken, PushedPast, Swapped, Precedes;
    WireGrows(mid, shard, after);
    NotSwapped(mid.pending, i, j);
    NotSwapped(mid.backlog, i, j);
    OvertakenByPush(mid, shard, after, i, j);
    OvertakenIff(mid, shard, after, i, j);
    SwappedBehind(mid.sent, SentIn(mid, shard, after), i, j);
    SwappedMeans(mid.sent + SentIn(mid, shard, after), i, j);
  }

  lemma {:induction false} NotSwapped(t: seq<nat>, i: nat, j: nat)
    requires j !in t
    ensures !Swapped(t, i, j)
  {
    if t != [] {
      NotSwapped(t[1..], i, j);
    }
  }

  lemma NoCopiesYet(s: State, shard: nat -> nat, steps: seq<Step>, j: nat)
    requires Init(s) && CanRun(s, shard, steps) && NotQueued(RunTo(s, shard, steps), j)
    ensures var end := RunTo(s, shard, steps); j !in end.pending && j !in end.backlog && j !in end.sent
  {
    RunsKeepBounded(s, shard, steps);
    var end := RunTo(s, shard, steps);
    assert Copies(end, j) <= Allowed(end.phases[j]);
    TimesSum(end.pending, [], j);
    TimesSum(end.backlog, [], j);
    TimesSum(end.sent, [], j);
  }

  // ---- Without a sync ----

  /** The commands pushed, in order. */
  function Pushed(steps: seq<Step>): seq<nat> {
    if steps == [] then [] else (if steps[0].Push? then [steps[0].i] else []) + Pushed(steps[1..])
  }

  /** As long as no sync starts, a replica that follows gets the commands in the order of the pushes, each once. */
  lemma {:induction false} WireIsPushOrder(s: State, shard: nat -> nat, steps: seq<Step>)
    requires CanRun(s, shard, steps) && Mark !in steps && s.sync == NotStarted && Follows(s)
    ensures RunTo(s, shard, steps).sent == s.sent + Pushed(steps)
    decreases |steps|
  {
    if steps != [] {
      var s' := Next(s, shard, steps[0]);
      WireIsPushOrder(s', shard, steps[1..]);
      assert s'.sent == s.sent + if steps[0].Push? then [steps[0].i] else [];
    }
  }

  // ---- Runs that lose the order ----

  /** Two overlapping writes, the replica following all the time: the command of the older write is sent last. */
  lemma OvertakenWithoutSync(shard: nat -> nat) returns (s: State, steps: seq<Step>)
    ensures Init(s) && |s.phases| == 2 && CanRun(s, shard, steps) && Mark !in steps
    ensures RunTo(s, shard, steps).sent == [1, 0]
    ensures exists a, b | 0 <= a < b < |steps| :: steps[a] == Write(0) && steps[b] == Write(1)
  {
    hide CanRun, RunTo;
    s := State([Idle, Idle], Connected, NotStarted, {}, [], [], []);
    Empty(s, shard);
    steps := Start(s, shard, [], 0);
    steps := Start(s, shard, steps, 1);
    steps := More(s, shard, steps, Queue(1));
    steps := More(s, shard, steps, Push(1));
    steps := More(s, shard, steps, Queue(0));
    steps := More(s, shard, steps, Push(0));
    assert steps[0] == Write(0) && steps[3] == Write(1);
  }

  /** A write command that is queued during the sync and pushed after the switch: it is sent, and in the backlog. */
  lemma SentAndRemembered(shard: nat -> nat) returns (s: State, steps: seq<Step>)
    ensures Init(s) && |s.phases| == 2 && CanRun(s, shard, steps) && steps != [] && steps[0] == Write(0)
    ensures var end := RunTo(s, shard, steps);
            end == State([Done, Idle], Connected, Draining, end.snapshot, [], [0], [0])
  {
    hide CanRun, RunTo;
    s := State([Idle, Idle], Waiting, NotStarted, {}, [], [], []);
    Empty(s, shard);
    steps := Start(s, shard, [], 0);
    steps := More(s, shard, steps, Mark);
    var copying := CopyShards(RunTo(s, shard, steps), shard);
    Then(s, shard, steps, copying);
    steps := steps + copying;
    steps := More(s, shard, steps, Queue(0));
    steps := More(s, shard, steps, SendSnapshot);
    steps := More(s, shard, steps, TakeBacklog);
    steps := More(s, shard, steps, Push(0));
  }

  /**
   * A run of two writes, one after the other, in which the older command is sent
   * twice, the second time after the newer one.
   */
  lemma OlderCommandSentLast(shard: nat -> nat) returns (s: State, steps: seq<Step>)
    ensures Init(s) && |s.phases| == 2 && CanRun(s, shard, steps)
    ensures RunTo(s, shard, steps).sent == [0, 1, 0] && RunTo(s, shard, steps).sync == Finished
    ensures exists a, b | 0 <= a < b < |steps| :: steps[a] == Write(0) && steps[b] == Write(1)
  {
    hide CanRun, RunTo, Init;
    s, steps := SentAndRemembered(shard);
    ghost var b := |steps|;
    steps := Start(s, shard, steps, 1);
    steps := More(s, shard, steps, Queue(1));
    steps := More(s, shard, steps, Push(1));
    steps := More(s, shard, steps, SendOne);
    steps := More(s, shard, steps, Finish);
    assert steps[0] == Write(0) && steps[b] == Write(1);
  }
}
