/**
 * The thread pool: submitters, workers and one stop, every interleaving. The
 * queue lock has an explicit holder, because the stop flag is set without it.
 */
module ThreadPool {
  import opened Wrappers
  import opened Seqs

  datatype Worker =
    | Ready                     // about to take a task
    | Asleep(notified: bool)
    | Deciding                  // holds the lock, the wait condition was true
    | Running(task: nat)
    | Exited

  /** `Checked` holds the lock and saw the stop flag down; `Pushed` has still to notify. */
  datatype Submitter = Before | Checked | Pushed | Accepted | Rejected

  datatype Stopper = NotYet | FlagSet | AllNotified

  datatype Holder = Free | ByWorker(w: nat) | BySubmitter(j: nat)

  /** Tasks are named by their submitter. */
  datatype State = State(
    workers: seq<Worker>,
    submitters: seq<Submitter>,
    stopper: Stopper,
    lock: Holder,
    stop: bool,
    queue: seq<nat>,
    /** Tasks pushed and tasks taken off, in order. */
    pushed: seq<nat>,
    taken: seq<nat>)

  datatype Step =
    | Check(j: nat)              // submit: lock, look at the flag
    | Push(j: nat)               // submit: push, unlock
    | NotifyOne(j: nat, woken: Option<nat>)
    | Look(w: nat)               // take_task: lock, evaluate the condition; sleep if it is false
    | Take(w: nat)               // take_task: leave or take the front task, unlock
    | RunTask(w: nat)
    | SetFlag                    // stop, without the lock
    | NotifyAll                  // stop, under the lock

  predicate Sleeping(s: State, w: nat) {
    w < |s.workers| && s.workers[w] == Asleep(false)
  }

  ghost predicate Enabled(s: State, step: Step) {
    match step
    case Check(j) => j < |s.submitters| && s.submitters[j] == Before && s.lock == Free
    case Push(j) => j < |s.submitters| && s.submitters[j] == Checked
    case NotifyOne(j, w) =>
      && j < |s.submitters| && s.submitters[j] == Pushed
      && (w.Some? ==> Sleeping(s, w.value))
      && (w.None? ==> forall v: nat :: !Sleeping(s, v))
    case Look(w) => w < |s.workers| && (s.workers[w] == Ready || s.workers[w].Asleep?) && s.lock == Free
    case Take(w) => w < |s.workers| && s.workers[w] == Deciding && (s.queue == [] ==> s.stop)
    case RunTask(w) => w < |s.workers| && s.workers[w].Running?
    case SetFlag => s.stopper == NotYet
    case NotifyAll => s.stopper == FlagSet && s.lock == Free
  }

  function Told(w: Worker): Worker {
    if w.Asleep? then Asleep(true) else w
  }

  ghost function Next(s: State, step: Step): State
    requires Enabled(s, step)
  {
    match step
    case Check(j) =>
      if s.stop then s.(submitters := s.submitters[j := Rejected])
      else s.(submitters := s.submitters[j := Checked], lock := BySubmitter(j))
    case Push(j) =>
      s.(submitters := s.submitters[j := Pushed], lock := Free, queue := s.queue + [j], pushed := s.pushed + [j])
    case NotifyOne(j, w) =>
      s.(submitters := s.submitters[j := Accepted],
         workers := if w.Some? then s.workers[w.value := Asleep(true)] else s.workers)
    case Look(w) =>
      if s.queue != [] || s.stop then s.(workers := s.workers[w := Deciding], lock := ByWorker(w))
      else s.(workers := s.workers[w := Asleep(false)])
    case Take(w) =>
      if s.queue == [] then s.(workers := s.workers[w := Exited], lock := Free)
      else
        s.(workers := s.workers[w := Running(s.queue[0])], lock := Free,
           queue := s.queue[1..], taken := s.taken + [s.queue[0]])
    case RunTask(w) => s.(workers := s.workers[w := Ready])
    case SetFlag => s.(stop := true, stopper := FlagSet)
    case NotifyAll =>
      s.(stopper := AllNotified,
         workers := seq(|s.workers|, i requires 0 <= i < |s.workers| => Told(s.workers[i])))
  }

  ghost predicate Init(s: State) {
    && (forall w | 0 <= w < |s.workers| :: s.workers[w] == Ready)
    && (forall j | 0 <= j < |s.submitters| :: s.submitters[j] == Before)
    && s.stopper == NotYet && s.lock == Free && !s.stop && s.queue == [] && s.pushed == [] && s.taken == []
  }

  // ---- The invariant ----

  /** The lock is held by exactly those inside. */
  predicate Locking(s: State) {
    && (forall w | 0 <= w < |s.workers| :: s.workers[w] == Deciding <==> s.lock == ByWorker(w))
    && (forall j | 0 <= j < |s.submitters| :: s.submitters[j] == Checked <==> s.lock == BySubmitter(j))
    && (s.lock.ByWorker? ==> s.lock.w < |s.workers| && (s.queue != [] || s.stop))
    && (s.lock.BySubmitter? ==> s.lock.j < |s.submitters|)
    && (s.stop <==> s.stopper != NotYet)
  }

  predicate IsIn(s: State, j: nat) {
    j < |s.submitters| && (s.submitters[j] == Pushed || s.submitters[j] == Accepted)
  }

  /** First in, first out: what was pushed is what was taken and then what is queued; each accepted task once. */
  ghost predicate Fifo(s: State) {
    && s.pushed == s.taken + s.queue && NoDup(s.pushed)
    && (forall j: nat :: j in s.pushed <==> IsIn(s, j))
  }

  /** Once a worker has gone, nothing is queued and nothing will be. */
  predicate Closed(s: State) {
    (exists w | 0 <= w < |s.workers| :: s.workers[w] == Exited) ==> s.stop && s.queue == [] && !s.lock.BySubmitter?
  }

  /** No sleeper is left behind: after the stop's notification all are told. */
  predicate AllTold(s: State) {
    s.stopper == AllNotified ==> forall w | 0 <= w < |s.workers| :: s.workers[w] != Asleep(false)
  }

  predicate Attentive(w: Worker) {
    w != Exited && w != Asleep(false)
  }

  /** A queued task has a worker that will look, or a notification on its way. */
  predicate Watched(s: State) {
    s.queue != [] && |s.workers| > 0 ==>
      || (exists w | 0 <= w < |s.workers| :: Attentive(s.workers[w]))
      || (exists j | 0 <= j < |s.submitters| :: s.submitters[j] == Pushed)
  }

  ghost predicate Inv(s: State) {
    Locking(s) && Fifo(s) && Closed(s) && AllTold(s) && Watched(s)
  }

  lemma StepLocking(s: State, step: Step)
    requires Locking(s) && Enabled(s, step)
    ensures Locking(Next(s, step))
  {
  }

  lemma StepFifo(s: State, step: Step)
    requires Fifo(s) && Enabled(s, step)
    ensures Fifo(Next(s, step))
  {
    var s' := Next(s, step);
    if step.Push? {
      assert step.j !in s.pushed;
      assert s'.pushed == s'.taken + s'.queue;
      forall j: nat
        ensures j in s'.pushed <==> IsIn(s', j)
      {
        assert j in s'.pushed <==> j in s.pushed || j == step.j;
        assert j in s.pushed <==> IsIn(s, j);
      }
    } else {
      forall j: nat
        ensures j in s'.pushed <==> IsIn(s', j)
      {
        assert j in s.pushed <==> IsIn(s, j);
      }
    }
  }

  lemma StepClosed(s: State, step: Step)
    requires Locking(s) && Closed(s) && Enabled(s, step)
    ensures Closed(Next(s, step))
  {
    var s' := Next(s, step);
    if w :| 0 <= w < |s'.workers| && s'.workers[w] == Exited {
      if s.workers[w] == Exited {
        assert s.stop && s.queue == [] && !s.lock.BySubmitter?;
      } else {
        assert step == Take(w) && s.lock == ByWorker(w);
      }
    }
  }

  lemma StepAllTold(s: State, step: Step)
    requires Locking(s) && AllTold(s) && Enabled(s, step)
    ensures AllTold(Next(s, step))
  {
  }

  lemma StepWatched(s: State, step: Step)
    requires Inv(s) && Enabled(s, step)
    ensures Watched(Next(s, step))
  {
    hide Fifo, AllTold;
    var s' := Next(s, step);
    if s'.queue == [] || |s'.workers| == 0 {
      return;
    }
    match step
    case Push(j) => assert s'.submitters[j] == Pushed;
    case NotifyOne(j, woken) =>
      var w := if woken.Some? then woken.value else 0;
      assert woken.None? ==> !Sleeping(s, w);
      assert Attentive(s'.workers[w]);
    case Look(w) => assert Attentive(s'.workers[w]);
    case Take(w) => assert Attentive(s'.workers[w]);
    case RunTask(w) => assert Attentive(s'.workers[w]);
    case _ => StaysWatched(s, step);
  }

  /** Steps that leave the queue alone and put nobody to sleep. */
  lemma StaysWatched(s: State, step: Step)
    requires Watched(s) && Enabled(s, step) && (step.Check? || step.SetFlag? || step.NotifyAll?)
    ensures Watched(Next(s, step))
  {
    var s' := Next(s, step);
    if s.queue != [] && |s.workers| > 0 {
      if w :| 0 <= w < |s.workers| && Attentive(s.workers[w]) {
        assert Attentive(s'.workers[w]);
      } else {
        var j :| 0 <= j < |s.submitters| && s.submitters[j] == Pushed;
        assert s'.submitters[j] == Pushed;
      }
    }
  }

  lemma StepKeepsInv(s: State, step: Step)
    requires Inv(s) && Enabled(s, step)
    ensures Inv(Next(s, step))
  {
    StepLocking(s, step);
    StepFifo(s, step);
    StepClosed(s, step);
    StepAllTold(s, step);
    StepWatched(s, step);
  }

  // ---- Runs ----

  ghost predicate CanRun(s: State, steps: seq<Step>)
    decreases |steps|
  {
    steps == [] || (Enabled(s, steps[0]) && CanRun(Next(s, steps[0]), steps[1..]))
  }

  ghost function RunTo(s: State, steps: seq<Step>): State
    requires CanRun(s, steps)
    decreases |steps|
  {
    if steps == [] then s else RunTo(Next(s, steps[0]), steps[1..])
  }

  lemma {:induction false} RunsKeepInv(s: State, steps: seq<Step>)
    requires Inv(s) && CanRun(s, steps)
    ensures Inv(RunTo(s, steps))
    decreases |steps|
  {
    hide Inv, Next;
    if steps != [] {
      StepKeepsInv(s, steps[0]);
      RunsKeepInv(Next(s, steps[0]), steps[1..]);
    }
  }

  lemma Everywhere(s: State, steps: seq<Step>)
    requires Init(s) && CanRun(s, steps)
    ensures Inv(RunTo(s, steps))
  {
    RunsKeepInv(s, steps);
  }

  /**
   * Every accepted task is taken off the queue at most once and in the order
   * it was pushed, nothing else is, and when all workers have exited (there being
   * one) every accepted task has been taken exactly once.
   */
  lemma AcceptedTasksAreTaken(s: State, steps: seq<Step>, j: nat)
    requires Init(s) && CanRun(s, steps)
    ensures var end := RunTo(s, steps);
            && end.taken <= end.pushed && NoDup(end.taken) && (j in end.taken ==> IsIn(end, j))
            && (|end.workers| > 0 && (forall w | 0 <= w < |end.workers| :: end.workers[w] == Exited) ==>
                  end.queue == [] && (IsIn(end, j) <==> j in end.taken))
  {
    Everywhere(s, steps);
    var end := RunTo(s, steps);
    hide RunTo, CanRun, Init, Watched, AllTold, Locking;
    AllExited(end, j);
    assert j in end.taken ==> j in end.pushed;
  }

  /** After the stop's notification every sleeper that wakes finds a task or leaves: shutdown cannot hang on one. */
  lemma ShutdownWakesEveryone(s: State, steps: seq<Step>, w: nat)
    requires Init(s) && CanRun(s, steps)
    ensures var end := RunTo(s, steps);
            end.stopper == AllNotified && w < |end.workers| ==>
              && end.workers[w] != Asleep(false)
              && (Enabled(end, Look(w)) ==> Next(end, Look(w)).workers[w] == Deciding)
  {
    Everywhere(s, steps);
  }

  /** A worker that holds the lock to take a task can always finish: it never pops an empty queue. */
  lemma TakeNeverStuck(s: State, steps: seq<Step>, w: nat)
    requires Init(s) && CanRun(s, steps) && w < |RunTo(s, steps).workers| && RunTo(s, steps).workers[w] == Deciding
    ensures Enabled(RunTo(s, steps), Take(w))
  {
    Everywhere(s, steps);
  }

  /** A queued task is never forgotten: someone is awake or told, or the notification is on its way. */
  lemma QueuedTaskIsWatched(s: State, steps: seq<Step>)
    requires Init(s) && CanRun(s, steps)
    ensures Watched(RunTo(s, steps))
  {
    Everywhere(s, steps);
  }

  // ---- Shutdown comes to an end ----

  /** What is left to do for a worker once the flag is set; an exited worker has nothing left. */
  function WorkerWork(w: Worker): nat {
    match w
    case Running(_) => 4
    case Ready => 3
    case Asleep(_) => 3
    case Deciding => 2
    case Exited => 0
  }

  function SubmitterWork(j: Submitter): nat {
    match j
    case Checked => 5
    case Before => 1
    case Pushed => 1
    case _ => 0
  }

  function Total<T>(all: seq<T>, work: T -> nat): nat {
    if all == [] then 0 else work(all[0]) + Total(all[1..], work)
  }

  lemma {:induction false} TotalUpdate<T>(all: seq<T>, i: nat, x: T, work: T -> nat)
    requires i < |all|
    ensures Total(all[i := x], work) + work(all[i]) == Total(all, work) + work(x)
    decreases |all|
  {
    if i == 0 {
      assert all[i := x][1..] == all[1..];
    } else {
      assert all[i := x][1..] == all[1..][i - 1 := x];
      TotalUpdate(all[1..], i - 1, x, work);
    }
  }

  lemma {:induction false} TotalSame<T>(a: seq<T>, b: seq<T>, work: T -> nat)
    requires |a| == |b| && forall i | 0 <= i < |a| :: work(a[i]) == work(b[i])
    ensures Total(a, work) == Total(b, work)
    decreases |a|
  {
    if a != [] {
      TotalSame(a[1..], b[1..], work);
    }
  }

  ghost function Work(s: State): nat {
    Total(s.workers, WorkerWork) + Total(s.submitters, SubmitterWork) + 3 * |s.queue| +
    if s.stopper == AllNotified then 0 else 1
  }

  /** After the flag is set every step of anybody leaves less to do. */
  lemma StepWorksOff(s: State, step: Step)
    requires Locking(s) && Enabled(s, step) && s.stop
    ensures Work(Next(s, step)) < Work(s) && Next(s, step).stop
  {
    hide Total;
    var s' := Next(s, step);
    match step
    case Check(j) => TotalUpdate(s.submitters, j, Rejected, SubmitterWork);
    case Push(j) => TotalUpdate(s.submitters, j, Pushed, SubmitterWork);
    case NotifyOne(j, w) =>
      TotalUpdate(s.submitters, j, Accepted, SubmitterWork);
      TotalSame(s.workers, s'.workers, WorkerWork);
    case Look(w) => TotalUpdate(s.workers, w, Deciding, WorkerWork);
    case Take(w) => TotalUpdate(s.workers, w, s'.workers[w], WorkerWork);
    case RunTask(w) => TotalUpdate(s.workers, w, Ready, WorkerWork);
    case NotifyAll => TotalSame(s.workers, s'.workers, WorkerWork);
    case SetFlag => assert false;
  }

  ghost predicate Stuck(s: State) {
    forall step :: !Enabled(s, step)
  }

  /** When nobody can move after the flag was set, every worker has exited. */
  lemma StuckIsDone(s: State)
    requires Locking(s) && s.stop && Stuck(s)
    ensures forall w | 0 <= w < |s.workers| :: s.workers[w] == Exited
    ensures s.stopper == AllNotified
  {
    assert s.lock.ByWorker? ==> Enabled(s, Take(s.lock.w));
    assert s.lock.BySubmitter? ==> Enabled(s, Push(s.lock.j));
    assert !Enabled(s, NotifyAll);
    forall w | 0 <= w < |s.workers|
      ensures s.workers[w] == Exited
    {
      assert !Enabled(s, Look(w)) && !Enabled(s, RunTask(w)) && !Enabled(s, Take(w));
    }
  }

  lemma {:induction false} RunsWorkOff(s: State, steps: seq<Step>)
    requires Inv(s) && s.stop && CanRun(s, steps)
    ensures |steps| + Work(RunTo(s, steps)) <= Work(s) && RunTo(s, steps).stop
    decreases |steps|
  {
    if steps != [] {
      StepWorksOff(s, steps[0]);
      StepKeepsInv(s, steps[0]);
      hide Inv, Work;
      RunsWorkOff(Next(s, steps[0]), steps[1..]);
    }
  }

  /**
   * `stop` always returns: from the moment the flag is set only so many steps
   * are left, whoever takes them, and when none is left every worker has exited
   * and every accepted task has been taken exactly once.
   */
  lemma ShutdownCompletes(s: State, steps: seq<Step>, more: seq<Step>, j: nat)
    requires Init(s) && CanRun(s, steps) && RunTo(s, steps).stop && CanRun(RunTo(s, steps), more)
    ensures |more| <= Work(RunTo(s, steps))
    ensures var end := RunTo(RunTo(s, steps), more);
            Stuck(end) ==>
              && (forall w | 0 <= w < |end.workers| :: end.workers[w] == Exited)
              && (|end.workers| > 0 ==> end.queue == [] && NoDup(end.taken) && (IsIn(end, j) <==> j in end.taken))
  {
    Everywhere(s, steps);
    var mid := RunTo(s, steps);
    RunsWorkOff(mid, more);
    RunsKeepInv(mid, more);
    var end := RunTo(mid, more);
    hide RunTo, CanRun, Init, Watched, AllTold, Work;
    if Stuck(end) {
      StuckIsDone(end);
      AllExited(end, j);
    }
  }

  /** With a worker gone, the queue is empty and everything pushed has been taken. */
  lemma AllExited(s: State, j: nat)
    requires Fifo(s) && Closed(s)
    ensures NoDup(s.taken)
    ensures |s.workers| > 0 && s.workers[0] == Exited ==> s.queue == [] && (IsIn(s, j) <==> j in s.taken)
  {
    assert forall i | 0 <= i < |s.taken| :: s.taken[i] == s.pushed[i];
    assert s.queue == [] ==> s.taken + s.queue == s.taken;
  }

  // ---- Who is rejected ----

  /** Submitting is rejected if and only if the pool has been stopped when it looks. */
  lemma RejectedIff(s: State, j: nat)
    requires Enabled(s, Check(j))
    ensures Next(s, Check(j)).submitters[j] == Rejected <==> s.stop
    ensures !s.stop ==> Next(s, Check(j)).submitters[j] == Checked
  {
  }

  ghost predicate RejectedAfterStop(s: State) {
    (exists j | 0 <= j < |s.submitters| :: s.submitters[j] == Rejected) ==> s.stop
  }

  lemma {:induction false} RejectionsNeedStop(s: State, steps: seq<Step>)
    requires RejectedAfterStop(s) && CanRun(s, steps)
    ensures RejectedAfterStop(RunTo(s, steps))
    decreases |steps|
  {
    if steps != [] {
      assert RejectedAfterStop(Next(s, steps[0]));
      hide Next, RejectedAfterStop;
      RejectionsNeedStop(Next(s, steps[0]), steps[1..]);
    }
  }

  /** Over every run: a task is rejected only after the stop, so a pool that is not stopped takes every task. */
  lemma NoneRejectedBeforeStop(s: State, steps: seq<Step>, j: nat)
    requires Init(s) && CanRun(s, steps) && j < |RunTo(s, steps).submitters|
    ensures RunTo(s, steps).submitters[j] == Rejected ==> RunTo(s, steps).stop
  {
    RejectionsNeedStop(s, steps);
  }
}
