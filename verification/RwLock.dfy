/**
 * RWLock2: a reader-writer lock that lets no reader in while a writer waits.
 * Each critical section is one step; sleepers and notifications are explicit.
 */
module RwLock {
  datatype Phase =
    | Out
    | AwaitRead(notified: bool)
    | Reading
    | AwaitWrite(notified: bool)
    | Writing

  datatype State = State(threads: seq<Phase>, readers: int, writersWaiting: int, writerActive: bool)

  datatype Step =
    | ReadLock(i: nat)
    | ReadUnlock(i: nat)
    | WriteLock(i: nat)
    | WriteUnlock(i: nat)
    | TryReadLock(i: nat)
    | TryWriteLock(i: nat)
    | Wake(i: nat)     // a sleeper re-checks its condition, notified or not

  predicate MayRead(s: State) {
    !s.writerActive && s.writersWaiting == 0
  }

  predicate MayWrite(s: State) {
    !s.writerActive && s.readers == 0
  }

  predicate Asleep(p: Phase) {
    p.AwaitRead? || p.AwaitWrite?
  }

  /** What each caller must be: outside to lock, holding to unlock, asleep to wake. */
  predicate Enabled(s: State, step: Step) {
    && step.i < |s.threads|
    && match step
       case ReadUnlock(i) => s.threads[i] == Reading
       case WriteUnlock(i) => s.threads[i] == Writing
       case Wake(i) => Asleep(s.threads[i])
       case _ => s.threads[step.i] == Out
  }

  /** `notify_all`. */
  function Notified(threads: seq<Phase>): (r: seq<Phase>)
    ensures |r| == |threads|
  {
    seq(|threads|, i requires 0 <= i < |threads| => Told(threads[i]))
  }

  function Told(p: Phase): Phase {
    if p.AwaitRead? then AwaitRead(true) else if p.AwaitWrite? then AwaitWrite(true) else p
  }

  function Next(s: State, step: Step): State
    requires Enabled(s, step)
  {
    var i := step.i;
    match step
    case ReadLock(_) =>
      if MayRead(s) then s.(threads := s.threads[i := Reading], readers := s.readers + 1)
      else s.(threads := s.threads[i := AwaitRead(false)])
    case TryReadLock(_) =>
      if MayRead(s) then s.(threads := s.threads[i := Reading], readers := s.readers + 1) else s
    case ReadUnlock(_) =>
      var threads := s.threads[i := Out];
      s.(threads := if s.readers == 1 then Notified(threads) else threads, readers := s.readers - 1)
    case WriteLock(_) =>
      if MayWrite(s) then s.(threads := s.threads[i := Writing], writerActive := true)
      else s.(threads := s.threads[i := AwaitWrite(false)], writersWaiting := s.writersWaiting + 1)
    case TryWriteLock(_) =>
      if MayWrite(s) then s.(threads := s.threads[i := Writing], writerActive := true) else s
    case WriteUnlock(_) => s.(threads := Notified(s.threads[i := Out]), writerActive := false)
    case Wake(_) =>
      if s.threads[i].AwaitRead? then
        if MayRead(s) then s.(threads := s.threads[i := Reading], readers := s.readers + 1)
        else s.(threads := s.threads[i := AwaitRead(false)])
      else if MayWrite(s) then
        s.(threads := s.threads[i := Writing], writersWaiting := s.writersWaiting - 1, writerActive := true)
      else s.(threads := s.threads[i := AwaitWrite(false)])
  }

  // ---- Counting threads ----

  datatype Kind = Readers | Writers | WaitingWriters

  predicate Is(p: Phase, k: Kind) {
    match k
    case Readers => p == Reading
    case Writers => p == Writing
    case WaitingWriters => p.AwaitWrite?
  }

  function Count(threads: seq<Phase>, k: Kind): nat {
    if threads == [] then 0 else Count(threads[1..], k) + if Is(threads[0], k) then 1 else 0
  }

  function One(b: bool): int {
    if b then 1 else 0
  }

  lemma {:induction false} CountUpdate(threads: seq<Phase>, i: nat, p: Phase, k: Kind)
    requires i < |threads|
    ensures Count(threads[i := p], k) == Count(threads, k) - One(Is(threads[i], k)) + One(Is(p, k))
    decreases |threads|
  {
    var after := threads[i := p];
    if i == 0 {
      assert after[1..] == threads[1..];
    } else {
      assert after[1..] == threads[1..][i - 1 := p];
      CountUpdate(threads[1..], i - 1, p, k);
    }
  }

  lemma {:induction false} CountNotified(threads: seq<Phase>, k: Kind)
    ensures Count(Notified(threads), k) == Count(threads, k)
    decreases |threads|
  {
    if threads != [] {
      assert Notified(threads)[1..] == Notified(threads[1..]);
      CountNotified(threads[1..], k);
    }
  }

  lemma {:induction false} CountSome(threads: seq<Phase>, i: nat, k: Kind)
    requires i < |threads| && Is(threads[i], k)
    ensures Count(threads, k) > 0
    decreases |threads|
  {
    if i > 0 {
      CountSome(threads[1..], i - 1, k);
    }
  }

  lemma {:induction false} CountFind(threads: seq<Phase>, k: Kind) returns (i: nat)
    requires Count(threads, k) > 0
    ensures i < |threads| && Is(threads[i], k)
    decreases |threads|
  {
    if Is(threads[0], k) {
      i := 0;
    } else {
      i := CountFind(threads[1..], k);
      i := i + 1;
    }
  }

  // ---- The invariant ----

  /** The counters equal the real holders and waiters, and a writer excludes everyone else. */
  predicate Counted(s: State) {
    && s.readers == Count(s.threads, Readers)
    && s.writersWaiting == Count(s.threads, WaitingWriters)
    && Count(s.threads, Writers) == One(s.writerActive)
    && (s.writerActive ==> s.readers == 0)
  }

  /** No sleeper that nobody has notified could go on: no wakeup is lost. */
  predicate NoLostWakeup(s: State) {
    && (forall i | 0 <= i < |s.threads| && s.threads[i] == AwaitRead(false) :: !MayRead(s))
    && (forall i | 0 <= i < |s.threads| && s.threads[i] == AwaitWrite(false) :: !MayWrite(s))
  }

  predicate Inv(s: State) {
    Counted(s) && NoLostWakeup(s)
  }

  lemma CountAfter(threads: seq<Phase>, i: nat, p: Phase, k: Kind)
    requires i < |threads|
    ensures Count(threads[i := p], k) == Count(threads, k) - One(Is(threads[i], k)) + One(Is(p, k))
    ensures Count(Notified(threads[i := p]), k) == Count(threads[i := p], k)
  {
    CountUpdate(threads, i, p, k);
    CountNotified(threads[i := p], k);
  }

  lemma StepKeepsCounted(s: State, step: Step)
    requires Inv(s) && Enabled(s, step)
    ensures Counted(Next(s, step))
  {
    hide Count;
    var i := step.i;
    CountAfter(s.threads, i, Next(s, step).threads[i], Readers);
    CountAfter(s.threads, i, Next(s, step).threads[i], Writers);
    CountAfter(s.threads, i, Next(s, step).threads[i], WaitingWriters);
    if Next(s, step).threads == s.threads {
      assert s.threads[i := s.threads[i]] == s.threads;
    }
    if s.threads[i] == Reading {
      CountSome(s.threads, i, Readers);
    }
    if s.threads[i] == Writing {
      CountSome(s.threads, i, Writers);
    }
  }

  lemma StepKeepsWakeups(s: State, step: Step)
    requires Inv(s) && Enabled(s, step)
    ensures NoLostWakeup(Next(s, step))
  {
    hide Count;
    StepKeepsCounted(s, step);
    forall j | 0 <= j < |s.threads| && s.threads[j] == AwaitWrite(false)
      ensures s.writersWaiting > 0
    {
      CountSome(s.threads, j, WaitingWriters);
    }
  }

  // ---- Runs ----

  predicate Init(s: State) {
    (forall i | 0 <= i < |s.threads| :: s.threads[i] == Out) && s.readers == 0 && s.writersWaiting == 0 && !s.writerActive
  }

  predicate CanRun(s: State, steps: seq<Step>)
    decreases |steps|
  {
    steps == [] || (Enabled(s, steps[0]) && CanRun(Next(s, steps[0]), steps[1..]))
  }

  function RunTo(s: State, steps: seq<Step>): State
    requires CanRun(s, steps)
    decreases |steps|
  {
    if steps == [] then s else RunTo(Next(s, steps[0]), steps[1..])
  }

  lemma {:induction false} RunsKeepInv(s: State, steps: seq<Step>)
    requires Inv(s) && CanRun(s, steps)
    ensures Inv(RunTo(s, steps))
    decreases |steps|
  {
    hide Counted, NoLostWakeup, Next;
    if steps != [] {
      StepKeepsCounted(s, steps[0]);
      StepKeepsWakeups(s, steps[0]);
      RunsKeepInv(Next(s, steps[0]), steps[1..]);
    }
  }

  lemma {:induction false} NobodyCounted(threads: seq<Phase>, k: Kind)
    requires forall i | 0 <= i < |threads| :: threads[i] == Out
    ensures Count(threads, k) == 0
    decreases |threads|
  {
    if threads != [] {
      NobodyCounted(threads[1..], k);
    }
  }

  lemma {:induction false} TwoCounted(threads: seq<Phase>, i: nat, j: nat, k: Kind)
    requires i < j < |threads| && Is(threads[i], k) && Is(threads[j], k)
    ensures Count(threads, k) >= 2
    decreases |threads|
  {
    if i == 0 {
      CountSome(threads[1..], j - 1, k);
    } else {
      TwoCounted(threads[1..], i - 1, j - 1, k);
    }
  }

  /** In every reachable state a writer is alone, and the invariant holds. */
  lemma RwLockIsSafe(s: State, steps: seq<Step>)
    requires Init(s) && CanRun(s, steps)
    ensures var end := RunTo(s, steps);
            && Inv(end)
            && (forall i, j | 0 <= i < |end.threads| && 0 <= j < |end.threads| && i != j && end.threads[i] == Writing ::
                  end.threads[j] != Writing && end.threads[j] != Reading)
  {
    NobodyCounted(s.threads, Readers);
    NobodyCounted(s.threads, Writers);
    NobodyCounted(s.threads, WaitingWriters);
    RunsKeepInv(s, steps);
    var end := RunTo(s, steps);
    hide RunTo, CanRun, Count;
    forall i, j | 0 <= i < |end.threads| && 0 <= j < |end.threads| && i != j && end.threads[i] == Writing
      ensures end.threads[j] != Writing && end.threads[j] != Reading
    {
      CountSome(end.threads, i, Writers);
      if end.threads[j] == Reading {
        CountSome(end.threads, j, Readers);
      }
      if end.threads[j] == Writing {
        TwoCounted(end.threads, if i < j then i else j, if i < j then j else i, Writers);
      }
    }
  }

  /** No reader enters while a writer sleeps waiting. */
  lemma WritersGoFirst(s: State, step: Step, w: nat)
    requires Inv(s) && Enabled(s, step) && w < |s.threads| && s.threads[w].AwaitWrite?
    ensures s.threads[step.i] != Reading ==> Next(s, step).threads[step.i] != Reading
  {
    CountSome(s.threads, w, WaitingWriters);
  }

  /** If nobody holds the lock, a sleeper has been notified and will get in: the lock never stalls. */
  lemma NeverStalls(s: State, i: nat) returns (j: nat)
    requires Inv(s) && i < |s.threads| && Asleep(s.threads[i])
    requires s.readers == 0 && !s.writerActive
    ensures j < |s.threads| && Asleep(s.threads[j]) && s.threads[j].notified
    ensures Next(s, Wake(j)).threads[j] == Reading || Next(s, Wake(j)).threads[j] == Writing
  {
    if s.writersWaiting > 0 {
      j := CountFind(s.threads, WaitingWriters);
    } else {
      j := i;
      if s.threads[i].AwaitWrite? {
        CountSome(s.threads, i, WaitingWriters);
      }
    }
  }

  predicate Nobody(s: State, k: Kind) {
    forall i | 0 <= i < |s.threads| :: !Is(s.threads[i], k)
  }

  lemma {:induction false} NobodyIff(threads: seq<Phase>, k: Kind)
    ensures Count(threads, k) == 0 <==> forall i | 0 <= i < |threads| :: !Is(threads[i], k)
    decreases |threads|
  {
    if threads != [] {
      NobodyIff(threads[1..], k);
      assert forall i | 0 < i < |threads| :: threads[i] == threads[1..][i - 1];
    }
  }

  /** What a thread becomes that asks to read: a reader if it may, else a sleeper; a try leaves it outside. */
  function Asked(granted: bool, holding: Phase, asleep: Phase, isTry: bool): Phase {
    if granted then holding else if isTry then Out else asleep
  }

  /**
   * In every reachable state, by locking, trying or waking up: a thread gets to
   * read if and only if nobody writes and nobody waits to write, and to write if
   * and only if nobody reads or writes; otherwise it sleeps, or a try fails. An
   * unlock lets go.
   */
  lemma GrantedIff(s: State, steps: seq<Step>, step: Step)
    requires Init(s) && CanRun(s, steps) && Enabled(RunTo(s, steps), step)
    ensures var at, i := RunTo(s, steps), step.i;
            var after := Next(at, step).threads[i];
            var mayRead := Nobody(at, Writers) && Nobody(at, WaitingWriters);
            var mayWrite := Nobody(at, Readers) && Nobody(at, Writers);
            match step
            case ReadLock(_) => after == Asked(mayRead, Reading, AwaitRead(false), false)
            case TryReadLock(_) => after == Asked(mayRead, Reading, AwaitRead(false), true)
            case WriteLock(_) => after == Asked(mayWrite, Writing, AwaitWrite(false), false)
            case TryWriteLock(_) => after == Asked(mayWrite, Writing, AwaitWrite(false), true)
            case Wake(_) =>
              if at.threads[i].AwaitRead? then after == Asked(mayRead, Reading, AwaitRead(false), false)
              else after == Asked(mayWrite, Writing, AwaitWrite(false), false)
            case _ => after == Out
  {
    RwLockIsSafe(s, steps);
    var at := RunTo(s, steps);
    NobodyIff(at.threads, Readers);
    NobodyIff(at.threads, Writers);
    NobodyIff(at.threads, WaitingWriters);
    hide Count, RunTo, CanRun;
  }
}
