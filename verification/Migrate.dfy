/**
 * CLUSTER MIGRATE: any number of migrations out of one node, over a bus that
 * delays, reorders and drops messages, with time-outs and late replies, while
 * clients keep writing on both sides.
 */
module Migrate {
  import opened Wrappers
  import opened Bytes
  import opened Objects

  type Store = map<Bytes, Object>

  /** One MIGRATE command as given by its client. */
  datatype Order = Order(key: Bytes, target: nat, replace: bool)

  datatype Phase =
    | Idle
    | Read(value: Object)                    // the value is in hand
    | Registered(value: Object, id: nat)     // a request id and a table entry
    | Sent(value: Object, id: nat)           // waiting for the reply
    | Answered(value: Object, id: nat, ok: bool)
    | Removed(value: Object, id: nat)        // the source key was deleted
    | Failed

  datatype Waiting = Waiting(deadline: int, reply: Option<bool>)

  datatype Message = Request(id: nat, order: nat, value: Object) | Reply(id: nat, ok: bool)

  datatype Made = Made(order: nat, value: Object)

  datatype State = State(
    source: Store,
    targets: seq<Store>,
    phases: seq<Phase>,
    nextId: nat,
    table: map<nat, Waiting>,
    wire: set<Message>,
    now: int,
    /** What each request was made for. */
    made: map<nat, Made>,
    /** What the target answered to each executed request. */
    outcome: map<nat, bool>,
    /** The restored requests whose key nobody has written on the target since. */
    undisturbed: set<nat>)

  datatype Step =
    | ReadKey(i: nat)
    | Register(i: nat, timeout: int)
    | Send(i: nat)
    | SendFails(i: nat)
    | TakeReply(i: nat)
    | GiveUp(i: nat)
    | Remove(i: nat)
    | Execute(m: Message)          // the target runs RESTORE and answers
    | Deliver(m: Message)          // a reply reaches the source
    | Drop(m: Message)
    | Tick(later: int)
    | WriteSource(key: Bytes, value: Object)
    | WriteTarget(target: nat, key: Bytes, value: Object)

  function IdOf(p: Phase): Option<nat> {
    match p
    case Registered(_, id) => Some(id)
    case Sent(_, id) => Some(id)
    case Answered(_, id, _) => Some(id)
    case Removed(_, id) => Some(id)
    case _ => None
  }

  ghost predicate At(s: State, i: nat) {
    i < |s.phases|
  }

  ghost predicate Enabled(s: State, orders: seq<Order>, step: Step) {
    match step
    case ReadKey(i) => At(s, i) && s.phases[i] == Idle
    case Register(i, timeout) => At(s, i) && s.phases[i].Read? && timeout > 0
    case Send(i) => At(s, i) && s.phases[i].Registered?
    case SendFails(i) => At(s, i) && s.phases[i].Registered?
    case TakeReply(i) => At(s, i) && s.phases[i].Sent? && s.phases[i].id in s.table && s.table[s.phases[i].id].reply.Some?
    case GiveUp(i) => At(s, i) && s.phases[i].Sent? && !(s.phases[i].id in s.table && s.table[s.phases[i].id].reply.Some?)
    case Remove(i) => At(s, i) && s.phases[i].Answered?
    case Execute(m) => m in s.wire && m.Request?
    case Deliver(m) => m in s.wire && m.Reply?
    case Drop(m) => m in s.wire
    case Tick(later) => s.now <= later
    case WriteSource(_, _) => true
    case WriteTarget(t, _, _) => t < |s.targets|
  }

  /** The key is refused when it is there and not to be replaced. */
  predicate Accepts(target: Store, order: Order) {
    order.replace || order.key !in target
  }

  function Fresh(table: map<nat, Waiting>, now: int): map<nat, Waiting> {
    map id | id in table && table[id].deadline >= now :: table[id]
  }

  /** The undisturbed requests for another node or key. */
  ghost function Elsewhere(s: State, orders: seq<Order>, target: nat, key: Bytes): set<nat> {
    set id | id in s.undisturbed && id in s.made && s.made[id].order < |orders|
             && !(orders[s.made[id].order].target == target && orders[s.made[id].order].key == key)
  }

  ghost function Next(s: State, orders: seq<Order>, step: Step): State
    requires |orders| == |s.phases| && Enabled(s, orders, step)
    requires forall i | 0 <= i < |orders| :: orders[i].target < |s.targets|
  {
    match step
    case ReadKey(i) =>
      var k := orders[i].key;
      s.(phases := s.phases[i := if k in s.source then Read(s.source[k]) else Failed])
    case Register(i, timeout) =>
      s.(phases := s.phases[i := Registered(s.phases[i].value, s.nextId)],
         nextId := s.nextId + 1,
         table := Fresh(s.table, s.now)[s.nextId := Waiting(s.now + timeout, None)],
         made := s.made[s.nextId := Made(i, s.phases[i].value)])
    case Send(i) =>
      var p := s.phases[i];
      s.(phases := s.phases[i := Sent(p.value, p.id)], wire := s.wire + {Request(p.id, i, p.value)})
    case SendFails(i) => s.(phases := s.phases[i := Failed], table := s.table - {s.phases[i].id})
    case TakeReply(i) =>
      var p := s.phases[i];
      s.(phases := s.phases[i := Answered(p.value, p.id, s.table[p.id].reply.value)], table := s.table - {p.id})
    case GiveUp(i) => s.(phases := s.phases[i := Failed], table := s.table - {s.phases[i].id})
    case Remove(i) =>
      var p := s.phases[i];
      if p.ok then s.(phases := s.phases[i := Removed(p.value, p.id)], source := s.source - {orders[i].key})
      else s.(phases := s.phases[i := Failed])
    case Execute(m) =>
      if m.order >= |orders| then s
      else
        var o := orders[m.order];
        var ok := Accepts(s.targets[o.target], o);
        s.(targets := if ok then s.targets[o.target := s.targets[o.target][o.key := m.value]] else s.targets,
           wire := s.wire - {m} + {Reply(m.id, ok)},
           outcome := s.outcome[m.id := ok],
           undisturbed := if ok then Elsewhere(s, orders, o.target, o.key) + {m.id} else s.undisturbed)
    case Deliver(m) =>
      s.(wire := s.wire - {m},
         table := if m.id in s.table then s.table[m.id := Waiting(s.table[m.id].deadline, Some(m.ok))] else s.table)
    case Drop(m) => s.(wire := s.wire - {m})
    case Tick(later) => s.(now := later)
    case WriteSource(k, v) => s.(source := s.source[k := v])
    case WriteTarget(t, k, v) =>
      s.(targets := s.targets[t := s.targets[t][k := v]], undisturbed := Elsewhere(s, orders, t, k))
  }

  ghost predicate Init(s: State, orders: seq<Order>) {
    && |orders| == |s.phases| && (forall i | 0 <= i < |s.phases| :: s.phases[i] == Idle)
    && s.nextId == 1 && s.table == map[] && s.wire == {} && s.made == map[] && s.outcome == map[] && s.undisturbed == {}
    && Routable(s, orders)
  }

  ghost predicate Routable(s: State, orders: seq<Order>) {
    forall i | 0 <= i < |orders| :: orders[i].target < |s.targets|
  }

  // ---- The invariant ----

  ghost predicate Shaped(s: State, orders: seq<Order>) {
    && |orders| == |s.phases| && Routable(s, orders)
    && (forall id | id in s.made :: id < s.nextId && s.made[id].order < |orders|)
    && (forall id | id in s.table || id in s.outcome || id in s.undisturbed :: id in s.made)
  }

  /** Ids are handed out once: an id names the one order and value it was made for. */
  ghost predicate Owned(s: State) {
    forall i | 0 <= i < |s.phases| && IdOf(s.phases[i]).Some? ::
      var id := IdOf(s.phases[i]).value; id in s.made && s.made[id] == Made(i, s.phases[i].value)
  }

  /** A request on the wire is one that was made, and has not been executed. */
  ghost predicate Carried(s: State) {
    forall m | m in s.wire && m.Request? ::
      m.id in s.made && s.made[m.id] == Made(m.order, m.value) && m.id !in s.outcome
  }

  /** A registered request is not on the wire yet, nor executed. */
  ghost predicate NotYet(s: State) {
    forall i | 0 <= i < |s.phases| && s.phases[i].Registered? :: OneNotYet(s, i)
  }

  ghost predicate OneNotYet(s: State, i: nat)
    requires i < |s.phases| && s.phases[i].Registered?
  {
    s.phases[i].id !in s.outcome && forall m | m in s.wire && m.Request? :: m.id != s.phases[i].id
  }

  ghost predicate Answer(s: State, id: nat, ok: bool) {
    id in s.outcome && s.outcome[id] == ok
  }

  /** Every reply, wherever it is, is the target's answer to that very request. */
  ghost predicate TrueReplies(s: State) {
    && (forall m | m in s.wire && m.Reply? :: Answer(s, m.id, m.ok))
    && (forall id | id in s.table && s.table[id].reply.Some? :: Answer(s, id, s.table[id].reply.value))
  }

  ghost predicate TrueAnswers(s: State) {
    forall i | 0 <= i < |s.phases| ::
      && (s.phases[i].Answered? ==> Answer(s, s.phases[i].id, s.phases[i].ok))
      && (s.phases[i].Removed? ==> Answer(s, s.phases[i].id, true))
  }

  ghost predicate OnTarget(s: State, o: Order) {
    o.target < |s.targets| && o.key in s.targets[o.target]
  }

  /** A restored key is on its target. */
  ghost predicate Landed(s: State, orders: seq<Order>) {
    forall id | Answer(s, id, true) && id in s.made && s.made[id].order < |orders| :: OnTarget(s, orders[s.made[id].order])
  }

  /** It has the value that was sent unless someone wrote it there since. */
  ghost predicate Intact(s: State, orders: seq<Order>) {
    forall id | id in s.undisturbed && id in s.made && s.made[id].order < |orders| ::
      var o := orders[s.made[id].order]; OnTarget(s, o) && s.targets[o.target][o.key] == s.made[id].value
  }

  ghost predicate Inv(s: State, orders: seq<Order>) {
    && Shaped(s, orders) && Owned(s) && Carried(s) && NotYet(s)
    && TrueReplies(s) && TrueAnswers(s) && Landed(s, orders) && Intact(s, orders)
  }

  lemma StepShaped(s: State, orders: seq<Order>, step: Step)
    requires Shaped(s, orders) && Carried(s) && Enabled(s, orders, step)
    ensures Shaped(Next(s, orders, step), orders)
  {
  }

  lemma StepOwned(s: State, orders: seq<Order>, step: Step)
    requires Shaped(s, orders) && Owned(s) && Enabled(s, orders, step)
    ensures Owned(Next(s, orders, step))
  {
    hide Elsewhere, Fresh, Accepts;
  }

  lemma StepCarried(s: State, orders: seq<Order>, step: Step)
    requires Shaped(s, orders) && Owned(s) && Carried(s) && NotYet(s) && Enabled(s, orders, step)
    requires OneRequestEach(s)
    ensures Carried(Next(s, orders, step))
  {
  }

  lemma OneEach(s: State)
    requires Carried(s)
    ensures OneRequestEach(s)
  {
  }

  ghost predicate OneRequestEach(s: State) {
    forall a, b | a in s.wire && b in s.wire && a.Request? && b.Request? && a.id == b.id :: a == b
  }

  lemma StepNotYet(s: State, orders: seq<Order>, step: Step)
    requires Shaped(s, orders) && Owned(s) && Carried(s) && NotYet(s) && Enabled(s, orders, step)
    ensures NotYet(Next(s, orders, step))
  {
    var s' := Next(s, orders, step);
    forall i | 0 <= i < |s'.phases| && s'.phases[i].Registered?
      ensures OneNotYet(s', i)
    {
      StillNotYet(s, orders, step, i);
    }
  }

  lemma StillNotYet(s: State, orders: seq<Order>, step: Step, i: nat)
    requires Shaped(s, orders) && Owned(s) && Carried(s) && NotYet(s) && Enabled(s, orders, step)
    requires At(s, i) && Next(s, orders, step).phases[i].Registered?
    ensures OneNotYet(Next(s, orders, step), i)
  {
    hide Elsewhere, Fresh, Accepts;
    assert s.phases[i].Registered? ==> OneNotYet(s, i);
  }

  lemma StepTrueReplies(s: State, orders: seq<Order>, step: Step)
    requires Shaped(s, orders) && Carried(s) && TrueReplies(s) && Enabled(s, orders, step)
    ensures TrueReplies(Next(s, orders, step))
  {
    if step.Execute? {
      ExecutedReplies(s, orders, step.m);
    } else {
      RepliesUnchanged(s, orders, step);
    }
  }

  lemma RepliesUnchanged(s: State, orders: seq<Order>, step: Step)
    requires Shaped(s, orders) && TrueReplies(s) && Enabled(s, orders, step) && !step.Execute?
    ensures TrueReplies(Next(s, orders, step))
  {
    hide Elsewhere, Accepts;
  }

  lemma ExecutedReplies(s: State, orders: seq<Order>, m: Message)
    requires Shaped(s, orders) && Carried(s) && TrueReplies(s) && Enabled(s, orders, Execute(m))
    ensures TrueReplies(Next(s, orders, Execute(m)))
  {
  }

  lemma StepTrueAnswers(s: State, orders: seq<Order>, step: Step)
    requires Shaped(s, orders) && Carried(s) && TrueReplies(s) && TrueAnswers(s) && Enabled(s, orders, step)
    ensures TrueAnswers(Next(s, orders, step))
  {
    hide Elsewhere, Fresh, Accepts;
  }

  lemma StepLanded(s: State, orders: seq<Order>, step: Step)
    requires Shaped(s, orders) && Carried(s) && Landed(s, orders) && Enabled(s, orders, step)
    ensures Landed(Next(s, orders, step), orders)
  {
  }

  lemma StepIntact(s: State, orders: seq<Order>, step: Step)
    requires Shaped(s, orders) && Carried(s) && Intact(s, orders) && Enabled(s, orders, step)
    ensures Intact(Next(s, orders, step), orders)
  {
  }

  lemma StepKeepsInv(s: State, orders: seq<Order>, step: Step)
    requires Inv(s, orders) && Enabled(s, orders, step)
    ensures Inv(Next(s, orders, step), orders)
  {
    OneEach(s);
    StepShaped(s, orders, step);
    StepOwned(s, orders, step);
    StepCarried(s, orders, step);
    StepNotYet(s, orders, step);
    StepTrueReplies(s, orders, step);
    StepTrueAnswers(s, orders, step);
    StepLanded(s, orders, step);
    StepIntact(s, orders, step);
  }

  // ---- Runs ----

  ghost predicate CanRun(s: State, orders: seq<Order>, steps: seq<Step>)
    decreases |steps|
  {
    && |orders| == |s.phases| && Routable(s, orders)
    && (steps == [] || (Enabled(s, orders, steps[0]) && CanRun(Next(s, orders, steps[0]), orders, steps[1..])))
  }

  ghost function RunTo(s: State, orders: seq<Order>, steps: seq<Step>): State
    requires CanRun(s, orders, steps)
    decreases |steps|
  {
    if steps == [] then s else RunTo(Next(s, orders, steps[0]), orders, steps[1..])
  }

  lemma {:induction false} RunsKeepInv(s: State, orders: seq<Order>, steps: seq<Step>)
    requires Inv(s, orders) && CanRun(s, orders, steps)
    ensures Inv(RunTo(s, orders, steps), orders)
    decreases |steps|
  {
    hide Inv, Next;
    if steps != [] {
      StepKeepsInv(s, orders, steps[0]);
      RunsKeepInv(Next(s, orders, steps[0]), orders, steps[1..]);
    }
  }

  /** The key is on the source or on one of the targets. */
  ghost predicate Somewhere(s: State, k: Bytes) {
    k in s.source || exists t | 0 <= t < |s.targets| :: k in s.targets[t]
  }

  /** A step that takes a key off the source is a removal whose own RESTORE put it on the target. */
  lemma OnlyRestoredKeysLeave(s: State, orders: seq<Order>, step: Step, k: Bytes)
    requires Inv(s, orders) && Enabled(s, orders, step)
    requires k in s.source && k !in Next(s, orders, step).source
    ensures step.Remove? && orders[step.i].key == k
    ensures var p := s.phases[step.i];
            && p.Answered? && p.ok && Answer(s, p.id, true) && s.made[p.id] == Made(step.i, p.value)
            && OnTarget(Next(s, orders, step), orders[step.i])
  {
    var p := s.phases[step.i];
    assert IdOf(p) == Some(p.id);
    assert Answer(s, p.id, true);
  }

  lemma StepKeepsKey(s: State, orders: seq<Order>, step: Step, k: Bytes)
    requires Inv(s, orders) && Enabled(s, orders, step) && Somewhere(s, k)
    ensures Somewhere(Next(s, orders, step), k)
  {
    var s' := Next(s, orders, step);
    if k in s.source {
      if k !in s'.source {
        OnlyRestoredKeysLeave(s, orders, step, k);
        assert k in s'.targets[orders[step.i].target];
      }
    } else {
      var t :| 0 <= t < |s.targets| && k in s.targets[t];
      assert k in s'.targets[t];
    }
  }

  /** Whatever is delayed, dropped or late: a key that was somewhere stays somewhere. */
  lemma {:induction false} KeyNeverLost(s: State, orders: seq<Order>, steps: seq<Step>, k: Bytes)
    requires Inv(s, orders) && CanRun(s, orders, steps) && Somewhere(s, k)
    ensures Somewhere(RunTo(s, orders, steps), k)
    decreases |steps|
  {
    hide Inv, Next, Somewhere;
    if steps != [] {
      StepKeepsInv(s, orders, steps[0]);
      StepKeepsKey(s, orders, steps[0], k);
      KeyNeverLost(Next(s, orders, steps[0]), orders, steps[1..], k);
    }
  }

  lemma InitInv(s: State, orders: seq<Order>)
    requires Init(s, orders)
    ensures Inv(s, orders)
  {
  }

  /** The three promises of MIGRATE, over every run from the start. */
  lemma MigrationIsSafe(s: State, orders: seq<Order>, steps: seq<Step>, k: Bytes)
    requires Init(s, orders) && CanRun(s, orders, steps)
    ensures var end := RunTo(s, orders, steps);
            && (Somewhere(s, k) ==> Somewhere(end, k))
            // a reply is handed only to the request that caused it
            && (forall i | 0 <= i < |end.phases| && end.phases[i].Answered? ::
                  var p := end.phases[i]; p.id in end.made && end.made[p.id] == Made(i, p.value) && Answer(end, p.id, p.ok))
            // the source deleted only after that request's own RESTORE succeeded
            && (forall i | 0 <= i < |end.phases| && end.phases[i].Removed? ::
                  var p := end.phases[i]; p.id in end.made && end.made[p.id] == Made(i, p.value) && Answer(end, p.id, true))
  {
    InitInv(s, orders);
    RunsKeepInv(s, orders, steps);
    if Somewhere(s, k) {
      KeyNeverLost(s, orders, steps, k);
    }
    var end := RunTo(s, orders, steps);
    hide RunTo, CanRun;
    forall i | 0 <= i < |end.phases| && (end.phases[i].Answered? || end.phases[i].Removed?)
      ensures var p := end.phases[i]; p.id in end.made && end.made[p.id] == Made(i, p.value)
    {
      assert IdOf(end.phases[i]) == Some(end.phases[i].id);
    }
  }

  /**
   * What a removal takes off the source is what the target holds exactly when
   * the source still holds the value that was read. (The target's copy being
   * undisturbed.)
   */
  lemma ValueKeptIff(s: State, orders: seq<Order>, i: nat)
    requires Inv(s, orders) && Enabled(s, orders, Remove(i)) && s.phases[i].ok
    requires s.phases[i].id in s.undisturbed && orders[i].key in s.source
    ensures OnTarget(s, orders[i])
    ensures s.targets[orders[i].target][orders[i].key] == s.phases[i].value
    ensures s.targets[orders[i].target][orders[i].key] == s.source[orders[i].key] <==>
            s.source[orders[i].key] == s.phases[i].value
  {
    assert IdOf(s.phases[i]) == Some(s.phases[i].id);
  }

  // ---- Writes between the read and the removal ----

  /** What the source holds under `k` after the writes among the steps, starting from `v`. */
  function LastWritten(steps: seq<Step>, k: Bytes, v: Object): Object
    decreases |steps|
  {
    if steps == [] then v
    else LastWritten(steps[1..], k, if steps[0].WriteSource? && steps[0].key == k then steps[0].value else v)
  }

  lemma {:induction false} SourceFollowsWrites(s: State, orders: seq<Order>, steps: seq<Step>, k: Bytes, v: Object)
    requires CanRun(s, orders, steps) && (k in s.source ==> s.source[k] == v)
    ensures k in RunTo(s, orders, steps).source ==> RunTo(s, orders, steps).source[k] == LastWritten(steps, k, v)
    decreases |steps|
  {
    if steps != [] {
      var step := steps[0];
      OneWrite(s, orders, step, k, v);
      hide Next;
      SourceFollowsWrites(Next(s, orders, step), orders, steps[1..], k,
                          if step.WriteSource? && step.key == k then step.value else v);
    }
  }

  lemma OneWrite(s: State, orders: seq<Order>, step: Step, k: Bytes, v: Object)
    requires |orders| == |s.phases| && Routable(s, orders) && Enabled(s, orders, step)
    requires k in s.source ==> s.source[k] == v
    ensures var source := Next(s, orders, step).source;
            k in source ==> source[k] == if step.WriteSource? && step.key == k then step.value else v
  {
    hide Elsewhere, Fresh, Accepts;
  }

  /** The migration has the value in hand, or has failed. */
  predicate Carries(p: Phase, v: Object) {
    p.Failed? || (!p.Idle? && p.value == v)
  }

  lemma {:induction false} ValueStaysInHand(s: State, orders: seq<Order>, steps: seq<Step>, i: nat, v: Object)
    requires CanRun(s, orders, steps) && At(s, i) && Carries(s.phases[i], v)
    ensures At(RunTo(s, orders, steps), i) && Carries(RunTo(s, orders, steps).phases[i], v)
    decreases |steps|
  {
    if steps != [] {
      OneStepInHand(s, orders, steps[0], i, v);
      hide Next, Carries;
      ValueStaysInHand(Next(s, orders, steps[0]), orders, steps[1..], i, v);
    }
  }

  lemma OneStepInHand(s: State, orders: seq<Order>, step: Step, i: nat, v: Object)
    requires |orders| == |s.phases| && Routable(s, orders) && Enabled(s, orders, step) && At(s, i) && Carries(s.phases[i], v)
    ensures At(Next(s, orders, step), i) && Carries(Next(s, orders, step).phases[i], v)
  {
    hide Elsewhere, Fresh, Accepts;
  }

  /** The migration of order `i` reads its key after the steps `before`, and is about to remove it after `during`. */
  ghost predicate Migrates(s: State, orders: seq<Order>, before: seq<Step>, during: seq<Step>, i: nat) {
    && Init(s, orders) && CanRun(s, orders, before)
    && var at := RunTo(s, orders, before);
       && Enabled(at, orders, ReadKey(i)) && |orders| == |at.phases| && Routable(at, orders)
       && orders[i].key in at.source && CanRun(Next(at, orders, ReadKey(i)), orders, during)
       && var end := RunTo(Next(at, orders, ReadKey(i)), orders, during);
          Enabled(end, orders, Remove(i)) && end.phases[i].ok && orders[i].key in end.source
  }

  /**
   * Over every run: a successful removal, its copy on the target undisturbed,
   * deletes the value that was read with the writes since then on top; and that
   * is what the target holds if and only if those writes left the same value.
   */
  lemma WritesKeptIff(s: State, orders: seq<Order>, before: seq<Step>, during: seq<Step>, i: nat)
    requires Migrates(s, orders, before, during, i)
    requires var end := RunTo(Next(RunTo(s, orders, before), orders, ReadKey(i)), orders, during);
             end.phases[i].id in end.undisturbed
    ensures var at, key := RunTo(s, orders, before), orders[i].key;
            var end, read := RunTo(Next(at, orders, ReadKey(i)), orders, during), at.source[key];
            && OnTarget(end, orders[i]) && end.targets[orders[i].target][key] == read
            && end.source[key] == LastWritten(during, key, read)
            && (end.targets[orders[i].target][key] == end.source[key] <==> LastWritten(during, key, read) == read)
  {
    var at := RunTo(s, orders, before);
    var first := Next(at, orders, ReadKey(i));
    var read := at.source[orders[i].key];
    InitInv(s, orders);
    RunsKeepInv(s, orders, before);
    StepKeepsInv(at, orders, ReadKey(i));
    RunsKeepInv(first, orders, during);
    assert Carries(first.phases[i], read) && first.source == at.source;
    hide RunTo, CanRun, Inv, Next, LastWritten, Init;
    SourceFollowsWrites(first, orders, during, orders[i].key, read);
    ValueStaysInHand(first, orders, during, i, read);
    ValueKeptIff(RunTo(first, orders, during), orders, i);
  }

  lemma Cons(s: State, orders: seq<Order>, step: Step, rest: seq<Step>)
    requires |orders| == |s.phases| && Routable(s, orders) && Enabled(s, orders, step)
    requires CanRun(Next(s, orders, step), orders, rest)
    ensures CanRun(s, orders, [step] + rest)
    ensures RunTo(s, orders, [step] + rest) == RunTo(Next(s, orders, step), orders, rest)
  {
    assert ([step] + rest)[1..] == rest;
  }

  /** The request with the old value is on the wire; the source already has a new one. */
  function Halfway(k: Bytes, before: Object, after: Object): State {
    State(map[k := after], [map[]], [Sent(before, 1)], 2, map[1 := Waiting(10, None)], {Request(1, 0, before)}, 0,
          map[1 := Made(0, before)], map[], {})
  }

  lemma SecondHalf(k: Bytes, before: Object, after: Object) returns (steps: seq<Step>)
    ensures var orders, s := [Order(k, 0, false)], Halfway(k, before, after);
            && CanRun(s, orders, steps)
            && k !in RunTo(s, orders, steps).source && RunTo(s, orders, steps).targets == [map[k := before]]
  {
    hide CanRun, RunTo;
    var orders, s := [Order(k, 0, false)], Halfway(k, before, after);
    var request, reply := Request(1, 0, before), Reply(1, true);
    var s1 := Next(s, orders, Execute(request));
    var s2 := Next(s1, orders, Deliver(reply));
    var s3 := Next(s2, orders, TakeReply(0));
    Nothing(Next(s3, orders, Remove(0)), orders);
    steps := [];
    Cons(s3, orders, Remove(0), steps);
    steps := [Remove(0)] + steps;
    Cons(s2, orders, TakeReply(0), steps);
    steps := [TakeReply(0)] + steps;
    Cons(s1, orders, Deliver(reply), steps);
    steps := [Deliver(reply)] + steps;
    Cons(s, orders, Execute(request), steps);
    steps := [Execute(request)] + steps;
  }

  /** A client's write to the source between the read and the removal is gone from both nodes. */
  lemma WriteDuringMigrationLost(k: Bytes, before: Object, after: Object)
    returns (s: State, orders: seq<Order>, steps: seq<Step>)
    ensures Init(s, orders) && CanRun(s, orders, steps) && WriteSource(k, after) in steps
    ensures k !in RunTo(s, orders, steps).source && RunTo(s, orders, steps).targets == [map[k := before]]
  {
    hide CanRun, RunTo;
    orders := [Order(k, 0, false)];
    s := State(map[k := before], [map[]], [Idle], 1, map[], {}, 0, map[], map[], {});
    var s1 := Next(s, orders, ReadKey(0));
    var s2 := Next(s1, orders, WriteSource(k, after));
    var s3 := Next(s2, orders, Register(0, 10));
    steps := SecondHalf(k, before, after);
    assert Next(s3, orders, Send(0)) == Halfway(k, before, after);
    Cons(s3, orders, Send(0), steps);
    steps := [Send(0)] + steps;
    Cons(s2, orders, Register(0, 10), steps);
    steps := [Register(0, 10)] + steps;
    Cons(s1, orders, WriteSource(k, after), steps);
    steps := [WriteSource(k, after)] + steps;
    assert steps[0] == WriteSource(k, after);
    Cons(s, orders, ReadKey(0), steps);
    steps := [ReadKey(0)] + steps;
  }

  lemma Nothing(s: State, orders: seq<Order>)
    requires |orders| == |s.phases| && Routable(s, orders)
    ensures CanRun(s, orders, []) && RunTo(s, orders, []) == s
  {
  }

  // ---- What a target does with a key it already has ----

  /**
   * RESTORE on the target: a key that is there and not to be replaced is left
   * alone and the answer is no; otherwise the target holds the value that was
   * sent and the answer is yes. Nothing else changes on any target.
   */
  lemma RestoreAnsweredIff(s: State, orders: seq<Order>, m: Message)
    requires |orders| == |s.phases| && Routable(s, orders) && Enabled(s, orders, Execute(m)) && m.order < |orders|
    ensures var o, s' := orders[m.order], Next(s, orders, Execute(m));
            if o.key in s.targets[o.target] && !o.replace
            then s'.targets == s.targets && Reply(m.id, false) in s'.wire && Answer(s', m.id, false)
            else s'.targets == s.targets[o.target := s.targets[o.target][o.key := m.value]] &&
                 Reply(m.id, true) in s'.wire && Answer(s', m.id, true)
    ensures Next(s, orders, Execute(m)).source == s.source
  {
    hide Elsewhere;
  }

  /** A client writes the key on that target. */
  predicate WritesThere(step: Step, t: nat, k: Bytes) {
    step.WriteTarget? && step.target == t && step.key == k
  }

  /** A request for the key on that target is executed that replaces, or finds no such key. */
  predicate RestoresThere(s: State, orders: seq<Order>, step: Step, t: nat, k: Bytes) {
    step.Execute? && step.m.Request? && step.m.order < |orders| && t < |s.targets| &&
    var o := orders[step.m.order];
    o.target == t && o.key == k && (o.replace || k !in s.targets[t])
  }

  lemma TargetStep(s: State, orders: seq<Order>, step: Step, t: nat, k: Bytes)
    requires |orders| == |s.phases| && Routable(s, orders) && Enabled(s, orders, step) && t < |s.targets|
    requires !WritesThere(step, t, k) && !RestoresThere(s, orders, step, t, k)
    ensures var s' := Next(s, orders, step);
            |s'.targets| == |s.targets| && (k in s'.targets[t] <==> k in s.targets[t]) &&
            (k in s.targets[t] ==> s'.targets[t][k] == s.targets[t][k])
  {
    hide Elsewhere, Fresh;
  }

  /** In this run a client writes the key on the target, or a request that may replaces it. */
  ghost predicate Touched(s: State, orders: seq<Order>, steps: seq<Step>, t: nat, k: Bytes)
    requires CanRun(s, orders, steps)
    decreases |steps|
  {
    steps != [] && (WritesThere(steps[0], t, k) || RestoresThere(s, orders, steps[0], t, k) ||
                    Touched(Next(s, orders, steps[0]), orders, steps[1..], t, k))
  }

  /**
   * Over every run: what a target holds under a key changes only when a client
   * writes it there, or a request is executed that replaces or finds no such key.
   */
  lemma {:induction false} TargetKeepsItsKeys(s: State, orders: seq<Order>, steps: seq<Step>, t: nat, k: Bytes)
    requires CanRun(s, orders, steps) && t < |s.targets| && !Touched(s, orders, steps, t, k)
    ensures var end := RunTo(s, orders, steps);
            |end.targets| == |s.targets| && (k in end.targets[t] <==> k in s.targets[t]) &&
            (k in s.targets[t] ==> end.targets[t][k] == s.targets[t][k])
    decreases |steps|
  {
    if steps != [] {
      TargetStep(s, orders, steps[0], t, k);
      hide Next, WritesThere, RestoresThere;
      TargetKeepsItsKeys(Next(s, orders, steps[0]), orders, steps[1..], t, k);
    }
  }

  // ---- What happens to the source and to those who wait ----

  /**
   * The end of a migration: the key is deleted exactly when the answer was yes;
   * any other answer, a send that fails, or a wait in vain keeps it.
   */
  lemma SourceKeptUnlessAnswered(s: State, orders: seq<Order>, i: nat)
    requires |orders| == |s.phases| && Routable(s, orders) && i < |s.phases|
    ensures Enabled(s, orders, Remove(i)) ==>
              Next(s, orders, Remove(i)).source == if s.phases[i].ok then s.source - {orders[i].key} else s.source
    ensures Enabled(s, orders, GiveUp(i)) ==>
              Next(s, orders, GiveUp(i)).source == s.source && Next(s, orders, GiveUp(i)).phases[i] == Failed
    ensures Enabled(s, orders, SendFails(i)) ==>
              Next(s, orders, SendFails(i)).source == s.source && Next(s, orders, SendFails(i)).phases[i] == Failed
  {
  }

  /** Whoever stops waiting, with an answer or without, takes its entry out of the table and no other. */
  lemma NoEntryLeft(s: State, orders: seq<Order>, i: nat, step: Step)
    requires |orders| == |s.phases| && Routable(s, orders) && Enabled(s, orders, step)
    requires step == SendFails(i) || step == TakeReply(i) || step == GiveUp(i)
    ensures Next(s, orders, step).table == s.table - {s.phases[i].id}
    ensures step == TakeReply(i) ==>
              Next(s, orders, step).phases[i] ==
              Answered(s.phases[i].value, s.phases[i].id, s.table[s.phases[i].id].reply.value)
  {
  }

  /** A new request clears the table of exactly those whose time is over. */
  lemma StaleEntriesGo(s: State, orders: seq<Order>, i: nat, timeout: int, id: nat)
    requires |orders| == |s.phases| && Routable(s, orders) && Enabled(s, orders, Register(i, timeout)) && id != s.nextId
    ensures var table := Next(s, orders, Register(i, timeout)).table;
            && (id in table <==> id in s.table && s.now <= s.table[id].deadline)
            && (id in table ==> table[id] == s.table[id])
            && s.nextId in table && table[s.nextId] == Waiting(s.now + timeout, None)
  {
  }

  /** A reply reaches the one who waits for it, and is dropped when nobody does. */
  lemma ReplyReachesWaiter(s: State, orders: seq<Order>, m: Message)
    requires |orders| == |s.phases| && Routable(s, orders) && Enabled(s, orders, Deliver(m))
    ensures var table := Next(s, orders, Deliver(m)).table;
            && table.Keys == s.table.Keys
            && (forall id | id in s.table ::
                  table[id] == if id == m.id then Waiting(s.table[id].deadline, Some(m.ok)) else s.table[id])
  {
  }
}
