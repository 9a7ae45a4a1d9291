/** Whole runs of commands against the store. */
module StorageRuns {
  import opened Bytes
  import opened Objects
  import opened TimedMaps
  import opened Storages

  datatype Request = Request(now: int, command: Command)

  /** Commands the store accepts, at times that do not go back. */
  predicate Timeline(requests: seq<Request>) {
    && (forall i | 0 <= i < |requests| :: WellFormed(requests[i].command) && 0 <= requests[i].now < INT64_MAX)
    && (forall i | 0 < i < |requests| :: requests[i - 1].now <= requests[i].now)
  }

  /** The reply of the timed map, but DEL may also count a key that is dead and not yet removed. */
  predicate Answers(reply: Reply, m: TimedMap, c: Command) {
    if c.Del? then reply.Flag? && (c.key in m ==> reply.b) else reply == ReplyOf(m, c)
  }

  /**
   * What a command does to the stored map, dead keys included: keys leave only
   * as eviction may take them, no key but its own is new, and DEL tells
   * whether its key was still stored.
   */
  ghost predicate Stepped(before: TimedMap, after: TimedMap, maxEntries: nat, t: Timed, reply: Reply) {
    && MayLeave(before, maxEntries, t.victims) && (!MayEvict(t.command) ==> t.victims == {})
    && NewOnly(before, after, OwnKey(t.command))
    && (t.command.Del? ==> reply == Flag(t.command.key in before) && after == before - {t.command.key})
  }

  function OwnKey(c: Command): Bytes {
    if c.Clear? then [] else c.key
  }

  method Execute(db: GlobalStorage, c: Command, now: int) returns (reply: Reply, ghost victims: set<Bytes>)
    requires db.Valid() && WellFormed(c) && 0 <= now < INT64_MAX
    modifies db
    ensures db.Valid() && db.Live(now) == After(old(db.Live(now)) - victims, now, c)
    ensures Answers(reply, old(db.Live(now)) - victims, c)
    ensures Stepped(old(db.Now()), db.Now(), db.maxEntries, Timed(now, c, victims), reply)
  {
    hide Sound, View, LiveAt, After, MayLeave, Fewer, NewOnly;
    victims := {};
    NobodyLeaves(db.Now(), db.maxEntries);
    NothingNew(old(db.Now()), OwnKey(c));
    Unevicted(db.Live(now));
    match c
    case Get(k) =>
      var r := db.Get(k, now);
      reply := if r.Some? then Found(r.value) else Nothing;
      Unchanged(db.Live(now), now, c);
    case Exist(k) =>
      var b := db.Exist(k, now);
      reply := Flag(b);
      Unchanged(db.Live(now), now, c);
    case Set(k, v) =>
      victims := db.Set(k, v, now);
      reply := Nothing;
    case SetWithExpire(k, v, ttl) =>
      victims := db.SetWithExpire(k, v, ttl, now);
      reply := Nothing;
    case SetConditional(k, v, condition, ttl, keep) =>
      var applied, previous;
      applied, previous, victims := db.SetConditional(k, v, condition, ttl, keep, now);
      reply := Stored(applied, previous);
    case Mutate(k, want, edit, promote) =>
      var ok;
      ok, victims := db.Mutate(k, want, edit, promote, now);
      reply := Flag(ok);
    case IncrBy(k, delta) =>
      var r;
      r, victims := db.IncrBy(k, delta, now);
      reply := if r.Some? then Integer(r.value) else Nothing;
    case Del(k) =>
      LiveIsThere(db.Now(), now);
      var b := db.Del(k, now);
      reply := Flag(b);
    case Expire(k, seconds) =>
      var b := db.Expire(k, seconds, now);
      reply := Flag(b);
    case Persist(k) =>
      var b := db.Persist(k, now);
      reply := Flag(b);
    case Clear =>
      NothingLives(now);
      Cleared(db.Live(now), now);
      db.Clear();
      reply := Nothing;
  }

  lemma NobodyLeaves(m: TimedMap, maxEntries: nat)
    ensures MayLeave(m, maxEntries, {})
  {
  }

  lemma NothingNew(before: TimedMap, k: Bytes)
    ensures forall after :: Fewer(before, after) ==> NewOnly(before, after, k)
    ensures NewOnly(before, before, k) && NewOnly(before, before - {k}, k) && NewOnly(before, map[], k)
  {
  }

  lemma Unevicted(m: TimedMap)
    ensures m - {} == m
  {
  }

  lemma Unchanged(m: TimedMap, now: int, c: Command)
    requires c.Get? || c.Exist?
    ensures After(m, now, c) == m
  {
  }

  lemma Cleared(m: TimedMap, now: int)
    ensures After(m, now, Clear) == map[]
  {
  }

  lemma LiveIsThere(m: TimedMap, now: int)
    ensures LiveAt(m, now).Keys <= m.Keys
  {
  }

  ghost predicate Describes(run: seq<Timed>, requests: seq<Request>) {
    && |run| == |requests|
    && forall i | 0 <= i < |run| :: run[i].now == requests[i].now && run[i].command == requests[i].command
  }

  /** `stored` is the stored map before each command and at the end; it looks like the timed map of the run. */
  ghost predicate AllStepped(stored: seq<TimedMap>, run: seq<Timed>, replies: seq<Reply>, maxEntries: nat) {
    && |stored| == |run| + 1 && |replies| == |run| && stored[0] == map[]
    && forall i | 0 <= i < |run| ::
         && Stepped(stored[i], stored[i + 1], maxEntries, run[i], replies[i])
         && LiveAt(stored[i], run[i].now) == LiveAt(AfterAll(run[..i]), run[i].now)
  }

  lemma OneMoreStep(stored: seq<TimedMap>, run: seq<Timed>, replies: seq<Reply>, maxEntries: nat,
                    m: TimedMap, t: Timed, reply: Reply)
    requires AllStepped(stored, run, replies, maxEntries) && Stepped(stored[|run|], m, maxEntries, t, reply)
    requires LiveAt(stored[|run|], t.now) == LiveAt(AfterAll(run), t.now)
    ensures AllStepped(stored + [m], run + [t], replies + [reply], maxEntries)
  {
    hide Stepped, LiveAt, AfterAll;
    var run' := run + [t];
    assert run'[..|run|] == run;
    assert forall i | 0 <= i < |run| :: run'[..i] == run[..i];
  }

  /** The store never has more keys than commands have been given, so a run below the threshold loses none. */
  lemma {:induction false} NoEvictionBelow(stored: seq<TimedMap>, run: seq<Timed>, replies: seq<Reply>,
                                           maxEntries: nat, n: nat)
    requires AllStepped(stored, run, replies, maxEntries) && n <= |run|
    ensures |stored[n]| <= n
    ensures 10 * |run| <= 9 * maxEntries ==> forall i | 0 <= i < n :: run[i].victims == {}
    decreases n
  {
    hide LiveAt, AfterAll;
    if n > 0 {
      NoEvictionBelow(stored, run, replies, maxEntries, n - 1);
      assert Stepped(stored[n - 1], stored[n - 1 + 1], maxEntries, run[n - 1], replies[n - 1]);
      NewOnlySize(stored[n - 1], stored[n], OwnKey(run[n - 1].command));
    }
  }

  ghost predicate AllAnswered(replies: seq<Reply>, run: seq<Timed>) {
    && |replies| == |run|
    && forall i | 0 <= i < |run| ::
         Answers(replies[i], LiveAt(AfterAll(run[..i]), run[i].now) - run[i].victims, run[i].command)
  }

  /**
   * However long the run: the sharded store with its separate expiry dictionary
   * answers and holds what one timed map does, evictions made explicit.
   */
  method Run(db: GlobalStorage, requests: seq<Request>)
    returns (replies: seq<Reply>, ghost run: seq<Timed>, ghost stored: seq<TimedMap>)
    requires db.Valid() && db.Now() == map[] && Timeline(requests)
    modifies db
    ensures db.Valid() && Describes(run, requests) && AllAnswered(replies, run)
    ensures AllStepped(stored, run, replies, db.maxEntries) && stored[|requests|] == db.Now()
    ensures forall t | requests != [] && t >= requests[|requests| - 1].now :: db.Live(t) == LiveAt(AfterAll(run), t)
    ensures 10 * |requests| <= 9 * db.maxEntries ==> forall i | 0 <= i < |run| :: run[i].victims == {}
  {
    hide Sound, View, LiveAt, After, Answers, Describes, AllAnswered, AfterAll, SameFrom, Stepped;
    replies, run, stored := [], [], [db.Now()];
    NothingRun(requests[..0], db.Now());
    var i := 0;
    ghost var last := 0;
    while i < |requests|
      invariant 0 <= i <= |requests| && db.Valid() && |run| == i
      invariant Describes(run, requests[..i]) && AllAnswered(replies, run)
      invariant AllStepped(stored, run, replies, db.maxEntries) && stored[i] == db.Now()
      invariant if i > 0 then last == requests[i - 1].now else last == 0
      invariant SameFrom(db.Now(), AfterAll(run), last)
    {
      var r := requests[i];
      AtNow(db.Now(), AfterAll(run), last, r.now);
      var reply, victims := Execute(db, r.command, r.now);
      ghost var t := Timed(r.now, r.command, victims);
      OneMoreStep(stored, run, replies, db.maxEntries, db.Now(), t, reply);
      OneMoreAnswer(replies, run, reply, t);
      NowOn(db.Now(), AfterAll(run + [t]), r.now);
      DescribesMore(run, requests, i, t);
      replies, run, last, stored := replies + [reply], run + [t], r.now, stored + [db.Now()];
      i := i + 1;
    }
    assert requests[..i] == requests;
    NoEvictionBelow(stored, run, replies, db.maxEntries, |run|);
    if requests != [] {
      FromThen(db, AfterAll(run), last);
    }
  }

  /** Two maps look the same from `last` on. */
  ghost predicate SameFrom(m: TimedMap, spec: TimedMap, last: int) {
    forall t | t >= last :: LiveAt(m, t) == LiveAt(spec, t)
  }

  lemma NothingRun(none: seq<Request>, m: TimedMap)
    requires none == [] && m == map[]
    ensures Describes([], none) && AllAnswered([], []) && SameFrom(m, AfterAll([]), 0)
    ensures forall maxEntries :: AllStepped([m], [], [], maxEntries)
  {
  }

  lemma AtNow(m: TimedMap, spec: TimedMap, last: int, now: int)
    requires SameFrom(m, spec, last) && last <= now
    ensures LiveAt(m, now) == LiveAt(spec, now)
  {
  }

  lemma FromThen(db: GlobalStorage, spec: TimedMap, last: int)
    requires db.Valid() && SameFrom(db.Now(), spec, last)
    ensures forall t | t >= last :: db.Live(t) == LiveAt(spec, t)
  {
  }

  lemma DescribesMore(run: seq<Timed>, requests: seq<Request>, i: nat, t: Timed)
    requires i < |requests| && Describes(run, requests[..i])
    requires t.now == requests[i].now && t.command == requests[i].command
    ensures Describes(run + [t], requests[..i + 1])
  {
    assert requests[..i + 1] == requests[..i] + [requests[i]];
  }

  /** Maps that agree now agree from now on. */
  lemma NowOn(m: TimedMap, spec: TimedMap, now: int)
    requires LiveAt(m, now) == spec
    ensures SameFrom(m, spec, now)
  {
    hide LiveAt;
    forall t | t >= now
      ensures LiveAt(m, t) == LiveAt(spec, t)
    {
      LaterViews(m, now, t);
    }
  }

  lemma OneMoreAnswer(replies: seq<Reply>, run: seq<Timed>, reply: Reply, t: Timed)
    requires AllAnswered(replies, run)
    requires Answers(reply, LiveAt(AfterAll(run), t.now) - t.victims, t.command)
    ensures AllAnswered(replies + [reply], run + [t])
    ensures AfterAll(run + [t]) == After(LiveAt(AfterAll(run), t.now) - t.victims, t.now, t.command)
  {
    hide LiveAt, After, Answers;
    var run' := run + [t];
    assert run'[..|run|] == run;
    assert forall i | 0 <= i < |run| :: run'[..i] == run[..i];
  }

  /** A key whose deadline has passed: no client sees it, and DEL counts it. */
  method CountsDeadKey(hash: Bytes -> nat, random: nat -> nat, k: Bytes) returns (visible: bool, counted: bool)
    requires k != []
    ensures !visible && counted
  {
    hide Sound, View, LiveAt, MayLeave, NewOnly;
    var db := new GlobalStorage(hash, 10, random);
    NothingLives(0);
    var victims := db.SetWithExpire(k, Text([]), 1, 0);
    db.Reads(k, 0);
    db.Reads(k, 1);
    visible := db.Exist(k, 1);
    counted := db.Del(k, 1);
  }
}
