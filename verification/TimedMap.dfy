/**
 * One map from keys to values with deadlines: what the sharded store and its
 * expiry dictionary are together.
 */
module TimedMaps {
  import opened Wrappers
  import opened Bytes
  import opened Objects

  /** `deadline` is an absolute time in milliseconds; without one the key never expires. */
  datatype Entry = Entry(value: Object, deadline: Option<int>)

  type TimedMap = map<Bytes, Entry>

  predicate Dead(e: Entry, now: int) {
    e.deadline.Some? && now >= e.deadline.value
  }

  /** The keys a client can see at `now`. */
  function LiveAt(m: TimedMap, now: int): TimedMap {
    map k | k in m && !Dead(m[k], now) :: m[k]
  }

  /** A key is visible up to its deadline and not from there on; without one, always. */
  lemma VisibleIff(m: TimedMap, now: int, k: Bytes)
    ensures k in LiveAt(m, now) <==> k in m && (m[k].deadline.None? || now < m[k].deadline.value)
    ensures k in LiveAt(m, now) ==> LiveAt(m, now)[k] == m[k]
  {
  }

  lemma NothingLives(now: int)
    ensures LiveAt(map[], now) == map[]
  {
  }

  /** What is visible later depends only on what is visible now. */
  lemma LaterViews(m: TimedMap, now: int, later: int)
    requires now <= later
    ensures LiveAt(m, later) == LiveAt(LiveAt(m, now), later)
  {
  }

  /** Adding a time to live never wraps around: the sum, or the largest 64-bit number if that is less. */
  function SaturatingAdd(now: int, ttl: int): (t: int)
    ensures t <= now + ttl && t <= 9223372036854775807 && (t == now + ttl || t == 9223372036854775807)
  {
    if ttl > INT64_MAX - now then INT64_MAX else now + ttl
  }

  function DeadlineAfter(now: int, ttl: int): Option<int> {
    if ttl > 0 then Some(SaturatingAdd(now, ttl)) else None
  }

  /** `std::to_string` of a signed number. */
  function Shown(n: int): Bytes {
    if n < 0 then [MINUS] + Decimal(-n) else Decimal(n)
  }

  /** `parse_ll_strict`: an optional minus and digits, nothing else, in range. */
  function ParseStrict(s: Bytes): Option<int> {
    var neg := s != [] && s[0] == MINUS;
    var digits := if neg then s[1..] else s;
    if digits == [] || !(forall b | b in digits :: IsDigit(b)) then None
    else
      var size: int := Value(digits);
      var v := if neg then -size else size;
      if INT64_MIN <= v <= INT64_MAX then Some(v) else None
  }

  /** Exactly an optional minus and at least one digit, within 64 bits; no blank, plus or trailing byte. */
  lemma StrictIff(neg: bool, digits: Bytes)
    requires neg || digits == [] || digits[0] != 45
    ensures var r := ParseStrict(if neg then [45] + digits else digits);
            && (r.Some? <==>
                  && digits != [] && (forall i | 0 <= i < |digits| :: 48 <= digits[i] <= 57)
                  && Value(digits) <= if neg then 9223372036854775808 else 9223372036854775807)
            && (r.Some? ==> r.value == Value(digits) * if neg then -1 else 1)
  {
    hide Value;
    assert ([45] + digits)[1..] == digits;
    assert (forall b | b in digits :: IsDigit(b)) <==> (forall i | 0 <= i < |digits| :: 48 <= digits[i] <= 57) by {
      if i :| 0 <= i < |digits| && !(48 <= digits[i] <= 57) {
        assert digits[i] in digits;
      }
    }
  }

  lemma ShownParses(n: int)
    requires INT64_MIN <= n <= INT64_MAX
    ensures ParseStrict(Shown(n)) == Some(n)
  {
    hide Decimal, Value;
    var digits := Decimal(if n < 0 then -n else n);
    DecimalValue(if n < 0 then -n else n);
    assert digits[0] in digits;
    assert n < 0 ==> Shown(n)[1..] == digits;
  }

  lemma StollShown(n: int)
    requires INT64_MIN <= n <= INT64_MAX
    ensures Stoll(Shown(n)) == Some(Number(n, |Shown(n)|))
  {
    hide Decimal, Value;
    var s, digits := Shown(n), Decimal(if n < 0 then -n else n);
    DecimalValue(if n < 0 then -n else n);
    assert digits[0] in digits;
    var d := if n < 0 then 1 else 0;
    assert s[d..|s|] == digits;
    assert forall k | d <= k < |s| :: s[k] == s[d..|s|][k - d] && s[d..|s|][k - d] in digits;
    AllDigits(s, d);
  }

  // ---- Commands ----

  /** What the callback of `mutate` asks for. */
  datatype Edit = Noop | Write(o: Object) | Erase

  datatype Condition = Always | OnlyIfAbsent | OnlyIfExists

  datatype Command =
    | Get(key: Bytes)
    | Exist(key: Bytes)
    | Set(key: Bytes, value: Object)
    | SetWithExpire(key: Bytes, value: Object, ttl: int)
    | SetConditional(key: Bytes, value: Object, condition: Condition, ttl: int, keepTtl: bool)
    | Mutate(key: Bytes, want: Bytes, edit: Object -> Edit, promote: bool)
    | IncrBy(key: Bytes, delta: int)
    | Del(key: Bytes)
    | Expire(key: Bytes, seconds: int)
    | Persist(key: Bytes)
    | Clear

  datatype Reply =
    | Nothing
    | Found(o: Object)
    | Flag(b: bool)
    | Integer(n: int)
    | Stored(applied: bool, previous: Option<Object>)

  /** The commands that make room before they write. */
  predicate MayEvict(c: Command) {
    c.Set? || c.SetWithExpire? || c.SetConditional? || c.Mutate? || c.IncrBy?
  }

  /** Arguments as the store demands them: a key, and 64-bit numbers. */
  predicate WellFormed(c: Command) {
    && (!c.Clear? ==> c.key != [])
    && (c.IncrBy? ==> INT64_MIN <= c.delta <= INT64_MAX)
    && (c.SetWithExpire? || c.SetConditional? ==> INT64_MIN <= c.ttl <= INT64_MAX)
    && (c.Expire? ==> INT64_MIN <= c.seconds <= INT64_MAX)
  }

  /** A thousand per second, as far as 64 bits go. */
  function SecondsToMs(seconds: int): (ms: int)
    ensures ms <= 1000 * seconds && ms <= 9223372036854775807 && (ms == 1000 * seconds || ms == 9223372036854775807)
  {
    if seconds > INT64_MAX / 1000 then INT64_MAX else seconds * 1000
  }

  function KeptDeadline(m: TimedMap, key: Bytes): Option<int> {
    if key in m then m[key].deadline else None
  }

  function CurrentValue(m: TimedMap, key: Bytes): Object {
    if key in m then m[key].value else Text([])
  }

  /** A counter's value, 0 when absent, unless it is not a number. */
  function CounterOf(m: TimedMap, key: Bytes): Option<int> {
    if key !in m then Some(0)
    else if m[key].value.Text? then ParseStrict(m[key].value.text)
    else None
  }

  predicate WrongType(m: TimedMap, key: Bytes, want: Bytes, promote: bool) {
    key in m && Tag(m[key].value) != want && !(m[key].value.Text? && promote)
  }

  predicate Refused(m: TimedMap, key: Bytes, condition: Condition) {
    (condition == OnlyIfAbsent && key in m) || (condition == OnlyIfExists && key !in m)
  }

  /** The map after a command at `now` on the live map `m`. */
  function After(m: TimedMap, now: int, c: Command): TimedMap {
    match c
    case Get(_) => m
    case Exist(_) => m
    case Set(k, v) => m[k := Entry(v, None)]
    case SetWithExpire(k, v, ttl) => m[k := Entry(v, DeadlineAfter(now, ttl))]
    case SetConditional(k, v, cond, ttl, keep) =>
      if Refused(m, k, cond) then m
      else m[k := Entry(v, if keep then KeptDeadline(m, k) else DeadlineAfter(now, ttl))]
    case Mutate(k, want, edit, promote) =>
      if WrongType(m, k, want, promote) then m
      else
        (match edit(CurrentValue(m, k))
         case Noop => m
         case Erase => m - {k}
         case Write(o) => m[k := Entry(o, KeptDeadline(m, k))])
    case IncrBy(k, delta) =>
      var v := CounterOf(m, k);
      if v.None? || !(INT64_MIN <= v.value + delta <= INT64_MAX) then m
      else m[k := Entry(Text(Shown(v.value + delta)), KeptDeadline(m, k))]
    case Del(k) => m - {k}
    case Expire(k, seconds) =>
      if k !in m then m
      else if seconds <= 0 then m - {k}
      else m[k := Entry(m[k].value, DeadlineAfter(now, SecondsToMs(seconds)))]
    case Persist(k) => if k in m then m[k := Entry(m[k].value, None)] else m
    case Clear => map[]
  }

  function ReplyOf(m: TimedMap, c: Command): Reply {
    match c
    case Get(k) => if k in m then Found(m[k].value) else Nothing
    case Exist(k) => Flag(k in m)
    case Set(_, _) => Nothing
    case SetWithExpire(_, _, _) => Nothing
    case SetConditional(k, _, cond, _, _) =>
      Stored(!Refused(m, k, cond), if k in m then Some(m[k].value) else None)
    case Mutate(k, want, _, promote) => Flag(!WrongType(m, k, want, promote))
    case IncrBy(k, delta) =>
      var v := CounterOf(m, k);
      if v.None? || !(INT64_MIN <= v.value + delta <= INT64_MAX) then Nothing else Integer(v.value + delta)
    case Del(k) => Flag(k in m)
    case Expire(k, _) => Flag(k in m)
    case Persist(k) => Flag(k in m && m[k].deadline.Some?)
    case Clear => Nothing
  }

  datatype Timed = Timed(now: int, command: Command, victims: set<Bytes>)

  /** A run from the empty map; before each command time passes and victims leave. */
  function AfterAll(run: seq<Timed>): TimedMap {
    if run == [] then map[]
    else
      var t := run[|run| - 1];
      After(LiveAt(AfterAll(run[..|run| - 1]), t.now) - t.victims, t.now, t.command)
  }

  // ---- What the timed map promises ----

  predicate Concerns(c: Command, k: Bytes) {
    c.Clear? || c.key == k
  }

  /** The last step of a run. */
  lemma LastStep(run: seq<Timed>, k: Bytes)
    requires run != []
    ensures var t, before := run[|run| - 1], AfterAll(run[..|run| - 1]);
            var m := LiveAt(before, t.now) - t.victims;
            && AfterAll(run) == After(m, t.now, t.command)
            && (k in m <==> k in before && !Dead(before[k], t.now) && k !in t.victims)
            && (k in m ==> m[k] == before[k])
  {
  }

  /** A command that writes the key in place, or not at all. */
  predicate KeepsTtl(c: Command, k: Bytes) {
    Concerns(c, k) ==> c.Mutate? || c.IncrBy? || c.Get? || c.Exist? || (c.SetConditional? && c.keepTtl)
  }

  lemma OneInPlace(m: TimedMap, now: int, c: Command, k: Bytes)
    requires KeepsTtl(c, k) && k in m && k in After(m, now, c)
    ensures After(m, now, c)[k].deadline == m[k].deadline
  {
    hide Shown, CounterOf;
  }

  lemma OneElsewhere(m: TimedMap, now: int, c: Command, k: Bytes)
    requires !Concerns(c, k)
    ensures (k in m <==> k in After(m, now, c)) && (k in m ==> After(m, now, c)[k] == m[k])
  {
    hide Shown, CounterOf;
  }

  /**
   * A key that only container writes and counters ever write never has a time
   * to live, whatever happens to other keys.
   */
  lemma {:induction false} NewKeysDoNotExpire(run: seq<Timed>, k: Bytes)
    requires forall i | 0 <= i < |run| && Concerns(run[i].command, k) ::
               var c := run[i].command; c.Mutate? || c.IncrBy? || c.Get? || c.Exist? || c.Del? || c.Persist? || c.Clear?
    ensures k in AfterAll(run) ==> AfterAll(run)[k].deadline == None
    decreases |run|
  {
    if run != [] {
      var before, t := run[..|run| - 1], run[|run| - 1];
      NewKeysDoNotExpire(before, k);
      LastStep(run, k);
    }
  }

  /**
   * From step `from` on, as long as the key is there and is only written in
   * place or with KEEPTTL, its absolute deadline stays what it was.
   */
  lemma {:induction false} InPlaceKeepsDeadline(run: seq<Timed>, from: nat, k: Bytes)
    requires from <= |run| && forall i | from <= i <= |run| :: k in AfterAll(run[..i])
    requires forall i | from <= i < |run| ::
               && (k in LiveAt(AfterAll(run[..i]), run[i].now) - run[i].victims)
               && KeepsTtl(run[i].command, k)
    ensures k in AfterAll(run) && k in AfterAll(run[..from])
    ensures AfterAll(run)[k].deadline == AfterAll(run[..from])[k].deadline
    decreases |run|
  {
    assert run[..|run|] == run;
    if from < |run| {
      var before := run[..|run| - 1];
      assert forall i | 0 <= i <= |before| :: before[..i] == run[..i];
      hide After, AfterAll, LiveAt, KeepsTtl;
      InPlaceKeepsDeadline(before, from, k);
      LastStep(run, k);
      var t := run[|run| - 1];
      OneInPlace(LiveAt(AfterAll(before), t.now) - t.victims, t.now, t.command, k);
    }
  }

  /**
   * Commands on other keys leave a key alone: at any time not before the last
   * of them it is visible, with value and deadline, exactly when it was before.
   */
  lemma {:induction false} OtherKeysUntouched(run: seq<Timed>, from: nat, k: Bytes, now: int)
    requires from <= |run|
    requires forall i | from <= i < |run| ::
               run[i].now <= now && k !in run[i].victims && !Concerns(run[i].command, k)
    ensures var m, m' := LiveAt(AfterAll(run[..from]), now), LiveAt(AfterAll(run), now);
            (k in m <==> k in m') && (k in m ==> m[k] == m'[k])
    decreases |run|
  {
    assert run[..|run|] == run;
    if from < |run| {
      var before := run[..|run| - 1];
      assert before[..from] == run[..from];
      OtherKeysUntouched(before, from, k, now);
      LastStep(run, k);
      var t := run[|run| - 1];
      hide After, AfterAll;
      OneElsewhere(LiveAt(AfterAll(before), t.now) - t.victims, t.now, t.command, k);
    }
  }

  /** Counting up and down adds, as long as no step leaves the 64-bit range. */
  lemma CountersAdd(m: TimedMap, now: int, later: int, k: Bytes, a: int, b: int)
    requires ReplyOf(m, IncrBy(k, a)).Integer?
    requires ReplyOf(After(m, now, IncrBy(k, a)), IncrBy(k, b)).Integer?
    ensures After(After(m, now, IncrBy(k, a)), later, IncrBy(k, b)) == After(m, now, IncrBy(k, a + b))
    ensures ReplyOf(After(m, now, IncrBy(k, a)), IncrBy(k, b)) == ReplyOf(m, IncrBy(k, a + b))
  {
    hide Decimal, Value, ParseStrict, Shown;
    ShownParses(CounterOf(m, k).value + a);
  }

  /** A time to live given now lies ahead, however long it is. */
  lemma DeadlineIsAhead(now: int, ttl: int)
    requires 0 <= now < INT64_MAX && 0 < ttl
    ensures now < SaturatingAdd(now, ttl) <= INT64_MAX
  {
  }
}
