/** The sharded store and its expiry dictionary, refining one timed map. */
module Storages {
  import opened Wrappers
  import opened Bytes
  import opened Objects
  import opened TimedMaps

  const SHARDS: nat := 64
  const MAX_EVICTIONS: nat := 1024

  datatype CacheEntry = CacheEntry(value: Object, accessed: int)

  type Stores = seq<map<Bytes, CacheEntry>>

  function Shard(hash: Bytes -> nat, k: Bytes): nat {
    hash(k) % SHARDS
  }

  /** Every key lives in the shard its hash names, and none is empty. */
  ghost predicate Sharded(hash: Bytes -> nat, stores: Stores) {
    |stores| == SHARDS && forall i, k | 0 <= i < SHARDS && k in stores[i] :: Shard(hash, k) == i && k != []
  }

  /** No deadline without a key, and none beyond the 64-bit range. */
  ghost predicate Anchored(hash: Bytes -> nat, stores: Stores, deadlines: map<Bytes, int>)
    requires |stores| == SHARDS
  {
    forall k | k in deadlines :: k in stores[Shard(hash, k)] && 0 < deadlines[k] <= INT64_MAX
  }

  ghost predicate Sound(hash: Bytes -> nat, stores: Stores, deadlines: map<Bytes, int>) {
    Sharded(hash, stores) && Anchored(hash, stores, deadlines)
  }

  ghost function KeysBelow(stores: Stores, n: nat): set<Bytes>
    requires n <= |stores|
  {
    if n == 0 then {} else KeysBelow(stores, n - 1) + stores[n - 1].Keys
  }

  function DeadlineOf(deadlines: map<Bytes, int>, k: Bytes): Option<int> {
    if k in deadlines then Some(deadlines[k]) else None
  }

  predicate Past(deadlines: map<Bytes, int>, k: Bytes, now: int) {
    k in deadlines && now >= deadlines[k]
  }

  /** Shard `i` has no dead key, and none used before the end of time: nothing to evict. */
  ghost predicate Barren(stores: Stores, deadlines: map<Bytes, int>, i: nat, now: int) {
    i < |stores| && forall k | k in stores[i] :: !Past(deadlines, k, now) && stores[i][k].accessed >= INT64_MAX
  }

  /** The key is a dead one of shard `i`, or, when no key of the shard is dead, one used longest ago. */
  ghost predicate IsVictim(stores: Stores, deadlines: map<Bytes, int>, i: nat, k: Bytes, now: int) {
    && i < |stores| && k in stores[i]
    && (Past(deadlines, k, now) ||
        forall j | j in stores[i] :: !Past(deadlines, j, now) && stores[i][k].accessed <= stores[i][j].accessed)
  }

  /** What eviction may take from `m`: nothing below nine tenths, else at most 1024 of its keys. */
  ghost predicate MayLeave(m: TimedMap, maxEntries: nat, victims: set<Bytes>) {
    victims <= m.Keys && |victims| <= 1024 && (10 * |m| + 10 <= 9 * maxEntries ==> victims == {})
  }

  lemma NobodyLeaves(m: TimedMap, maxEntries: nat)
    ensures MayLeave(m, maxEntries, {})
  {
  }

  lemma NoneLeaves(m: TimedMap, maxEntries: nat, victims: set<Bytes>)
    requires MayLeave(m, maxEntries, victims)
    ensures 10 * |m| + 10 <= 9 * maxEntries ==> victims == {}
  {
  }

  /** No key of `after` is new, but for `k`. */
  ghost predicate NewOnly(before: TimedMap, after: TimedMap, k: Bytes) {
    after.Keys <= before.Keys + {k}
  }

  ghost predicate Fewer(before: TimedMap, after: TimedMap) {
    after.Keys <= before.Keys
  }

  lemma Grown(before: TimedMap, room: TimedMap, after: TimedMap, k: Bytes)
    requires Fewer(before, room) && (NewOnly(room, after, k) || Fewer(room, after))
    ensures NewOnly(before, after, k)
  {
  }

  lemma FewerStill(before: TimedMap, room: TimedMap, after: TimedMap)
    requires Fewer(before, room) && Fewer(room, after)
    ensures Fewer(before, after)
  {
  }

  lemma WrittenWithTtl(m: TimedMap, now: int, k: Bytes, value: Object, ttl: int)
    ensures After(m, now, Command.SetWithExpire(k, value, ttl)) ==
            m[k := Entry(value, if ttl <= 0 then None else Some(if ttl > INT64_MAX - now then INT64_MAX else now + ttl))]
  {
  }

  /** The time, or the largest 64-bit number if that comes first. */
  function Soonest(t: int): (s: int)
    ensures s <= t && s <= 9223372036854775807 && (s == t || s == 9223372036854775807)
  {
    if t < 9223372036854775807 then t else 9223372036854775807
  }

  /** The deadlines the commands compute, never past the last 64-bit number. */
  lemma DeadlineCapped(now: int, ttl: int)
    ensures DeadlineAfter(now, ttl) == if ttl <= 0 then None else Some(Soonest(now + ttl))
  {
  }

  lemma ExpiresAs(m: TimedMap, now: int, k: Bytes, seconds: int)
    ensures ReplyOf(m, Command.Expire(k, seconds)) == Flag(k in m)
    ensures k !in m ==> m - {k} == m
    ensures k !in m || seconds <= 0 ==> After(m, now, Command.Expire(k, seconds)) == m - {k}
    ensures SaturatingAdd(now, SecondsToMs(seconds)) == Soonest(now + Soonest(1000 * seconds))
    ensures k in m && seconds > 0 ==>
              After(m, now, Command.Expire(k, seconds)) ==
              m[k := Entry(m[k].value, Some(SaturatingAdd(now, SecondsToMs(seconds))))]
  {
    WithoutIt(m, k);
  }

  lemma CountsAs(m: TimedMap, now: int, k: Bytes, delta: int)
    ensures var n, c := CounterOf(m, k), Command.IncrBy(k, delta);
            if n.Some? && INT64_MIN <= n.value + delta <= INT64_MAX
            then && After(m, now, c) == m[k := Entry(Text(Shown(n.value + delta)), if k in m then m[k].deadline else None)]
                 && ReplyOf(m, c) == Integer(n.value + delta)
            else After(m, now, c) == m && ReplyOf(m, c) == Nothing
  {
  }

  lemma AppliesAs(m: TimedMap, now: int, k: Bytes, value: Object, condition: Condition, ttl: int, keepTtl: bool)
    ensures var c := Command.SetConditional(k, value, condition, ttl, keepTtl);
            var applied := match condition case OnlyIfAbsent => k !in m case OnlyIfExists => k in m case Always => true;
            && ReplyOf(m, c) == Stored(applied, if k in m then Some(m[k].value) else None)
            && After(m, now, c) ==
               if !applied then m
               else if keepTtl then m[k := Entry(value, if k in m then m[k].deadline else None)]
               else m[k := Entry(value, if ttl <= 0 then None else Some(Soonest(now + ttl)))]
  {
    hide Soonest;
    DeadlineCapped(now, ttl);
  }

  lemma MutatesAs(m: TimedMap, now: int, k: Bytes, want: Bytes, edit: Object -> Edit, promote: bool)
    ensures var c := Command.Mutate(k, want, edit, promote);
            if k in m && Tag(m[k].value) != want && !(m[k].value.Text? && promote)
            then After(m, now, c) == m && ReplyOf(m, c) == Flag(false)
            else && ReplyOf(m, c) == Flag(true)
                 && After(m, now, c) ==
                    match edit(if k in m then m[k].value else Text([]))
                    case Noop => m
                    case Erase => m - {k}
                    case Write(o) => m[k := Entry(o, if k in m then m[k].deadline else None)]
  {
    hide Tag;
  }

  lemma CountsTo(m: TimedMap, now: int, k: Bytes, delta: int, after: TimedMap, r: Option<int>)
    requires INT64_MIN <= delta <= INT64_MAX && after == After(m, now, Command.IncrBy(k, delta))
    requires ReplyOf(m, Command.IncrBy(k, delta)) == if r.Some? then Integer(r.value) else Nothing
    ensures k !in m ==> r == Some(delta)
    ensures k in m && !m[k].value.Text? ==> r == None
    ensures k in m && m[k].value.Text? ==>
              var n := ParseStrict(m[k].value.text);
              && (r.Some? <==> n.Some? && -9223372036854775808 <= n.value + delta <= 9223372036854775807)
              && (r.Some? ==> r.value == n.value + delta)
    ensures r.None? ==> after == m
    ensures r.Some? ==> after == m[k := Entry(Text(Shown(r.value)), if k in m then m[k].deadline else None)]
  {
    hide After, ReplyOf, ParseStrict, Shown;
    CountsAs(m, now, k, delta);
  }

  lemma WithoutIt(m: TimedMap, k: Bytes)
    ensures k !in m ==> m - {k} == m
  {
  }

  lemma SameFew(m: TimedMap)
    ensures Fewer(m, m)
  {
  }

  lemma NewOnlySize(before: TimedMap, after: TimedMap, k: Bytes)
    requires NewOnly(before, after, k)
    ensures |after| <= |before| + 1
  {
    Subset(after.Keys, before.Keys + {k});
    assert |before.Keys + {k}| <= |before.Keys| + 1;
  }

  lemma Subset(a: set<Bytes>, b: set<Bytes>)
    requires a <= b
    ensures |a| <= |b|
  {
    assert b == a + (b - a);
  }

  lemma {:induction false} KeyFound(hash: Bytes -> nat, stores: Stores, n: nat, k: Bytes)
    requires Sharded(hash, stores) && n <= SHARDS
    ensures k in KeysBelow(stores, n) <==> Shard(hash, k) < n && k in stores[Shard(hash, k)]
  {
    if n > 0 {
      KeyFound(hash, stores, n - 1, k);
    }
  }

  /** The timed map both structures hold together. */
  ghost function View(hash: Bytes -> nat, stores: Stores, deadlines: map<Bytes, int>): (m: TimedMap)
    requires Sharded(hash, stores)
  {
    map k | k in KeysBelow(stores, SHARDS) && k in stores[Shard(hash, k)] ::
      Entry(stores[Shard(hash, k)][k].value, DeadlineOf(deadlines, k))
  }

  lemma ViewMeans(hash: Bytes -> nat, stores: Stores, deadlines: map<Bytes, int>, k: Bytes)
    requires Sharded(hash, stores)
    ensures k in View(hash, stores, deadlines) <==> k in stores[Shard(hash, k)]
    ensures k in stores[Shard(hash, k)] ==>
              View(hash, stores, deadlines)[k] == Entry(stores[Shard(hash, k)][k].value, DeadlineOf(deadlines, k))
  {
    KeyFound(hash, stores, SHARDS, k);
  }

  ghost predicate SameBut(a: map<Bytes, int>, b: map<Bytes, int>, k: Bytes) {
    a - {k} == b - {k}
  }

  function Put(stores: Stores, i: nat, k: Bytes, e: CacheEntry): Stores
    requires i < |stores|
  {
    stores[i := stores[i][k := e]]
  }

  function Drop(stores: Stores, i: nat, k: Bytes): Stores
    requires i < |stores|
  {
    stores[i := stores[i] - {k}]
  }

  /** Writing a key in its shard writes it in the timed map. */
  lemma PutView(hash: Bytes -> nat, stores: Stores, deadlines: map<Bytes, int>, k: Bytes, e: CacheEntry,
                deadlines': map<Bytes, int>)
    requires Sound(hash, stores, deadlines) && SameBut(deadlines, deadlines', k)
    requires k != [] && (k in deadlines' ==> 0 < deadlines'[k] <= INT64_MAX)
    ensures var stores' := Put(stores, Shard(hash, k), k, e);
            && Sound(hash, stores', deadlines')
            && View(hash, stores', deadlines') ==
               View(hash, stores, deadlines)[k := Entry(e.value, DeadlineOf(deadlines', k))]
  {
    hide View, KeysBelow;
    var stores' := Put(stores, Shard(hash, k), k, e);
    OtherDeadlines(deadlines, deadlines', k);
    PutSound(hash, stores, deadlines, k, e, deadlines');
    forall j
      ensures j in View(hash, stores', deadlines') <==> j == k || j in View(hash, stores, deadlines)
      ensures j == k ==> View(hash, stores', deadlines')[j] == Entry(e.value, DeadlineOf(deadlines', k))
      ensures j != k && j in View(hash, stores, deadlines) ==>
                View(hash, stores', deadlines')[j] == View(hash, stores, deadlines)[j]
    {
      hide Sound;
      ViewMeans(hash, stores, deadlines, j);
      ViewMeans(hash, stores', deadlines', j);
    }
  }

  lemma OtherDeadlines(a: map<Bytes, int>, b: map<Bytes, int>, k: Bytes)
    requires SameBut(a, b, k)
    ensures forall j | j != k :: DeadlineOf(a, j) == DeadlineOf(b, j)
  {
    forall j | j != k
      ensures DeadlineOf(a, j) == DeadlineOf(b, j)
    {
      assert j in a <==> j in a - {k};
      assert j in b <==> j in b - {k};
      assert j in a ==> a[j] == (a - {k})[j];
    }
  }

  lemma PutSound(hash: Bytes -> nat, stores: Stores, deadlines: map<Bytes, int>, k: Bytes, e: CacheEntry,
                 deadlines': map<Bytes, int>)
    requires Sound(hash, stores, deadlines)
    requires forall j | j != k :: DeadlineOf(deadlines, j) == DeadlineOf(deadlines', j)
    requires k != [] && (k in deadlines' ==> 0 < deadlines'[k] <= INT64_MAX)
    ensures Sound(hash, Put(stores, Shard(hash, k), k, e), deadlines')
  {
    forall j | j in deadlines'
      ensures j in Put(stores, Shard(hash, k), k, e)[Shard(hash, j)] && 0 < deadlines'[j] <= INT64_MAX
    {
      assert j != k ==> DeadlineOf(deadlines, j) == DeadlineOf(deadlines', j);
    }
  }

  lemma DropSound(hash: Bytes -> nat, stores: Stores, deadlines: map<Bytes, int>, k: Bytes)
    requires Sound(hash, stores, deadlines)
    ensures Sound(hash, Drop(stores, Shard(hash, k), k), deadlines - {k})
  {
  }

  lemma DropView(hash: Bytes -> nat, stores: Stores, deadlines: map<Bytes, int>, k: Bytes)
    requires Sound(hash, stores, deadlines)
    ensures var stores' := Drop(stores, Shard(hash, k), k);
            && Sound(hash, stores', deadlines - {k})
            && View(hash, stores', deadlines - {k}) == View(hash, stores, deadlines) - {k}
  {
    hide View, KeysBelow;
    var stores' := Drop(stores, Shard(hash, k), k);
    DropSound(hash, stores, deadlines, k);
    forall j
      ensures j in View(hash, stores', deadlines - {k}) <==> j != k && j in View(hash, stores, deadlines)
      ensures j != k && j in View(hash, stores, deadlines) ==>
                View(hash, stores', deadlines - {k})[j] == View(hash, stores, deadlines)[j]
    {
      hide Sound;
      ViewMeans(hash, stores, deadlines, j);
      ViewMeans(hash, stores', deadlines - {k}, j);
    }
  }

  lemma LivePut(m: TimedMap, now: int, k: Bytes, e: Entry)
    requires !Dead(e, now)
    ensures LiveAt(m[k := e], now) == LiveAt(m, now)[k := e]
  {
  }

  lemma LiveDrop(m: TimedMap, now: int, k: Bytes)
    ensures LiveAt(m - {k}, now) == LiveAt(m, now) - {k}
  {
  }

  // ---- Sizes ----

  lemma OneMoreShard(hash: Bytes -> nat, stores: Stores, n: nat)
    requires Sharded(hash, stores) && n < SHARDS
    ensures |KeysBelow(stores, n + 1)| == |KeysBelow(stores, n)| + |stores[n]|
  {
    forall k | k in KeysBelow(stores, n)
      ensures k !in stores[n]
    {
      KeyFound(hash, stores, n, k);
    }
    assert KeysBelow(stores, n) !! stores[n].Keys;
  }

  class GlobalStorage {
    const hash: Bytes -> nat
    var stores: Stores
    var deadlines: map<Bytes, int>
    const maxEntries: nat
    /** The random numbers eviction draws, and how many it has drawn. */
    const random: nat -> nat
    var draws: nat

    ghost predicate Valid()
      reads this
    {
      Sound(hash, stores, deadlines)
    }

    ghost function Now(): TimedMap
      reads this
      requires Valid()
    {
      View(hash, stores, deadlines)
    }

    /** The keys a client sees. */
    ghost function Live(now: int): TimedMap
      reads this
      requires Valid()
    {
      LiveAt(Now(), now)
    }

    constructor (hash: Bytes -> nat, maxEntries: nat, random: nat -> nat)
      ensures Valid() && Now() == map[] && this.maxEntries == maxEntries && this.hash == hash && this.random == random
    {
      this.hash, this.random, draws := hash, random, 0;
      stores := seq(SHARDS, _ => map[]);
      deadlines := map[];
      this.maxEntries := maxEntries;
    }

    predicate Expired(k: Bytes, now: int)
      reads this
    {
      Past(deadlines, k, now)
    }

    // ---- The two ways the structures change ----

    /** Writes a key and its deadline together. */
    method Store(k: Bytes, e: CacheEntry, deadline: Option<int>, now: int)
      requires Valid() && k != [] && (deadline.Some? ==> 0 < deadline.value <= INT64_MAX && now < deadline.value)
      modifies this`stores, this`deadlines
      ensures Valid() && Now() == old(Now())[k := Entry(e.value, deadline)] && NewOnly(old(Now()), Now(), k)
      ensures Live(now) == old(Live(now))[k := Entry(e.value, deadline)]
    {
      ghost var with := if deadline.Some? then deadlines[k := deadline.value] else deadlines - {k};
      assert with - {k} == deadlines - {k};
      PutView(hash, stores, deadlines, k, e, with);
      LivePut(Now(), now, k, Entry(e.value, deadline));
      ShardCount();
      hide View, Sound, LiveAt;
      var i := Shard(hash, k);
      if deadline.Some? {
        deadlines := deadlines[k := deadline.value];
      } else {
        deadlines := deadlines - {k};
      }
      stores := stores[i := stores[i][k := e]];
    }

    /** Removes a key and its deadline together. */
    method Erase(k: Bytes) returns (erased: bool)
      requires Valid()
      modifies this`stores, this`deadlines
      ensures Valid() && Now() == old(Now()) - {k} && (erased <==> k in old(Now())) && Fewer(old(Now()), Now())
      ensures forall now :: Live(now) == old(Live(now)) - {k}
    {
      DropView(hash, stores, deadlines, k);
      ViewMeans(hash, stores, deadlines, k);
      forall now
        ensures LiveAt(Now() - {k}, now) == LiveAt(Now(), now) - {k}
      {
        LiveDrop(Now(), now, k);
      }
      ShardCount();
      hide View, Sound, LiveAt;
      deadlines := deadlines - {k};
      var i := Shard(hash, k);
      erased := k in stores[i];
      stores := stores[i := stores[i] - {k}];
    }

    lemma ShardCount()
      requires Valid()
      ensures |stores| == SHARDS
    {
    }

    /** Whether a key is there and alive, read off the two structures. */
    lemma Reads(k: Bytes, now: int)
      requires Valid()
      ensures |stores| == SHARDS
      ensures k in Live(now) <==> k in stores[Shard(hash, k)] && !Expired(k, now)
      ensures k in stores[Shard(hash, k)] <==> k in Now()
      ensures k in Live(now) ==> Live(now)[k] == Entry(stores[Shard(hash, k)][k].value, DeadlineOf(deadlines, k))
      ensures k in deadlines ==> k in stores[Shard(hash, k)] && 0 < deadlines[k] <= INT64_MAX
      ensures k in stores[Shard(hash, k)] ==> k != []
    {
      ViewMeans(hash, stores, deadlines, k);
    }

    // ---- Eviction ----

    /** The number of keys, dead ones included. */
    method Size() returns (total: nat)
      requires Valid()
      ensures total == |Now()|
    {
      total := 0;
      ShardCount();
      var i := 0;
      while i < SHARDS
        invariant 0 <= i <= SHARDS && total == |KeysBelow(stores, i)|
      {
        OneMoreShard(hash, stores, i);
        total := total + |stores[i]|;
        i := i + 1;
      }
      forall k
        ensures k in Now() <==> k in KeysBelow(stores, SHARDS)
      {
        hide KeysBelow, View;
        KeyFound(hash, stores, SHARDS, k);
        ViewMeans(hash, stores, deadlines, k);
      }
      assert Now().Keys == KeysBelow(stores, SHARDS);
      assert |Now()| == |Now().Keys|;
    }

    /** The victim in one shard: a dead key if there is one, else the one used longest ago. */
    method FindVictim(i: nat, now: int) returns (victim: Option<Bytes>)
      requires i < |stores|
      ensures victim.Some? ==> IsVictim(stores, deadlines, i, victim.value, now)
      ensures victim.None? ==> Barren(stores, deadlines, i, now)
      ensures victim.Some? ==>
                var k := victim.value;
                k in stores[i] && if k in deadlines && deadlines[k] <= now then true
                else forall j | j in stores[i] ::
                       !(j in deadlines && deadlines[j] <= now) && stores[i][k].accessed <= stores[i][j].accessed
      ensures (exists k :: k in stores[i] && stores[i][k].accessed < 9223372036854775807) ==> victim.Some?
    {
      var store := stores[i];
      victim := None;
      var oldest := INT64_MAX;
      var rest := store.Keys;
      while rest != {}
        invariant rest <= store.Keys
        invariant forall j | j in store && j !in rest :: !Expired(j, now) && oldest <= store[j].accessed
        invariant victim.None? ==> oldest == INT64_MAX
        invariant victim.Some? ==> victim.value in store && store[victim.value].accessed == oldest
        decreases |rest|
      {
        var k :| k in rest;
        if Expired(k, now) {
          return Some(k);
        }
        if store[k].accessed < oldest {
          oldest, victim := store[k].accessed, Some(k);
        }
        rest := rest - {k};
      }
    }

    /** Looks into at most eight shards picked at random; the first with a victim loses it. */
    method EvictOne(now: int) returns (victim: Option<Bytes>)
      requires Valid()
      modifies this`stores, this`deadlines, this`draws
      ensures Valid() && old(draws) < draws <= old(draws) + 8
      ensures victim.None? ==> stores == old(stores) && deadlines == old(deadlines) && NothingFound(now)
      ensures victim.None? ==> draws == old(draws) + 8
      ensures victim.Some? ==>
                && victim.value in old(Now()) && Now() == old(Now()) - {victim.value}
                && FirstVictim(old(stores), old(deadlines), old(draws), draws, victim.value, now)
    {
      hide Sound, View, LiveAt, Barren, IsVictim;
      var attempt := 0;
      while attempt < 8
        invariant 0 <= attempt <= 8 && Valid() && stores == old(stores) && deadlines == old(deadlines)
        invariant draws == old(draws) + attempt
        invariant forall a | old(draws) <= a < draws :: Barren(stores, deadlines, random(a) % SHARDS, now)
      {
        ShardCount();
        var i := random(draws) % SHARDS;
        draws := draws + 1;
        victim := FindVictim(i, now);
        if victim.Some? {
          InItsShard(i, victim.value, now);
          assert FirstVictim(stores, deadlines, old(draws), draws, victim.value, now);
          hide FirstVictim;
          var erased := Erase(victim.value);
          return;
        }
        attempt := attempt + 1;
      }
      victim := None;
    }

    /** The shard of the last draw gave the victim, and those of the draws before it had none. */
    ghost predicate FirstVictim(stores: Stores, deadlines: map<Bytes, int>, from: nat, to: nat, k: Bytes, now: int) {
      && from < to && IsVictim(stores, deadlines, random(to - 1) % SHARDS, k, now)
      && forall a | from <= a < to - 1 :: Barren(stores, deadlines, random(a) % SHARDS, now)
    }

    /** The last eight shards looked into had no victim. */
    ghost predicate NothingFound(now: int)
      reads this
    {
      draws >= 8 && forall a | draws - 8 <= a < draws :: Barren(stores, deadlines, random(a) % SHARDS, now)
    }

    lemma InItsShard(i: nat, k: Bytes, now: int)
      requires Valid() && IsVictim(stores, deadlines, i, k, now)
      ensures k in Now()
    {
      ViewMeans(hash, stores, deadlines, k);
    }

    /** At most 1024 evictions, checking the size after every 64th. */
    method EvictDownTo(target: nat, now: int) returns (ghost victims: set<Bytes>)
      requires Valid()
      modifies this`stores, this`deadlines, this`draws
      ensures Valid() && victims <= old(Now()).Keys && Now() == old(Now()) - victims
      ensures |victims| <= 1024 && Stopped(victims, target, now)
      ensures |victims| == 1024 || NothingFound(now) || (|victims| > 0 && |victims| % 64 == 0 && |Now()| <= target)
    {
      hide View, Sound, LiveAt, NothingFound, FirstVictim, Gone, Stopped;
      NobodyGone(Now());
      victims := {};
      ghost var m := Now();
      var evicted := 0;
      while evicted < MAX_EVICTIONS
        invariant 0 <= evicted <= MAX_EVICTIONS && |victims| == evicted
        invariant Valid() && Gone(m, Now(), victims)
      {
        ghost var room := Now();
        var victim := EvictOne(now);
        if victim.None? {
          break;
        }
        OneMoreVictim(m, room, Now(), victims, victim.value);
        victims := victims + {victim.value};
        evicted := evicted + 1;
        if evicted % 64 == 0 {
          var size := Size();
          if size <= target {
            break;
          }
        }
      }
      GoneMeans(m, Now(), victims);
      Reason(victims, target, now);
    }

    lemma Reason(victims: set<Bytes>, target: nat, now: int)
      requires Valid()
      requires |victims| == 1024 || NothingFound(now) || (|victims| > 0 && |victims| % 64 == 0 && |Now()| <= target)
      ensures Stopped(victims, target, now)
    {
    }

    /** Why evicting stops: enough for one call, nothing found, or few enough keys at a check. */
    ghost predicate Stopped(victims: set<Bytes>, target: nat, now: int)
      requires Valid()
      reads this
    {
      |victims| == 1024 || NothingFound(now) || (|victims| > 0 && |victims| % 64 == 0 && |Now()| <= target)
    }

    /** Makes room when nine tenths full; otherwise nothing leaves. */
    method EvictIfNeeded(now: int) returns (ghost victims: set<Bytes>)
      requires Valid()
      modifies this`stores, this`deadlines, this`draws
      ensures Valid() && Now() == old(Now()) - victims
      ensures MayLeave(old(Now()), maxEntries, victims) && Fewer(old(Now()), Now())
      ensures 10 * |old(Now())| + 10 <= 9 * maxEntries ==> victims == {}
      ensures 10 * |old(Now())| >= 9 * maxEntries ==>
                || |victims| == 1024 || NothingFound(now)
                || (|victims| > 0 && |victims| % 64 == 0 && |Now()| <= maxEntries * 6 / 10)
      ensures forall t :: Live(t) == old(Live(t)) - victims
    {
      hide View, Sound, LiveAt, Threshold, NothingFound;
      victims := {};
      var size := Size();
      if size >= Threshold(maxEntries) {
        victims := EvictDownTo(maxEntries * 6 / 10, now);
      }
      assert victims == {} ==> Now() == old(Now()) - victims;
      forall t
        ensures Live(t) == old(Live(t)) - victims
      {
        LiveDropAll(old(Now()), t, victims);
      }
    }

    // ---- Commands ----

    /** Looks a key up; a dead one is removed and counts as absent. */
    method Refresh(k: Bytes, now: int) returns (present: bool)
      requires Valid()
      modifies this`stores, this`deadlines
      ensures Valid() && Live(now) == old(Live(now)) && Fewer(old(Now()), Now())
      ensures |stores| == SHARDS && (present <==> k in Live(now)) && (present <==> k in stores[Shard(hash, k)])
      ensures present ==> Live(now)[k] == Entry(stores[Shard(hash, k)][k].value, DeadlineOf(deadlines, k))
      ensures k in deadlines ==> present && 0 < deadlines[k] <= INT64_MAX && now < deadlines[k]
    {
      hide Sound, View, LiveAt, Fewer;
      Reads(k, now);
      SameFew(Now());
      present := k in stores[Shard(hash, k)];
      if present && Expired(k, now) {
        WithoutIt(Live(now), k);
        var erased := Erase(k);
        present := false;
        Reads(k, now);
      }
    }

    /** How every write begins: make room, then look the key up. */
    method MakeRoom(k: Bytes, now: int) returns (present: bool, ghost victims: set<Bytes>)
      requires Valid()
      modifies this`stores, this`deadlines, this`draws
      ensures Valid() && Live(now) == old(Live(now)) - victims
      ensures MayLeave(old(Now()), maxEntries, victims) && Fewer(old(Now()), Now())
      ensures |stores| == SHARDS && (present <==> k in Live(now)) && (present <==> k in stores[Shard(hash, k)])
      ensures present ==> Live(now)[k] == Entry(stores[Shard(hash, k)][k].value, DeadlineOf(deadlines, k))
      ensures k in deadlines ==> present && 0 < deadlines[k] <= INT64_MAX && now < deadlines[k]
    {
      hide Sound, View, LiveAt, MayLeave, NothingFound, Fewer, Stopped;
      victims := EvictIfNeeded(now);
      ghost var room := Now();
      present := Refresh(k, now);
      FewerStill(old(Now()), room, Now());
    }

    /** `get`: a dead key is removed on the way. */
    method Get(k: Bytes, now: int) returns (r: Option<Object>)
      requires Valid()
      modifies this`stores, this`deadlines
      ensures Valid() && Live(now) == old(Live(now)) && Fewer(old(Now()), Now())
      ensures r == if k in Live(now) then Some(Live(now)[k].value) else None
      ensures r.Some? ==> |stores| == SHARDS && k in stores[Shard(hash, k)] && stores[Shard(hash, k)][k].accessed == now
    {
      hide Sound, View, LiveAt;
      var present := Refresh(k, now);
      if !present {
        return None;
      }
      r := Some(stores[Shard(hash, k)][k].value);
      Touch(k, now);
    }

    /** Records an access, which the timed map does not show. */
    method Touch(k: Bytes, now: int)
      requires Valid() && k in stores[Shard(hash, k)]
      modifies this`stores
      ensures Valid() && Now() == old(Now())
      ensures |stores| == SHARDS && k in stores[Shard(hash, k)] && stores[Shard(hash, k)][k].accessed == now
    {
      var i := Shard(hash, k);
      var e := stores[i][k].(accessed := now);
      PutView(hash, stores, deadlines, k, e, deadlines);
      ViewMeans(hash, stores, deadlines, k);
      Anchor(k);
      hide View, Sound;
      stores := stores[i := stores[i][k := e]];
      assert Now() == old(Now())[k := old(Now())[k]];
    }

    lemma Anchor(k: Bytes)
      requires Valid()
      ensures k in deadlines ==> 0 < deadlines[k] <= INT64_MAX
    {
    }

    method Exist(k: Bytes, now: int) returns (b: bool)
      requires Valid()
      ensures b <==> k in Live(now)
    {
      Reads(k, now);
      b := k in stores[Shard(hash, k)] && !Expired(k, now);
    }

    method Set(k: Bytes, value: Object, now: int) returns (ghost victims: set<Bytes>)
      requires Valid() && k != []
      modifies this`stores, this`deadlines, this`draws
      ensures Valid() && Live(now) == After(old(Live(now)) - victims, now, Command.Set(k, value))
      ensures Live(now) == (old(Live(now)) - victims)[k := Entry(value, None)]
      ensures 10 * |old(Now())| + 10 <= 9 * maxEntries ==> victims == {}
      ensures MayLeave(old(Now()), maxEntries, victims) && NewOnly(old(Now()), Now(), k)
    {
      hide Sound, View, LiveAt, MayLeave, NothingFound, Fewer, NewOnly, Stopped;
      victims := EvictIfNeeded(now);
      NoneLeaves(old(Now()), maxEntries, victims);
      ghost var room := Now();
      Store(k, CacheEntry(value, now), None, now);
      Grown(old(Now()), room, Now(), k);
    }

    method SetWithExpire(k: Bytes, value: Object, ttl: int, now: int) returns (ghost victims: set<Bytes>)
      requires Valid() && k != [] && 0 <= now < INT64_MAX
      modifies this`stores, this`deadlines, this`draws
      ensures Valid() && Live(now) == After(old(Live(now)) - victims, now, Command.SetWithExpire(k, value, ttl))
      ensures Live(now) == (old(Live(now)) - victims)[k := Entry(value, if ttl <= 0 then None else Some(Soonest(now + ttl)))]
      ensures 10 * |old(Now())| + 10 <= 9 * maxEntries ==> victims == {}
      ensures MayLeave(old(Now()), maxEntries, victims) && NewOnly(old(Now()), Now(), k)
    {
      hide Sound, View, LiveAt, MayLeave, NothingFound, Fewer, NewOnly, Stopped, After;
      victims := EvictIfNeeded(now);
      NoneLeaves(old(Now()), maxEntries, victims);
      ghost var room := Now();
      WrittenWithTtl(Live(now), now, k, value, ttl);
      if ttl > 0 {
        DeadlineIsAhead(now, ttl);
        Store(k, CacheEntry(value, now), Some(if ttl > INT64_MAX - now then INT64_MAX else now + ttl), now);
      } else {
        Store(k, CacheEntry(value, now), None, now);
      }
      Grown(old(Now()), room, Now(), k);
    }

    method SetConditional(k: Bytes, value: Object, condition: Condition, ttl: int, keepTtl: bool, now: int)
      returns (applied: bool, previous: Option<Object>, ghost victims: set<Bytes>)
      requires Valid() && k != [] && 0 <= now < INT64_MAX
      modifies this`stores, this`deadlines, this`draws
      ensures var m, c := old(Live(now)) - victims, Command.SetConditional(k, value, condition, ttl, keepTtl);
              Valid() && Live(now) == After(m, now, c) && Stored(applied, previous) == ReplyOf(m, c)
      ensures var m := old(Live(now)) - victims;
              && (condition == OnlyIfAbsent ==> (applied <==> k !in m))
              && (condition == OnlyIfExists ==> (applied <==> k in m))
              && (condition == Always ==> applied)
              && previous == (if k in m then Some(m[k].value) else None)
              && (!applied ==> Live(now) == m)
              && (applied && keepTtl ==> Live(now) == m[k := Entry(value, if k in m then m[k].deadline else None)])
              && (applied && !keepTtl ==>
                    Live(now) == m[k := Entry(value, if ttl <= 0 then None else Some(Soonest(now + ttl)))])
      ensures 10 * |old(Now())| + 10 <= 9 * maxEntries ==> victims == {}
      ensures MayLeave(old(Now()), maxEntries, victims) && NewOnly(old(Now()), Now(), k)
    {
      hide Sound, View, LiveAt, MayLeave, NewOnly, After, ReplyOf, Soonest;
      applied, previous, victims := SetIf(k, value, condition, ttl, keepTtl, now);
      NoneLeaves(old(Now()), maxEntries, victims);
      AppliesAs(old(Live(now)) - victims, now, k, value, condition, ttl, keepTtl);
    }

    /** `set_conditional` as it runs, against the timed map. */
    method SetIf(k: Bytes, value: Object, condition: Condition, ttl: int, keepTtl: bool, now: int)
      returns (applied: bool, previous: Option<Object>, ghost victims: set<Bytes>)
      requires Valid() && k != [] && 0 <= now < INT64_MAX
      modifies this`stores, this`deadlines, this`draws
      ensures var m, c := old(Live(now)) - victims, Command.SetConditional(k, value, condition, ttl, keepTtl);
              Valid() && Live(now) == After(m, now, c) && Stored(applied, previous) == ReplyOf(m, c)
      ensures MayLeave(old(Now()), maxEntries, victims) && NewOnly(old(Now()), Now(), k)
    {
      hide Sound, View, LiveAt, MayLeave, Fewer, NewOnly;
      var present;
      present, victims := MakeRoom(k, now);
      ghost var room := Now();
      SameFew(room);
      previous := if present then Some(stores[Shard(hash, k)][k].value) else None;
      applied := !((condition == OnlyIfAbsent && present) || (condition == OnlyIfExists && !present));
      if applied {
        if keepTtl {
          Store(k, CacheEntry(value, now), DeadlineOf(deadlines, k), now);
        } else if ttl > 0 {
          DeadlineIsAhead(now, ttl);
          Store(k, CacheEntry(value, now), Some(if ttl > INT64_MAX - now then INT64_MAX else now + ttl), now);
        } else {
          Store(k, CacheEntry(value, now), None, now);
        }
      }
      Grown(old(Now()), room, Now(), k);
    }

    method Mutate(k: Bytes, want: Bytes, edit: Object -> Edit, promote: bool, now: int)
      returns (ok: bool, ghost victims: set<Bytes>)
      requires Valid() && k != []
      modifies this`stores, this`deadlines, this`draws
      ensures var m, c := old(Live(now)) - victims, Command.Mutate(k, want, edit, promote);
              Valid() && Live(now) == After(m, now, c) && Flag(ok) == ReplyOf(m, c)
      ensures var m := old(Live(now)) - victims;
              && (ok <==> (k in m ==> Tag(m[k].value) == want || (m[k].value.Text? && promote)))
              && (!ok ==> Live(now) == m)
              && (ok ==>
                    match edit(if k in m then m[k].value else Text([]))
                    case Noop => Live(now) == m
                    case Erase => Live(now) == m - {k}
                    case Write(o) => Live(now) == m[k := Entry(o, if k in m then m[k].deadline else None)])
      ensures 10 * |old(Now())| + 10 <= 9 * maxEntries ==> victims == {}
      ensures MayLeave(old(Now()), maxEntries, victims) && NewOnly(old(Now()), Now(), k)
    {
      hide Sound, View, LiveAt, MayLeave, Fewer, NewOnly, After, ReplyOf, Tag;
      var existed;
      existed, victims := MakeRoom(k, now);
      MutatesAs(Live(now), now, k, want, edit, promote);
      NoneLeaves(old(Now()), maxEntries, victims);
      ghost var room := Now();
      SameFew(room);
      var i := Shard(hash, k);
      ok := !(existed && Tag(stores[i][k].value) != want && !(stores[i][k].value.Text? && promote));
      if ok {
        match edit(if existed then stores[i][k].value else Text([]))
        case Noop =>
        case Erase =>
          if existed {
            var erased := Erase(k);
          } else {
            assert Live(now) - {k} == Live(now);
          }
        case Write(o) =>
          Store(k, CacheEntry(o, now), DeadlineOf(deadlines, k), now);
      }
      Grown(old(Now()), room, Now(), k);
    }

    method IncrBy(k: Bytes, delta: int, now: int) returns (r: Option<int>, ghost victims: set<Bytes>)
      requires Valid() && k != [] && INT64_MIN <= delta <= INT64_MAX
      modifies this`stores, this`deadlines, this`draws
      ensures var m, c := old(Live(now)) - victims, Command.IncrBy(k, delta);
              && Valid() && Live(now) == After(m, now, c)
              && ReplyOf(m, c) == if r.Some? then Integer(r.value) else Nothing
      ensures var m := old(Live(now)) - victims;
              && (k !in m ==> r == Some(delta))
              && (k in m && !m[k].value.Text? ==> r == None)
              && (k in m && m[k].value.Text? ==>
                    var n := ParseStrict(m[k].value.text);
                    && (r.Some? <==> n.Some? && -9223372036854775808 <= n.value + delta <= 9223372036854775807)
                    && (r.Some? ==> r.value == n.value + delta))
              && (r.None? ==> Live(now) == m)
              && (r.Some? ==> Live(now) == m[k := Entry(Text(Shown(r.value)), if k in m then m[k].deadline else None)])
      ensures 10 * |old(Now())| + 10 <= 9 * maxEntries ==> victims == {}
      ensures MayLeave(old(Now()), maxEntries, victims) && NewOnly(old(Now()), Now(), k)
    {
      hide Sound, View, LiveAt, MayLeave, NewOnly, After, ReplyOf, ParseStrict, Shown, CounterOf;
      r, victims := Increment(k, delta, now);
      NoneLeaves(old(Now()), maxEntries, victims);
      CountsTo(old(Live(now)) - victims, now, k, delta, Live(now), r);
    }

    /** `incrby` as it runs, against the timed map. */
    method Increment(k: Bytes, delta: int, now: int) returns (r: Option<int>, ghost victims: set<Bytes>)
      requires Valid() && k != [] && INT64_MIN <= delta <= INT64_MAX
      modifies this`stores, this`deadlines, this`draws
      ensures var m, c := old(Live(now)) - victims, Command.IncrBy(k, delta);
              && Valid() && Live(now) == After(m, now, c)
              && ReplyOf(m, c) == if r.Some? then Integer(r.value) else Nothing
      ensures MayLeave(old(Now()), maxEntries, victims) && NewOnly(old(Now()), Now(), k)
    {
      hide Sound, View, LiveAt, MayLeave, Fewer, NewOnly, ParseStrict, Shown, After, ReplyOf;
      var present;
      present, victims := MakeRoom(k, now);
      CountsAs(Live(now), now, k, delta);
      ghost var room := Now();
      SameFew(room);
      Grown(old(Now()), room, room, k);
      var counter := ReadCounter(k, present, now);
      if counter.None? {
        return None, victims;
      }
      var val := counter.value;
      if (delta > 0 && val > INT64_MAX - delta) || (delta < 0 && val < INT64_MIN - delta) {
        return None, victims;
      }
      val := val + delta;
      Store(k, CacheEntry(Text(Shown(val)), now), DeadlineOf(deadlines, k), now);
      Grown(old(Now()), room, Now(), k);
      r := Some(val);
    }

    /** The number a key holds, 0 when absent, or none. */
    method ReadCounter(k: Bytes, present: bool, now: int) returns (v: Option<int>)
      requires Valid() && (present <==> k in Live(now))
      ensures v == CounterOf(Live(now), k)
      ensures v.Some? ==> INT64_MIN <= v.value <= INT64_MAX
    {
      hide Sound, View, LiveAt, ParseStrict;
      Reads(k, now);
      if !present {
        return Some(0);
      }
      var value := stores[Shard(hash, k)][k].value;
      if !value.Text? {
        return None;
      }
      ParsedInRange(value.text);
      v := ParseStrict(value.text);
    }

    lemma ParsedInRange(s: Bytes)
      ensures ParseStrict(s).Some? ==> INT64_MIN <= ParseStrict(s).value <= INT64_MAX
    {
    }

    /** The reply is that of the timed map unless the key is dead and not yet removed: then it is counted. */
    method Del(k: Bytes, now: int) returns (erased: bool)
      requires Valid()
      modifies this`stores, this`deadlines
      ensures Valid() && Live(now) == After(old(Live(now)), now, Command.Del(k))
      ensures (erased <==> k in old(Now())) && Now() == old(Now()) - {k}
      ensures Flag(erased) == ReplyOf(old(Live(now)), Command.Del(k)) <==> !(k in old(Now()) && Dead(old(Now())[k], now))
    {
      erased := Erase(k);
    }

    /** The EXPIRE command. */
    method Expire(k: Bytes, seconds: int, now: int) returns (done: bool)
      requires Valid() && 0 <= now < INT64_MAX
      modifies this`stores, this`deadlines
      ensures var m, c := old(Live(now)), Command.Expire(k, seconds);
              Valid() && Live(now) == After(m, now, c) && Flag(done) == ReplyOf(m, c)
      ensures var m := old(Live(now));
              && (done <==> k in m)
              && (!done || seconds <= 0 ==> Live(now) == m - {k})
              && (done && seconds > 0 ==>
                    Live(now) == m[k := Entry(m[k].value, Some(Soonest(now + Soonest(1000 * seconds))))])
      ensures Fewer(old(Now()), Now())
    {
      Reads(k, now);
      ExpiresAs(Live(now), now, k, seconds);
      hide Sound, View, LiveAt, After, ReplyOf, SecondsToMs, SaturatingAdd, Soonest;
      done := Exist(k, now);
      if !done {
        return;
      }
      if seconds <= 0 {
        var erased := Erase(k);
        return;
      }
      var ttl := SecondsToMs(seconds);
      DeadlineIsAhead(now, ttl);
      Store(k, stores[Shard(hash, k)][k], Some(SaturatingAdd(now, ttl)), now);
    }

    /** The PERSIST command. */
    method Persist(k: Bytes, now: int) returns (done: bool)
      requires Valid()
      modifies this`stores, this`deadlines
      ensures var m, c := old(Live(now)), Command.Persist(k);
              Valid() && Live(now) == After(m, now, c) && Flag(done) == ReplyOf(m, c)
      ensures var m := old(Live(now));
              && (done <==> k in m && m[k].deadline.Some?)
              && Live(now) == if k in m then m[k := Entry(m[k].value, None)] else m
      ensures Fewer(old(Now()), Now())
    {
      Reads(k, now);
      hide Sound, View, LiveAt;
      var there := Exist(k, now);
      if !there {
        return false;
      }
      done := k in deadlines;
      if done {
        Store(k, stores[Shard(hash, k)][k], None, now);
      } else {
        assert Live(now) == Live(now)[k := Live(now)[k]];
      }
    }

    method Clear()
      requires Valid()
      modifies this`stores, this`deadlines
      ensures Valid() && Now() == map[]
    {
      var i := 0;
      while i < SHARDS
        invariant 0 <= i <= SHARDS == |stores| && forall j | 0 <= j < i :: stores[j] == map[]
      {
        stores := stores[i := map[]];
        i := i + 1;
      }
      deadlines := map[];
      NoKeys(stores, SHARDS);
    }

    lemma {:induction false} NoKeys(stores: Stores, n: nat)
      requires n <= |stores| && forall j | 0 <= j < n :: stores[j] == map[]
      ensures KeysBelow(stores, n) == {}
      decreases n
    {
      if n > 0 {
        NoKeys(stores, n - 1);
      }
    }
  }

  lemma LiveDropAll(m: TimedMap, now: int, victims: set<Bytes>)
    ensures LiveAt(m - victims, now) == LiveAt(m, now) - victims
  {
  }

  /** Nine tenths, rounded down. */
  function Threshold(maxEntries: nat): (t: nat)
    ensures 10 * t <= 9 * maxEntries < 10 * t + 10
  {
    maxEntries * 9 / 10
  }

  /** `after` is `m` without the victims, all of them its keys. */
  ghost predicate Gone(m: TimedMap, after: TimedMap, victims: set<Bytes>) {
    victims <= m.Keys && after == m - victims
  }

  lemma NobodyGone(m: TimedMap)
    ensures Gone(m, m, {})
  {
  }

  lemma GoneMeans(m: TimedMap, after: TimedMap, victims: set<Bytes>)
    requires Gone(m, after, victims)
    ensures victims <= m.Keys && after == m - victims
  {
  }

  lemma OneMoreVictim(m: TimedMap, room: TimedMap, after: TimedMap, victims: set<Bytes>, v: Bytes)
    requires Gone(m, room, victims) && v in room && after == room - {v}
    ensures v !in victims && Gone(m, after, victims + {v}) && |victims + {v}| == |victims| + 1
  {
    assert m - victims - {v} == m - (victims + {v});
  }
}
