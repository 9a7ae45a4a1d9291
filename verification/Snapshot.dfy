/** Reading the whole store, shard by shard, for a snapshot file or a full sync. */
module Snapshots {
  import opened Wrappers
  import opened Bytes
  import opened Objects
  import opened TimedMaps
  import opened Storages
  import opened Rdb
  import opened RdbFiles

  /** The part of `m` with keys in `seen`. */
  ghost function Part(m: TimedMap, seen: set<Bytes>): TimedMap {
    map k | k in m && k in seen :: m[k]
  }

  ghost predicate Lists(kvs: seq<Kv>, m: TimedMap) {
    KvMap(kvs) == m && |kvs| == |m|
  }

  /** A key, and a deadline or -1. */
  predicate Plain(kv: Kv) {
    kv.key != [] && (kv.expire == -1 || 0 < kv.expire <= INT64_MAX)
  }

  lemma PartWithout(m: TimedMap, seen: set<Bytes>, k: Bytes)
    requires k !in m
    ensures Part(m, seen + {k}) == Part(m, seen)
  {
  }

  lemma OneMoreListed(kvs: seq<Kv>, m: TimedMap, seen: set<Bytes>, kv: Kv)
    requires Lists(kvs, Part(m, seen)) && kv.key in m && kv.key !in seen && EntryOf(kv) == m[kv.key]
    ensures Lists(kvs + [kv], Part(m, seen + {kv.key}))
  {
    assert (kvs + [kv])[..|kvs|] == kvs;
    assert Part(m, seen + {kv.key}) == Part(m, seen)[kv.key := m[kv.key]];
    assert Part(m, seen)[kv.key := m[kv.key]].Keys == Part(m, seen).Keys + {kv.key};
    assert |Part(m, seen + {kv.key})| == |Part(m, seen + {kv.key}).Keys| && |Part(m, seen)| == |Part(m, seen).Keys|;
  }

  /** The keys of the first `n` shards, and of shard `n` those no longer in `rest`. */
  ghost function Seen(stores: Stores, n: nat, rest: set<Bytes>): set<Bytes>
    requires n < |stores|
  {
    KeysBelow(stores, n) + (stores[n].Keys - rest)
  }

  lemma NotSeenYet(hash: Bytes -> nat, stores: Stores, n: nat, rest: set<Bytes>, k: Bytes)
    requires Sharded(hash, stores) && n < SHARDS && k in rest && rest <= stores[n].Keys
    ensures k !in Seen(stores, n, rest) && Seen(stores, n, rest - {k}) == Seen(stores, n, rest) + {k}
  {
    KeyFound(hash, stores, n, k);
  }

  lemma WholePart(db: GlobalStorage, now: int)
    requires db.Valid()
    ensures |db.stores| == SHARDS && Part(db.Live(now), KeysBelow(db.stores, SHARDS)) == db.Live(now)
  {
    forall k | k in db.Live(now)
      ensures k in KeysBelow(db.stores, SHARDS)
    {
      KeyFound(db.hash, db.stores, SHARDS, k);
      ViewMeans(db.hash, db.stores, db.deadlines, k);
    }
  }

  /** `get_all_objects_with_ttl`: every live key once, with its value and absolute deadline, in some order. */
  method AllObjectsWithTtl(db: GlobalStorage, now: int) returns (kvs: seq<Kv>)
    requires db.Valid()
    ensures ListsMap(kvs, db.Live(now))
    ensures forall i | 0 <= i < |kvs| :: kvs[i].expire == -1 || kvs[i].expire > 0
  {
    kvs := [];
    db.ShardCount();
    assert Part(db.Live(now), KeysBelow(db.stores, 0)) == map[];
    var i := 0;
    while i < SHARDS
      invariant 0 <= i <= SHARDS && Lists(kvs, Part(db.Live(now), KeysBelow(db.stores, i)))
      invariant forall j | 0 <= j < |kvs| :: Plain(kvs[j])
    {
      hide KeysBelow, Lists, Part, LiveAt, View;
      kvs := ShardObjects(db, i, kvs, now);
      i := i + 1;
    }
    WholePart(db, now);
  }

  method ShardObjects(db: GlobalStorage, i: nat, before: seq<Kv>, now: int) returns (kvs: seq<Kv>)
    requires db.Valid() && i < SHARDS && |db.stores| == SHARDS && Lists(before, Part(db.Live(now), KeysBelow(db.stores, i)))
    requires forall j | 0 <= j < |before| :: Plain(before[j])
    ensures Lists(kvs, Part(db.Live(now), KeysBelow(db.stores, i + 1)))
    ensures forall j | 0 <= j < |kvs| :: Plain(kvs[j])
  {
    hide Lists, Part, Seen, LiveAt, View, KeysBelow, Sound;
    var store := db.stores[i];
    var rest := store.Keys;
    kvs := before;
    SeenBounds(db.stores, i);
    while rest != {}
      invariant rest <= store.Keys && Lists(kvs, Part(db.Live(now), Seen(db.stores, i, rest)))
      invariant forall j | 0 <= j < |kvs| :: Plain(kvs[j])
      decreases |rest|
    {
      var k :| k in rest;
      OneKey(db, i, rest, k, now);
      var expire := if k in db.deadlines then db.deadlines[k] else -1;
      if expire > 0 && now >= expire {
        PartWithout(db.Live(now), Seen(db.stores, i, rest), k);
      } else {
        OneMoreListed(kvs, db.Live(now), Seen(db.stores, i, rest), Kv(k, store[k].value, expire));
        kvs := kvs + [Kv(k, store[k].value, expire)];
      }
      rest := rest - {k};
    }
  }

  lemma SeenBounds(stores: Stores, i: nat)
    requires i < |stores|
    ensures Seen(stores, i, stores[i].Keys) == KeysBelow(stores, i)
    ensures Seen(stores, i, {}) == KeysBelow(stores, i + 1)
  {
  }

  /** What the two structures say about the next key. */
  lemma OneKey(db: GlobalStorage, i: nat, rest: set<Bytes>, k: Bytes, now: int)
    requires db.Valid() && i < SHARDS && |db.stores| == SHARDS && k in rest && rest <= db.stores[i].Keys
    ensures k !in Seen(db.stores, i, rest) && Seen(db.stores, i, rest - {k}) == Seen(db.stores, i, rest) + {k}
    ensures var expire := if k in db.deadlines then db.deadlines[k] else -1;
            && k != [] && (expire == -1 || 0 < expire <= INT64_MAX)
            && (k in db.Live(now) <==> !(expire > 0 && now >= expire))
            && (k in db.Live(now) ==> db.Live(now)[k] == EntryOf(Kv(k, db.stores[i][k].value, expire)))
  {
    NotSeenYet(db.hash, db.stores, i, rest, k);
    InShard(db, i, k);
    db.Reads(k, now);
  }

  lemma InShard(db: GlobalStorage, i: nat, k: Bytes)
    requires db.Valid() && i < SHARDS && k in db.stores[i]
    ensures Shard(db.hash, k) == i
  {
  }

  // ---- From a store through a file into another store ----

  lemma {:induction false} ListedEntry(kvs: seq<Kv>, m: TimedMap, i: nat)
    requires ListsMap(kvs, m) && i < |kvs|
    ensures kvs[i].key in m && m[kvs[i].key] == EntryOf(kvs[i])
    decreases |kvs|
  {
    LastIsNew(kvs, m);
    if i < |kvs| - 1 {
      ListedEntry(kvs[..|kvs| - 1], KvMap(kvs[..|kvs| - 1]), i);
    }
  }

  /** The record of a key. */
  function KvOf(k: Bytes, e: Entry): Kv {
    Kv(k, e.value, if e.deadline.Some? then e.deadline.value else -1)
  }

  /** Every key, value and deadline of `m` fits the file; `order` is how the containers iterate. */
  ghost predicate Writable(d: Doubles, m: TimedMap, order: Object -> seq<Bytes>) {
    |m| < U32 && forall k | k in m :: Savable(d, KvOf(k, m[k]), order(m[k].value))
  }

  lemma AllWritable(d: Doubles, m: TimedMap, order: Object -> seq<Bytes>, kvs: seq<Kv>, flats: seq<seq<Bytes>>)
    requires Writable(d, m, order) && ListsMap(kvs, m)
    requires forall i | 0 <= i < |kvs| :: kvs[i].expire == -1 || kvs[i].expire > 0
    requires |flats| == |kvs| && forall i | 0 <= i < |kvs| :: flats[i] == order(kvs[i].value)
    ensures AllSavable(d, kvs, flats)
  {
    hide Savable, KvMap;
    forall i | 0 <= i < |kvs|
      ensures Savable(d, kvs[i], flats[i])
    {
      ListedEntry(kvs, m, i);
      assert KvOf(kvs[i].key, m[kvs[i].key]) == kvs[i];
    }
  }

  /**
   * A store saved and loaded at any later time into an empty one that is large
   * enough comes back key by key with the same values and absolute deadlines,
   * without what has expired meanwhile.
   */
  method SaveAndLoad(db: GlobalStorage, other: GlobalStorage, crc: Bytes -> nat, d: Doubles,
                     order: Object -> seq<Bytes>, saved: int, now: int)
    returns (ok: bool)
    requires db.Valid() && other.Valid() && other != db && other.Now() == map[] && 0 <= now < INT64_MAX
    requires forall x: Bytes | |x| == 8 :: d.parse(x).Some?
    modifies other
    ensures other.Valid()
    ensures Writable(d, db.Live(saved), order) ==> ok
    ensures Writable(d, db.Live(saved), order) && 10 * |db.Live(saved)| <= 9 * other.maxEntries ==>
              other.Live(now) == LiveAt(db.Live(saved), now)
  {
    NothingLives(now);
    hide Sound, View, LiveAt, Writable, Load, File, KvMap, LoadedOnto;
    var kvs := AllObjectsWithTtl(db, saved);
    var flats := seq(|kvs|, i requires 0 <= i < |kvs| => order(kvs[i].value));
    var file := SaveFile(crc, kvs, flats);
    ghost var m := db.Live(saved);
    if Writable(d, m, order) {
      ComesBack(crc, d, m, order, kvs, flats, now);
    }
    ghost var loaded, victims;
    ok, loaded, victims := LoadFile(file, crc, d, other, now);
  }

  lemma ComesBack(crc: Bytes -> nat, d: Doubles, m: TimedMap, order: Object -> seq<Bytes>,
                  kvs: seq<Kv>, flats: seq<seq<Bytes>>, now: int)
    requires Writable(d, m, order) && ListsMap(kvs, m)
    requires forall i | 0 <= i < |kvs| :: kvs[i].expire == -1 || kvs[i].expire > 0
    requires |flats| == |kvs| && (forall i | 0 <= i < |kvs| :: flats[i] == order(kvs[i].value)) && 0 <= now
    ensures Load(crc, d, File(crc, kvs, flats)) == Some(kvs) && LoadedMap(kvs, now) == LiveAt(m, now)
  {
    hide Load, File, LoadedMap, LiveAt, KvMap, Savable;
    AllWritable(d, m, order, kvs, flats);
    SaveThenLoad(crc, d, m, kvs, flats, now);
  }
}
