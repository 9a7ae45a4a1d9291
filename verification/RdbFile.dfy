/** Loading a snapshot: a cursor moved over the file by read helpers in counted loops. */
module RdbFiles {
  import opened Wrappers
  import opened Bytes
  import opened Objects
  import opened CacheObjects
  import opened TimedMaps
  import opened Storages
  import opened Rdb

  /** A read that returned `r` and left the cursor at `pos` did what `spec` says. */
  ghost predicate Did<T>(r: Option<T>, pos: nat, spec: Option<Got<T>>) {
    (r.None? <==> spec.None?) && (r.Some? ==> spec == Some(Got(r.value, pos)))
  }

  /** `before` and then what `rest` reads. */
  ghost function Joined<T>(before: seq<T>, rest: Option<Got<seq<T>>>): Option<Got<seq<T>>> {
    if rest.None? then None else Some(Got(before + rest.value.v, rest.value.next))
  }

  lemma JoinedNothing<T>(rest: Option<Got<seq<T>>>)
    ensures Joined([], rest) == rest
  {
    assert rest.Some? ==> [] + rest.value.v == rest.value.v;
  }

  lemma OneItem(s: Bytes, body: nat, pos: nat, n: nat, ranked: bool, odd: bool, before: seq<Bytes>)
    requires n > 0
    ensures ReadItem(s, body, pos, ranked && odd).None? ==> Joined(before, ReadItems(s, body, pos, n, ranked, odd)) == None
    ensures ReadItem(s, body, pos, ranked && odd).Some? ==>
              var first := ReadItem(s, body, pos, ranked && odd).value;
              Joined(before, ReadItems(s, body, pos, n, ranked, odd)) ==
              Joined(before + [first.v], ReadItems(s, body, first.next, n - 1, ranked, !odd))
  {
    hide ReadItem;
    if ReadItem(s, body, pos, ranked && odd).Some? {
      var first := ReadItem(s, body, pos, ranked && odd).value;
      var more := ReadItems(s, body, first.next, n - 1, ranked, !odd);
      assert more.Some? ==> before + ([first.v] + more.value.v) == before + [first.v] + more.value.v;
    }
  }

  lemma NoItems(s: Bytes, body: nat, pos: nat, ranked: bool, odd: bool, before: seq<Bytes>)
    ensures Joined(before, ReadItems(s, body, pos, 0, ranked, odd)) == Some(Got(before, pos))
  {
    assert before + [] == before;
  }

  class RdbReader {
    const file: Bytes
    const body: nat
    var pos: nat

    constructor (file: Bytes, body: nat, pos: nat)
      ensures this.file == file && this.body == body && this.pos == pos
    {
      this.file, this.body, this.pos := file, body, pos;
    }

    method ReadUint(width: nat) returns (r: Option<nat>)
      modifies this
      ensures Did(r, pos, ReadInt(file, old(pos), width))
    {
      if pos + width > |file| {
        return None;
      }
      r := Some(FromBe(file[pos..pos + width]));
      pos := pos + width;
    }

    method ReadText() returns (r: Option<Bytes>)
      modifies this
      ensures Did(r, pos, ReadString(file, body, old(pos)))
    {
      var len := ReadUint(4);
      if len.None? {
        return None;
      }
      if len.value == 0 {
        return Some([]);
      }
      if pos + len.value > body || pos + len.value > |file| {
        return None;
      }
      r := Some(file[pos..pos + len.value]);
      pos := pos + len.value;
    }

    method ReadList(obj: CacheObject, n: nat) returns (ok: bool)
      requires obj.Clean() && obj.Value() == Text([])
      modifies this, obj
      ensures obj.Clean()
      ensures ok <==> ReadItems(file, body, old(pos), n, false, false).Some?
      ensures ok ==> var run := ReadItems(file, body, old(pos), n, false, false).value;
                     pos == run.next && obj.Value() == if run.v == [] then Text([]) else List(run.v)
    {
      hide ReadItems, ReadString, Joined;
      ghost var spec := ReadItems(file, body, pos, n, false, false);
      ghost var flat: seq<Bytes>, odd := [], false;
      JoinedNothing(spec);
      var i: nat := 0;
      while i < n
        invariant i <= n && obj.Clean() && |flat| == i
        invariant obj.Value() == if flat == [] then Text([]) else List(flat)
        invariant spec == Joined(flat, ReadItems(file, body, pos, n - i, false, odd))
      {
        OneItem(file, body, pos, n - i, false, odd, flat);
        var item := ReadText();
        if item.None? {
          return false;
        }
        var pushed := obj.ListPush(item.value, false);
        flat, odd, i := flat + [item.value], !odd, i + 1;
      }
      NoItems(file, body, pos, false, odd, flat);
      return true;
    }

    method ReadSet(obj: CacheObject, n: nat) returns (ok: bool)
      requires obj.Clean() && obj.Value() == Text([])
      modifies this, obj
      ensures obj.Clean()
      ensures ok <==> ReadItems(file, body, old(pos), n, false, false).Some?
      ensures ok ==> var run := ReadItems(file, body, old(pos), n, false, false).value;
                     pos == run.next && obj.Value() == if run.v == [] then Text([]) else Members(MembersOf(run.v))
    {
      hide ReadItems, ReadString, Joined;
      ghost var spec := ReadItems(file, body, pos, n, false, false);
      ghost var flat: seq<Bytes>, odd := [], false;
      JoinedNothing(spec);
      var i: nat := 0;
      while i < n
        invariant i <= n && obj.Clean() && |flat| == i
        invariant obj.Value() == if flat == [] then Text([]) else Members(MembersOf(flat))
        invariant spec == Joined(flat, ReadItems(file, body, pos, n - i, false, odd))
      {
        OneItem(file, body, pos, n - i, false, odd, flat);
        var item := ReadText();
        if item.None? {
          return false;
        }
        assert MembersOf(flat + [item.value]) == MembersOf(flat) + {item.value};
        var inserted := obj.SetAdd(item.value);
        flat, odd, i := flat + [item.value], !odd, i + 1;
      }
      NoItems(file, body, pos, false, odd, flat);
      return true;
    }

    method ReadHash(obj: CacheObject, n: nat) returns (ok: bool)
      requires obj.Clean() && obj.Value() == Text([])
      modifies this, obj
      ensures obj.Clean()
      ensures ok <==> ReadItems(file, body, old(pos), 2 * n, false, false).Some?
      ensures ok ==> var run := ReadItems(file, body, old(pos), 2 * n, false, false).value;
                     pos == run.next && obj.Value() == if run.v == [] then Text([]) else Hash(FieldsOf(run.v))
    {
      hide ReadItems, ReadString, FieldsOf, ScoresOf, Joined;
      ghost var spec := ReadItems(file, body, pos, 2 * n, false, false);
      ghost var flat: seq<Bytes> := [];
      JoinedNothing(spec);
      EmptyListing();
      var i: nat := 0;
      while i < n
        invariant i <= n && obj.Clean() && |flat| == 2 * i
        invariant obj.Value() == if flat == [] then Text([]) else Hash(FieldsOf(flat))
        invariant spec == Joined(flat, ReadItems(file, body, pos, 2 * (n - i), false, false))
      {
        OneItem(file, body, pos, 2 * (n - i), false, false, flat);
        var field := ReadText();
        if field.None? {
          return false;
        }
        OneItem(file, body, pos, 2 * (n - i) - 1, false, true, flat + [field.value]);
        var value := ReadText();
        if value.None? {
          return false;
        }
        OneMorePair(Doubles(_ => [], _ => None), flat, field.value, value.value);
        var done := obj.HashSet(field.value, value.value);
        flat, i := flat + [field.value] + [value.value], i + 1;
      }
      NoItems(file, body, pos, false, false, flat);
      return true;
    }

    /** Eight raw bytes. */
    method ReadBits() returns (r: Option<Bytes>)
      modifies this
      ensures Did(r, pos, ReadBytes(file, old(pos), 8))
    {
      if pos + 8 > |file| {
        return None;
      }
      r := Some(file[pos..pos + 8]);
      pos := pos + 8;
    }

    method ReadZSet(d: Doubles, obj: CacheObject, n: nat) returns (ok: bool)
      requires obj.Clean() && obj.Value() == Text([]) && forall x: Bytes | |x| == 8 :: d.parse(x).Some?
      modifies this, obj
      ensures obj.Clean()
      ensures ok <==> ReadItems(file, body, old(pos), 2 * n, true, false).Some?
      ensures ok ==> var run := ReadItems(file, body, old(pos), 2 * n, true, false).value;
                     && pos == run.next && ScoresOf(d, run.v).Some?
                     && obj.Value() == if run.v == [] then Text([]) else Ranked(ScoresOf(d, run.v).value)
    {
      hide ReadItems, ReadString, FieldsOf, ScoresOf, Joined, OneScoreEach, ScoreMap;
      ghost var spec := ReadItems(file, body, pos, 2 * n, true, false);
      ghost var flat: seq<Bytes> := [];
      JoinedNothing(spec);
      NoScores(d);
      var i: nat := 0;
      while i < n
        invariant i <= n && obj.Clean() && |flat| == 2 * i && ScoresOf(d, flat).Some?
        invariant obj.Value() == if flat == [] then Text([]) else Ranked(ScoresOf(d, flat).value)
        invariant spec == Joined(flat, ReadItems(file, body, pos, 2 * (n - i), true, false))
      {
        OneItem(file, body, pos, 2 * (n - i), true, false, flat);
        var member := ReadText();
        if member.None? {
          return false;
        }
        OneItem(file, body, pos, 2 * (n - i) - 1, true, true, flat + [member.value]);
        var bits := ReadBits();
        if bits.None? {
          return false;
        }
        OneMorePair(d, flat, member.value, bits.value);
        var changed := obj.ZSetAdd(member.value, d.parse(bits.value).value);
        flat, i := flat + [member.value] + [bits.value], i + 1;
      }
      NoItems(file, body, pos, true, false, flat);
      return true;
    }

    /** The value behind a type byte, read into a new object. */
    method ReadObject(d: Doubles, obj: CacheObject, t: Byte) returns (ok: bool)
      requires obj.Clean() && obj.Value() == Text([]) && forall x: Bytes | |x| == 8 :: d.parse(x).Some?
      modifies this, obj
      ensures obj.Clean()
      ensures ok <==> ReadValue(d, file, body, old(pos), t).Some?
      ensures ok ==> ReadValue(d, file, body, old(pos), t) == Some(Got(obj.Value(), pos))
    {
      hide ReadItems, ReadString, ScoresOf, FieldsOf;
      if t == 0 {
        var text := ReadText();
        if text.None? {
          return false;
        }
        obj.kind, obj.text := StringKind, text.value;
        return true;
      }
      if t > 4 {
        return false;
      }
      var count := ReadUint(4);
      if count.None? {
        return false;
      }
      NoScores(d);
      if t == 1 {
        ok := ReadList(obj, count.value);
      } else if t == 2 {
        ok := ReadHash(obj, count.value);
      } else if t == 3 {
        ok := ReadSet(obj, count.value);
      } else {
        ok := ReadZSet(d, obj, count.value);
      }
    }

    /** `read_kv_pair`: looks at the marker byte and steps back if it is not one. */
    method ReadKvPair(d: Doubles) returns (r: Option<Kv>)
      requires forall x: Bytes | |x| == 8 :: d.parse(x).Some?
      modifies this
      ensures Did(r, pos, ReadKv(d, file, body, old(pos)))
    {
      hide ReadValue, ReadString, ReadInt;
      if pos >= |file| {
        return None;
      }
      var expire := -1;
      var marker := file[pos];
      pos := pos + 1;
      if marker == WITH_TTL {
        var at := ReadUint(8);
        if at.None? {
          return None;
        }
        expire := Signed(at.value);
      } else {
        pos := pos - 1;
      }
      var key := ReadText();
      if key.None? || pos >= |file| {
        return None;
      }
      var t := file[pos];
      pos := pos + 1;
      var obj := new CacheObject();
      var ok := ReadObject(d, obj, t);
      return if ok then Some(Kv(key.value, obj.Value(), expire)) else None;
    }

    /** One data base: each record is stored as soon as it is read. */
    method LoadRecords(d: Doubles, db: GlobalStorage, n: nat, now: int)
      returns (ok: bool, ghost kvs: seq<Kv>, ghost victims: set<Bytes>)
      requires db.Valid() && 0 <= now < INT64_MAX && forall x: Bytes | |x| == 8 :: d.parse(x).Some?
      modifies this, db
      ensures db.Valid() && (ok <==> ReadKvs(d, file, body, old(pos), n).Some?)
      ensures ok ==> ReadKvs(d, file, body, old(pos), n) == Some(Got(kvs, pos))
      ensures kvs == GoodKvs(d, file, body, old(pos), n)
      ensures Loaded(old(db.Now()), old(db.Live(now)), db.Now(), db.Live(now), db.maxEntries, kvs, now, victims)
    {
      hide ReadKvs, ReadKv, GoodKvs, RecordsSoFar, Sound, View, LiveAt, LoadOne, Loaded, MayLeave;
      ghost var m, live, start := db.Now(), db.Live(now), pos;
      kvs, victims := [], {};
      NothingLoaded(m, live, db.maxEntries, now);
      NoRecordYet(d, file, body, pos, n);
      var i: nat := 0;
      while i < n
        invariant i <= n && db.Valid() && RecordsSoFar(d, file, body, start, n, kvs, pos, i)
        invariant Loaded(m, live, db.Now(), db.Live(now), db.maxEntries, kvs, now, victims)
      {
        OneRecordMore(d, file, body, start, n, kvs, pos, i);
        var kv := ReadKvPair(d);
        if kv.None? {
          return false, kvs, victims;
        }
        ghost var m', live' := db.Now(), db.Live(now);
        ghost var gone := StoreLoaded(db, kv.value, now);
        MoreLoaded(m, live, m', live', db.Now(), db.Live(now), db.maxEntries, kvs, [kv.value], now, victims, gone);
        kvs, victims, i := kvs + [kv.value], victims + gone, i + 1;
      }
      EveryRecord(d, file, body, start, n, kvs, pos);
      ok := true;
    }
  }

  /** `i` of the `n` records from `start` are read: `kvs`, and the cursor is at `pos`. */
  ghost predicate RecordsSoFar(d: Doubles, s: Bytes, body: nat, start: nat, n: nat, kvs: seq<Kv>, pos: nat, i: nat) {
    && i <= n
    && ReadKvs(d, s, body, start, n) == Joined(kvs, ReadKvs(d, s, body, pos, n - i))
    && GoodKvs(d, s, body, start, n) == kvs + GoodKvs(d, s, body, pos, n - i)
  }

  lemma NoRecordYet(d: Doubles, s: Bytes, body: nat, start: nat, n: nat)
    ensures RecordsSoFar(d, s, body, start, n, [], start, 0)
  {
    hide ReadKvs, GoodKvs;
    JoinedNothing(ReadKvs(d, s, body, start, n));
  }

  lemma OneRecordMore(d: Doubles, s: Bytes, body: nat, start: nat, n: nat, kvs: seq<Kv>, pos: nat, i: nat)
    requires i < n && RecordsSoFar(d, s, body, start, n, kvs, pos, i)
    ensures ReadKv(d, s, body, pos).None? ==>
              ReadKvs(d, s, body, start, n) == None && GoodKvs(d, s, body, start, n) == kvs
    ensures ReadKv(d, s, body, pos).Some? ==>
              var first := ReadKv(d, s, body, pos).value;
              RecordsSoFar(d, s, body, start, n, kvs + [first.v], first.next, i + 1)
  {
    hide ReadKv;
    if ReadKv(d, s, body, pos).Some? {
      var first := ReadKv(d, s, body, pos).value;
      var more := ReadKvs(d, s, body, first.next, n - i - 1);
      assert more.Some? ==> kvs + ([first.v] + more.value.v) == kvs + [first.v] + more.value.v;
      assert n - (i + 1) == n - i - 1;
    }
  }

  lemma EveryRecord(d: Doubles, s: Bytes, body: nat, start: nat, n: nat, kvs: seq<Kv>, pos: nat)
    requires RecordsSoFar(d, s, body, start, n, kvs, pos, n)
    ensures ReadKvs(d, s, body, start, n) == Some(Got(kvs, pos)) && GoodKvs(d, s, body, start, n) == kvs
  {
    assert n - n == 0;
    assert kvs + [] == kvs;
  }

  /**
   * Storing the records `kvs` on top of `before` gave `after`: at most as many
   * keys more, nothing has left if all fit, and then a client sees the records
   * loaded onto what it saw before.
   */
  ghost predicate Loaded(before: TimedMap, live: TimedMap, after: TimedMap, live': TimedMap, maxEntries: nat,
                         kvs: seq<Kv>, now: int, victims: set<Bytes>) {
    && |after| <= |before| + |kvs|
    && (10 * (|before| + |kvs|) <= 9 * maxEntries ==> victims == {})
    && (victims == {} ==> live' == LoadedOnto(live, kvs, now))
  }

  lemma NothingLoaded(m: TimedMap, live: TimedMap, maxEntries: nat, now: int)
    ensures Loaded(m, live, m, live, maxEntries, [], now, {})
  {
  }

  lemma OneLoadedRecord(before: TimedMap, live: TimedMap, after: TimedMap, live': TimedMap, maxEntries: nat,
                        kv: Kv, now: int, victims: set<Bytes>)
    requires MayLeave(before, maxEntries, victims) && |after| <= |before| + 1
    requires victims == {} ==> live' == LoadOne(live, kv, now)
    ensures Loaded(before, live, after, live', maxEntries, [kv], now, victims)
  {
    hide LoadOne;
    assert [kv][..0] == [];
    assert LoadedOnto(live, [], now) == live;
  }

  lemma MoreLoaded(m: TimedMap, live: TimedMap, m': TimedMap, live': TimedMap, m'': TimedMap, live'': TimedMap,
                   maxEntries: nat, kvs: seq<Kv>, more: seq<Kv>, now: int, victims: set<Bytes>, gone: set<Bytes>)
    requires Loaded(m, live, m', live', maxEntries, kvs, now, victims)
    requires Loaded(m', live', m'', live'', maxEntries, more, now, gone)
    ensures Loaded(m, live, m'', live'', maxEntries, kvs + more, now, victims + gone)
  {
    hide LoadedOnto;
    LoadedInTwo(live, kvs, more, now);
  }

  lemma {:induction false} LoadedInTwo(m: TimedMap, a: seq<Kv>, b: seq<Kv>, now: int)
    ensures LoadedOnto(m, a + b, now) == LoadedOnto(LoadedOnto(m, a, now), b, now)
    decreases |b|
  {
    hide LoadOne;
    if b == [] {
      assert a + b == a;
    } else {
      assert (a + b)[..|a + b| - 1] == a + b[..|b| - 1];
      LoadedInTwo(m, a, b[..|b| - 1], now);
    }
  }

  /** What the loader does with one record; the time to live is what is left of it. */
  method StoreLoaded(db: GlobalStorage, kv: Kv, now: int) returns (ghost victims: set<Bytes>)
    requires db.Valid() && 0 <= now < INT64_MAX
    modifies db
    ensures db.Valid() && (victims == {} ==> db.Live(now) == LoadOne(old(db.Live(now)), kv, now))
    ensures MayLeave(old(db.Now()), db.maxEntries, victims) && |db.Now()| <= |old(db.Now())| + 1
    ensures Loaded(old(db.Now()), old(db.Live(now)), db.Now(), db.Live(now), db.maxEntries, [kv], now, victims)
  {
    hide Sound, View, LiveAt, After, MayLeave, NewOnly, Loaded, LoadOne;
    ghost var m, live := db.Now(), db.Live(now);
    victims := {};
    NobodyLeaves(m, db.maxEntries);
    if kv.key != [] && kv.expire <= 0 {
      victims := db.Set(kv.key, kv.value, now);
      NewOnlySize(m, db.Now(), kv.key);
    } else if kv.key != [] {
      var ttl := kv.expire - now;
      if ttl > 0 {
        victims := db.SetWithExpire(kv.key, kv.value, ttl, now);
        NewOnlySize(m, db.Now(), kv.key);
      }
    }
    LoadOneIs(live, kv, now);
    OneLoadedRecord(m, live, db.Now(), db.Live(now), db.maxEntries, kv, now, victims);
  }

  /** The branches of the loader, as commands on the timed map. */
  lemma LoadOneIs(live: TimedMap, kv: Kv, now: int)
    ensures live - {} == live
    ensures kv.key != [] && kv.expire <= 0 ==> LoadOne(live, kv, now) == After(live, now, Set(kv.key, kv.value))
    ensures kv.key != [] && kv.expire > 0 && kv.expire - now > 0 ==>
              LoadOne(live, kv, now) == After(live, now, SetWithExpire(kv.key, kv.value, kv.expire - now))
    ensures kv.key == [] || (kv.expire > 0 && kv.expire - now <= 0) ==> LoadOne(live, kv, now) == live
  {
    hide After;
  }

  /** `i` of the `dbs` data bases from `start` are read. */
  ghost predicate DbsSoFar(d: Doubles, s: Bytes, body: nat, start: nat, dbs: nat, kvs: seq<Kv>, pos: nat, i: nat) {
    && i <= dbs && start <= |s| && pos <= |s|
    && ReadDbs(d, s, body, start, dbs) == Joined(kvs, ReadDbs(d, s, body, pos, dbs - i))
    && GoodDbs(d, s, body, start, dbs) == kvs + GoodDbs(d, s, body, pos, dbs - i)
  }

  lemma NoDbYet(d: Doubles, s: Bytes, body: nat, start: nat, dbs: nat)
    requires start <= |s|
    ensures DbsSoFar(d, s, body, start, dbs, [], start, 0)
  {
    hide ReadDbs, GoodDbs;
    JoinedNothing(ReadDbs(d, s, body, start, dbs));
  }

  lemma OneDbMore(d: Doubles, s: Bytes, body: nat, start: nat, dbs: nat, kvs: seq<Kv>, pos: nat, i: nat)
    requires i < dbs && DbsSoFar(d, s, body, start, dbs, kvs, pos, i)
    ensures var count := ReadInt(s, pos, 4);
            var all, good := ReadDbs(d, s, body, start, dbs), GoodDbs(d, s, body, start, dbs);
            if count.None? then all == None && good == kvs
            else
              var more := ReadKvs(d, s, body, count.value.next, count.value.v);
              && (more.None? ==> all == None && good == kvs + GoodKvs(d, s, body, count.value.next, count.value.v))
              && (more.Some? ==> DbsSoFar(d, s, body, start, dbs, kvs + more.value.v, more.value.next, i + 1))
  {
    hide ReadKvs, ReadInt, GoodKvs;
    var count := ReadInt(s, pos, 4);
    if count.Some? {
      var more := ReadKvs(d, s, body, count.value.next, count.value.v);
      if more.Some? {
        assert dbs - (i + 1) == dbs - i - 1;
        var rest := ReadDbs(d, s, body, more.value.next, dbs - i - 1);
        assert rest.Some? ==> kvs + (more.value.v + rest.value.v) == kvs + more.value.v + rest.value.v;
      }
    }
  }

  lemma EveryDb(d: Doubles, s: Bytes, body: nat, start: nat, dbs: nat, kvs: seq<Kv>, pos: nat)
    requires DbsSoFar(d, s, body, start, dbs, kvs, pos, dbs)
    ensures ReadDbs(d, s, body, start, dbs) == Some(Got(kvs, pos)) && GoodDbs(d, s, body, start, dbs) == kvs
  {
    assert dbs - dbs == 0;
    assert kvs + [] == kvs;
  }

  /** All data bases of the file, one after another. */
  method LoadDbs(reader: RdbReader, d: Doubles, db: GlobalStorage, dbs: nat, now: int)
    returns (ok: bool, ghost kvs: seq<Kv>, ghost victims: set<Bytes>)
    requires db.Valid() && 0 <= now < INT64_MAX && forall x: Bytes | |x| == 8 :: d.parse(x).Some?
    requires reader.pos <= |reader.file|
    modifies reader, db
    ensures db.Valid() && (ok <==> ReadDbs(d, reader.file, reader.body, old(reader.pos), dbs).Some?)
    ensures ok ==> ReadDbs(d, reader.file, reader.body, old(reader.pos), dbs) == Some(Got(kvs, reader.pos))
    ensures kvs == GoodDbs(d, reader.file, reader.body, old(reader.pos), dbs)
    ensures Loaded(old(db.Now()), old(db.Live(now)), db.Now(), db.Live(now), db.maxEntries, kvs, now, victims)
  {
    hide ReadKvs, ReadDbs, ReadInt, GoodKvs, GoodDbs, DbsSoFar, Sound, View, LiveAt, Loaded;
    ghost var m, live, start := db.Now(), db.Live(now), reader.pos;
    kvs, victims := [], {};
    NothingLoaded(m, live, db.maxEntries, now);
    NoDbYet(d, reader.file, reader.body, start, dbs);
    var i: nat := 0;
    while i < dbs
      invariant i <= dbs && db.Valid() && DbsSoFar(d, reader.file, reader.body, start, dbs, kvs, reader.pos, i)
      invariant Loaded(m, live, db.Now(), db.Live(now), db.maxEntries, kvs, now, victims)
    {
      OneDbMore(d, reader.file, reader.body, start, dbs, kvs, reader.pos, i);
      var count := reader.ReadUint(4);
      if count.None? {
        return false, kvs, victims;
      }
      ghost var m', live' := db.Now(), db.Live(now);
      ghost var more, gone;
      ok, more, gone := reader.LoadRecords(d, db, count.value, now);
      MoreLoaded(m, live, m', live', db.Now(), db.Live(now), db.maxEntries, kvs, more, now, victims, gone);
      kvs, victims, i := kvs + more, victims + gone, i + 1;
      if !ok {
        return;
      }
    }
    EveryDb(d, reader.file, reader.body, start, dbs, kvs, reader.pos);
    ok := true;
  }

  lemma LoadNothing(m: TimedMap, now: int)
    ensures LoadedOnto(m, [], now) == m
  {
  }

  /** What is checked before anything is stored. */
  predicate Sealed(crc: Bytes -> nat, s: Bytes) {
    && |s| >= 12 && s[..4] == [67, 67, 82, 68] && s[4..8] == [48, 48, 48, 50]
    && FromBe(s[|s| - 4..]) == crc(s[..|s| - 4]) % 4294967296
  }

  lemma UnsealedIs(crc: Bytes -> nat, d: Doubles, s: Bytes)
    requires !Sealed(crc, s)
    ensures Load(crc, d, s) == (if s == [] then Some([]) else None) && GoodRecords(crc, d, s) == []
  {
    hide FromBe, ReadDbs, GoodDbs;
    if |s| >= 12 {
      MagicIs(s[..4]);
    }
  }

  lemma SealedIs(crc: Bytes -> nat, d: Doubles, s: Bytes)
    requires Sealed(crc, s)
    ensures var kvs := ReadDbs(d, s, |s| - 4, 12, FromBe(s[8..12]));
            && GoodRecords(crc, d, s) == GoodDbs(d, s, |s| - 4, 12, FromBe(s[8..12]))
            && Load(crc, d, s) ==
               if kvs.None? || kvs.value.next != |s| - 5 || s[|s| - 5] != END then None else Some(kvs.value.v)
  {
    hide FromBe, ReadDbs, GoodDbs;
    MagicIs(s[..4]);
  }

  lemma NotSealed(crc: Bytes -> nat, s: Bytes)
    requires |s| < 12 || FromBe(s[..4]) != MAGIC || s[4..8] != VERSION || FromBe(s[|s| - 4..]) != crc(s[..|s| - 4]) % U32
    ensures !Sealed(crc, s)
  {
    hide FromBe;
    if |s| >= 12 {
      MagicIs(s[..4]);
    }
  }

  lemma NowSealed(crc: Bytes -> nat, s: Bytes)
    requires |s| >= 12 && FromBe(s[..4]) == MAGIC && s[4..8] == VERSION && FromBe(s[|s| - 4..]) == crc(s[..|s| - 4]) % U32
    ensures Sealed(crc, s)
  {
    hide FromBe;
    MagicIs(s[..4]);
  }

  /** `load`: magic, version and checksum before anything is stored; then the body must end at its end marker. */
  method LoadFile(s: Bytes, crc: Bytes -> nat, d: Doubles, db: GlobalStorage, now: int)
    returns (ok: bool, ghost kvs: seq<Kv>, ghost victims: set<Bytes>)
    requires db.Valid() && 0 <= now < INT64_MAX && forall x: Bytes | |x| == 8 :: d.parse(x).Some?
    modifies db
    ensures db.Valid() && (ok <==> Load(crc, d, s).Some?)
    ensures ok ==> Load(crc, d, s) == Some(kvs)
    ensures kvs == GoodRecords(crc, d, s)
    ensures 10 * (|old(db.Now())| + |kvs|) <= 9 * db.maxEntries ==> victims == {}
    ensures victims == {} ==> db.Live(now) == LoadedOnto(old(db.Live(now)), kvs, now)
    ensures !Sealed(crc, s) ==> db.Now() == old(db.Now()) && (ok <==> s == [])
    ensures ok && s != [] ==> |s| >= 17 && s[|s| - 5] == 255
  {
    hide Load, GoodRecords, ReadDbs, GoodDbs, FromBe, Sound, View, LiveAt, LoadedOnto, Sealed;
    kvs, victims := [], {};
    LoadNothing(db.Live(now), now);
    if |s| < 12 || FromBe(s[..4]) != MAGIC || s[4..8] != VERSION || FromBe(s[|s| - 4..]) != crc(s[..|s| - 4]) % U32 {
      NotSealed(crc, s);
      UnsealedIs(crc, d, s);
      return s == [], [], {};
    }
    NowSealed(crc, s);
    SealedIs(crc, d, s);
    var body: nat := |s| - 4;
    var reader := new RdbReader(s, body, 12);
    ok, kvs, victims := LoadDbs(reader, d, db, FromBe(s[8..12]), now);
    if !ok || reader.pos != body - 1 || s[body - 1] != END {
      ok := false;
    }
  }

  // ---- Saving ----

  class RdbWriter {
    var out: Bytes

    constructor ()
      ensures out == []
    {
      out := [];
    }

    method WriteUint(n: nat, width: nat)
      modifies this
      ensures out == old(out) + Be(n, width)
    {
      out := out + Be(n, width);
    }

    method WriteString(x: Bytes)
      modifies this
      ensures out == old(out) + Item(x, false)
    {
      hide Be;
      WriteUint(|x| % U32, 4);
      if x != [] {
        out := out + x;
      }
      assert out == old(out) + Be(|x| % U32, 4) + x;
    }

    /** The counted loop of a container, in its iteration order; `ranked` writes every second item as raw bits. */
    method WriteItems(flat: seq<Bytes>, ranked: bool)
      modifies this
      ensures out == old(out) + Items(flat, ranked, false)
    {
      hide Item;
      var i: nat, odd := 0, false;
      assert flat[0..] == flat;
      while i < |flat|
        invariant i <= |flat| && old(out) + Items(flat, ranked, false) == out + Items(flat[i..], ranked, odd)
      {
        ghost var before := out;
        assert flat[i..][0] == flat[i] && flat[i..][1..] == flat[i + 1..];
        if ranked && odd {
          out := out + flat[i];
        } else {
          WriteString(flat[i]);
        }
        RawItem(flat[i]);
        assert before + (Item(flat[i], ranked && odd) + Items(flat[i + 1..], ranked, !odd)) ==
               out + Items(flat[i + 1..], ranked, !odd);
        i, odd := i + 1, !odd;
      }
      assert out + [] == out;
    }

    /** `write_kv_pair`. */
    method WriteKvPair(kv: Kv, flat: seq<Bytes>)
      modifies this
      ensures out == old(out) + EncodeKv(kv, flat)
    {
      hide Item, Items, Be;
      if kv.expire > 0 {
        out := out + [WITH_TTL];
        WriteUint(kv.expire, 8);
      }
      assert out == old(out) + Deadline(kv.expire);
      WriteString(kv.key);
      ghost var keyed := out;
      out := out + [TypeByte(kv.value)];
      ghost var typed := out;
      if kv.value.Text? {
        WriteString(kv.value.text);
      } else {
        WriteUint(Size(kv.value) % U32, 4);
        WriteItems(flat, kv.value.Ranked?);
      }
      assert out == typed + Body(kv.value, flat);
      assert typed + Body(kv.value, flat) == keyed + ([TypeByte(kv.value)] + Body(kv.value, flat));
    }
  }

  lemma RawItem(x: Bytes)
    ensures Item(x, true) == x
  {
  }

  /** `save`: the bytes of the new file. */
  method SaveFile(crc: Bytes -> nat, kvs: seq<Kv>, flats: seq<seq<Bytes>>) returns (file: Bytes)
    requires |kvs| == |flats|
    ensures file == File(crc, kvs, flats)
  {
    hide EncodeKv, Be;
    var w := new RdbWriter();
    w.WriteUint(MAGIC, 4);
    w.out := w.out + VERSION;
    w.WriteUint(1, 4);
    w.WriteUint(|kvs| % U32, 4);
    assert w.out == Head(|kvs|);
    hide Head;
    var i: nat := 0;
    assert kvs[0..] == kvs && flats[0..] == flats;
    while i < |kvs|
      invariant i <= |kvs| && Head(|kvs|) + EncodeKvs(kvs, flats) == w.out + EncodeKvs(kvs[i..], flats[i..])
    {
      ghost var before := w.out;
      assert kvs[i..][1..] == kvs[i + 1..] && flats[i..][1..] == flats[i + 1..];
      w.WriteKvPair(kvs[i], flats[i]);
      assert before + (EncodeKv(kvs[i], flats[i]) + EncodeKvs(kvs[i + 1..], flats[i + 1..])) ==
             w.out + EncodeKvs(kvs[i + 1..], flats[i + 1..]);
      i := i + 1;
    }
    assert w.out + [] == w.out == Head(|kvs|) + EncodeKvs(kvs, flats);
    w.out := w.out + [END];
    assert w.out == Covered(kvs, flats);
    w.WriteUint(crc(w.out) % U32, 4);
    return w.out;
  }
}
