/** Exactly which files the loader accepts, and the records it takes out of them. */
module RdbFormat {
  import opened Wrappers
  import opened Bytes
  import opened RespCodec
  import opened Objects
  import opened Rdb

  /** A record as it stands in a file: a deadline or none, a key, a type byte and the items behind it. */
  datatype Raw = Raw(due: Option<nat>, key: Bytes, kind: Byte, flat: seq<Bytes>)

  // ---- The format ----

  function Elements(kind: Byte, flat: seq<Bytes>): nat {
    if kind == 2 || kind == 4 then |flat| / 2 else |flat|
  }

  /** One string behind its length, or a count and the items; in a sorted set every second item is a score. */
  function Contents(kind: Byte, flat: seq<Bytes>): Bytes
    requires kind == 0 ==> |flat| == 1
  {
    if kind == 0 then Item(flat[0], false) else Be(Elements(kind, flat), 4) + Items(flat, kind == 4, false)
  }

  predicate Sized(kind: Byte, flat: seq<Bytes>) {
    && kind <= 4 && Fits(flat, kind == 4, false) && Elements(kind, flat) < 4294967296
    && (kind == 0 ==> |flat| == 1) && (kind == 2 || kind == 4 ==> |flat| % 2 == 0)
  }

  function Due(due: Option<nat>): Bytes {
    if due.None? then [] else [254] + Be(due.value, 8)
  }

  /** Without a deadline the first byte of the key's length must not be 0xFE. */
  predicate Formed(raw: Raw) {
    && Sized(raw.kind, raw.flat) && |raw.key| < 4294967296
    && (if raw.due.Some? then raw.due.value < 18446744073709551616 else |raw.key| / 16777216 != 254)
  }

  function RawBytes(raw: Raw): Bytes
    requires Formed(raw)
  {
    Due(raw.due) + (Item(raw.key, false) + ([raw.kind] + Contents(raw.kind, raw.flat)))
  }

  // ---- What a record means ----

  /** A container without items becomes the empty string. */
  function Valued(d: Doubles, kind: Byte, flat: seq<Bytes>): Option<Object> {
    if kind == 0 && |flat| == 1 then Some(Text(flat[0]))
    else if flat == [] then Some(Text([]))
    else if kind == 1 then Some(List(flat))
    else if kind == 2 then Some(Hash(FieldsOf(flat)))
    else if kind == 3 then Some(Members(MembersOf(flat)))
    else
      var scores := ScoresOf(d, flat);
      if scores.None? then None else Some(Ranked(scores.value))
  }

  /** The eight bytes of a deadline are a signed number. */
  function Expiry(due: Option<nat>): int {
    if due.None? then -1
    else if due.value < 9223372036854775808 then due.value
    else due.value - 18446744073709551616
  }

  predicate Means(d: Doubles, raw: Raw, kv: Kv) {
    kv.key == raw.key && kv.expire == Expiry(raw.due) && Valued(d, raw.kind, raw.flat) == Some(kv.value)
  }

  // ---- Strings and items ----

  lemma IntFound(s: Bytes, pos: nat, width: nat)
    requires ReadInt(s, pos, width).Some?
    ensures var n := ReadInt(s, pos, width).value.v;
            n < Limit(width) && At(s, pos, Be(n, width)) && ReadInt(s, pos, width).value.next == pos + width
  {
    hide Be, FromBe, Limit;
    FromBeBound(s[pos..pos + width]);
    BeOfFromBe(s[pos..pos + width]);
  }

  lemma StringFound(s: Bytes, body: nat, pos: nat)
    requires ReadString(s, body, pos).Some?
    ensures var r := ReadString(s, body, pos).value;
            |r.v| < 4294967296 && At(s, pos, Item(r.v, false)) && r.next == pos + |Item(r.v, false)|
  {
    hide Be, FromBe, Limit, ReadInt;
    Widths();
    var r := ReadString(s, body, pos).value;
    IntFound(s, pos, 4);
    assert ReadInt(s, pos, 4).value.v == |r.v|;
    AtSplit(s, pos, Be(|r.v|, 4), r.v);
  }

  lemma ItemFound(s: Bytes, body: nat, pos: nat, raw: bool)
    requires ReadItem(s, body, pos, raw).Some?
    ensures var r := ReadItem(s, body, pos, raw).value;
            && (if raw then |r.v| == 8 else |r.v| < 4294967296)
            && At(s, pos, Item(r.v, raw)) && r.next == pos + |Item(r.v, raw)|
  {
    if !raw {
      StringFound(s, body, pos);
    }
  }

  lemma NoItem(s: Bytes, body: nat, pos: nat, ranked: bool, odd: bool)
    requires pos <= |s|
    ensures ReadItems(s, body, pos, 0, ranked, odd) == Some(Got([], pos))
    ensures Fits([], ranked, odd) && Items([], ranked, odd) == [] && At(s, pos, [])
  {
  }

  lemma OneItem(s: Bytes, body: nat, pos: nat, n: nat, ranked: bool, odd: bool)
    requires n > 0 && ReadItems(s, body, pos, n, ranked, odd).Some?
    ensures ReadItem(s, body, pos, ranked && odd).Some?
    ensures var first := ReadItem(s, body, pos, ranked && odd).value;
            var more := ReadItems(s, body, first.next, n - 1, ranked, !odd);
            more.Some? && ReadItems(s, body, pos, n, ranked, odd) == Some(Got([first.v] + more.value.v, more.value.next))
  {
    hide ReadItem;
  }

  lemma OneMoreFits(x: Bytes, flat: seq<Bytes>, ranked: bool, odd: bool)
    requires (if ranked && odd then |x| == 8 else |x| < 4294967296) && Fits(flat, ranked, !odd)
    ensures Fits([x] + flat, ranked, odd)
    ensures Items([x] + flat, ranked, odd) == Item(x, ranked && odd) + Items(flat, ranked, !odd)
  {
    hide Item;
    assert ([x] + flat)[1..] == flat;
  }

  lemma {:induction false} ItemsFound(s: Bytes, body: nat, pos: nat, n: nat, ranked: bool, odd: bool)
    requires pos <= |s| && ReadItems(s, body, pos, n, ranked, odd).Some?
    ensures var r := ReadItems(s, body, pos, n, ranked, odd).value;
            && Fits(r.v, ranked, odd) && At(s, pos, Items(r.v, ranked, odd))
            && |r.v| == n && r.next == pos + |Items(r.v, ranked, odd)|
    decreases n
  {
    hide ReadItem, ReadItems, Items, Item, Fits, At;
    NoItem(s, body, pos, ranked, odd);
    if n > 0 {
      OneItem(s, body, pos, n, ranked, odd);
      ItemFound(s, body, pos, ranked && odd);
      var first := ReadItem(s, body, pos, ranked && odd).value;
      var more := ReadItems(s, body, first.next, n - 1, ranked, !odd).value;
      ItemsFound(s, body, first.next, n - 1, ranked, !odd);
      OneMoreFits(first.v, more.v, ranked, odd);
      AtSplit(s, pos, Item(first.v, ranked && odd), Items(more.v, ranked, !odd));
    }
  }

  // ---- Values ----

  lemma BuildIs(d: Doubles, kind: Byte, flat: seq<Bytes>)
    requires 1 <= kind <= 4
    ensures Build(d, TagOf(kind), flat) == Valued(d, kind, flat)
  {
    hide FieldsOf, ScoresOf;
  }

  lemma ValueFound(d: Doubles, s: Bytes, body: nat, pos: nat, kind: Byte) returns (flat: seq<Bytes>)
    requires ReadValue(d, s, body, pos, kind).Some?
    ensures Sized(kind, flat) && At(s, pos, Contents(kind, flat))
    ensures var r := ReadValue(d, s, body, pos, kind).value;
            Valued(d, kind, flat) == Some(r.v) && r.next == pos + |Contents(kind, flat)|
  {
    hide Be, Limit, At, ReadItems, ReadString, Items, Item, ReadInt, Build;
    if kind == 0 {
      flat := [ReadString(s, body, pos).value.v];
      StringFound(s, body, pos);
      NoItem(s, body, pos, false, true);
      OneMoreFits(flat[0], [], false, false);
      assert [flat[0]] + [] == flat;
    } else {
      Widths();
      IntFound(s, pos, 4);
      var count := ReadInt(s, pos, 4).value;
      var n := if kind == 2 || kind == 4 then 2 * count.v else count.v;
      ItemsFound(s, body, count.next, n, kind == 4, false);
      flat := ReadItems(s, body, count.next, n, kind == 4, false).value.v;
      BuildIs(d, kind, flat);
      AtSplit(s, pos, Be(count.v, 4), Items(flat, kind == 4, false));
    }
  }

  lemma ValueTaken(d: Doubles, s: Bytes, body: nat, pos: nat, kind: Byte, flat: seq<Bytes>)
    requires Sized(kind, flat) && At(s, pos, Contents(kind, flat)) && pos + |Contents(kind, flat)| <= body
    requires Valued(d, kind, flat).Some?
    ensures ReadValue(d, s, body, pos, kind) == Some(Got(Valued(d, kind, flat).value, pos + |Contents(kind, flat)|))
  {
    hide Be, Limit, At, ReadItems, ReadString, Items, Item, ReadInt, Build;
    if kind == 0 {
      StringIs(s, body, pos, flat[0]);
    } else {
      Widths();
      var n := Elements(kind, flat);
      AtSplit(s, pos, Be(n, 4), Items(flat, kind == 4, false));
      IntIs(s, pos, n, 4);
      ItemsAre(s, body, pos + 4, flat, kind == 4, false);
      BuildIs(d, kind, flat);
    }
  }

  // ---- Deadlines ----

  lemma DueFound(s: Bytes, pos: nat) returns (due: Option<nat>)
    requires ReadDeadline(s, pos).Some?
    ensures pos < |s| && At(s, pos, Due(due))
    ensures if due.Some? then due.value < 18446744073709551616 else s[pos] != 254
    ensures ReadDeadline(s, pos) == Some(Got(Expiry(due), pos + |Due(due)|))
  {
    hide Be, Limit, ReadInt;
    if s[pos] != WITH_TTL {
      due := None;
    } else {
      Widths();
      IntFound(s, pos + 1, 8);
      due := Some(ReadInt(s, pos + 1, 8).value.v);
      AtSplit(s, pos, [254], Be(due.value, 8));
    }
  }

  lemma DueTaken(s: Bytes, pos: nat, due: Option<nat>, rest: Bytes)
    requires At(s, pos, Due(due) + rest) && rest != []
    requires if due.Some? then due.value < 18446744073709551616 else rest[0] != 254
    ensures ReadDeadline(s, pos) == Some(Got(Expiry(due), pos + |Due(due)|))
  {
    hide Be, Limit, ReadInt;
    AtSplit(s, pos, Due(due), rest);
    AtMeans(s, pos + |Due(due)|, rest);
    if due.Some? {
      Widths();
      AtSplit(s, pos, [254], Be(due.value, 8));
      AtMeans(s, pos, [254]);
      IntIs(s, pos + 1, due.value, 8);
    }
  }

  // ---- Records ----

  lemma LengthFirst(key: Bytes)
    requires |key| < 4294967296
    ensures |Item(key, false)| >= 4 && Item(key, false)[0] == |key| / 16777216
  {
    hide Be;
    FirstByte(|key|);
  }

  lemma FirstAt(s: Bytes, pos: nat, key: Bytes)
    requires |key| < 4294967296 && At(s, pos, Item(key, false))
    ensures pos < |s| && s[pos] == |key| / 16777216
  {
    LengthFirst(key);
    hide Item;
    AtMeans(s, pos, Item(key, false));
  }

  lemma KvParts(d: Doubles, s: Bytes, body: nat, pos: nat) returns (due: Got<int>, key: Got<Bytes>, value: Got<Object>)
    requires ReadKv(d, s, body, pos).Some?
    ensures ReadDeadline(s, pos) == Some(due) && ReadString(s, body, due.next) == Some(key) && key.next < |s|
    ensures ReadValue(d, s, body, key.next + 1, s[key.next]) == Some(value)
    ensures ReadKv(d, s, body, pos) == Some(Got(Kv(key.v, value.v, due.v), value.next))
  {
    hide ReadDeadline, ReadString, ReadValue;
    due := ReadDeadline(s, pos).value;
    key := ReadString(s, body, due.next).value;
    value := ReadValue(d, s, body, key.next + 1, s[key.next]).value;
  }

  lemma RawAt(s: Bytes, pos: nat, raw: Raw)
    requires Formed(raw)
    ensures var at := pos + |Due(raw.due)|;
            var to := at + |Item(raw.key, false)|;
            && (At(s, pos, RawBytes(raw)) <==>
                  && At(s, pos, Due(raw.due)) && At(s, at, Item(raw.key, false))
                  && to < |s| && s[to] == raw.kind && At(s, to + 1, Contents(raw.kind, raw.flat)))
            && |RawBytes(raw)| == to + 1 + |Contents(raw.kind, raw.flat)| - pos
  {
    hide Due, Item, Contents, At, Fits;
    var key, value := Item(raw.key, false), Contents(raw.kind, raw.flat);
    var at := pos + |Due(raw.due)|;
    AtSplit(s, pos, Due(raw.due), key + ([raw.kind] + value));
    AtSplit(s, at, key, [raw.kind] + value);
    AtSplit(s, at + |key|, [raw.kind], value);
    OneByteAt(s, at + |key|, raw.kind);
  }

  lemma OneByteAt(s: Bytes, pos: nat, b: Byte)
    ensures At(s, pos, [b]) <==> pos < |s| && s[pos] == b
  {
    assert pos < |s| ==> s[pos..pos + 1] == [s[pos]];
  }

  lemma KvFound(d: Doubles, s: Bytes, body: nat, pos: nat) returns (raw: Raw)
    requires ReadKv(d, s, body, pos).Some?
    ensures Formed(raw) && At(s, pos, RawBytes(raw))
    ensures var r := ReadKv(d, s, body, pos).value;
            Means(d, raw, r.v) && r.next == pos + |RawBytes(raw)|
  {
    hide ReadKv, ReadDeadline, ReadString, ReadValue, At, Contents, Due, Item, Valued, Sized, Expiry, RawBytes;
    var at, key, value := KvParts(d, s, body, pos);
    var due := DueFound(s, pos);
    StringFound(s, body, at.next);
    FirstAt(s, at.next, key.v);
    DueEmpty(due);
    var flat := ValueFound(d, s, body, key.next + 1, s[key.next]);
    raw := Raw(due, key.v, s[key.next], flat);
    RawAt(s, pos, raw);
  }

  lemma DueEmpty(due: Option<nat>)
    ensures due.None? ==> Due(due) == []
  {
  }

  lemma KvTaken(d: Doubles, s: Bytes, body: nat, pos: nat, raw: Raw, kv: Kv)
    requires Formed(raw) && Means(d, raw, kv) && At(s, pos, RawBytes(raw)) && pos + |RawBytes(raw)| <= body
    ensures ReadKv(d, s, body, pos) == Some(Got(kv, pos + |RawBytes(raw)|))
  {
    hide ReadDeadline, ReadString, ReadValue, At, Contents, Due, Item, Valued, Sized, Expiry, RawBytes;
    DueTakenFirst(s, pos, raw);
    RawAt(s, pos, raw);
    var at := pos + |Due(raw.due)|;
    StringIs(s, body, at, raw.key);
    ValueTaken(d, s, body, at + |Item(raw.key, false)| + 1, raw.kind, raw.flat);
  }

  lemma DueTakenFirst(s: Bytes, pos: nat, raw: Raw)
    requires Formed(raw) && At(s, pos, RawBytes(raw))
    ensures ReadDeadline(s, pos) == Some(Got(Expiry(raw.due), pos + |Due(raw.due)|))
  {
    hide ReadDeadline, At, Contents, Due, Item, Expiry;
    LengthFirst(raw.key);
    DueTaken(s, pos, raw.due, Item(raw.key, false) + ([raw.kind] + Contents(raw.kind, raw.flat)));
  }

  // ---- Data bases ----

  predicate AllFormed(raws: seq<Raw>) {
    forall i | 0 <= i < |raws| :: Formed(raws[i])
  }

  function RawsBytes(raws: seq<Raw>): Bytes
    requires AllFormed(raws)
  {
    if raws == [] then [] else RawBytes(raws[0]) + RawsBytes(raws[1..])
  }

  predicate AllMean(d: Doubles, raws: seq<Raw>, kvs: seq<Kv>) {
    |raws| == |kvs| && forall i | 0 <= i < |raws| :: Means(d, raws[i], kvs[i])
  }

  lemma NoKv(d: Doubles, s: Bytes, body: nat, pos: nat)
    requires pos <= |s|
    ensures ReadKvs(d, s, body, pos, 0) == Some(Got([], pos))
    ensures AllFormed([]) && RawsBytes([]) == [] && AllMean(d, [], []) && At(s, pos, [])
  {
  }

  lemma OneKv(d: Doubles, s: Bytes, body: nat, pos: nat, n: nat)
    requires n > 0
    ensures ReadKvs(d, s, body, pos, n).Some? ==> ReadKv(d, s, body, pos).Some?
    ensures ReadKv(d, s, body, pos).Some? ==>
              var first := ReadKv(d, s, body, pos).value;
              var more := ReadKvs(d, s, body, first.next, n - 1);
              ReadKvs(d, s, body, pos, n) == if more.None? then None else Some(Got([first.v] + more.value.v, more.value.next))
  {
    hide ReadKv;
  }

  lemma OneMoreRaw(d: Doubles, raw: Raw, kv: Kv, raws: seq<Raw>, kvs: seq<Kv>)
    requires Formed(raw) && AllFormed(raws) && Means(d, raw, kv) && AllMean(d, raws, kvs)
    ensures AllFormed([raw] + raws) && AllMean(d, [raw] + raws, [kv] + kvs)
    ensures RawsBytes([raw] + raws) == RawBytes(raw) + RawsBytes(raws)
  {
    hide Formed, Means, RawBytes;
    assert ([raw] + raws)[1..] == raws;
  }

  lemma FirstRaw(d: Doubles, raws: seq<Raw>, kvs: seq<Kv>)
    requires raws != [] && AllFormed(raws) && AllMean(d, raws, kvs)
    ensures Formed(raws[0]) && AllFormed(raws[1..]) && |kvs| > 0 && Means(d, raws[0], kvs[0]) && AllMean(d, raws[1..], kvs[1..])
    ensures RawsBytes(raws) == RawBytes(raws[0]) + RawsBytes(raws[1..])
    ensures kvs == [kvs[0]] + kvs[1..]
  {
    hide Formed, Means, RawBytes;
  }

  lemma {:induction false} KvsFound(d: Doubles, s: Bytes, body: nat, pos: nat, n: nat) returns (raws: seq<Raw>)
    requires pos <= |s| && ReadKvs(d, s, body, pos, n).Some?
    ensures AllFormed(raws) && |raws| == n && At(s, pos, RawsBytes(raws))
    ensures var r := ReadKvs(d, s, body, pos, n).value;
            AllMean(d, raws, r.v) && r.next == pos + |RawsBytes(raws)|
    decreases n
  {
    hide ReadKv, ReadKvs, Formed, Means, AllFormed, AllMean, RawBytes, RawsBytes, At;
    NoKv(d, s, body, pos);
    raws := [];
    if n > 0 {
      OneKv(d, s, body, pos, n);
      var raw := KvFound(d, s, body, pos);
      var first := ReadKv(d, s, body, pos).value;
      var more := KvsFound(d, s, body, first.next, n - 1);
      OneMoreRaw(d, raw, first.v, more, ReadKvs(d, s, body, first.next, n - 1).value.v);
      AtSplit(s, pos, RawBytes(raw), RawsBytes(more));
      raws := [raw] + more;
    }
  }

  lemma {:induction false} KvsTaken(d: Doubles, s: Bytes, body: nat, pos: nat, raws: seq<Raw>, kvs: seq<Kv>)
    requires pos <= |s| && AllFormed(raws) && AllMean(d, raws, kvs)
    requires At(s, pos, RawsBytes(raws)) && pos + |RawsBytes(raws)| <= body
    ensures ReadKvs(d, s, body, pos, |raws|) == Some(Got(kvs, pos + |RawsBytes(raws)|))
    decreases |raws|
  {
    hide ReadKv, ReadKvs, Formed, Means, AllFormed, RawBytes, RawsBytes, At;
    NoKv(d, s, body, pos);
    if raws != [] {
      FirstRaw(d, raws, kvs);
      AtSplit(s, pos, RawBytes(raws[0]), RawsBytes(raws[1..]));
      KvTaken(d, s, body, pos, raws[0], kvs[0]);
      OneKv(d, s, body, pos, |raws|);
      AtMeans(s, pos, RawBytes(raws[0]));
      KvsTaken(d, s, body, pos + |RawBytes(raws[0])|, raws[1..], kvs[1..]);
    }
  }

  /** A data base is a count and its records. */
  predicate DbFormed(db: seq<Raw>) {
    |db| < 4294967296 && AllFormed(db)
  }

  predicate DbsFormed(dbs: seq<seq<Raw>>) {
    forall i | 0 <= i < |dbs| :: DbFormed(dbs[i])
  }

  function DbBytes(db: seq<Raw>): Bytes
    requires DbFormed(db)
  {
    Be(|db|, 4) + RawsBytes(db)
  }

  function DbsBytes(dbs: seq<seq<Raw>>): Bytes
    requires DbsFormed(dbs)
  {
    if dbs == [] then [] else DbBytes(dbs[0]) + DbsBytes(dbs[1..])
  }

  /** The records of all data bases, in order. */
  function Records(dbs: seq<seq<Raw>>): seq<Raw> {
    if dbs == [] then [] else dbs[0] + Records(dbs[1..])
  }

  lemma NoDb(d: Doubles, s: Bytes, body: nat, pos: nat)
    requires pos <= |s|
    ensures ReadDbs(d, s, body, pos, 0) == Some(Got([], pos))
    ensures DbsFormed([]) && DbsBytes([]) == [] && Records([]) == [] && AllMean(d, [], []) && At(s, pos, [])
  {
  }

  lemma OneDbRead(d: Doubles, s: Bytes, body: nat, pos: nat, n: nat)
    requires pos <= |s| && n > 0
    ensures ReadDbs(d, s, body, pos, n).Some? ==>
              && ReadInt(s, pos, 4).Some?
              && var count := ReadInt(s, pos, 4).value; ReadKvs(d, s, body, count.next, count.v).Some?
    ensures ReadInt(s, pos, 4).Some? ==>
              var count := ReadInt(s, pos, 4).value;
              var kvs := ReadKvs(d, s, body, count.next, count.v);
              kvs.Some? ==>
                var more := ReadDbs(d, s, body, kvs.value.next, n - 1);
                ReadDbs(d, s, body, pos, n) == if more.None? then None else Some(Got(kvs.value.v + more.value.v, more.value.next))
  {
    hide ReadKvs;
  }

  lemma BothMean(d: Doubles, a: seq<Raw>, b: seq<Raw>, x: seq<Kv>, y: seq<Kv>)
    requires AllMean(d, a, x)
    ensures AllMean(d, a + b, x + y) <==> AllMean(d, b, y)
  {
    hide Means;
    if AllMean(d, a + b, x + y) {
      assert forall i | 0 <= i < |b| :: b[i] == (a + b)[|a| + i] && y[i] == (x + y)[|x| + i];
    }
  }

  lemma OneMoreDb(db: seq<Raw>, dbs: seq<seq<Raw>>)
    requires DbFormed(db) && DbsFormed(dbs)
    ensures DbsFormed([db] + dbs) && Records([db] + dbs) == db + Records(dbs)
    ensures DbsBytes([db] + dbs) == DbBytes(db) + DbsBytes(dbs)
  {
    hide DbFormed, DbBytes;
    assert ([db] + dbs)[1..] == dbs;
  }

  lemma DbFound(d: Doubles, s: Bytes, body: nat, pos: nat) returns (db: seq<Raw>)
    requires pos <= |s| && ReadInt(s, pos, 4).Some?
    requires var count := ReadInt(s, pos, 4).value; ReadKvs(d, s, body, count.next, count.v).Some?
    ensures var count := ReadInt(s, pos, 4).value;
            var r := ReadKvs(d, s, body, count.next, count.v).value;
            && DbFormed(db) && At(s, pos, DbBytes(db))
            && AllMean(d, db, r.v) && r.next == pos + |DbBytes(db)|
  {
    hide ReadKvs, ReadInt, At, Be, Limit, RawsBytes, AllMean, AllFormed;
    Widths();
    IntFound(s, pos, 4);
    var count := ReadInt(s, pos, 4).value;
    db := KvsFound(d, s, body, count.next, count.v);
    AtSplit(s, pos, Be(|db|, 4), RawsBytes(db));
  }

  lemma {:induction false} DbsFound(d: Doubles, s: Bytes, body: nat, pos: nat, n: nat) returns (dbs: seq<seq<Raw>>)
    requires pos <= |s| && ReadDbs(d, s, body, pos, n).Some?
    ensures DbsFormed(dbs) && |dbs| == n && At(s, pos, DbsBytes(dbs))
    ensures var r := ReadDbs(d, s, body, pos, n).value;
            AllMean(d, Records(dbs), r.v) && r.next == pos + |DbsBytes(dbs)|
    decreases n
  {
    hide ReadKvs, ReadDbs, ReadInt, At, DbBytes, DbsBytes, DbFormed, DbsFormed, AllMean, Records;
    NoDb(d, s, body, pos);
    dbs := [];
    if n > 0 {
      OneDbRead(d, s, body, pos, n);
      var db := DbFound(d, s, body, pos);
      var count := ReadInt(s, pos, 4).value;
      var kvs := ReadKvs(d, s, body, count.next, count.v).value;
      var more := DbsFound(d, s, body, kvs.next, n - 1);
      OneMoreDb(db, more);
      BothMean(d, db, Records(more), kvs.v, ReadDbs(d, s, body, kvs.next, n - 1).value.v);
      AtSplit(s, pos, DbBytes(db), DbsBytes(more));
      dbs := [db] + more;
    }
  }

  lemma DbTaken(d: Doubles, s: Bytes, body: nat, pos: nat, db: seq<Raw>, kvs: seq<Kv>)
    requires DbFormed(db) && AllMean(d, db, kvs) && At(s, pos, DbBytes(db)) && pos + |DbBytes(db)| <= body
    ensures ReadInt(s, pos, 4) == Some(Got(|db|, pos + 4))
    ensures ReadKvs(d, s, body, pos + 4, |db|) == Some(Got(kvs, pos + |DbBytes(db)|))
  {
    hide ReadKvs, ReadInt, At, Be, Limit, RawsBytes, AllMean, AllFormed;
    Widths();
    AtSplit(s, pos, Be(|db|, 4), RawsBytes(db));
    IntIs(s, pos, |db|, 4);
    AtMeans(s, pos, Be(|db|, 4));
    KvsTaken(d, s, body, pos + 4, db, kvs);
  }

  lemma FirstDb(d: Doubles, dbs: seq<seq<Raw>>, kvs: seq<Kv>) returns (x: seq<Kv>, y: seq<Kv>)
    requires dbs != [] && DbsFormed(dbs) && AllMean(d, Records(dbs), kvs)
    ensures DbFormed(dbs[0]) && DbsFormed(dbs[1..]) && DbsBytes(dbs) == DbBytes(dbs[0]) + DbsBytes(dbs[1..])
    ensures kvs == x + y && AllMean(d, dbs[0], x) && AllMean(d, Records(dbs[1..]), y)
  {
    hide DbFormed, DbBytes, Means;
    x, y := kvs[..|dbs[0]|], kvs[|dbs[0]|..];
    assert forall i | 0 <= i < |dbs[0]| :: Records(dbs)[i] == dbs[0][i];
    BothMean(d, dbs[0], Records(dbs[1..]), x, y);
    assert x + y == kvs;
  }

  lemma {:induction false} DbsTaken(d: Doubles, s: Bytes, body: nat, pos: nat, dbs: seq<seq<Raw>>, kvs: seq<Kv>)
    requires pos <= |s| && DbsFormed(dbs) && AllMean(d, Records(dbs), kvs)
    requires At(s, pos, DbsBytes(dbs)) && pos + |DbsBytes(dbs)| <= body
    ensures ReadDbs(d, s, body, pos, |dbs|) == Some(Got(kvs, pos + |DbsBytes(dbs)|))
    decreases |dbs|
  {
    NoneMeans(d, kvs);
    hide ReadKvs, ReadDbs, ReadInt, At, DbBytes, DbsBytes, DbFormed, DbsFormed, AllMean, Records;
    NoDb(d, s, body, pos);
    if dbs != [] {
      var x, y := FirstDb(d, dbs, kvs);
      AtSplit(s, pos, DbBytes(dbs[0]), DbsBytes(dbs[1..]));
      DbTaken(d, s, body, pos, dbs[0], x);
      OneDbRead(d, s, body, pos, |dbs|);
      AtMeans(s, pos, DbBytes(dbs[0]));
      DbsTaken(d, s, body, pos + |DbBytes(dbs[0])|, dbs[1..], y);
    }
  }

  lemma NoneMeans(d: Doubles, kvs: seq<Kv>)
    ensures AllMean(d, [], kvs) ==> kvs == []
  {
  }

  // ---- The file ----

  /** Magic number, version, number of data bases, the data bases and the end marker. */
  function Whole(dbs: seq<seq<Raw>>): Bytes
    requires DbsFormed(dbs)
  {
    [67, 67, 82, 68] + ([48, 48, 48, 50] + (Be(|dbs|, 4) + (DbsBytes(dbs) + [255])))
  }

  /** The file holds these data bases under a matching checksum, and they mean these records. */
  predicate Snapshot(crc: Bytes -> nat, d: Doubles, s: Bytes, dbs: seq<seq<Raw>>, kvs: seq<Kv>) {
    && DbsFormed(dbs) && |dbs| < 4294967296 && AllMean(d, Records(dbs), kvs)
    && s == Whole(dbs) + Be(crc(Whole(dbs)) % 4294967296, 4)
  }

  lemma WholeAt(s: Bytes, dbs: seq<seq<Raw>>)
    requires DbsFormed(dbs)
    ensures var to := 12 + |DbsBytes(dbs)|;
            && |Whole(dbs)| == to + 1
            && (At(s, 0, Whole(dbs)) <==>
                  && At(s, 0, [67, 67, 82, 68]) && At(s, 4, [48, 48, 48, 50]) && At(s, 8, Be(|dbs|, 4))
                  && At(s, 12, DbsBytes(dbs)) && to < |s| && s[to] == 255)
  {
    hide At, Be, DbsBytes;
    var dbsBytes, count := DbsBytes(dbs), Be(|dbs|, 4);
    AtSplit(s, 0, [67, 67, 82, 68], [48, 48, 48, 50] + (count + (dbsBytes + [255])));
    AtSplit(s, 4, [48, 48, 48, 50], count + (dbsBytes + [255]));
    AtSplit(s, 8, count, dbsBytes + [255]);
    AtSplit(s, 12, dbsBytes, [255]);
    OneByteAt(s, 12 + |dbsBytes|, 255);
  }

  lemma Loads(crc: Bytes -> nat, d: Doubles, s: Bytes, dbs: seq<seq<Raw>>, kvs: seq<Kv>)
    requires Snapshot(crc, d, s, dbs, kvs)
    ensures Load(crc, d, s) == Some(kvs)
  {
    hide At, Be, FromBe, DbsBytes, DbsFormed, AllMean, Records, ReadDbs, Limit, Whole;
    var covered := Whole(dbs);
    WholeAt(s, dbs);
    Trailer(crc, covered);
    AtStart(covered, Be(crc(covered) % 4294967296, 4));
    AtMeans(s, 0, [67, 67, 82, 68]);
    AtMeans(s, 4, [48, 48, 48, 50]);
    MagicIs(s[..4]);
    Widths();
    IntIs(s, 8, |dbs|, 4);
    DbsTaken(d, s, |s| - 4, 12, dbs, kvs);
  }

  lemma Held(crc: Bytes -> nat, d: Doubles, s: Bytes) returns (dbs: seq<seq<Raw>>)
    requires s != [] && Load(crc, d, s).Some?
    ensures Snapshot(crc, d, s, dbs, Load(crc, d, s).value)
  {
    hide At, Be, FromBe, DbsBytes, DbsFormed, AllMean, Records, ReadDbs, Limit, Whole;
    var body := |s| - 4;
    MagicIs(s[..4]);
    Widths();
    IntFound(s, 8, 4);
    dbs := DbsFound(d, s, body, 12, FromBe(s[8..12]));
    StartsAt(s, [67, 67, 82, 68], 0);
    StartsAt(s, [48, 48, 48, 50], 4);
    WholeAt(s, dbs);
    AtMeans(s, 0, Whole(dbs));
    BeOfFromBe(s[body..]);
    assert s == s[..body] + s[body..];
  }

  lemma StartsAt(s: Bytes, t: Bytes, pos: nat)
    requires pos + |t| <= |s| && s[pos..pos + |t|] == t
    ensures At(s, pos, t)
  {
  }

  /** A file loads to `kvs` if and only if it is empty and so are they, or it is a snapshot that holds exactly them. */
  lemma LoadsIff(crc: Bytes -> nat, d: Doubles, s: Bytes, kvs: seq<Kv>)
    ensures Load(crc, d, s) == Some(kvs) <==> (s == [] && kvs == []) || exists dbs :: Snapshot(crc, d, s, dbs, kvs)
  {
    hide Snapshot;
    if s != [] && Load(crc, d, s) == Some(kvs) {
      var dbs := Held(crc, d, s);
    }
    if dbs :| Snapshot(crc, d, s, dbs, kvs) {
      Loads(crc, d, s, dbs, kvs);
    }
  }
}
