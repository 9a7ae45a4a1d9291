/** The snapshot file: header, records with optional deadlines, end marker and checksum. */
module Rdb {
  import opened Wrappers
  import opened Bytes
  import opened RespCodec
  import opened Objects
  import opened TimedMaps

  const MAGIC: nat := 0x4343_5244
  const VERSION: Bytes := [48, 48, 48, 50]
  const WITH_TTL: Byte := 0xFE
  const END: Byte := 0xFF
  const U32: nat := 0x1_0000_0000

  /** A key with its absolute deadline, or -1 for none. */
  datatype Kv = Kv(key: Bytes, value: Object, expire: int)

  // ---- Big-endian integers ----

  function Be(n: nat, width: nat): (s: Bytes)
    ensures |s| == width
  {
    if width == 0 then [] else Be(n / 256, width - 1) + [n % 256]
  }

  function FromBe(s: Bytes): nat {
    if s == [] then 0 else FromBe(s[..|s| - 1]) * 256 + s[|s| - 1]
  }

  lemma {:induction false} BeRoundTrip(n: nat, width: nat)
    requires n < Limit(width)
    ensures FromBe(Be(n, width)) == n
  {
    if width > 0 {
      BeRoundTrip(n / 256, width - 1);
      assert Be(n, width)[..width - 1] == Be(n / 256, width - 1);
    }
  }

  // ---- Writing ----

  function TypeByte(o: Object): Byte {
    match o
    case Text(_) => 0
    case List(_) => 1
    case Hash(_) => 2
    case Members(_) => 3
    case Ranked(_) => 4
  }

  /** Strings are written behind a 32-bit length, scores as their eight raw bytes. */
  function Item(x: Bytes, raw: bool): Bytes {
    if raw then x else Be(|x| % U32, 4) + x
  }

  /** In a sorted set every second item is a score. */
  function Items(flat: seq<Bytes>, ranked: bool, odd: bool): Bytes {
    if flat == [] then [] else Item(flat[0], ranked && odd) + Items(flat[1..], ranked, !odd)
  }

  function Body(o: Object, flat: seq<Bytes>): Bytes {
    if o.Text? then Item(o.text, false) else Be(Size(o) % U32, 4) + Items(flat, o.Ranked?, false)
  }

  function Deadline(expire: int): Bytes {
    if expire > 0 then [WITH_TTL] + Be(expire, 8) else []
  }

  /** `write_kv_pair`, for one iteration order of the value. */
  function EncodeKv(kv: Kv, flat: seq<Bytes>): Bytes {
    Deadline(kv.expire) + (Item(kv.key, false) + ([TypeByte(kv.value)] + Body(kv.value, flat)))
  }

  function EncodeKvs(kvs: seq<Kv>, flats: seq<seq<Bytes>>): Bytes
    requires |kvs| == |flats|
  {
    if kvs == [] then [] else EncodeKv(kvs[0], flats[0]) + EncodeKvs(kvs[1..], flats[1..])
  }

  function Head(count: nat): Bytes {
    Be(MAGIC, 4) + (VERSION + (Be(1, 4) + Be(count % U32, 4)))
  }

  /** Everything the checksum covers. */
  function Covered(kvs: seq<Kv>, flats: seq<seq<Bytes>>): Bytes
    requires |kvs| == |flats|
  {
    Head(|kvs|) + (EncodeKvs(kvs, flats) + [END])
  }

  /** `save`; the checksum function is a parameter of the model. */
  function File(crc: Bytes -> nat, kvs: seq<Kv>, flats: seq<seq<Bytes>>): Bytes
    requires |kvs| == |flats|
  {
    Covered(kvs, flats) + Be(crc(Covered(kvs, flats)) % U32, 4)
  }

  // ---- Reading; `body` is where the checksum starts ----

  datatype Got<+T> = Got(v: T, next: nat)

  function ReadBytes(s: Bytes, pos: nat, n: nat): (r: Option<Got<Bytes>>)
    ensures r.Some? ==> r.value.next == pos + n <= |s| && |r.value.v| == n
  {
    if pos + n <= |s| then Some(Got(s[pos..pos + n], pos + n)) else None
  }

  function ReadInt(s: Bytes, pos: nat, width: nat): (r: Option<Got<nat>>)
    ensures r.Some? ==> r.value.next == pos + width <= |s|
  {
    if pos + width <= |s| then Some(Got(FromBe(s[pos..pos + width]), pos + width)) else None
  }

  /** `read_string`: the length must fit the checked part of the file. */
  function ReadString(s: Bytes, body: nat, pos: nat): (r: Option<Got<Bytes>>)
    ensures r.Some? ==> pos < r.value.next <= |s|
  {
    var len := ReadInt(s, pos, 4);
    if len.None? then None
    else if len.value.v == 0 then Some(Got([], len.value.next))
    else if len.value.next + len.value.v > body then None
    else ReadBytes(s, len.value.next, len.value.v)
  }

  function ReadItem(s: Bytes, body: nat, pos: nat, raw: bool): (r: Option<Got<Bytes>>)
    ensures r.Some? ==> pos < r.value.next <= |s|
  {
    if raw then ReadBytes(s, pos, 8) else ReadString(s, body, pos)
  }

  function ReadItems(s: Bytes, body: nat, pos: nat, n: nat, ranked: bool, odd: bool): (r: Option<Got<seq<Bytes>>>)
    ensures r.Some? ==> pos <= r.value.next && |r.value.v| == n && (n > 0 || pos <= |s| ==> r.value.next <= |s|)
    decreases n
  {
    if n == 0 then Some(Got([], pos))
    else
      match ReadItem(s, body, pos, ranked && odd)
      case None => None
      case Some(first) =>
        var more := ReadItems(s, body, first.next, n - 1, ranked, !odd);
        if more.None? then None else Some(Got([first.v] + more.value.v, more.value.next))
  }

  function TagOf(t: Byte): Bytes {
    if t == 1 then LIST_TAG else if t == 2 then HASH_TAG else if t == 3 then SET_TAG else ZSET_TAG
  }

  function ReadValue(d: Doubles, s: Bytes, body: nat, pos: nat, t: Byte): (r: Option<Got<Object>>)
    ensures r.Some? ==> pos < r.value.next <= |s|
  {
    if t == 0 then
      var text := ReadString(s, body, pos);
      if text.None? then None else Some(Got(Text(text.value.v), text.value.next))
    else if t > 4 then None
    else
      var count := ReadInt(s, pos, 4);
      if count.None? then None
      else
        var n := if t == 2 || t == 4 then 2 * count.value.v else count.value.v;
        var flat := ReadItems(s, body, count.value.next, n, t == 4, false);
        if flat.None? then None
        else
          var o := Build(d, TagOf(t), flat.value.v);
          if o.None? then None else Some(Got(o.value, flat.value.next))
  }

  /** The cast of an unsigned 64-bit number to a signed one. */
  function Signed(n: nat): int {
    if n < 0x8000_0000_0000_0000 then n else n - 0x1_0000_0000_0000_0000
  }

  function ReadDeadline(s: Bytes, pos: nat): (r: Option<Got<int>>)
    ensures r.Some? ==> pos <= r.value.next <= |s|
  {
    if pos >= |s| then None
    else if s[pos] != WITH_TTL then Some(Got(-1, pos))
    else
      var at := ReadInt(s, pos + 1, 8);
      if at.None? then None else Some(Got(Signed(at.value.v), at.value.next))
  }

  /** `read_kv_pair`. */
  function ReadKv(d: Doubles, s: Bytes, body: nat, pos: nat): (r: Option<Got<Kv>>)
    ensures r.Some? ==> pos < r.value.next <= |s|
  {
    var expire := ReadDeadline(s, pos);
    if expire.None? then None
    else
      var key := ReadString(s, body, expire.value.next);
      if key.None? || key.value.next >= |s| then None
      else
        var value := ReadValue(d, s, body, key.value.next + 1, s[key.value.next]);
        if value.None? then None
        else Some(Got(Kv(key.value.v, value.value.v, expire.value.v), value.value.next))
  }

  function ReadKvs(d: Doubles, s: Bytes, body: nat, pos: nat, n: nat): (r: Option<Got<seq<Kv>>>)
    ensures r.Some? ==> pos <= r.value.next && |r.value.v| == n && (n > 0 || pos <= |s| ==> r.value.next <= |s|)
    decreases n
  {
    if n == 0 then Some(Got([], pos))
    else
      match ReadKv(d, s, body, pos)
      case None => None
      case Some(first) =>
        var more := ReadKvs(d, s, body, first.next, n - 1);
        if more.None? then None else Some(Got([first.v] + more.value.v, more.value.next))
  }

  function ReadDbs(d: Doubles, s: Bytes, body: nat, pos: nat, dbs: nat): (r: Option<Got<seq<Kv>>>)
    requires pos <= |s|
    ensures r.Some? ==> pos <= r.value.next <= |s|
    decreases dbs
  {
    if dbs == 0 then Some(Got([], pos))
    else
      var count := ReadInt(s, pos, 4);
      if count.None? then None
      else
        var kvs := ReadKvs(d, s, body, count.value.next, count.value.v);
        if kvs.None? then None
        else
          var more := ReadDbs(d, s, body, kvs.value.next, dbs - 1);
          if more.None? then None else Some(Got(kvs.value.v + more.value.v, more.value.next))
  }

  /** `load`: the records of an acceptable file. An empty file is an empty data set. */
  function Load(crc: Bytes -> nat, d: Doubles, s: Bytes): Option<seq<Kv>> {
    if s == [] then Some([])
    else if |s| < 8 || FromBe(s[..4]) != MAGIC || s[4..8] != VERSION then None
    else
      var body := |s| - 4;
      if FromBe(s[body..]) != crc(s[..body]) % U32 || |s| < 12 then None
      else
        var kvs := ReadDbs(d, s, body, 12, FromBe(s[8..12]));
        if kvs.None? || kvs.value.next != body - 1 || s[body - 1] != END then None
        else Some(kvs.value.v)
  }

  // ---- What a load has read when it stops, at a bad record or at the end ----

  function GoodKvs(d: Doubles, s: Bytes, body: nat, pos: nat, n: nat): (kvs: seq<Kv>)
    decreases n
  {
    if n == 0 then []
    else
      match ReadKv(d, s, body, pos)
      case None => []
      case Some(first) => [first.v] + GoodKvs(d, s, body, first.next, n - 1)
  }

  function GoodDbs(d: Doubles, s: Bytes, body: nat, pos: nat, dbs: nat): (kvs: seq<Kv>)
    requires pos <= |s|
    decreases dbs
  {
    if dbs == 0 || ReadInt(s, pos, 4).None? then []
    else
      var count := ReadInt(s, pos, 4).value;
      var kvs := ReadKvs(d, s, body, count.next, count.v);
      if kvs.None? then GoodKvs(d, s, body, count.next, count.v)
      else kvs.value.v + GoodDbs(d, s, body, kvs.value.next, dbs - 1)
  }

  /** The records that reach the store, whether or not the file is accepted in the end. */
  function GoodRecords(crc: Bytes -> nat, d: Doubles, s: Bytes): seq<Kv> {
    if |s| < 12 || FromBe(s[..4]) != MAGIC || s[4..8] != VERSION then []
    else
      var body := |s| - 4;
      if FromBe(s[body..]) != crc(s[..body]) % U32 then [] else GoodDbs(d, s, body, 12, FromBe(s[8..12]))
  }

  /** All records are good exactly when reading succeeds. */
  lemma {:induction false} GoodKvsAre(d: Doubles, s: Bytes, body: nat, pos: nat, n: nat)
    ensures |GoodKvs(d, s, body, pos, n)| <= n
    ensures ReadKvs(d, s, body, pos, n).Some? <==> |GoodKvs(d, s, body, pos, n)| == n
    ensures ReadKvs(d, s, body, pos, n).Some? ==> ReadKvs(d, s, body, pos, n).value.v == GoodKvs(d, s, body, pos, n)
    decreases n
  {
    hide ReadKv;
    if n > 0 {
      match ReadKv(d, s, body, pos) {
        case None =>
        case Some(first) => GoodKvsAre(d, s, body, first.next, n - 1);
      }
    }
  }

  /** The good records are those read up to the first bad one, or all. */
  lemma {:induction false} UpToFirstBad(d: Doubles, s: Bytes, body: nat, pos: nat, n: nat)
    ensures var good := GoodKvs(d, s, body, pos, n);
            var read := ReadKvs(d, s, body, pos, |good|);
            && |good| <= n && read.Some? && read.value.v == good
            && (|good| < n ==> ReadKv(d, s, body, read.value.next).None?)
    decreases n
  {
    hide ReadKv;
    if n > 0 {
      match ReadKv(d, s, body, pos) {
        case None =>
        case Some(first) => UpToFirstBad(d, s, body, first.next, n - 1);
      }
    }
  }

  /** An accepted file is stored whole. */
  lemma GoodRecordsAre(crc: Bytes -> nat, d: Doubles, s: Bytes)
    requires Load(crc, d, s).Some?
    ensures Load(crc, d, s).value == GoodRecords(crc, d, s)
  {
    hide ReadDbs, GoodDbs, FromBe;
    if s != [] {
      GoodDbsAre(d, s, |s| - 4, 12, FromBe(s[8..12]));
    }
  }

  lemma {:induction false} GoodDbsAre(d: Doubles, s: Bytes, body: nat, pos: nat, dbs: nat)
    requires pos <= |s|
    ensures ReadDbs(d, s, body, pos, dbs).Some? ==> ReadDbs(d, s, body, pos, dbs).value.v == GoodDbs(d, s, body, pos, dbs)
    decreases dbs
  {
    hide ReadKvs, ReadInt, GoodKvs;
    if dbs > 0 && ReadInt(s, pos, 4).Some? {
      var count := ReadInt(s, pos, 4).value;
      var kvs := ReadKvs(d, s, body, count.next, count.v);
      if kvs.Some? {
        GoodDbsAre(d, s, body, kvs.value.next, dbs - 1);
      }
    }
  }

  // ---- Reading back what was written ----

  lemma IntIs(s: Bytes, pos: nat, n: nat, width: nat)
    requires n < Limit(width) && At(s, pos, Be(n, width))
    ensures ReadInt(s, pos, width) == Some(Got(n, pos + width))
  {
    BeRoundTrip(n, width);
  }

  lemma Widths()
    ensures Limit(4) == U32 && Limit(8) == 0x1_0000_0000_0000_0000
  {
    assert Limit(2) == 0x1_0000;
    assert Limit(4) == U32;
    assert Limit(6) == 0x1_0000_0000_0000;
  }

  lemma StringIs(s: Bytes, body: nat, pos: nat, x: Bytes)
    requires |x| < U32 && At(s, pos, Item(x, false)) && pos + |Item(x, false)| <= body
    ensures ReadString(s, body, pos) == Some(Got(x, pos + |Item(x, false)|))
  {
    hide Be, FromBe, Limit;
    Widths();
    AtSplit(s, pos, Be(|x|, 4), x);
    IntIs(s, pos, |x|, 4);
  }

  /** Lengths that fit their fields; scores are eight bytes. */
  predicate Fits(flat: seq<Bytes>, ranked: bool, odd: bool) {
    flat == [] || ((if ranked && odd then |flat[0]| == 8 else |flat[0]| < U32) && Fits(flat[1..], ranked, !odd))
  }

  lemma {:induction false} ItemsAre(s: Bytes, body: nat, pos: nat, flat: seq<Bytes>, ranked: bool, odd: bool)
    requires Fits(flat, ranked, odd) && At(s, pos, Items(flat, ranked, odd))
    requires pos + |Items(flat, ranked, odd)| <= body
    ensures ReadItems(s, body, pos, |flat|, ranked, odd) == Some(Got(flat, pos + |Items(flat, ranked, odd)|))
    decreases |flat|
  {
    hide ReadString, At, Item;
    if flat != [] {
      var item, rest := Item(flat[0], ranked && odd), Items(flat[1..], ranked, !odd);
      AtSplit(s, pos, item, rest);
      ItemIs(s, body, pos, flat[0], ranked && odd);
      ItemsAre(s, body, pos + |item|, flat[1..], ranked, !odd);
      assert [flat[0]] + flat[1..] == flat;
    }
  }

  lemma ItemIs(s: Bytes, body: nat, pos: nat, x: Bytes, raw: bool)
    requires (if raw then |x| == 8 else |x| < U32) && At(s, pos, Item(x, raw)) && pos + |Item(x, raw)| <= body
    ensures ReadItem(s, body, pos, raw) == Some(Got(x, pos + |Item(x, raw)|))
  {
    if !raw {
      StringIs(s, body, pos, x);
    }
  }

  /** A value the file can hold: not an empty container, within 32-bit counts and lengths. */
  ghost predicate Storable(d: Doubles, o: Object, flat: seq<Bytes>) {
    && Lists(d, o, flat) && Printable(d, o) && Size(o) < U32 && Fits(flat, o.Ranked?, false)
    && (o.Text? || Size(o) > 0)
  }

  lemma ValueIs(d: Doubles, s: Bytes, body: nat, pos: nat, o: Object, flat: seq<Bytes>)
    requires Storable(d, o, flat) && At(s, pos, Body(o, flat)) && pos + |Body(o, flat)| <= body
    ensures ReadValue(d, s, body, pos, TypeByte(o)) == Some(Got(o, pos + |Body(o, flat)|))
  {
    hide Be, FromBe, Limit, At, Build, Lists, Printable, ReadItems, ReadString, Items, Item, ReadInt;
    if o.Text? {
      TextFits(d, o, flat);
      StringIs(s, body, pos, o.text);
    } else {
      Widths();
      AtSplit(s, pos, Be(Size(o), 4), Items(flat, o.Ranked?, false));
      IntIs(s, pos, Size(o), 4);
      ItemsAre(s, body, pos + 4, flat, o.Ranked?, false);
      Rebuilt(d, o, flat);
      assert TagOf(TypeByte(o)) == Tag(o);
      FlatSize(d, o, flat);
    }
  }

  lemma TextFits(d: Doubles, o: Object, flat: seq<Bytes>)
    requires o.Text? && Lists(d, o, flat) && Fits(flat, false, false)
    ensures |o.text| < U32
  {
  }

  lemma FlatSize(d: Doubles, o: Object, flat: seq<Bytes>)
    requires !o.Text? && Lists(d, o, flat)
    ensures |flat| == if o.Hash? || o.Ranked? then 2 * Size(o) else Size(o)
  {
  }

  /** The reader takes a record's first byte for a deadline marker. */
  predicate LooksTimed(kv: Kv) {
    kv.expire > 0 || |kv.key| % U32 / 0x100_0000 == WITH_TTL
  }

  /** A record the file can hold; without a deadline its key must not be as long as 0xFE000000 bytes. */
  ghost predicate Savable(d: Doubles, kv: Kv, flat: seq<Bytes>) {
    && Timeable(kv)
    && |kv.key| < U32 && (LooksTimed(kv) ==> kv.expire > 0)
    && Storable(d, kv.value, flat)
  }

  lemma FirstByte(n: nat)
    requires n < U32
    ensures Be(n, 4)[0] == n / 0x100_0000
  {
    assert Be(n, 4) == Be(n / 256, 3) + [n % 256];
    assert Be(n / 256, 3) == Be(n / 256 / 256, 2) + [n / 256 % 256];
    assert Be(n / 256 / 256, 2) == Be(n / 256 / 256 / 256, 1) + [n / 256 / 256 % 256];
    assert Be(n / 256 / 256 / 256, 1) == Be(n / 256 / 256 / 256 / 256, 0) + [n / 256 / 256 / 256 % 256];
  }

  lemma FirstByteWritten(kv: Kv, flat: seq<Bytes>)
    ensures |EncodeKv(kv, flat)| > 0
    ensures EncodeKv(kv, flat)[0] == WITH_TTL <==> LooksTimed(kv)
  {
    if kv.expire <= 0 {
      FirstByte(|kv.key| % U32);
      assert EncodeKv(kv, flat)[0] == Be(|kv.key| % U32, 4)[0];
    }
  }

  lemma DeadlineIs(s: Bytes, pos: nat, kv: Kv, rest: Bytes)
    requires Timeable(kv) && At(s, pos, Deadline(kv.expire) + rest)
    requires rest != [] && (kv.expire == -1 ==> rest[0] != WITH_TTL)
    ensures ReadDeadline(s, pos) == Some(Got(kv.expire, pos + |Deadline(kv.expire)|))
  {
    hide Be, FromBe, Limit;
    AtSplit(s, pos, Deadline(kv.expire), rest);
    AtMeans(s, pos + |Deadline(kv.expire)|, rest);
    if kv.expire > 0 {
      Widths();
      AtSplit(s, pos, [WITH_TTL], Be(kv.expire, 8));
      AtMeans(s, pos, [WITH_TTL]);
      IntIs(s, pos + 1, kv.expire, 8);
    }
  }

  lemma KvIs(d: Doubles, s: Bytes, body: nat, pos: nat, kv: Kv, flat: seq<Bytes>)
    requires Savable(d, kv, flat) && At(s, pos, EncodeKv(kv, flat)) && pos + |EncodeKv(kv, flat)| <= body
    ensures ReadKv(d, s, body, pos) == Some(Got(kv, pos + |EncodeKv(kv, flat)|))
  {
    FirstByteWritten(kv, flat);
    hide Be, At, Storable, Body, ReadValue, ReadString, ReadDeadline, Deadline, Item, LooksTimed, TypeByte;
    var deadline, key, value := Deadline(kv.expire), Item(kv.key, false), [TypeByte(kv.value)] + Body(kv.value, flat);
    NonEmpty(kv);
    DeadlineIs(s, pos, kv, key + value);
    AtSplit(s, pos, deadline, key + value);
    AtSplit(s, pos + |deadline|, key, value);
    StringIs(s, body, pos + |deadline|, kv.key);
    var at := pos + |deadline| + |key|;
    AtSplit(s, at, [TypeByte(kv.value)], Body(kv.value, flat));
    AtMeans(s, at, [TypeByte(kv.value)]);
    ValueIs(d, s, body, at + 1, kv.value, flat);
  }

  /** The deadline a record can carry: none, or a positive 64-bit time. */
  predicate Timeable(kv: Kv) {
    kv.expire == -1 || 0 < kv.expire <= INT64_MAX
  }

  /**
   * The reader takes the deadline branch exactly for a deadline, or a key so
   * long that its length starts with the marker byte; so it finds the deadline
   * that was written, and the key behind it, exactly in all other cases.
   */
  lemma MarkerTakenIff(s: Bytes, pos: nat, kv: Kv, flat: seq<Bytes>)
    requires Timeable(kv) && At(s, pos, EncodeKv(kv, flat))
    ensures pos < |s| && (s[pos] == WITH_TTL <==> LooksTimed(kv))
    ensures ReadDeadline(s, pos) == Some(Got(kv.expire, pos + |Deadline(kv.expire)|)) <==> (LooksTimed(kv) ==> kv.expire > 0)
  {
    FirstByteWritten(kv, flat);
    AtMeans(s, pos, EncodeKv(kv, flat));
    if LooksTimed(kv) ==> kv.expire > 0 {
      NonEmpty(kv);
      DeadlineIs(s, pos, kv, Item(kv.key, false) + ([TypeByte(kv.value)] + Body(kv.value, flat)));
    }
  }

  // ---- A record taken for another one ----

  lemma {:induction false} FromBeBound(s: Bytes)
    ensures FromBe(s) < Limit(|s|)
  {
    if s != [] {
      FromBeBound(s[..|s| - 1]);
    }
  }

  lemma {:induction false} BeOfFromBe(s: Bytes)
    ensures Be(FromBe(s), |s|) == s
  {
    if s != [] {
      BeOfFromBe(s[..|s| - 1]);
    }
  }

  lemma MagicIs(s: Bytes)
    requires |s| == 4
    ensures FromBe(s) == MAGIC <==> s == [67, 67, 82, 68]
  {
    if FromBe(s) == MAGIC {
      BeOfFromBe(s);
    }
    MagicBytes();
    hide Be, FromBe, Limit;
    Widths();
    BeRoundTrip(MAGIC, 4);
  }

  lemma MagicBytes()
    ensures Be(MAGIC, 4) == [67, 67, 82, 68]
  {
    assert Be(0x43, 1) == [67];
    assert Be(0x4343, 2) == [67, 67];
    assert Be(0x434352, 3) == [67, 67, 82];
  }

  /** Only bytes of ones make the largest number. */
  lemma {:induction false} AllOnes(s: Bytes, k: nat)
    requires FromBe(s) == Limit(|s|) - 1 && k < |s|
    ensures s[k] == 0xFF
  {
    FromBeBound(s[..|s| - 1]);
    if k < |s| - 1 {
      AllOnes(s[..|s| - 1], k);
    }
  }

  /** Bytes that repeat after nine are as large as the first nine. */
  lemma {:induction false} Repeats(s: Bytes, from: nat, to: nat, k: nat)
    requires from + 9 <= to <= |s| && from <= k < to
    requires forall i | from <= i < to - 9 :: s[i] == s[i + 9]
    requires forall i | from <= i < from + 9 :: s[i] >= 0xFE
    ensures s[k] >= 0xFE
    decreases k
  {
    if k >= from + 9 {
      Repeats(s, from, to, k - 9);
      assert s[k - 9] == s[k - 9 + 9];
    }
  }

  /** What the misread record would have to look like to come back as itself. */
  lemma MisreadStarts(s: Bytes, body: nat, pos: nat, kv: Kv)
    requires kv.expire == -1 && LooksTimed(kv) && |kv.key| < U32 && At(s, pos, Item(kv.key, false))
    requires ReadDeadline(s, pos) == Some(Got(-1, pos + 9))
    requires ReadString(s, body, pos + 9).Some? && ReadString(s, body, pos + 9).value.v == kv.key
    ensures pos + 13 + |kv.key| <= |s|
    ensures forall i | pos <= i < pos + 13 :: s[i] >= 0xFE
    ensures forall i | pos + 4 <= i < pos + 4 + |kv.key| :: s[i] == s[i + 9]
  {
    hide Be, FromBe, Limit, ReadString, ReadDeadline, At, LooksTimed, Item;
    var n := |kv.key|;
    LongKey(kv);
    AtSplit(s, pos, Be(n, 4), kv.key);
    AtMeans(s, pos, Be(n, 4));
    AtMeans(s, pos + 4, kv.key);
    Ones(s, pos);
    FirstByte(n);
    KeyAgain(s, body, pos, kv.key);
    Twice(s, pos, Be(n, 4), kv.key);
    forall i | pos <= i < pos + 13
      ensures s[i] >= 0xFE
    {
      if i >= pos + 9 {
        assert s[i] == s[i - 9];
      }
    }
  }

  lemma LongKey(kv: Kv)
    requires kv.expire == -1 && LooksTimed(kv) && |kv.key| < U32
    ensures |kv.key| / 0x100_0000 == WITH_TTL && |kv.key| > 0 && Item(kv.key, false) == Be(|kv.key|, 4) + kv.key
  {
    hide Be;
  }

  /** The same length and key at `pos` and nine bytes later. */
  lemma Twice(s: Bytes, pos: nat, len: Bytes, key: Bytes)
    requires |len| == 4 && pos + 13 + |key| <= |s|
    requires s[pos..pos + 4] == len == s[pos + 9..pos + 13]
    requires s[pos + 4..pos + 4 + |key|] == key == s[pos + 13..pos + 13 + |key|]
    ensures forall i | pos <= i < pos + 4 + |key| :: s[i] == s[i + 9]
    ensures s[pos] == len[0] && s[pos + 9] == len[0]
    ensures forall i | pos + 9 <= i < pos + 13 :: s[i] == s[i - 9]
  {
    forall i | pos <= i < pos + 4 + |key|
      ensures s[i] == s[i + 9]
    {
      if i < pos + 4 {
        assert s[i] == len[i - pos] && s[i + 9] == len[i - pos];
      } else {
        assert s[i] == key[i - pos - 4] && s[i + 9] == key[i - pos - 4];
      }
    }
    assert s[pos] == s[pos..pos + 4][0];
  }

  /** A deadline of -1 is eight bytes of ones. */
  lemma Ones(s: Bytes, pos: nat)
    requires ReadDeadline(s, pos) == Some(Got(-1, pos + 9))
    ensures pos + 9 <= |s| && forall i | pos < i < pos + 9 :: s[i] == 0xFF
  {
    var b := s[pos + 1..pos + 9];
    Widths();
    FromBeBound(b);
    forall i | pos < i < pos + 9
      ensures s[i] == 0xFF
    {
      AllOnes(b, i - pos - 1);
    }
  }

  lemma KeyAgain(s: Bytes, body: nat, pos: nat, key: Bytes)
    requires |key| > 0 && ReadString(s, body, pos + 9).Some? && ReadString(s, body, pos + 9).value.v == key
    ensures pos + 13 + |key| <= |s| && s[pos + 13..pos + 13 + |key|] == key && s[pos + 9..pos + 13] == Be(|key|, 4)
  {
    BeOfFromBe(s[pos + 9..pos + 13]);
  }

  /** Where the writer put the type of a value without a deadline. */
  lemma TypeStands(s: Bytes, pos: nat, kv: Kv, flat: seq<Bytes>)
    requires kv.expire == -1 && At(s, pos, EncodeKv(kv, flat))
    ensures At(s, pos, Item(kv.key, false)) && pos + 4 + |kv.key| < |s| && s[pos + 4 + |kv.key|] <= 4
  {
    hide Be, At, Body;
    var key, value := Item(kv.key, false), [TypeByte(kv.value)] + Body(kv.value, flat);
    assert EncodeKv(kv, flat) == key + value;
    AtSplit(s, pos, key, value);
    AtMeans(s, pos + |key|, value);
  }

  lemma PartsRead(d: Doubles, s: Bytes, body: nat, pos: nat)
    requires ReadKv(d, s, body, pos).Some?
    ensures var kv, at := ReadKv(d, s, body, pos).value.v, ReadDeadline(s, pos);
            && at.Some? && at.value.v == kv.expire
            && ReadString(s, body, at.value.next).Some? && ReadString(s, body, at.value.next).value.v == kv.key
    ensures s[pos] == WITH_TTL ==> ReadDeadline(s, pos).value.next == pos + 9
  {
  }

  /** A record whose key length is taken for a marker is never read back as itself, wherever the reader stops. */
  lemma MisreadIsDifferent(d: Doubles, s: Bytes, body: nat, pos: nat, kv: Kv, flat: seq<Bytes>)
    requires kv.expire == -1 && LooksTimed(kv) && |kv.key| < U32 && At(s, pos, EncodeKv(kv, flat))
    ensures ReadKv(d, s, body, pos).Some? ==> ReadKv(d, s, body, pos).value.v != kv
  {
    hide At, EncodeKv, ReadKv, ReadString, ReadDeadline, LooksTimed, Item;
    if ReadKv(d, s, body, pos).Some? && ReadKv(d, s, body, pos).value.v == kv {
      TypeStands(s, pos, kv, flat);
      MarkerTakenIff(s, pos, kv, flat);
      PartsRead(d, s, body, pos);
      MisreadStarts(s, body, pos, kv);
      Repeats(s, pos + 4, pos + 13 + |kv.key|, pos + 4 + |kv.key|);
      assert false;
    }
  }

  /** A storable record comes back if and only if its key length is not taken for a marker. */
  lemma KvReadBackIff(d: Doubles, s: Bytes, body: nat, pos: nat, kv: Kv, flat: seq<Bytes>)
    requires Timeable(kv) && |kv.key| < U32 && Storable(d, kv.value, flat)
    requires At(s, pos, EncodeKv(kv, flat)) && pos + |EncodeKv(kv, flat)| <= body
    ensures ReadKv(d, s, body, pos) == Some(Got(kv, pos + |EncodeKv(kv, flat)|)) <==> (LooksTimed(kv) ==> kv.expire > 0)
    ensures (ReadKv(d, s, body, pos).Some? && ReadKv(d, s, body, pos).value.v == kv) <==> (LooksTimed(kv) ==> kv.expire > 0)
  {
    hide At, EncodeKv, ReadKv, Storable;
    if LooksTimed(kv) ==> kv.expire > 0 {
      KvIs(d, s, body, pos, kv, flat);
    } else {
      MisreadIsDifferent(d, s, body, pos, kv, flat);
    }
  }

  lemma NonEmpty(kv: Kv)
    ensures |Item(kv.key, false)| >= 4
    ensures kv.expire <= 0 ==> Deadline(kv.expire) == []
  {
  }

  ghost predicate AllSavable(d: Doubles, kvs: seq<Kv>, flats: seq<seq<Bytes>>) {
    |kvs| == |flats| && forall i | 0 <= i < |kvs| :: Savable(d, kvs[i], flats[i])
  }

  lemma {:induction false} KvsAre(d: Doubles, s: Bytes, body: nat, pos: nat, kvs: seq<Kv>, flats: seq<seq<Bytes>>)
    requires AllSavable(d, kvs, flats) && At(s, pos, EncodeKvs(kvs, flats)) && pos + |EncodeKvs(kvs, flats)| <= body
    ensures ReadKvs(d, s, body, pos, |kvs|) == Some(Got(kvs, pos + |EncodeKvs(kvs, flats)|))
    decreases |kvs|
  {
    hide ReadKv, EncodeKv, At, Savable;
    if kvs != [] {
      var record, rest := EncodeKv(kvs[0], flats[0]), EncodeKvs(kvs[1..], flats[1..]);
      AtSplit(s, pos, record, rest);
      KvIs(d, s, body, pos, kvs[0], flats[0]);
      KvsAre(d, s, body, pos + |record|, kvs[1..], flats[1..]);
      assert [kvs[0]] + kvs[1..] == kvs;
    }
  }

  /** Records the file can hold, whether or not they come back. */
  ghost predicate AllStorable(d: Doubles, kvs: seq<Kv>, flats: seq<seq<Bytes>>) {
    |kvs| == |flats| && forall i | 0 <= i < |kvs| ::
      Timeable(kvs[i]) && |kvs[i].key| < U32 && Storable(d, kvs[i].value, flats[i])
  }

  /** No record without a deadline looks as if it had one. */
  predicate NoneMistaken(kvs: seq<Kv>) {
    forall i | 0 <= i < |kvs| :: LooksTimed(kvs[i]) ==> kvs[i].expire > 0
  }

  lemma {:induction false} KvsReadBackOnlyIf(d: Doubles, s: Bytes, body: nat, pos: nat, kvs: seq<Kv>, flats: seq<seq<Bytes>>)
    requires AllStorable(d, kvs, flats) && At(s, pos, EncodeKvs(kvs, flats)) && pos + |EncodeKvs(kvs, flats)| <= body
    requires ReadKvs(d, s, body, pos, |kvs|).Some? && ReadKvs(d, s, body, pos, |kvs|).value.v == kvs
    ensures NoneMistaken(kvs)
    decreases |kvs|
  {
    hide ReadKv, EncodeKv, At, Storable, Timeable, LooksTimed;
    if kvs != [] {
      var record, rest := EncodeKv(kvs[0], flats[0]), EncodeKvs(kvs[1..], flats[1..]);
      AtSplit(s, pos, record, rest);
      var first := ReadKv(d, s, body, pos);
      var more := ReadKvs(d, s, body, first.value.next, |kvs| - 1);
      assert kvs == [first.value.v] + more.value.v && kvs[1..] == more.value.v;
      KvReadBackIff(d, s, body, pos, kvs[0], flats[0]);
      KvsReadBackOnlyIf(d, s, body, pos + |record|, kvs[1..], flats[1..]);
      MoreMistaken(kvs);
    }
  }

  lemma MoreMistaken(kvs: seq<Kv>)
    requires kvs != []
    ensures NoneMistaken(kvs) <==> (LooksTimed(kvs[0]) ==> kvs[0].expire > 0) && NoneMistaken(kvs[1..])
  {
    assert forall i | 0 <= i < |kvs| - 1 :: kvs[1..][i] == kvs[i + 1];
    assert forall i | 0 < i < |kvs| :: kvs[i] == kvs[1..][i - 1];
  }

  lemma HeadIs(s: Bytes, count: nat)
    requires count < U32 && At(s, 0, Head(count))
    ensures |s| >= 16 && FromBe(s[..4]) == MAGIC && s[4..8] == VERSION && FromBe(s[8..12]) == 1
    ensures ReadInt(s, 12, 4) == Some(Got(count, 16))
  {
    hide Be, FromBe, Limit, At;
    Widths();
    var counts := Be(1, 4) + Be(count, 4);
    AtMeans(s, 0, Head(count));
    AtSplit(s, 0, Be(MAGIC, 4), VERSION + counts);
    AtSplit(s, 4, VERSION, counts);
    AtSplit(s, 8, Be(1, 4), Be(count, 4));
    AtMeans(s, 4, VERSION);
    IntIs(s, 0, MAGIC, 4);
    IntIs(s, 8, 1, 4);
    IntIs(s, 12, count, 4);
    assert s[..4] == s[0..4];
  }

  lemma Trailer(crc: Bytes -> nat, covered: Bytes)
    ensures var s := covered + Be(crc(covered) % U32, 4);
            s[..|s| - 4] == covered && FromBe(s[|s| - 4..]) == crc(covered) % U32
  {
    var tail := Be(crc(covered) % U32, 4);
    var s := covered + tail;
    assert s[..|s| - 4] == covered && s[|s| - 4..] == tail;
    hide Be, FromBe, Limit;
    Widths();
    BeRoundTrip(crc(covered) % U32, 4);
  }

  /** One data base whose records fill the body. */
  lemma OneDb(d: Doubles, s: Bytes, body: nat, kvs: seq<Kv>, flats: seq<seq<Bytes>>)
    requires AllSavable(d, kvs, flats) && |s| >= 16 && ReadInt(s, 12, 4) == Some(Got(|kvs|, 16))
    requires At(s, 16, EncodeKvs(kvs, flats)) && 16 + |EncodeKvs(kvs, flats)| <= body
    ensures ReadDbs(d, s, body, 12, 1) == Some(Got(kvs, 16 + |EncodeKvs(kvs, flats)|))
  {
    hide ReadKvs, ReadInt, EncodeKvs, At, Savable;
    KvsAre(d, s, body, 16, kvs, flats);
    AtMeans(s, 16, EncodeKvs(kvs, flats));
    assert kvs + [] == kvs;
    assert ReadDbs(d, s, body, 16 + |EncodeKvs(kvs, flats)|, 0) == Some(Got([], 16 + |EncodeKvs(kvs, flats)|));
  }

  /** Where the parts of a saved file are. */
  lemma FileParts(crc: Bytes -> nat, kvs: seq<Kv>, flats: seq<seq<Bytes>>)
    requires |kvs| == |flats| && |kvs| < U32
    ensures var s, covered := File(crc, kvs, flats), Covered(kvs, flats);
            && |s| == |covered| + 4 && |covered| == 17 + |EncodeKvs(kvs, flats)|
            && s[..|covered|] == covered && FromBe(s[|covered|..]) == crc(covered) % U32
            && FromBe(s[..4]) == MAGIC && s[4..8] == VERSION && FromBe(s[8..12]) == 1
            && ReadInt(s, 12, 4) == Some(Got(|kvs|, 16))
            && At(s, 16, EncodeKvs(kvs, flats)) && s[|covered| - 1] == END
  {
    hide Be, FromBe, At, EncodeKvs, Head;
    var s, covered := File(crc, kvs, flats), Covered(kvs, flats);
    Trailer(crc, covered);
    HeadSize(|kvs|);
    AtStart(covered, Be(crc(covered) % U32, 4));
    AtSplit(s, 0, Head(|kvs|), EncodeKvs(kvs, flats) + [END]);
    AtSplit(s, 16, EncodeKvs(kvs, flats), [END]);
    HeadIs(s, |kvs|);
    AtMeans(s, 16 + |EncodeKvs(kvs, flats)|, [END]);
  }

  /** A saved file loads to exactly the records saved, read up to the end marker, whatever the checksum function. */
  lemma FileRoundTrip(crc: Bytes -> nat, d: Doubles, kvs: seq<Kv>, flats: seq<seq<Bytes>>)
    requires AllSavable(d, kvs, flats) && |kvs| < U32
    ensures Load(crc, d, File(crc, kvs, flats)) == Some(kvs)
  {
    hide Be, FromBe, At, EncodeKvs, Savable, ReadDbs, Covered, File, ReadInt;
    FileParts(crc, kvs, flats);
    OneDb(d, File(crc, kvs, flats), |Covered(kvs, flats)|, kvs, flats);
  }

  /** And it does so if and only if no record without a deadline looks as if it had one. */
  lemma FileRoundTripIff(crc: Bytes -> nat, d: Doubles, kvs: seq<Kv>, flats: seq<seq<Bytes>>)
    requires AllStorable(d, kvs, flats) && |kvs| < U32
    ensures Load(crc, d, File(crc, kvs, flats)) == Some(kvs) <==> NoneMistaken(kvs)
  {
    assert |kvs| == |flats|;
    hide Load, File, EncodeKvs, AllStorable, AllSavable, NoneMistaken;
    if NoneMistaken(kvs) {
      SavableThen(d, kvs, flats);
      FileRoundTrip(crc, d, kvs, flats);
    } else if Load(crc, d, File(crc, kvs, flats)) == Some(kvs) {
      LoadedRecords(crc, d, kvs, flats);
      KvsReadBackOnlyIf(d, File(crc, kvs, flats), |Covered(kvs, flats)|, 16, kvs, flats);
    }
  }

  lemma SavableThen(d: Doubles, kvs: seq<Kv>, flats: seq<seq<Bytes>>)
    requires AllStorable(d, kvs, flats) && NoneMistaken(kvs)
    ensures AllSavable(d, kvs, flats)
  {
    hide Storable, LooksTimed;
  }

  /** What the loader has read when it accepts a saved file. */
  lemma LoadedRecords(crc: Bytes -> nat, d: Doubles, kvs: seq<Kv>, flats: seq<seq<Bytes>>)
    requires |kvs| == |flats| && |kvs| < U32 && Load(crc, d, File(crc, kvs, flats)).Some?
    ensures var s, body := File(crc, kvs, flats), |Covered(kvs, flats)|;
            && At(s, 16, EncodeKvs(kvs, flats)) && 16 + |EncodeKvs(kvs, flats)| <= body
            && ReadKvs(d, s, body, 16, |kvs|).Some?
            && ReadKvs(d, s, body, 16, |kvs|).value.v == Load(crc, d, s).value
  {
    hide Be, FromBe, At, EncodeKvs, ReadKvs, ReadDbs, Covered, File, ReadInt;
    var s, body := File(crc, kvs, flats), |Covered(kvs, flats)|;
    FileParts(crc, kvs, flats);
    OneDbOnly(d, s, body, |kvs|);
  }

  lemma OneDbOnly(d: Doubles, s: Bytes, body: nat, count: nat)
    requires |s| >= 16 && ReadInt(s, 12, 4) == Some(Got(count, 16)) && ReadDbs(d, s, body, 12, 1).Some?
    ensures ReadKvs(d, s, body, 16, count).Some?
    ensures ReadKvs(d, s, body, 16, count).value.v == ReadDbs(d, s, body, 12, 1).value.v
  {
    hide ReadKvs, ReadInt;
    var kvs := ReadKvs(d, s, body, 16, count);
    if kvs.Some? {
      assert ReadDbs(d, s, body, kvs.value.next, 0) == Some(Got([], kvs.value.next));
      assert kvs.value.v + [] == kvs.value.v;
    }
  }

  /** One record that a file holds and does not give back: a key of 0xFE000000 bytes without a deadline. */
  lemma LongKeyMisread(crc: Bytes -> nat, d: Doubles) returns (kv: Kv, flat: seq<Bytes>)
    ensures AllStorable(d, [kv], [flat]) && kv.expire == -1 && |kv.key| == 0xFE00_0000
    ensures Load(crc, d, File(crc, [kv], [flat])) != Some([kv])
  {
    kv, flat := Kv(seq(0xFE00_0000, _ => 0), Text([]), -1), [[]];
    assert Storable(d, kv.value, flat);
    assert LooksTimed([kv][0]);
    hide Load, File, Storable;
    FileRoundTripIff(crc, d, [kv], [flat]);
  }

  lemma HeadSize(count: nat)
    ensures |Head(count)| == 16
  {
  }

  // ---- What the loader puts into the store ----

  /** One loaded record: a key past its deadline is skipped, and so is an empty one. */
  function LoadOne(m: TimedMap, kv: Kv, now: int): TimedMap {
    if kv.key == [] then m
    else if kv.expire <= 0 then After(m, now, Set(kv.key, kv.value))
    else if kv.expire - now > 0 then After(m, now, SetWithExpire(kv.key, kv.value, kv.expire - now))
    else m
  }

  function LoadedOnto(m: TimedMap, kvs: seq<Kv>, now: int): TimedMap {
    if kvs == [] then m else LoadOne(LoadedOnto(m, kvs[..|kvs| - 1], now), kvs[|kvs| - 1], now)
  }

  /** The records loaded into an empty store. */
  function LoadedMap(kvs: seq<Kv>, now: int): TimedMap {
    LoadedOnto(map[], kvs, now)
  }

  function EntryOf(kv: Kv): Entry {
    Entry(kv.value, if kv.expire > 0 then Some(kv.expire) else None)
  }

  /** The timed map a list of records stands for. */
  function KvMap(kvs: seq<Kv>): TimedMap {
    if kvs == [] then map[] else KvMap(kvs[..|kvs| - 1])[kvs[|kvs| - 1].key := EntryOf(kvs[|kvs| - 1])]
  }

  lemma {:induction false} KvMapSize(kvs: seq<Kv>)
    ensures |KvMap(kvs)| <= |kvs|
  {
    if kvs != [] {
      var before, k := kvs[..|kvs| - 1], kvs[|kvs| - 1].key;
      KvMapSize(before);
      assert KvMap(kvs).Keys == KvMap(before).Keys + {k};
      assert |KvMap(kvs)| == |KvMap(kvs).Keys| && |KvMap(before)| == |KvMap(before).Keys|;
    }
  }

  /** `kvs` lists `m`, each key once. */
  predicate ListsMap(kvs: seq<Kv>, m: TimedMap) {
    KvMap(kvs) == m && |kvs| == |m| && forall i | 0 <= i < |kvs| :: kvs[i].key != [] && kvs[i].expire <= INT64_MAX
  }

  lemma LastIsNew(kvs: seq<Kv>, m: TimedMap)
    requires ListsMap(kvs, m) && kvs != []
    ensures ListsMap(kvs[..|kvs| - 1], KvMap(kvs[..|kvs| - 1])) && kvs[|kvs| - 1].key !in KvMap(kvs[..|kvs| - 1])
  {
    var before, k := kvs[..|kvs| - 1], kvs[|kvs| - 1].key;
    KvMapSize(before);
    assert KvMap(kvs).Keys == KvMap(before).Keys + {k};
    assert |KvMap(kvs)| == |KvMap(kvs).Keys| && |KvMap(before)| == |KvMap(before).Keys|;
    assert k in KvMap(before) ==> KvMap(kvs).Keys == KvMap(before).Keys;
  }

  /** Loading a listing gives the live part of the map, deadlines kept to the millisecond. */
  lemma {:induction false} LoadedIsLive(kvs: seq<Kv>, m: TimedMap, now: int)
    requires ListsMap(kvs, m) && 0 <= now
    ensures LoadedMap(kvs, now) == LiveAt(m, now)
    decreases |kvs|
  {
    if kvs != [] {
      var before, kv := kvs[..|kvs| - 1], kvs[|kvs| - 1];
      LastIsNew(kvs, m);
      LoadedIsLive(before, KvMap(before), now);
      OneLoaded(KvMap(before), kv, now);
    }
  }

  lemma OneLoaded(m: TimedMap, kv: Kv, now: int)
    requires kv.key != [] && kv.key !in m && kv.expire <= INT64_MAX && 0 <= now
    ensures LoadOne(LiveAt(m, now), kv, now) == LiveAt(m[kv.key := EntryOf(kv)], now)
  {
  }

  /**
   * Saving a data set and loading it at any later time gives back exactly its
   * keys, values and absolute deadlines, minus what has expired by then.
   */
  lemma SaveThenLoad(crc: Bytes -> nat, d: Doubles, m: TimedMap, kvs: seq<Kv>, flats: seq<seq<Bytes>>, now: int)
    requires ListsMap(kvs, m) && AllSavable(d, kvs, flats) && |kvs| < U32 && 0 <= now
    ensures Load(crc, d, File(crc, kvs, flats)) == Some(kvs)
    ensures LoadedMap(kvs, now) == LiveAt(m, now)
  {
    FileRoundTrip(crc, d, kvs, flats);
    LoadedIsLive(kvs, m, now);
  }
}
