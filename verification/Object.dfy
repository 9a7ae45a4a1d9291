/** Cached values and the payload that carries them between nodes. */
module Objects {
  import opened Wrappers
  import opened Bytes
  import opened BusArgs
  import opened RespCodec

  const STRING_TAG: Bytes := [83, 84, 82, 73, 78, 71]
  const LIST_TAG: Bytes := [76, 73, 83, 84]
  const HASH_TAG: Bytes := [72, 65, 83, 72]
  const SET_TAG: Bytes := [83, 69, 84]
  const ZSET_TAG: Bytes := [90, 83, 69, 84]

  datatype Object =
    | Text(text: Bytes)
    | List(items: seq<Bytes>)
    | Hash(fields: map<Bytes, Bytes>)
    | Members(members: set<Bytes>)
    | Ranked(scores: map<Bytes, real>)

  /** How scores are printed and read back; both are parameters of the model. */
  datatype Doubles = Doubles(show: real -> Bytes, parse: Bytes -> Option<real>)

  function Size(o: Object): nat {
    match o
    case Text(_) => 1
    case List(items) => |items|
    case Hash(fields) => |fields|
    case Members(members) => |members|
    case Ranked(scores) => |scores|
  }

  function Tag(o: Object): Bytes {
    match o
    case Text(_) => STRING_TAG
    case List(_) => LIST_TAG
    case Hash(_) => HASH_TAG
    case Members(_) => SET_TAG
    case Ranked(_) => ZSET_TAG
  }

  // ---- Writing ----

  /** The map a flat listing key, value, key, value builds up; later entries win. */
  function FieldsOf(flat: seq<Bytes>): map<Bytes, Bytes> {
    if |flat| < 2 then map[] else FieldsOf(flat[..|flat| - 2])[flat[|flat| - 2] := flat[|flat| - 1]]
  }

  function MembersOf(flat: seq<Bytes>): set<Bytes> {
    set m | m in flat
  }

  function Printed(d: Doubles, scores: map<Bytes, real>): map<Bytes, Bytes> {
    map m | m in scores :: d.show(scores[m])
  }

  /** `flat` lists the contents of `o` once each, in whatever order its container iterates. */
  predicate Lists(d: Doubles, o: Object, flat: seq<Bytes>) {
    match o
    case Text(text) => flat == [text]
    case List(items) => flat == items
    case Hash(fields) => |flat| == 2 * |fields| && FieldsOf(flat) == fields
    case Members(members) => |flat| == |members| && MembersOf(flat) == members
    case Ranked(scores) => |flat| == 2 * |scores| && FieldsOf(flat) == Printed(d, scores)
  }

  function Records(o: Object, flat: seq<Bytes>): seq<Bytes> {
    if o.Text? then flat else [Decimal(Size(o))] + flat
  }

  /** `serialize`, for one iteration order. */
  function Payload(o: Object, flat: seq<Bytes>): Bytes {
    Tag(o) + [LF] + EncodeEach(Records(o, flat))
  }

  // ---- Reading ----

  /** `from_chars` on the whole text. */
  function ParseUnsigned(s: Bytes): (r: Option<nat>)
    ensures r.Some? ==> r.value < UINT64_LIMIT
  {
    if s == [] || !(forall b | b in s :: IsDigit(b)) || Value(s) >= UINT64_LIMIT then None else Some(Value(s))
  }

  datatype Record = Record(payload: Bytes, next: nat)

  /** `read_record`: a length, a newline and that many bytes. */
  function ReadRecord(s: Bytes, pos: nat): (r: Option<Record>)
    requires pos <= |s|
    ensures r.Some? ==> pos < r.value.next <= |s|
  {
    match FindLf(s, pos)
    case None => None
    case Some(e) =>
      match ParseUnsigned(s[pos..e])
      case None => None
      case Some(n) => if n > |s| - (e + 1) then None else Some(Record(s[e + 1..e + 1 + n], e + 1 + n))
  }

  datatype Run = Run(items: seq<Bytes>, next: nat)

  function ReadRecords(s: Bytes, pos: nat, n: nat): (r: Option<Run>)
    requires pos <= |s|
    ensures r.Some? ==> |r.value.items| == n && pos <= r.value.next <= |s|
    decreases n
  {
    if n == 0 then Some(Run([], pos))
    else
      match ReadRecord(s, pos)
      case None => None
      case Some(first) =>
        var more := ReadRecords(s, first.next, n - 1);
        if more.None? then None else Some(Run([first.payload] + more.value.items, more.value.next))
  }

  /** Exactly `n` records up to the end of the payload. */
  function ReadExactly(s: Bytes, pos: nat, n: nat): (r: Option<seq<Bytes>>)
    requires pos <= |s|
    ensures r.Some? ==> |r.value| == n
  {
    var run := ReadRecords(s, pos, n);
    if run.None? || run.value.next != |s| then None else Some(run.value.items)
  }

  datatype Count = Count(n: nat, next: nat)

  function ReadCount(s: Bytes, pos: nat): (r: Option<Count>)
    requires pos <= |s|
    ensures r.Some? ==> pos < r.value.next <= |s|
  {
    var head := ReadRecord(s, pos);
    if head.None? then None
    else
      var n := ParseUnsigned(head.value.payload);
      if n.None? then None else Some(Count(n.value, head.value.next))
  }

  /** The scores of a flat listing, unless one does not parse. */
  function ScoresOf(d: Doubles, flat: seq<Bytes>): Option<map<Bytes, real>> {
    if |flat| < 2 then Some(map[])
    else
      var before := ScoresOf(d, flat[..|flat| - 2]);
      var score := d.parse(flat[|flat| - 1]);
      if before.None? || score.None? then None else Some(before.value[flat[|flat| - 2] := score.value])
  }

  /** What the adders build out of the records read; nothing added leaves the empty string. */
  function Build(d: Doubles, tag: Bytes, flat: seq<Bytes>): Option<Object> {
    if flat == [] then Some(Text([]))
    else if tag == LIST_TAG then Some(List(flat))
    else if tag == HASH_TAG then Some(Hash(FieldsOf(flat)))
    else if tag == SET_TAG then Some(Members(MembersOf(flat)))
    else
      match ScoresOf(d, flat)
      case None => None
      case Some(scores) => Some(Ranked(scores))
  }

  /** `deserialize`. */
  function Decode(d: Doubles, s: Bytes): Option<Object> {
    match FindLf(s, 0)
    case None => None
    case Some(e) =>
      var tag := s[..e];
      if tag == STRING_TAG then
        var one := ReadExactly(s, e + 1, 1);
        if one.None? then None else Some(Text(one.value[0]))
      else if tag !in [LIST_TAG, HASH_TAG, SET_TAG, ZSET_TAG] then None
      else
        match ReadCount(s, e + 1)
        case None => None
        case Some(count) =>
          var each := if tag == HASH_TAG || tag == ZSET_TAG then 2 else 1;
          var flat := ReadExactly(s, count.next, each * count.n);
          if flat.None? then None else Build(d, tag, flat.value)
  }

  /** The elements a LIST payload announces; the reader reserves room for them before it reads any. */
  function Reserved(s: Bytes): nat {
    match FindLf(s, 0)
    case None => 0
    case Some(e) =>
      if s[..e] != LIST_TAG || ReadCount(s, e + 1).None? then 0 else ReadCount(s, e + 1).value.n
  }

  // ---- Round trip ----

  lemma UnsignedDecimal(n: nat)
    requires n < UINT64_LIMIT
    ensures ParseUnsigned(Decimal(n)) == Some(n)
  {
    DecimalValue(n);
  }

  lemma DigitsUpTo(s: Bytes, pos: nat, e: nat, digits: Bytes)
    requires pos <= e < |s| && s[pos..e] == digits && s[e] == LF && forall b | b in digits :: IsDigit(b)
    ensures FindLf(s, pos) == Some(e)
  {
    assert forall k | pos <= k < e :: s[k] == digits[k - pos] && digits[k - pos] in digits;
  }

  lemma RecordIs(s: Bytes, pos: nat, x: Bytes)
    requires |x| < UINT64_LIMIT && At(s, pos, EncodeField(|x|) + x)
    ensures ReadRecord(s, pos) == Some(Record(x, pos + |EncodeField(|x|)| + |x|))
  {
    hide ParseUnsigned, Decimal, FindLf, At;
    var digits := Decimal(|x|);
    var e := pos + |digits|;
    assert EncodeField(|x|) + x == digits + ([LF] + x);
    AtSplit(s, pos, digits, [LF] + x);
    AtSplit(s, e, [LF], x);
    AtMeans(s, pos, digits);
    AtMeans(s, e, [LF]);
    AtMeans(s, e + 1, x);
    DigitsUpTo(s, pos, e, digits);
    UnsignedDecimal(|x|);
  }

  predicate AllShort(items: seq<Bytes>) {
    forall x | x in items :: |x| < UINT64_LIMIT
  }

  lemma FirstEncoded(items: seq<Bytes>)
    ensures items == [] ==> EncodeEach(items) == []
    ensures items != [] ==> EncodeEach(items) == EncodeField(|items[0]|) + items[0] + EncodeEach(items[1..])
    ensures items != [] && AllShort(items) ==> |items[0]| < UINT64_LIMIT && AllShort(items[1..])
  {
    hide EncodeField;
  }

  lemma {:induction false} RecordsAre(s: Bytes, pos: nat, items: seq<Bytes>)
    requires pos <= |s| && At(s, pos, EncodeEach(items)) && AllShort(items)
    ensures ReadRecords(s, pos, |items|) == Some(Run(items, pos + |EncodeEach(items)|))
    decreases |items|
  {
    hide ReadRecord, EncodeField, At, AllShort, EncodeEach;
    FirstEncoded(items);
    if items != [] {
      var head, rest := EncodeField(|items[0]|) + items[0], items[1..];
      AtSplit(s, pos, head, EncodeEach(rest));
      AtMeans(s, pos, head);
      RecordIs(s, pos, items[0]);
      RecordsAre(s, pos + |head|, rest);
      assert [items[0]] + rest == items;
    }
  }

  lemma TagFound(tag: Bytes, body: Bytes)
    requires LF !in tag
    ensures FindLf(tag + [LF] + body, 0) == Some(|tag|)
    ensures (tag + [LF] + body)[..|tag|] == tag
  {
    var s := tag + [LF] + body;
    assert s[|tag|] == LF;
    assert forall k | 0 <= k < |tag| :: s[k] == tag[k] && tag[k] in tag;
  }

  lemma {:induction false} ScoresPrinted(d: Doubles, flat: seq<Bytes>, scores: map<Bytes, real>)
    requires FieldsOf(flat) == Printed(d, scores) && |flat| == 2 * |scores|
    requires forall m | m in scores :: d.parse(d.show(scores[m])) == Some(scores[m])
    ensures ScoresOf(d, flat) == Some(scores)
    decreases |flat|
  {
    if scores == map[] {
      assert flat == [];
    } else {
      var m, text, before := flat[|flat| - 2], flat[|flat| - 1], flat[..|flat| - 2];
      assert m in FieldsOf(flat) && text == d.show(scores[m]);
      var fewer := scores - {m};
      assert fewer.Keys == scores.Keys - {m};
      FewerFields(before, m, text, scores.Keys);
      assert FieldsOf(flat) == FieldsOf(before)[m := text];
      assert FieldsOf(before) == FieldsOf(flat) - {m} == Printed(d, fewer);
      ScoresPrinted(d, before, fewer);
      assert fewer[m := scores[m]] == scores;
    }
  }

  lemma {:induction false} FieldsBound(flat: seq<Bytes>)
    ensures 2 * |FieldsOf(flat)| <= |flat|
  {
    if |flat| >= 2 {
      var before, m := flat[..|flat| - 2], flat[|flat| - 2];
      FieldsBound(before);
      assert FieldsOf(flat).Keys == FieldsOf(before).Keys + {m};
    }
  }

  /** When each entry of a listing counts, the last key is new. */
  lemma FewerFields(before: seq<Bytes>, m: Bytes, text: Bytes, keys: set<Bytes>)
    requires FieldsOf(before)[m := text].Keys == keys && |before| + 2 == 2 * |keys|
    ensures m !in FieldsOf(before)
  {
    FieldsBound(before);
    assert keys == FieldsOf(before).Keys + {m};
    assert m in FieldsOf(before) ==> keys == FieldsOf(before).Keys;
  }

  ghost predicate Printable(d: Doubles, o: Object) {
    o.Ranked? ==> forall m | m in o.scores :: d.parse(d.show(o.scores[m])) == Some(o.scores[m])
  }

  /** The container is rebuilt from any listing of it; an empty one becomes the empty string. */
  lemma Rebuilt(d: Doubles, o: Object, flat: seq<Bytes>)
    requires !o.Text? && Lists(d, o, flat) && Printable(d, o)
    ensures Build(d, Tag(o), flat) == Some(if Size(o) == 0 then Text([]) else o)
  {
    if o.Ranked? {
      ScoresPrinted(d, flat, o.scores);
    }
    assert flat == [] <==> Size(o) == 0;
  }

  /**
   * Whatever order the containers iterate in, decoding a payload gives back an
   * equal object: every string, and every container that is not empty. An
   * empty container comes back as the empty string.
   */
  lemma PayloadRoundTrip(d: Doubles, o: Object, flat: seq<Bytes>)
    requires Lists(d, o, flat) && Printable(d, o) && AllShort(flat) && Size(o) < UINT64_LIMIT
    ensures Decode(d, Payload(o, flat)) == Some(if Size(o) == 0 then Text([]) else o)
    ensures Reserved(Payload(o, flat)) == if o.List? then Size(o) else 0
  {
    hide ReadRecords, ReadRecord, EncodeEach, FindLf, ParseUnsigned, Build, FieldsOf, ScoresOf, Decimal, At;
    var s, tag, records := Payload(o, flat), Tag(o), Records(o, flat);
    TagFound(tag, EncodeEach(records));
    var start := |tag| + 1;
    BodyAt(tag, records);
    if o.Text? {
      RecordsAre(s, start, records);
    } else {
      CountThenItems(s, start, Size(o), flat);
      Rebuilt(d, o, flat);
    }
  }

  lemma BodyAt(tag: Bytes, records: seq<Bytes>)
    ensures At(tag + [LF] + EncodeEach(records), |tag| + 1, EncodeEach(records))
  {
  }

  lemma CountThenItems(s: Bytes, start: nat, n: nat, flat: seq<Bytes>)
    requires n < UINT64_LIMIT && AllShort(flat)
    requires At(s, start, EncodeEach([Decimal(n)] + flat)) && |s| == start + |EncodeEach([Decimal(n)] + flat)|
    ensures ReadCount(s, start).Some? && ReadCount(s, start).value.n == n
    ensures ReadExactly(s, ReadCount(s, start).value.next, |flat|) == Some(flat)
  {
    hide ReadRecords, ReadRecord, ParseUnsigned, EncodeField, At;
    var digits := Decimal(n);
    var head := EncodeField(|digits|) + digits;
    assert ([digits] + flat)[1..] == flat;
    assert EncodeEach([digits] + flat) == head + EncodeEach(flat);
    AtSplit(s, start, head, EncodeEach(flat));
    ShortDecimal(n);
    RecordIs(s, start, digits);
    UnsignedDecimal(n);
    RecordsAre(s, start + |head|, flat);
  }

  lemma {:induction false} ShortDecimal(n: nat)
    ensures |Decimal(n)| <= 1 + n / 10
  {
    if n >= 10 {
      ShortDecimal(n / 10);
    }
  }
}
