/** The object itself: a type tag over containers that the adders change in place. */
module CacheObjects {
  import opened Wrappers
  import opened Bytes
  import opened BusArgs
  import opened Objects

  datatype Kind = StringKind | ListKind | HashKind | SetKind | ZSetKind

  /** `before` and then whatever `rest` reads. */
  ghost function Prepend(before: seq<Bytes>, rest: Option<Run>): Option<Run> {
    if rest.None? then None else Some(Run(before + rest.value.items, rest.value.next))
  }

  lemma PrependOne(s: Bytes, pos: nat, n: nat, before: seq<Bytes>)
    requires pos <= |s| && n > 0
    ensures ReadRecord(s, pos).None? ==> Prepend(before, ReadRecords(s, pos, n)) == None
    ensures ReadRecord(s, pos).Some? ==>
              var first := ReadRecord(s, pos).value;
              Prepend(before, ReadRecords(s, pos, n)) == Prepend(before + [first.payload], ReadRecords(s, first.next, n - 1))
  {
    hide ReadRecord;
    if ReadRecord(s, pos).Some? {
      var first := ReadRecord(s, pos).value;
      var more := ReadRecords(s, first.next, n - 1);
      assert more.Some? ==> before + ([first.payload] + more.value.items) == before + [first.payload] + more.value.items;
    }
  }

  lemma PrependNothing(rest: Option<Run>)
    ensures Prepend([], rest) == rest
  {
    assert rest.Some? ==> [] + rest.value.items == rest.value.items;
  }

  /** One more key and value at the end of a listing. */
  lemma OneMorePair(d: Doubles, flat: seq<Bytes>, key: Bytes, value: Bytes)
    ensures FieldsOf(flat + [key] + [value]) == FieldsOf(flat)[key := value]
    ensures ScoresOf(d, flat + [key] + [value]) ==
            if ScoresOf(d, flat).None? || d.parse(value).None? then None
            else Some(ScoresOf(d, flat).value[key := d.parse(value).value])
  {
    var longer := flat + [key] + [value];
    assert longer[..|longer| - 2] == flat && longer[|longer| - 2] == key && longer[|longer| - 1] == value;
  }

  /** A score that does not parse spoils every longer listing. */
  lemma {:induction false} BadScoreStays(d: Doubles, flat: seq<Bytes>, more: seq<Bytes>)
    requires ScoresOf(d, flat).None? && |more| % 2 == 0
    ensures ScoresOf(d, flat + more).None?
    decreases |more|
  {
    if more == [] {
      assert flat + more == flat;
    } else {
      var fewer := more[..|more| - 2];
      BadScoreStays(d, flat, fewer);
      assert (flat + more)[..|flat + more| - 2] == flat + fewer;
    }
  }

  /** `append_record`. */
  method AppendRecord(out: Bytes, x: Bytes) returns (longer: Bytes)
    ensures longer == out + (EncodeField(|x|) + x)
  {
    longer := out + EncodeField(|x|);
    longer := longer + x;
  }

  lemma NothingEncoded()
    ensures EncodeEach([]) == []
  {
  }

  lemma {:induction false} OneMoreRecord(items: seq<Bytes>, x: Bytes)
    ensures EncodeEach(items + [x]) == EncodeEach(items) + (EncodeField(|x|) + x)
  {
    hide EncodeField;
    if items == [] {
      assert items + [x] == [x] && [x][1..] == [];
      assert EncodeEach([x]) == EncodeField(|x|) + x + EncodeEach([]);
    } else {
      assert (items + [x])[1..] == items[1..] + [x];
      OneMoreRecord(items[1..], x);
      var head := EncodeField(|items[0]|) + items[0];
      assert EncodeEach(items + [x]) == head + EncodeEach(items[1..] + [x]);
    }
  }

  lemma TextPayload(text: Bytes)
    ensures Payload(Text(text), [text]) == STRING_TAG + [LF] + ([] + (EncodeField(|text|) + text))
  {
    hide EncodeField, Decimal;
    OneMoreRecord([], text);
    assert [] + [text] == [text];
  }

  lemma ContainerPayload(o: Object, flat: seq<Bytes>)
    requires !o.Text?
    ensures var digits := Decimal(Size(o));
            Payload(o, flat) == Tag(o) + [LF] + ([] + (EncodeField(|digits|) + digits) + EncodeEach(flat))
  {
    hide EncodeField, Decimal, Tag, Size;
    var digits := Decimal(Size(o));
    assert ([digits] + flat)[1..] == flat;
    assert [] + (EncodeField(|digits|) + digits) == EncodeField(|digits|) + digits;
  }

  lemma ShownSize(d: Doubles, scores: map<Bytes, real>)
    ensures |Printed(d, scores)| == |scores|
  {
    assert Printed(d, scores).Keys == scores.Keys;
    assert |Printed(d, scores)| == |Printed(d, scores).Keys| && |scores| == |scores.Keys|;
  }

  /** An element of a sorted set: a member and its score. */
  type Scored = (Bytes, real)

  /** A member is in the set with one score only, though the set is ordered by score first. */
  predicate OneScoreEach(z: set<Scored>) {
    forall p, q | p in z && q in z && p.0 == q.0 :: p == q
  }

  function ScoreMap(z: set<Scored>): (m: map<Bytes, real>)
    requires OneScoreEach(z)
    ensures forall p | p in z :: p.0 in m && m[p.0] == p.1
    ensures forall k | k in m :: (k, m[k]) in z
  {
    map p | p in z :: p.0 := p.1
  }

  /** `after` is `z` with the one score for `member`. */
  ghost predicate Rescores(z: set<Scored>, after: set<Scored>, member: Bytes, score: real) {
    forall p :: p in after <==> p == (member, score) || (p in z && p.0 != member)
  }

  lemma OneScoreStill(z: set<Scored>, after: set<Scored>, member: Bytes, score: real)
    requires OneScoreEach(z) && Rescores(z, after, member, score)
    ensures OneScoreEach(after)
  {
  }

  lemma ScoreSet(z: set<Scored>, after: set<Scored>, member: Bytes, score: real)
    requires OneScoreEach(z) && OneScoreEach(after) && Rescores(z, after, member, score)
    ensures ScoreMap(after) == ScoreMap(z)[member := score]
  {
    hide OneScoreEach;
    assert (member, score) in after;
    var m, m' := ScoreMap(z)[member := score], ScoreMap(after);
    forall k
      ensures k in m <==> k in m'
      ensures k in m ==> m[k] == m'[k]
    {
      if k in m && k != member {
        assert (k, m[k]) in z && (k, m[k]) in after;
      }
      if k in m' {
        assert (k, m'[k]) in after;
      }
    }
  }

  /** Taking the member out with its old score and putting it in with the new one sets its score. */
  lemma Rescored(z: set<Scored>, member: Bytes, score: real, gone: set<Scored>)
    requires OneScoreEach(z)
    requires forall p :: p in gone <==> p in z && p.0 == member && p.1 != score
    ensures OneScoreEach(z - gone + {(member, score)})
    ensures ScoreMap(z - gone + {(member, score)}) == ScoreMap(z)[member := score]
    ensures (member, score) in z - gone <==> member in ScoreMap(z) && ScoreMap(z)[member] == score
  {
    var after := z - gone + {(member, score)};
    hide OneScoreEach;
    assert Rescores(z, after, member, score);
    OneScoreStill(z, after, member, score);
    ScoreSet(z, after, member, score);
  }

  /** What becomes of a payload; `NoRoom` is the exception of a `reserve` that asks for too much. */
  datatype Outcome = Decoded | Malformed | NoRoom

  class CacheObject {
    var kind: Kind
    var text: Bytes
    var list: seq<Bytes>
    var hash: map<Bytes, Bytes>
    var members: set<Bytes>
    var zset: set<Scored>

    function Value(): Object
      requires OneScoreEach(zset)
      reads this
    {
      match kind
      case StringKind => Text(text)
      case ListKind => List(list)
      case HashKind => Hash(hash)
      case SetKind => Members(members)
      case ZSetKind => Ranked(ScoreMap(zset))
    }

    /** The containers a string object could turn into are empty, and a member has one score. */
    ghost predicate Clean()
      reads this
    {
      OneScoreEach(zset) && (kind == StringKind ==> hash == map[] && members == {} && zset == {})
    }

    constructor ()
      ensures Clean() && Value() == Text([])
    {
      kind, text, list, hash, members, zset := StringKind, [], [], map[], {}, {};
    }

    /** A string becomes the first element of the list it is turned into, unless it is empty. */
    method ListPush(value: Bytes, front: bool) returns (ok: bool)
      requires Clean()
      modifies this
      ensures Clean() && (ok <==> old(Value()).List? || old(Value()).Text?)
      ensures !ok ==> Value() == old(Value())
      ensures ok ==> var had := match old(Value())
                                case Text(t) => if t == [] then [] else [t]
                                case List(items) => items
                                case _ => [];
                     Value() == List(if front then [value] + had else had + [value])
    {
      if kind != ListKind && kind != StringKind {
        return false;
      }
      if kind == StringKind {
        kind, list, text := ListKind, if text == [] then [] else [text], [];
      }
      list := if front then [value] + list else list + [value];
      return true;
    }

    method HashSet(field: Bytes, value: Bytes) returns (ok: bool)
      requires Clean()
      modifies this
      ensures Clean() && (ok <==> old(Value()).Hash? || old(Value()).Text?)
      ensures Value() == if !ok then old(Value())
                         else Hash((if old(Value()).Hash? then old(Value()).fields else map[])[field := value])
    {
      if kind != HashKind && kind != StringKind {
        return false;
      }
      text := if kind == StringKind then [] else text;
      kind, hash := HashKind, hash[field := value];
      return true;
    }

    method SetAdd(member: Bytes) returns (inserted: bool)
      requires Clean()
      modifies this
      ensures Clean()
      ensures var o := old(Value());
              Value() == (if o.Members? then Members(o.members + {member}) else if o.Text? then Members({member}) else o)
      ensures inserted <==> old(Value()).Text? || (old(Value()).Members? && member !in old(Value()).members)
    {
      if kind != SetKind && kind != StringKind {
        return false;
      }
      text := if kind == StringKind then [] else text;
      kind, inserted, members := SetKind, member !in members, members + {member};
    }

    method ZSetAdd(member: Bytes, score: real) returns (changed: bool)
      requires Clean()
      modifies this
      ensures Clean()
      ensures var o := old(Value());
              Value() == (if o.Ranked? then Ranked(o.scores[member := score])
                          else if o.Text? then Ranked(map[member := score]) else o)
      ensures changed <==> old(Value()).Text? ||
                           (old(Value()).Ranked? && !(member in old(Value()).scores && old(Value()).scores[member] == score))
    {
      if kind != ZSetKind && kind != StringKind {
        return false;
      }
      text := if kind == StringKind then [] else text;
      kind := ZSetKind;
      var found := FindOther(member, score);
      Rescored(zset, member, score, found);
      zset := zset - found;
      changed := (member, score) !in zset || found != {};
      zset := zset + {(member, score)};
    }

    /** The search through the set, which is not ordered by member: the element to take out, if any. */
    method FindOther(member: Bytes, score: real) returns (found: set<Scored>)
      requires OneScoreEach(zset)
      ensures forall p :: p in found <==> p in zset && p.0 == member && p.1 != score
    {
      found := {};
      var rest := zset;
      while rest != {}
        invariant rest <= zset && found == {}
        invariant forall p | p in zset && p !in rest :: p.0 != member
        decreases |rest|
      {
        var p :| p in rest;
        if p.0 == member {
          return if p.1 != score then {p} else {};
        }
        rest := rest - {p};
      }
    }

    /** The records of a hash, in the order the container happens to iterate. */
    method SerializePairs(pairs: map<Bytes, Bytes>) returns (records: Bytes, ghost flat: seq<Bytes>)
      ensures |flat| == 2 * |pairs| && FieldsOf(flat) == pairs && records == EncodeEach(flat)
    {
      hide EncodeEach, FieldsOf, ScoresOf, EncodeField;
      records, flat := [], [];
      EmptyListing();
      NothingEncoded();
      var rest := pairs.Keys;
      assert pairs - rest == map[];
      while rest != {}
        invariant rest <= pairs.Keys && FieldsOf(flat) == pairs - rest
        invariant |flat| == 2 * (|pairs| - |rest|) && records == EncodeEach(flat)
        decreases |rest|
      {
        var k :| k in rest;
        OneMorePair(Doubles(_ => [], _ => None), flat, k, pairs[k]);
        OneMoreRecord(flat, k);
        OneMoreRecord(flat + [k], pairs[k]);
        records := AppendRecord(records, k);
        records := AppendRecord(records, pairs[k]);
        flat := flat + [k] + [pairs[k]];
        assert (pairs - rest)[k := pairs[k]] == pairs - (rest - {k});
        rest := rest - {k};
      }
      assert pairs - rest == pairs;
    }

    method SerializeMembers(all: set<Bytes>) returns (records: Bytes, ghost flat: seq<Bytes>)
      ensures |flat| == |all| && MembersOf(flat) == all && records == EncodeEach(flat)
    {
      hide EncodeEach, EncodeField;
      records, flat := [], [];
      NothingEncoded();
      var rest := all;
      while rest != {}
        invariant rest <= all && MembersOf(flat) == all - rest
        invariant |flat| == |all| - |rest| && records == EncodeEach(flat)
        decreases |rest|
      {
        var m :| m in rest;
        assert MembersOf(flat + [m]) == MembersOf(flat) + {m};
        OneMoreRecord(flat, m);
        records := AppendRecord(records, m);
        flat := flat + [m];
        rest := rest - {m};
      }
    }

    /** `serialize`: the payload of this value for some iteration order. */
    method Serialize(d: Doubles) returns (payload: Bytes, ghost flat: seq<Bytes>)
      requires Clean()
      ensures Lists(d, Value(), flat) && payload == Payload(Value(), flat)
    {
      hide EncodeEach, EncodeField, FieldsOf, Payload, Decimal;
      var records: Bytes;
      var o := Value();
      if kind == StringKind {
        flat := [text];
        records := AppendRecord([], text);
        TextPayload(text);
        return STRING_TAG + [LF] + records, flat;
      }
      if kind == ListKind {
        flat := list;
        records := SerializeList(list);
      } else if kind == HashKind {
        records, flat := SerializePairs(hash);
      } else if kind == SetKind {
        records, flat := SerializeMembers(members);
      } else {
        ShownSize(d, ScoreMap(zset));
        records, flat := SerializePairs(Printed(d, ScoreMap(zset)));
      }
      var head := AppendRecord([], Decimal(Size(o)));
      ContainerPayload(o, flat);
      return Tag(o) + [LF] + (head + records), flat;
    }

    method SerializeList(items: seq<Bytes>) returns (records: Bytes)
      ensures records == EncodeEach(items)
    {
      hide EncodeEach, EncodeField;
      records := [];
      NothingEncoded();
      var i := 0;
      while i < |items|
        invariant 0 <= i <= |items| && records == EncodeEach(items[..i])
      {
        OneMoreRecord(items[..i], items[i]);
        assert items[..i + 1] == items[..i] + [items[i]];
        records := AppendRecord(records, items[i]);
        i := i + 1;
      }
      assert items[..i] == items;
    }

    method DeserializeList(s: Bytes, start: nat, count: nat) returns (ok: bool)
      requires start <= |s| && Clean() && Value() == Text([])
      modifies this
      ensures Clean()
      ensures ok <==> ReadExactly(s, start, count).Some?
      ensures ok ==> var flat := ReadExactly(s, start, count).value;
                     Value() == if flat == [] then Text([]) else List(flat)
    {
      hide ReadRecords, ReadRecord;
      var pos: nat, i: nat, elems: seq<Bytes> := start, 0, [];
      PrependNothing(ReadRecords(s, start, count));
      while i < count
        invariant i <= count && pos <= |s| && Clean() && Value() == Text([])
        invariant ReadRecords(s, start, count) == Prepend(elems, ReadRecords(s, pos, count - i))
      {
        PrependOne(s, pos, count - i, elems);
        var r := ReadRecord(s, pos);
        if r.None? {
          return false;
        }
        elems, pos, i := elems + [r.value.payload], r.value.next, i + 1;
      }
      NoMore(s, pos, elems);
      if pos != |s| {
        return false;
      }
      PushAll(elems);
      return true;
    }

    method PushAll(elems: seq<Bytes>)
      requires Clean() && Value() == Text([])
      modifies this
      ensures Clean() && Value() == if elems == [] then Text([]) else List(elems)
    {
      var i: nat := 0;
      while i < |elems|
        invariant i <= |elems| && Clean() && Value() == if i == 0 then Text([]) else List(elems[..i])
      {
        assert elems[..i + 1] == elems[..i] + [elems[i]];
        var pushed := ListPush(elems[i], false);
        i := i + 1;
      }
      assert elems[..i] == elems;
    }

    method DeserializeHash(s: Bytes, start: nat, count: nat) returns (ok: bool)
      requires start <= |s| && Clean() && Value() == Text([])
      modifies this
      ensures Clean()
      ensures ok <==> ReadExactly(s, start, 2 * count).Some?
      ensures ok ==> var flat := ReadExactly(s, start, 2 * count).value;
                     Value() == if flat == [] then Text([]) else Hash(FieldsOf(flat))
    {
      hide ReadRecords, ReadRecord, FieldsOf;
      var pos: nat, i: nat := start, 0;
      ghost var flat: seq<Bytes> := [];
      PrependNothing(ReadRecords(s, start, 2 * count));
      while i < count
        invariant i <= count && pos <= |s| && Clean() && |flat| == 2 * i
        invariant Value() == if flat == [] then Text([]) else Hash(FieldsOf(flat))
        invariant ReadRecords(s, start, 2 * count) == Prepend(flat, ReadRecords(s, pos, 2 * (count - i)))
      {
        PrependOne(s, pos, 2 * (count - i), flat);
        var field := ReadRecord(s, pos);
        if field.None? {
          return false;
        }
        PrependOne(s, field.value.next, 2 * (count - i) - 1, flat + [field.value.payload]);
        var value := ReadRecord(s, field.value.next);
        if value.None? {
          return false;
        }
        OneMorePair(Doubles(_ => [], _ => None), flat, field.value.payload, value.value.payload);
        EmptyListing();
        var set_ := HashSet(field.value.payload, value.value.payload);
        flat := flat + [field.value.payload] + [value.value.payload];
        pos, i := value.value.next, i + 1;
      }
      NoMore(s, pos, flat);
      return pos == |s|;
    }

    method DeserializeSet(s: Bytes, start: nat, count: nat) returns (ok: bool)
      requires start <= |s| && Clean() && Value() == Text([])
      modifies this
      ensures Clean()
      ensures ok <==> ReadExactly(s, start, count).Some?
      ensures ok ==> var flat := ReadExactly(s, start, count).value;
                     Value() == if flat == [] then Text([]) else Members(MembersOf(flat))
    {
      hide ReadRecords, ReadRecord;
      var pos: nat, i: nat := start, 0;
      ghost var flat: seq<Bytes> := [];
      PrependNothing(ReadRecords(s, start, count));
      while i < count
        invariant i <= count && pos <= |s| && Clean() && |flat| == i
        invariant Value() == if flat == [] then Text([]) else Members(MembersOf(flat))
        invariant ReadRecords(s, start, count) == Prepend(flat, ReadRecords(s, pos, count - i))
      {
        PrependOne(s, pos, count - i, flat);
        var r := ReadRecord(s, pos);
        if r.None? {
          return false;
        }
        assert MembersOf(flat + [r.value.payload]) == MembersOf(flat) + {r.value.payload};
        var inserted := SetAdd(r.value.payload);
        flat := flat + [r.value.payload];
        pos, i := r.value.next, i + 1;
      }
      NoMore(s, pos, flat);
      return pos == |s|;
    }

    method DeserializeZSet(d: Doubles, s: Bytes, start: nat, count: nat) returns (ok: bool)
      requires start <= |s| && Clean() && Value() == Text([])
      modifies this
      ensures Clean()
      ensures ok <==> ReadExactly(s, start, 2 * count).Some? && ScoresOf(d, ReadExactly(s, start, 2 * count).value).Some?
      ensures ok ==> var flat := ReadExactly(s, start, 2 * count).value;
                     Value() == if flat == [] then Text([]) else Ranked(ScoresOf(d, flat).value)
    {
      hide ReadRecords, ReadRecord, ScoresOf, FieldsOf, Prepend, OneScoreEach, ScoreMap;
      var pos: nat, i: nat := start, 0;
      ghost var flat: seq<Bytes> := [];
      PrependNothing(ReadRecords(s, start, 2 * count));
      NoScores(d);
      while i < count
        invariant i <= count && pos <= |s| && Clean() && |flat| == 2 * i
        invariant ScoresOf(d, flat).Some?
        invariant Value() == if flat == [] then Text([]) else Ranked(ScoresOf(d, flat).value)
        invariant ReadRecords(s, start, 2 * count) == Prepend(flat, ReadRecords(s, pos, 2 * (count - i)))
      {
        PrependOne(s, pos, 2 * (count - i), flat);
        var member := ReadRecord(s, pos);
        if member.None? {
          return false;
        }
        PrependOne(s, member.value.next, 2 * (count - i) - 1, flat + [member.value.payload]);
        var text := ReadRecord(s, member.value.next);
        if text.None? {
          return false;
        }
        OneMorePair(d, flat, member.value.payload, text.value.payload);
        ghost var longer := flat + [member.value.payload] + [text.value.payload];
        var score := d.parse(text.value.payload);
        if score.None? {
          SpoiledHere(d, s, start, 2 * count, longer, text.value.next, 2 * (count - i) - 2);
          return false;
        }
        var changed := ZSetAdd(member.value.payload, score.value);
        flat := longer;
        pos, i := text.value.next, i + 1;
      }
      NoMore(s, pos, flat);
      return pos == |s|;
    }

    /** `deserialize` on a new object: it accepts exactly what `Decode` accepts, and becomes that value. */
    method Deserialize(d: Doubles, room: nat, s: Bytes) returns (r: Outcome)
      requires Clean() && Value() == Text([])
      modifies this
      ensures Clean()
      ensures r == if Reserved(s) > room then NoRoom else if Decode(d, s).Some? then Decoded else Malformed
      ensures r == Decoded ==> Value() == Decode(d, s).value
    {
      hide ReadRecords, ReadRecord, ScoresOf, FieldsOf;
      var e := FindLf(s, 0);
      if e.None? {
        return Malformed;
      }
      var tag, pos := s[..e.value], e.value + 1;
      if tag == STRING_TAG {
        OneRecord(s, pos);
        var one := ReadRecord(s, pos);
        if one.None? {
          return Malformed;
        }
        kind, text := StringKind, one.value.payload;
        return if one.value.next == |s| then Decoded else Malformed;
      }
      if tag != LIST_TAG && tag != HASH_TAG && tag != SET_TAG && tag != ZSET_TAG {
        return Malformed;
      }
      var count := ReadCount(s, pos);
      if count.None? {
        return Malformed;
      }
      NoScores(d);
      var ok;
      if tag == LIST_TAG {
        if count.value.n > room {
          return NoRoom;
        }
        ok := DeserializeList(s, count.value.next, count.value.n);
      } else if tag == HASH_TAG {
        ok := DeserializeHash(s, count.value.next, count.value.n);
      } else if tag == SET_TAG {
        ok := DeserializeSet(s, count.value.next, count.value.n);
      } else {
        ok := DeserializeZSet(d, s, count.value.next, count.value.n);
      }
      r := if ok then Decoded else Malformed;
    }
  }

  lemma NoMore(s: Bytes, pos: nat, before: seq<Bytes>)
    requires pos <= |s|
    ensures Prepend(before, ReadRecords(s, pos, 0)) == Some(Run(before, pos))
  {
    assert before + [] == before;
  }

  lemma EmptyListing()
    ensures FieldsOf([]) == map[]
  {
  }

  lemma NoScores(d: Doubles)
    ensures ScoresOf(d, []) == Some(map[])
  {
  }

  lemma OneRecord(s: Bytes, pos: nat)
    requires pos <= |s|
    ensures ReadRecord(s, pos).None? ==> ReadRecords(s, pos, 1) == None
    ensures ReadRecord(s, pos).Some? ==>
              ReadRecords(s, pos, 1) == Some(Run([ReadRecord(s, pos).value.payload], ReadRecord(s, pos).value.next))
  {
    if ReadRecord(s, pos).Some? {
      var first := ReadRecord(s, pos).value;
      assert ReadRecords(s, first.next, 0) == Some(Run([], first.next));
      assert [first.payload] + [] == [first.payload];
    }
  }

  lemma SpoiledHere(d: Doubles, s: Bytes, start: nat, n: nat, before: seq<Bytes>, pos: nat, left: nat)
    requires start <= |s| && pos <= |s| && left % 2 == 0
    requires ReadRecords(s, start, n) == Prepend(before, ReadRecords(s, pos, left))
    requires ScoresOf(d, before).None?
    ensures ReadRecords(s, start, n).Some? ==> ScoresOf(d, ReadRecords(s, start, n).value.items).None?
  {
    var run, more := ReadRecords(s, start, n), ReadRecords(s, pos, left);
    if run.Some? {
      BadScoreStays(d, before, more.value.items);
      assert run.value.items == before + more.value.items;
    }
  }
}
