/** The RESTORE command, and the whole way of a value from one node's store to another's. */
module Restores {
  import opened Wrappers
  import opened Bytes
  import opened RespCodec
  import opened Streaming
  import opened BusLinks
  import opened BusCommands
  import opened Objects
  import opened CacheObjects
  import opened TimedMaps
  import opened Storages

  const RESTORE: Bytes := [82, 69, 83, 84, 79, 82, 69]
  const REPLACE: Bytes := [82, 69, 80, 76, 65, 67, 69]

  datatype RestoreReply = Restored | WrongArity | InvalidTtl | BusyKey | MalformedPayload | Thrown

  predicate Replaces(args: seq<Bytes>) {
    |args| > 4 && args[4] == REPLACE
  }

  /**
   * What RESTORE answers on the live map `m`, checks in the order the command
   * makes them; `room` is how many list elements can be reserved.
   */
  function RestoreAnswer(d: Doubles, room: nat, m: TimedMap, args: seq<Bytes>): RestoreReply {
    if |args| < 4 then WrongArity
    else if Stoll(args[2]).None? then InvalidTtl
    else if !Replaces(args) && args[1] in m then BusyKey
    else if Reserved(args[3]) > room then Thrown
    else if Decode(d, args[3]).None? then MalformedPayload
    else Restored
  }

  function AfterRestore(d: Doubles, room: nat, m: TimedMap, now: int, args: seq<Bytes>): TimedMap {
    if RestoreAnswer(d, room, m, args) == Restored
    then m[args[1] := Entry(Decode(d, args[3]).value, DeadlineAfter(now, Stoll(args[2]).value.value))]
    else m
  }

  /** When RESTORE gives each of its answers: the first check that fails decides. */
  predicate Explains(reply: RestoreReply, d: Doubles, room: nat, m: TimedMap, args: seq<Bytes>) {
    && (reply == WrongArity <==> |args| < 4)
    && (|args| >= 4 ==>
          var numeric := Stoll(args[2]).Some?;
          var free := args[1] !in m || (|args| > 4 && args[4] == [82, 69, 80, 76, 65, 67, 69]);
          var fits, decodes := Reserved(args[3]) <= room, Decode(d, args[3]).Some?;
          && (reply == InvalidTtl <==> !numeric)
          && (reply == BusyKey <==> numeric && !free)
          && (reply == Thrown <==> numeric && free && !fits)
          && (reply == MalformedPayload <==> numeric && free && fits && !decodes)
          && (reply == Restored <==> numeric && free && fits && decodes))
  }

  lemma OneAnswer(reply: RestoreReply, d: Doubles, room: nat, m: TimedMap, args: seq<Bytes>)
    requires Explains(reply, d, room, m, args)
    ensures reply == RestoreAnswer(d, room, m, args)
    ensures reply == Restored ==> |args| >= 4 && Stoll(args[2]).Some? && Decode(d, args[3]).Some?
  {
    hide Decode, Reserved, Stoll;
  }

  /** The answers once more, each with what a caller can check before the call. */
  lemma AnswerIff(d: Doubles, room: nat, m: TimedMap, key: Bytes, ttl: Bytes, payload: Bytes, more: seq<Bytes>)
    ensures var r := RestoreAnswer(d, room, m, [RESTORE, key, ttl, payload] + more);
            var busy := key in m && (more == [] || more[0] != [82, 69, 80, 76, 65, 67, 69]);
            && r != WrongArity
            && (r == InvalidTtl <==> Stoll(ttl).None?)
            && (r == BusyKey <==> Stoll(ttl).Some? && busy)
            && (r == Thrown <==> Stoll(ttl).Some? && !busy && Reserved(payload) > room)
            && (r == MalformedPayload <==> Stoll(ttl).Some? && !busy && Reserved(payload) <= room && Decode(d, payload).None?)
            && (r == Restored <==> Stoll(ttl).Some? && !busy && Reserved(payload) <= room && Decode(d, payload).Some?)
    ensures forall args | |args| < 4 :: RestoreAnswer(d, room, m, args) == WrongArity
  {
    hide Decode, Reserved, Stoll;
    var args := [RESTORE, key, ttl, payload] + more;
    assert args[1] == key && args[2] == ttl && args[3] == payload && (more != [] ==> args[4] == more[0]);
  }

  /** The payload read into a new object. */
  method FromPayload(d: Doubles, room: nat, s: Bytes) returns (r: CacheObjects.Outcome, o: Object)
    ensures r == if Reserved(s) > room then NoRoom else if Decode(d, s).Some? then Decoded else Malformed
    ensures r == Decoded ==> o == Decode(d, s).value
  {
    hide Decode, Reserved;
    var obj := new CacheObject();
    r := obj.Deserialize(d, room, s);
    o := obj.Value();
  }

  /** The last step: with a time to live only if one is given. */
  method Put(db: GlobalStorage, k: Bytes, value: Object, ttl: int, now: int) returns (ghost victims: set<Bytes>)
    requires db.Valid() && k != [] && 0 <= now < INT64_MAX
    modifies db
    ensures db.Valid() && MayLeave(old(db.Now()), db.maxEntries, victims)
    ensures db.Live(now) == (old(db.Live(now)) - victims)[k := Entry(value, if ttl <= 0 then None else Some(Soonest(now + ttl)))]
  {
    hide Sound, View, LiveAt, MayLeave, NewOnly, After, Soonest;
    if ttl > 0 {
      victims := db.SetWithExpire(k, value, ttl, now);
    } else {
      victims := db.Set(k, value, now);
    }
  }

  /** The checks of RESTORE, which read the store and change nothing. */
  method Judge(db: GlobalStorage, d: Doubles, room: nat, args: seq<Bytes>, now: int)
    returns (reply: RestoreReply, value: Object)
    requires db.Valid()
    ensures Explains(reply, d, room, db.Live(now), args)
    ensures reply == Restored ==> value == Decode(d, args[3]).value
  {
    hide Sound, View, LiveAt, Decode, Reserved, Stoll;
    value := Text([]);
    if |args| < 4 {
      return WrongArity, value;
    }
    if Stoll(args[2]).None? {
      return InvalidTtl, value;
    }
    if !(|args| > 4 && args[4] == REPLACE) {
      var there := db.Exist(args[1], now);
      if there {
        return BusyKey, value;
      }
    }
    var outcome;
    outcome, value := FromPayload(d, room, args[3]);
    reply := match outcome case NoRoom => Thrown case Malformed => MalformedPayload case Decoded => Restored;
  }

  /** RESTORE on the real store and a new object; a refusal leaves every key alone. */
  method Restore(db: GlobalStorage, d: Doubles, room: nat, args: seq<Bytes>, now: int)
    returns (reply: RestoreReply, ghost victims: set<Bytes>)
    requires db.Valid() && 0 <= now < INT64_MAX && (|args| >= 4 ==> args[1] != [])
    modifies db
    ensures db.Valid() && Explains(reply, d, room, old(db.Live(now)), args)
    ensures reply == RestoreAnswer(d, room, old(db.Live(now)), args)
    ensures reply == Restored ==>
              var m, ttl := old(db.Live(now)) - victims, Stoll(args[2]).value.value;
              db.Live(now) == m[args[1] := Entry(Decode(d, args[3]).value, if ttl <= 0 then None else Some(Soonest(now + ttl)))]
    ensures reply != Restored ==> db.Live(now) == old(db.Live(now)) && victims == {}
    ensures MayLeave(old(db.Now()), db.maxEntries, victims)
  {
    hide Sound, View, LiveAt, Decode, Reserved, MayLeave, Explains, Soonest, Stoll, RestoreAnswer;
    NobodyLeaves(db.Now(), db.maxEntries);
    victims := {};
    var value;
    reply, value := Judge(db, d, room, args, now);
    OneAnswer(reply, d, room, db.Live(now), args);
    if reply == Restored {
      victims := Put(db, args[1], value, Stoll(args[2]).value.value, now);
    }
  }

  // ---- From store to store ----

  function RestoreArgs(key: Bytes, ttl: int, payload: Bytes, replace: bool): seq<Bytes> {
    [RESTORE, key, Shown(ttl), payload] + (if replace then [REPLACE] else [])
  }

  /** The text a request travels as. */
  function RequestText(id: nat, args: seq<Bytes>): Bytes {
    EncodeTagged(REQUEST, id, EncodeArray(args))
  }

  /** A frame that carries one text. */
  function Carrier(kind: nat, tail: Bytes, text: Bytes): Frame {
    Frame(kind, tail, [text])
  }

  /** The bytes on the wire: what the receiving end makes of them, step by step. */
  ghost predicate Arrives(id: nat, args: seq<Bytes>, frame: Frame, rest: Bytes) {
    var read := NextFrame(EncodeFrame(frame) + rest);
    && read == Message(frame, FrameLength(frame))
    && |read.m.args| == 1
    && ParseTagged(read.m.args[0], REQUEST) == Some(Tagged(id, EncodeArray(args)))
    && ReadLine(EncodeArray(args)) == Line(args)
  }

  lemma RequestArrives(id: nat, args: seq<Bytes>, kind: nat, tail: Bytes, rest: Bytes)
    requires id < UINT64_LIMIT && Encodable(args) && Accepted(Carrier(kind, tail, RequestText(id, args)))
    ensures Arrives(id, args, Carrier(kind, tail, RequestText(id, args)), rest)
  {
    hide NextFrame, EncodeFrame, FrameLength, Accepted, ParseTagged, EncodeTagged, ReadLine, EncodeArray;
    FrameReadBack(Carrier(kind, tail, RequestText(id, args)), rest);
    TaggedRoundTrip(REQUEST, id, EncodeArray(args));
    LineRoundTrip(args);
  }

  /** The objects a payload carries unchanged: a string, or a container that is not empty. */
  predicate Portable(o: Object) {
    o.Text? || Size(o) > 0
  }

  /**
   * A value survives the whole way. Serialized in whatever order its container
   * iterates, encoded as RESTORE, tagged, framed, read from the stream with
   * anything behind it, parsed and decoded: the target, unless the key is taken
   * and not to be replaced, ends up with exactly the object sent and its
   * remaining time to live.
   */
  lemma ValueSurvives(d: Doubles, room: nat, o: Object, flat: seq<Bytes>, key: Bytes, ttl: int, replace: bool,
                      id: nat, kind: nat, tail: Bytes, rest: Bytes, m: TimedMap, now: int)
    requires Lists(d, o, flat) && Printable(d, o) && AllShort(flat) && Size(o) < UINT64_LIMIT && Portable(o)
    requires o.List? ==> Size(o) <= room
    requires INT64_MIN <= ttl <= INT64_MAX && id < UINT64_LIMIT
    requires Encodable(RestoreArgs(key, ttl, Payload(o, flat), replace))
    requires Accepted(Carrier(kind, tail, RequestText(id, RestoreArgs(key, ttl, Payload(o, flat), replace))))
    ensures var args := RestoreArgs(key, ttl, Payload(o, flat), replace);
            && Arrives(id, args, Carrier(kind, tail, RequestText(id, args)), rest)
            && RestoreAnswer(d, room, m, args) == (if key in m && !replace then BusyKey else Restored)
            && (replace || key !in m ==> AfterRestore(d, room, m, now, args) == m[key := Entry(o, DeadlineAfter(now, ttl))])
  {
    hide Arrives, Accepted, RequestText, Payload, Decode, Reserved, Lists, Stoll, Shown, Encodable, Printable;
    var args := RestoreArgs(key, ttl, Payload(o, flat), replace);
    RequestArrives(id, args, kind, tail, rest);
    PayloadRoundTrip(d, o, flat);
    StollShown(ttl);
    assert args[1] == key && args[2] == Shown(ttl) && args[3] == Payload(o, flat);
    assert Replaces(args) <==> replace;
  }
}
