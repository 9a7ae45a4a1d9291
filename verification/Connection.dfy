/**
 * `Connection::handle_read`: bytes arrive in chunks, complete commands are
 * delivered.
 */
module Connections {
  import opened Wrappers
  import opened Bytes
  import opened Resp
  import opened RespCodec
  import opened Streaming

  /** What `RespParser::parse` returns: the values, the read position, and the error that stopped it. */
  datatype Batch = Batch(values: seq<RespValue>, end: nat, error: Option<ParseError>)

  /** `RespParser::parse` on the unread bytes `s[pos..]`. */
  function ParseAll(s: Bytes, pos: nat): (b: Batch)
    requires pos <= |s|
    ensures pos <= b.end <= |s|
    decreases |s| - pos
  {
    if CommandEnd(s[pos..]).None? then Batch([], pos, None)
    else
      match ParseOne(s[pos..], 0, 0)
      case Fail(e, n) => Batch([], pos + n, Some(e))
      case Ok(v, n) =>
        var more := ParseAll(s, pos + n);
        more.(values := [v] + more.values)
  }

  /** One turn of that loop, as a stream decoder. */
  function NextCommand(s: Bytes): Outcome<RespValue> {
    if CommandEnd(s).None? then Incomplete
    else
      match ParseOne(s, 0, 0)
      case Fail(_, _) => Broken
      case Ok(v, n) => Message(v, n)
  }

  /** `protocolError` is the parser's flag, which stays up once raised. */
  datatype Connection = Connection(unread: Bytes, delivered: seq<RespValue>, errors: seq<ParseError>,
                                   protocolError: bool, closed: bool)

  /** A read of `chunk`; `limit` is the input high-water mark, 0 for none. */
  function HandleRead(c: Connection, chunk: Bytes, limit: nat): Connection {
    var buffered := c.unread + chunk;
    if c.closed then c
    else if limit > 0 && |buffered| > limit then c.(unread := buffered, closed := true)
    else if c.protocolError || ProtocolError(buffered) then
      c.(unread := buffered, protocolError := true, closed := true)
    else
      var batch := ParseAll(buffered, 0);
      c.(unread := buffered[batch.end..],
         delivered := c.delivered + batch.values,
         protocolError := batch.error == Some(NestingTooDeep),
         errors := if batch.error.Some? then c.errors + [batch.error.value] else c.errors)
  }

  function HandleReads(c: Connection, chunks: seq<Bytes>, limit: nat): Connection {
    if chunks == [] then c
    else HandleRead(HandleReads(c, chunks[..|chunks| - 1], limit), chunks[|chunks| - 1], limit)
  }

  /** `as_string`: the text of a string value, empty for any other. */
  function AsString(v: RespValue): Bytes {
    match v
    case SimpleString(text) => text
    case Error(text) => text
    case Bulk(text) => text
    case _ => []
  }

  /** The argument list of a command value. */
  function Texts(v: RespValue): seq<Bytes> {
    if v.Array? then seq(|v.elements|, i requires 0 <= i < |v.elements| => AsString(v.elements[i])) else []
  }

  function EncodeCommand(v: RespValue): Bytes {
    EncodeArray(Texts(v))
  }

  lemma {:induction false} BulksAt(args: seq<Bytes>, i: nat)
    requires i < |args|
    ensures |Bulks(args)| == |args| && Bulks(args)[i] == Bulk(args[i])
  {
    if i > 0 {
      BulksAt(args[1..], i - 1);
    } else if |args| > 1 {
      BulksAt(args[1..], 0);
    }
  }

  lemma TextsOfCommand(args: seq<Bytes>)
    ensures Texts(Command(args)) == args
  {
    if args != [] {
      BulksAt(args, 0);
    }
    forall i | 0 <= i < |args|
      ensures Texts(Command(args))[i] == args[i]
    {
      BulksAt(args, i);
    }
  }

  lemma CommandFramed(args: seq<Bytes>)
    requires Encodable(args)
    ensures Framed(NextCommand, EncodeCommand, Command(args))
  {
    TextsOfCommand(args);
    hide CommandEnd, ParseOne, EncodeArray, Command, Texts;
    var v := Command(args);
    forall rest
      ensures NextCommand(EncodeCommand(v) + rest) == Message(v, |EncodeCommand(v)|)
    {
      CommandIs(args, rest);
    }
    forall k | 0 <= k < |EncodeCommand(v)|
      ensures NextCommand(EncodeCommand(v)[..k]) == Incomplete
    {
      CommandCut(args, k);
    }
    ArrayShape(args);
  }

  /** As long as nothing breaks, the parse loop is the generic receive loop. */
  lemma {:induction false} ParseAllDrains(s: Bytes, pos: nat, delivered: seq<RespValue>)
    requires pos <= |s|
    requires !Drain(NextCommand, Receiver(s[pos..], delivered, false)).broken
    ensures var b := ParseAll(s, pos);
            b.error == None && Drain(NextCommand, Receiver(s[pos..], delivered, false)) ==
                               Receiver(s[b.end..], delivered + b.values, false)
    decreases |s| - pos
  {
    hide CommandEnd, ParseOne, Drain;
    DrainOnce(s[pos..], delivered);
    if CommandEnd(s[pos..]).Some? && ParseOne(s[pos..], 0, 0).Ok? {
      var v, n := ParseOne(s[pos..], 0, 0).value, ParseOne(s[pos..], 0, 0).end;
      assert s[pos..][n..] == s[pos + n..];
      ParseAllDrains(s, pos + n, delivered + [v]);
      assert delivered + [v] + ParseAll(s, pos + n).values == delivered + ([v] + ParseAll(s, pos + n).values);
    }
  }

  lemma DrainOnce(s: Bytes, delivered: seq<RespValue>)
    ensures CommandEnd(s).None? ==>
              Drain(NextCommand, Receiver(s, delivered, false)) == Receiver(s, delivered + [], false)
    ensures CommandEnd(s).Some? && ParseOne(s, 0, 0).Fail? ==>
              Drain(NextCommand, Receiver(s, delivered, false)).broken
    ensures CommandEnd(s).Some? && ParseOne(s, 0, 0).Ok? ==>
              Drain(NextCommand, Receiver(s, delivered, false)) ==
              Drain(NextCommand, Receiver(s[ParseOne(s, 0, 0).end..], delivered + [ParseOne(s, 0, 0).value], false))
  {
    hide CommandEnd, ParseOne;
    assert delivered + [] == delivered;
  }

  /** `HandleRead` and the generic receiver agree on the state they share. */
  ghost predicate SameState(c: Connection, r: Receiver<RespValue>) {
    c == Connection(r.unread, r.delivered, [], false, false) && !r.broken
  }

  lemma ReadIsReceive(c: Connection, r: Receiver<RespValue>, chunk: Bytes, limit: nat)
    requires SameState(c, r) && !Receive(NextCommand, r, chunk).broken
    requires limit == 0 || |r.unread + chunk| <= limit
    requires !ProtocolError(r.unread + chunk)
    ensures SameState(HandleRead(c, chunk, limit), Receive(NextCommand, r, chunk))
  {
    hide ProtocolError, Drain, ParseAll;
    var s := r.unread + chunk;
    assert s[0..] == s;
    ParseAllDrains(s, 0, r.delivered);
  }

  // ---- The stream of encoded commands ----

  function Commands(cmds: seq<seq<Bytes>>): (vs: seq<RespValue>)
    ensures |vs| == |cmds|
  {
    if cmds == [] then [] else [Command(cmds[0])] + Commands(cmds[1..])
  }

  function EncodeStream(cmds: seq<seq<Bytes>>): Bytes {
    if cmds == [] then [] else EncodeArray(cmds[0]) + EncodeStream(cmds[1..])
  }

  lemma {:induction false} CommandsAt(cmds: seq<seq<Bytes>>, i: nat)
    requires i < |cmds|
    ensures Commands(cmds)[i] == Command(cmds[i])
  {
    if i > 0 {
      CommandsAt(cmds[1..], i - 1);
    }
  }

  lemma {:induction false} CommandsFrom(cmds: seq<seq<Bytes>>, n: nat)
    requires n <= |cmds|
    ensures Commands(cmds)[n..] == Commands(cmds[n..]) && Commands(cmds)[..n] == Commands(cmds[..n])
  {
    if n > 0 {
      CommandsFrom(cmds[1..], n - 1);
      assert cmds[1..][n - 1..] == cmds[n..] && cmds[..n][1..] == cmds[1..][..n - 1];
      assert Commands(cmds)[n..] == Commands(cmds[1..])[n - 1..];
      assert Commands(cmds)[..n] == [Command(cmds[0])] + Commands(cmds[1..])[..n - 1];
    }
  }

  lemma {:induction false} StreamIsEncodeAll(cmds: seq<seq<Bytes>>)
    ensures EncodeAll(EncodeCommand, Commands(cmds)) == EncodeStream(cmds)
  {
    if cmds != [] {
      TextsOfCommand(cmds[0]);
      assert Commands(cmds)[1..] == Commands(cmds[1..]);
      StreamIsEncodeAll(cmds[1..]);
    }
  }

  lemma AllFramed(cmds: seq<seq<Bytes>>)
    requires forall c | c in cmds :: Encodable(c)
    ensures forall v | v in Commands(cmds) :: Framed(NextCommand, EncodeCommand, v)
    ensures NextCommand([]) == Incomplete
  {
    hide Framed, Command;
    forall i | 0 <= i < |cmds|
      ensures Framed(NextCommand, EncodeCommand, Commands(cmds)[i])
    {
      CommandsAt(cmds, i);
      assert cmds[i] in cmds;
      CommandFramed(cmds[i]);
    }
  }

  /** The bytes at the head of the buffer are never taken for a protocol error. */
  lemma NoProtocolError(cmds: seq<seq<Bytes>>, unread: Bytes)
    requires forall c | c in cmds :: Encodable(c)
    requires unread <= EncodeStream(cmds)
    ensures !ProtocolError(unread)
  {
    hide EncodeArray, HeaderAt, Encodable;
    if cmds != [] && unread != [] {
      var code := EncodeArray(cmds[0]);
      if |unread| < |code| {
        assert unread == code[..|unread|];
        CommandCut(cmds[0], |unread|);
      } else {
        assert unread == code + unread[|code|..];
        CommandIs(cmds[0], unread[|code|..]);
      }
    }
  }

  const FRESH: Connection := Connection([], [], [], false, false)

  /** The high-water mark leaves room for one whole command and one read. */
  predicate RoomFor(cmds: seq<seq<Bytes>>, chunks: seq<Bytes>, limit: nat) {
    limit == 0 ||
    forall ch | ch in chunks :: |ch| <= limit && forall c | c in cmds :: |EncodeArray(c)| + |ch| <= limit
  }

  /** After these reads, `n` commands have been delivered and the rest of the bytes is kept. */
  ghost predicate Delivered(cmds: seq<seq<Bytes>>, c: Connection, n: nat, arrived: Bytes) {
    && n <= |cmds| && !c.closed && !c.protocolError && c.errors == []
    && c.delivered == Commands(cmds[..n])
    && EncodeStream(cmds[..n]) + c.unread == arrived
    && (n < |cmds| ==> |c.unread| < |EncodeArray(cmds[n])|)
  }

  /**
   * Encode any commands within the limits, concatenate, cut the bytes into any
   * chunks: exactly the commands that have arrived whole are delivered, in
   * order, never a protocol or parse error, and only the bytes of the
   * unfinished command stay in the buffer.
   */
  lemma {:induction false} CommandsDelivered(cmds: seq<seq<Bytes>>, chunks: seq<Bytes>, limit: nat) returns (n: nat)
    requires forall c | c in cmds :: Encodable(c)
    requires Concat(chunks) <= EncodeStream(cmds) && RoomFor(cmds, chunks, limit)
    ensures Delivered(cmds, HandleReads(FRESH, chunks, limit), n, Concat(chunks))
    decreases |chunks|
  {
    hide Encodable, EncodeArray, Commands;
    if chunks == [] {
      n := 0;
      NothingDelivered(cmds);
    } else {
      var before, chunk := chunks[..|chunks| - 1], chunks[|chunks| - 1];
      assert Concat(before) <= Concat(chunks);
      assert RoomFor(cmds, before, limit);
      var k := CommandsDelivered(cmds, before, limit);
      hide HandleRead, Delivered, RoomFor;
      RoomForOne(cmds, chunks, limit, HandleReads(FRESH, before, limit), k, Concat(before));
      n := OneMoreRead(cmds, HandleReads(FRESH, before, limit), k, Concat(before), chunk, limit);
    }
  }

  lemma RoomForOne(cmds: seq<seq<Bytes>>, chunks: seq<Bytes>, limit: nat, c: Connection, k: nat, arrived: Bytes)
    requires chunks != [] && RoomFor(cmds, chunks, limit) && Delivered(cmds, c, k, arrived)
    requires arrived <= EncodeStream(cmds)
    ensures limit == 0 || |c.unread + chunks[|chunks| - 1]| <= limit
  {
    hide EncodeArray, Commands;
    if k < |cmds| {
      assert cmds[k] in cmds;
    } else {
      assert cmds[..k] == cmds;
    }
  }

  lemma NothingDelivered(cmds: seq<seq<Bytes>>)
    ensures Delivered(cmds, FRESH, 0, [])
  {
    if cmds != [] {
      ArrayShape(cmds[0]);
    }
  }

  lemma OneMoreRead(cmds: seq<seq<Bytes>>, c: Connection, k: nat, arrived: Bytes, chunk: Bytes, limit: nat) returns (n: nat)
    requires forall x | x in cmds :: Encodable(x)
    requires Delivered(cmds, c, k, arrived) && arrived + chunk <= EncodeStream(cmds)
    requires limit == 0 || |c.unread + chunk| <= limit
    ensures Delivered(cmds, HandleRead(c, chunk, limit), n, arrived + chunk)
  {
    hide EncodeArray, Commands, NextCommand, Encodable, HandleRead, ProtocolError;
    hide Framed, EncodeAll, EncodeStream, Delivered;
    DeliveredMeans(cmds, c, k, arrived);
    UnreadPrefix(cmds, c, k, arrived, chunk);
    var r := Receiver(c.unread, c.delivered, false);
    AllFramed(cmds);
    ToInStep(cmds, c, k, arrived);
    StreamIsEncodeAll(cmds);
    CommandsFrom(cmds, k);
    StreamIsEncodeAll(cmds[..k]);
    n := ReceiveInStep(NextCommand, EncodeCommand, Commands(cmds), r, k, chunk);
    NoProtocolError(cmds[k..], c.unread + chunk);
    ReadIsReceive(c, r, chunk, limit);
    FromInStep(cmds, Receive(NextCommand, r, chunk), n, arrived + chunk);
  }

  lemma DeliveredMeans(cmds: seq<seq<Bytes>>, c: Connection, k: nat, arrived: Bytes)
    requires Delivered(cmds, c, k, arrived)
    ensures k <= |cmds| && c == Connection(c.unread, c.delivered, [], false, false)
    ensures EncodeStream(cmds[..k]) + c.unread == arrived
  {
  }

  lemma {:induction false} StreamSplit(a: seq<seq<Bytes>>, b: seq<seq<Bytes>>)
    ensures EncodeStream(a + b) == EncodeStream(a) + EncodeStream(b)
  {
    if a == [] {
      assert a + b == b;
    } else {
      assert (a + b)[1..] == a[1..] + b;
      StreamSplit(a[1..], b);
    }
  }

  lemma UnreadPrefix(cmds: seq<seq<Bytes>>, c: Connection, k: nat, arrived: Bytes, chunk: Bytes)
    requires Delivered(cmds, c, k, arrived) && arrived + chunk <= EncodeStream(cmds)
    ensures c.unread + chunk <= EncodeStream(cmds[k..])
  {
    hide EncodeStream, EncodeArray, Commands;
    assert cmds == cmds[..k] + cmds[k..];
    StreamSplit(cmds[..k], cmds[k..]);
    AppendPrefix(EncodeStream(cmds[..k]), c.unread, chunk, EncodeStream(cmds[k..]));
  }

  lemma ToInStep(cmds: seq<seq<Bytes>>, c: Connection, k: nat, arrived: Bytes)
    requires Delivered(cmds, c, k, arrived) && arrived <= EncodeStream(cmds)
    ensures InStep(EncodeCommand, Commands(cmds), Receiver(c.unread, c.delivered, false), k)
  {
    hide EncodeStream, EncodeArray, EncodeAll, Commands, Command, Texts;
    assert arrived + [] == arrived && c.unread + [] == c.unread;
    UnreadPrefix(cmds, c, k, arrived, []);
    CommandsFrom(cmds, k);
    StreamIsEncodeAll(cmds[k..]);
    if k < |cmds| {
      CommandsAt(cmds, k);
      TextsOfCommand(cmds[k]);
    }
  }

  lemma FromInStep(cmds: seq<seq<Bytes>>, r: Receiver<RespValue>, n: nat, arrived: Bytes)
    requires InStep(EncodeCommand, Commands(cmds), r, n)
    requires EncodeAll(EncodeCommand, Commands(cmds)[..n]) + r.unread == arrived
    ensures Delivered(cmds, Connection(r.unread, r.delivered, [], false, false), n, arrived)
  {
    hide EncodeStream, EncodeArray, EncodeAll, Commands, Command, Texts;
    CommandsFrom(cmds, n);
    StreamIsEncodeAll(cmds[..n]);
    if n < |cmds| {
      CommandsAt(cmds, n);
      TextsOfCommand(cmds[n]);
    }
  }
}
