/** `Connection`: a client's input buffer and parser behind one read handler. */
module ClientConnections {
  import opened Wrappers
  import opened Bytes
  import opened Buffers
  import opened Resp
  import opened RespCodec
  import opened Streaming
  import opened Connections
  import opened RespParsers

  class ClientConnection {
    const input: Buffer
    const parser: RespParser
    /** The input high-water mark, 0 for none. */
    const limit: nat
    /** The commands given to the callback, and the parse errors answered. */
    var delivered: seq<RespValue>
    var errors: seq<ParseError>
    var closed: bool

    ghost predicate Valid()
      reads this, input, input.storage, parser
    {
      input.Valid() && parser.arrayDepth == 0 && parser.error == None
    }

    ghost function State(): Connection
      requires input.Valid()
      reads this, input, input.storage, parser
    {
      Connection(input.Contents(), delivered, errors, parser.protocolError, closed)
    }

    constructor (limit: nat)
      ensures Valid() && State() == FRESH && this.limit == limit && fresh(input) && fresh(input.storage) && fresh(parser)
    {
      this.limit := limit;
      input := new Buffer();
      parser := new RespParser();
      delivered, errors, closed := [], [], false;
    }

    /** `handle_read`, once `chunk` has been received. */
    method HandleRead(chunk: Bytes)
      requires Valid()
      modifies this, input, input.storage, parser
      ensures Valid() && State() == Connections.HandleRead(old(State()), chunk, limit)
      ensures input.storage == old(input.storage) || fresh(input.storage)
    {
      hide ProtocolError, ParseAll, Buffer.Contents, Buffer.Valid;
      if closed {
        return;
      }
      input.Append(chunk);
      var data := input.Peek();
      if limit > 0 && |data| > limit {
        closed := true;
        return;
      }
      var bad := parser.HasProtocolError(input);
      if bad {
        closed := true;
        return;
      }
      var values := parser.Parse(input);
      if parser.error.Some? {
        errors := errors + [parser.error.value];
        parser.Reset();
      }
      delivered := delivered + values;
    }
  }

  /** Reading chunk after chunk is what `HandleReads` says, so the theorems about streams are about this class. */
  method ReadAll(chunks: seq<Bytes>, limit: nat) returns (c: ClientConnection)
    ensures c.Valid() && c.State() == HandleReads(FRESH, chunks, limit)
  {
    hide Connections.HandleRead;
    c := new ClientConnection(limit);
    var i := 0;
    while i < |chunks|
      invariant 0 <= i <= |chunks| && c.Valid() && c.limit == limit
      invariant fresh(c) && fresh(c.input) && fresh(c.input.storage) && fresh(c.parser)
      invariant c.State() == HandleReads(FRESH, chunks[..i], limit)
    {
      assert chunks[..i + 1][..i] == chunks[..i];
      c.HandleRead(chunks[i]);
      i := i + 1;
    }
    assert chunks[..i] == chunks;
  }

  /**
   * The whole input path, as it runs: a client sends encoded commands, the
   * bytes arrive in any chunks, and buffer, scanner and parser deliver exactly
   * the commands that have arrived whole, in order and without an error.
   */
  method Serve(chunks: seq<Bytes>, limit: nat, ghost cmds: seq<seq<Bytes>>) returns (c: ClientConnection, ghost n: nat)
    requires forall cmd | cmd in cmds :: Encodable(cmd)
    requires Concat(chunks) <= EncodeStream(cmds) && RoomFor(cmds, chunks, limit)
    ensures c.Valid() && Delivered(cmds, c.State(), n, Concat(chunks))
  {
    hide Delivered, RoomFor, HandleReads;
    c := ReadAll(chunks, limit);
    n := CommandsDelivered(cmds, chunks, limit);
  }
}
