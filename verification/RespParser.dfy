/** `RespParser`: the scanner and the parser as they run, over a `Buffer`. */
module RespParsers {
  import opened Wrappers
  import opened Bytes
  import opened Buffers
  import opened Resp
  import opened Connections

  /** `find_crlf`. */
  method FindCrlfLoop(s: Bytes, from: nat) returns (r: Option<nat>)
    ensures r == FindCrlf(s, from)
  {
    var i := from;
    while i + 1 < |s|
      invariant from <= i
      invariant FindCrlf(s, i) == FindCrlf(s, from)
    {
      if s[i] == CR && s[i + 1] == LF {
        return Some(i);
      }
      i := i + 1;
    }
    return None;
  }

  /** The depth-counting loop for a nested array. */
  method NestedEndLoop(s: Bytes, start: nat) returns (r: Option<nat>)
    requires start <= |s|
    ensures r == NestedEnd(s, start, 1)
  {
    var pos: nat := start;
    var depth: nat := 1;
    while depth > 0 && pos < |s|
      invariant start <= pos <= |s|
      invariant NestedEnd(s, start, 1) == NestedEnd(s, pos, depth)
      decreases |s| - pos
    {
      if s[pos] == STAR {
        depth := depth + 1;
      }
      if s[pos] == LF && pos > 0 && s[pos - 1] == CR {
        depth := depth - 1;
      }
      pos := pos + 1;
    }
    return if depth == 0 then Some(pos) else None;
  }

  /** How far the scanner walks over one element. */
  method ElementComplete(s: Bytes, pos: nat) returns (r: Option<nat>)
    requires pos <= |s|
    ensures r == ElementEnd(s, pos)
  {
    hide FindCrlf, ParseInt64, NestedEnd;
    if pos >= |s| {
      return None;
    }
    var kind := s[pos];
    if kind == PLUS || kind == MINUS || kind == COLON {
      var c := FindCrlfLoop(s, pos + 1);
      return if c.None? then None else Some(c.value + 2);
    }
    if kind == DOLLAR {
      var h := ReadHeader(s, pos);
      if !h.Header? || h.n < -1 {
        return None;
      }
      if h.n == -1 {
        return Some(h.next);
      }
      return if |s| < h.next + h.n + 2 then None else Some(h.next + h.n + 2);
    }
    if kind == STAR {
      r := NestedEndLoop(s, pos);
      return;
    }
    return None;
  }

  /** The number on the line whose type byte is at `pos`. */
  method ReadHeader(s: Bytes, pos: nat) returns (h: Header)
    requires pos < |s|
    ensures h == HeaderAt(s, pos)
  {
    hide ParseInt64;
    var c := FindCrlfLoop(s, pos + 1);
    if c.None? {
      return NoLine;
    }
    var n := ParseInt64(s[pos + 1..c.value]);
    return if n.None? then NotANumber else Header(n.value, c.value + 2);
  }

  /** `has_complete_command` on an array: one pass over the elements. */
  method ElementsComplete(s: Bytes, start: nat, count: nat) returns (r: Option<nat>)
    requires start <= |s|
    ensures r == ElementsEnd(s, start, count)
  {
    hide ElementEnd;
    var pos: nat := start;
    var i: nat := 0;
    while i < count
      invariant 0 <= i <= count && pos <= |s|
      invariant ElementsEnd(s, start, count) == ElementsEnd(s, pos, count - i)
    {
      var e := ElementComplete(s, pos);
      if e.None? {
        return None;
      }
      pos := e.value;
      i := i + 1;
    }
    return Some(pos);
  }

  /** `has_complete_command`. */
  method HasCompleteCommand(data: Bytes) returns (complete: bool)
    ensures complete <==> CommandEnd(data).Some?
  {
    hide HeaderAt, ElementsEnd;
    if |data| < 4 {
      return false;
    }
    var kind := data[0];
    if kind == PLUS || kind == MINUS || kind == COLON {
      var c := FindCrlfLoop(data, 1);
      return c.Some?;
    }
    if kind != DOLLAR && kind != STAR {
      return false;
    }
    var h := ReadHeader(data, 0);
    if !h.Header? {
      return false;
    }
    if kind == DOLLAR {
      if h.n == -1 {
        return |data| >= 5;
      }
      return 0 <= h.n <= MAX_BULK && |data| >= h.next + h.n + 2;
    }
    if h.n == 0 {
      return true;
    }
    if h.n < 0 || h.n > MAX_COUNT {
      return false;
    }
    var e := ElementsComplete(data, h.next, h.n);
    return e.Some?;
  }

  // ---- Reading at an offset is reading the rest ----

  lemma CrlfShift(s: Bytes, pos: nat, k: nat)
    requires pos <= |s|
    ensures CrlfAt(s[pos..], k) == CrlfAt(s, pos + k)
  {
  }

  lemma FindCrlfShift(s: Bytes, pos: nat, from: nat)
    requires pos <= |s|
    ensures FindCrlf(s, pos + from).Some? <==> FindCrlf(s[pos..], from).Some?
    ensures FindCrlf(s, pos + from).Some? ==> FindCrlf(s, pos + from).value == pos + FindCrlf(s[pos..], from).value
  {
    var a, b := FindCrlf(s, pos + from), FindCrlf(s[pos..], from);
    if a.Some? {
      CrlfShift(s, pos, a.value - pos);
    }
    if b.Some? {
      CrlfShift(s, pos, b.value);
    }
  }

  lemma HeaderShift(s: Bytes, pos: nat)
    requires pos < |s|
    ensures match HeaderAt(s[pos..], 0)
            case Header(n, next) => HeaderAt(s, pos) == Header(n, pos + next)
            case h => HeaderAt(s, pos) == h
  {
    FindCrlfShift(s, pos, 1);
    var a := FindCrlf(s[pos..], 1);
    if a.Some? {
      assert s[pos..][1..a.value] == s[pos + 1..pos + a.value];
    }
  }

  class RespParser {
    var error: Option<ParseError>
    var protocolError: bool
    var arrayDepth: nat

    constructor ()
      ensures error == None && !protocolError && arrayDepth == 0
    {
      error, protocolError, arrayDepth := None, false, 0;
    }

    /** `reset`: forgets the last error, not the protocol error. */
    method Reset()
      modifies this`error
      ensures error == None
    {
      error := None;
    }

    /** `has_protocol_error`: once raised it stays. */
    method HasProtocolError(buffer: Buffer) returns (bad: bool)
      requires buffer.Valid()
      modifies this`protocolError
      ensures bad == protocolError == (old(protocolError) || ProtocolError(buffer.Contents()))
    {
      hide HeaderAt;
      if protocolError {
        return true;
      }
      var data := buffer.Peek();
      if |data| < 1 {
        return false;
      }
      var kind := data[0];
      if kind != PLUS && kind != MINUS && kind != COLON && kind != DOLLAR && kind != STAR {
        protocolError := true;
        return true;
      }
      if kind != DOLLAR && kind != STAR {
        return false;
      }
      var h := ReadHeader(data, 0);
      protocolError := match h
        case NoLine => false
        case NotANumber => true
        case Header(n, _) => n < -1 || (kind == DOLLAR && n > MAX_BULK) || (kind == STAR && n > MAX_COUNT);
      return protocolError;
    }

    /** The buffer holds the bytes of `s` from `pos` on. */
    ghost predicate Reads(buffer: Buffer, s: Bytes, pos: nat)
      reads buffer, buffer.storage
    {
      buffer.Valid() && pos <= |s| && buffer.Contents() == s[pos..]
    }

    method PeekAt(buffer: Buffer, ghost s: Bytes, ghost pos: nat) returns (data: Bytes)
      requires Reads(buffer, s, pos)
      ensures pos <= |s| && data == s[pos..]
    {
      data := buffer.Peek();
    }

    /** `skip`. */
    method Skip(buffer: Buffer, n: nat, ghost s: Bytes, ghost pos: nat)
      requires Reads(buffer, s, pos) && pos + n <= |s|
      modifies buffer, buffer.storage
      ensures Reads(buffer, s, pos + n) && buffer.storage == old(buffer.storage)
    {
      buffer.Retrieve(n);
      assert s[pos..][n..] == s[pos + n..];
    }

    /** `parse_simple_string` and `parse_error`. */
    method ParseLine(buffer: Buffer, ghost s: Bytes, ghost pos: nat) returns (r: Option<Bytes>)
      requires Reads(buffer, s, pos) && pos < |s|
      modifies buffer, buffer.storage, this`error
      ensures var p := Resp.ParseLine(s, pos);
              && Reads(buffer, s, if p.Ok? then p.end else pos) && buffer.storage == old(buffer.storage)
              && (if p.Ok? then r == Some(p.value) && error == old(error) else r == None && error == Some(p.error))
    {
      var data := buffer.Peek();
      var c := FindCrlfLoop(data, 1);
      FindCrlfShift(s, pos, 1);
      if c.None? {
        error := Some(MissingCrlf);
        return None;
      }
      assert data[1..c.value] == s[pos + 1..pos + c.value];
      Skip(buffer, c.value + 2, s, pos);
      return Some(data[1..c.value]);
    }

    method ParseInteger(buffer: Buffer, ghost s: Bytes, ghost pos: nat) returns (r: Option<RespValue>)
      requires Reads(buffer, s, pos) && pos < |s|
      modifies buffer, buffer.storage, this`error
      ensures var p := Resp.ParseInteger(s, pos);
              && Reads(buffer, s, if p.Ok? then p.end else pos) && buffer.storage == old(buffer.storage)
              && (if p.Ok? then r == Some(p.value) && error == old(error) else r == None && error == Some(p.error))
    {
      hide Stoll;
      var data := buffer.Peek();
      var c := FindCrlfLoop(data, 1);
      FindCrlfShift(s, pos, 1);
      if c.None? {
        error := Some(MissingCrlf);
        return None;
      }
      assert data[1..c.value] == s[pos + 1..pos + c.value];
      var n := Stoll(data[1..c.value]);
      if n.None? {
        error := Some(InvalidInteger);
        return None;
      }
      Skip(buffer, c.value + 2, s, pos);
      return Some(Integer(n.value.value));
    }

    method ParseBulkString(buffer: Buffer, ghost s: Bytes, ghost pos: nat) returns (r: Option<RespValue>)
      requires Reads(buffer, s, pos) && pos < |s|
      modifies buffer, buffer.storage, this`error
      ensures var p := ParseBulk(s, pos);
              && Reads(buffer, s, if p.Ok? then p.end else pos) && buffer.storage == old(buffer.storage)
              && (if p.Ok? then r == Some(p.value) && error == old(error) else r == None && error == Some(p.error))
    {
      hide FindCrlf, ParseInt64;
      var data := buffer.Peek();
      HeaderShift(s, pos);
      var header := ReadHeader(data, 0);
      match header {
        case NoLine => error := Some(MissingCrlf); return None;
        case NotANumber => error := Some(InvalidBulkLength); return None;
        case Header(n, next) =>
          if n == -1 {
            Skip(buffer, next, s, pos);
            return Some(Bulk([]));
          }
          if n < -1 {
            error := Some(InvalidBulkLength);
            return None;
          }
          if |data| < next + n + 2 {
            error := Some(BulkIncomplete);
            return None;
          }
          assert data[next..next + n] == s[pos + next..pos + next + n];
          Skip(buffer, next + n + 2, s, pos);
          return Some(Bulk(data[next..next + n]));
      }
    }

    /** What a call leaves behind when the specification says `p`. */
    ghost predicate Did<T(!new)>(p: Parsed<T>, r: Option<T>, err: Option<ParseError>, proto: bool)
      reads this
    {
      if p.Ok? then r == Some(p.value) && error == err && protocolError == proto
      else r == None && error == Some(p.error) && protocolError == (proto || p.error == NestingTooDeep)
    }

    method ParseOne(buffer: Buffer, ghost s: Bytes, ghost pos: nat) returns (r: Option<RespValue>)
      requires Reads(buffer, s, pos)
      modifies buffer, buffer.storage, this
      ensures Reads(buffer, s, Resp.ParseOne(s, pos, old(arrayDepth)).end) && buffer.storage == old(buffer.storage)
      ensures arrayDepth == old(arrayDepth)
      ensures Did(Resp.ParseOne(s, pos, old(arrayDepth)), r, old(error), old(protocolError))
      decreases |s| - pos, 1
    {
      hide Reads, Resp.ParseArray, Resp.ParseInteger, ParseBulk, Resp.ParseLine;
      var data := PeekAt(buffer, s, pos);
      if |data| < 1 {
        error := Some(BufferEmpty);
        return None;
      }
      var kind := data[0];
      assert kind == s[pos];
      if kind == PLUS || kind == MINUS {
        var text := ParseLine(buffer, s, pos);
        return if text.None? then None
               else if kind == PLUS then Some(SimpleString(text.value)) else Some(Error(text.value));
      } else if kind == COLON {
        r := ParseInteger(buffer, s, pos);
      } else if kind == DOLLAR {
        r := ParseBulkString(buffer, s, pos);
      } else if kind == STAR {
        r := ParseArray(buffer, s, pos);
      } else {
        error := Some(UnknownType);
        return None;
      }
    }

    method ParseArray(buffer: Buffer, ghost s: Bytes, ghost pos: nat) returns (r: Option<RespValue>)
      requires Reads(buffer, s, pos) && pos < |s|
      modifies buffer, buffer.storage, this
      ensures Reads(buffer, s, Resp.ParseArray(s, pos, old(arrayDepth)).end) && buffer.storage == old(buffer.storage)
      ensures arrayDepth == old(arrayDepth)
      ensures Did(Resp.ParseArray(s, pos, old(arrayDepth)), r, old(error), old(protocolError))
      decreases |s| - pos, 0
    {
      hide Reads, Resp.ParseCounted, HeaderAt;
      if arrayDepth + 1 > MAX_DEPTH {
        error := Some(NestingTooDeep);
        protocolError := true;
        return None;
      }
      var data := PeekAt(buffer, s, pos);
      HeaderShift(s, pos);
      var header := ReadHeader(data, 0);
      match header {
        case NoLine => error := Some(MissingCrlf); return None;
        case NotANumber => error := Some(InvalidCount); return None;
        case Header(n, next) =>
          Skip(buffer, next, s, pos);
          arrayDepth := arrayDepth + 1;
          r := ParseCounted(buffer, n, s, pos + next);
          arrayDepth := arrayDepth - 1;
      }
    }

    method ParseCounted(buffer: Buffer, n: int, ghost s: Bytes, ghost pos: nat) returns (r: Option<RespValue>)
      requires Reads(buffer, s, pos)
      modifies buffer, buffer.storage, this
      ensures Reads(buffer, s, Resp.ParseCounted(s, pos, n, old(arrayDepth)).end) && buffer.storage == old(buffer.storage)
      ensures arrayDepth == old(arrayDepth)
      ensures Did(Resp.ParseCounted(s, pos, n, old(arrayDepth)), r, old(error), old(protocolError))
      decreases |s| - pos, 3
    {
      hide Resp.ParseElements;
      if n == -1 {
        return Some(Array([]));
      }
      if n < -1 {
        error := Some(InvalidCount);
        return None;
      }
      var elements := ParseElements(buffer, n, s, pos);
      return if elements.None? then None else Some(Array(elements.value));
    }

    /** The element loop of `parse_array`. */
    method ParseElements(buffer: Buffer, count: nat, ghost s: Bytes, ghost start: nat) returns (r: Option<seq<RespValue>>)
      requires Reads(buffer, s, start) && start <= |s|
      modifies buffer, buffer.storage, this
      ensures Reads(buffer, s, Resp.ParseElements(s, start, count, old(arrayDepth)).end)
      ensures buffer.storage == old(buffer.storage) && arrayDepth == old(arrayDepth)
      ensures Did(Resp.ParseElements(s, start, count, old(arrayDepth)), r, old(error), old(protocolError))
      decreases |s| - start, 2
    {
      hide Reads, Resp.ParseOne;
      var out: seq<RespValue> := [];
      ghost var pos := start;
      ghost var depth := arrayDepth;
      AfterNone(Resp.ParseElements(s, start, count, depth));
      var i := 0;
      while i < count
        invariant 0 <= i <= count && start <= pos <= |s| && Reads(buffer, s, pos)
        invariant buffer.storage == old(buffer.storage) && arrayDepth == depth
        invariant error == old(error) && protocolError == old(protocolError)
        invariant Resp.ParseElements(s, start, count, depth) == After(out, Resp.ParseElements(s, pos, count - i, depth))
      {
        var data := PeekAt(buffer, s, pos);
        if |data| < 1 {
          error := Some(ElementMissing);
          return None;
        }
        ghost var p := Resp.ParseOne(s, pos, depth);
        var elem := ParseOne(buffer, s, pos);
        if elem.None? {
          return None;
        }
        AfterOne(s, pos, count - i, depth, out);
        out := out + [elem.value];
        pos := p.end;
        i := i + 1;
      }
      assert Resp.ParseElements(s, pos, 0, depth) == Ok([], pos) && out + [] == out;
      return Some(out);
    }

    /** `parse`: every complete command at the head of the buffer. */
    method Parse(buffer: Buffer) returns (values: seq<RespValue>)
      requires buffer.Valid() && arrayDepth == 0
      modifies buffer, buffer.storage, this
      ensures buffer.Valid() && arrayDepth == 0
      ensures Took(ParseAll(old(buffer.Contents()), 0), old(buffer.Contents()), values, buffer.Contents())
      ensures Flagged(ParseAll(old(buffer.Contents()), 0), old(error), old(protocolError), error, protocolError)
      ensures buffer.storage == old(buffer.storage)
    {
      ghost var s := buffer.Contents();
      assert s[0..] == s && Reads(buffer, s, 0);
      hide ParseAll, Including, Reads, Took, Flagged, Buffer.Contents, Buffer.Valid;
      ghost var pos := 0;
      values := [];
      IncludingNothing(ParseAll(s, 0));
      while true
        invariant arrayDepth == 0 && buffer.storage == old(buffer.storage) && pos <= |s|
        invariant Reads(buffer, s, pos) && error == old(error) && protocolError == old(protocolError)
        invariant ParseAll(s, 0) == Including(values, ParseAll(s, pos))
        decreases |s| - pos
      {
        var cmd, end := ParseNext(buffer, s, pos);
        IncludingMore(s, pos, values, cmd, end);
        if cmd.None? {
          ReadsMeans(buffer, s, end);
          break;
        }
        values, pos := values + [cmd.value], end;
      }
    }

    lemma ReadsMeans(buffer: Buffer, s: Bytes, pos: nat)
      requires Reads(buffer, s, pos)
      ensures pos <= |s| && buffer.Valid() && buffer.Contents() == s[pos..]
    {
    }

    /** One turn of the loop: the next command, or none when it is incomplete or does not parse. */
    method ParseNext(buffer: Buffer, ghost s: Bytes, ghost pos: nat) returns (cmd: Option<RespValue>, ghost end: nat)
      requires Reads(buffer, s, pos) && arrayDepth == 0
      modifies buffer, buffer.storage, this
      ensures Reads(buffer, s, end) && buffer.storage == old(buffer.storage) && arrayDepth == 0
      ensures Turned(s, pos, cmd, end)
      ensures if cmd.Some? then error == old(error) && protocolError == old(protocolError)
              else Flagged(ParseAll(s, pos), old(error), old(protocolError), error, protocolError)
    {
      hide CommandEnd, Resp.ParseOne, ParseAll, Reads, Turned, Flagged, Buffer.Contents, Buffer.Valid;
      var data := PeekAt(buffer, s, pos);
      var complete := HasCompleteCommand(data);
      if !complete {
        IncompleteTurn(s, pos, error, protocolError);
        return None, pos;
      }
      ghost var had, raised := error, protocolError;
      cmd, end := ParseFront(buffer, data, s, pos);
      CompleteTurn(s, pos, cmd, had, raised, error, protocolError);
    }

    /** The command at the front, seen from the start of the batch. */
    method ParseFront(buffer: Buffer, ghost data: Bytes, ghost s: Bytes, ghost pos: nat)
      returns (cmd: Option<RespValue>, ghost end: nat)
      requires Reads(buffer, s, pos) && pos <= |s| && data == s[pos..] && arrayDepth == 0
      modifies buffer, buffer.storage, this
      ensures end == pos + Resp.ParseOne(data, 0, 0).end <= |s|
      ensures Reads(buffer, s, end) && buffer.storage == old(buffer.storage)
      ensures arrayDepth == 0 && Did(Resp.ParseOne(data, 0, 0), cmd, old(error), old(protocolError))
    {
      hide Resp.ParseOne, Buffer.Contents, Buffer.Valid;
      ghost var used := Resp.ParseOne(data, 0, 0).end;
      assert data[0..] == data && data[used..] == s[pos + used..];
      cmd := ParseOne(buffer, data, 0);
      end := pos + used;
    }
  }

  /** One turn of the loop over a batch. */
  ghost predicate Turned(s: Bytes, pos: nat, cmd: Option<RespValue>, end: nat) {
    && pos <= end <= |s|
    && var batch := ParseAll(s, pos);
       if cmd.None? then batch.values == [] && batch.end == end
       else pos < end && batch == Including([cmd.value], ParseAll(s, end))
  }

  lemma IncompleteTurn(s: Bytes, pos: nat, error: Option<ParseError>, raised: bool)
    requires pos <= |s| && CommandEnd(s[pos..]).None?
    ensures Turned(s, pos, None, pos) && Flagged(ParseAll(s, pos), error, raised, error, raised)
  {
    hide CommandEnd, Resp.ParseOne;
  }

  lemma CompleteTurn(s: Bytes, pos: nat, cmd: Option<RespValue>, had: Option<ParseError>, raised: bool,
                     error: Option<ParseError>, flag: bool)
    requires pos <= |s| && CommandEnd(s[pos..]).Some?
    requires var p := Resp.ParseOne(s[pos..], 0, 0);
             if p.Ok? then cmd == Some(p.value) && error == had && flag == raised
             else cmd == None && error == Some(p.error) && flag == (raised || p.error == NestingTooDeep)
    ensures Turned(s, pos, cmd, pos + Resp.ParseOne(s[pos..], 0, 0).end)
    ensures cmd.None? ==> Flagged(ParseAll(s, pos), had, raised, error, flag)
  {
    hide CommandEnd, Resp.ParseOne;
  }

  /** The values of the batch are returned, and what is behind its end is left. */
  ghost predicate Took(batch: Batch, s: Bytes, values: seq<RespValue>, left: Bytes) {
    values == batch.values && batch.end <= |s| && left == s[batch.end..]
  }

  /** An error of the batch is reported, and nesting too deep raises the protocol error. */
  ghost predicate Flagged(batch: Batch, had: Option<ParseError>, raised: bool,
                          error: Option<ParseError>, protocolError: bool) {
    && error == (if batch.error.Some? then batch.error else had)
    && protocolError == (raised || batch.error == Some(NestingTooDeep))
  }

  /** The rest of the batch, with the values already read in front. */
  ghost function Including(values: seq<RespValue>, rest: Batch): Batch {
    rest.(values := values + rest.values)
  }

  lemma IncludingNothing(rest: Batch)
    ensures Including([], rest) == rest
  {
    assert [] + rest.values == rest.values;
  }

  lemma IncludingMore(s: Bytes, pos: nat, values: seq<RespValue>, cmd: Option<RespValue>, end: nat)
    requires pos <= |s| && Turned(s, pos, cmd, end)
    ensures pos <= end <= |s|
    ensures cmd.Some? ==>
              pos < end && Including(values, ParseAll(s, pos)) == Including(values + [cmd.value], ParseAll(s, end))
    ensures cmd.None? ==>
              var all := Including(values, ParseAll(s, pos));
              && Took(all, s, values, s[end..])
              && forall had, raised, error, flag ::
                   Flagged(ParseAll(s, pos), had, raised, error, flag) ==> Flagged(all, had, raised, error, flag)
  {
    hide ParseAll;
    if cmd.Some? {
      var rest := ParseAll(s, end).values;
      assert values + ([cmd.value] + rest) == values + [cmd.value] + rest;
    } else {
      assert values + [] == values;
    }
  }

  lemma AfterNone(p: Parsed<seq<RespValue>>)
    ensures After([], p) == p
  {
    if p.Ok? {
      assert [] + p.value == p.value;
    }
  }

  /** The outcome of the rest, with the elements already read in front. */
  ghost function After(out: seq<RespValue>, rest: Parsed<seq<RespValue>>): Parsed<seq<RespValue>> {
    if rest.Ok? then Ok(out + rest.value, rest.end) else rest
  }

  lemma AfterOne(s: Bytes, pos: nat, count: nat, depth: nat, out: seq<RespValue>)
    requires pos < |s| && count > 0 && Resp.ParseOne(s, pos, depth).Ok?
    ensures var p := Resp.ParseOne(s, pos, depth);
            After(out, Resp.ParseElements(s, pos, count, depth)) ==
            After(out + [p.value], Resp.ParseElements(s, p.end, count - 1, depth))
  {
    hide Resp.ParseOne;
    var p := Resp.ParseOne(s, pos, depth);
    var rest := Resp.ParseElements(s, p.end, count - 1, depth);
    if rest.Ok? {
      assert out + ([p.value] + rest.value) == out + [p.value] + rest.value;
    }
  }
}
