/**
 * Protocol errors: which heads of the buffer raise one, that such a head could
 * never have become a command, and what the connection does about it.
 */
module BadHeads {
  import opened Wrappers
  import opened Bytes
  import opened Resp
  import opened Connections

  /**
   * A first byte other than `+`, `-`, `:`, `$` and `*`; or a `$` or `*` line that
   * has arrived and is no number, a number below -1, or one above 512 MB or
   * 2^20.
   */
  predicate BadHead(s: Bytes) {
    s != [] &&
    ( || !(s[0] == 43 || s[0] == 45 || s[0] == 58 || s[0] == 36 || s[0] == 42)
      || ((s[0] == 36 || s[0] == 42) && FindCrlf(s, 1).Some? &&
          var n := ParseInt64(s[1..FindCrlf(s, 1).value]);
          n.None? || n.value < -1 || (s[0] == 36 && n.value > 536870912) || (s[0] == 42 && n.value > 1048576)))
  }

  lemma ErrorRaisedIff(s: Bytes)
    ensures ProtocolError(s) <==> BadHead(s)
  {
    hide ParseInt64, FindCrlf;
  }

  // ---- An error is final ----

  /** What arrives later does not change the first line. */
  lemma LineStays(s: Bytes, rest: Bytes, from: nat)
    requires FindCrlf(s, from).Some?
    ensures FindCrlf(s + rest, from) == FindCrlf(s, from)
    ensures (s + rest)[from..FindCrlf(s, from).value] == s[from..FindCrlf(s, from).value]
  {
    var c, t := FindCrlf(s, from).value, s + rest;
    assert CrlfAt(t, c);
    forall k | from <= k < c
      ensures !CrlfAt(t, k)
    {
      assert !CrlfAt(s, k);
    }
    FirstCrlf(t, from, c);
  }

  lemma HeaderStays(s: Bytes, rest: Bytes)
    requires s != [] && FindCrlf(s, 1).Some?
    ensures HeaderAt(s + rest, 0) == HeaderAt(s, 0)
  {
    hide ParseInt64, FindCrlf;
    LineStays(s, rest, 1);
  }

  /** An error stays one whatever arrives, and no continuation of the buffer would ever have been a command. */
  lemma ErrorIsFinal(s: Bytes, rest: Bytes)
    requires ProtocolError(s)
    ensures ProtocolError(s + rest) && CommandEnd(s + rest).None?
  {
    assert (s + rest)[0] == s[0];
    if FindCrlf(s, 1).Some? {
      HeaderStays(s, rest);
    }
    hide HeaderAt, ElementsEnd, LineEnd;
  }

  // ---- And it is raised as soon as there is no hope ----

  /** The null array, which the scanner never calls complete. */
  predicate NullArrayLine(line: Bytes) {
    line != [] && line[0] == STAR && HeaderAt(line, 0).Header? && HeaderAt(line, 0).n == -1
  }

  /** `n` empty simple strings. */
  function EmptyLines(n: nat): Bytes {
    if n == 0 then [] else [PLUS, CR, LF] + EmptyLines(n - 1)
  }

  lemma {:induction false} EmptyLinesScanned(before: Bytes, n: nat)
    ensures ElementsEnd(before + EmptyLines(n), |before|, n).Some?
    decreases n
  {
    var s := before + EmptyLines(n);
    if n > 0 {
      var next := before + [PLUS, CR, LF];
      assert s == next + EmptyLines(n - 1);
      assert s[|before|] == PLUS && CrlfAt(s, |before| + 1);
      assert FindCrlf(s, |before| + 1) == Some(|before| + 1);
      EmptyLinesScanned(next, n - 1);
    }
  }

  /** A number takes at least one byte, and -1 at least two. */
  lemma NumberTakesRoom(line: Bytes)
    requires HeaderAt(line, 0).Header? && HeaderAt(line, 0).next == |line|
    ensures |line| >= 4 && (HeaderAt(line, 0).n < 0 ==> |line| >= 5)
  {
    var text := line[1..|line| - 2];
    assert text != [];
    if |text| == 1 {
      OneByte(text);
    }
  }

  lemma OneByte(text: Bytes)
    requires |text| == 1 && ParseInt64(text).Some?
    ensures ParseInt64(text).value >= 0
  {
  }

  /** After any other line a command can still come. */
  lemma Hope(line: Bytes) returns (rest: Bytes)
    requires line != [] && FindCrlf(line, 1) == Some(|line| - 2) && !ProtocolError(line) && !NullArrayLine(line)
    ensures CommandEnd(line + rest).Some?
  {
    if line[0] == PLUS || line[0] == MINUS || line[0] == COLON {
      rest := [0];
      LineStays(line, rest, 1);
    } else {
      var h := HeaderAt(line, 0);
      NumberTakesRoom(line);
      if line[0] == STAR {
        rest := EmptyLines(h.n);
        HeaderStays(line, rest);
        EmptyLinesScanned(line, h.n);
      } else {
        rest := seq(if h.n == -1 then 0 else h.n + 2, _ => 0);
        HeaderStays(line, rest);
      }
    }
  }

  /**
   * For every first line: no continuation of it is ever a command if and only if
   * it raises a protocol error or is the null array.
   */
  lemma HopelessIff(line: Bytes)
    requires line != [] && FindCrlf(line, 1) == Some(|line| - 2)
    ensures (forall rest :: CommandEnd(line + rest).None?) <==> ProtocolError(line) || NullArrayLine(line)
  {
    hide CommandEnd, ProtocolError, NullArrayLine;
    if ProtocolError(line) {
      forall rest
        ensures CommandEnd(line + rest).None?
      {
        ErrorIsFinal(line, rest);
      }
    } else if NullArrayLine(line) {
      forall rest
        ensures CommandEnd(line + rest).None?
      {
        NullArrayNeverComplete(line, rest);
      }
    } else {
      var rest := Hope(line);
    }
  }

  lemma NullArrayNeverComplete(line: Bytes, rest: Bytes)
    requires NullArrayLine(line)
    ensures CommandEnd(line + rest).None? && !ProtocolError(line + rest)
  {
    hide ElementsEnd;
    HeaderStays(line, rest);
  }

  // ---- What the connection does ----

  /**
   * One read closes the connection exactly when it overruns the limit, an error
   * was raised before, or the buffer now has a bad head; then nothing is
   * delivered. Otherwise what was delivered stays delivered.
   */
  lemma ClosesIff(c: Connection, chunk: Bytes, limit: nat)
    ensures c.closed ==> HandleRead(c, chunk, limit) == c
    ensures !c.closed ==>
              var r, s := HandleRead(c, chunk, limit), c.unread + chunk;
              && (r.closed <==> (limit > 0 && |s| > limit) || c.protocolError || BadHead(s))
              && (r.closed ==> r.delivered == c.delivered && r.errors == c.errors && r.unread == s)
              && c.delivered <= r.delivered && c.errors <= r.errors
  {
    hide ParseAll, ProtocolError, BadHead;
    ErrorRaisedIff(c.unread + chunk);
  }

  /** A complete command at `at` that the parser refuses with `e`, leaving off at `end`. */
  predicate RefusedAt(s: Bytes, at: nat, e: ParseError, end: nat) {
    at <= end <= |s| && CommandEnd(s[at..]).Some? && ParseOne(s[at..], 0, 0) == Fail(e, end - at)
  }

  /** The parsing loop stops where no complete command is left, or where one is refused. */
  lemma {:induction false} LoopStops(s: Bytes, pos: nat)
    requires pos <= |s|
    ensures var b := ParseAll(s, pos);
            if b.error.None? then CommandEnd(s[b.end..]).None?
            else exists at | pos <= at <= b.end :: RefusedAt(s, at, b.error.value, b.end)
    decreases |s| - pos
  {
    hide CommandEnd, ParseOne;
    if CommandEnd(s[pos..]).Some? {
      match ParseOne(s[pos..], 0, 0) {
        case Fail(e, n) => assert RefusedAt(s, pos, e, pos + n);
        case Ok(v, n) => LoopStops(s, pos + n);
      }
    }
  }

  /**
   * A read that does not close: without a new error no complete command is
   * left; otherwise one error is answered, that of a complete command which the
   * parser refuses, and the next read closes exactly if it was nested too deep.
   */
  lemma AnswersRefusals(c: Connection, chunk: Bytes, limit: nat)
    requires !c.closed && !HandleRead(c, chunk, limit).closed
    ensures var r, s := HandleRead(c, chunk, limit), c.unread + chunk;
            if r.errors == c.errors then CommandEnd(r.unread).None? && !r.protocolError
            else && |r.errors| == |c.errors| + 1 && |r.unread| <= |s|
                 && var e, end := r.errors[|c.errors|], |s| - |r.unread|;
                    && (exists at | 0 <= at <= end :: RefusedAt(s, at, e, end))
                    && (r.protocolError <==> e == NestingTooDeep)
  {
    hide ParseAll, RefusedAt, ProtocolError, CommandEnd;
    LoopStops(c.unread + chunk, 0);
  }

  /** Over any reads: once closed, nothing more is delivered. */
  lemma {:induction false} ClosedForGood(c: Connection, chunks: seq<Bytes>, limit: nat)
    requires c.closed
    ensures HandleReads(c, chunks, limit) == c
    decreases |chunks|
  {
    hide HandleRead;
    if chunks != [] {
      ClosedForGood(c, chunks[..|chunks| - 1], limit);
      ClosesIff(c, chunks[|chunks| - 1], limit);
    }
  }

  /** `PING` and `*abc`, each with its line end, close a new connection. */
  lemma NotACommand()
    ensures HandleRead(FRESH, [80, 73, 78, 71, CR, LF], 0).closed
    ensures HandleRead(FRESH, [STAR, 97, 98, 99, CR, LF], 0).closed
  {
    hide HandleRead;
    FreshCloses([80, 73, 78, 71, CR, LF]);
    NoCount([STAR, 97, 98, 99, CR, LF]);
    FreshCloses([STAR, 97, 98, 99, CR, LF]);
  }

  lemma FreshCloses(s: Bytes)
    requires BadHead(s)
    ensures HandleRead(FRESH, s, 0).closed
  {
    hide HandleRead, BadHead;
    ClosesIff(FRESH, s, 0);
    assert FRESH.unread + s == s;
  }

  lemma NoCount(s: Bytes)
    requires s == [STAR, 97, 98, 99, CR, LF]
    ensures BadHead(s)
  {
    FirstCrlf(s, 1, 4);
    NoDigit(s[1..4]);
  }

  lemma NoDigit(text: Bytes)
    requires text != [] && text[0] == 97
    ensures ParseInt64(text).None?
  {
    assert SkipSpaces(text, 0) == 0 && DigitsEnd(text, 0) == 0;
  }
}
