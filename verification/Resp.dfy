/**
 * RESP2: the scanner that asks whether a whole command has arrived, the
 * recursive parser, and the encoder, as functions of the unread bytes.
 * Positions are offsets into those bytes.
 */
module Resp {
  import opened Wrappers
  import opened Bytes

  const STAR: Byte := 42
  const DOLLAR: Byte := 36
  const COLON: Byte := 58
  const CRLF: Bytes := [CR, LF]

  const MAX_BULK: int := 512 * 1024 * 1024
  const MAX_COUNT: int := 1024 * 1024
  const MAX_DEPTH: nat := 32

  datatype RespValue =
    | SimpleString(text: Bytes)
    | Error(text: Bytes)
    | Integer(n: int)
    | Bulk(text: Bytes)
    | Array(elements: seq<RespValue>)

  predicate CrlfAt(s: Bytes, i: nat) {
    i + 1 < |s| && s[i] == CR && s[i + 1] == LF
  }

  /** The first CRLF from `from` on. */
  function FindCrlf(s: Bytes, from: nat): (r: Option<nat>)
    ensures r.Some? ==> from <= r.value && CrlfAt(s, r.value)
    ensures forall k | from <= k && (r.Some? ==> k < r.value) :: !CrlfAt(s, k)
    decreases |s| - from
  {
    if from + 1 >= |s| then None
    else if CrlfAt(s, from) then Some(from)
    else FindCrlf(s, from + 1)
  }

  lemma {:induction false} FirstCrlf(s: Bytes, from: nat, c: nat)
    requires from <= c && CrlfAt(s, c) && forall k | from <= k < c :: !CrlfAt(s, k)
    ensures FindCrlf(s, from) == Some(c)
    decreases c - from
  {
    if from < c {
      FirstCrlf(s, from + 1, c);
    }
  }

  /** The number on the line whose type byte is at `pos`; `next` is where the following line starts. */
  datatype Header = NoLine | NotANumber | Header(n: int, next: nat)

  function HeaderAt(s: Bytes, pos: nat): (h: Header)
    ensures h.Header? ==> pos + 3 <= h.next <= |s| && CrlfAt(s, h.next - 2)
  {
    match FindCrlf(s, pos + 1)
    case None => NoLine
    case Some(c) =>
      match ParseInt64(s[pos + 1..c])
      case None => NotANumber
      case Some(n) => Header(n, c + 2)
  }

  // ---- The scanner, `has_complete_command` ----

  function LineEnd(s: Bytes, pos: nat): (r: Option<nat>)
    ensures r.Some? ==> pos < r.value <= |s|
  {
    match FindCrlf(s, pos + 1)
    case None => None
    case Some(c) => Some(c + 2)
  }

  function BulkEnd(s: Bytes, pos: nat): (r: Option<nat>)
    ensures r.Some? ==> pos < r.value <= |s|
  {
    match HeaderAt(s, pos)
    case Header(n, next) =>
      if n == -1 then Some(next)
      else if n < -1 || |s| < next + n + 2 then None
      else Some(next + n + 2)
    case _ => None
  }

  /** The scanner's treatment of a nested array: stars count up, line ends count down. */
  function NestedEnd(s: Bytes, pos: nat, depth: nat): (r: Option<nat>)
    requires pos <= |s|
    ensures r.Some? ==> pos <= r.value <= |s| && (depth > 0 ==> pos < r.value)
    decreases |s| - pos
  {
    if depth == 0 then Some(pos)
    else if pos == |s| then None
    else
      var up := if s[pos] == STAR then depth + 1 else depth;
      NestedEnd(s, pos + 1, if s[pos] == LF && pos > 0 && s[pos - 1] == CR then up - 1 else up)
  }

  function ElementEnd(s: Bytes, pos: nat): (r: Option<nat>)
    requires pos <= |s|
    ensures r.Some? ==> pos < r.value <= |s|
  {
    if pos == |s| then None
    else if s[pos] == PLUS || s[pos] == MINUS || s[pos] == COLON then LineEnd(s, pos)
    else if s[pos] == DOLLAR then BulkEnd(s, pos)
    else if s[pos] == STAR then NestedEnd(s, pos, 1)
    else None
  }

  function ElementsEnd(s: Bytes, pos: nat, count: nat): (r: Option<nat>)
    requires pos <= |s|
    ensures r.Some? ==> pos <= r.value <= |s|
    decreases count
  {
    if count == 0 then Some(pos)
    else
      match ElementEnd(s, pos)
      case None => None
      case Some(e) => ElementsEnd(s, e, count - 1)
  }

  /** `has_complete_command`; where it answers yes, how far it walked. */
  function CommandEnd(s: Bytes): (r: Option<nat>)
    ensures r.Some? ==> 0 < r.value <= |s|
  {
    if |s| < 4 then None
    else if s[0] == PLUS || s[0] == MINUS || s[0] == COLON then LineEnd(s, 0)
    else if s[0] == DOLLAR then
      match HeaderAt(s, 0)
      case Header(n, next) =>
        if n == -1 then (if |s| >= 5 then Some(next) else None)
        else if n < -1 || n > MAX_BULK || |s| < next + n + 2 then None
        else Some(next + n + 2)
      case _ => None
    else if s[0] == STAR then
      match HeaderAt(s, 0)
      case Header(n, next) =>
        if n == 0 then Some(next)
        else if n < 0 || n > MAX_COUNT then None
        else ElementsEnd(s, next, n)
      case _ => None
    else None
  }

  /** `has_protocol_error` on the head of the buffer. */
  predicate ProtocolError(s: Bytes) {
    |s| >= 1 &&
    ( || !(s[0] in {PLUS, MINUS, COLON, DOLLAR, STAR})
      || (s[0] in {DOLLAR, STAR} &&
          match HeaderAt(s, 0)
          case NoLine => false
          case NotANumber => true
          case Header(n, _) => n < -1 || (s[0] == DOLLAR && n > MAX_BULK) || (s[0] == STAR && n > MAX_COUNT)))
  }

  // ---- The parser ----

  datatype ParseError =
    | BufferEmpty | UnknownType | MissingCrlf | InvalidInteger | InvalidBulkLength
    | BulkIncomplete | InvalidCount | ElementMissing | NestingTooDeep

  /** `end` is the read position afterwards, also after a failure. */
  datatype Parsed<T> = Ok(value: T, end: nat) | Fail(error: ParseError, end: nat)

  function ParseLine(s: Bytes, pos: nat): (r: Parsed<Bytes>)
    ensures r.Ok? ==> pos < r.end <= |s|
    ensures r.Fail? ==> r.end == pos && r.error != NestingTooDeep
  {
    match FindCrlf(s, pos + 1)
    case None => Fail(MissingCrlf, pos)
    case Some(c) => Ok(s[pos + 1..c], c + 2)
  }

  function ParseInteger(s: Bytes, pos: nat): (r: Parsed<RespValue>)
    ensures r.Ok? ==> pos < r.end <= |s|
    ensures r.Fail? ==> r.end == pos && r.error != NestingTooDeep
  {
    match ParseLine(s, pos)
    case Fail(e, p) => Fail(e, p)
    case Ok(text, end) =>
      match Stoll(text)
      case None => Fail(InvalidInteger, pos)
      case Some(number) => Ok(Integer(number.value), end)
  }

  function ParseBulk(s: Bytes, pos: nat): (r: Parsed<RespValue>)
    ensures r.Ok? ==> pos < r.end <= |s|
    ensures r.Fail? ==> r.end == pos && r.error != NestingTooDeep
  {
    match HeaderAt(s, pos)
    case NoLine => Fail(MissingCrlf, pos)
    case NotANumber => Fail(InvalidBulkLength, pos)
    case Header(n, next) =>
      if n == -1 then Ok(Bulk([]), next)
      else if n < -1 then Fail(InvalidBulkLength, pos)
      else if |s| < next + n + 2 then Fail(BulkIncomplete, pos)
      else Ok(Bulk(s[next..next + n]), next + n + 2)
  }

  /** `parse_one` with `depth` arrays open around it. */
  function ParseOne(s: Bytes, pos: nat, depth: nat): (r: Parsed<RespValue>)
    requires pos <= |s|
    ensures r.Ok? ==> pos < r.end <= |s|
    ensures r.Fail? ==> pos <= r.end <= |s|
    decreases |s| - pos, 1
  {
    if pos == |s| then Fail(BufferEmpty, pos)
    else if s[pos] == PLUS || s[pos] == MINUS then
      match ParseLine(s, pos)
      case Fail(e, p) => Fail(e, p)
      case Ok(text, end) => Ok(if s[pos] == PLUS then SimpleString(text) else Error(text), end)
    else if s[pos] == COLON then ParseInteger(s, pos)
    else if s[pos] == DOLLAR then ParseBulk(s, pos)
    else if s[pos] == STAR then ParseArray(s, pos, depth)
    else Fail(UnknownType, pos)
  }

  function ParseArray(s: Bytes, pos: nat, depth: nat): (r: Parsed<RespValue>)
    requires pos < |s|
    ensures r.Ok? ==> pos < r.end <= |s|
    ensures r.Fail? ==> pos <= r.end <= |s|
    decreases |s| - pos, 0
  {
    if depth + 1 > MAX_DEPTH then Fail(NestingTooDeep, pos)
    else
      match HeaderAt(s, pos)
      case NoLine => Fail(MissingCrlf, pos)
      case NotANumber => Fail(InvalidCount, pos)
      case Header(n, next) => ParseCounted(s, next, n, depth + 1)
  }

  /** The array after its header line, which has already been skipped. */
  function ParseCounted(s: Bytes, pos: nat, n: int, depth: nat): (r: Parsed<RespValue>)
    requires pos <= |s|
    ensures pos <= r.end <= |s|
    decreases |s| - pos, 3
  {
    if n == -1 then Ok(Array([]), pos)
    else if n < -1 then Fail(InvalidCount, pos)
    else
      match ParseElements(s, pos, n, depth)
      case Fail(e, p) => Fail(e, p)
      case Ok(vs, end) => Ok(Array(vs), end)
  }

  function ParseElements(s: Bytes, pos: nat, count: nat, depth: nat): (r: Parsed<seq<RespValue>>)
    requires pos <= |s|
    ensures pos <= r.end <= |s|
    ensures r.Ok? ==> |r.value| == count
    decreases |s| - pos, 2
  {
    if count == 0 then Ok([], pos)
    else if pos == |s| then Fail(ElementMissing, pos)
    else
      match ParseOne(s, pos, depth)
      case Fail(e, p) => Fail(e, p)
      case Ok(v, p) =>
        match ParseElements(s, p, count - 1, depth)
        case Fail(e, q) => Fail(e, q)
        case Ok(vs, q) => Ok([v] + vs, q)
  }

  // ---- The scanner agrees with the parser ----

  /** The text after the type byte of the line at `pos` is a number for `stoll`. */
  predicate IntegerLine(s: Bytes, pos: nat)
    requires pos < |s|
  {
    match FindCrlf(s, pos + 1)
    case None => false
    case Some(c) => Stoll(s[pos + 1..c]).Some?
  }

  /** None of the `count` elements the scanner walks from `pos` is an array. */
  predicate FlatFrom(s: Bytes, pos: nat, count: nat)
    requires pos <= |s|
    decreases count
  {
    count == 0 || pos == |s| ||
    (s[pos] != STAR && match ElementEnd(s, pos) case None => true case Some(e) => FlatFrom(s, e, count - 1))
  }

  /** Every integer element the scanner walks is really a number. */
  predicate IntegersFrom(s: Bytes, pos: nat, count: nat)
    requires pos <= |s|
    decreases count
  {
    count == 0 || pos == |s| ||
    ((s[pos] == COLON ==> IntegerLine(s, pos)) &&
     match ElementEnd(s, pos) case None => true case Some(e) => IntegersFrom(s, e, count - 1))
  }

  /** On anything but a nested array the two walk the same bytes; only an integer line can fail to parse. */
  lemma ElementAgrees(s: Bytes, pos: nat, depth: nat)
    requires pos < |s| && s[pos] != STAR
    ensures ParseOne(s, pos, depth).Ok? <==> ElementEnd(s, pos).Some? && (s[pos] == COLON ==> IntegerLine(s, pos))
    ensures ParseOne(s, pos, depth).Ok? ==> ElementEnd(s, pos) == Some(ParseOne(s, pos, depth).end)
    ensures ParseOne(s, pos, depth).Ok? ==> !ParseOne(s, pos, depth).value.Array?
  {
  }

  lemma {:induction false} ElementsAgree(s: Bytes, pos: nat, count: nat, depth: nat)
    requires pos <= |s| && FlatFrom(s, pos, count)
    ensures ParseElements(s, pos, count, depth).Ok? <==>
            ElementsEnd(s, pos, count).Some? && IntegersFrom(s, pos, count)
    ensures ParseElements(s, pos, count, depth).Ok? ==>
            ElementsEnd(s, pos, count) == Some(ParseElements(s, pos, count, depth).end)
    decreases count
  {
    hide ParseOne, ElementEnd, IntegerLine;
    if count > 0 && pos < |s| {
      ElementAgrees(s, pos, depth);
      match ElementEnd(s, pos) {
        case None =>
        case Some(e) => ElementsAgree(s, e, count - 1, depth);
      }
    }
  }

  /** The command is a flat array, or not an array at all. */
  predicate FlatCommand(s: Bytes) {
    s != [] && (s[0] == STAR ==>
      match HeaderAt(s, 0)
      case Header(n, next) => n > 0 ==> FlatFrom(s, next, n)
      case _ => true)
  }

  /** The integer lines of the command are numbers. */
  predicate IntegersParse(s: Bytes) {
    s != [] &&
    (s[0] == COLON ==> IntegerLine(s, 0)) &&
    (s[0] == STAR ==>
      match HeaderAt(s, 0)
      case Header(n, next) => n > 0 ==> IntegersFrom(s, next, n)
      case _ => true)
  }

  /**
   * Whenever the scanner accepts a command without nested arrays, the parser
   * succeeds and consumes exactly the bytes the scanner walked, if and only if
   * its integer lines are numbers.
   */
  lemma FlatCommandsAgree(s: Bytes)
    requires CommandEnd(s).Some? && FlatCommand(s)
    ensures ParseOne(s, 0, 0).Ok? <==> IntegersParse(s)
    ensures ParseOne(s, 0, 0).Ok? ==> ParseOne(s, 0, 0).end == CommandEnd(s).value
  {
    if s[0] == STAR {
      match HeaderAt(s, 0) {
        case Header(n, next) =>
          if n >= 0 {
            ElementsAgree(s, next, n, 1);
          }
          assert ParseOne(s, 0, 0) == ParseArray(s, 0, 0) == ParseCounted(s, next, n, 1);
        case _ =>
      }
    } else {
      ElementAgrees(s, 0, 0);
    }
  }

  /** `:a` with its line end: the scanner accepts it, the parser does not. */
  lemma NoNumberAccepted()
    ensures CommandEnd([COLON, 97, CR, LF]) == Some(4)
    ensures ParseOne([COLON, 97, CR, LF], 0, 0) == Fail(InvalidInteger, 0)
  {
    var s := [COLON, 97, CR, LF];
    assert FindCrlf(s, 1) == FindCrlf(s, 2) == Some(2);
    assert s[1..2] == [97];
    assert SkipSpaces([97], 0) == 0 && DigitsEnd([97], 0) == 0;
  }

  // ---- What the parser refuses, and why ----

  /** Every reason for refusing a value at its first line, and that nothing else fails but an array's elements. */
  lemma RefusedBecause(s: Bytes, pos: nat, depth: nat)
    requires pos < |s|
    ensures var r, kind, line := ParseOne(s, pos, depth), s[pos], FindCrlf(s, pos + 1);
            if kind == 42 && depth >= 32 then r == Fail(NestingTooDeep, pos)
            else if !(kind == 43 || kind == 45 || kind == 58 || kind == 36 || kind == 42) then r == Fail(UnknownType, pos)
            else if line.None? then r == Fail(MissingCrlf, pos)
            else
              var text, after := s[pos + 1..line.value], line.value + 2;
              if kind == 43 then r == Ok(SimpleString(text), after)
              else if kind == 45 then r == Ok(Error(text), after)
              else if kind == 58 then
                if Stoll(text).Some? then r == Ok(Integer(Stoll(text).value.value), after) else r == Fail(InvalidInteger, pos)
              else if ParseInt64(text).None? then r == Fail(if kind == 36 then InvalidBulkLength else InvalidCount, pos)
              else
                var n := ParseInt64(text).value;
                && (kind == 36 && n < -1 ==> r == Fail(InvalidBulkLength, pos))
                && (kind == 36 && n >= 0 && after + n + 2 > |s| ==> r == Fail(BulkIncomplete, pos))
                && (kind == 36 && n >= 0 && after + n + 2 <= |s| ==> r == Ok(Bulk(s[after..after + n]), after + n + 2))
                && (kind == 42 && n < -1 ==> r == Fail(InvalidCount, after))
                && (n == -1 ==> r == Ok(if kind == 36 then Bulk([]) else Array([]), after))
  {
    hide FindCrlf, Stoll, ParseInt64, ParseElements;
    var h := HeaderAt(s, pos);
    assert s[pos] == STAR && depth < 32 && h.Header? ==> ParseOne(s, pos, depth) == ParseCounted(s, h.next, h.n, depth + 1);
  }
}
