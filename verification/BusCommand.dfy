/** Commands carried over the bus: request tags, and the command line inside. */
module BusCommands {
  import opened Wrappers
  import opened Bytes
  import opened Resp
  import opened RespCodec
  import opened Connections

  /** "CCREQ " and "CCRESP ". */
  const REQUEST: Bytes := [67, 67, 82, 69, 81, 32]
  const RESPONSE: Bytes := [67, 67, 82, 69, 83, 80, 32]

  function FindSpace(s: Bytes, from: nat): (r: Option<nat>)
    ensures r.Some? ==> from <= r.value < |s| && s[r.value] == SPACE
    ensures forall k | from <= k < |s| && (r.Some? ==> k < r.value) :: s[k] != SPACE
    decreases |s| - from
  {
    if from >= |s| then None else if s[from] == SPACE then Some(from) else FindSpace(s, from + 1)
  }

  /** `std::stoull` that must use the whole text; a minus sign wraps around. */
  function ParseId(s: Bytes): (r: Option<nat>)
    ensures r.Some? ==> r.value < UINT64_LIMIT
  {
    var i := SkipSpaces(s, 0);
    var neg := i < |s| && s[i] == MINUS;
    var d := if i < |s| && (s[i] == MINUS || s[i] == PLUS) then i + 1 else i;
    var e := DigitsEnd(s, d);
    if e == d || e != |s| then None
    else
      assert forall b | b in s[d..e] :: IsDigit(b);
      var v := Value(s[d..e]);
      if v >= UINT64_LIMIT then None else Some(if neg then (UINT64_LIMIT - v) % UINT64_LIMIT else v)
  }

  datatype Tagged = Tagged(id: nat, body: Bytes)

  function EncodeTagged(prefix: Bytes, id: nat, body: Bytes): Bytes {
    prefix + Decimal(id) + [SPACE] + body
  }

  /** `parse_bus_tagged`: everything after the id is the body. */
  function ParseTagged(text: Bytes, prefix: Bytes): Option<Tagged> {
    if |text| <= |prefix| || text[..|prefix|] != prefix then None
    else
      match FindSpace(text, |prefix|)
      case None => None
      case Some(space) =>
        var id := ParseId(text[|prefix|..space]);
        if id.None? then None else Some(Tagged(id.value, text[space + 1..]))
  }

  lemma IdParses(id: nat)
    requires id < UINT64_LIMIT
    ensures ParseId(Decimal(id)) == Some(id)
  {
    var s := Decimal(id);
    assert forall k | 0 <= k < |s| :: s[k] in s;
    AllDigits(s, 0);
    assert s[0..|s|] == s;
    DecimalValue(id);
  }

  /** A tagged text gives back its id and its body, spaces and line ends included. */
  lemma TaggedRoundTrip(prefix: Bytes, id: nat, body: Bytes)
    requires id < UINT64_LIMIT
    ensures ParseTagged(EncodeTagged(prefix, id, body), prefix) == Some(Tagged(id, body))
  {
    hide ParseId;
    var text, digits := EncodeTagged(prefix, id, body), Decimal(id);
    var space := |prefix| + |digits|;
    assert text[..|prefix|] == prefix && text[|prefix|..space] == digits && text[space + 1..] == body;
    assert text[space] == SPACE;
    assert forall k | |prefix| <= k < space :: text[k] == digits[k - |prefix|] && digits[k - |prefix|] in digits;
    assert FindSpace(text, |prefix|) == Some(space);
    IdParses(id);
  }

  /**
   * Any text is blanks, a sign or none, digits and the rest. It is an id exactly
   * when there is a digit, no rest, and the digits fit 64 bits; a minus sign
   * wraps around.
   */
  lemma IdIs(s: Bytes, a: nat, d: nat, e: nat)
    requires a <= d <= e <= |s| && d <= a + 1
    requires forall k | 0 <= k < a :: s[k] == 32 || 9 <= s[k] <= 13
    requires a < |s| ==> !(s[a] == 32 || 9 <= s[a] <= 13)
    requires d == a + 1 <==> a < |s| && (s[a] == 43 || s[a] == 45)
    requires forall k | d <= k < e :: 48 <= s[k] <= 57
    requires e < |s| ==> !(48 <= s[e] <= 57)
    ensures forall b | b in s[d..e] :: IsDigit(b)
    ensures var v := Value(s[d..e]);
            ParseId(s) ==
            if d == e || e < |s| || v >= 18446744073709551616 then None
            else if d > a && s[a] == 45 && v > 0 then Some(18446744073709551616 - v)
            else Some(v)
  {
    BlanksSkipped(s, 0, a);
    DigitsRead(s, d, e);
    hide Value, SkipSpaces, DigitsEnd;
    assert forall b | b in s[d..e] :: IsDigit(b);
  }

  /** A text carries a tag if and only if it is the prefix, an id without a space, a space, and the body. */
  lemma TaggedIff(text: Bytes, prefix: Bytes, id: nat, body: Bytes)
    ensures ParseTagged(text, prefix) == Some(Tagged(id, body)) <==>
            exists t :: SPACE !in t && ParseId(t) == Some(id) && text == prefix + t + [32] + body
  {
    hide ParseId;
    if ParseTagged(text, prefix) == Some(Tagged(id, body)) {
      var space := FindSpace(text, |prefix|).value;
      var t := text[|prefix|..space];
      assert text == prefix + t + [32] + body;
      assert SPACE !in t && ParseId(t) == Some(id);
    }
    if t :| SPACE !in t && ParseId(t) == Some(id) && text == prefix + t + [32] + body {
      var space := |prefix| + |t|;
      assert text[..|prefix|] == prefix && text[|prefix|..space] == t && text[space] == 32 && text[space + 1..] == body;
      assert forall k | |prefix| <= k < space :: text[k] == t[k - |prefix|] && t[k - |prefix|] in t;
      assert FindSpace(text, |prefix|) == Some(space);
    }
  }

  /** A request is never taken for a response, nor a response for a request. */
  lemma TagsAreDistinct(id: nat, body: Bytes)
    ensures ParseTagged(EncodeTagged(REQUEST, id, body), RESPONSE) == None
    ensures ParseTagged(EncodeTagged(RESPONSE, id, body), REQUEST) == None
  {
    var a, b := EncodeTagged(REQUEST, id, body), EncodeTagged(RESPONSE, id, body);
    assert a[4] == REQUEST[4] && RESPONSE[4] == 83;
    assert |a| > |RESPONSE| ==> a[..|RESPONSE|][4] == a[4];
    assert b[4] == RESPONSE[4] && b[..|REQUEST|][4] == b[4];
  }

  // ---- The command line ----

  /** Words between blanks: the fallback for old peers. */
  function Words(s: Bytes, word: Bytes): seq<Bytes> {
    var rest := if s == [] || IsSpace(s[0]) then (if word == [] then [] else [word]) else [];
    if s == [] then rest
    else if IsSpace(s[0]) then rest + Words(s[1..], [])
    else Words(s[1..], word + [s[0]])
  }

  datatype Line = MalformedLine | Line(args: seq<Bytes>)

  /** How `execute_bus_command_line` finds its arguments. */
  function ReadLine(s: Bytes): Line {
    if s == [] || s[0] != STAR then Line(Words(s, []))
    else
      var batch := ParseAll(s, 0);
      if batch.error.Some? then MalformedLine
      else if batch.values != [] && batch.values[0].Array? then Line(Texts(batch.values[0]))
      else Line(Words(s, []))
  }

  /** A RESP-encoded command line is read back argument for argument. */
  lemma LineRoundTrip(args: seq<Bytes>)
    requires Encodable(args)
    ensures ReadLine(EncodeArray(args)) == Line(args)
  {
    ArrayShape(args);
    hide EncodeArray, CommandEnd, ParseOne, Texts;
    var s := EncodeArray(args);
    assert s + [] == s && s[0..] == s && s[|s|..] == [];
    CommandIs(args, []);
    NothingToScan();
    assert ParseAll(s, |s|) == Batch([], |s|, None);
    assert ParseAll(s, 0) == Batch([Command(args)] + [], |s|, None);
    assert ([Command(args)] + [])[0] == Command(args);
    TextsOfCommand(args);
  }

  lemma NothingToScan()
    ensures CommandEnd([]) == None
  {
  }
}
