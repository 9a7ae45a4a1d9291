/**
 * The RESP encoder, the round trip through scanner and parser, and the
 * connection that reads commands from a byte stream.
 */
module RespCodec {
  import opened Wrappers
  import opened Bytes
  import opened Resp

  function EncodeBulk(x: Bytes): Bytes {
    [DOLLAR] + Decimal(|x|) + CRLF + x + CRLF
  }

  function EncodeBulks(args: seq<Bytes>): Bytes {
    if args == [] then [] else EncodeBulk(args[0]) + EncodeBulks(args[1..])
  }

  function EncodeArray(args: seq<Bytes>): Bytes {
    [STAR] + Decimal(|args|) + CRLF + EncodeBulks(args)
  }

  /** `encode_array` builds its result by appending, element by element. */
  method EncodeArrayLoop(args: seq<Bytes>) returns (result: Bytes)
    ensures result == EncodeArray(args)
  {
    result := [STAR] + Decimal(|args|) + CRLF;
    var i := 0;
    assert args[0..] == args;
    while i < |args|
      invariant 0 <= i <= |args|
      invariant result + EncodeBulks(args[i..]) == EncodeArray(args)
    {
      assert args[i..][1..] == args[i + 1..];
      result := result + EncodeBulk(args[i]);
      i := i + 1;
    }
    assert result + EncodeBulks(args[i..]) == result;
  }

  /** Argument lists that fit a command: at most 2^20 arguments, lengths within `int64`. */
  predicate Encodable(args: seq<Bytes>) {
    |args| <= 1048576 && forall a | a in args :: |a| <= INT64_MAX
  }

  /** The value a command is delivered as. */
  function Command(args: seq<Bytes>): RespValue {
    Array(Bulks(args))
  }

  function Bulks(args: seq<Bytes>): seq<RespValue> {
    if args == [] then [] else [Bulk(args[0])] + Bulks(args[1..])
  }

  // ---- Reading back what was written ----

  /** The bytes of `s` from `pos` begin with `t`. */
  predicate At(s: Bytes, pos: nat, t: Bytes) {
    pos + |t| <= |s| && s[pos..pos + |t|] == t
  }

  lemma AtSplit(s: Bytes, pos: nat, t: Bytes, u: Bytes)
    ensures At(s, pos, t + u) <==> At(s, pos, t) && At(s, pos + |t|, u)
  {
    if pos + |t + u| <= |s| {
      var w := s[pos..pos + |t + u|];
      assert w[..|t|] == s[pos..pos + |t|] && w[|t|..] == s[pos + |t|..pos + |t| + |u|];
      assert w == w[..|t|] + w[|t|..];
      assert (t + u)[..|t|] == t && (t + u)[|t|..] == u;
    }
  }

  lemma AtMeans(s: Bytes, pos: nat, t: Bytes)
    requires At(s, pos, t)
    ensures pos + |t| <= |s| && s[pos..pos + |t|] == t
    ensures t != [] ==> s[pos] == t[0]
  {
  }

  lemma AtStart(t: Bytes, rest: Bytes)
    ensures At(t + rest, 0, t)
  {
  }

  lemma HeaderIs(s: Bytes, pos: nat, n: nat)
    requires n <= INT64_MAX && At(s, pos + 1, Decimal(n) + CRLF)
    ensures HeaderAt(s, pos) == Header(n, pos + 1 + |Decimal(n)| + 2)
  {
    hide Decimal, ParseInt64;
    AtSplit(s, pos + 1, Decimal(n), CRLF);
    var c := pos + 1 + |Decimal(n)|;
    assert s[c..c + 2] == CRLF && s[c] == CRLF[0] && s[c + 1] == CRLF[1];
    assert CrlfAt(s, c);
    forall k | pos + 1 <= k < c
      ensures !CrlfAt(s, k)
    {
      assert s[k] == Decimal(n)[k - pos - 1] && Decimal(n)[k - pos - 1] in Decimal(n);
    }
    ParseDecimal(n);
  }

  lemma BulkIs(s: Bytes, pos: nat, x: Bytes, depth: nat)
    requires |x| <= INT64_MAX && At(s, pos, EncodeBulk(x))
    ensures ElementEnd(s, pos) == Some(pos + |EncodeBulk(x)|)
    ensures ParseOne(s, pos, depth) == Ok(Bulk(x), pos + |EncodeBulk(x)|)
  {
    hide HeaderAt, Decimal, At, ParseArray;
    AtMeans(s, pos, EncodeBulk(x));
    var head := Decimal(|x|) + CRLF;
    assert EncodeBulk(x) == [DOLLAR] + (head + (x + CRLF));
    AtSplit(s, pos, [DOLLAR], head + (x + CRLF));
    AtSplit(s, pos + 1, head, x + CRLF);
    AtSplit(s, pos + 1 + |head|, x, CRLF);
    AtMeans(s, pos, [DOLLAR]);
    AtMeans(s, pos + 1 + |head|, x);
    AtMeans(s, pos + 1 + |head| + |x|, CRLF);
    HeaderIs(s, pos, |x|);
  }

  lemma FirstBulk(args: seq<Bytes>)
    ensures args == [] ==> EncodeBulks(args) == [] && Bulks(args) == []
    ensures args != [] ==> EncodeBulks(args) == EncodeBulk(args[0]) + EncodeBulks(args[1..])
    ensures args != [] ==> Bulks(args) == [Bulk(args[0])] + Bulks(args[1..])
  {
    hide EncodeBulk;
  }

  lemma {:induction false} BulksAre(s: Bytes, pos: nat, args: seq<Bytes>, depth: nat)
    requires At(s, pos, EncodeBulks(args)) && forall a | a in args :: |a| <= INT64_MAX
    ensures ElementsEnd(s, pos, |args|) == Some(pos + |EncodeBulks(args)|)
    ensures ParseElements(s, pos, |args|, depth) == Ok(Bulks(args), pos + |EncodeBulks(args)|)
    decreases |args|
  {
    hide At, EncodeBulk, ElementEnd, ParseOne, EncodeBulks, Bulks;
    AtMeans(s, pos, EncodeBulks(args));
    FirstBulk(args);
    if args == [] {
      assert ParseElements(s, pos, 0, depth) == Ok([], pos);
    } else {
      AtSplit(s, pos, EncodeBulk(args[0]), EncodeBulks(args[1..]));
      BulkIs(s, pos, args[0], depth);
      BulksAre(s, pos + |EncodeBulk(args[0])|, args[1..], depth);
    }
  }

  function BodyStart(args: seq<Bytes>): nat {
    1 + |Decimal(|args|)| + 2
  }

  lemma ArrayShape(args: seq<Bytes>)
    ensures EncodeArray(args) == [STAR] + (Decimal(|args|) + CRLF + EncodeBulks(args))
  {
    hide Decimal, EncodeBulks;
  }

  lemma ArrayParts(s: Bytes, args: seq<Bytes>)
    requires At(s, 0, EncodeArray(args)) && |args| <= MAX_COUNT
    ensures |s| >= 4 && s[0] == STAR && HeaderAt(s, 0) == Header(|args|, BodyStart(args))
    ensures At(s, BodyStart(args), EncodeBulks(args))
    ensures |EncodeArray(args)| == BodyStart(args) + |EncodeBulks(args)|
  {
    hide HeaderAt, At, EncodeBulks, Decimal, EncodeArray;
    var head := Decimal(|args|) + CRLF;
    ArrayShape(args);
    AtMeans(s, 0, EncodeArray(args));
    AtSplit(s, 0, [STAR], head + EncodeBulks(args));
    AtSplit(s, 1, head, EncodeBulks(args));
    AtMeans(s, 0, [STAR]);
    HeaderIs(s, 0, |args|);
  }

  /** An encoded command is scanned and parsed whole, whatever follows it. */
  lemma CommandIs(args: seq<Bytes>, rest: Bytes)
    requires Encodable(args)
    ensures CommandEnd(EncodeArray(args) + rest) == Some(|EncodeArray(args)|)
    ensures ParseOne(EncodeArray(args) + rest, 0, 0) == Ok(Command(args), |EncodeArray(args)|)
    ensures !ProtocolError(EncodeArray(args) + rest)
  {
    hide HeaderAt, At, EncodeArray, ElementsEnd, ParseElements, BodyStart;
    var s := EncodeArray(args) + rest;
    AtStart(EncodeArray(args), rest);
    ArrayParts(s, args);
    BulksAre(s, BodyStart(args), args, 1);
    assert ParseOne(s, 0, 0) == ParseArray(s, 0, 0) == ParseCounted(s, BodyStart(args), |args|, 1);
  }

  // ---- Nothing is recognised before its last byte ----

  /** `s` ends inside `t`, which began at `pos`. */
  predicate CutAt(s: Bytes, pos: nat, t: Bytes) {
    pos <= |s| < pos + |t| && s[pos..] == t[..|s| - pos]
  }

  lemma CutSplit(s: Bytes, pos: nat, t: Bytes, u: Bytes)
    requires CutAt(s, pos, t + u)
    ensures CutAt(s, pos, t) || (At(s, pos, t) && CutAt(s, pos + |t|, u))
  {
    if |s| < pos + |t| {
      assert (t + u)[..|s| - pos] == t[..|s| - pos];
    } else {
      assert s[pos..pos + |t|] == s[pos..][..|t|] && s[pos + |t|..] == s[pos..][|t|..];
    }
  }

  lemma CutMeans(s: Bytes, pos: nat, t: Bytes)
    requires CutAt(s, pos, t)
    ensures pos <= |s| < pos + |t| && (pos < |s| ==> s[pos] == t[0])
  {
    if pos < |s| {
      assert s[pos..][0] == s[pos] && t[..|s| - pos][0] == t[0];
    }
  }

  lemma CutAfterByte(s: Bytes, pos: nat, b: Byte, u: Bytes)
    requires CutAt(s, pos, [b] + u) && pos < |s|
    ensures s[pos] == b && CutAt(s, pos + 1, u)
  {
    CutSplit(s, pos, [b], u);
    CutMeans(s, pos, [b] + u);
  }

  lemma HeaderCut(s: Bytes, pos: nat, n: nat)
    requires CutAt(s, pos + 1, Decimal(n) + CRLF)
    ensures HeaderAt(s, pos) == NoLine
  {
    var line := Decimal(n) + CRLF;
    forall k | pos + 1 <= k
      ensures !CrlfAt(s, k)
    {
      if k + 1 < |s| {
        assert s[k] == s[pos + 1..][k - pos - 1] == line[k - pos - 1];
        assert line[k - pos - 1] == Decimal(n)[k - pos - 1] && Decimal(n)[k - pos - 1] in Decimal(n);
      }
    }
  }

  lemma BulkCut(s: Bytes, pos: nat, x: Bytes)
    requires CutAt(s, pos, EncodeBulk(x)) && |x| <= INT64_MAX
    ensures ElementEnd(s, pos) == None
  {
    hide HeaderAt, Decimal, At, CutAt;
    var head := Decimal(|x|) + CRLF;
    assert EncodeBulk(x) == [DOLLAR] + (head + (x + CRLF));
    CutMeans(s, pos, EncodeBulk(x));
    if pos < |s| {
      CutAfterByte(s, pos, DOLLAR, head + (x + CRLF));
      CutSplit(s, pos + 1, head, x + CRLF);
      if CutAt(s, pos + 1, head) {
        HeaderCut(s, pos, |x|);
      } else {
        HeaderIs(s, pos, |x|);
        CutMeans(s, pos + 1 + |head|, x + CRLF);
      }
    }
  }

  lemma {:induction false} BulksCut(s: Bytes, pos: nat, args: seq<Bytes>)
    requires CutAt(s, pos, EncodeBulks(args)) && forall a | a in args :: |a| <= INT64_MAX
    ensures ElementsEnd(s, pos, |args|) == None
    decreases |args|
  {
    hide At, CutAt, EncodeBulk, ElementEnd;
    CutMeans(s, pos, EncodeBulks(args));
    CutSplit(s, pos, EncodeBulk(args[0]), EncodeBulks(args[1..]));
    if CutAt(s, pos, EncodeBulk(args[0])) {
      BulkCut(s, pos, args[0]);
    } else {
      BulkIs(s, pos, args[0], 1);
      BulksCut(s, pos + |EncodeBulk(args[0])|, args[1..]);
    }
  }

  /** A proper prefix of an encoded command is incomplete, and no protocol error. */
  lemma CommandCut(args: seq<Bytes>, k: nat)
    requires Encodable(args) && k < |EncodeArray(args)|
    ensures CommandEnd(EncodeArray(args)[..k]) == None && !ProtocolError(EncodeArray(args)[..k])
  {
    var s := EncodeArray(args)[..k];
    CutStart(EncodeArray(args), k);
    ArrayCut(s, args);
    hide HeaderAt, At, CutAt, EncodeArray, BodyStart, ElementsEnd;
    if k > 0 && HeaderAt(s, 0) != NoLine {
      BulksCut(s, BodyStart(args), args);
    }
  }

  lemma CutStart(t: Bytes, k: nat)
    requires k < |t|
    ensures CutAt(t[..k], 0, t)
  {
  }

  lemma ArrayCut(s: Bytes, args: seq<Bytes>)
    requires CutAt(s, 0, EncodeArray(args)) && |args| <= MAX_COUNT
    ensures s != [] ==> s[0] == STAR
    ensures s != [] && HeaderAt(s, 0) != NoLine ==>
              HeaderAt(s, 0) == Header(|args|, BodyStart(args)) && CutAt(s, BodyStart(args), EncodeBulks(args))
  {
    hide HeaderAt, At, CutAt, EncodeBulks, Decimal, EncodeArray;
    var head := Decimal(|args|) + CRLF;
    ArrayShape(args);
    if s != [] {
      CutAfterByte(s, 0, STAR, head + EncodeBulks(args));
      CutSplit(s, 1, head, EncodeBulks(args));
      if CutAt(s, 1, head) {
        HeaderCut(s, 0, |args|);
      } else {
        HeaderIs(s, 0, |args|);
      }
    }
  }
}
