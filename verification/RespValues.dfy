/**
 * RESP values of every kind, written out as the protocol has them: the parser
 * reads each of them back, nested as they may be.
 */
module RespValues {
  import opened Wrappers
  import opened Bytes
  import opened Resp
  import opened RespCodec
  import opened TimedMaps

  function EncodeLine(kind: Byte, text: Bytes): Bytes {
    [kind] + (text + CRLF)
  }

  function EncodeValue(v: RespValue): Bytes {
    match v
    case SimpleString(text) => EncodeLine(43, text)
    case Error(text) => EncodeLine(45, text)
    case Integer(n) => EncodeLine(58, Shown(n))
    case Bulk(text) => EncodeLine(36, Decimal(|text|)) + (text + CRLF)
    case Array(elements) => EncodeLine(42, Decimal(|elements|)) + EncodeValues(elements)
  }

  function EncodeValues(vs: seq<RespValue>): Bytes {
    if vs == [] then [] else EncodeValue(vs[0]) + EncodeValues(vs[1..])
  }

  /** No line end inside the text. */
  predicate OneLine(text: Bytes) {
    forall i | 0 <= i < |text| - 1 :: !(text[i] == CR && text[i + 1] == LF)
  }

  /** Texts of one line, numbers and sizes of 64 bits, and at most `levels` arrays one in the other. */
  predicate Sendable(v: RespValue, levels: nat)
    decreases v
  {
    match v
    case SimpleString(text) => OneLine(text)
    case Error(text) => OneLine(text)
    case Integer(n) => INT64_MIN <= n <= INT64_MAX
    case Bulk(text) => |text| <= INT64_MAX
    case Array(elements) =>
      levels > 0 && |elements| <= INT64_MAX && forall i | 0 <= i < |elements| :: Sendable(elements[i], levels - 1)
  }

  lemma LineIs(s: Bytes, pos: nat, kind: Byte, text: Bytes)
    requires At(s, pos, EncodeLine(kind, text)) && OneLine(text)
    ensures pos < |s| && s[pos] == kind && FindCrlf(s, pos + 1) == Some(pos + 1 + |text|)
    ensures s[pos + 1..pos + 1 + |text|] == text && pos + |EncodeLine(kind, text)| == pos + |text| + 3 <= |s|
  {
    var c := pos + 1 + |text|;
    var t := EncodeLine(kind, text);
    assert forall k | 0 <= k < |t| :: s[pos + k] == s[pos..pos + |t|][k] == t[k];
    assert s[pos] == t[0] == kind && s[c] == t[c - pos] == CR && s[c + 1] == t[c + 1 - pos] == LF;
    forall k | pos + 1 <= k < c
      ensures !CrlfAt(s, k) && s[k] == text[k - pos - 1]
    {
      assert s[k] == t[k - pos] == text[k - pos - 1];
      assert s[k + 1] == t[k + 1 - pos];
      assert k + 1 == c ==> s[k + 1] == CR;
    }
    assert CrlfAt(s, c);
    FirstCrlf(s, pos + 1, c);
  }

  lemma DigitsAreOneLine(n: nat)
    ensures OneLine(Decimal(n))
  {
    assert forall i | 0 <= i < |Decimal(n)| :: Decimal(n)[i] in Decimal(n);
  }

  lemma ShownIsOneLine(n: int)
    ensures OneLine(Shown(n))
  {
    hide Decimal;
    var digits := Decimal(if n < 0 then -n else n);
    assert forall i | 0 <= i < |digits| :: digits[i] in digits;
  }

  lemma CountIs(s: Bytes, pos: nat, kind: Byte, n: nat)
    requires n <= INT64_MAX && At(s, pos, EncodeLine(kind, Decimal(n)))
    ensures pos < |s| && s[pos] == kind && HeaderAt(s, pos) == Header(n, pos + |EncodeLine(kind, Decimal(n))|)
  {
    hide Decimal, ParseInt64, At, FindCrlf;
    DigitsAreOneLine(n);
    LineIs(s, pos, kind, Decimal(n));
    ParseDecimal(n);
  }

  /** Every value that can be sent is read back as itself, whatever stands before and behind it. */
  lemma {:induction false} ValueReadBack(s: Bytes, pos: nat, v: RespValue, depth: nat)
    requires depth <= 32 && Sendable(v, 32 - depth) && At(s, pos, EncodeValue(v))
    ensures pos <= |s| && ParseOne(s, pos, depth) == Ok(v, pos + |EncodeValue(v)|)
    decreases v, 1
  {
    hide At, ParseElements, HeaderAt, Decimal, FindCrlf, Shown, Stoll;
    match v
    case SimpleString(text) => LineIs(s, pos, 43, text);
    case Error(text) => LineIs(s, pos, 45, text);
    case Integer(n) =>
      ShownIsOneLine(n);
      LineIs(s, pos, 58, Shown(n));
      StollShown(n);
    case Bulk(text) =>
      var line := EncodeLine(36, Decimal(|text|));
      AtSplit(s, pos, line, text + CRLF);
      AtSplit(s, pos + |line|, text, CRLF);
      AtMeans(s, pos + |line|, text);
      AtMeans(s, pos + |line| + |text|, CRLF);
      CountIs(s, pos, 36, |text|);
    case Array(elements) =>
      var line := EncodeLine(42, Decimal(|elements|));
      AtSplit(s, pos, line, EncodeValues(elements));
      CountIs(s, pos, 42, |elements|);
      ValuesReadBack(s, pos + |line|, v, 0, depth + 1);
      assert elements[0..] == elements;
      assert ParseOne(s, pos, depth) == ParseArray(s, pos, depth) == ParseCounted(s, pos + |line|, |elements|, depth + 1);
  }

  /** The elements of the array from the `i`-th on. */
  lemma {:induction false} ValuesReadBack(s: Bytes, pos: nat, v: RespValue, i: nat, depth: nat)
    requires v.Array? && i <= |v.elements| && depth <= 32 && At(s, pos, EncodeValues(v.elements[i..]))
    requires forall j | 0 <= j < |v.elements| :: Sendable(v.elements[j], 32 - depth)
    ensures pos <= |s|
    ensures ParseElements(s, pos, |v.elements| - i, depth) ==
            Ok(v.elements[i..], pos + |EncodeValues(v.elements[i..])|)
    decreases v, 0, |v.elements| - i
  {
    hide At, ParseOne, EncodeValue, Sendable;
    var vs := v.elements[i..];
    AtMeans(s, pos, EncodeValues(vs));
    if vs == [] {
      assert ParseElements(s, pos, 0, depth) == Ok([], pos);
    } else {
      assert vs[0] == v.elements[i] && vs[1..] == v.elements[i + 1..];
      AtSplit(s, pos, EncodeValue(vs[0]), EncodeValues(vs[1..]));
      ValueReadBack(s, pos, v.elements[i], depth);
      ValuesReadBack(s, pos + |EncodeValue(vs[0])|, v, i + 1, depth);
      assert [vs[0]] + vs[1..] == vs;
    }
  }

  /** The two nulls are read as an empty string and an empty array. */
  lemma NullsAreEmpty(rest: Bytes)
    ensures ParseOne([36, 45, 49, 13, 10] + rest, 0, 0) == Ok(Bulk([]), 5)
    ensures ParseOne([42, 45, 49, 13, 10] + rest, 0, 0) == Ok(Array([]), 5)
  {
    MinusOne([36, 45, 49, 13, 10] + rest);
    MinusOne([42, 45, 49, 13, 10] + rest);
    hide HeaderAt;
    var s := [42, 45, 49, 13, 10] + rest;
    assert ParseOne(s, 0, 0) == ParseArray(s, 0, 0) == ParseCounted(s, 5, -1, 1);
  }

  lemma MinusOne(s: Bytes)
    requires |s| >= 5 && s[1] == 45 && s[2] == 49 && CrlfAt(s, 3)
    ensures HeaderAt(s, 0) == Header(-1, 5)
  {
    FirstCrlf(s, 1, 3);
    var text := s[1..3];
    assert text == [45, 49] && Shown(-1) == [45] + Decimal(1);
    assert text == Shown(-1);
    StollShown(-1);
  }
}
