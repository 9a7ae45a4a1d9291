/** Exactly which payloads decode, and to what: no prefix, no trailing byte, no other tag. */
module Payloads {
  import opened Wrappers
  import opened Bytes
  import opened BusArgs
  import opened Objects

  /** A 64-bit number as text: digits only, any number of zeros in front. */
  predicate Numeral(t: Bytes, n: nat) {
    t != [] && (forall b | b in t :: 48 <= b <= 57) && Value(t) == n && n < 18446744073709551616
  }

  predicate EachNumbered(fields: seq<Bytes>, items: seq<Bytes>) {
    |fields| == |items| && forall i | 0 <= i < |items| :: Numeral(fields[i], |items[i]|)
  }

  lemma UnsignedIff(t: Bytes, n: nat)
    ensures ParseUnsigned(t) == Some(n) <==> Numeral(t, n)
  {
    hide Value;
    assert (forall b | b in t :: IsDigit(b)) <==> (forall b | b in t :: 48 <= b <= 57);
  }

  // ---- One record ----

  lemma RecordRead(s: Bytes, pos: nat, t: Bytes, x: Bytes)
    requires Numeral(t, |x|) && pos + |t| + 1 + |x| <= |s|
    requires s[pos..pos + |t| + 1] == t + [10] && s[pos + |t| + 1..pos + |t| + 1 + |x|] == x
    ensures ReadRecord(s, pos) == Some(Record(x, pos + |t| + 1 + |x|))
  {
    var e, w := pos + |t|, s[pos..pos + |t| + 1];
    assert s[pos..e] == w[..|t|] == t && s[e] == w[|t|] == 10;
    assert forall b | b in t :: IsDigit(b);
    UnsignedIff(t, |x|);
    hide ParseUnsigned, Numeral, FindLf;
    DigitsUpTo(s, pos, e, t);
  }

  lemma RecordFound(s: Bytes, pos: nat) returns (t: Bytes)
    requires pos <= |s| && ReadRecord(s, pos).Some?
    ensures var r := ReadRecord(s, pos).value;
            && Numeral(t, |r.payload|) && r.next == pos + |t| + 1 + |r.payload|
            && s[pos..pos + |t|] == t && s[pos + |t|] == 10 && s[pos + |t| + 1..r.next] == r.payload
  {
    hide ParseUnsigned, Numeral;
    t := s[pos..FindLf(s, pos).value];
    UnsignedIff(t, ParseUnsigned(t).value);
  }

  // ---- All records up to the end ----

  lemma NoRecords(s: Bytes, pos: nat)
    requires pos <= |s|
    ensures ReadRecords(s, pos, 0) == Some(Run([], pos)) && EachNumbered([], []) && Spelt([], []) == []
  {
  }

  lemma OneRecord(s: Bytes, pos: nat, n: nat)
    requires pos <= |s| && n > 0
    ensures ReadRecords(s, pos, n).Some? ==> ReadRecord(s, pos).Some?
    ensures ReadRecord(s, pos).Some? ==>
              var r := ReadRecord(s, pos).value;
              var more := ReadRecords(s, r.next, n - 1);
              ReadRecords(s, pos, n) == if more.None? then None else Some(Run([r.payload] + more.value.items, more.value.next))
  {
    hide ReadRecord;
  }

  lemma OneMoreNumbered(t: Bytes, x: Bytes, fields: seq<Bytes>, items: seq<Bytes>)
    requires Numeral(t, |x|) && EachNumbered(fields, items)
    ensures EachNumbered([t] + fields, [x] + items)
    ensures Spelt([t] + fields, [x] + items) == t + [10] + x + Spelt(fields, items)
  {
    hide Numeral;
    assert ([t] + fields)[1..] == fields && ([x] + items)[1..] == items;
  }

  lemma SameNumber(fields: seq<Bytes>, items: seq<Bytes>)
    requires EachNumbered(fields, items)
    ensures |fields| == |items| && (items == [] ==> fields == [])
  {
  }

  lemma FirstNumbered(fields: seq<Bytes>, items: seq<Bytes>)
    requires EachNumbered(fields, items) && items != []
    ensures Numeral(fields[0], |items[0]|) && EachNumbered(fields[1..], items[1..])
    ensures Spelt(fields, items) == fields[0] + [10] + items[0] + Spelt(fields[1..], items[1..])
    ensures fields == [fields[0]] + fields[1..] && items == [items[0]] + items[1..]
  {
    hide Numeral;
  }

  lemma {:induction false} RecordsRead(s: Bytes, pos: nat, fields: seq<Bytes>, items: seq<Bytes>)
    requires EachNumbered(fields, items) && pos <= |s| && s[pos..] == Spelt(fields, items)
    ensures ReadRecords(s, pos, |items|) == Some(Run(items, |s|))
    decreases |items|
  {
    hide ReadRecord, ReadRecords, Numeral, EachNumbered, Spelt;
    NoRecords(s, pos);
    SameNumber(fields, items);
    if items != [] {
      FirstNumbered(fields, items);
      Cut3(s, pos, fields[0] + [10], items[0], Spelt(fields[1..], items[1..]));
      RecordRead(s, pos, fields[0], items[0]);
      OneRecord(s, pos, |items|);
      RecordsRead(s, pos + |fields[0]| + 1 + |items[0]|, fields[1..], items[1..]);
    }
  }

  lemma {:induction false} RecordsFound(s: Bytes, pos: nat, n: nat) returns (fields: seq<Bytes>)
    requires pos <= |s| && ReadExactly(s, pos, n).Some?
    ensures EachNumbered(fields, ReadExactly(s, pos, n).value) && s[pos..] == Spelt(fields, ReadExactly(s, pos, n).value)
    decreases n
  {
    hide ReadRecord, ReadRecords, Numeral, EachNumbered, Spelt;
    fields := [];
    NoRecords(s, pos);
    if n > 0 {
      OneRecord(s, pos, n);
      var r := ReadRecord(s, pos).value;
      var t := RecordFound(s, pos);
      var rest := RecordsFound(s, r.next, n - 1);
      fields := [t] + rest;
      InParts(s, pos, t, r.next);
      OneMoreNumbered(t, r.payload, rest, ReadExactly(s, r.next, n - 1).value);
    }
  }

  // ---- The whole payload ----

  /** How many records belong to one element: a field or a score has two. */
  function PerElement(tag: Bytes): nat {
    if tag == [72, 65, 83, 72] || tag == [90, 83, 69, 84] then 2 else 1
  }

  /**
   * The payload is a tag line and records. A STRING has one; a LIST, HASH, SET
   * or ZSET has a count and as many as it says, which build the object.
   */
  predicate Carries(d: Doubles, s: Bytes, tag: Bytes, fields: seq<Bytes>, records: seq<Bytes>, o: Object) {
    && EachNumbered(fields, records) && s == tag + [10] + Spelt(fields, records)
    && KnownTag(tag)
    && if tag == [83, 84, 82, 73, 78, 71] then |records| == 1 && o == Text(records[0])
       else && |records| >= 1 && ParseUnsigned(records[0]).Some?
            && |records| - 1 == PerElement(tag) * ParseUnsigned(records[0]).value
            && Build(d, tag, records[1..]) == Some(o)
  }

  lemma TextDecoded(d: Doubles, s: Bytes, o: Object) returns (tag: Bytes, fields: seq<Bytes>, records: seq<Bytes>)
    requires Decode(d, s) == Some(o)
    ensures Carries(d, s, tag, fields, records, o)
  {
    hide ReadRecord, ReadRecords, Numeral, EachNumbered, Spelt, ParseUnsigned, Build;
    var e := FindLf(s, 0).value;
    tag := s[..e];
    var start := e + 1;
    assert s == tag + [10] + s[start..];
    if tag == STRING_TAG {
      records := ReadExactly(s, start, 1).value;
      fields := RecordsFound(s, start, 1);
    } else {
      var first, next := ReadRecord(s, start).value.payload, ReadCount(s, start).value.next;
      var n := PerElement(tag) * ReadCount(s, start).value.n;
      var flat := ReadExactly(s, next, n).value;
      var t := RecordFound(s, start);
      var rest := RecordsFound(s, next, n);
      fields, records := [t] + rest, [first] + flat;
      OneMoreNumbered(t, first, rest, flat);
      InParts(s, start, t, next);
      assert records[1..] == flat;
    }
  }

  predicate KnownTag(tag: Bytes) {
    || tag == [83, 84, 82, 73, 78, 71] || tag == [76, 73, 83, 84] || tag == [72, 65, 83, 72]
    || tag == [83, 69, 84] || tag == [90, 83, 69, 84]
  }

  lemma BodyFound(s: Bytes, tag: Bytes, body: Bytes)
    requires KnownTag(tag) && s == tag + [10] + body
    ensures FindLf(s, 0) == Some(|tag|) && s[..|tag|] == tag && |tag| < |s| && s[|tag| + 1..] == body
  {
    hide FindLf;
    TagFound(tag, body);
  }

  lemma CountedRead(s: Bytes, start: nat, fields: seq<Bytes>, records: seq<Bytes>)
    requires EachNumbered(fields, records) && records != [] && start <= |s| && s[start..] == Spelt(fields, records)
    requires ParseUnsigned(records[0]).Some?
    ensures ReadCount(s, start).Some? && ReadCount(s, start).value.n == ParseUnsigned(records[0]).value
    ensures ReadExactly(s, ReadCount(s, start).value.next, |records| - 1) == Some(records[1..])
  {
    hide ReadRecord, ReadRecords, Numeral, EachNumbered, Spelt, ParseUnsigned;
    SameNumber(fields, records);
    FirstNumbered(fields, records);
    var next := start + |fields[0]| + 1 + |records[0]|;
    Cut3(s, start, fields[0] + [10], records[0], Spelt(fields[1..], records[1..]));
    RecordRead(s, start, fields[0], records[0]);
    RecordsRead(s, next, fields[1..], records[1..]);
  }

  lemma TextDecodes(d: Doubles, s: Bytes, tag: Bytes, fields: seq<Bytes>, records: seq<Bytes>, o: Object)
    requires Carries(d, s, tag, fields, records, o)
    ensures Decode(d, s) == Some(o)
  {
    hide ReadCount, ReadRecords, EachNumbered, Spelt, ParseUnsigned, Build, FindLf;
    SameNumber(fields, records);
    BodyFound(s, tag, Spelt(fields, records));
    if tag == STRING_TAG {
      RecordsRead(s, |tag| + 1, fields, records);
    } else {
      CountedRead(s, |tag| + 1, fields, records);
    }
  }

  /** A payload decodes to an object if and only if it is a tag line and exactly the records that build it. */
  lemma DecodesIff(d: Doubles, s: Bytes, o: Object)
    ensures Decode(d, s) == Some(o) <==> exists tag, fields, records :: Carries(d, s, tag, fields, records, o)
  {
    hide Decode, Carries;
    if Decode(d, s) == Some(o) {
      var tag, fields, records := TextDecoded(d, s, o);
    }
    if tag, fields, records :| Carries(d, s, tag, fields, records, o) {
      TextDecodes(d, s, tag, fields, records, o);
    }
  }
}
