/** The v2 argument frame of the cluster bus: a count, then each argument behind its length. */
module BusArgs {
  import opened Wrappers
  import opened Bytes

  const MAX_ARGS: nat := 0x10_0000
  /** A length field has at most ten digits. */
  const MAX_FIELD: nat := 9_999_999_999

  function EncodeField(n: nat): Bytes {
    Decimal(n) + [LF]
  }

  function EncodeEach(args: seq<Bytes>): Bytes {
    if args == [] then [] else EncodeField(|args[0]|) + args[0] + EncodeEach(args[1..])
  }

  /** `bus_args_encode`. */
  function EncodeArgs(args: seq<Bytes>): Bytes {
    EncodeField(|args|) + EncodeEach(args)
  }

  method EncodeArgsLoop(args: seq<Bytes>) returns (out: Bytes)
    ensures out == EncodeArgs(args)
  {
    out := EncodeField(|args|);
    var i := 0;
    assert args[0..] == args;
    while i < |args|
      invariant 0 <= i <= |args|
      invariant out + EncodeEach(args[i..]) == EncodeArgs(args)
    {
      assert args[i..][1..] == args[i + 1..];
      out := out + EncodeField(|args[i]|) + args[i];
      i := i + 1;
    }
    assert out + EncodeEach(args[i..]) == out;
  }

  /** `bus_args_frame_bytes`: the length, computed without building the frame. */
  method FrameBytes(args: seq<Bytes>) returns (bytes: nat)
    ensures bytes == |EncodeArgs(args)|
  {
    var d := DecimalDigits(|args|);
    bytes := d + 1;
    var i := 0;
    assert args[0..] == args;
    while i < |args|
      invariant 0 <= i <= |args|
      invariant bytes + |EncodeEach(args[i..])| == |EncodeArgs(args)|
    {
      assert args[i..][1..] == args[i + 1..];
      d := DecimalDigits(|args[i]|);
      bytes := bytes + d + 1 + |args[i]|;
      i := i + 1;
    }
  }

  // ---- Decoding ----

  function FindLf(s: Bytes, from: nat): (r: Option<nat>)
    ensures r.Some? ==> from <= r.value < |s| && s[r.value] == LF
    ensures forall k | from <= k < |s| && (r.Some? ==> k < r.value) :: s[k] != LF
    decreases |s| - from
  {
    if from >= |s| then None else if s[from] == LF then Some(from) else FindLf(s, from + 1)
  }

  datatype Field = Field(value: nat, next: nat)

  /** `read_field`: one to ten digits and a newline. */
  function ReadField(s: Bytes, pos: nat): (r: Option<Field>)
    ensures r.Some? ==> pos < r.value.next <= |s|
  {
    match FindLf(s, pos)
    case None => None
    case Some(e) =>
      if e == pos || e - pos > 10 || !(forall k | pos <= k < e :: IsDigit(s[k])) then None
      else
        assert forall b | b in s[pos..e] :: IsDigit(b);
        Some(Field(Value(s[pos..e]), e + 1))
  }

  function DecodeEach(s: Bytes, pos: nat, count: nat): (r: Option<seq<Bytes>>)
    requires pos <= |s|
    ensures r.Some? ==> |r.value| == count
    decreases count
  {
    if count == 0 then (if pos == |s| then Some([]) else None)
    else
      match ReadField(s, pos)
      case None => None
      case Some(field) =>
        if field.value > |s| - field.next then None
        else
          var end := field.next + field.value;
          var rest := DecodeEach(s, end, count - 1);
          if rest.None? then None else Some([s[field.next..end]] + rest.value)
  }

  /** `bus_args_decode`. */
  function DecodeArgs(s: Bytes): Option<seq<Bytes>> {
    match ReadField(s, 0)
    case None => None
    case Some(field) =>
      if field.value > MAX_ARGS || field.value > |s| then None
      else DecodeEach(s, field.next, field.value)
  }

  /** `read_field` as it runs: find the newline, check the width, add up the digits. */
  method ReadFieldLoop(s: Bytes, start: nat) returns (r: Option<Field>)
    requires start <= |s|
    ensures r == ReadField(s, start)
  {
    hide Value;
    var pos: nat := start;
    while pos < |s| && s[pos] != LF
      invariant start <= pos <= |s| && FindLf(s, start) == FindLf(s, pos)
    {
      pos := pos + 1;
    }
    if pos >= |s| || pos == start || pos - start > 10 {
      return None;
    }
    var v: nat, i: nat := 0, start;
    NoDigits();
    assert s[start..start] == [];
    while i < pos
      invariant start <= i <= pos && (forall k | start <= k < i :: IsDigit(s[k]))
      invariant (forall b | b in s[start..i] :: IsDigit(b)) && v == Value(s[start..i])
    {
      if !IsDigit(s[i]) {
        return None;
      }
      OneMoreDigit(s[start..i], s[i]);
      assert s[start..i + 1] == s[start..i] + [s[i]];
      v := v * 10 + (s[i] - ZERO);
      i := i + 1;
    }
    return Some(Field(v, pos + 1));
  }

  lemma NoDigits()
    ensures Value([]) == 0
  {
  }

  lemma OneMoreDigit(s: Bytes, b: Byte)
    requires (forall x | x in s :: IsDigit(x)) && IsDigit(b)
    ensures (forall x | x in s + [b] :: IsDigit(x)) && Value(s + [b]) == Value(s) * 10 + (b - ZERO)
  {
    assert (s + [b])[..|s|] == s;
  }

  method DecodeArgsLoop(s: Bytes) returns (r: Option<seq<Bytes>>)
    ensures r == DecodeArgs(s)
  {
    hide ReadField;
    var field := ReadFieldLoop(s, 0);
    if field.None? || field.value.value > MAX_ARGS || field.value.value > |s| {
      return None;
    }
    var count: nat := field.value.value;
    var pos: nat := field.value.next;
    var out: seq<Bytes> := [];
    var i: nat := 0;
    assert DecodeEach(s, pos, count).Some? ==> [] + DecodeEach(s, pos, count).value == DecodeEach(s, pos, count).value;
    while i < count
      invariant i <= count && pos <= |s|
      invariant DecodeArgs(s) == Behind(out, DecodeEach(s, pos, count - i))
    {
      field := ReadFieldLoop(s, pos);
      if field.None? || field.value.value > |s| - field.value.next {
        return None;
      }
      ghost var rest := DecodeEach(s, field.value.next + field.value.value, count - i - 1);
      var arg := s[field.value.next..field.value.next + field.value.value];
      assert rest.Some? ==> out + ([arg] + rest.value) == out + [arg] + rest.value;
      out := out + [arg];
      pos := field.value.next + field.value.value;
      i := i + 1;
    }
    assert out + [] == out;
    return if pos != |s| then None else Some(out);
  }

  ghost function Behind(out: seq<Bytes>, rest: Option<seq<Bytes>>): Option<seq<Bytes>> {
    if rest.Some? then Some(out + rest.value) else None
  }

  // ---- Round trip ----

  predicate Sendable(args: seq<Bytes>) {
    |args| <= MAX_ARGS && forall a | a in args :: |a| <= MAX_FIELD
  }

  lemma {:induction false} DecimalWidth(n: nat, w: nat, bound: nat)
    requires n < bound && (w > 0 && (w == 1 ==> bound <= 10))
    requires w > 1 ==> bound <= Pow10(w)
    ensures |Decimal(n)| <= w
    decreases w
  {
    if n >= 10 {
      DecimalWidth(n / 10, w - 1, Pow10(w - 1));
    }
  }

  function Pow10(w: nat): nat {
    if w == 0 then 1 else 10 * Pow10(w - 1)
  }

  lemma TenDigits(n: nat)
    requires n <= MAX_FIELD
    ensures |Decimal(n)| <= 10
  {
    assert Pow10(5) == 100_000;
    assert Pow10(10) == 10_000_000_000;
    DecimalWidth(n, 10, Pow10(10));
  }

  /** A length as text: one to ten digits, zeros in front allowed. */
  predicate Spells(t: Bytes, n: nat) {
    1 <= |t| <= 10 && (forall b | b in t :: 48 <= b <= 57) && Value(t) == n
  }

  lemma FieldRead(s: Bytes, pos: nat, t: Bytes, n: nat)
    requires Spells(t, n) && pos + |t| < |s| && s[pos..pos + |t|] == t && s[pos + |t|] == 10
    ensures ReadField(s, pos) == Some(Field(n, pos + |t| + 1))
  {
    hide Value;
    forall k | pos <= k < pos + |t|
      ensures IsDigit(s[k])
    {
      assert s[k] == s[pos..pos + |t|][k - pos] && s[k] in t;
    }
    assert FindLf(s, pos) == Some(pos + |t|);
  }

  lemma FieldFound(s: Bytes, pos: nat) returns (t: Bytes)
    requires pos <= |s| && ReadField(s, pos).Some?
    ensures Spells(t, ReadField(s, pos).value.value) && ReadField(s, pos).value.next == pos + |t| + 1
    ensures s[pos..pos + |t|] == t && s[pos + |t|] == 10
  {
    hide Value;
    t := s[pos..FindLf(s, pos).value];
    assert forall b | b in t :: IsDigit(b);
  }

  /** The field written at `pos` is read back, whatever follows. */
  lemma FieldIs(s: Bytes, pos: nat, n: nat)
    requires n <= MAX_FIELD
    requires pos + |EncodeField(n)| <= |s| && s[pos..pos + |EncodeField(n)|] == EncodeField(n)
    ensures ReadField(s, pos) == Some(Field(n, pos + |EncodeField(n)|))
  {
    var e, w := |Decimal(n)|, s[pos..pos + |EncodeField(n)|];
    assert w[e] == s[pos + e] == LF;
    assert s[pos..pos + e] == w[..e] == Decimal(n);
    TenDigits(n);
    DecimalValue(n);
    hide ReadField, Value, Decimal;
    assert forall b | b in Decimal(n) :: IsDigit(b);
    FieldRead(s, pos, Decimal(n), n);
  }

  /** A field whose newline has not arrived is refused. */
  lemma FieldCut(s: Bytes, pos: nat, n: nat)
    requires pos <= |s| < pos + |EncodeField(n)| && s[pos..] == EncodeField(n)[..|s| - pos]
    ensures ReadField(s, pos) == None
  {
    forall k | pos <= k < |s|
      ensures s[k] != LF
    {
      assert s[k] == s[pos..][k - pos] == Decimal(n)[k - pos] && Decimal(n)[k - pos] in Decimal(n);
    }
  }

  lemma NoneDecoded(s: Bytes, pos: nat)
    requires pos <= |s|
    ensures EncodeEach([]) == [] && DecodeEach(s, pos, 0) == if pos == |s| then Some([]) else None
  {
  }

  lemma OneDecoded(s: Bytes, pos: nat, count: nat)
    requires pos <= |s| && count > 0
    ensures DecodeEach(s, pos, count).Some? ==> ReadField(s, pos).Some?
    ensures ReadField(s, pos).Some? ==>
              var next := ReadField(s, pos).value.next;
              var end := next + ReadField(s, pos).value.value;
              DecodeEach(s, pos, count) ==
              if end <= |s| then Behind([s[next..end]], DecodeEach(s, end, count - 1)) else None
  {
    hide ReadField;
  }

  /** The arguments at `pos` decode exactly when nothing follows them. */
  lemma {:induction false} EachIs(s: Bytes, pos: nat, args: seq<Bytes>, rest: Bytes)
    requires pos <= |s| && s[pos..] == EncodeEach(args) + rest
    requires forall a | a in args :: |a| <= MAX_FIELD
    ensures DecodeEach(s, pos, |args|) == if rest == [] then Some(args) else None
    decreases |args|
  {
    hide ReadField, EncodeField, EncodeEach, DecodeEach;
    NoneDecoded(s, pos);
    if args == [] {
      assert s[pos..] == rest;
    } else {
      EachSplit(args, rest);
      var head := EncodeField(|args[0]|);
      var end := pos + |head| + |args[0]|;
      Cut3(s, pos, head, args[0], EncodeEach(args[1..]) + rest);
      FieldIs(s, pos, |args[0]|);
      OneDecoded(s, pos, |args|);
      EachIs(s, end, args[1..], rest);
      assert [args[0]] + args[1..] == args;
    }
  }

  lemma EachSplit(args: seq<Bytes>, rest: Bytes)
    requires args != []
    ensures EncodeEach(args) + rest == EncodeField(|args[0]|) + args[0] + (EncodeEach(args[1..]) + rest)
  {
    hide EncodeField;
  }

  lemma Cut3(s: Bytes, pos: nat, a: Bytes, b: Bytes, c: Bytes)
    requires pos <= |s| && s[pos..] == a + b + c
    ensures |s| == pos + |a| + |b| + |c|
    ensures s[pos..pos + |a|] == a && s[pos + |a|..pos + |a| + |b|] == b && s[pos + |a| + |b|..] == c
  {
    assert s[pos..pos + |a|] == s[pos..][..|a|];
    assert s[pos + |a|..pos + |a| + |b|] == s[pos..][|a|..|a| + |b|];
    assert s[pos + |a| + |b|..] == s[pos..][|a| + |b|..];
  }

  /** Arguments cut short never decode. */
  lemma {:induction false} EachCut(s: Bytes, pos: nat, args: seq<Bytes>)
    requires pos <= |s| < pos + |EncodeEach(args)| && s[pos..] == EncodeEach(args)[..|s| - pos]
    requires forall a | a in args :: |a| <= MAX_FIELD
    ensures DecodeEach(s, pos, |args|) == None
    decreases |args|
  {
    hide ReadField, EncodeField;
    var head := EncodeField(|args[0]|);
    var whole := EncodeEach(args);
    var next := pos + |head|;
    assert whole[0..] == head + args[0] + EncodeEach(args[1..]);
    Cut3(whole, 0, head, args[0], EncodeEach(args[1..]));
    if |s| < next {
      assert s[pos..] == whole[..|head|][..|s| - pos];
      FieldCut(s, pos, |args[0]|);
    } else {
      assert s[pos..next] == s[pos..][..|head|] == whole[..|head|];
      FieldIs(s, pos, |args[0]|);
      var end := next + |args[0]|;
      if end <= |s| {
        assert s[end..] == s[pos..][end - pos..] == whole[end - pos..][..|s| - end];
        EachCut(s, end, args[1..]);
      }
    }
  }

  /** Decoding undoes encoding, and an encoding with anything after it is refused. */
  lemma RoundTripOrExtended(args: seq<Bytes>, rest: Bytes)
    requires Sendable(args)
    ensures DecodeArgs(EncodeArgs(args) + rest) == if rest == [] then Some(args) else None
  {
    hide ReadField;
    var s := EncodeArgs(args) + rest;
    var head := EncodeField(|args|);
    assert s[0..|head|] == head;
    FieldIs(s, 0, |args|);
    assert s[|head|..] == EncodeEach(args) + rest;
    EachIs(s, |head|, args, rest);
    AtLeastOneByteEach(args);
  }

  /** No proper prefix of an encoding decodes. */
  lemma PrefixRefused(args: seq<Bytes>, k: nat)
    requires Sendable(args) && k < |EncodeArgs(args)|
    ensures DecodeArgs(EncodeArgs(args)[..k]) == None
  {
    hide ReadField;
    var s := EncodeArgs(args)[..k];
    var head := EncodeField(|args|);
    if k < |head| {
      assert s[0..] == head[..k];
      FieldCut(s, 0, |args|);
    } else {
      assert s[0..|head|] == head;
      FieldIs(s, 0, |args|);
      assert s[|head|..] == EncodeEach(args)[..k - |head|];
      EachCut(s, |head|, args);
    }
  }

  lemma {:induction false} AtLeastOneByteEach(args: seq<Bytes>)
    ensures |args| <= |EncodeEach(args)|
  {
    if args != [] {
      AtLeastOneByteEach(args[1..]);
    }
  }

  // ---- Exactly which texts decode ----

  /** Arguments behind their lengths, written as `fields`. */
  function Spelt(fields: seq<Bytes>, args: seq<Bytes>): Bytes
    requires |fields| == |args|
  {
    if args == [] then [] else fields[0] + [10] + args[0] + Spelt(fields[1..], args[1..])
  }

  predicate EachSpelt(fields: seq<Bytes>, args: seq<Bytes>) {
    |fields| == |args| && forall i | 0 <= i < |args| :: Spells(fields[i], |args[i]|)
  }

  lemma {:induction false} EachRead(s: Bytes, pos: nat, fields: seq<Bytes>, args: seq<Bytes>)
    requires EachSpelt(fields, args) && pos <= |s| && s[pos..] == Spelt(fields, args)
    ensures DecodeEach(s, pos, |args|) == Some(args)
    decreases |args|
  {
    hide ReadField, Spells, DecodeEach;
    if args == [] {
      NoneDecoded(s, pos);
    } else {
      var head, end := fields[0] + [10], pos + |fields[0]| + 1 + |args[0]|;
      Cut3(s, pos, head, args[0], Spelt(fields[1..], args[1..]));
      HeadRead(s, pos, fields[0], |args[0]|);
      OneDecoded(s, pos, |args|);
      EachRead(s, end, fields[1..], args[1..]);
      assert [args[0]] + args[1..] == args;
    }
  }

  lemma HeadRead(s: Bytes, pos: nat, t: Bytes, n: nat)
    requires Spells(t, n) && pos + |t| < |s| && s[pos..pos + |t| + 1] == t + [10]
    ensures ReadField(s, pos) == Some(Field(n, pos + |t| + 1))
  {
    var w := s[pos..pos + |t| + 1];
    assert s[pos..pos + |t|] == w[..|t|] && s[pos + |t|] == w[|t|];
    hide ReadField, Spells;
    FieldRead(s, pos, t, n);
  }

  lemma NothingSpelt(s: Bytes)
    ensures EachSpelt([], []) && s[|s|..] == Spelt([], [])
  {
  }

  lemma {:induction false} EachFound(s: Bytes, pos: nat, count: nat) returns (fields: seq<Bytes>)
    requires pos <= |s| && DecodeEach(s, pos, count).Some?
    ensures EachSpelt(fields, DecodeEach(s, pos, count).value) && s[pos..] == Spelt(fields, DecodeEach(s, pos, count).value)
    decreases count
  {
    hide ReadField, Spells, Spelt, EachSpelt, DecodeEach;
    fields := [];
    NothingSpelt(s);
    NoneDecoded(s, pos);
    if count > 0 {
      OneDecoded(s, pos, count);
      var field := ReadField(s, pos).value;
      var end := field.next + field.value;
      var t := FieldFound(s, pos);
      var rest := EachFound(s, end, count - 1);
      fields := [t] + rest;
      InParts(s, pos, t, end);
      OneMoreSpelt(t, s[field.next..end], rest, DecodeEach(s, end, count - 1).value);
    }
  }

  lemma InParts(s: Bytes, pos: nat, t: Bytes, end: nat)
    requires pos + |t| < end <= |s| && s[pos..pos + |t|] == t && s[pos + |t|] == 10
    ensures s[pos..] == t + [10] + s[pos + |t| + 1..end] + s[end..]
  {
  }

  lemma OneMoreSpelt(t: Bytes, a: Bytes, fields: seq<Bytes>, args: seq<Bytes>)
    requires Spells(t, |a|) && EachSpelt(fields, args)
    ensures EachSpelt([t] + fields, [a] + args)
    ensures Spelt([t] + fields, [a] + args) == t + [10] + a + Spelt(fields, args)
  {
    hide Spells;
    assert ([t] + fields)[1..] == fields && ([a] + args)[1..] == args;
  }

  /** The whole text: how many arguments, then each behind its length. */
  predicate Writes(s: Bytes, count: Bytes, fields: seq<Bytes>, args: seq<Bytes>) {
    EachSpelt(fields, args) && Spells(count, |args|) && s == count + [10] + Spelt(fields, args)
  }

  lemma {:induction false} SpeltIsLong(fields: seq<Bytes>, args: seq<Bytes>)
    requires |fields| == |args|
    ensures |args| <= |Spelt(fields, args)|
  {
    if args != [] {
      SpeltIsLong(fields[1..], args[1..]);
    }
  }

  /**
   * A text decodes to `args` if and only if it says how many there are, at most
   * 2^20, and then each behind its length, every number in one to ten digits.
   */
  lemma DecodesIff(s: Bytes, args: seq<Bytes>)
    ensures DecodeArgs(s) == Some(args) <==> |args| <= 1048576 && exists count, fields :: Writes(s, count, fields, args)
  {
    hide ReadField, Spells, Spelt;
    if DecodeArgs(s) == Some(args) {
      var count := FieldFound(s, 0);
      var next := |count| + 1;
      var fields := EachFound(s, next, |args|);
      assert s == s[0..|count|] + [10] + s[next..];
      assert Writes(s, count, fields, args);
    }
    if |args| <= 1048576 && exists count, fields :: Writes(s, count, fields, args) {
      var count, fields :| Writes(s, count, fields, args);
      assert s[0..|count| + 1] == count + [10];
      HeadRead(s, 0, count, |args|);
      SpeltIsLong(fields, args);
      assert s[|count| + 1..] == Spelt(fields, args);
      EachRead(s, |count| + 1, fields, args);
    }
  }
}
