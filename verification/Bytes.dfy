/** Bytes, and decimal numbers written as text. */
module Bytes {
  import opened Wrappers

  type Byte = b: int | 0 <= b < 256

  type Bytes = seq<Byte>

  const CR: Byte := 13
  const LF: Byte := 10
  const ZERO: Byte := 48
  const MINUS: Byte := 45
  const PLUS: Byte := 43
  const SPACE: Byte := 32

  const INT64_MAX: int := 0x7FFF_FFFF_FFFF_FFFF
  const INT64_MIN: int := -0x8000_0000_0000_0000

  const UINT64_LIMIT: nat := 0x1_0000_0000_0000_0000

  /** How many numbers fit into `width` bytes. */
  function Limit(width: nat): nat {
    if width == 0 then 1 else 256 * Limit(width - 1)
  }

  predicate IsDigit(b: Byte) {
    ZERO <= b <= ZERO + 9
  }

  predicate IsSpace(b: Byte) {
    b == SPACE || 9 <= b <= 13
  }

  /** `std::to_string` of an unsigned number. */
  function Decimal(n: nat): (s: Bytes)
    ensures s != [] && forall b | b in s :: IsDigit(b)
  {
    if n < 10 then [ZERO + n] else Decimal(n / 10) + [ZERO + n % 10]
  }

  /** The value of a run of digits, most significant first. */
  function Value(s: Bytes): nat
    requires forall b | b in s :: IsDigit(b)
  {
    if s == [] then 0
    else
      assert IsDigit(s[|s| - 1]) && forall b | b in s[..|s| - 1] :: b in s;
      Value(s[..|s| - 1]) * 10 + (s[|s| - 1] - ZERO)
  }

  lemma {:induction false} DecimalValue(n: nat)
    ensures Value(Decimal(n)) == n
  {
    if n >= 10 {
      DecimalValue(n / 10);
      assert Decimal(n)[..|Decimal(n)| - 1] == Decimal(n / 10);
    }
  }

  /** Two numbers never print the same. */
  lemma DecimalInjective(m: nat, n: nat)
    requires Decimal(m) == Decimal(n)
    ensures m == n
  {
    DecimalValue(m);
    DecimalValue(n);
  }

  /** The number of decimal digits, counted the way the bus computes its frame length. */
  method DecimalDigits(v: nat) returns (n: nat)
    ensures n == |Decimal(v)|
  {
    n := 1;
    var rest := v;
    while rest >= 10
      invariant |Decimal(v)| == |Decimal(rest)| + n - 1
    {
      rest := rest / 10;
      n := n + 1;
    }
  }

  /** The end of the run of digits from `i`. */
  function DigitsEnd(s: Bytes, i: nat): (e: nat)
    requires i <= |s|
    ensures i <= e <= |s| && forall k | i <= k < e :: IsDigit(s[k])
    ensures e < |s| ==> !IsDigit(s[e])
    decreases |s| - i
  {
    if i < |s| && IsDigit(s[i]) then DigitsEnd(s, i + 1) else i
  }

  function SkipSpaces(s: Bytes, i: nat): (e: nat)
    requires i <= |s|
    ensures i <= e <= |s|
    decreases |s| - i
  {
    if i < |s| && IsSpace(s[i]) then SkipSpaces(s, i + 1) else i
  }

  datatype Number = Number(value: int, end: nat)

  /** `std::stoll`: blanks, a sign, digits, in range; stops at the first other byte. */
  function Stoll(s: Bytes): (r: Option<Number>)
    ensures r.Some? ==> 0 < r.value.end <= |s|
  {
    var i := SkipSpaces(s, 0);
    var neg := i < |s| && s[i] == MINUS;
    var d := if i < |s| && (s[i] == MINUS || s[i] == PLUS) then i + 1 else i;
    var e := DigitsEnd(s, d);
    if e == d then None
    else
      assert forall b | b in s[d..e] :: IsDigit(b);
      var m: int := Value(s[d..e]);
      var v := if neg then -m else m;
      if INT64_MIN <= v <= INT64_MAX then Some(Number(v, e)) else None
  }

  /** `parse_int64_safe`: the whole text must be the number. */
  function ParseInt64(s: Bytes): Option<int> {
    var r := Stoll(s);
    if r.Some? && r.value.end == |s| then Some(r.value.value) else None
  }

  lemma {:induction false} AllDigits(s: Bytes, i: nat)
    requires i <= |s| && forall k | i <= k < |s| :: IsDigit(s[k])
    ensures DigitsEnd(s, i) == |s|
    decreases |s| - i
  {
    if i < |s| {
      AllDigits(s, i + 1);
    }
  }

  lemma {:induction false} BlanksSkipped(s: Bytes, i: nat, e: nat)
    requires i <= e <= |s| && (forall k | i <= k < e :: IsSpace(s[k])) && (e < |s| ==> !IsSpace(s[e]))
    ensures SkipSpaces(s, i) == e
    decreases e - i
  {
    if i < e {
      BlanksSkipped(s, i + 1, e);
    }
  }

  lemma {:induction false} DigitsRead(s: Bytes, i: nat, e: nat)
    requires i <= e <= |s| && (forall k | i <= k < e :: IsDigit(s[k])) && (e < |s| ==> !IsDigit(s[e]))
    ensures DigitsEnd(s, i) == e
    decreases e - i
  {
    if i < e {
      DigitsRead(s, i + 1, e);
    }
  }

  /**
   * Any text is blanks, a sign or none, digits and the rest. It is a number
   * exactly when there is a digit and the value fits 64 bits, and then the
   * number ends where the rest starts; for `parse_int64_safe` there must be none.
   */
  lemma StollIs(s: Bytes, a: nat, d: nat, e: nat)
    requires a <= d <= e <= |s| && d <= a + 1
    requires forall k | 0 <= k < a :: s[k] == 32 || 9 <= s[k] <= 13
    requires a < |s| ==> !(s[a] == 32 || 9 <= s[a] <= 13)
    requires d == a + 1 <==> a < |s| && (s[a] == 43 || s[a] == 45)
    requires forall k | d <= k < e :: 48 <= s[k] <= 57
    requires e < |s| ==> !(48 <= s[e] <= 57)
    ensures forall b | b in s[d..e] :: IsDigit(b)
    ensures var v := Value(s[d..e]) * if d > a && s[a] == 45 then -1 else 1;
            && Stoll(s) == (if d < e && -9223372036854775808 <= v <= 9223372036854775807 then Some(Number(v, e)) else None)
            && ParseInt64(s) == if e == |s| && Stoll(s).Some? then Some(v) else None
  {
    BlanksSkipped(s, 0, a);
    DigitsRead(s, d, e);
    hide Value, SkipSpaces, DigitsEnd;
    assert forall b | b in s[d..e] :: IsDigit(b);
  }

  lemma ParseDecimal(n: nat)
    requires n <= INT64_MAX
    ensures ParseInt64(Decimal(n)) == Some(n)
  {
    var s := Decimal(n);
    assert forall k | 0 <= k < |s| :: s[k] in s;
    AllDigits(s, 0);
    assert s[0..|s|] == s;
    DecimalValue(n);
  }
}
