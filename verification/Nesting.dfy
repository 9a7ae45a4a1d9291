/**
 * Arrays inside arrays. The scanner does not recurse: it counts stars up and
 * line ends down. So it passes array headers, stops behind the first other
 * line, and takes whatever follows for the next element. This module says
 * exactly when it meets the parser again.
 */
module Nesting {
  import opened Wrappers
  import opened Bytes
  import opened Resp

  /** In reading order: an array header, a value of one line, or a bulk string, which is a length line and a text. */
  datatype Item = Head | Line | Text

  datatype Found = Found(item: Item, end: nat, inner: nat)

  predicate TypeByte(b: Byte) {
    b in {PLUS, MINUS, COLON, DOLLAR, STAR}
  }

  /** The bulk string at `pos` has a text, so it is not null. */
  predicate HasText(s: Bytes, pos: nat)
    requires pos < |s|
  {
    s[pos] == DOLLAR && HeaderAt(s, pos).Header? && HeaderAt(s, pos).n >= 0
  }

  /** One item; `inner` is how many values an array header announces. */
  function ItemAt(s: Bytes, pos: nat): (r: Option<Found>)
    requires pos < |s|
    ensures r.Some? ==> pos < r.value.end <= |s|
  {
    if s[pos] == STAR then
      match HeaderAt(s, pos)
      case Header(n, next) => if n < -1 then None else Some(Found(Head, next, if n == -1 then 0 else n))
      case _ => None
    else
      match ParseOne(s, pos, 0)
      case Fail(_, _) => None
      case Ok(_, end) => Some(Found(if HasText(s, pos) then Text else Line, end, 0))
  }

  datatype Listing = Listing(items: seq<Item>, end: nat)

  /** The items of the next `need` values, read with one counter in place of the recursion. */
  function Items(s: Bytes, pos: nat, need: nat): (r: Option<Listing>)
    requires pos <= |s|
    ensures r.Some? ==> pos <= r.value.end <= |s| && (need > 0 ==> pos < r.value.end)
    decreases |s| - pos
  {
    if need == 0 then Some(Listing([], pos))
    else if pos == |s| then None
    else
      match ItemAt(s, pos)
      case None => None
      case Some(f) => Behind([f.item], Items(s, f.end, need - 1 + f.inner))
  }

  function Behind(items: seq<Item>, rest: Option<Listing>): Option<Listing> {
    if rest.None? then None else Some(Listing(items + rest.value.items, rest.value.end))
  }

  // ---- The counter reads what the recursion reads ----

  lemma BehindBoth(a: seq<Item>, b: seq<Item>, rest: Option<Listing>)
    ensures Behind(a, Behind(b, rest)) == Behind(a + b, rest)
  {
    if rest.Some? {
      assert a + (b + rest.value.items) == a + b + rest.value.items;
    }
  }

  /** The parser on one value, in terms of its first item. */
  lemma ItemParsed(s: Bytes, pos: nat, depth: nat)
    requires pos < |s|
    ensures ParseOne(s, pos, depth).Ok? ==> ItemAt(s, pos).Some?
    ensures ItemAt(s, pos).Some? && s[pos] != STAR ==>
              ParseOne(s, pos, depth).Ok? && ParseOne(s, pos, depth).end == ItemAt(s, pos).value.end &&
              ItemAt(s, pos).value.inner == 0
    ensures ItemAt(s, pos).Some? && s[pos] == STAR && depth >= MAX_DEPTH ==>
              ParseOne(s, pos, depth) == Fail(NestingTooDeep, pos)
    ensures ItemAt(s, pos).Some? && s[pos] == STAR && depth < MAX_DEPTH ==>
              var f := ItemAt(s, pos).value;
              var one, all := ParseOne(s, pos, depth), ParseElements(s, f.end, f.inner, depth + 1);
              one.Ok? == all.Ok? && one.end == all.end && (one.Fail? ==> one.error == all.error)
  {
    hide ParseElements;
    if s[pos] == STAR {
      hide HeaderAt;
      var h := HeaderAt(s, pos);
      assert ParseOne(s, pos, depth) == ParseArray(s, pos, depth);
      if depth < MAX_DEPTH && h.Header? {
        assert ParseArray(s, pos, depth) == ParseCounted(s, h.next, h.n, depth + 1);
        NothingParsed(s, h.next, depth + 1);
      }
    } else {
      assert ParseOne(s, pos, depth) == ParseOne(s, pos, 0);
    }
  }

  lemma NothingParsed(s: Bytes, pos: nat, depth: nat)
    requires pos <= |s|
    ensures ParseElements(s, pos, 0, depth) == Ok([], pos)
  {
  }

  /** The first of several values, and the others. */
  lemma FirstParsed(s: Bytes, pos: nat, count: nat, depth: nat)
    requires pos < |s| && count > 0
    ensures var v, all := ParseOne(s, pos, depth), ParseElements(s, pos, count, depth);
            if v.Fail? then all == Fail(v.error, v.end)
            else
              var rest := ParseElements(s, v.end, count - 1, depth);
              all.Ok? == rest.Ok? && all.end == rest.end && (all.Fail? ==> all.error == rest.error)
  {
  }

  lemma FirstCounted(s: Bytes, pos: nat, need: nat)
    requires pos <= |s| && need > 0
    ensures Items(s, pos, need).Some? ==> pos < |s| && ItemAt(s, pos).Some?
    ensures pos < |s| && ItemAt(s, pos).Some? ==>
              var f := ItemAt(s, pos).value; Items(s, pos, need) == Behind([f.item], Items(s, f.end, need - 1 + f.inner))
  {
  }

  lemma BehindNothing(rest: Option<Listing>)
    ensures Behind([], rest) == rest
  {
    if rest.Some? {
      assert [] + rest.value.items == rest.value.items;
    }
  }

  lemma BehindIs(a: seq<Item>, rest: Option<Listing>)
    ensures Behind(a, rest).Some? <==> rest.Some?
    ensures rest.Some? ==> Behind(a, rest).value == Listing(a + rest.value.items, rest.value.end)
  {
  }

  lemma NoneLeft(s: Bytes, count: nat, depth: nat)
    requires count > 0
    ensures ParseElements(s, |s|, count, depth) == Fail(ElementMissing, |s|)
  {
  }

  /** What the parser reads, the counter reads to the same end, whatever else is still wanted. */
  lemma {:induction false} CountedAsParsed(s: Bytes, pos: nat, count: nat, depth: nat, more: nat) returns (items: seq<Item>)
    requires pos <= |s| && ParseElements(s, pos, count, depth).Ok?
    ensures Items(s, pos, count + more) == Behind(items, Items(s, ParseElements(s, pos, count, depth).end, more))
    decreases |s| - pos, count
  {
    hide ParseElements, ParseOne, ItemAt, Behind, Items;
    if count == 0 {
      NothingParsed(s, pos, depth);
      BehindNothing(Items(s, pos, more));
      items := [];
      return;
    }
    NoneLeft(s, count, depth);
    FirstParsed(s, pos, count, depth);
    ItemParsed(s, pos, depth);
    FirstCounted(s, pos, count + more);
    var f, v := ItemAt(s, pos).value, ParseOne(s, pos, depth);
    var rest := Items(s, v.end, count - 1 + more);
    var first := [];
    if s[pos] == STAR {
      first := CountedAsParsed(s, f.end, f.inner, depth + 1, count - 1 + more);
    } else {
      BehindNothing(rest);
    }
    var others := CountedAsParsed(s, v.end, count - 1, depth, more);
    BehindBoth([f.item], first, rest);
    BehindBoth([f.item] + first, others, Items(s, ParseElements(s, pos, count, depth).end, more));
    items := [f.item] + first + others;
  }

  /** What the counter reads, the parser reads too, unless it is nested too deep. */
  lemma {:induction false} ParsedAsCounted(s: Bytes, pos: nat, count: nat, depth: nat, more: nat)
    requires pos <= |s| && Items(s, pos, count + more).Some?
    ensures ParseElements(s, pos, count, depth).Ok? || ParseElements(s, pos, count, depth).error == NestingTooDeep
    decreases |s| - pos, count
  {
    hide ParseElements, ParseOne, ItemAt, Behind, Items;
    if count == 0 {
      NothingParsed(s, pos, depth);
      return;
    }
    FirstCounted(s, pos, count + more);
    FirstParsed(s, pos, count, depth);
    ItemParsed(s, pos, depth);
    var f, v := ItemAt(s, pos).value, ParseOne(s, pos, depth);
    var rest := count - 1 + more;
    BehindIs([f.item], Items(s, f.end, rest + f.inner));
    if s[pos] == STAR && depth < MAX_DEPTH {
      ParsedAsCounted(s, f.end, f.inner, depth + 1, rest);
      if v.Ok? {
        var first := CountedAsParsed(s, f.end, f.inner, depth + 1, rest);
        BehindIs(first, Items(s, v.end, rest));
      }
    }
    if v.Ok? {
      ParsedAsCounted(s, v.end, count - 1, depth, more);
    }
  }

  // ---- How far the scanner's count goes ----

  lemma {:induction false} BlanksHaveNoStar(s: Bytes, i: nat)
    requires i <= |s|
    ensures forall k | i <= k < SkipSpaces(s, i) :: s[k] != STAR
    decreases |s| - i
  {
    if i < |s| && IsSpace(s[i]) {
      BlanksHaveNoStar(s, i + 1);
    }
  }

  lemma NumbersHaveNoStar(s: Bytes)
    requires ParseInt64(s).Some?
    ensures STAR !in s
  {
    BlanksHaveNoStar(s, 0);
    var i := SkipSpaces(s, 0);
    var d := if i < |s| && (s[i] == MINUS || s[i] == PLUS) then i + 1 else i;
    assert DigitsEnd(s, d) == |s|;
    assert forall k | d <= k < |s| :: IsDigit(s[k]);
  }

  /** A line without a star takes one off the count. */
  lemma {:induction false} LinePassed(s: Bytes, pos: nat, c: nat, depth: nat)
    requires pos <= c && CrlfAt(s, c) && depth > 0 && STAR !in s[pos..c]
    requires forall k | pos <= k < c :: !CrlfAt(s, k)
    requires pos > 0 ==> !CrlfAt(s, pos - 1)
    ensures NestedEnd(s, pos, depth) == NestedEnd(s, c + 2, depth - 1)
    decreases c - pos
  {
    if pos == c {
      assert NestedEnd(s, c, depth) == NestedEnd(s, c + 1, depth);
    } else {
      assert s[pos] == s[pos..c][0] && s[pos + 1..c] == s[pos..c][1..];
      LinePassed(s, pos + 1, c, depth);
    }
  }

  /** An array header leaves the count as it was. */
  lemma HeaderPassed(s: Bytes, pos: nat, depth: nat)
    requires pos < |s| && s[pos] == STAR && HeaderAt(s, pos).Header? && depth > 0
    ensures NestedEnd(s, pos, depth) == NestedEnd(s, HeaderAt(s, pos).next, depth)
  {
    var c := HeaderAt(s, pos).next - 2;
    NumbersHaveNoStar(s[pos + 1..c]);
    assert NestedEnd(s, pos, depth) == NestedEnd(s, pos + 1, depth + 1);
    LinePassed(s, pos + 1, c, depth + 1);
  }

  /** Behind a header the scanner stops at the end of the first other line, also when that is only a bulk string's length. */
  lemma StopsBehindLine(s: Bytes, pos: nat)
    requires pos < |s| && TypeByte(s[pos]) && s[pos] != STAR && FindCrlf(s, pos + 1).Some?
    requires STAR !in s[pos..FindCrlf(s, pos + 1).value]
    ensures NestedEnd(s, pos, 1) == Some(FindCrlf(s, pos + 1).value + 2)
  {
    var c := FindCrlf(s, pos + 1).value;
    LinePassed(s, pos, c, 1);
  }

  // ---- The scanner and the counter side by side ----

  /** The item cannot mislead the scanner: no star in the line, no type byte where the text starts. */
  predicate Unlike(s: Bytes, pos: nat, f: Found)
    requires pos < |s| && ItemAt(s, pos) == Some(f)
  {
    match f.item
    case Head => true
    case Line => STAR !in s[pos..f.end]
    case Text => !TypeByte(s[HeaderAt(s, pos).next])
  }

  /** The item behind each array header cannot mislead the scanner. */
  predicate PlainFrom(s: Bytes, pos: nat, need: nat, nested: bool)
    requires pos <= |s|
    decreases |s| - pos
  {
    need == 0 || pos == |s| ||
    match ItemAt(s, pos)
    case None => true
    case Some(f) => (nested ==> Unlike(s, pos, f)) && PlainFrom(s, f.end, need - 1 + f.inner, f.item == Head)
  }

  function Leaves(items: seq<Item>): nat {
    if items == [] then 0 else (if items[0] == Head then 0 else 1) + Leaves(items[1..])
  }

  /** No array starts with a bulk string. */
  predicate NoTextFirst(items: seq<Item>, nested: bool) {
    items == [] || ((nested ==> items[0] != Text) && NoTextFirst(items[1..], items[0] == Head))
  }

  /**
   * As many values other than arrays as the scanner looks for, the last item one
   * of them, and no array starts with a bulk string.
   */
  predicate Fit(items: seq<Item>, count: nat, nested: bool) {
    && Leaves(items) == count && NoTextFirst(items, nested)
    && (items != [] ==> items[|items| - 1] != Head)
  }

  lemma {:induction false} LeavesBeforeEnd(items: seq<Item>)
    requires items != [] && items[|items| - 1] != Head
    ensures Leaves(items) > 0
  {
    if |items| > 1 {
      LeavesBeforeEnd(items[1..]);
    }
  }

  /** The scanner with `count` elements to go, inside a nested array or not. */
  function ScanFrom(s: Bytes, pos: nat, count: nat, nested: bool): Option<nat>
    requires pos <= |s| && (nested ==> count > 0)
  {
    if !nested then ElementsEnd(s, pos, count)
    else
      match NestedEnd(s, pos, 1)
      case None => None
      case Some(e) => ElementsEnd(s, e, count - 1)
  }

  lemma Forward(s: Bytes, pos: nat, count: nat, nested: bool)
    requires pos <= |s| && count > 0
    ensures ScanFrom(s, pos, count, nested) != Some(pos)
  {
  }

  lemma FitTail(items: seq<Item>, count: nat, nested: bool)
    requires items != [] && count > 0 && (nested ==> items[0] != Text)
    ensures items[0] == Head ==> (Fit(items, count, nested) <==> Fit(items[1..], count, true))
    ensures items[0] != Head ==> (Fit(items, count, nested) <==> Fit(items[1..], count - 1, false))
  {
    assert |items| > 1 ==> items[|items| - 1] == items[1..][|items| - 2];
  }

  /** What one item does to the scanner that stands in front of it. */
  lemma ItemScanned(s: Bytes, pos: nat, count: nat, nested: bool, f: Found)
    requires pos < |s| && ItemAt(s, pos) == Some(f) && count > 0 && (nested ==> Unlike(s, pos, f))
    ensures f.item == Head ==> ScanFrom(s, pos, count, nested) == ScanFrom(s, f.end, count, true)
    ensures f.item == Line || (f.item == Text && !nested) ==>
              ScanFrom(s, pos, count, nested) == ScanFrom(s, f.end, count - 1, false)
    ensures f.item == Text && nested ==>
              ScanFrom(s, pos, count, nested).None? || ScanFrom(s, pos, count, nested).value < f.end
  {
    if f.item == Head {
      HeaderPassed(s, pos, 1);
    } else {
      ElementAgrees(s, pos, 0);
      if nested {
        StopsInLeaf(s, pos, f);
      }
    }
  }

  /** A value that is not an array ends behind its first line, or is a bulk string. */
  lemma LeafLine(s: Bytes, pos: nat, f: Found)
    requires pos < |s| && ItemAt(s, pos) == Some(f) && f.item != Head
    ensures TypeByte(s[pos]) && s[pos] != STAR && FindCrlf(s, pos + 1).Some?
    ensures f.item == Line ==> f.end == FindCrlf(s, pos + 1).value + 2
    ensures f.item == Text ==>
              HeaderAt(s, pos).Header? && HeaderAt(s, pos).next == FindCrlf(s, pos + 1).value + 2 < f.end <= |s|
    ensures f.item == Text ==> ParseInt64(s[pos + 1..FindCrlf(s, pos + 1).value]).Some?
  {
    hide ItemAt, ParseOne, FindCrlf, ParseInt64;
    LeafEnd(s, pos, f);
  }

  lemma LeafEnd(s: Bytes, pos: nat, f: Found)
    requires pos < |s| && ItemAt(s, pos) == Some(f) && f.item != Head
    ensures s[pos] != STAR && ElementEnd(s, pos) == Some(f.end) && (f.item == Text <==> HasText(s, pos))
  {
    hide ElementEnd, HasText, ParseOne;
    assert s[pos] != STAR;
    ElementAgrees(s, pos, 0);
  }

  lemma NoStarInPart(s: Bytes, from: nat, to: nat, end: nat)
    requires from <= to <= end <= |s| && STAR !in s[from..end]
    ensures STAR !in s[from..to]
  {
    assert s[from..end] == s[from..to] + s[to..end];
  }

  lemma StopsInLeaf(s: Bytes, pos: nat, f: Found)
    requires pos < |s| && ItemAt(s, pos) == Some(f) && f.item != Head && Unlike(s, pos, f)
    ensures f.item == Line ==> NestedEnd(s, pos, 1) == Some(f.end)
    ensures f.item == Text ==> HeaderAt(s, pos).Header? && HeaderAt(s, pos).next < f.end <= |s|
    ensures f.item == Text ==> NestedEnd(s, pos, 1) == Some(HeaderAt(s, pos).next)
    ensures f.item == Text ==> ElementEnd(s, HeaderAt(s, pos).next).None?
  {
    hide ItemAt, HeaderAt, FindCrlf, NestedEnd, ParseInt64;
    LeafLine(s, pos, f);
    var c := FindCrlf(s, pos + 1).value;
    if f.item == Text {
      NumbersHaveNoStar(s[pos + 1..c]);
      assert s[pos..c] == [s[pos]] + s[pos + 1..c];
    } else {
      NoStarInPart(s, pos, c, f.end);
    }
    StopsBehindLine(s, pos);
  }

  /** The scanner ends where the counter ends exactly when the items fit. */
  lemma {:induction false} ScannedAsCounted(s: Bytes, pos: nat, need: nat, count: nat, nested: bool)
    requires pos <= |s| && Items(s, pos, need).Some? && PlainFrom(s, pos, need, nested) && (nested ==> count > 0)
    ensures var l := Items(s, pos, need).value;
            ScanFrom(s, pos, count, nested) == Some(l.end) <==> Fit(l.items, count, nested)
    decreases |s| - pos
  {
    hide ScanFrom, ItemAt, Unlike, Fit, Behind;
    var l := Items(s, pos, need).value;
    if need == 0 {
      NothingFits(s, pos, count, nested);
    } else if count == 0 {
      TooManyItems(s, pos, need);
    } else {
      var f := ItemAt(s, pos).value;
      var more := need - 1 + f.inner;
      BehindIs([f.item], Items(s, f.end, more));
      assert l.items[1..] == Items(s, f.end, more).value.items;
      ItemScanned(s, pos, count, nested, f);
      if f.item == Text && nested {
        NotFit(l.items, count);
      } else {
        ScannedAsCounted(s, f.end, more, if f.item == Head then count else count - 1, f.item == Head);
        FitTail(l.items, count, nested);
      }
    }
  }

  /** At its end the counter agrees with a scanner that has nothing left to look for. */
  lemma NothingFits(s: Bytes, pos: nat, count: nat, nested: bool)
    requires pos <= |s| && (nested ==> count > 0)
    ensures ScanFrom(s, pos, count, nested) == Some(pos) <==> Fit([], count, nested)
  {
    if count > 0 {
      Forward(s, pos, count, nested);
    }
  }

  /** A scanner that is done too early agrees with no items. */
  lemma TooManyItems(s: Bytes, pos: nat, need: nat)
    requires pos <= |s| && need > 0 && Items(s, pos, need).Some?
    ensures ScanFrom(s, pos, 0, false) != Some(Items(s, pos, need).value.end)
    ensures !Fit(Items(s, pos, need).value.items, 0, false)
  {
    var items := Items(s, pos, need).value.items;
    if items[|items| - 1] != Head {
      LeavesBeforeEnd(items);
    }
  }

  lemma NotFit(items: seq<Item>, count: nat)
    requires items != [] && items[0] == Text
    ensures !Fit(items, count, true)
  {
  }

  lemma CountedToEnd(s: Bytes, pos: nat, count: nat, depth: nat)
    requires pos <= |s| && ParseElements(s, pos, count, depth).Ok?
    ensures Items(s, pos, count).Some? && Items(s, pos, count).value.end == ParseElements(s, pos, count, depth).end
  {
    hide ParseElements;
    var items := CountedAsParsed(s, pos, count, depth, 0);
    BehindIs(items, Items(s, ParseElements(s, pos, count, depth).end, 0));
  }

  // ---- One nested array ----

  /** Headers only, and one line at the end. */
  predicate OneLineLast(items: seq<Item>) {
    items != [] && items[|items| - 1] == Line && forall i | 0 <= i < |items| - 1 :: items[i] == Head
  }

  lemma {:induction false} FitsOnlyOneLine(items: seq<Item>)
    ensures Fit(items, 1, true) <==> OneLineLast(items)
  {
    if items == [] || items[0] == Text {
    } else if items[0] == Head {
      FitTail(items, 1, true);
      FitsOnlyOneLine(items[1..]);
      assert OneLineLast(items) <==> OneLineLast(items[1..]) by {
        assert |items| > 1 ==> items[|items| - 1] == items[1..][|items| - 2];
        assert forall i | 0 < i < |items| - 1 :: items[i] == items[1..][i - 1];
        assert forall i | 0 <= i < |items| - 2 :: items[1..][i] == items[i + 1];
      }
    } else {
      FitTail(items, 1, true);
      if items[1..] != [] && items[|items| - 1] != Head {
        assert items[|items| - 1] == items[1..][|items| - 2];
        LeavesBeforeEnd(items[1..]);
      }
    }
  }

  /** The scanner ends where a nested array ends if and only if the first line that is no array header is its last line. */
  lemma NestedArrayScannedIff(s: Bytes, pos: nat, depth: nat)
    requires pos < |s| && s[pos] == STAR && ParseOne(s, pos, depth).Ok? && PlainFrom(s, pos, 1, false)
    ensures Items(s, pos, 1).Some?
    ensures NestedEnd(s, pos, 1) == Some(ParseOne(s, pos, depth).end) <==> OneLineLast(Items(s, pos, 1).value.items)
  {
    hide ParseOne, ParseElements, NestedEnd, PlainFrom, Fit, OneLineLast, ItemAt, Behind;
    FirstParsed(s, pos, 1, depth);
    NothingParsed(s, ParseOne(s, pos, depth).end, depth);
    CountedToEnd(s, pos, 1, depth);
    var items := Items(s, pos, 1).value.items;
    ScannedAsCounted(s, pos, 1, 1, false);
    HeadFirst(s, pos);
    hide Items;
    assert ScanFrom(s, pos, 1, false) == NestedEnd(s, pos, 1);
    FitTail(items, 1, false);
    FitTail(items, 1, true);
    FitsOnlyOneLine(items);
  }

  lemma HeadFirst(s: Bytes, pos: nat)
    requires pos < |s| && s[pos] == STAR && Items(s, pos, 1).Some?
    ensures Items(s, pos, 1).value.items != [] && Items(s, pos, 1).value.items[0] == Head
  {
  }

  // ---- Whole commands ----

  predicate PlainCommand(s: Bytes) {
    s != [] && (s[0] == STAR && HeaderAt(s, 0).Header? && HeaderAt(s, 0).n >= 0 ==>
      PlainFrom(s, HeaderAt(s, 0).next, HeaderAt(s, 0).n, false))
  }

  /** The items of the command can be read, and they fit the count of the outer array. */
  predicate FitCommand(s: Bytes) {
    s != [] && (s[0] == COLON ==> IntegerLine(s, 0)) && (s[0] == STAR && HeaderAt(s, 0).Header? && HeaderAt(s, 0).n >= 0 ==>
      var listed := Items(s, HeaderAt(s, 0).next, HeaderAt(s, 0).n);
      listed.Some? && Fit(listed.value.items, HeaderAt(s, 0).n, false))
  }

  /** What the scanner demands beyond the format. */
  predicate WithinLimits(s: Bytes) {
    && |s| >= 4
    && (s[0] == STAR && HeaderAt(s, 0).Header? ==> 0 <= HeaderAt(s, 0).n <= 1048576)
    && (s[0] == DOLLAR && HeaderAt(s, 0).Header? ==> HeaderAt(s, 0).n <= 536870912)
  }

  /**
   * Some array header among the items stands inside 32 arrays or more. `open`
   * has, for every open array, outermost first, how many values it still wants.
   */
  predicate Deep(s: Bytes, pos: nat, open: seq<nat>)
    requires pos <= |s|
    decreases |s| - pos, |open|
  {
    if open == [] then false
    else
      var outer, wanted := open[..|open| - 1], open[|open| - 1];
      if wanted == 0 then Deep(s, pos, outer)
      else if pos == |s| then false
      else if s[pos] == STAR && |open| >= 32 then true
      else
        match ItemAt(s, pos)
        case None => false
        case Some(f) => Deep(s, f.end, outer + [wanted - 1] + (if f.item == Head then [f.inner] else []))
  }

  lemma StarIsHead(s: Bytes, pos: nat)
    requires pos < |s| && ItemAt(s, pos).Some?
    ensures ItemAt(s, pos).value.item == Head <==> s[pos] == STAR
  {
  }

  lemma DeepUnfolds(s: Bytes, pos: nat, outer: seq<nat>, wanted: nat)
    requires pos <= |s|
    ensures wanted == 0 ==> Deep(s, pos, outer + [wanted]) == Deep(s, pos, outer)
    ensures wanted > 0 && pos < |s| && s[pos] == STAR && |outer| + 1 >= 32 ==> Deep(s, pos, outer + [wanted])
    ensures wanted > 0 && pos < |s| && ItemAt(s, pos).Some? && (s[pos] == STAR ==> |outer| + 1 < 32) ==>
              var f := ItemAt(s, pos).value;
              Deep(s, pos, outer + [wanted]) ==
              Deep(s, f.end, if s[pos] == STAR then outer + [wanted - 1] + [f.inner] else outer + [wanted - 1])
  {
    hide ItemAt;
    if pos < |s| && ItemAt(s, pos).Some? {
      StarIsHead(s, pos);
    }
    var open := outer + [wanted];
    assert open[..|open| - 1] == outer && open[|open| - 1] == wanted;
    assert outer + [wanted - 1] + [] == outer + [wanted - 1];
  }

  /** The recursion fails for depth exactly where the walk over the headers finds it. */
  lemma {:induction false} DeepAsParsed(s: Bytes, pos: nat, count: nat, outer: seq<nat>)
    requires pos <= |s|
    ensures var r := ParseElements(s, pos, count, |outer| + 1);
            && (r.Ok? ==> Deep(s, pos, outer + [count]) == Deep(s, r.end, outer))
            && (r.Fail? && r.error == NestingTooDeep ==> Deep(s, pos, outer + [count]))
    decreases |s| - pos, count
  {
    hide ParseElements, ParseOne, ItemAt, Deep;
    var depth := |outer| + 1;
    DeepUnfolds(s, pos, outer, count);
    if count == 0 {
      NothingParsed(s, pos, depth);
      return;
    }
    NoneLeft(s, count, depth);
    if pos == |s| {
      return;
    }
    FirstParsed(s, pos, count, depth);
    ItemParsed(s, pos, depth);
    if ItemAt(s, pos).None? {
      NotDeepYet(s, pos, depth);
      return;
    }
    var f, v := ItemAt(s, pos).value, ParseOne(s, pos, depth);
    if s[pos] == STAR && depth < MAX_DEPTH {
      DeepAsParsed(s, f.end, f.inner, outer + [count - 1]);
    }
    if v.Ok? {
      DeepAsParsed(s, v.end, count - 1, outer);
    }
  }

  lemma NotDeepYet(s: Bytes, pos: nat, depth: nat)
    requires pos < |s| && ItemAt(s, pos).None?
    ensures ParseOne(s, pos, depth).Fail?
    ensures ParseOne(s, pos, depth).error == NestingTooDeep ==> s[pos] == STAR && depth >= MAX_DEPTH
  {
    hide ParseElements;
    if s[pos] == STAR {
      hide HeaderAt;
      var h := HeaderAt(s, pos);
      assert ParseOne(s, pos, depth) == ParseArray(s, pos, depth);
      if depth < MAX_DEPTH && h.Header? {
        assert ParseArray(s, pos, depth) == ParseCounted(s, h.next, h.n, depth + 1);
      }
    } else {
      assert ParseOne(s, pos, depth) == ParseOne(s, pos, 0);
    }
  }

  /** The command has an array inside 32 others. */
  predicate NestedTooDeep(s: Bytes) {
    s != [] && s[0] == STAR && HeaderAt(s, 0).Header? && HeaderAt(s, 0).n >= 0 &&
    Deep(s, HeaderAt(s, 0).next, [HeaderAt(s, 0).n])
  }

  /** The outer array, for the scanner and for the parser. */
  lemma Outer(s: Bytes)
    requires s != [] && s[0] == STAR && HeaderAt(s, 0).Header? && HeaderAt(s, 0).n >= 0
    ensures |s| >= 4
    ensures HeaderAt(s, 0).n <= MAX_COUNT ==> CommandEnd(s) == ElementsEnd(s, HeaderAt(s, 0).next, HeaderAt(s, 0).n)
    ensures HeaderAt(s, 0).n > MAX_COUNT ==> CommandEnd(s).None?
    ensures var one, all := ParseOne(s, 0, 0), ParseElements(s, HeaderAt(s, 0).next, HeaderAt(s, 0).n, 1);
            one.Ok? == all.Ok? && one.end == all.end && (one.Fail? ==> one.error == all.error)
  {
    hide ParseOne, ParseElements, ElementsEnd, HeaderAt;
    NumbersTakeRoom(s);
    HeadAt(s);
    ItemParsed(s, 0, 0);
    assert ElementsEnd(s, HeaderAt(s, 0).next, 0) == Some(HeaderAt(s, 0).next) by {
      NothingScanned(s, HeaderAt(s, 0).next);
    }
  }

  lemma NothingScanned(s: Bytes, pos: nat)
    requires pos <= |s|
    ensures ElementsEnd(s, pos, 0) == Some(pos)
  {
  }

  lemma NumbersTakeRoom(s: Bytes)
    requires HeaderAt(s, 0).Header?
    ensures HeaderAt(s, 0).next >= 4
  {
    assert s[1..HeaderAt(s, 0).next - 2] != [];
  }

  lemma HeadAt(s: Bytes)
    requires s != [] && s[0] == STAR && HeaderAt(s, 0).Header? && HeaderAt(s, 0).n >= 0
    ensures ItemAt(s, 0) == Some(Found(Head, HeaderAt(s, 0).next, HeaderAt(s, 0).n))
  {
  }

  /** The scanner's end and the counter's, for a whole command. */
  lemma OuterScanned(s: Bytes)
    requires PlainCommand(s) && s[0] == STAR && HeaderAt(s, 0).Header? && 0 <= HeaderAt(s, 0).n <= MAX_COUNT
    requires ParseOne(s, 0, 0).Ok?
    ensures CommandEnd(s) == Some(ParseOne(s, 0, 0).end) <==> FitCommand(s)
  {
    hide ParseOne, ParseElements, PlainFrom, Fit, Items, CommandEnd, HeaderAt;
    var h := HeaderAt(s, 0);
    Outer(s);
    CountedToEnd(s, h.next, h.n, 1);
    ScannedAsCounted(s, h.next, h.n, h.n, false);
  }

  /**
   * Of everything the parser reads, nested or not, the scanner accepts exactly
   * what is within its limits and fits, and then walks the same bytes.
   */
  lemma ScannerMissesNothing(s: Bytes)
    requires ParseOne(s, 0, 0).Ok? && PlainCommand(s)
    ensures CommandEnd(s) == Some(ParseOne(s, 0, 0).end) <==> WithinLimits(s) && FitCommand(s)
  {
    if s[0] == STAR {
      var h := HeaderAt(s, 0);
      if h.Header? && h.n >= 0 {
        Outer(s);
        if h.n <= MAX_COUNT {
          OuterScanned(s);
        }
      }
    } else {
      ElementAgrees(s, 0, 0);
    }
  }

  /**
   * Of everything the scanner accepts, nested or not, the parser reads exactly
   * the same bytes if and only if the items can be read, fit, and are not
   * nested too deep.
   */
  lemma ScannerAgreesWithParser(s: Bytes)
    requires CommandEnd(s).Some? && PlainCommand(s)
    ensures ParseOne(s, 0, 0).Ok? && ParseOne(s, 0, 0).end == CommandEnd(s).value <==>
            FitCommand(s) && !NestedTooDeep(s)
  {
    if s[0] == STAR {
      OuterAccepted(s);
      hide ParseOne, CommandEnd, FitCommand, PlainCommand, HeaderAt;
      if ParseOne(s, 0, 0).Ok? {
        OuterScanned(s);
      }
      if FitCommand(s) {
        DepthDecides(s);
      }
    } else {
      ElementAgrees(s, 0, 0);
    }
  }

  lemma OuterAccepted(s: Bytes)
    requires CommandEnd(s).Some? && s[0] == STAR
    ensures HeaderAt(s, 0).Header? && 0 <= HeaderAt(s, 0).n <= MAX_COUNT
  {
  }

  /** The parser reads a fitting array, or fails for its depth; which of the two, its headers tell. */
  lemma DepthDecides(s: Bytes)
    requires FitCommand(s) && s[0] == STAR && HeaderAt(s, 0).Header? && HeaderAt(s, 0).n >= 0
    ensures ParseOne(s, 0, 0).Ok? <==> !NestedTooDeep(s)
    ensures ParseOne(s, 0, 0).Fail? ==> ParseOne(s, 0, 0).error == NestingTooDeep
  {
    hide ParseOne, ParseElements, Items, Fit, HeaderAt;
    var h := HeaderAt(s, 0);
    Outer(s);
    ParsedAsCounted(s, h.next, h.n, 1, 0);
    DeepAsParsed(s, h.next, h.n, []);
    assert [] + [h.n] == [h.n];
  }

  // ---- Whatever the texts are ----

  /** What the byte at `pos` does to the scanner's count. */
  function Weight(s: Bytes, pos: nat): int
    requires pos < |s|
  {
    if s[pos] == STAR then 1 else if s[pos] == LF && pos > 0 && s[pos - 1] == CR then -1 else 0
  }

  /** Stars minus line ends from `pos` to `end`. */
  function Balance(s: Bytes, pos: nat, end: nat): int
    requires pos <= end <= |s|
    decreases end - pos
  {
    if pos == end then 0 else Weight(s, pos) + Balance(s, pos + 1, end)
  }

  /** Counted from `pos`, the line ends outnumber the stars by `depth` at `end`, and nowhere before. */
  ghost predicate FirstSurplus(s: Bytes, pos: nat, end: nat, depth: nat)
    requires pos <= end <= |s|
  {
    Balance(s, pos, end) + depth == 0 && forall k | pos <= k < end :: Balance(s, pos, k) + depth > 0
  }

  lemma {:induction false} NestedEndIs(s: Bytes, pos: nat, end: nat, depth: nat)
    requires pos <= end <= |s|
    ensures NestedEnd(s, pos, depth) == Some(end) <==> FirstSurplus(s, pos, end, depth)
    decreases end - pos
  {
    if pos == end {
      assert Balance(s, pos, end) == 0;
    } else if depth == 0 {
      assert Balance(s, pos, pos) == 0;
    } else {
      NestedEndIs(s, pos + 1, end, depth + Weight(s, pos));
      SurplusLater(s, pos, end, depth);
    }
  }

  lemma SurplusLater(s: Bytes, pos: nat, end: nat, depth: nat)
    requires pos < end <= |s| && depth > 0
    ensures FirstSurplus(s, pos, end, depth) <==> FirstSurplus(s, pos + 1, end, depth + Weight(s, pos))
  {
    var from, more := pos + 1, depth + Weight(s, pos);
    if FirstSurplus(s, pos, end, depth) {
      forall k | from <= k < end
        ensures Balance(s, from, k) + more > 0
      {
        assert Balance(s, pos, k) + depth > 0;
      }
    }
    if FirstSurplus(s, from, end, more) {
      forall k | pos <= k < end
        ensures Balance(s, pos, k) + depth > 0
      {
        if k > pos {
          assert Balance(s, from, k) + more > 0;
        }
      }
    }
  }

  /** Every one of the elements ends for the scanner where it ends for the parser. */
  predicate EndsAlike(s: Bytes, pos: nat, count: nat, depth: nat)
    requires pos <= |s|
    decreases count
  {
    count == 0 || (pos < |s| && ParseOne(s, pos, depth).Ok? && ElementEnd(s, pos) == Some(ParseOne(s, pos, depth).end) &&
                   EndsAlike(s, ParseOne(s, pos, depth).end, count - 1, depth))
  }

  /** In every array among the elements the line ends outnumber the stars for the first time at its end. */
  ghost predicate ArraysBalanced(s: Bytes, pos: nat, count: nat, depth: nat)
    requires pos <= |s|
    decreases count
  {
    count == 0 || (pos < |s| && ParseOne(s, pos, depth).Ok? &&
                   (s[pos] == STAR ==> FirstSurplus(s, pos, ParseOne(s, pos, depth).end, 1)) &&
                   ArraysBalanced(s, ParseOne(s, pos, depth).end, count - 1, depth))
  }

  /**
   * Whatever the texts contain: scanner and parser agree on the end of every
   * element if and only if in every nested array the line ends outnumber the
   * stars for the first time at its end; and then on the end of them all.
   */
  lemma {:induction false} ElementByElementIff(s: Bytes, pos: nat, count: nat, depth: nat)
    requires pos <= |s|
    ensures EndsAlike(s, pos, count, depth) <==> ArraysBalanced(s, pos, count, depth)
    ensures EndsAlike(s, pos, count, depth) ==>
              ParseElements(s, pos, count, depth).Ok? &&
              ElementsEnd(s, pos, count) == Some(ParseElements(s, pos, count, depth).end)
    decreases count
  {
    hide ParseOne, ParseElements, NestedEnd, FirstSurplus;
    if count == 0 {
      NothingParsed(s, pos, depth);
    } else if pos < |s| && ParseOne(s, pos, depth).Ok? {
      var end := ParseOne(s, pos, depth).end;
      if s[pos] == STAR {
        NestedEndIs(s, pos, end, 1);
      } else {
        ElementAgrees(s, pos, depth);
      }
      FirstParsed(s, pos, count, depth);
      hide ElementEnd;
      ElementByElementIff(s, end, count - 1, depth);
    }
  }

  // ---- A command taken for complete too early ----

  /** `*1`, `*1`, `$1`, each with its line end: an array in an array whose bulk string has not arrived. */
  const EARLY_NESTED: Bytes := [STAR, 49, CR, LF, STAR, 49, CR, LF, DOLLAR, 49, CR, LF]

  /** Here the scanner already says complete, and the parser fails after it has dropped both headers. */
  lemma NestedScannedTooEarly()
    ensures CommandEnd(EARLY_NESTED) == Some(12)
    ensures ParseOne(EARLY_NESTED, 0, 0) == Fail(BulkIncomplete, 8)
  {
    var s := EARLY_NESTED;
    OneAfter(s, 0);
    OneAfter(s, 4);
    OneAfter(s, 8);
    EarlyScanned(s);
    EarlyParsed(s);
  }

  lemma EarlyScanned(s: Bytes)
    requires s == EARLY_NESTED && HeaderAt(s, 0) == Header(1, 4) && HeaderAt(s, 4) == Header(1, 8)
    requires HeaderAt(s, 8) == Header(1, 12)
    ensures CommandEnd(s) == Some(12)
  {
    assert FindCrlf(s, 9) == Some(10);
    hide HeaderAt, NestedEnd, FindCrlf;
    HeaderPassed(s, 4, 1);
    StopsBehindLine(s, 8);
    assert ElementEnd(s, 4) == Some(12) && ElementsEnd(s, 12, 0) == Some(12);
    assert ElementsEnd(s, 4, 1) == Some(12);
  }

  lemma EarlyParsed(s: Bytes)
    requires s == EARLY_NESTED && HeaderAt(s, 0) == Header(1, 4) && HeaderAt(s, 4) == Header(1, 8)
    requires HeaderAt(s, 8) == Header(1, 12)
    ensures ParseOne(s, 0, 0) == Fail(BulkIncomplete, 8)
  {
    hide HeaderAt;
    assert ParseOne(s, 8, 2) == Fail(BulkIncomplete, 8);
    assert ParseElements(s, 8, 1, 2) == Fail(BulkIncomplete, 8);
    assert ParseArray(s, 4, 1) == ParseCounted(s, 8, 1, 2) == Fail(BulkIncomplete, 8);
    assert ParseElements(s, 4, 1, 1) == Fail(BulkIncomplete, 8);
    assert ParseArray(s, 0, 0) == ParseCounted(s, 4, 1, 1);
  }

  lemma OneAfter(s: Bytes, pos: nat)
    requires pos + 4 <= |s| && s[pos + 1] == 49 && CrlfAt(s, pos + 2)
    ensures HeaderAt(s, pos) == Header(1, pos + 4)
  {
    assert FindCrlf(s, pos + 1) == FindCrlf(s, pos + 2) == Some(pos + 2);
    assert s[pos + 1..pos + 2] == [49] == Decimal(1);
    ParseDecimal(1);
  }

  // ---- A command nested too deep ----

  /** `n` arrays of one element around the empty simple string. */
  function Levels(n: nat): Bytes {
    if n == 0 then [PLUS, CR, LF] else [STAR, 49, CR, LF] + Levels(n - 1)
  }

  lemma {:induction false} LevelsAt(n: nat, j: nat)
    requires j <= n
    ensures |Levels(n)| == 4 * n + 3 && Levels(n)[4 * j..] == Levels(n - j)
    decreases n
  {
    if n == 0 {
    } else if j == 0 {
      LevelsAt(n - 1, 0);
    } else {
      LevelsAt(n - 1, j - 1);
      assert Levels(n)[4 * j..] == Levels(n - 1)[4 * (j - 1)..];
    }
  }

  lemma LevelHeader(n: nat, j: nat)
    requires j < n
    ensures |Levels(n)| == 4 * n + 3 && Levels(n)[4 * j] == STAR && HeaderAt(Levels(n), 4 * j) == Header(1, 4 * j + 4)
  {
    LevelsAt(n, j);
    var s, rest := Levels(n), Levels(n - j);
    assert s[4 * j] == rest[0] && s[4 * j + 1] == rest[1] && s[4 * j + 2] == rest[2] && s[4 * j + 3] == rest[3];
    OneAfter(s, 4 * j);
  }

  lemma {:induction false} LevelsScanned(n: nat, j: nat)
    requires j <= n
    ensures |Levels(n)| == 4 * n + 3 && NestedEnd(Levels(n), 4 * j, 1) == Some(4 * n + 3)
    decreases n - j
  {
    var s := Levels(n);
    if j == n {
      LevelsAt(n, n);
      var rest := s[4 * n..];
      assert s[4 * n] == rest[0] && s[4 * n + 1] == rest[1] && s[4 * n + 2] == rest[2];
      assert FindCrlf(s, 4 * n + 1) == Some(4 * n + 1);
      StopsBehindLine(s, 4 * n);
    } else {
      hide Levels, NestedEnd, HeaderAt;
      LevelHeader(n, j);
      HeaderPassed(s, 4 * j, 1);
      LevelsScanned(n, j + 1);
    }
  }

  lemma {:induction false} LevelsDeep(n: nat, outer: seq<nat>)
    requires |outer| < 32 < n
    ensures |Levels(n)| == 4 * n + 3 && Deep(Levels(n), 4 * (|outer| + 1), outer + [1])
    decreases 32 - |outer|
  {
    hide Levels, HeaderAt, Deep;
    var j := |outer| + 1;
    LevelHeader(n, j);
    DeepUnfolds(Levels(n), 4 * j, outer, 1);
    if j < 32 {
      LevelsDeep(n, outer + [0]);
    }
  }

  /** Every command of more than 32 levels of this kind is complete for the scanner and refused by the parser. */
  lemma DeepCommandRefused(n: nat)
    requires n > 32
    ensures CommandEnd(Levels(n)) == Some(4 * n + 3) && NestedTooDeep(Levels(n)) && ParseOne(Levels(n), 0, 0).Fail?
  {
    hide Levels, HeaderAt, Deep, ParseOne, ParseElements, NestedEnd;
    var s := Levels(n);
    LevelHeader(n, 0);
    LevelHeader(n, 1);
    Outer(s);
    LevelsScanned(n, 1);
    assert ElementsEnd(s, 4 * n + 3, 0) == Some(4 * n + 3);
    assert ElementEnd(s, 4) == Some(4 * n + 3);
    LevelsDeep(n, []);
    assert [] + [1] == [1];
    DeepAsParsed(s, 4, 1, []);
    NoneOpen(s, ParseElements(s, 4, 1, 1).end);
  }

  lemma NoneOpen(s: Bytes, pos: nat)
    requires pos <= |s|
    ensures !Deep(s, pos, [])
  {
  }
}
