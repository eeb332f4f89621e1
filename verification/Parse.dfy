/** The recursive-descent parser: what it computes, as functions of the buffer and an offset. */
module ParseSpec {
  import opened Bytes
  import opened Json
  import opened Unicode
  import Text

  /** A parser step: where it stopped, and the value when it succeeded. */
  datatype Parsed<+T> = Fail(offset: nat) | Done(value: T, offset: nat)

  // ----- white space -----

  /** The first position from `i` on whose byte is not white space (the NUL counts as white space). */
  function WhitespaceEnd(c: seq<Byte>, i: nat): (k: nat)
    requires i <= |c|
    ensures i <= k <= |c|
    decreases |c| - i
  {
    if i < |c| && c[i] <= 32 then WhitespaceEnd(c, i + 1) else i
  }

  /** `buffer_skip_whitespace`, with the step back when white space runs to the end of the buffer. */
  function SkipWhitespace(c: seq<Byte>, i: nat): (k: nat)
    requires i <= |c|
    ensures i <= k <= |c|
    ensures i < |c| ==> k < |c|
  {
    if i == |c| then i
    else if WhitespaceEnd(c, i) == |c| then |c| - 1
    else WhitespaceEnd(c, i)
  }

  // ----- numbers -----

  datatype StrtodResult = StrtodResult(consumed: nat, value: real)

  predicate IsSign(b: Byte) { b == PLUS || b == MINUS }

  /** `strtod` on the characters a number may contain, with exact arithmetic instead of rounding. */
  function Strtod(s: seq<Byte>): (r: StrtodResult)
    ensures r.consumed <= |s|
  {
    var start: nat := if |s| > 0 && IsSign(s[0]) then 1 else 0;
    var whole := DigitsEnd(s, start);
    var point: nat := if whole < |s| && s[whole] == DOT then whole + 1 else whole;
    var end := if point > whole then DigitsEnd(s, point) else whole;
    if whole == start && end == point then StrtodResult(0, 0.0)
    else
      var exponent: nat :=
        if end < |s| && (s[end] == LOWER_E || s[end] == UPPER_E) then
          if end + 1 < |s| && IsSign(s[end + 1]) then end + 2 else end + 1
        else end;
      var last := if exponent > end then DigitsEnd(s, exponent) else end;
      var magnitude := Scale(DigitsValue(s[start..whole]) as real + Scale(DigitsValue(s[point..end]) as real, end - point, true),
                             DigitsValue(s[exponent..last]), exponent > end + 1 && s[end + 1] == MINUS);
      StrtodResult(if last > exponent then last else end, if start == 1 && s[0] == MINUS then -magnitude else magnitude)
  }

  function Scale(x: real, k: nat, down: bool): real {
    PowerPositive(k);
    if down then x / Pow10(k) as real else x * Pow10(k) as real
  }

  /** The conversion of a double to `valueint`: saturating at the ends, truncating in between. */
  function Saturate(x: real): Int32 {
    if x >= 2147483647.0 then 0x7FFF_FFFF
    else if x <= -2147483648.0 then -0x8000_0000
    else if x >= 0.0 then x.Floor else -((-x).Floor)
  }

  predicate IsNumberChar(b: Byte) {
    IsDigit(b) || IsSign(b) || b == LOWER_E || b == UPPER_E || b == DOT
  }

  function NumberEnd(c: seq<Byte>, i: nat): (k: nat)
    requires i <= |c|
    ensures i <= k <= |c|
    decreases |c| - i
  {
    if i < |c| && IsNumberChar(c[i]) then NumberEnd(c, i + 1) else i
  }

  function ParseNumber(c: seq<Byte>, i: nat): (r: Parsed<Json>)
    requires i <= |c|
    ensures r.offset <= |c|
    ensures r.Done? ==> r.value.Number? && i < r.offset
  {
    var r := Strtod(c[i..NumberEnd(c, i)]);
    if r.consumed == 0 then Fail(i) else Done(Number(Saturate(r.value)), i + r.consumed)
  }

  // ----- strings -----

  /** The first pass of `parse_string`: the closing quote, taking a backslash and its successor as a pair. */
  function ScanEnd(c: seq<Byte>, i: nat): (end: int)
    ensures -1 <= end < |c|
    ensures end >= 0 ==> i <= end && c[end] == QUOTE
    decreases |c| - i
  {
    if i >= |c| then -1
    else if c[i] == QUOTE then i
    else if c[i] == BACKSLASH then (if i + 1 >= |c| then -1 else ScanEnd(c, i + 2))
    else ScanEnd(c, i + 1)
  }

  /** The byte a two-character escape stands for, or -1. */
  function SimpleEscape(b: Byte): (e: int)
    ensures -1 <= e < 0x100
  {
    if b == LOWER_B then 8
    else if b == LOWER_F then 12
    else if b == LOWER_N then 10
    else if b == LOWER_R then 13
    else if b == LOWER_T then 9
    else if b == QUOTE || b == BACKSLASH || b == SLASH then b
    else -1
  }

  /** Bytes written and the input position where decoding stopped, short of the end if it failed. */
  datatype Decoded = Decoded(bytes: seq<Byte>, stop: nat)

  /** The second pass of `parse_string`. An escaped quote may straddle `end`. */
  function Decode(c: seq<Byte>, i: nat, end: nat): (d: Decoded)
    requires i <= end + 1 && end < |c|
    ensures i <= d.stop <= end + 1
    decreases end + 1 - i
  {
    if i >= end then Decoded([], i)
    else if c[i] != BACKSLASH then Emit([c[i]], Decode(c, i + 1, end))
    else if c[i + 1] == LOWER_U then
      var r := DecodeLiteral(c, i, end);
      if r.Reject? then Decoded([], i) else Emit(EncodeUtf8(r.codepoint), Decode(c, i + r.consumed, end))
    else if SimpleEscape(c[i + 1]) < 0 then Decoded([], i)
    else Emit([SimpleEscape(c[i + 1])], Decode(c, i + 2, end))
  }

  function Emit(bytes: seq<Byte>, rest: Decoded): Decoded {
    Decoded(bytes + rest.bytes, rest.stop)
  }

  function ParseString(c: seq<Byte>, i: nat): (r: Parsed<CString>)
    requires i < |c|
    ensures r.offset <= |c|
    ensures r.Done? ==> i < r.offset
  {
    if c[i] != QUOTE then Fail(i + 1)
    else
      var end := ScanEnd(c, i + 1);
      if end < 0 then Fail(i + 1)
      else
        var d := Decode(c, i + 1, end);
        if d.stop < end then Fail(d.stop) else Done(UpToNul(d.bytes), end + 1)
  }

  // ----- values -----

  /** `parse_value` at nesting depth `depth`. Every success moves forward and nests within the limit. */
  function ParseValue(c: seq<Byte>, i: nat, depth: nat): (r: Parsed<Json>)
    requires i <= |c| && depth <= NESTING_LIMIT
    ensures r.offset <= |c|
    ensures r.Done? ==> i < r.offset && depth + Nesting(r.value) <= NESTING_LIMIT
    decreases |c| - i, 3
  {
    if HasAt(c, i, Text.NULL_TEXT) then Done(Null, i + 4)
    else if HasAt(c, i, Text.FALSE_TEXT) then Done(False, i + 5)
    else if HasAt(c, i, Text.TRUE_TEXT) then Done(True, i + 4)
    else if i < |c| && c[i] == QUOTE then
      match ParseString(c, i)
      case Fail(o) => Fail(o)
      case Done(s, o) => Done(String(s), o)
    else if i < |c| && (c[i] == MINUS || IsDigit(c[i])) then ParseNumber(c, i)
    else if i < |c| && c[i] == LBRACKET then ParseArray(c, i, depth)
    else if i < |c| && c[i] == LBRACE then ParseObject(c, i, depth)
    else Fail(i)
  }

  function ParseArray(c: seq<Byte>, i: nat, depth: nat): (r: Parsed<Json>)
    requires i < |c| && depth <= NESTING_LIMIT
    ensures r.offset <= |c|
    ensures r.Done? ==> i < r.offset && depth + Nesting(r.value) <= NESTING_LIMIT
    decreases |c| - i, 2
  {
    if depth >= NESTING_LIMIT then Fail(i)
    else
      var k := SkipWhitespace(c, i + 1);
      if k == |c| then Fail(k - 1)
      else if c[k] == RBRACKET then Done(Array([]), k + 1)
      else ParseItems(c, k - 1, depth + 1, [])
  }

  /** One element, read from the position before it. */
  function ParseElement(c: seq<Byte>, i: nat, depth: nat): (r: Parsed<Json>)
    requires i < |c| && depth <= NESTING_LIMIT
    ensures r.offset <= |c|
    ensures r.Done? ==> i < r.offset && depth + Nesting(r.value) <= NESTING_LIMIT
    decreases |c| - i, 0
  {
    ParseValue(c, SkipWhitespace(c, i + 1), depth)
  }

  /** The loop of `parse_array`: `i` is the position before the next element, `items` those read so far. */
  function ParseItems(c: seq<Byte>, i: nat, depth: nat, items: seq<Json>): (r: Parsed<Json>)
    requires i < |c| && 0 < depth && depth + ItemsNesting(items) <= NESTING_LIMIT
    ensures r.offset <= |c|
    ensures r.Done? ==> i < r.offset && depth - 1 + Nesting(r.value) <= NESTING_LIMIT
    decreases |c| - i, 1
  {
    match ParseElement(c, i, depth)
    case Fail(o) => Fail(o)
    case Done(item, o) =>
      ItemsNestingSnoc(items, item);
      var k := SkipWhitespace(c, o);
      if k < |c| && c[k] == COMMA then ParseItems(c, k, depth, items + [item])
      else if k < |c| && c[k] == RBRACKET then Done(Array(items + [item]), k + 1)
      else Fail(k)
  }

  function ParseObject(c: seq<Byte>, i: nat, depth: nat): (r: Parsed<Json>)
    requires i < |c| && depth <= NESTING_LIMIT
    ensures r.offset <= |c|
    ensures r.Done? ==> i < r.offset && depth + Nesting(r.value) <= NESTING_LIMIT
    decreases |c| - i, 2
  {
    if depth >= NESTING_LIMIT then Fail(i)
    else
      var k := SkipWhitespace(c, i + 1);
      if k == |c| then Fail(k - 1)
      else if c[k] == RBRACE then Done(Object([]), k + 1)
      else ParseMembers(c, k - 1, depth + 1, [])
  }

  /** One `"key" : value` pair, read from the position before it. */
  function ParseMember(c: seq<Byte>, i: nat, depth: nat): (r: Parsed<Keyed<Json>>)
    requires i < |c| && depth <= NESTING_LIMIT
    ensures r.offset <= |c|
    ensures r.Done? ==> i < r.offset && depth + Nesting(r.value.item) <= NESTING_LIMIT
    decreases |c| - i, 0
  {
    if i + 1 >= |c| then Fail(i)
    else
      match ParseString(c, SkipWhitespace(c, i + 1))
      case Fail(o) => Fail(o)
      case Done(key, o) =>
        var colon := SkipWhitespace(c, o);
        if !(colon < |c| && c[colon] == COLON) then Fail(colon)
        else
          match ParseValue(c, SkipWhitespace(c, colon + 1), depth)
          case Fail(o') => Fail(o')
          case Done(item, o') => Done(Keyed(key, item), o')
  }

  /** The loop of `parse_object`. */
  function ParseMembers(c: seq<Byte>, i: nat, depth: nat, members: seq<Keyed<Json>>): (r: Parsed<Json>)
    requires i < |c| && 0 < depth && depth + MembersNesting(members) <= NESTING_LIMIT
    ensures r.offset <= |c|
    ensures r.Done? ==> i < r.offset && depth - 1 + Nesting(r.value) <= NESTING_LIMIT
    decreases |c| - i, 1
  {
    match ParseMember(c, i, depth)
    case Fail(o) => Fail(o)
    case Done(member, o) =>
      MembersNestingSnoc(members, member);
      var k := SkipWhitespace(c, o);
      if k < |c| && c[k] == COMMA then ParseMembers(c, k, depth, members + [member])
      else if k < |c| && c[k] == RBRACE then Done(Object(members + [member]), k + 1)
      else Fail(k)
  }

  // ----- whole texts -----

  /** Either the tree and the position after it, or the reported error position. */
  datatype Document = Malformed(position: nat) | Parsed(tree: Json, end: nat)

  const BOM: seq<Byte> := [0xEF, 0xBB, 0xBF]

  /** `cJSON_ParseWithLengthOpts`. */
  function ParseText(c: seq<Byte>, requireNull: bool): (r: Document)
    ensures r.Malformed? ==> r.position < |c| || |c| == r.position == 0
    ensures r.Parsed? ==> 0 < r.end <= |c| && Nesting(r.tree) <= NESTING_LIMIT
  {
    if |c| == 0 then Malformed(0)
    else
      var start := SkipWhitespace(c, if |c| > 4 && HasAt(c, 0, BOM) then 3 else 0);
      match ParseValue(c, start, 0)
      case Fail(o) => Malformed(ErrorPosition(c, o))
      case Done(tree, o) =>
        if !requireNull then Document.Parsed(tree, o)
        else
          var end := SkipWhitespace(c, o);
          if end >= |c| || c[end] != 0 then Malformed(ErrorPosition(c, end)) else Document.Parsed(tree, end)
  }

  function ErrorPosition(c: seq<Byte>, offset: nat): nat
    requires |c| > 0
  {
    if offset < |c| then offset else |c| - 1
  }
}
