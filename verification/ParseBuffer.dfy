/** The parser as the source runs it: a buffer with a moving offset and a depth counter. */
module ParseBuffer {
  import opened Bytes
  import opened Json
  import opened Unicode
  import opened ParseSpec
  import Text

  // ----- the two passes of parse_string agree on a bound -----

  /** In the first pass over a string that starts at `start`, position `i` holds the second byte of an escape pair. */
  ghost predicate Escaped(c: seq<Byte>, start: nat, i: nat)
    requires start <= i <= |c|
    decreases i
  {
    i > start && c[i - 1] == BACKSLASH && !Escaped(c, start, i - 1)
  }

  /** How many escape pairs the first pass has begun before position `i`: its `skipped_bytes`. */
  ghost function Skipped(c: seq<Byte>, start: nat, i: nat): (n: nat)
    requires start <= i <= |c|
    ensures n <= i - start
    decreases i
  {
    if i == start then 0 else Skipped(c, start, i - 1) + (if Escaped(c, start, i) then 1 else 0)
  }

  /** However the second pass cuts the text, at most every other byte begins a pair of the first pass. */
  lemma {:induction false} SkippedIsSparse(c: seq<Byte>, start: nat, i: nat, n: nat)
    requires start <= i && i + n <= |c|
    ensures 2 * (Skipped(c, start, i + n) - Skipped(c, start, i)) <= n + (if n > 0 && Escaped(c, start, i + n) then 1 else 0)
    decreases n
  {
    if n == 1 {
      assert Skipped(c, start, i + 1) == Skipped(c, start, i) + (if Escaped(c, start, i + 1) then 1 else 0);
    } else if n > 1 {
      SkippedIsSparse(c, start, i, n - 2);
      assert Skipped(c, start, i + n) == Skipped(c, start, i + n - 1) + (if Escaped(c, start, i + n) then 1 else 0);
      assert Skipped(c, start, i + n - 1) == Skipped(c, start, i + n - 2) + (if Escaped(c, start, i + n - 1) then 1 else 0);
    }
  }

  /** The output bytes the first pass reserves for the input before position `i`. */
  ghost function Room(c: seq<Byte>, start: nat, i: nat): nat
    requires start <= i <= |c|
  {
    i - start - Skipped(c, start, i)
  }

  lemma RoomGrows(c: seq<Byte>, start: nat, i: nat, n: nat)
    requires start <= i && i + n <= |c|
    ensures 2 * (Room(c, start, i + n) - Room(c, start, i)) >= n - 1
    ensures n > 0 && c[i + n - 1] != BACKSLASH ==> 2 * (Room(c, start, i + n) - Room(c, start, i)) >= n
  {
    SkippedIsSparse(c, start, i, n);
  }

  /** The bytes the second pass writes from position `i` on never exceed what the first pass reserved
      for that part of the input, for any bytes at all, well-formed escapes or not. */
  lemma {:induction false} DecodedFits(c: seq<Byte>, start: nat, i: nat, end: nat)
    requires start <= i <= end + 1 && end < |c|
    ensures |Decode(c, i, end).bytes| <= Room(c, start, end + 1) - Room(c, start, i)
    decreases end + 1 - i
  {
    RoomGrows(c, start, i, end + 1 - i);
    if i < end {
      if c[i] != BACKSLASH {
        DecodedFits(c, start, i + 1, end);
        RoomGrows(c, start, i, 1);
      } else if c[i + 1] == LOWER_U {
        var r := DecodeLiteral(c, i, end);
        if r.Accept? {
          DecodedFits(c, start, i + r.consumed, end);
          RoomGrows(c, start, i, r.consumed);
        }
      } else if SimpleEscape(c[i + 1]) >= 0 {
        DecodedFits(c, start, i + 2, end);
        RoomGrows(c, start, i, 2);
      }
    }
  }

  lemma EmitTwice(a: seq<Byte>, b: seq<Byte>, d: Decoded)
    ensures Emit(a, Emit(b, d)) == Emit(a + b, d)
  {
    assert a + (b + d.bytes) == a + b + d.bytes;
  }

  class ParseBuffer {
    const content: seq<Byte>
    var offset: nat
    var depth: nat

    constructor (content: seq<Byte>)
      ensures this.content == content && offset == 0 && depth == 0
    {
      this.content := content;
      offset, depth := 0, 0;
    }

    predicate CanAccess(index: nat)
      reads this
    {
      offset + index < |content|
    }

    method SkipWhitespace()
      requires offset <= |content|
      modifies this`offset
      ensures offset == ParseSpec.SkipWhitespace(content, old(offset))
    {
      if !CanAccess(0) {
        return;
      }
      while CanAccess(0) && content[offset] <= 32
        invariant old(offset) <= offset <= |content|
        invariant WhitespaceEnd(content, offset) == WhitespaceEnd(content, old(offset))
        decreases |content| - offset
      {
        offset := offset + 1;
      }
      if offset == |content| {
        offset := offset - 1;
      }
    }

    method ParseNumber() returns (ok: bool, item: Json)
      requires offset <= |content|
      modifies this`offset
      ensures ok == ParseSpec.ParseNumber(content, old(offset)).Done?
      ensures offset == ParseSpec.ParseNumber(content, old(offset)).offset
      ensures ok ==> item == ParseSpec.ParseNumber(content, old(offset)).value
    {
      var length := 0;
      while CanAccess(length) && IsNumberChar(content[offset + length])
        invariant offset + length <= |content|
        invariant NumberEnd(content, offset + length) == NumberEnd(content, offset)
        decreases |content| - length
      {
        length := length + 1;
      }
      var number := Strtod(content[offset..offset + length]);
      if number.consumed == 0 {
        return false, Null;
      }
      item := Number(Saturate(number.value));
      offset := offset + number.consumed;
      ok := true;
    }

    /** The first pass: find the closing quote and count the escape pairs. */
    method ScanString(start: nat) returns (found: bool, end: nat, skipped: nat)
      requires start <= |content|
      ensures found <==> ScanEnd(content, start) >= 0
      ensures found ==> end == ScanEnd(content, start) && skipped == Skipped(content, start, end) && !Escaped(content, start, end)
    {
      end, skipped := start, 0;
      while end < |content| && content[end] != QUOTE
        invariant start <= end <= |content|
        invariant ScanEnd(content, end) == ScanEnd(content, start)
        invariant !Escaped(content, start, end)
        invariant skipped == Skipped(content, start, end)
        decreases |content| - end
      {
        if content[end] == BACKSLASH {
          if end + 1 >= |content| {
            return false, end, skipped;
          }
          skipped := skipped + 1;
          end := end + 1;
          assert Escaped(content, start, end);
        }
        end := end + 1;
      }
      found := end < |content|;
    }

    /** The second pass: decode into the reserved buffer. Every write is in bounds. */
    method DecodeString(start: nat, end: nat, output: array<Byte>) returns (written: nat, stop: nat)
      requires start <= end < |content|
      requires |Decode(content, start, end).bytes| < output.Length
      modifies output
      ensures stop == Decode(content, start, end).stop
      ensures written < output.Length && output[..written] == Decode(content, start, end).bytes
    {
      hide DecodeLiteral, EncodeUtf8, SimpleEscape;
      ghost var decoded := Decode(content, start, end);
      stop, written := start, 0;
      while stop < end
        invariant start <= stop <= end + 1
        invariant written <= |decoded.bytes| < output.Length
        invariant decoded == Emit(output[..written], Decode(content, stop, end))
        decreases end + 1 - stop
      {
        ghost var rest := Decode(content, stop, end);
        assert |output[..written]| + |rest.bytes| == |decoded.bytes|;
        if content[stop] != BACKSLASH {
          output[written] := content[stop];
          EmitTwice(output[..written], [content[stop]], Decode(content, stop + 1, end));
          assert output[..written + 1] == output[..written] + [content[stop]];
          written, stop := written + 1, stop + 1;
        } else if content[stop + 1] == LOWER_U {
          var literal := DecodeLiteral(content, stop, end);
          if literal.Reject? {
            return;
          }
          EmitTwice(output[..written], EncodeUtf8(literal.codepoint), Decode(content, stop + literal.consumed, end));
          var n := WriteUtf8(output, written, literal.codepoint);
          written, stop := written + n, stop + literal.consumed;
        } else {
          var escape := SimpleEscape(content[stop + 1]);
          if escape < 0 {
            return;
          }
          output[written] := escape;
          EmitTwice(output[..written], [escape], Decode(content, stop + 2, end));
          assert output[..written + 1] == output[..written] + [escape];
          written, stop := written + 1, stop + 2;
        }
      }
    }

    /** The output buffer is sized by the first pass and filled by the second, NUL included. */
    method ParseString() returns (ok: bool, text: CString)
      requires offset < |content|
      modifies this`offset
      ensures ok == ParseSpec.ParseString(content, old(offset)).Done?
      ensures offset == ParseSpec.ParseString(content, old(offset)).offset
      ensures ok ==> text == ParseSpec.ParseString(content, old(offset)).value
    {
      var at := offset;
      offset := at + 1;
      if content[at] != QUOTE {
        return false, [];
      }
      var found, end, skipped := ScanString(at + 1);
      if !found {
        return false, [];
      }
      var allocationLength := end - at - skipped;
      DecodedFits(content, at + 1, at + 1, end);
      var output := new Byte[allocationLength + 1];
      var written, stop := DecodeString(at + 1, end, output);
      if stop < end {
        offset := stop;
        return false, [];
      }
      output[written] := 0;
      UpToNulStops(output[..], written);
      assert output[..][..written] == Decode(content, at + 1, end).bytes;
      text := UpToNul(output[..]);
      offset := end + 1;
      ok := true;
    }

    /** The outcome a specification function promises, in terms of the fields. */
    ghost predicate Meets(r: Parsed<Json>, ok: bool, item: Json, oldDepth: nat)
      reads this
    {
      ok == r.Done? && offset == r.offset && (ok ==> item == r.value && depth == oldDepth)
    }

    method ParseValue() returns (ok: bool, item: Json)
      requires offset <= |content| && depth <= NESTING_LIMIT
      modifies this
      ensures Meets(ParseSpec.ParseValue(content, old(offset), old(depth)), ok, item, old(depth))
      decreases |content| - offset, 3
    {
      if HasAt(content, offset, Text.NULL_TEXT) {
        offset := offset + 4;
        return true, Null;
      }
      if HasAt(content, offset, Text.FALSE_TEXT) {
        offset := offset + 5;
        return true, False;
      }
      if HasAt(content, offset, Text.TRUE_TEXT) {
        offset := offset + 4;
        return true, True;
      }
      if CanAccess(0) && content[offset] == QUOTE {
        var text;
        ok, text := ParseString();
        item := String(text);
        return;
      }
      if CanAccess(0) && (content[offset] == MINUS || IsDigit(content[offset])) {
        ok, item := ParseNumber();
        return;
      }
      if CanAccess(0) && content[offset] == LBRACKET {
        ok, item := ParseArray();
        return;
      }
      if CanAccess(0) && content[offset] == LBRACE {
        ok, item := ParseObject();
        return;
      }
      return false, Null;
    }

    /** The part of `parse_array`'s loop that reads one element. */
    method ParseElement() returns (ok: bool, item: Json)
      requires offset < |content| && depth <= NESTING_LIMIT
      modifies this
      ensures Meets(ParseSpec.ParseElement(content, old(offset), old(depth)), ok, item, old(depth))
      decreases |content| - offset, 0
    {
      hide ParseSpec.ParseValue, ParseSpec.SkipWhitespace;
      offset := offset + 1;
      SkipWhitespace();
      ok, item := ParseValue();
    }

    method ParseArray() returns (ok: bool, item: Json)
      requires offset < |content| && content[offset] == LBRACKET && depth <= NESTING_LIMIT
      modifies this
      ensures Meets(ParseSpec.ParseArray(content, old(offset), old(depth)), ok, item, old(depth))
      decreases |content| - offset, 2
    {
      hide ParseSpec.ParseElement, ParseSpec.SkipWhitespace;
      ok, item := false, Null;
      if depth >= NESTING_LIMIT {
        return;
      }
      depth := depth + 1;
      offset := offset + 1;
      SkipWhitespace();
      if CanAccess(0) && content[offset] == RBRACKET {
        depth := depth - 1;
        offset := offset + 1;
        return true, Array([]);
      }
      if !CanAccess(0) {
        offset := offset - 1;
        return;
      }
      offset := offset - 1;
      var items: seq<Json> := [];
      ghost var result := ParseItems(content, offset, depth, []);
      assert ParseSpec.ParseArray(content, old(offset), old(depth)) == result;
      while true
        invariant old(offset) <= offset < |content|
        invariant depth == old(depth) + 1 && depth + ItemsNesting(items) <= NESTING_LIMIT
        invariant ParseItems(content, offset, depth, items) == result
        decreases |content| - offset
      {
        var parsed, element := ParseElement();
        if !parsed {
          return;
        }
        ItemsNestingSnoc(items, element);
        items := items + [element];
        SkipWhitespace();
        if !(CanAccess(0) && content[offset] == COMMA) {
          break;
        }
      }
      if !CanAccess(0) || content[offset] != RBRACKET {
        return;
      }
      depth := depth - 1;
      offset := offset + 1;
      return true, Array(items);
    }

    /** The part of `parse_object`'s loop that reads one key and its value. */
    method ParseMember() returns (ok: bool, member: Keyed<Json>)
      requires offset < |content| && depth <= NESTING_LIMIT
      modifies this
      ensures ok == ParseSpec.ParseMember(content, old(offset), old(depth)).Done?
      ensures offset == ParseSpec.ParseMember(content, old(offset), old(depth)).offset
      ensures ok ==> member == ParseSpec.ParseMember(content, old(offset), old(depth)).value && depth == old(depth)
      decreases |content| - offset, 0
    {
      hide ParseSpec.ParseValue, ParseSpec.ParseString, ParseSpec.SkipWhitespace;
      ok, member := false, Keyed([], Null);
      if !CanAccess(1) {
        return;
      }
      offset := offset + 1;
      SkipWhitespace();
      var named, key := ParseString();
      if !named {
        return;
      }
      SkipWhitespace();
      if !CanAccess(0) || content[offset] != COLON {
        return;
      }
      offset := offset + 1;
      SkipWhitespace();
      var value;
      ok, value := ParseValue();
      member := Keyed(key, value);
    }

    method ParseObject() returns (ok: bool, item: Json)
      requires offset < |content| && content[offset] == LBRACE && depth <= NESTING_LIMIT
      modifies this
      ensures Meets(ParseSpec.ParseObject(content, old(offset), old(depth)), ok, item, old(depth))
      decreases |content| - offset, 2
    {
      hide ParseSpec.ParseMember, ParseSpec.SkipWhitespace;
      ok, item := false, Null;
      if depth >= NESTING_LIMIT {
        return;
      }
      depth := depth + 1;
      offset := offset + 1;
      SkipWhitespace();
      if CanAccess(0) && content[offset] == RBRACE {
        depth := depth - 1;
        offset := offset + 1;
        return true, Object([]);
      }
      if !CanAccess(0) {
        offset := offset - 1;
        return;
      }
      offset := offset - 1;
      var members: seq<Keyed<Json>> := [];
      ghost var result := ParseMembers(content, offset, depth, []);
      assert ParseSpec.ParseObject(content, old(offset), old(depth)) == result;
      while true
        invariant old(offset) <= offset < |content|
        invariant depth == old(depth) + 1 && depth + MembersNesting(members) <= NESTING_LIMIT
        invariant ParseMembers(content, offset, depth, members) == result
        decreases |content| - offset
      {
        var parsed, member := ParseMember();
        if !parsed {
          return;
        }
        MembersNestingSnoc(members, member);
        members := members + [member];
        SkipWhitespace();
        if !(CanAccess(0) && content[offset] == COMMA) {
          break;
        }
      }
      if !CanAccess(0) || content[offset] != RBRACE {
        return;
      }
      depth := depth - 1;
      offset := offset + 1;
      return true, Object(members);
    }
  }

  /** `cJSON_ParseWithLengthOpts`; the error position is returned instead of stored in a global. */
  method ParseWithLengthOpts(content: seq<Byte>, requireNull: bool) returns (r: Document)
    ensures r == ParseText(content, requireNull)
  {
    if |content| == 0 {
      return Malformed(0);
    }
    var buffer := new ParseBuffer(content);
    if |content| > 4 && HasAt(content, 0, BOM) {
      buffer.offset := 3;
    }
    buffer.SkipWhitespace();
    var ok, tree := buffer.ParseValue();
    if !ok {
      return Malformed(ErrorPosition(content, buffer.offset));
    }
    if requireNull {
      buffer.SkipWhitespace();
      if buffer.offset >= |content| || content[buffer.offset] != 0 {
        return Malformed(ErrorPosition(content, buffer.offset));
      }
    }
    return Document.Parsed(tree, buffer.offset);
  }
}
