/** Printing and then parsing gives the tree back. */
module RoundTrip {
  import opened Bytes
  import opened Json
  import opened Text
  import opened Unicode
  import opened ParseSpec

  lemma HasAtHead(c: seq<Byte>, i: nat, text: seq<Byte>)
    requires HasAt(c, i, text) && text != []
    ensures i < |c| && c[i] == text[0]
  {
    assert c[i] == c[i..i + |text|][0];
  }

  lemma HasAtBytes(c: seq<Byte>, i: nat, text: seq<Byte>)
    requires HasAt(c, i, text)
    ensures forall j :: i <= j < i + |text| ==> c[j] == text[j - i]
  {
    forall j | i <= j < i + |text| ensures c[j] == text[j - i] {
      assert c[j] == c[i..i + |text|][j - i];
    }
  }

  // ----- strings -----

  /** One printed character is one step of the first pass. */
  lemma ScanOne(c: seq<Byte>, i: nat, ch: CChar)
    requires HasAt(c, i, Escape(ch))
    ensures ScanEnd(c, i) == ScanEnd(c, i + |Escape(ch)|)
  {
    var e := Escape(ch);
    HasAtBytes(c, i, e);
    if ch < 32 && |e| == 6 {
      assert ScanEnd(c, i) == ScanEnd(c, i + 2) == ScanEnd(c, i + 3) == ScanEnd(c, i + 4);
      assert ScanEnd(c, i + 4) == ScanEnd(c, i + 5) == ScanEnd(c, i + 6);
    } else if |e| == 2 {
      assert c[i] == e[0] == BACKSLASH;
    } else {
      assert c[i] == e[0] == ch;
    }
  }

  lemma {:induction false} ScanQuoted(c: seq<Byte>, i: nat, s: CString)
    requires HasAt(c, i, EscapeAll(s) + [QUOTE])
    ensures ScanEnd(c, i) == i + |EscapeAll(s)|
    decreases s
  {
    hide HasAt, Escape;
    HasAtSplit(c, i, EscapeAll(s), [QUOTE]);
    if s == [] {
      HasAtHead(c, i, [QUOTE]);
    } else {
      var e, rest := Escape(s[0]), EscapeAll(s[1..]);
      Assoc(e, rest, [QUOTE]);
      HasAtSplit(c, i, e, rest + [QUOTE]);
      ScanOne(c, i, s[0]);
      ScanQuoted(c, i + |e|, s[1..]);
    }
  }

  /** The four digits printed for a control character are read back as that character. */
  lemma ControlEscape(c: seq<Byte>, i: nat, ch: CChar, end: nat)
    requires ch < 32 && |Escape(ch)| == 6 && HasAt(c, i, Escape(ch)) && i + 6 <= end < |c|
    ensures DecodeLiteral(c, i, end) == Accept(ch, 6)
  {
    var e := Escape(ch);
    HasAtBytes(c, i, e);
    assert c[i + 2] == ZERO && c[i + 3] == ZERO && c[i + 4] == e[4] && c[i + 5] == e[5];
    assert HexRun(c, i + 2, 4);
    assert HexNumber(c, i + 2, 2) == 0 by {
      assert HexNumber(c, i + 2, 1) == HexNumber(c, i + 2, 0) * 0x10 + HexValue(c[i + 2]);
    }
    assert HexNumber(c, i + 2, 3) == HexNumber(c, i + 2, 2) * 0x10 + HexValue(c[i + 4]);
    assert HexNumber(c, i + 2, 4) == HexNumber(c, i + 2, 3) * 0x10 + HexValue(c[i + 5]);
  }

  lemma DecodeOne(c: seq<Byte>, i: nat, ch: CChar, end: nat)
    requires HasAt(c, i, Escape(ch)) && i + |Escape(ch)| <= end < |c|
    ensures Decode(c, i, end) == Emit([ch], Decode(c, i + |Escape(ch)|, end))
  {
    var e := Escape(ch);
    HasAtBytes(c, i, e);
    if |e| == 6 {
      ControlEscape(c, i, ch, end);
      assert c[i] == e[0] == BACKSLASH && c[i + 1] == e[1] == LOWER_U;
    } else if |e| == 2 {
      assert c[i] == e[0] == BACKSLASH && c[i + 1] == e[1];
    } else {
      assert c[i] == e[0] == ch;
    }
  }

  lemma {:induction false} DecodeQuoted(c: seq<Byte>, i: nat, s: CString, end: nat)
    requires HasAt(c, i, EscapeAll(s)) && end == i + |EscapeAll(s)| < |c|
    ensures Decode(c, i, end) == Decoded(s, end)
    decreases s
  {
    hide Escape, DecodeLiteral, EncodeUtf8;
    if s != [] {
      var e, rest := Escape(s[0]), EscapeAll(s[1..]);
      HasAtSplit(c, i, e, rest);
      DecodeOne(c, i, s[0], end);
      DecodeQuoted(c, i + |e|, s[1..], end);
      assert [s[0]] + s[1..] == s;
    }
  }

  lemma ParseQuoted(c: seq<Byte>, i: nat, s: CString)
    requires HasAt(c, i, Quoted(s))
    ensures i < |c| && c[i] == QUOTE && ParseString(c, i) == Done(s, i + |Quoted(s)|)
  {
    hide HasAt, Escape, EscapeAll, ScanEnd, Decode, UpToNul;
    Assoc([QUOTE], EscapeAll(s), [QUOTE]);
    HasAtSplit(c, i, [QUOTE], EscapeAll(s) + [QUOTE]);
    HasAtHead(c, i, [QUOTE]);
    ScanQuoted(c, i + 1, s);
    HasAtSplit(c, i + 1, EscapeAll(s), [QUOTE]);
    DecodeQuoted(c, i + 1, s, i + 1 + |EscapeAll(s)|);
    UpToNulOfCString(s);
  }

  // ----- numbers -----

  lemma {:induction false} DigitsEndAll(s: seq<Byte>, i: nat)
    requires i <= |s| && forall k :: i <= k < |s| ==> IsDigit(s[k])
    ensures DigitsEnd(s, i) == |s|
    decreases |s| - i
  {
    if i < |s| {
      DigitsEndAll(s, i + 1);
    }
  }

  /** A sign, perhaps, and digits to the end. */
  lemma StrtodDigits(s: seq<Byte>, start: nat)
    requires start < |s| && start <= 1 && (start == 1 <==> s[0] == MINUS) && s[0] != PLUS
    requires forall k :: start <= k < |s| ==> IsDigit(s[k])
    ensures Strtod(s) == StrtodResult(|s|, if start == 1 then -(DigitsValue(s[start..]) as real) else DigitsValue(s[start..]) as real)
  {
    hide DigitsEnd, DigitsValue, Scale;
    DigitsEndAll(s, start);
    ScaleByNothing(DigitsValue(s[start..]) as real);
    ScaleByNothing(0.0);
    assert s[start..|s|] == s[start..] && s[|s|..|s|] == [];
  }

  lemma ScaleByNothing(x: real)
    ensures Scale(x, 0, true) == x && Scale(x, 0, false) == x
    ensures DigitsValue([]) == 0
  {
  }

  lemma StrtodDecimal(n: Int32)
    ensures Strtod(Decimal(n)) == StrtodResult(|Decimal(n)|, n as real)
  {
    hide Digits, DigitsValue, Strtod;
    var m: int := n;
    var magnitude: nat := if m < 0 then -m else m;
    var start: nat := if m < 0 then 1 else 0;
    DigitsRoundTrip(magnitude);
    assert Decimal(n)[start..] == Digits(magnitude);
    assert forall k :: start <= k < |Decimal(n)| ==> Decimal(n)[k] == Decimal(n)[start..][k - start];
    StrtodDigits(Decimal(n), start);
  }

  lemma SaturateExact(n: Int32)
    ensures Saturate(n as real) == n
  {
  }

  lemma {:induction false} NumberEndAll(c: seq<Byte>, i: nat, k: nat)
    requires i <= k <= |c| && (k == |c| || !IsNumberChar(c[k]))
    requires forall j :: i <= j < k ==> IsNumberChar(c[j])
    ensures NumberEnd(c, i) == k
    decreases k - i
  {
    if i < k {
      NumberEndAll(c, i + 1, k);
    }
  }

  /** The text of a value is followed by nothing that could be read as part of a number. */
  predicate Delimited(c: seq<Byte>, i: nat) {
    i <= |c| && (i == |c| || !IsNumberChar(c[i]))
  }

  lemma ParseDecimal(c: seq<Byte>, i: nat, n: Int32)
    requires HasAt(c, i, Decimal(n)) && Delimited(c, i + |Decimal(n)|)
    ensures ParseNumber(c, i) == Done(Number(n), i + |Decimal(n)|)
  {
    var s := Decimal(n);
    HasAtBytes(c, i, s);
    NumberEndAll(c, i, i + |s|);
    StrtodDecimal(n);
    SaturateExact(n);
  }

  // ----- white space -----

  lemma {:induction false} SkipRun(c: seq<Byte>, i: nat, n: nat)
    requires i + n < |c| && c[i + n] > 32
    requires forall k :: i <= k < i + n ==> c[k] <= 32
    ensures SkipWhitespace(c, i) == i + n
    decreases n
  {
    if n > 0 {
      SkipRun(c, i + 1, n - 1);
    }
  }

  lemma SkipText(c: seq<Byte>, i: nat, blank: CString)
    requires HasAt(c, i, blank) && forall k :: 0 <= k < |blank| ==> blank[k] <= 32
    requires i + |blank| < |c| && c[i + |blank|] > 32
    ensures SkipWhitespace(c, i) == i + |blank|
  {
    HasAtBytes(c, i, blank);
    SkipRun(c, i, |blank|);
  }

  predicate Blank(s: CString) {
    forall k :: 0 <= k < |s| ==> s[k] <= 32
  }

  /** White space followed by something else is skipped exactly. */
  lemma SkipGap(c: seq<Byte>, i: nat, gap: CString, next: CChar)
    requires HasAt(c, i, gap) && HasAt(c, i + |gap|, [next]) && Blank(gap) && next > 32
    ensures SkipWhitespace(c, i) == i + |gap| < |c| && c[i + |gap|] == next
  {
    HasAtHead(c, i + |gap|, [next]);
    SkipText(c, i, gap);
  }

  lemma SkipNone(c: seq<Byte>, i: nat, next: CChar)
    requires HasAt(c, i, [next]) && next > 32
    ensures SkipWhitespace(c, i) == i < |c| && c[i] == next
  {
    SkipGap(c, i, [], next);
  }

  lemma HasAtPrefix(c: seq<Byte>, i: nat, a: seq<Byte>, b: seq<Byte>)
    requires a <= b && HasAt(c, i, b)
    ensures HasAt(c, i, a)
  {
    assert b == a + b[|a|..];
    HasAtSplit(c, i, a, b[|a|..]);
  }

  // ----- where the parts of an array or object stand in its text -----

  lemma TextStart(j: Json, format: bool, depth: nat)
    ensures |TextOf(j, format, depth)| > 0
    ensures 32 < TextOf(j, format, depth)[0] && TextOf(j, format, depth)[0] !in {RBRACKET, RBRACE}
  {
  }

  lemma LiteralHeads(c: seq<Byte>, i: nat)
    ensures HasAt(c, i, NULL_TEXT) ==> i < |c| && c[i] == LOWER_N
    ensures HasAt(c, i, FALSE_TEXT) ==> i < |c| && c[i] == LOWER_F
    ensures HasAt(c, i, TRUE_TEXT) ==> i < |c| && c[i] == LOWER_T
  {
    if HasAt(c, i, NULL_TEXT) { HasAtHead(c, i, NULL_TEXT); }
    if HasAt(c, i, FALSE_TEXT) { HasAtHead(c, i, FALSE_TEXT); }
    if HasAt(c, i, TRUE_TEXT) { HasAtHead(c, i, TRUE_TEXT); }
  }

  /** Element `k` starts at the returned position and is followed by its separator. */
  lemma ItemPlaced(c: seq<Byte>, base: nat, items: seq<Json>, format: bool, depth: nat, k: nat) returns (at: nat, end: nat)
    requires k < |items| && HasAt(c, base, ItemsText(items, format, depth, |items|))
    ensures at == base + |ItemsText(items, format, depth, k)| && end == at + |TextOf(items[k], format, depth)|
    ensures HasAt(c, at, TextOf(items[k], format, depth))
    ensures HasAt(c, end, ItemSeparator(format, k + 1 == |items|))
    ensures end + |ItemSeparator(format, k + 1 == |items|)| == base + |ItemsText(items, format, depth, k + 1)|
  {
    var before, text, separator := ItemsText(items, format, depth, k), TextOf(items[k], format, depth), ItemSeparator(format, k + 1 == |items|);
    ItemsTextPrefix(items, format, depth, k + 1, |items|);
    assert ItemsText(items, format, depth, k + 1) == before + text + separator;
    HasAtPrefix(c, base, before + text + separator, ItemsText(items, format, depth, |items|));
    HasAtSplit(c, base, before + text, separator);
    HasAtSplit(c, base, before, text);
    at := base + |before|;
    end := at + |text|;
  }

  lemma MemberPlaced(c: seq<Byte>, base: nat, members: seq<Keyed<Json>>, format: bool, depth: nat, k: nat) returns (at: nat, value: nat, end: nat)
    requires k < |members| && HasAt(c, base, MembersText(members, format, depth, |members|))
    ensures at == base + |MembersText(members, format, depth, k)|
    ensures value == at + |MemberStart(members[k].key, format, depth)| && end == value + |TextOf(members[k].item, format, depth)|
    ensures HasAt(c, at, MemberStart(members[k].key, format, depth))
    ensures HasAt(c, value, TextOf(members[k].item, format, depth))
    ensures HasAt(c, end, MemberEnd(format, k + 1 == |members|))
    ensures end + |MemberEnd(format, k + 1 == |members|)| == base + |MembersText(members, format, depth, k + 1)|
  {
    hide HasAt, TextOf, MemberStart, MemberEnd;
    var before, start := MembersText(members, format, depth, k), MemberStart(members[k].key, format, depth);
    var text, separator := TextOf(members[k].item, format, depth), MemberEnd(format, k + 1 == |members|);
    MembersTextPrefix(members, format, depth, k + 1, |members|);
    assert MembersText(members, format, depth, k + 1) == before + start + text + separator;
    HasAtPrefix(c, base, before + start + text + separator, MembersText(members, format, depth, |members|));
    HasAtSplit(c, base, before + start + text, separator);
    HasAtSplit(c, base, before + start, text);
    HasAtSplit(c, base, before, start);
    at := base + |before|;
    value := at + |start|;
    end := value + |text|;
  }

  // ----- values -----

  /** Wherever the text of `j` stands, delimited, the parser reads exactly `j` and stops behind it. */
  lemma {:induction false} ParsesPrinted(c: seq<Byte>, i: nat, j: Json, format: bool, printDepth: nat, depth: nat)
    requires HasAt(c, i, TextOf(j, format, printDepth)) && Delimited(c, i + |TextOf(j, format, printDepth)|)
    requires depth + Nesting(j) <= NESTING_LIMIT
    ensures ParseValue(c, i, depth) == Done(j, i + |TextOf(j, format, printDepth)|)
    decreases j, 1, 0
  {
    hide HasAt, ParseString, ParseNumber, ParseArray, ParseObject, Digits, EscapeAll, ItemsText, MembersText, Nesting;
    TextStart(j, format, printDepth);
    HasAtHead(c, i, TextOf(j, format, printDepth));
    LiteralHeads(c, i);
    match j {
      case Null =>
      case False =>
      case True =>
      case Number(n) => ParseDecimal(c, i, n);
      case String(s) => ParseQuoted(c, i, s);
      case Array(items) => ParsesPrintedArray(c, i, items, format, printDepth, depth);
      case Object(members) => ParsesPrintedObject(c, i, members, format, printDepth, depth);
    }
  }

  /** Where the parts of a printed array stand. */
  lemma ArrayPlaced(c: seq<Byte>, i: nat, items: seq<Json>, format: bool, depth: nat)
    requires HasAt(c, i, TextOf(Array(items), format, depth))
    ensures HasAt(c, i, [LBRACKET]) && HasAt(c, i + 1, ItemsText(items, format, depth + 1, |items|))
    ensures HasAt(c, i + 1 + |ItemsText(items, format, depth + 1, |items|)|, [RBRACKET])
  {
    hide HasAt, TextOf, ItemsText;
    ArrayParts(items, format, depth);
    var body := ItemsText(items, format, depth + 1, |items|);
    HasAtSplit(c, i, [LBRACKET] + body, [RBRACKET]);
    HasAtSplit(c, i, [LBRACKET], body);
  }

  lemma {:induction false} ParsesPrintedArray(c: seq<Byte>, i: nat, items: seq<Json>, format: bool, printDepth: nat, depth: nat)
    requires HasAt(c, i, TextOf(Array(items), format, printDepth)) && depth + Nesting(Array(items)) <= NESTING_LIMIT
    ensures i < |c| && ParseArray(c, i, depth) == Done(Array(items), i + |TextOf(Array(items), format, printDepth)|)
    decreases Array(items), 0, 1
  {
    hide HasAt, ParseItems, SkipWhitespace, TextOf, Nesting;
    ArrayPlaced(c, i, items, format, printDepth);
    HasAtHead(c, i, [LBRACKET]);
    ArrayParts(items, format, printDepth);
    if items == [] {
      SkipNone(c, i + 1, RBRACKET);
    } else {
      var at := FirstOfItem(c, i + 1, items, format, printDepth + 1, 0);
      assert items[..0] == [];
      ParsesPrintedItems(c, i, i + 1, items, format, printDepth + 1, depth + 1, 0);
    }
  }

  /** Element `k` starts with something the parser does not skip. */
  lemma FirstOfItem(c: seq<Byte>, base: nat, items: seq<Json>, format: bool, depth: nat, k: nat) returns (first: CChar)
    requires k < |items| && HasAt(c, base, ItemsText(items, format, depth, |items|))
    ensures HasAt(c, base + |ItemsText(items, format, depth, k)|, [first]) && first > 32 && first != RBRACKET
    ensures SkipWhitespace(c, base + |ItemsText(items, format, depth, k)|) == base + |ItemsText(items, format, depth, k)| < |c|
    ensures c[base + |ItemsText(items, format, depth, k)|] == first
  {
    hide HasAt, TextOf, ItemsText, SkipWhitespace;
    var at, _ := ItemPlaced(c, base, items, format, depth, k);
    var text := TextOf(items[k], format, depth);
    TextStart(items[k], format, depth);
    first := text[0];
    assert text == [first] + text[1..];
    HasAtSplit(c, at, [first], text[1..]);
    SkipNone(c, at, first);
  }

  /** Behind an element that is not the last, the parser finds a comma and then the next element. */
  lemma CommaBehindItem(c: seq<Byte>, base: nat, items: seq<Json>, format: bool, depth: nat, k: nat, end: nat)
    requires k + 1 < |items| && HasAt(c, base, ItemsText(items, format, depth, |items|))
    requires end == base + |ItemsText(items, format, depth, k)| + |TextOf(items[k], format, depth)|
    ensures end < |c| && c[end] == COMMA && SkipWhitespace(c, end) == end
    ensures SkipWhitespace(c, end + 1) == base + |ItemsText(items, format, depth, k + 1)|
  {
    hide HasAt, TextOf, ItemsText, SkipWhitespace;
    var at, _ := ItemPlaced(c, base, items, format, depth, k);
    var first := FirstOfItem(c, base, items, format, depth, k + 1);
    var separator := ItemSeparator(format, false);
    assert separator == [COMMA] + separator[1..];
    CommaThen(c, end, separator[1..], first);
  }

  lemma CommaThen(c: seq<Byte>, i: nat, gap: CString, next: CChar)
    requires HasAt(c, i, [COMMA] + gap) && HasAt(c, i + 1 + |gap|, [next]) && Blank(gap) && next > 32
    ensures i < |c| && c[i] == COMMA && SkipWhitespace(c, i) == i && SkipWhitespace(c, i + 1) == i + 1 + |gap|
  {
    hide HasAt, SkipWhitespace;
    HasAtSplit(c, i, [COMMA], gap);
    SkipNone(c, i, COMMA);
    SkipGap(c, i + 1, gap, next);
  }

  lemma {:induction false} ParsesPrintedItems(c: seq<Byte>, i: nat, base: nat, items: seq<Json>, format: bool, printDepth: nat, depth: nat, k: nat)
    requires k < |items| && HasAt(c, base, ItemsText(items, format, printDepth, |items|))
    requires HasAt(c, base + |ItemsText(items, format, printDepth, |items|)|, [RBRACKET])
    requires i < |c| && SkipWhitespace(c, i + 1) == base + |ItemsText(items, format, printDepth, k)|
    requires 0 < depth && depth + ItemsNesting(items) <= NESTING_LIMIT
    ensures depth + ItemsNesting(items[..k]) <= NESTING_LIMIT
    ensures ParseItems(c, i, depth, items[..k]) == Done(Array(items), base + |ItemsText(items, format, printDepth, |items|)| + 1)
    decreases Array(items), 0, 0, |items| - k
  {
    hide HasAt, TextOf, ItemsText, ParseValue, SkipWhitespace, Nesting, ItemsNesting;
    var at, end := ItemPlaced(c, base, items, format, printDepth, k);
    ItemNesting(items, k);
    ItemsNestingPrefix(items, k);
    if k + 1 < |items| {
      CommaBehindItem(c, base, items, format, printDepth, k, end);
    } else {
      SkipNone(c, end, RBRACKET);
    }
    ParsesPrinted(c, at, items[k], format, printDepth, depth);
    assert items[..k] + [items[k]] == items[..k + 1];
    if k + 1 < |items| {
      ParsesPrintedItems(c, end, base, items, format, printDepth, depth, k + 1);
    } else {
      assert items[..k + 1] == items;
    }
  }

  lemma {:induction false} ItemsNestingPrefix(items: seq<Json>, k: nat)
    requires k <= |items|
    ensures ItemsNesting(items[..k]) <= ItemsNesting(items)
  {
    if k > 0 {
      assert items[..k][1..] == items[1..][..k - 1];
      ItemsNestingPrefix(items[1..], k - 1);
    }
  }

  lemma {:induction false} MembersNestingPrefix(members: seq<Keyed<Json>>, k: nat)
    requires k <= |members|
    ensures MembersNesting(members[..k]) <= MembersNesting(members)
  {
    if k > 0 {
      assert members[..k][1..] == members[1..][..k - 1];
      MembersNestingPrefix(members[1..], k - 1);
    }
  }

  /** The parts of a printed member: indentation, key, colon. */
  lemma KeyPlaced(c: seq<Byte>, at: nat, key: CString, format: bool, depth: nat) returns (quote: nat, colon: nat)
    requires HasAt(c, at, MemberStart(key, format, depth))
    ensures quote == at + |Indent(format, depth)| && colon == quote + |Quoted(key)|
    ensures colon + |Colon(format)| == at + |MemberStart(key, format, depth)|
    ensures HasAt(c, at, Indent(format, depth)) && HasAt(c, quote, Quoted(key)) && HasAt(c, colon, Colon(format))
    ensures HasAt(c, quote, [QUOTE])
  {
    hide HasAt;
    var indent := Indent(format, depth);
    HasAtSplit(c, at, indent + Quoted(key), Colon(format));
    HasAtSplit(c, at, indent, Quoted(key));
    quote := at + |indent|;
    colon := quote + |Quoted(key)|;
    assert Quoted(key) == [QUOTE] + (EscapeAll(key) + [QUOTE]);
    HasAtSplit(c, quote, [QUOTE], EscapeAll(key) + [QUOTE]);
  }

  /** A gap of two pieces of white space before the quote of member `k`. */
  lemma SkipToKey(c: seq<Byte>, i: nat, gap: CString, base: nat, members: seq<Keyed<Json>>, format: bool, depth: nat, k: nat)
    requires k < |members| && HasAt(c, base, MembersText(members, format, depth, |members|))
    requires HasAt(c, i, gap) && Blank(gap) && i + |gap| == base + |MembersText(members, format, depth, k)|
    ensures SkipWhitespace(c, i) == i + |gap| + |Indent(format, depth)|
  {
    hide HasAt, SkipWhitespace, MemberStart;
    var at, value, end := MemberPlaced(c, base, members, format, depth, k);
    var quote, colon := KeyPlaced(c, at, members[k].key, format, depth);
    HasAtSplit(c, i, gap, Indent(format, depth));
    SkipGap(c, i, gap + Indent(format, depth), QUOTE);
  }

  /** Where the parts of a printed object stand. */
  lemma ObjectPlaced(c: seq<Byte>, i: nat, members: seq<Keyed<Json>>, format: bool, depth: nat)
    requires HasAt(c, i, TextOf(Object(members), format, depth))
    ensures HasAt(c, i, [LBRACE]) && HasAt(c, i + 1, Open(format)[1..])
    ensures HasAt(c, i + |Open(format)|, MembersText(members, format, depth + 1, |members|))
    ensures HasAt(c, i + |Open(format)| + |MembersText(members, format, depth + 1, |members|)|, Close(format, depth))
  {
    hide HasAt, TextOf, MembersText;
    ObjectParts(members, format, depth);
    var body := MembersText(members, format, depth + 1, |members|);
    var open := Open(format);
    HasAtSplit(c, i, open + body, Close(format, depth));
    HasAtSplit(c, i, open, body);
    assert open == [LBRACE] + open[1..];
    HasAtSplit(c, i, [LBRACE], open[1..]);
  }

  /** Behind the opening brace of an empty object the parser finds the closing brace. */
  lemma EmptyObjectStart(c: seq<Byte>, i: nat, format: bool, depth: nat)
    requires HasAt(c, i, TextOf(Object([]), format, depth))
    ensures SkipWhitespace(c, i + 1) == i + |Open(format)| + |Close(format, depth)| - 1 < |c| && c[SkipWhitespace(c, i + 1)] == RBRACE
  {
    hide HasAt, SkipWhitespace, TextOf;
    ObjectPlaced(c, i, [], format, depth);
    var blank := Open(format)[1..];
    HasAtSplit(c, i + |Open(format)|, Indent(format, depth), [RBRACE]);
    HasAtSplit(c, i + 1, blank, Indent(format, depth));
    SkipGap(c, i + 1, blank + Indent(format, depth), RBRACE);
  }

  /** Behind the opening brace of any other object it finds the first key. */
  lemma KeyBehindBrace(c: seq<Byte>, i: nat, members: seq<Keyed<Json>>, format: bool, depth: nat)
    requires members != [] && HasAt(c, i, TextOf(Object(members), format, depth))
    ensures SkipWhitespace(c, i + 1) == i + |Open(format)| + |Indent(format, depth + 1)| < |c| && c[SkipWhitespace(c, i + 1)] == QUOTE
  {
    hide HasAt, SkipWhitespace, TextOf, MemberStart, Indent, Quoted, Colon, Close;
    ObjectPlaced(c, i, members, format, depth);
    var at, value, end := MemberPlaced(c, i + |Open(format)|, members, format, depth + 1, 0);
    var quote, colon := KeyPlaced(c, at, members[0].key, format, depth + 1);
    HasAtHead(c, quote, [QUOTE]);
    SkipToKey(c, i + 1, Open(format)[1..], i + |Open(format)|, members, format, depth + 1, 0);
  }

  lemma {:induction false} ParsesPrintedObject(c: seq<Byte>, i: nat, members: seq<Keyed<Json>>, format: bool, printDepth: nat, depth: nat)
    requires HasAt(c, i, TextOf(Object(members), format, printDepth)) && depth + Nesting(Object(members)) <= NESTING_LIMIT
    ensures i < |c| && ParseObject(c, i, depth) == Done(Object(members), i + |TextOf(Object(members), format, printDepth)|)
    decreases Object(members), 0, 1
  {
    hide HasAt, ParseMembers, SkipWhitespace, MemberStart, TextOf, Nesting, Open, Close, Indent;
    ObjectPlaced(c, i, members, format, printDepth);
    HasAtHead(c, i, [LBRACE]);
    ObjectParts(members, format, printDepth);
    if members == [] {
      EmptyObjectStart(c, i, format, printDepth);
    } else {
      KeyBehindBrace(c, i, members, format, printDepth);
      var k := SkipWhitespace(c, i + 1);
      SkipRun(c, k, 0);
      assert members[..0] == [];
      ParsesPrintedMembers(c, k - 1, i + |Open(format)|, members, format, printDepth + 1, depth + 1, 0);
    }
  }

  /** What the parser finds behind member `k`: a comma and the next key, or the closing brace. */
  lemma MemberGap(c: seq<Byte>, base: nat, members: seq<Keyed<Json>>, format: bool, depth: nat, k: nat, end: nat)
    requires k < |members| && HasAt(c, base, MembersText(members, format, depth + 1, |members|))
    requires HasAt(c, base + |MembersText(members, format, depth + 1, |members|)|, Close(format, depth))
    requires end == base + |MembersText(members, format, depth + 1, k)| + |MemberStart(members[k].key, format, depth + 1)|
                  + |TextOf(members[k].item, format, depth + 1)|
    ensures end < |c| && Delimited(c, end)
    ensures k + 1 < |members| ==> c[end] == COMMA && SkipWhitespace(c, end) == end
    ensures k + 1 < |members| ==>
      SkipWhitespace(c, end + 1) == base + |MembersText(members, format, depth + 1, k + 1)| + |Indent(format, depth + 1)|
    ensures k + 1 == |members| ==>
      SkipWhitespace(c, end) == base + |MembersText(members, format, depth + 1, |members|)| + |Close(format, depth)| - 1 < |c|
      && c[SkipWhitespace(c, end)] == RBRACE
  {
    hide HasAt, TextOf, MembersText, SkipWhitespace, MemberStart;
    var at, value, _ := MemberPlaced(c, base, members, format, depth + 1, k);
    var separator := MemberEnd(format, k + 1 == |members|);
    if k + 1 < |members| {
      assert separator == [COMMA] + separator[1..];
      HasAtSplit(c, end, [COMMA], separator[1..]);
      SkipNone(c, end, COMMA);
      SkipToKey(c, end + 1, separator[1..], base, members, format, depth + 1, k + 1);
    } else {
      var indent := Indent(format, depth);
      HasAtSplit(c, end + |separator|, indent, [RBRACE]);
      HasAtSplit(c, end, separator, indent);
      SkipGap(c, end, separator + indent, RBRACE);
      var rest := separator + indent + [RBRACE];
      HasAtSplit(c, end, separator + indent, [RBRACE]);
      HasAtHead(c, end, rest);
    }
  }

  lemma {:induction false} ParsesPrintedMembers(c: seq<Byte>, i: nat, base: nat, members: seq<Keyed<Json>>, format: bool,
                                                printDepth: nat, depth: nat, k: nat)
    requires k < |members| && 0 < printDepth && HasAt(c, base, MembersText(members, format, printDepth, |members|))
    requires HasAt(c, base + |MembersText(members, format, printDepth, |members|)|, Close(format, printDepth - 1))
    requires i < |c| && SkipWhitespace(c, i + 1) == base + |MembersText(members, format, printDepth, k)| + |Indent(format, printDepth)|
    requires 0 < depth && depth + MembersNesting(members) <= NESTING_LIMIT
    ensures depth + MembersNesting(members[..k]) <= NESTING_LIMIT
    ensures ParseMembers(c, i, depth, members[..k])
         == Done(Object(members), base + |MembersText(members, format, printDepth, |members|)| + |Close(format, printDepth - 1)|)
    decreases Object(members), 0, 0, |members| - k
  {
    hide HasAt, TextOf, MembersText, ParseMember, SkipWhitespace, Nesting, MembersNesting, MemberStart, Close, Indent, MemberEnd;
    var at, value, end := MemberPlaced(c, base, members, format, printDepth, k);
    MembersNestingPrefix(members, k);
    MemberGap(c, base, members, format, printDepth - 1, k, end);
    MemberNesting(members, k);
    ParsesPrintedMember(c, i, at, members, k, format, printDepth, depth);
    assert members[..k] + [members[k]] == members[..k + 1];
    if k + 1 < |members| {
      ParsesPrintedMembers(c, end, base, members, format, printDepth, depth, k + 1);
    } else {
      assert members[..k + 1] == members;
    }
  }

  lemma {:induction false} ParsesPrintedMember(c: seq<Byte>, i: nat, at: nat, members: seq<Keyed<Json>>, k: nat, format: bool,
                                               printDepth: nat, depth: nat)
    requires k < |members| && depth + Nesting(members[k].item) <= NESTING_LIMIT
    requires HasAt(c, at, MemberStart(members[k].key, format, printDepth))
    requires HasAt(c, at + |MemberStart(members[k].key, format, printDepth)|, TextOf(members[k].item, format, printDepth))
    requires Delimited(c, at + |MemberStart(members[k].key, format, printDepth)| + |TextOf(members[k].item, format, printDepth)|)
    requires i < |c| && SkipWhitespace(c, i + 1) == at + |Indent(format, printDepth)|
    ensures ParseMember(c, i, depth)
         == Done(members[k], at + |MemberStart(members[k].key, format, printDepth)| + |TextOf(members[k].item, format, printDepth)|)
    decreases Object(members), 0, 0, 0
  {
    hide HasAt, TextOf, ParseValue, ParseString, SkipWhitespace, Nesting, Quoted, MemberStart, Indent, Colon;
    var member := members[k];
    var quote, colon := KeyPlaced(c, at, member.key, format, printDepth);
    ParseQuoted(c, quote, member.key);
    BehindColon(c, colon, member.item, format, printDepth);
    ParsesPrinted(c, colon + |Colon(format)|, member.item, format, printDepth, depth);
  }

  /** The parser skips from the colon to the value. */
  lemma BehindColon(c: seq<Byte>, colon: nat, item: Json, format: bool, depth: nat)
    requires HasAt(c, colon, Colon(format)) && HasAt(c, colon + |Colon(format)|, TextOf(item, format, depth))
    ensures colon < |c| && c[colon] == COLON && SkipWhitespace(c, colon) == colon
    ensures SkipWhitespace(c, colon + 1) == colon + |Colon(format)|
  {
    hide HasAt, TextOf, SkipWhitespace;
    var separator, text := Colon(format), TextOf(item, format, depth);
    assert separator == [COLON] + separator[1..];
    HasAtSplit(c, colon, [COLON], separator[1..]);
    SkipNone(c, colon, COLON);
    TextStart(item, format, depth);
    assert text == [text[0]] + text[1..];
    HasAtSplit(c, colon + |separator|, [text[0]], text[1..]);
    SkipGap(c, colon + 1, separator[1..], text[0]);
  }

  // ----- whole texts -----

  /** The print/parse round trip: the printed text, with or without its terminating NUL, parses to
      exactly the tree it was printed from, in the same member order, for every tree within the nesting
      limit the printer and the parser share. */
  lemma PrintedTextParses(j: Json, format: bool)
    requires Nesting(j) <= NESTING_LIMIT
    ensures var text := TextOf(j, format, 0);
      && ParseText(Terminated(text), true) == Document.Parsed(j, |text|)
      && ParseText(Terminated(text), false) == Document.Parsed(j, |text|)
      && ParseText(text, false) == Document.Parsed(j, |text|)
  {
    ParsesWholeText(j, format, []);
    ParsesWholeText(j, format, [0]);
    var text := TextOf(j, format, 0);
    assert text + [] == text;
  }

  lemma ParsesWholeText(j: Json, format: bool, terminator: seq<Byte>)
    requires Nesting(j) <= NESTING_LIMIT && (terminator == [] || terminator == [0])
    ensures ParseText(TextOf(j, format, 0) + terminator, false) == Document.Parsed(j, |TextOf(j, format, 0)|)
    ensures terminator == [0] ==> ParseText(TextOf(j, format, 0) + terminator, true) == Document.Parsed(j, |TextOf(j, format, 0)|)
  {
    hide TextOf, ParseValue;
    var text := TextOf(j, format, 0);
    var c := text + terminator;
    assert HasAt(c, 0, text) by { assert c[0..|text|] == text; }
    TextStart(j, format, 0);
    FirstByteIsAscii(j, format);
    assert !HasAt(c, 0, BOM) by { if HasAt(c, 0, BOM) { HasAtHead(c, 0, BOM); } }
    SkipRun(c, 0, 0);
    ParsesPrinted(c, 0, j, format, 0, 0);
  }

  lemma FirstByteIsAscii(j: Json, format: bool)
    ensures |TextOf(j, format, 0)| > 0 && TextOf(j, format, 0)[0] < 0x80
  {
  }
}
