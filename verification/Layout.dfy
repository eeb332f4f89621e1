/** The layout of printed text, read off the bytes alone. */
module Layout {
  import opened Bytes
  import opened Json
  import opened Text

  /** What stands behind a literal whose opening quote was read; a backslash hides the byte behind it. */
  function BehindLiteral(t: CString): (u: CString)
    ensures |u| <= |t|
  {
    if t == [] then []
    else if t[0] == QUOTE then t[1..]
    else if t[0] == BACKSLASH && |t| > 1 then BehindLiteral(t[2..])
    else BehindLiteral(t[1..])
  }

  function TabRun(t: CString): (n: nat)
    ensures n <= |t|
  {
    if t != [] && t[0] == TAB then 1 + TabRun(t[1..]) else 0
  }

  function Inner(open: CString): CChar
    requires open != []
  {
    open[|open| - 1]
  }

  /** The bytes `t` are laid out by the rules, with the brackets and braces `open` not yet closed. Outside
      literals
      - every line break is followed by exactly as many tabs as brackets and braces are open, or one fewer
        where the closing brace of an object comes next;
      - a line break follows each opening brace and each comma of an object, and precedes each closing
        brace, and stands nowhere else;
      - each comma of an array is followed by one space and each colon by one tab;
      - there is no other white space, and every bracket and brace is closed by its own kind. */
  predicate LaidOut(open: CString, t: CString)
    decreases |t|, 0
  {
    if t == [] then open == []
    else if t[0] == QUOTE then LaidOut(open, BehindLiteral(t[1..]))
    else if t[0] == LBRACKET then LaidOut(open + [LBRACKET], t[1..])
    else if t[0] == RBRACKET then open != [] && Inner(open) == LBRACKET && LaidOut(open[..|open| - 1], t[1..])
    else if t[0] == LBRACE then At(t, 1) == NEWLINE && Line(open + [LBRACE], t[2..])
    else if t[0] == COMMA then
      && open != []
      && if Inner(open) == LBRACE then At(t, 1) == NEWLINE && Line(open, t[2..]) else At(t, 1) == SPACE && LaidOut(open, t[2..])
    else if t[0] == COLON then At(t, 1) == TAB && LaidOut(open, t[2..])
    else if t[0] == NEWLINE then EndsObject(t[1..]) && Line(open, t[1..])
    else t[0] > 32 && t[0] != RBRACE && LaidOut(open, t[1..])
  }

  /** What follows a line break. */
  predicate Line(open: CString, t: CString)
    decreases |t|, 1
  {
    if EndsObject(t) then
      && open != []
      && Inner(open) == LBRACE
      && TabRun(t) == |open| - 1
      && LaidOut(open[..|open| - 1], t[TabRun(t) + 1..])
    else TabRun(t) == |open| && LaidOut(open, t[TabRun(t)..])
  }

  predicate EndsObject(t: CString) { At(t, TabRun(t)) == RBRACE }

  /** No white space and no control byte outside literals. */
  predicate Compact(t: CString)
    decreases |t|
  {
    t == [] || if t[0] == QUOTE then Compact(BehindLiteral(t[1..])) else t[0] > 32 && Compact(t[1..])
  }

  // ----- literals and words -----

  lemma {:induction false} BehindEscapes(s: CString, rest: CString)
    ensures BehindLiteral(EscapeAll(s) + ([QUOTE] + rest)) == rest
  {
    hide BehindLiteral, Escape;
    if s == [] {
      BehindQuote(rest);
      assert EscapeAll(s) + ([QUOTE] + rest) == [QUOTE] + rest;
    } else {
      var tail := EscapeAll(s[1..]) + ([QUOTE] + rest);
      BehindEscapes(s[1..], rest);
      BehindEscape(s[0], tail);
      Assoc(Escape(s[0]), EscapeAll(s[1..]), [QUOTE] + rest);
    }
  }

  lemma BehindQuote(rest: CString)
    ensures BehindLiteral([QUOTE] + rest) == rest
  {
  }

  lemma BehindEscape(c: CChar, rest: CString)
    ensures BehindLiteral(Escape(c) + rest) == BehindLiteral(rest)
  {
    hide BehindLiteral;
    var e := Escape(c);
    if |e| == 1 {
      BehindOne(c, rest);
    } else {
      BehindPair(e[1], e[2..] + rest);
      assert e + rest == [BACKSLASH, e[1]] + (e[2..] + rest);
      if |e| == 2 {
        assert e[2..] + rest == rest;
      } else {
        assert e[2..] + rest == [ZERO] + ([ZERO] + ([e[4]] + ([e[5]] + rest)));
        BehindOne(ZERO, [ZERO] + ([e[4]] + ([e[5]] + rest)));
        BehindOne(ZERO, [e[4]] + ([e[5]] + rest));
        BehindOne(e[4], [e[5]] + rest);
        BehindOne(e[5], rest);
      }
    }
  }

  lemma BehindOne(c: CChar, rest: CString)
    requires c != QUOTE && c != BACKSLASH
    ensures BehindLiteral([c] + rest) == BehindLiteral(rest)
  {
    assert ([c] + rest)[1..] == rest;
  }

  lemma BehindPair(c: CChar, rest: CString)
    ensures BehindLiteral([BACKSLASH, c] + rest) == BehindLiteral(rest)
  {
    assert ([BACKSLASH, c] + rest)[2..] == rest;
  }

  lemma BehindQuoted(s: CString, rest: CString)
    ensures Quoted(s) + rest == [QUOTE] + (EscapeAll(s) + ([QUOTE] + rest))
    ensures BehindLiteral((Quoted(s) + rest)[1..]) == rest
  {
    hide EscapeAll, BehindLiteral;
    BehindEscapes(s, rest);
    assert Quoted(s) + rest == [QUOTE] + (EscapeAll(s) + ([QUOTE] + rest));
    assert (Quoted(s) + rest)[1..] == EscapeAll(s) + ([QUOTE] + rest);
  }

  /** Bytes of which the layout takes no notice. */
  predicate IsPlain(b: Byte) {
    b > 32 && b !in {QUOTE, COMMA, COLON, LBRACKET, RBRACKET, LBRACE, RBRACE}
  }

  lemma {:induction false} SkipsPlain(open: CString, t: CString, rest: CString)
    requires forall i :: 0 <= i < |t| ==> IsPlain(t[i])
    ensures LaidOut(open, t + rest) == LaidOut(open, rest)
    ensures Compact(t + rest) == Compact(rest)
  {
    hide BehindLiteral, Line;
    if t == [] {
      assert t + rest == rest;
    } else {
      assert (t + rest)[1..] == t[1..] + rest;
      SkipsPlain(open, t[1..], rest);
    }
  }

  lemma SkipsQuoted(open: CString, s: CString, rest: CString)
    ensures LaidOut(open, Quoted(s) + rest) == LaidOut(open, rest)
    ensures Compact(Quoted(s) + rest) == Compact(rest)
  {
    hide BehindLiteral, Line, EscapeAll;
    BehindQuoted(s, rest);
  }

  lemma DecimalIsPlain(n: int)
    ensures forall i :: 0 <= i < |Decimal(n)| ==> IsPlain(Decimal(n)[i])
  {
    hide Digits;
    forall i | 0 <= i < |Decimal(n)| ensures IsPlain(Decimal(n)[i]) {
      assert IsDigit(Decimal(n)[i]) || Decimal(n)[i] == MINUS;
    }
  }

  lemma {:induction false} TabsRun(n: nat, rest: CString)
    requires At(rest, 0) != TAB
    ensures TabRun(Tabs(n) + rest) == n && (Tabs(n) + rest)[n..] == rest
  {
    if n == 0 {
      assert Tabs(n) + rest == rest;
    } else {
      assert (Tabs(n) + rest)[1..] == Tabs(n - 1) + rest;
      TabsRun(n - 1, rest);
      assert (Tabs(n) + rest)[n..] == rest;
    }
  }

  // ----- formatted text -----

  lemma LaidOutStep(open: CString, b: CChar, rest: CString)
    ensures b == LBRACKET ==> LaidOut(open, [b] + rest) == LaidOut(open + [LBRACKET], rest)
    ensures b == RBRACKET ==> LaidOut(open + [LBRACKET], [b] + rest) == LaidOut(open, rest)
    ensures b == NEWLINE && EndsObject(rest) ==> LaidOut(open, [b] + rest) == Line(open, rest)
  {
    hide BehindLiteral, Line;
    assert ([b] + rest)[1..] == rest && (open + [LBRACKET])[..|open|] == open;
  }

  lemma LaidOutPair(open: CString, b: CChar, c: CChar, rest: CString)
    ensures b == LBRACE && c == NEWLINE ==> LaidOut(open, [b, c] + rest) == Line(open + [LBRACE], rest)
    ensures b == COMMA && c == NEWLINE && open != [] && Inner(open) == LBRACE ==> LaidOut(open, [b, c] + rest) == Line(open, rest)
    ensures b == COMMA && c == SPACE && open != [] && Inner(open) == LBRACKET ==> LaidOut(open, [b, c] + rest) == LaidOut(open, rest)
    ensures b == COLON && c == TAB ==> LaidOut(open, [b, c] + rest) == LaidOut(open, rest)
  {
    hide BehindLiteral, Line;
    assert ([b, c] + rest)[2..] == rest;
  }

  lemma Assoc4(a: CString, b: CString, c: CString, d: CString)
    ensures a + b + c + d == a + (b + (c + d))
  {
  }

  lemma Assoc5(a: CString, b: CString, c: CString, d: CString, e: CString)
    ensures a + b + c + d + e == a + (b + (c + (d + e)))
  {
  }

  /** In front of any text, the formatted text of a tree keeps to the layout. */
  lemma {:induction false} LaysOutTree(j: Json, open: CString, rest: CString)
    ensures LaidOut(open, TextOf(j, true, |open|) + rest) == LaidOut(open, rest)
    decreases j, 0, 0
  {
    hide LaidOut, Digits, Quoted;
    match j {
      case Null => SkipsPlain(open, NULL_TEXT, rest);
      case False => SkipsPlain(open, FALSE_TEXT, rest);
      case True => SkipsPlain(open, TRUE_TEXT, rest);
      case Number(n) =>
        DecimalIsPlain(n);
        SkipsPlain(open, Decimal(n), rest);
      case String(s) => SkipsQuoted(open, s, rest);
      case Array(items) => LaysOutArray(items, open, rest);
      case Object(members) => LaysOutObject(members, open, rest);
    }
  }

  lemma {:induction false} LaysOutArray(items: seq<Json>, open: CString, rest: CString)
    ensures LaidOut(open, TextOf(Array(items), true, |open|) + rest) == LaidOut(open, rest)
    decreases items, 2, 0
  {
    hide LaidOut, TextOf, ItemsText;
    ArrayParts(items, true, |open|);
    var inner, after := ItemsText(items, true, |open| + 1, |items|), [RBRACKET] + rest;
    assert TextOf(Array(items), true, |open|) + rest == [LBRACKET] + (inner + after);
    LaidOutStep(open, LBRACKET, inner + after);
    LaysOutItems(items, open + [LBRACKET], |items|, after);
    LaidOutStep(open, RBRACKET, rest);
  }

  lemma {:induction false} LaysOutItems(items: seq<Json>, open: CString, k: nat, rest: CString)
    requires k <= |items| && open != [] && Inner(open) == LBRACKET
    ensures LaidOut(open, ItemsText(items, true, |open|, k) + rest) == LaidOut(open, rest)
    decreases items, 1, k
  {
    hide LaidOut, TextOf;
    if k == 0 {
      assert ItemsText(items, true, |open|, 0) + rest == rest;
    } else {
      var front, text := ItemsText(items, true, |open|, k - 1), TextOf(items[k - 1], true, |open|);
      var separator := ItemSeparator(true, k == |items|);
      Assoc4(front, text, separator, rest);
      LaysOutItems(items, open, k - 1, text + (separator + rest));
      LaysOutTree(items[k - 1], open, separator + rest);
      LaidOutPair(open, COMMA, SPACE, rest);
      assert k == |items| ==> separator + rest == rest;
    }
  }

  lemma {:induction false} LaysOutObject(members: seq<Keyed<Json>>, open: CString, rest: CString)
    ensures LaidOut(open, TextOf(Object(members), true, |open|) + rest) == LaidOut(open, rest)
    decreases members, 2, 0
  {
    hide LaidOut, Line, TextOf, MembersText, Tabs, EndsObject;
    ObjectParts(members, true, |open|);
    var inner, after := MembersText(members, true, |open| + 1, |members|), Close(true, |open|) + rest;
    assert TextOf(Object(members), true, |open|) + rest == [LBRACE, NEWLINE] + (inner + after);
    LaidOutPair(open, LBRACE, NEWLINE, inner + after);
    LastLine(open, rest);
    LaysOutMembers(members, open + [LBRACE], |members|, after);
  }

  lemma LastLine(open: CString, rest: CString)
    ensures EndsObject(Close(true, |open|) + rest)
    ensures Line(open + [LBRACE], Close(true, |open|) + rest) == LaidOut(open, rest)
  {
    hide LaidOut, TabRun;
    var t := Close(true, |open|) + rest;
    Assoc(Tabs(|open|), [RBRACE], rest);
    TabsRun(|open|, [RBRACE] + rest);
    assert t[|open|] == t[|open|..][0] == RBRACE;
    assert t[|open| + 1..] == t[|open|..][1..] == rest;
    assert (open + [LBRACE])[..|open|] == open;
  }

  lemma {:induction false} LaysOutMembers(members: seq<Keyed<Json>>, open: CString, k: nat, rest: CString)
    requires k <= |members| && open != [] && Inner(open) == LBRACE && (k == |members| ==> EndsObject(rest))
    ensures Line(open, MembersText(members, true, |open|, k) + rest) == Line(open, rest)
    decreases members, 1, k
  {
    hide LaidOut, Line, TextOf, MemberStart, MemberEnd, EndsObject;
    if k == 0 {
      assert MembersText(members, true, |open|, 0) + rest == rest;
    } else {
      var member, last := members[k - 1], k == |members|;
      var front, start := MembersText(members, true, |open|, k - 1), MemberStart(member.key, true, |open|);
      var text, end := TextOf(member.item, true, |open|), MemberEnd(true, last);
      Assoc5(front, start, text, end, rest);
      LaysOutMembers(members, open, k - 1, start + (text + (end + rest)));
      LineStarts(open, member.key, text + (end + rest));
      LaysOutTree(member.item, open, end + rest);
      LineEnds(open, last, rest);
    }
  }

  lemma LineStarts(open: CString, key: CString, rest: CString)
    ensures Line(open, MemberStart(key, true, |open|) + rest) == LaidOut(open, rest)
  {
    hide LaidOut, Quoted, TabRun;
    var behind := Quoted(key) + ([COLON, TAB] + rest);
    Assoc4(Tabs(|open|), Quoted(key), [COLON, TAB], rest);
    var t := MemberStart(key, true, |open|) + rest;
    assert t == Tabs(|open|) + behind;
    StartsWithQuote(key);
    assert behind[0] == QUOTE;
    TabsRun(|open|, behind);
    assert t[|open|] == t[|open|..][0];
    SkipsQuoted(open, key, [COLON, TAB] + rest);
    LaidOutPair(open, COLON, TAB, rest);
  }

  lemma StartsWithQuote(s: CString)
    ensures |Quoted(s)| >= 2 && Quoted(s)[0] == QUOTE
  {
  }

  lemma LineEnds(open: CString, last: bool, rest: CString)
    requires open != [] && Inner(open) == LBRACE && (last ==> EndsObject(rest))
    ensures LaidOut(open, MemberEnd(true, last) + rest) == Line(open, rest)
  {
    hide LaidOut, Line, EndsObject;
    assert MemberEnd(true, last) == if last then [NEWLINE] else [COMMA, NEWLINE];
    LaidOutStep(open, NEWLINE, rest);
    LaidOutPair(open, COMMA, NEWLINE, rest);
  }

  /** The formatted text of every tree is laid out by the rules. */
  lemma FormattedLayout(j: Json)
    ensures LaidOut([], TextOf(j, true, 0))
  {
    hide LaidOut, TextOf;
    LaysOutTree(j, [], []);
    assert TextOf(j, true, 0) + [] == TextOf(j, true, 0);
    NothingIsLaidOut();
  }

  lemma NothingIsLaidOut()
    ensures LaidOut([], []) && Compact([])
  {
  }

  // ----- unformatted text -----

  lemma {:induction false} CompactTree(j: Json, depth: nat, rest: CString)
    ensures Compact(TextOf(j, false, depth) + rest) == Compact(rest)
    decreases j, 0, 0
  {
    hide Compact, Digits, Quoted;
    match j {
      case Null => SkipsPlain([], NULL_TEXT, rest);
      case False => SkipsPlain([], FALSE_TEXT, rest);
      case True => SkipsPlain([], TRUE_TEXT, rest);
      case Number(n) =>
        DecimalIsPlain(n);
        SkipsPlain([], Decimal(n), rest);
      case String(s) => SkipsQuoted([], s, rest);
      case Array(items) => CompactArray(items, depth, rest);
      case Object(members) => CompactObject(members, depth, rest);
    }
  }

  lemma CompactStep(b: CChar, rest: CString)
    requires b > 32 && b != QUOTE
    ensures Compact([b] + rest) == Compact(rest)
  {
    hide BehindLiteral;
    assert ([b] + rest)[1..] == rest;
  }

  lemma {:induction false} CompactArray(items: seq<Json>, depth: nat, rest: CString)
    ensures Compact(TextOf(Array(items), false, depth) + rest) == Compact(rest)
    decreases items, 2, 0
  {
    hide Compact, TextOf, ItemsText;
    ArrayParts(items, false, depth);
    var inner, after := ItemsText(items, false, depth + 1, |items|), [RBRACKET] + rest;
    assert TextOf(Array(items), false, depth) + rest == [LBRACKET] + (inner + after);
    CompactStep(LBRACKET, inner + after);
    CompactItems(items, depth + 1, |items|, after);
    CompactStep(RBRACKET, rest);
  }

  lemma {:induction false} CompactItems(items: seq<Json>, depth: nat, k: nat, rest: CString)
    requires k <= |items|
    ensures Compact(ItemsText(items, false, depth, k) + rest) == Compact(rest)
    decreases items, 1, k
  {
    hide Compact, TextOf;
    if k == 0 {
      assert ItemsText(items, false, depth, 0) + rest == rest;
    } else {
      var front, text := ItemsText(items, false, depth, k - 1), TextOf(items[k - 1], false, depth);
      var separator := ItemSeparator(false, k == |items|);
      Assoc4(front, text, separator, rest);
      CompactItems(items, depth, k - 1, text + (separator + rest));
      CompactTree(items[k - 1], depth, separator + rest);
      CompactStep(COMMA, rest);
      assert k == |items| ==> separator + rest == rest;
    }
  }

  lemma {:induction false} CompactObject(members: seq<Keyed<Json>>, depth: nat, rest: CString)
    ensures Compact(TextOf(Object(members), false, depth) + rest) == Compact(rest)
    decreases members, 2, 0
  {
    hide Compact, TextOf, MembersText;
    ObjectParts(members, false, depth);
    var inner, after := MembersText(members, false, depth + 1, |members|), [RBRACE] + rest;
    assert TextOf(Object(members), false, depth) + rest == [LBRACE] + (inner + after);
    CompactStep(LBRACE, inner + after);
    CompactMembers(members, depth + 1, |members|, after);
    CompactStep(RBRACE, rest);
  }

  lemma {:induction false} CompactMembers(members: seq<Keyed<Json>>, depth: nat, k: nat, rest: CString)
    requires k <= |members|
    ensures Compact(MembersText(members, false, depth, k) + rest) == Compact(rest)
    decreases members, 1, k
  {
    hide Compact, TextOf, MemberStart, MemberEnd;
    if k == 0 {
      assert MembersText(members, false, depth, 0) + rest == rest;
    } else {
      var member, last := members[k - 1], k == |members|;
      var front, start := MembersText(members, false, depth, k - 1), MemberStart(member.key, false, depth);
      var text, end := TextOf(member.item, false, depth), MemberEnd(false, last);
      Assoc5(front, start, text, end, rest);
      CompactMembers(members, depth, k - 1, start + (text + (end + rest)));
      CompactKey(member.key, depth, text + (end + rest));
      CompactTree(member.item, depth, end + rest);
      CompactEnd(last, rest);
    }
  }

  lemma CompactEnd(last: bool, rest: CString)
    ensures Compact(MemberEnd(false, last) + rest) == Compact(rest)
  {
    hide Compact;
    assert MemberEnd(false, last) + rest == if last then rest else [COMMA] + rest;
    CompactStep(COMMA, rest);
  }

  lemma CompactKey(key: CString, depth: nat, rest: CString)
    ensures Compact(MemberStart(key, false, depth) + rest) == Compact(rest)
  {
    hide Compact, Quoted;
    assert MemberStart(key, false, depth) + rest == Quoted(key) + ([COLON] + rest);
    SkipsQuoted([], key, [COLON] + rest);
    CompactStep(COLON, rest);
  }

  /** Without formatting no white space stands outside literals. */
  lemma UnformattedLayout(j: Json)
    ensures Compact(TextOf(j, false, 0))
  {
    hide Compact, TextOf;
    CompactTree(j, 0, []);
    assert TextOf(j, false, 0) + [] == TextOf(j, false, 0);
    NothingIsLaidOut();
  }
}
