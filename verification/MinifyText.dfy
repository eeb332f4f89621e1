/** Minifying the formatted text of a tree gives its unformatted text. */
module MinifyText {
  import opened Bytes
  import opened Json
  import opened Text
  import opened Minify

  /** No string and no key ends in a backslash. */
  predicate NoTrailingBackslash(j: Json)
    decreases j
  {
    match j
    case String(s) => Harmless(s)
    case Array(items) => forall i :: 0 <= i < |items| ==> NoTrailingBackslash(items[i])
    case Object(members) => forall i :: 0 <= i < |members| ==> Clean(members[i])
    case _ => true
  }

  predicate Clean(member: Keyed<Json>)
    decreases member
  {
    Harmless(member.key) && NoTrailingBackslash(member.item)
  }

  /** The same, but for the last leaf of the text, as far as only closing brackets of arrays stand behind it. */
  predicate LastLeafAside(j: Json)
    decreases j
  {
    match j
    case String(s) => true
    case Array(items) =>
      items == []
      || ((forall i :: 0 <= i < |items| - 1 ==> NoTrailingBackslash(items[i])) && LastLeafAside(items[|items| - 1]))
    case _ => NoTrailingBackslash(j)
  }

  predicate Harmless(s: CString) { s == [] || s[|s| - 1] != BACKSLASH }

  /** Bytes that `cJSON_Minify` copies one by one. */
  predicate Ordinary(b: Byte) { !IsSpace(b) && b != SLASH && b != QUOTE }

  lemma {:induction false} CopiesOrdinary(t: CString, rest: CString)
    requires forall i :: 0 <= i < |t| ==> Ordinary(t[i])
    ensures Minified(t + rest) == t + Minified(rest)
  {
    hide Minified, Literal, AfterLine, AfterBlock;
    if t == [] {
      assert t + rest == rest;
    } else {
      var all := t + rest;
      assert all[0..] == all && all[1..] == t[1..] + rest;
      MinifiedStep(all, 0);
      CopiesOrdinary(t[1..], rest);
    }
  }

  lemma {:induction false} DropsSpaces(t: CString, rest: CString)
    requires forall i :: 0 <= i < |t| ==> IsSpace(t[i])
    ensures Minified(t + rest) == Minified(rest)
  {
    hide Minified, Literal, AfterLine, AfterBlock;
    if t == [] {
      assert t + rest == rest;
    } else {
      var all := t + rest;
      assert all[0..] == all && all[1..] == t[1..] + rest;
      MinifiedStep(all, 0);
      DropsSpaces(t[1..], rest);
    }
  }

  // ----- string literals -----

  /** The escape of one character is copied whole, unless it is a backslash in front of a quote. */
  lemma EscapeIsCopied(c: CChar, rest: CString)
    requires c == BACKSLASH ==> At(rest, 0) != QUOTE
    ensures Literal(Escape(c) + rest) == |Escape(c)| + Literal(rest)
  {
    hide Literal;
    var e := Escape(c);
    var all := e + rest;
    assert all[0..] == all && all[|e|..] == rest;
    LiteralStep(all, 0);
    if c != QUOTE && |e| > 1 {
      assert forall i :: 1 <= i < |e| ==> all[i] != QUOTE && (all[i] == BACKSLASH ==> c == BACKSLASH);
      LiteralStep(all, 1);
      if |e| == 6 {
        LiteralStep(all, 2);
        LiteralStep(all, 3);
        LiteralStep(all, 4);
        LiteralStep(all, 5);
      }
    }
  }

  lemma EscapeStart(c: CChar)
    ensures Escape(c)[0] != QUOTE
  {
  }

  lemma {:induction false} EscapesAreCopied(s: CString, rest: CString)
    requires Harmless(s)
    ensures Literal(EscapeAll(s) + [QUOTE] + rest) == |EscapeAll(s)| + 1
  {
    hide Literal, Escape;
    var after := [QUOTE] + rest;
    if s == [] {
      assert EscapeAll(s) + [QUOTE] + rest == after && after[0..] == after;
      LiteralStep(after, 0);
    } else {
      var tail := EscapeAll(s[1..]) + [QUOTE] + rest;
      EscapesAreCopied(s[1..], rest);
      if |s| > 1 {
        EscapeStart(s[1]);
        assert tail[0] == EscapeAll(s[1..])[0] == Escape(s[1])[0];
      }
      EscapeIsCopied(s[0], tail);
      assert EscapeAll(s) + [QUOTE] + rest == Escape(s[0]) + tail;
    }
  }

  lemma CopiesQuoted(s: CString, rest: CString)
    requires Harmless(s)
    ensures Minified(Quoted(s) + rest) == Quoted(s) + Minified(rest)
  {
    hide Minified, Literal, AfterLine, AfterBlock, EscapeAll;
    var all := Quoted(s) + rest;
    EscapesAreCopied(s, rest);
    assert all[0..] == all && all[1..] == EscapeAll(s) + [QUOTE] + rest;
    MinifiedStep(all, 0);
    assert all[0..|Quoted(s)|] == Quoted(s) && all[|Quoted(s)|..] == rest;
  }

  // ----- trees -----

  lemma DigitsAreOrdinary(n: int)
    ensures forall i :: 0 <= i < |Decimal(n)| ==> Ordinary(Decimal(n)[i])
  {
    hide Digits;
    var t := Decimal(n);
    forall i | 0 <= i < |t| ensures Ordinary(t[i]) {
      assert IsDigit(t[i]) || t[i] == MINUS;
    }
  }

  /** In front of any text, the formatted text of a tree is minified to its unformatted text. */
  lemma {:induction false} MinifiesTree(j: Json, depth: nat, rest: CString)
    requires NoTrailingBackslash(j)
    ensures Minified(TextOf(j, true, depth) + rest) == TextOf(j, false, depth) + Minified(rest)
    decreases j, 0, 0
  {
    hide Minified, Digits, Quoted;
    match j {
      case Null => CopiesOrdinary(NULL_TEXT, rest);
      case False => CopiesOrdinary(FALSE_TEXT, rest);
      case True => CopiesOrdinary(TRUE_TEXT, rest);
      case Number(n) =>
        DigitsAreOrdinary(n);
        CopiesOrdinary(Decimal(n), rest);
      case String(s) => CopiesQuoted(s, rest);
      case Array(items) => MinifiesArray(items, depth, rest);
      case Object(members) => MinifiesObject(members, depth, rest);
    }
  }

  lemma {:induction false} MinifiesArray(items: seq<Json>, depth: nat, rest: CString)
    requires NoTrailingBackslash(Array(items))
    ensures Minified(TextOf(Array(items), true, depth) + rest) == TextOf(Array(items), false, depth) + Minified(rest)
    decreases items, 2, 0
  {
    hide Minified, TextOf, ItemsText;
    ArrayParts(items, true, depth);
    ArrayParts(items, false, depth);
    var inner := ItemsText(items, true, depth + 1, |items|);
    var after := [RBRACKET] + rest;
    assert TextOf(Array(items), true, depth) + rest == [LBRACKET] + (inner + after);
    CopiesOrdinary([LBRACKET], inner + after);
    MinifiesItems(items, depth + 1, |items|, after);
    CopiesOrdinary([RBRACKET], rest);
    assert [LBRACKET] + (ItemsText(items, false, depth + 1, |items|) + ([RBRACKET] + Minified(rest)))
        == TextOf(Array(items), false, depth) + Minified(rest);
  }

  lemma {:induction false} MinifiesItems(items: seq<Json>, depth: nat, k: nat, rest: CString)
    requires k <= |items| && forall i :: 0 <= i < k ==> NoTrailingBackslash(items[i])
    ensures Minified(ItemsText(items, true, depth, k) + rest) == ItemsText(items, false, depth, k) + Minified(rest)
    decreases items, 1, k
  {
    hide Minified, TextOf;
    if k == 0 {
      assert ItemsText(items, true, depth, 0) + rest == rest;
    } else {
      var front, text := ItemsText(items, true, depth, k - 1), TextOf(items[k - 1], true, depth);
      var separator, last := ItemSeparator(true, k == |items|), k == |items|;
      Assoc4(front, text, separator, rest);
      MinifiesItems(items, depth, k - 1, text + (separator + rest));
      MinifiesTree(items[k - 1], depth, separator + rest);
      MinifiesSeparator(last, rest);
      Assoc4(ItemsText(items, false, depth, k - 1), TextOf(items[k - 1], false, depth), ItemSeparator(false, last), Minified(rest));
    }
  }

  lemma MinifiesSeparator(last: bool, rest: CString)
    ensures Minified(ItemSeparator(true, last) + rest) == ItemSeparator(false, last) + Minified(rest)
  {
    hide Minified;
    if last {
      assert [] + rest == rest;
    } else {
      assert ItemSeparator(true, last) + rest == [COMMA] + ([SPACE] + rest);
      CopiesOrdinary([COMMA], [SPACE] + rest);
      DropsSpaces([SPACE], rest);
    }
  }

  lemma Assoc4(a: CString, b: CString, c: CString, d: CString)
    ensures a + b + c + d == a + (b + (c + d))
  {
  }

  lemma Assoc5(a: CString, b: CString, c: CString, d: CString, e: CString)
    ensures a + b + c + d + e == a + (b + (c + (d + e)))
  {
  }

  lemma {:induction false} MinifiesObject(members: seq<Keyed<Json>>, depth: nat, rest: CString)
    requires NoTrailingBackslash(Object(members))
    ensures Minified(TextOf(Object(members), true, depth) + rest) == TextOf(Object(members), false, depth) + Minified(rest)
    decreases members, 2, 0
  {
    hide Minified, TextOf, MembersText, Tabs;
    ObjectParts(members, true, depth);
    ObjectParts(members, false, depth);
    var inner, after := MembersText(members, true, depth + 1, |members|), Close(true, depth) + rest;
    Assoc4([LBRACE], [NEWLINE], inner, after);
    assert TextOf(Object(members), true, depth) + rest == [LBRACE] + ([NEWLINE] + (inner + after));
    CopiesOrdinary([LBRACE], [NEWLINE] + (inner + after));
    DropsSpaces([NEWLINE], inner + after);
    MinifiesMembers(members, depth + 1, |members|, after);
    Assoc4([], Tabs(depth), [RBRACE], rest);
    assert after == Tabs(depth) + ([RBRACE] + rest);
    DropsSpaces(Tabs(depth), [RBRACE] + rest);
    CopiesOrdinary([RBRACE], rest);
    assert [LBRACE] + (MembersText(members, false, depth + 1, |members|) + ([RBRACE] + Minified(rest)))
        == TextOf(Object(members), false, depth) + Minified(rest);
  }

  lemma {:induction false} MinifiesMembers(members: seq<Keyed<Json>>, depth: nat, k: nat, rest: CString)
    requires k <= |members| && forall i :: 0 <= i < k ==> Clean(members[i])
    ensures Minified(MembersText(members, true, depth, k) + rest) == MembersText(members, false, depth, k) + Minified(rest)
    decreases members, 1, k
  {
    hide Minified, TextOf, MemberStart, MemberEnd;
    if k == 0 {
      assert MembersText(members, true, depth, 0) + rest == rest;
    } else {
      var member, last := members[k - 1], k == |members|;
      var front, start := MembersText(members, true, depth, k - 1), MemberStart(member.key, true, depth);
      var text, end := TextOf(member.item, true, depth), MemberEnd(true, last);
      Assoc5(front, start, text, end, rest);
      MinifiesMembers(members, depth, k - 1, start + (text + (end + rest)));
      MinifiesStart(member.key, depth, text + (end + rest));
      MinifiesTree(member.item, depth, end + rest);
      MinifiesEnd(last, rest);
      Assoc5(MembersText(members, false, depth, k - 1), MemberStart(member.key, false, depth), TextOf(member.item, false, depth),
             MemberEnd(false, last), Minified(rest));
    }
  }

  lemma MinifiesStart(key: CString, depth: nat, rest: CString)
    requires Harmless(key)
    ensures Minified(MemberStart(key, true, depth) + rest) == MemberStart(key, false, depth) + Minified(rest)
  {
    hide Minified, Quoted, Tabs;
    Assoc4(Tabs(depth), Quoted(key), [COLON, TAB], rest);
    Assoc4([], [COLON], [TAB], rest);
    assert [COLON, TAB] + rest == [COLON] + ([TAB] + rest);
    DropsSpaces(Tabs(depth), Quoted(key) + ([COLON, TAB] + rest));
    CopiesQuoted(key, [COLON, TAB] + rest);
    CopiesOrdinary([COLON], [TAB] + rest);
    DropsSpaces([TAB], rest);
    assert Quoted(key) + ([COLON] + Minified(rest)) == [] + Quoted(key) + [COLON] + Minified(rest);
  }

  lemma MinifiesEnd(last: bool, rest: CString)
    ensures Minified(MemberEnd(true, last) + rest) == MemberEnd(false, last) + Minified(rest)
  {
    hide Minified;
    if last {
      assert MemberEnd(true, last) + rest == [NEWLINE] + rest;
    } else {
      assert MemberEnd(true, last) + rest == [COMMA] + ([NEWLINE] + rest);
      CopiesOrdinary([COMMA], [NEWLINE] + rest);
    }
    DropsSpaces([NEWLINE], rest);
  }

  lemma {:induction false} LiteralWithoutQuote(s: CString)
    requires QUOTE !in s
    ensures Literal(s) == |s|
  {
    if s != [] {
      LiteralWithoutQuote(s[1..]);
    }
  }

  // ----- a string that ends in a backslash -----

  /** Its closing quote is taken for an escaped one, and what follows is taken for the literal. */
  lemma {:induction false} HarmfulRunsOn(s: CString, rest: CString)
    requires !Harmless(s)
    ensures Literal(EscapeAll(s) + [QUOTE] + rest) == |EscapeAll(s)| + 1 + Literal(rest)
  {
    hide Literal, Escape, EscapeAll;
    if |s| == 1 {
      assert EscapeAll(s) == [BACKSLASH, BACKSLASH] by { EscapeOfBackslash(s); }
      var all: CString := [BACKSLASH, BACKSLASH, QUOTE] + rest;
      assert EscapeAll(s) + [QUOTE] + rest == all && all[0..] == all && all[3..] == rest;
      LiteralStep(all, 0);
      LiteralStep(all, 1);
    } else {
      var tail := EscapeAll(s[1..]) + [QUOTE] + rest;
      HarmfulRunsOn(s[1..], rest);
      EscapesStart(s[1..]);
      assert EscapeAll(s) == Escape(s[0]) + EscapeAll(s[1..]) by { EscapesUnfold(s); }
      assert EscapeAll(s) + [QUOTE] + rest == Escape(s[0]) + tail;
      assert tail[0] == EscapeAll(s[1..])[0];
      EscapeIsCopied(s[0], tail);
    }
  }

  lemma EscapesUnfold(s: CString)
    requires s != []
    ensures EscapeAll(s) == Escape(s[0]) + EscapeAll(s[1..])
  {
  }

  lemma EscapesStart(s: CString)
    requires s != []
    ensures EscapeAll(s) != [] && EscapeAll(s)[0] != QUOTE
  {
    EscapeStart(s[0]);
  }

  lemma EscapeOfBackslash(s: CString)
    requires |s| == 1 && s[0] == BACKSLASH
    ensures EscapeAll(s) == [BACKSLASH, BACKSLASH]
  {
    assert s[1..] == [];
  }

  lemma QuotedRunsOn(s: CString, rest: CString)
    requires !Harmless(s)
    ensures Minified(Quoted(s) + rest) == Quoted(s) + (rest[..Literal(rest)] + Minified(rest[Literal(rest)..]))
  {
    hide Minified, Literal, AfterLine, AfterBlock, EscapeAll;
    var all, n := Quoted(s) + rest, |Quoted(s)| + Literal(rest);
    HarmfulRunsOn(s, rest);
    assert all[0..] == all && all[1..] == EscapeAll(s) + [QUOTE] + rest;
    MinifiedStep(all, 0);
    assert all[0..n] == Quoted(s) + rest[..Literal(rest)] && all[n..] == rest[Literal(rest)..];
  }

  predicate Closers(t: CString) { forall i :: 0 <= i < |t| ==> t[i] == RBRACKET }

  lemma ClosersAreCopied(t: CString)
    requires Closers(t)
    ensures Minified(t) == t && Literal(t) == |t|
  {
    CopiesOrdinary(t, []);
    assert t + [] == t;
    LiteralWithoutQuote(t);
  }

  /** In front of closing brackets only, the last leaf may be anything. */
  lemma {:induction false} MinifiesLast(j: Json, depth: nat, rest: CString)
    requires LastLeafAside(j) && Closers(rest)
    ensures Minified(TextOf(j, true, depth) + rest) == TextOf(j, false, depth) + rest
    decreases j
  {
    hide Minified, Literal, Quoted, ItemsText, Digits;
    ClosersAreCopied(rest);
    if NoTrailingBackslash(j) {
      MinifiesTree(j, depth, rest);
    } else if j.String? {
      QuotedRunsOn(j.s, rest);
      assert rest[..|rest|] == rest && rest[|rest|..] == [];
      MinifiedOfNothing();
    } else {
      var items, last := j.items, |j.items| - 1;
      MinifiesLast(items[last], depth + 1, [RBRACKET] + rest);
      SplitsAtLast(items, depth, rest, true);
      SplitsAtLast(items, depth, rest, false);
      var text := TextOf(items[last], true, depth + 1) + ([RBRACKET] + rest);
      CopiesOrdinary([LBRACKET], ItemsText(items, true, depth + 1, last) + text);
      MinifiesItems(items, depth + 1, last, text);
    }
  }

  lemma SplitsAtLast(items: seq<Json>, depth: nat, rest: CString, format: bool)
    requires items != []
    ensures TextOf(Array(items), format, depth) + rest
         == [LBRACKET] + (ItemsText(items, format, depth + 1, |items| - 1) + (TextOf(items[|items| - 1], format, depth + 1) + ([RBRACKET] + rest)))
  {
    hide TextOf;
    ArrayParts(items, format, depth);
    var front, text := ItemsText(items, format, depth + 1, |items| - 1), TextOf(items[|items| - 1], format, depth + 1);
    assert ItemsText(items, format, depth + 1, |items|) == front + text + [];
    assert [LBRACKET] + (front + text + []) + [RBRACKET] + rest == [LBRACKET] + (front + (text + ([RBRACKET] + rest)));
  }

  // ----- what goes wrong behind any other such string -----

  /** Formatted and unformatted text go on alike for `n` bytes that end no literal; then only the formatted one has
      white space. */
  predicate Gap(f: CString, u: CString, n: nat) {
    && n < |f| && n <= |u| && IsSpace(f[n]) && (n < |u| ==> !IsSpace(u[n]))
    && forall i :: 0 <= i < n ==> f[i] == u[i] && f[i] != QUOTE && f[i] != BACKSLASH
  }

  lemma {:induction false} LiteralReaches(f: CString, n: nat)
    requires n < |f| && forall i :: 0 <= i <= n ==> f[i] != QUOTE && f[i] != BACKSLASH
    ensures Literal(f) > n
  {
    if n > 0 {
      LiteralReaches(f[1..], n - 1);
    }
  }

  predicate Starts(u: CString) { u != [] && !IsSpace(u[0]) }

  lemma TextStarts(j: Json, depth: nat, rest: CString)
    ensures Starts(TextOf(j, false, depth) + rest)
  {
    hide Digits, EscapeAll, ItemsText, MembersText;
    match j {
      case Number(n) => DigitsAreOrdinary(n);
      case _ =>
    }
  }

  lemma CopiesBracket(rest: CString)
    ensures Minified([LBRACKET] + rest) == [LBRACKET] + Minified(rest)
  {
    CopiesOrdinary([LBRACKET], rest);
  }

  lemma OneMoreCloser(t: CString)
    requires Closers(t)
    ensures Closers([RBRACKET] + t)
  {
  }

  /** Behind the space that it keeps, nothing can make up for it. */
  lemma {:induction false} Breaks(j: Json, depth: nat, f: CString, u: CString, n: nat)
    requires !NoTrailingBackslash(j) && (Gap(f, u, n) || (j.Object? && Starts(u)))
    ensures Minified(TextOf(j, true, depth) + f) != TextOf(j, false, depth) + u
    decreases j, 0, 0
  {
    hide Minified, Literal, Quoted, ItemsText, MembersText, Gap, IsSpace;
    match j {
      case String(s) =>
        QuotedRunsOn(s, f);
        GapReached(f, u, n);
        var kept := f[..Literal(f)] + Minified(f[Literal(f)..]);
        assert kept[n] == f[n];
        CancelLeft(Quoted(s), kept, u);
      case Array(items) =>
        ArrayAround(items, depth, f, true);
        ArrayAround(items, depth, u, false);
        CopiesBracket(ItemsText(items, true, depth + 1, |items|) + ([RBRACKET] + f));
        GapBehindBracket(f, u, n);
        BreaksItems(items, depth + 1, |items|, [RBRACKET] + f, [RBRACKET] + u, n + 1);
        CancelLeft([LBRACKET], Minified(ItemsText(items, true, depth + 1, |items|) + ([RBRACKET] + f)),
                   ItemsText(items, false, depth + 1, |items|) + ([RBRACKET] + u));
      case Object(members) =>
        BreaksObject(members, depth, f, u);
      case _ =>
    }
  }

  lemma CancelLeft(a: CString, b: CString, c: CString)
    ensures a + b == a + c <==> b == c
  {
    assert (a + b)[|a|..] == b && (a + c)[|a|..] == c;
  }

  lemma GapReached(f: CString, u: CString, n: nat)
    requires Gap(f, u, n)
    ensures n < Literal(f) && (n < |u| ==> f[n] != u[n])
    ensures forall t: CString :: |t| > n && t[n] == f[n] ==> t != u
  {
    LiteralReaches(f, n);
  }

  lemma GapBehindBracket(f: CString, u: CString, n: nat)
    requires Gap(f, u, n)
    ensures Gap([RBRACKET] + f, [RBRACKET] + u, n + 1) && Starts([RBRACKET] + u)
  {
    var b: CString := [RBRACKET];
    assert forall i :: 0 < i < 1 + |f| ==> (b + f)[i] == f[i - 1];
    assert forall i :: 0 < i < 1 + |u| ==> (b + u)[i] == u[i - 1];
  }

  lemma ArrayAround(items: seq<Json>, depth: nat, rest: CString, format: bool)
    ensures TextOf(Array(items), format, depth) + rest == [LBRACKET] + (ItemsText(items, format, depth + 1, |items|) + ([RBRACKET] + rest))
  {
    hide ItemsText, TextOf;
    ArrayParts(items, format, depth);
  }

  /** A bad one among the first `k` elements. Behind an element that is not the last there is always a gap. */
  lemma {:induction false} BreaksItems(items: seq<Json>, depth: nat, k: nat, f: CString, u: CString, n: nat)
    requires k <= |items| && (exists i :: 0 <= i < k && !NoTrailingBackslash(items[i]))
    requires Starts(u) && (k == |items| ==> Gap(f, u, n))
    ensures Minified(ItemsText(items, true, depth, k) + f) != ItemsText(items, false, depth, k) + u
    decreases items, 1, k
  {
    hide Minified, TextOf, NoTrailingBackslash, Gap, Starts, IsSpace;
    var item, last := items[k - 1], k == |items|;
    var front, text, separator := ItemsText(items, true, depth, k - 1), TextOf(item, true, depth), ItemSeparator(true, last);
    var frontU, textU, separatorU := ItemsText(items, false, depth, k - 1), TextOf(item, false, depth), ItemSeparator(false, last);
    Assoc4(front, text, separator, f);
    Assoc4(frontU, textU, separatorU, u);
    if exists i :: 0 <= i < k - 1 && !NoTrailingBackslash(items[i]) {
      TextStarts(item, depth, separatorU + u);
      BreaksItems(items, depth, k - 1, text + (separator + f), textU + (separatorU + u), n);
    } else {
      MinifiesItems(items, depth, k - 1, text + (separator + f));
      GapBehindItem(last, f, u, n);
      Breaks(item, depth, separator + f, separatorU + u, if last then n else 1);
      CancelLeft(frontU, Minified(text + (separator + f)), textU + (separatorU + u));
    }
  }

  lemma GapBehindItem(last: bool, f: CString, u: CString, n: nat)
    requires Starts(u) && (last ==> Gap(f, u, n))
    ensures Gap(ItemSeparator(true, last) + f, ItemSeparator(false, last) + u, if last then n else 1)
  {
    assert last ==> ItemSeparator(true, last) + f == f && ItemSeparator(false, last) + u == u;
  }

  lemma {:induction false} BreaksObject(members: seq<Keyed<Json>>, depth: nat, f: CString, u: CString)
    requires !NoTrailingBackslash(Object(members))
    ensures Minified(TextOf(Object(members), true, depth) + f) != TextOf(Object(members), false, depth) + u
    decreases members, 2, 0
  {
    hide Minified, TextOf, MembersText, Tabs, Clean;
    ObjectParts(members, true, depth);
    ObjectParts(members, false, depth);
    var inner, innerU := MembersText(members, true, depth + 1, |members|), MembersText(members, false, depth + 1, |members|);
    var after, afterU := Close(true, depth) + f, Close(false, depth) + u;
    assert TextOf(Object(members), true, depth) + f == [LBRACE] + ([NEWLINE] + (inner + after));
    assert TextOf(Object(members), false, depth) + u == [LBRACE] + (innerU + afterU);
    CopiesOrdinary([LBRACE], [NEWLINE] + (inner + after));
    DropsSpaces([NEWLINE], inner + after);
    BreaksMembers(members, depth + 1, |members|, after, afterU);
    CancelLeft([LBRACE], Minified(inner + after), innerU + afterU);
  }

  /** A bad one among the first `k` members. Every member and every key has white space of its own behind it. */
  lemma {:induction false} BreaksMembers(members: seq<Keyed<Json>>, depth: nat, k: nat, f: CString, u: CString)
    requires k <= |members| && (exists i :: 0 <= i < k && !Clean(members[i])) && Starts(u)
    ensures Minified(MembersText(members, true, depth, k) + f) != MembersText(members, false, depth, k) + u
    decreases members, 1, k
  {
    hide Minified, TextOf, MemberStart, MemberEnd, Clean, Starts;
    var member, last := members[k - 1], k == |members|;
    var front, frontU := MembersText(members, true, depth, k - 1), MembersText(members, false, depth, k - 1);
    var start, startU := MemberStart(member.key, true, depth), MemberStart(member.key, false, depth);
    var behind := TextOf(member.item, true, depth) + (MemberEnd(true, last) + f);
    var behindU := TextOf(member.item, false, depth) + (MemberEnd(false, last) + u);
    Assoc5(front, start, TextOf(member.item, true, depth), MemberEnd(true, last), f);
    Assoc5(frontU, startU, TextOf(member.item, false, depth), MemberEnd(false, last), u);
    if exists i :: 0 <= i < k - 1 && !Clean(members[i]) {
      MemberStarts(member.key, depth, behindU);
      BreaksMembers(members, depth, k - 1, start + behind, startU + behindU);
    } else {
      MinifiesMembers(members, depth, k - 1, start + behind);
      BreaksMember(member, depth, last, f, u);
      CancelLeft(frontU, Minified(start + behind), startU + behindU);
    }
  }

  lemma {:induction false} BreaksMember(member: Keyed<Json>, depth: nat, last: bool, f: CString, u: CString)
    requires !Clean(member) && Starts(u)
    ensures Minified(MemberStart(member.key, true, depth) + (TextOf(member.item, true, depth) + (MemberEnd(true, last) + f)))
         != MemberStart(member.key, false, depth) + (TextOf(member.item, false, depth) + (MemberEnd(false, last) + u))
    decreases member, 1, 0
  {
    hide Minified, TextOf, MemberStart, MemberEnd;
    var f', u' := MemberEnd(true, last) + f, MemberEnd(false, last) + u;
    var behind, behindU := TextOf(member.item, true, depth) + f', TextOf(member.item, false, depth) + u';
    if Harmless(member.key) {
      MinifiesStart(member.key, depth, behind);
      GapBehindMember(last, f, u);
      Breaks(member.item, depth, f', u', if last then 0 else 1);
      CancelLeft(MemberStart(member.key, false, depth), Minified(behind), behindU);
    } else {
      TextStarts(member.item, depth, u');
      BreaksKey(member.key, depth, behind, behindU);
    }
  }

  lemma MemberStarts(key: CString, depth: nat, rest: CString)
    ensures Starts(MemberStart(key, false, depth) + rest)
  {
    hide EscapeAll;
    assert MemberStart(key, false, depth)[0] == QUOTE;
  }

  lemma GapBehindMember(last: bool, f: CString, u: CString)
    requires Starts(u)
    ensures Gap(MemberEnd(true, last) + f, MemberEnd(false, last) + u, if last then 0 else 1)
  {
    assert last ==> MemberEnd(false, last) + u == u;
  }

  /** A bad key: the tab behind its colon stays. */
  lemma BreaksKey(key: CString, depth: nat, behind: CString, behindU: CString)
    requires !Harmless(key) && Starts(behindU)
    ensures Minified(MemberStart(key, true, depth) + behind) != MemberStart(key, false, depth) + behindU
  {
    hide Minified, Quoted, Tabs, Literal;
    var f, u := [COLON, TAB] + behind, [COLON] + behindU;
    Assoc4(Tabs(depth), Quoted(key), [COLON, TAB], behind);
    DropsSpaces(Tabs(depth), Quoted(key) + f);
    QuotedRunsOn(key, f);
    assert Gap(f, u, 1);
    GapReached(f, u, 1);
    var kept := f[..Literal(f)] + Minified(f[Literal(f)..]);
    assert kept[1] == f[1];
    assert MemberStart(key, false, depth) + behindU == Quoted(key) + u;
    CancelLeft(Quoted(key), kept, u);
  }

  lemma {:induction false} BreaksTop(j: Json, depth: nat, rest: CString)
    requires !LastLeafAside(j) && Closers(rest)
    ensures Minified(TextOf(j, true, depth) + rest) != TextOf(j, false, depth) + rest
    decreases j
  {
    hide Minified, ItemsText, MembersText, IsSpace, Starts, Ordinary, TextOf, Closers;
    match j {
      case Array(items) =>
        var last := |items| - 1;
        var tail, tailU := TextOf(items[last], true, depth + 1) + ([RBRACKET] + rest), TextOf(items[last], false, depth + 1) + ([RBRACKET] + rest);
        SplitsAtLast(items, depth, rest, true);
        SplitsAtLast(items, depth, rest, false);
        CopiesBracket(ItemsText(items, true, depth + 1, last) + tail);
        if exists i :: 0 <= i < last && !NoTrailingBackslash(items[i]) {
          TextStarts(items[last], depth + 1, [RBRACKET] + rest);
          BreaksItems(items, depth + 1, last, tail, tailU, 0);
        } else {
          MinifiesItems(items, depth + 1, last, tail);
          assert Closers([RBRACKET] + rest) by { OneMoreCloser(rest); }
          BreaksTop(items[last], depth + 1, [RBRACKET] + rest);
          CancelLeft(ItemsText(items, false, depth + 1, last), Minified(tail), tailU);
        }
        CancelLeft([LBRACKET], Minified(ItemsText(items, true, depth + 1, last) + tail), ItemsText(items, false, depth + 1, last) + tailU);
      case Object(members) =>
        BreaksObject(members, depth, rest, rest);
      case _ =>
    }
  }

  /** Minifying undoes formatting if and only if no key and no string ends in a backslash, the last leaf aside. */
  lemma MinifyUndoesFormatting(j: Json)
    ensures Minified(TextOf(j, true, 0)) == TextOf(j, false, 0) <==> LastLeafAside(j)
  {
    hide Minified, TextOf;
    assert TextOf(j, true, 0) + [] == TextOf(j, true, 0) && TextOf(j, false, 0) + [] == TextOf(j, false, 0);
    if LastLeafAside(j) {
      MinifiesLast(j, 0, []);
    } else {
      BreaksTop(j, 0, []);
    }
  }

  /** A string that ends in a backslash: its closing quote is taken for an escaped one, and the space behind it stays. */
  lemma TrailingBackslashFails()
    ensures var j := Array([String([BACKSLASH]), Null]);
      Minified(TextOf(j, true, 0)) == TextOf(j, true, 0) != TextOf(j, false, 0)
  {
    hide Minified, Literal, AfterLine, AfterBlock;
    var quoted: CString := [QUOTE, BACKSLASH, BACKSLASH, QUOTE];
    var tail: CString := [COMMA, SPACE] + NULL_TEXT + [RBRACKET];
    BackslashTexts();
    var all := quoted + tail;
    var literal := all[1..];
    LiteralStep(literal, 0);
    LiteralStep(literal, 1);
    assert literal[0..] == literal && literal[3..] == tail;
    LiteralWithoutQuote(tail);
    MinifiedStep(all, 0);
    MinifiedOfNothing();
    assert all[0..] == all && all[0..|all|] == all && all[|all|..] == [];
    CopiesOrdinary([LBRACKET], all);
  }

  lemma BackslashTexts()
    ensures var items := [String([BACKSLASH]), Null];
      && TextOf(Array(items), true, 0) == [LBRACKET] + ([QUOTE, BACKSLASH, BACKSLASH, QUOTE] + ([COMMA, SPACE] + NULL_TEXT + [RBRACKET]))
      && |TextOf(Array(items), false, 0)| < |TextOf(Array(items), true, 0)|
  {
    var items := [String([BACKSLASH]), Null];
    assert [BACKSLASH][1..] == [] && EscapeAll([]) == [];
    assert EscapeAll([BACKSLASH]) == [BACKSLASH, BACKSLASH] + [];
    assert Quoted([BACKSLASH]) == [QUOTE, BACKSLASH, BACKSLASH, QUOTE];
    assert ItemsText(items, true, 1, 0) == [] && ItemsText(items, false, 1, 0) == [];
    assert ItemsText(items, true, 1, 1) == [] + Quoted([BACKSLASH]) + [COMMA, SPACE];
    assert ItemsText(items, false, 1, 1) == [] + Quoted([BACKSLASH]) + [COMMA];
    assert ItemsText(items, true, 1, 2) == ItemsText(items, true, 1, 1) + NULL_TEXT + [];
    assert ItemsText(items, false, 1, 2) == ItemsText(items, false, 1, 1) + NULL_TEXT + [];
  }
}
