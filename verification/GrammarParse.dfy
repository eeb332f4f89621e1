/** The parser reads exactly the texts of the grammar, within the nesting limit. */
module GrammarParse {
  import opened Bytes
  import opened Json
  import opened ParseSpec
  import opened Grammar
  import opened GrammarLiterals
  import opened GrammarNumbers
  import Text

  // ----- white space and words -----

  lemma {:induction false} GapEnds(c: seq<Byte>, i: nat)
    requires i <= |c|
    ensures IsGap(c, i, WhitespaceEnd(c, i))
    ensures WhitespaceEnd(c, i) < |c| ==> c[WhitespaceEnd(c, i)] > 32
    decreases |c| - i
  {
    if i < |c| && c[i] <= 32 {
      GapEnds(c, i + 1);
    }
  }

  /** What is skipped is white space; nothing that is not white space is passed. */
  lemma SkipsGap(c: seq<Byte>, i: nat)
    requires i <= |c|
    ensures IsGap(c, i, SkipWhitespace(c, i))
    ensures forall k: nat :: IsGap(c, i, k) && k < |c| && c[k] > 32 ==> SkipWhitespace(c, i) == k
  {
    GapEnds(c, i);
  }

  lemma GapBefore(c: seq<Byte>, i: nat, a: nat, b: nat)
    requires IsGap(c, i, a) && IsGap(c, a, b)
    ensures IsGap(c, i, b)
  {
  }

  lemma WordsStand(c: seq<Byte>, i: nat, o: nat)
    ensures IsWord(c, i, o, "null") <==> HasAt(c, i, Text.NULL_TEXT) && o == i + 4
    ensures IsWord(c, i, o, "false") <==> HasAt(c, i, Text.FALSE_TEXT) && o == i + 5
    ensures IsWord(c, i, o, "true") <==> HasAt(c, i, Text.TRUE_TEXT) && o == i + 4
  {
    WordStands(c, i, o, "null", Text.NULL_TEXT);
    WordStands(c, i, o, "false", Text.FALSE_TEXT);
    WordStands(c, i, o, "true", Text.TRUE_TEXT);
  }

  lemma WordStands(c: seq<Byte>, i: nat, o: nat, word: string, text: seq<Byte>)
    requires |word| == |text| && forall k :: 0 <= k < |word| ==> text[k] == word[k] as int
    ensures IsWord(c, i, o, word) <==> HasAt(c, i, text) && o == i + |text|
  {
    if HasAt(c, i, text) && o == i + |text| {
      forall k | 0 <= k < |word| ensures c[i + k] == word[k] as int {
        assert c[i..o][k] == text[k];
      }
    }
  }

  /** The first byte of a text tells its kind. */
  predicate Opens(b: Byte, j: Json) {
    match j
    case Null => b == 'n' as int
    case False => b == 'f' as int
    case True => b == 't' as int
    case Number(_) => b == MINUS || IsDigit(b)
    case String(_) => b == QUOTE
    case Array(_) => b == LBRACKET
    case Object(_) => b == LBRACE
  }

  lemma WordOpens(c: seq<Byte>, i: nat, o: nat, word: string)
    requires IsWord(c, i, o, word) && word != ""
    ensures i < o <= |c| && c[i] == word[0] as int
  {
    assert c[i + 0] == word[0] as int;
  }

  lemma NumberInside(c: seq<Byte>, i: nat, o: nat, n: Int32)
    requires IsNumber(c, i, o, n)
    ensures i <= o <= |c|
  {
  }

  lemma TextOpens(c: seq<Byte>, i: nat, o: nat, j: Json)
    requires IsText(c, i, o, j)
    ensures i < o <= |c| && Opens(c[i], j)
  {
    hide IsNumber, AreElements, AreMembers, IsGap, IsHidden, StandsFor;
    match j {
      case Null => WordOpens(c, i, o, "null");
      case False => WordOpens(c, i, o, "false");
      case True => WordOpens(c, i, o, "true");
      case Number(n) =>
        NumberStarts(c, i, o, n);
        assert o <= |c| by { NumberInside(c, i, o, n); }
      case _ =>
    }
  }

  // ----- values -----

  /** The kinds of value, told apart as `parse_value` does. */
  lemma Dispatches(c: seq<Byte>, i: nat, depth: nat)
    requires i < |c| && depth <= NESTING_LIMIT
    ensures c[i] == 'n' as int ==>
      ParseValue(c, i, depth) == if HasAt(c, i, Text.NULL_TEXT) then Done(Null, i + 4) else Fail(i)
    ensures c[i] == 'f' as int ==>
      ParseValue(c, i, depth) == if HasAt(c, i, Text.FALSE_TEXT) then Done(False, i + 5) else Fail(i)
    ensures c[i] == 't' as int ==>
      ParseValue(c, i, depth) == if HasAt(c, i, Text.TRUE_TEXT) then Done(True, i + 4) else Fail(i)
    ensures c[i] == QUOTE ==>
      ParseValue(c, i, depth) ==
        match ParseString(c, i)
        case Fail(o) => Fail(o)
        case Done(s, o) => Done(String(s), o)
    ensures c[i] == MINUS || IsDigit(c[i]) ==> ParseValue(c, i, depth) == ParseNumber(c, i)
    ensures c[i] == LBRACKET ==> ParseValue(c, i, depth) == ParseArray(c, i, depth)
    ensures c[i] == LBRACE ==> ParseValue(c, i, depth) == ParseObject(c, i, depth)
    ensures !(c[i] in {'n' as int, 'f' as int, 't' as int, QUOTE, MINUS, LBRACKET, LBRACE} || IsDigit(c[i])) ==>
      ParseValue(c, i, depth) == Fail(i)
  {
    hide ParseString, ParseNumber, ParseArray, ParseObject;
    FirstOfWord(c, i, Text.NULL_TEXT);
    FirstOfWord(c, i, Text.FALSE_TEXT);
    FirstOfWord(c, i, Text.TRUE_TEXT);
  }

  lemma FirstOfWord(c: seq<Byte>, i: nat, word: seq<Byte>)
    requires i < |c| && word != []
    ensures HasAt(c, i, word) ==> c[i] == word[0]
  {
    if HasAt(c, i, word) {
      assert c[i..i + |word|][0] == c[i];
    }
  }

  /** A value is read where and as the grammar has it, as far as the nesting limit allows, and nothing else is. */
  lemma {:induction false} ValueIsRead(c: seq<Byte>, i: nat, depth: nat, j: Json, o: nat)
    requires i <= |c| && depth <= NESTING_LIMIT
    ensures ParseValue(c, i, depth) == Done(j, o) <==> IsText(c, i, o, j) && depth + Nesting(j) <= NESTING_LIMIT
    decreases |c| - i, 5
  {
    hide ParseValue, ParseString, ParseNumber, ParseArray, ParseObject, IsLiteral, IsNumber, IsWord, AreElements, AreMembers, IsGap;
    if IsText(c, i, o, j) { TextOpens(c, i, o, j); }
    if i < |c| {
      Dispatches(c, i, depth);
      WordsStand(c, i, o);
      if c[i] == QUOTE {
        match j case String(s) => LiteralIsRead(c, i, o, s); case _ =>
      } else if c[i] == MINUS || IsDigit(c[i]) {
        match j case Number(n) => NumberIsRead(c, i, o, n); case _ =>
      } else if c[i] == LBRACKET {
        ArrayIsRead(c, i, depth, j, o);
      } else if c[i] == LBRACE {
        ObjectIsRead(c, i, depth, j, o);
      }
    } else {
      NothingToRead(c, depth);
    }
  }

  lemma NothingToRead(c: seq<Byte>, depth: nat)
    requires depth <= NESTING_LIMIT
    ensures ParseValue(c, |c|, depth) == Fail(|c|)
  {
  }

  // ----- arrays -----

  lemma SpacedParts(c: seq<Byte>, i: nat, o: nat, j: Json) returns (a: nat, b: nat)
    requires IsSpaced(c, i, o, j)
    ensures IsGap(c, i, a) && IsText(c, a, b, j) && IsGap(c, b, o) && i <= a < b <= o <= |c| && Opens(c[a], j)
  {
    hide IsText;
    a, b :| IsGap(c, i, a) && IsText(c, a, b, j) && IsGap(c, b, o);
    TextOpens(c, a, b, j);
  }

  /** A text with white space around it, up to a byte that is none. */
  lemma {:induction false} SpacedIsRead(c: seq<Byte>, i: nat, depth: nat, j: Json, k: nat)
    requires i < |c| && depth <= NESTING_LIMIT && k < |c| && c[k] > 32
    ensures IsSpaced(c, i + 1, k, j) && depth + Nesting(j) <= NESTING_LIMIT
      <==> ParseElement(c, i, depth).Done? && ParseElement(c, i, depth).value == j && SkipWhitespace(c, ParseElement(c, i, depth).offset) == k
    decreases |c| - i, 0
  {
    hide ParseValue, IsText, SkipWhitespace, Nesting, IsGap;
    var a := SkipWhitespace(c, i + 1);
    SkipsGap(c, i + 1);
    if IsSpaced(c, i + 1, k, j) && depth + Nesting(j) <= NESTING_LIMIT {
      var x, b := SpacedParts(c, i + 1, k, j);
      TextOpens(c, x, b, j);
      ValueIsRead(c, a, depth, j, b);
      SkipsGap(c, b);
    }
    if ParseElement(c, i, depth).Done? {
      var v, b := ParseElement(c, i, depth).value, ParseElement(c, i, depth).offset;
      ValueIsRead(c, a, depth, v, b);
      SkipsGap(c, b);
    }
  }

  /** The first byte behind white space, where elements or members stand. */
  lemma FirstOfElements(c: seq<Byte>, i: nat, o: nat, items: seq<Json>)
    requires i <= |c| && items != []
    ensures var k := SkipWhitespace(c, i);
      && (AreElements(c, i, o, items) ==> k < |c| && c[k] > 32 && c[k] != RBRACKET)
      && (AreElements(c, i, o, items) <==> AreElements(c, k, o, items))
  {
    hide SkipWhitespace, IsText, IsGap;
    var k := SkipWhitespace(c, i);
    SkipsGap(c, i);
    forall x: nat ensures IsSpaced(c, i, x, items[0]) <==> IsSpaced(c, k, x, items[0]) {
      SpacedFromGap(c, i, x, items[0]);
    }
    hide IsSpaced, AreElements;
    ElementsUnfold(c, i, o, items);
    ElementsUnfold(c, k, o, items);
    if AreElements(c, i, o, items) {
      var x: nat :| IsSpaced(c, i, x, items[0]);
      SpacedOpens(c, i, x, items[0]);
    }
  }

  lemma ElementsUnfold(c: seq<Byte>, i: nat, o: nat, items: seq<Json>)
    requires items != []
    ensures AreElements(c, i, o, items) <==>
      if |items| == 1 then IsSpaced(c, i, o, items[0])
      else exists k :: i <= k < o <= |c| && c[k] == COMMA && IsSpaced(c, i, k, items[0]) && AreElements(c, k + 1, o, items[1..])
  {
    hide IsSpaced;
  }

  /** White space in front may be skipped or not. */
  lemma SpacedFromGap(c: seq<Byte>, i: nat, x: nat, j: Json)
    requires i <= |c|
    ensures IsSpaced(c, i, x, j) <==> IsSpaced(c, SkipWhitespace(c, i), x, j)
  {
    hide SkipWhitespace, IsText;
    var k := SkipWhitespace(c, i);
    SkipsGap(c, i);
    if IsSpaced(c, i, x, j) {
      var a, b := SpacedParts(c, i, x, j);
      assert IsGap(c, k, a);
    }
    if IsSpaced(c, k, x, j) {
      var a, b := SpacedParts(c, k, x, j);
      GapBefore(c, i, k, a);
    }
  }

  lemma SpacedOpens(c: seq<Byte>, i: nat, x: nat, j: Json)
    requires i <= |c| && IsSpaced(c, i, x, j)
    ensures var k := SkipWhitespace(c, i); i <= k < x <= |c| && Opens(c[k], j) && c[k] > 32
  {
    hide SkipWhitespace, IsText;
    SkipsGap(c, i);
    var a, b := SpacedParts(c, i, x, j);
  }

  lemma {:induction false} ItemsAreRead(c: seq<Byte>, i: nat, depth: nat, items: seq<Json>, j: Json, o: nat)
    requires i < |c| && 0 < depth && depth + ItemsNesting(items) <= NESTING_LIMIT
    ensures ParseItems(c, i, depth, items) == Done(j, o) <==>
      && j.Array? && items < j.items && depth - 1 + Nesting(j) <= NESTING_LIMIT
      && i + 2 <= o <= |c| && c[o - 1] == RBRACKET && AreElements(c, i + 1, o - 1, j.items[|items|..])
    decreases |c| - i, 2
  {
    hide ParseItems, ParseElement, SkipWhitespace, IsSpaced, AreElements, Nesting, ItemsNesting;
    ItemsUnfold(c, i, depth, items);
    if j.Array? && items < j.items && depth - 1 + Nesting(j) <= NESTING_LIMIT && i + 2 <= o <= |c| && c[o - 1] == RBRACKET
      && AreElements(c, i + 1, o - 1, j.items[|items|..]) {
      ItemsComplete(c, i, depth, items, j, o);
    }
    if ParseItems(c, i, depth, items) == Done(j, o) {
      ItemsSound(c, i, depth, items, j, o);
    }
  }

  lemma ItemsUnfold(c: seq<Byte>, i: nat, depth: nat, items: seq<Json>)
    requires i < |c| && 0 < depth && depth + ItemsNesting(items) <= NESTING_LIMIT
    ensures ParseElement(c, i, depth).Fail? ==> ParseItems(c, i, depth, items).Fail?
    ensures ParseElement(c, i, depth).Done? ==>
      var more, k := items + [ParseElement(c, i, depth).value], SkipWhitespace(c, ParseElement(c, i, depth).offset);
      && depth + ItemsNesting(more) <= NESTING_LIMIT
      && ParseItems(c, i, depth, items) ==
        if k < |c| && c[k] == COMMA then ParseItems(c, k, depth, more)
        else if k < |c| && c[k] == RBRACKET then Done(Array(more), k + 1)
        else Fail(k)
  {
    hide ParseElement, SkipWhitespace;
    if ParseElement(c, i, depth).Done? {
      ItemsNestingSnoc(items, ParseElement(c, i, depth).value);
    }
  }

  lemma {:induction false} ItemsSound(c: seq<Byte>, i: nat, depth: nat, items: seq<Json>, j: Json, o: nat)
    requires i < |c| && 0 < depth && depth + ItemsNesting(items) <= NESTING_LIMIT
    requires ParseItems(c, i, depth, items) == Done(j, o)
    ensures j.Array? && items < j.items && i + 2 <= o <= |c| && c[o - 1] == RBRACKET
    ensures AreElements(c, i + 1, o - 1, j.items[|items|..])
    decreases |c| - i, 1
  {
    hide ParseItems, ParseElement, SkipWhitespace, IsSpaced, AreElements, Nesting, ItemsNesting;
    ItemsUnfold(c, i, depth, items);
    var item, b := ParseElement(c, i, depth).value, ParseElement(c, i, depth).offset;
    var k := SkipWhitespace(c, b);
    SpacedIsRead(c, i, depth, item, k);
    if c[k] == COMMA {
      ItemsAreRead(c, k, depth, items + [item], j, o);
      var more := j.items[|items|..];
      assert more[0] == (items + [item])[|items|] == item && more[1..] == j.items[|items + [item]|..];
      ElementsUnfold(c, i + 1, o - 1, more);
    } else {
      assert j.items[|items|..] == [item];
      ElementsUnfold(c, i + 1, o - 1, [item]);
    }
  }

  lemma {:induction false} ItemsComplete(c: seq<Byte>, i: nat, depth: nat, items: seq<Json>, j: Json, o: nat)
    requires i < |c| && 0 < depth && depth + ItemsNesting(items) <= NESTING_LIMIT
    requires j.Array? && items < j.items && depth - 1 + Nesting(j) <= NESTING_LIMIT && i + 2 <= o <= |c| && c[o - 1] == RBRACKET
    requires AreElements(c, i + 1, o - 1, j.items[|items|..])
    ensures ParseItems(c, i, depth, items) == Done(j, o)
    decreases |c| - i, 1
  {
    hide ParseItems, ParseElement, SkipWhitespace, IsSpaced, AreElements, ItemsNesting;
    var more := j.items[|items|..];
    var item := more[0];
    ElementsUnfold(c, i + 1, o - 1, more);
    ItemNesting(j.items, |items|);
    ItemsUnfold(c, i, depth, items);
    if |more| == 1 {
      SpacedIsRead(c, i, depth, item, o - 1);
      assert j.items == items + more && more == [item];
    } else {
      var k :| i + 1 <= k < o - 1 <= |c| && c[k] == COMMA && IsSpaced(c, i + 1, k, item) && AreElements(c, k + 1, o - 1, more[1..]);
      SpacedIsRead(c, i, depth, item, k);
      assert j.items == items + more && more == [item] + more[1..];
      assert more[1..] == j.items[|items + [item]|..];
      ElementsReach(c, k + 1, o - 1, more[1..]);
      ItemsAreRead(c, k, depth, items + [item], j, o);
    }
  }

  lemma ElementsReach(c: seq<Byte>, i: nat, o: nat, items: seq<Json>)
    requires items != [] && AreElements(c, i, o, items)
    ensures i < o <= |c|
  {
    hide IsSpaced;
    if |items| == 1 {
      SpacedReaches(c, i, o, items[0]);
    }
  }

  lemma SpacedReaches(c: seq<Byte>, i: nat, x: nat, j: Json)
    requires IsSpaced(c, i, x, j)
    ensures i < x <= |c|
  {
    hide IsText;
    var a, b := SpacedParts(c, i, x, j);
  }

  lemma {:induction false} ArrayIsRead(c: seq<Byte>, i: nat, depth: nat, j: Json, o: nat)
    requires i < |c| && depth <= NESTING_LIMIT && c[i] == LBRACKET
    ensures ParseArray(c, i, depth) == Done(j, o) <==> j.Array? && IsText(c, i, o, j) && depth + Nesting(j) <= NESTING_LIMIT
    decreases |c| - i, 3
  {
    hide ParseItems, SkipWhitespace, AreElements, IsGap;
    if depth < NESTING_LIMIT {
      var k := SkipWhitespace(c, i + 1);
      SkipsGap(c, i + 1);
      if k < |c| && c[k] != RBRACKET {
        ItemsAreRead(c, k - 1, depth + 1, [], j, o);
      }
      if j.Array? && j.items != [] && 0 < o {
        FirstOfElements(c, i + 1, o - 1, j.items);
        assert j.items[0..] == j.items;
      }
    }
  }

  // ----- objects -----

  lemma SpacedLiteralIsRead(c: seq<Byte>, i: nat, key: CString, k: nat)
    requires i < |c| && k < |c| && c[k] > 32
    ensures IsSpacedLiteral(c, i, k, key) <==>
      var r := ParseString(c, SkipWhitespace(c, i));
      r.Done? && r.value == key && SkipWhitespace(c, r.offset) == k
  {
    hide ParseString, IsLiteral, SkipWhitespace;
    var a := SkipWhitespace(c, i);
    SkipsGap(c, i);
    if IsSpacedLiteral(c, i, k, key) {
      var x, b := SpacedLiteralParts(c, i, k, key);
      LiteralIsRead(c, a, b, key);
      SkipsGap(c, b);
    }
    match ParseString(c, a) {
      case Done(s, b) =>
        LiteralIsRead(c, a, b, s);
        SkipsGap(c, b);
      case _ =>
    }
  }

  lemma SpacedLiteralParts(c: seq<Byte>, i: nat, o: nat, s: CString) returns (a: nat, b: nat)
    requires IsSpacedLiteral(c, i, o, s)
    ensures IsGap(c, i, a) && IsLiteral(c, a, b, s) && IsGap(c, b, o) && i <= a < b <= o <= |c| && c[a] == QUOTE
  {
    hide IsLiteral;
    a, b :| IsGap(c, i, a) && IsLiteral(c, a, b, s) && IsGap(c, b, o);
    LiteralOpens(c, a, b, s);
  }

  lemma LiteralOpens(c: seq<Byte>, i: nat, o: nat, s: CString)
    requires IsLiteral(c, i, o, s)
    ensures i < o <= |c| && c[i] == QUOTE
  {
  }

  /** A member with white space around its parts, up to a byte that is none. */
  lemma {:induction false} MemberIsRead(c: seq<Byte>, i: nat, depth: nat, m: Keyed<Json>, k: nat)
    requires i + 1 < |c| && depth <= NESTING_LIMIT && k < |c| && c[k] > 32
    ensures IsMember(c, i + 1, k, m) && depth + Nesting(m.item) <= NESTING_LIMIT
      <==> ParseMember(c, i, depth).Done? && ParseMember(c, i, depth).value == m && SkipWhitespace(c, ParseMember(c, i, depth).offset) == k
    decreases |c| - i, 1
  {
    hide ParseString, ParseElement, IsSpaced, IsSpacedLiteral, SkipWhitespace;
    MemberUnfolds(c, i, depth);
    var key := ParseString(c, SkipWhitespace(c, i + 1));
    if IsMember(c, i + 1, k, m) && depth + Nesting(m.item) <= NESTING_LIMIT {
      var colon :| i + 1 <= colon < k <= |c| && c[colon] == COLON && IsSpacedLiteral(c, i + 1, colon, m.key) && IsSpaced(c, colon + 1, k, m.item);
      SpacedLiteralIsRead(c, i + 1, m.key, colon);
      SpacedIsRead(c, colon, depth, m.item, k);
    }
    if ParseMember(c, i, depth).Done? && ParseMember(c, i, depth).value == m && SkipWhitespace(c, ParseMember(c, i, depth).offset) == k {
      var colon := SkipWhitespace(c, key.offset);
      SpacedLiteralIsRead(c, i + 1, m.key, colon);
      SpacedIsRead(c, colon, depth, m.item, k);
      SpacedReaches(c, colon + 1, k, m.item);
    }
  }

  /** A member is a key, a colon and an element behind it. */
  lemma MemberUnfolds(c: seq<Byte>, i: nat, depth: nat)
    requires i + 1 < |c| && depth <= NESTING_LIMIT
    ensures var key := ParseString(c, SkipWhitespace(c, i + 1));
      var colon := SkipWhitespace(c, key.offset);
      if key.Fail? || !(colon < |c| && c[colon] == COLON) then ParseMember(c, i, depth).Fail?
      else
        var item := ParseElement(c, colon, depth);
        && i < colon
        && if item.Fail? then ParseMember(c, i, depth).Fail? else ParseMember(c, i, depth) == Done(Keyed(key.value, item.value), item.offset)
  {
    hide ParseString, ParseValue, SkipWhitespace;
  }

  /** The same as for elements. */
  lemma FirstOfMembers(c: seq<Byte>, i: nat, o: nat, members: seq<Keyed<Json>>)
    requires i < |c| && members != []
    ensures var k := SkipWhitespace(c, i);
      && (AreMembers(c, i, o, members) ==> c[k] == QUOTE)
      && (AreMembers(c, i, o, members) <==> AreMembers(c, k, o, members))
  {
    hide SkipWhitespace, IsMember, AreMembers;
    var k := SkipWhitespace(c, i);
    SkipsGap(c, i);
    forall x: nat ensures IsMember(c, i, x, members[0]) <==> IsMember(c, k, x, members[0]) {
      MemberFromGap(c, i, x, members[0]);
    }
    MembersUnfold(c, i, o, members);
    MembersUnfold(c, k, o, members);
    if AreMembers(c, i, o, members) {
      var x: nat :| IsMember(c, i, x, members[0]);
      MemberOpens(c, i, x, members[0]);
    }
  }

  lemma MembersUnfold(c: seq<Byte>, i: nat, o: nat, members: seq<Keyed<Json>>)
    requires members != []
    ensures AreMembers(c, i, o, members) <==>
      if |members| == 1 then IsMember(c, i, o, members[0])
      else exists k :: i <= k < o <= |c| && c[k] == COMMA && IsMember(c, i, k, members[0]) && AreMembers(c, k + 1, o, members[1..])
  {
    hide IsMember;
  }

  lemma MemberFromGap(c: seq<Byte>, i: nat, x: nat, m: Keyed<Json>)
    requires i < |c|
    ensures IsMember(c, i, x, m) <==> IsMember(c, SkipWhitespace(c, i), x, m)
  {
    hide SkipWhitespace, IsLiteral, IsSpaced;
    var k := SkipWhitespace(c, i);
    SkipsGap(c, i);
    forall colon: nat ensures IsSpacedLiteral(c, i, colon, m.key) <==> IsSpacedLiteral(c, k, colon, m.key) {
      LiteralFromGap(c, i, colon, m.key);
    }
    if IsMember(c, i, x, m) {
      var colon :| i <= colon < x <= |c| && c[colon] == COLON && IsSpacedLiteral(c, i, colon, m.key) && IsSpaced(c, colon + 1, x, m.item);
      SpacedLiteralReaches(c, k, colon, m.key);
    }
  }

  lemma LiteralFromGap(c: seq<Byte>, i: nat, x: nat, s: CString)
    requires i <= |c|
    ensures IsSpacedLiteral(c, i, x, s) <==> IsSpacedLiteral(c, SkipWhitespace(c, i), x, s)
  {
    hide SkipWhitespace, IsLiteral;
    var k := SkipWhitespace(c, i);
    SkipsGap(c, i);
    if IsSpacedLiteral(c, i, x, s) {
      var a, b := SpacedLiteralParts(c, i, x, s);
      assert IsGap(c, k, a);
    }
    if IsSpacedLiteral(c, k, x, s) {
      var a, b := SpacedLiteralParts(c, k, x, s);
      GapBefore(c, i, k, a);
    }
  }

  lemma SpacedLiteralReaches(c: seq<Byte>, i: nat, x: nat, s: CString)
    requires IsSpacedLiteral(c, i, x, s)
    ensures i < x <= |c|
  {
    hide IsLiteral;
    var a, b := SpacedLiteralParts(c, i, x, s);
  }

  lemma MemberOpens(c: seq<Byte>, i: nat, x: nat, m: Keyed<Json>)
    requires i < |c| && IsMember(c, i, x, m)
    ensures c[SkipWhitespace(c, i)] == QUOTE
  {
    hide SkipWhitespace, IsLiteral, IsSpaced;
    SkipsGap(c, i);
    var colon: nat :| IsSpacedLiteral(c, i, colon, m.key);
    var a, b := SpacedLiteralParts(c, i, colon, m.key);
  }

  lemma MembersReach(c: seq<Byte>, i: nat, o: nat, members: seq<Keyed<Json>>)
    requires members != [] && AreMembers(c, i, o, members)
    ensures i < o <= |c|
  {
    hide IsSpaced, IsSpacedLiteral;
  }

  lemma {:induction false} MembersAreRead(c: seq<Byte>, i: nat, depth: nat, members: seq<Keyed<Json>>, j: Json, o: nat)
    requires i < |c| && 0 < depth && depth + MembersNesting(members) <= NESTING_LIMIT
    ensures ParseMembers(c, i, depth, members) == Done(j, o) <==>
      && j.Object? && members < j.members && depth - 1 + Nesting(j) <= NESTING_LIMIT
      && i + 2 <= o <= |c| && c[o - 1] == RBRACE && AreMembers(c, i + 1, o - 1, j.members[|members|..])
    decreases |c| - i, 3
  {
    hide ParseMembers, ParseMember, SkipWhitespace, IsMember, AreMembers, Nesting, MembersNesting;
    MembersTurn(c, i, depth, members);
    if j.Object? && members < j.members && depth - 1 + Nesting(j) <= NESTING_LIMIT && i + 2 <= o <= |c| && c[o - 1] == RBRACE
      && AreMembers(c, i + 1, o - 1, j.members[|members|..]) {
      MembersComplete(c, i, depth, members, j, o);
    }
    if ParseMembers(c, i, depth, members) == Done(j, o) {
      MembersSound(c, i, depth, members, j, o);
    }
  }

  lemma MembersTurn(c: seq<Byte>, i: nat, depth: nat, members: seq<Keyed<Json>>)
    requires i < |c| && 0 < depth && depth + MembersNesting(members) <= NESTING_LIMIT
    ensures ParseMember(c, i, depth).Done? ==> i + 1 < |c|
    ensures ParseMember(c, i, depth).Fail? ==> ParseMembers(c, i, depth, members).Fail?
    ensures ParseMember(c, i, depth).Done? ==>
      var more, k := members + [ParseMember(c, i, depth).value], SkipWhitespace(c, ParseMember(c, i, depth).offset);
      && depth + MembersNesting(more) <= NESTING_LIMIT
      && ParseMembers(c, i, depth, members) ==
        if k < |c| && c[k] == COMMA then ParseMembers(c, k, depth, more)
        else if k < |c| && c[k] == RBRACE then Done(Object(more), k + 1)
        else Fail(k)
  {
    hide ParseValue, ParseString, SkipWhitespace;
    if ParseMember(c, i, depth).Done? {
      MembersNestingSnoc(members, ParseMember(c, i, depth).value);
    }
  }

  lemma {:induction false} MembersSound(c: seq<Byte>, i: nat, depth: nat, members: seq<Keyed<Json>>, j: Json, o: nat)
    requires i < |c| && 0 < depth && depth + MembersNesting(members) <= NESTING_LIMIT
    requires ParseMembers(c, i, depth, members) == Done(j, o)
    ensures j.Object? && members < j.members && i + 2 <= o <= |c| && c[o - 1] == RBRACE
    ensures AreMembers(c, i + 1, o - 1, j.members[|members|..])
    decreases |c| - i, 2
  {
    hide ParseMembers, ParseMember, SkipWhitespace, IsMember, AreMembers, Nesting, MembersNesting;
    MembersTurn(c, i, depth, members);
    var m, b := ParseMember(c, i, depth).value, ParseMember(c, i, depth).offset;
    var k := SkipWhitespace(c, b);
    MemberIsRead(c, i, depth, m, k);
    if c[k] == COMMA {
      MembersAreRead(c, k, depth, members + [m], j, o);
      var more := j.members[|members|..];
      assert more[0] == (members + [m])[|members|] == m && more[1..] == j.members[|members + [m]|..];
      MembersUnfold(c, i + 1, o - 1, more);
    } else {
      assert j.members[|members|..] == [m];
      MembersUnfold(c, i + 1, o - 1, [m]);
    }
  }

  lemma {:induction false} MembersComplete(c: seq<Byte>, i: nat, depth: nat, members: seq<Keyed<Json>>, j: Json, o: nat)
    requires i < |c| && 0 < depth && depth + MembersNesting(members) <= NESTING_LIMIT
    requires j.Object? && members < j.members && depth - 1 + Nesting(j) <= NESTING_LIMIT && i + 2 <= o <= |c| && c[o - 1] == RBRACE
    requires AreMembers(c, i + 1, o - 1, j.members[|members|..])
    ensures ParseMembers(c, i, depth, members) == Done(j, o)
    decreases |c| - i, 2
  {
    hide ParseMembers, ParseMember, SkipWhitespace, IsMember, AreMembers, MembersNesting;
    var more := j.members[|members|..];
    var m := more[0];
    MembersUnfold(c, i + 1, o - 1, more);
    MemberNesting(j.members, |members|);
    MembersTurn(c, i, depth, members);
    if |more| == 1 {
      MemberIsRead(c, i, depth, m, o - 1);
      assert j.members == members + more && more == [m];
    } else {
      var k :| i + 1 <= k < o - 1 <= |c| && c[k] == COMMA && IsMember(c, i + 1, k, m) && AreMembers(c, k + 1, o - 1, more[1..]);
      MemberIsRead(c, i, depth, m, k);
      assert j.members == members + more && more == [m] + more[1..];
      assert more[1..] == j.members[|members + [m]|..];
      MembersReach(c, k + 1, o - 1, more[1..]);
      MembersAreRead(c, k, depth, members + [m], j, o);
    }
  }

  lemma {:induction false} ObjectIsRead(c: seq<Byte>, i: nat, depth: nat, j: Json, o: nat)
    requires i < |c| && depth <= NESTING_LIMIT && c[i] == LBRACE
    ensures ParseObject(c, i, depth) == Done(j, o) <==> j.Object? && IsText(c, i, o, j) && depth + Nesting(j) <= NESTING_LIMIT
    decreases |c| - i, 4
  {
    hide ParseMembers, SkipWhitespace, AreMembers, IsGap;
    if depth < NESTING_LIMIT {
      var k := SkipWhitespace(c, i + 1);
      SkipsGap(c, i + 1);
      if k < |c| && c[k] != RBRACE {
        MembersAreRead(c, k - 1, depth + 1, [], j, o);
      }
      if j.Object? && j.members != [] && 0 < o && i + 1 < |c| {
        FirstOfMembers(c, i + 1, o - 1, j.members);
        assert j.members[0..] == j.members;
      }
    }
  }

  // ----- whole texts -----

  /** The bytes up to `i` are a byte order mark or none, and white space. */
  lemma FrontIsSkipped(c: seq<Byte>, i: nat)
    requires i < |c| && 32 < c[i] < 0xEF
    ensures IsFront(c, i) <==> i == SkipWhitespace(c, if |c| > 4 && HasAt(c, 0, BOM) then 3 else 0)
  {
    hide SkipWhitespace;
    SkipsGap(c, 0);
    if |c| > 4 {
      SkipsGap(c, 3);
      assert c[..3] == c[0..3] && (c[..3] == BOM ==> c[0] == BOM[0]);
    }
  }

  lemma TailIsSkipped(c: seq<Byte>, o: nat, requireNull: bool, end: nat)
    requires o <= |c|
    ensures IsTail(c, o, requireNull, end) <==>
      if requireNull then end == SkipWhitespace(c, o) && end < |c| && c[end] == 0 else end == o
  {
    GapEnds(c, o);
  }

  lemma DocumentParts(c: seq<Byte>, requireNull: bool, j: Json, end: nat) returns (i: nat, o: nat)
    requires IsDocument(c, requireNull, j, end)
    ensures IsFront(c, i) && IsText(c, i, o, j) && IsTail(c, o, requireNull, end) && i < o <= |c| && Opens(c[i], j)
  {
    i, o :| IsFront(c, i) && IsText(c, i, o, j) && IsTail(c, o, requireNull, end);
    TextOpens(c, i, o, j);
  }

  lemma MakesDocument(c: seq<Byte>, i: nat, o: nat, requireNull: bool, j: Json, end: nat)
    requires IsFront(c, i) && IsText(c, i, o, j) && IsTail(c, o, requireNull, end)
    ensures IsDocument(c, requireNull, j, end)
  {
  }

  /** A buffer is read as the grammar has it, and no other buffer is read: an optional byte order mark, white
      space, one text, and behind it anything or, on demand, only white space and a last NUL. */
  lemma DocumentIsRead(c: seq<Byte>, requireNull: bool, j: Json, end: nat)
    ensures ParseText(c, requireNull) == Document.Parsed(j, end) <==> IsDocument(c, requireNull, j, end) && Nesting(j) <= NESTING_LIMIT
  {
    hide ParseValue, IsText, IsFront, IsTail, IsDocument, SkipWhitespace, Nesting;
    if |c| > 0 {
      var start := SkipWhitespace(c, if |c| > 4 && HasAt(c, 0, BOM) then 3 else 0);
      if IsDocument(c, requireNull, j, end) && Nesting(j) <= NESTING_LIMIT {
        var i, o := DocumentParts(c, requireNull, j, end);
        FrontIsSkipped(c, i);
        ValueIsRead(c, i, 0, j, o);
        TailIsSkipped(c, o, requireNull, end);
      }
      if ParseText(c, requireNull) == Document.Parsed(j, end) {
        var o := ParseValue(c, start, 0).offset;
        ValueIsRead(c, start, 0, j, o);
        TextOpens(c, start, o, j);
        FrontIsSkipped(c, start);
        TailIsSkipped(c, o, requireNull, end);
        MakesDocument(c, start, o, requireNull, j, end);
      }
    } else {
      EmptyIsNoText(c, requireNull, j, end);
    }
  }

  lemma EmptyIsNoText(c: seq<Byte>, requireNull: bool, j: Json, end: nat)
    requires c == []
    ensures !IsDocument(c, requireNull, j, end)
  {
    hide IsText;
    if IsDocument(c, requireNull, j, end) {
      var i, o := DocumentParts(c, requireNull, j, end);
      assert false;
    }
  }

  /** Bytes are a text, from a given position on, in one way at most. */
  lemma ReadOneWay(c: seq<Byte>, i: nat, o: nat, j: Json, o': nat, j': Json)
    requires IsText(c, i, o, j) && Nesting(j) <= NESTING_LIMIT
    requires IsText(c, i, o', j') && Nesting(j') <= NESTING_LIMIT
    ensures o == o' && j == j'
  {
    hide ParseValue, IsText, Nesting;
    TextOpens(c, i, o, j);
    ValueIsRead(c, i, 0, j, o);
    ValueIsRead(c, i, 0, j', o');
  }
}
