/** The printer's and the parser's nesting limits are the same from both sides: a text that is nested deeper than the
    limit is not parsed. */
module NestingLimit {
  import opened Bytes
  import opened Json
  import opened Text
  import opened ParseSpec
  import opened RoundTrip

  lemma {:induction false} FirstTooDeepItem(items: seq<Json>, depth: nat) returns (bad: nat)
    requires depth <= NESTING_LIMIT && depth + ItemsNesting(items) > NESTING_LIMIT
    ensures bad < |items| && depth + Nesting(items[bad]) > NESTING_LIMIT
    ensures forall k :: 0 <= k < bad ==> depth + Nesting(items[k]) <= NESTING_LIMIT
  {
    hide Nesting;
    if depth + Nesting(items[0]) > NESTING_LIMIT {
      bad := 0;
    } else {
      bad := FirstTooDeepItem(items[1..], depth);
      bad := bad + 1;
      assert forall k :: 0 < k < bad ==> items[k] == items[1..][k - 1];
    }
  }

  lemma {:induction false} FirstTooDeepMember(members: seq<Keyed<Json>>, depth: nat) returns (bad: nat)
    requires depth <= NESTING_LIMIT && depth + MembersNesting(members) > NESTING_LIMIT
    ensures bad < |members| && depth + Nesting(members[bad].item) > NESTING_LIMIT
    ensures forall k :: 0 <= k < bad ==> depth + Nesting(members[k].item) <= NESTING_LIMIT
  {
    hide Nesting;
    if depth + Nesting(members[0].item) > NESTING_LIMIT {
      bad := 0;
    } else {
      bad := FirstTooDeepMember(members[1..], depth);
      bad := bad + 1;
      assert forall k :: 0 < k < bad ==> members[k] == members[1..][k - 1];
    }
  }

  lemma {:induction false} ShallowItems(items: seq<Json>, depth: nat)
    requires depth <= NESTING_LIMIT && forall k :: 0 <= k < |items| ==> depth + Nesting(items[k]) <= NESTING_LIMIT
    ensures depth + ItemsNesting(items) <= NESTING_LIMIT
  {
    hide Nesting;
    if items != [] {
      ShallowItems(items[1..], depth);
    }
  }

  lemma {:induction false} ShallowMembers(members: seq<Keyed<Json>>, depth: nat)
    requires depth <= NESTING_LIMIT && forall k :: 0 <= k < |members| ==> depth + Nesting(members[k].item) <= NESTING_LIMIT
    ensures depth + MembersNesting(members) <= NESTING_LIMIT
  {
    hide Nesting;
    if members != [] {
      ShallowMembers(members[1..], depth);
    }
  }

  lemma Leaves(j: Json)
    requires Nesting(j) > 0
    ensures j.Array? || j.Object?
  {
  }

  /** Wherever a text that is nested too deep stands, delimited, it is not parsed. */
  lemma {:induction false} FailsTooDeep(c: seq<Byte>, i: nat, j: Json, format: bool, printDepth: nat, depth: nat)
    requires HasAt(c, i, TextOf(j, format, printDepth)) && Delimited(c, i + |TextOf(j, format, printDepth)|)
    requires depth <= NESTING_LIMIT && depth + Nesting(j) > NESTING_LIMIT
    ensures i <= |c| && ParseValue(c, i, depth).Fail?
    decreases j, 1, 0
  {
    hide HasAt, ParseString, ParseNumber, ParseArray, ParseObject, ItemsText, MembersText, Nesting;
    TextStart(j, format, printDepth);
    HasAtHead(c, i, TextOf(j, format, printDepth));
    LiteralHeads(c, i);
    Leaves(j);
    if j.Array? {
      FailsArray(c, i, j.items, format, printDepth, depth);
    } else {
      FailsObject(c, i, j.members, format, printDepth, depth);
    }
  }

  lemma {:induction false} FailsArray(c: seq<Byte>, i: nat, items: seq<Json>, format: bool, printDepth: nat, depth: nat)
    requires HasAt(c, i, TextOf(Array(items), format, printDepth))
    requires depth <= NESTING_LIMIT && depth + Nesting(Array(items)) > NESTING_LIMIT
    ensures i < |c| && ParseArray(c, i, depth).Fail?
    decreases Array(items), 0, 1
  {
    hide HasAt, ParseItems, SkipWhitespace, TextOf, Nesting;
    ArrayPlaced(c, i, items, format, printDepth);
    HasAtHead(c, i, [LBRACKET]);
    ArrayParts(items, format, printDepth);
    if depth < NESTING_LIMIT {
      var bad := FirstTooDeepItem(items, depth + 1);
      var at := FirstOfItem(c, i + 1, items, format, printDepth + 1, 0);
      assert items[..0] == [];
      FailsItems(c, i, i + 1, items, format, printDepth + 1, depth + 1, 0, bad);
    }
  }

  lemma {:induction false} FailsItems(c: seq<Byte>, i: nat, base: nat, items: seq<Json>, format: bool, printDepth: nat, depth: nat, k: nat, bad: nat)
    requires k <= bad < |items| && HasAt(c, base, ItemsText(items, format, printDepth, |items|))
    requires HasAt(c, base + |ItemsText(items, format, printDepth, |items|)|, [RBRACKET])
    requires i < |c| && SkipWhitespace(c, i + 1) == base + |ItemsText(items, format, printDepth, k)|
    requires 0 < depth <= NESTING_LIMIT && depth + Nesting(items[bad]) > NESTING_LIMIT
    requires forall n :: 0 <= n < bad ==> depth + Nesting(items[n]) <= NESTING_LIMIT
    ensures depth + ItemsNesting(items[..k]) <= NESTING_LIMIT && ParseItems(c, i, depth, items[..k]).Fail?
    decreases Array(items), 0, 0, |items| - k
  {
    hide HasAt, TextOf, ItemsText, ParseValue, SkipWhitespace, Nesting, ItemsNesting;
    var at, end := ItemPlaced(c, base, items, format, printDepth, k);
    ShallowItems(items[..k], depth);
    if k + 1 < |items| {
      CommaBehindItem(c, base, items, format, printDepth, k, end);
    } else {
      SkipNone(c, end, RBRACKET);
    }
    if k == bad {
      FailsTooDeep(c, at, items[k], format, printDepth, depth);
    } else {
      ParsesPrinted(c, at, items[k], format, printDepth, depth);
      assert items[..k] + [items[k]] == items[..k + 1];
      FailsItems(c, end, base, items, format, printDepth, depth, k + 1, bad);
    }
  }

  lemma {:induction false} FailsObject(c: seq<Byte>, i: nat, members: seq<Keyed<Json>>, format: bool, printDepth: nat, depth: nat)
    requires HasAt(c, i, TextOf(Object(members), format, printDepth))
    requires depth <= NESTING_LIMIT && depth + Nesting(Object(members)) > NESTING_LIMIT
    ensures i < |c| && ParseObject(c, i, depth).Fail?
    decreases Object(members), 0, 1
  {
    hide HasAt, ParseMembers, SkipWhitespace, MemberStart, TextOf, Nesting, Open, Close, Indent;
    ObjectPlaced(c, i, members, format, printDepth);
    HasAtHead(c, i, [LBRACE]);
    ObjectParts(members, format, printDepth);
    if depth < NESTING_LIMIT {
      var bad := FirstTooDeepMember(members, depth + 1);
      KeyBehindBrace(c, i, members, format, printDepth);
      var k := SkipWhitespace(c, i + 1);
      SkipRun(c, k, 0);
      assert members[..0] == [];
      FailsMembers(c, k - 1, i + |Open(format)|, members, format, printDepth + 1, depth + 1, 0, bad);
    }
  }

  lemma {:induction false} FailsMembers(c: seq<Byte>, i: nat, base: nat, members: seq<Keyed<Json>>, format: bool, printDepth: nat, depth: nat, k: nat, bad: nat)
    requires k <= bad < |members| && 0 < printDepth && HasAt(c, base, MembersText(members, format, printDepth, |members|))
    requires HasAt(c, base + |MembersText(members, format, printDepth, |members|)|, Close(format, printDepth - 1))
    requires i < |c| && SkipWhitespace(c, i + 1) == base + |MembersText(members, format, printDepth, k)| + |Indent(format, printDepth)|
    requires 0 < depth <= NESTING_LIMIT && depth + Nesting(members[bad].item) > NESTING_LIMIT
    requires forall n :: 0 <= n < bad ==> depth + Nesting(members[n].item) <= NESTING_LIMIT
    ensures depth + MembersNesting(members[..k]) <= NESTING_LIMIT && ParseMembers(c, i, depth, members[..k]).Fail?
    decreases Object(members), 0, 0, |members| - k
  {
    hide HasAt, TextOf, MembersText, ParseMember, SkipWhitespace, Nesting, MembersNesting, MemberStart, Close, Indent, MemberEnd;
    var at, value, end := MemberPlaced(c, base, members, format, printDepth, k);
    ShallowMembers(members[..k], depth);
    MemberGap(c, base, members, format, printDepth - 1, k, end);
    if k == bad {
      FailsMember(c, i, at, members, k, format, printDepth, depth);
    } else {
      ParsesPrintedMember(c, i, at, members, k, format, printDepth, depth);
      assert members[..k] + [members[k]] == members[..k + 1];
      FailsMembers(c, end, base, members, format, printDepth, depth, k + 1, bad);
    }
  }

  lemma {:induction false} FailsMember(c: seq<Byte>, i: nat, at: nat, members: seq<Keyed<Json>>, k: nat, format: bool, printDepth: nat, depth: nat)
    requires k < |members| && depth <= NESTING_LIMIT && depth + Nesting(members[k].item) > NESTING_LIMIT
    requires HasAt(c, at, MemberStart(members[k].key, format, printDepth))
    requires HasAt(c, at + |MemberStart(members[k].key, format, printDepth)|, TextOf(members[k].item, format, printDepth))
    requires Delimited(c, at + |MemberStart(members[k].key, format, printDepth)| + |TextOf(members[k].item, format, printDepth)|)
    requires i < |c| && SkipWhitespace(c, i + 1) == at + |Indent(format, printDepth)|
    ensures ParseMember(c, i, depth).Fail?
    decreases Object(members), 0, 0, 0
  {
    hide HasAt, TextOf, ParseValue, ParseString, SkipWhitespace, Nesting, Quoted, MemberStart, Indent, Colon;
    var member := members[k];
    var quote, colon := KeyPlaced(c, at, member.key, format, printDepth);
    ParseQuoted(c, quote, member.key);
    BehindColon(c, colon, member.item, format, printDepth);
    FailsTooDeep(c, colon + |Colon(format)|, member.item, format, printDepth, depth);
  }

  /** The printed text of a tree is parsed if and only if the tree is within the limit that the printer has too. */
  lemma ParsesWithinLimit(j: Json, format: bool)
    ensures ParseText(TextOf(j, format, 0), false).Parsed? <==> Nesting(j) <= NESTING_LIMIT
    ensures ParseText(Terminated(TextOf(j, format, 0)), true).Parsed? <==> Nesting(j) <= NESTING_LIMIT
  {
    hide TextOf, ParseText, Nesting;
    if Nesting(j) <= NESTING_LIMIT {
      PrintedTextParses(j, format);
    } else {
      TooDeepText(j, format, []);
      TooDeepText(j, format, [0]);
      assert TextOf(j, format, 0) + [] == TextOf(j, format, 0);
    }
  }

  lemma TooDeepText(j: Json, format: bool, terminator: seq<Byte>)
    requires Nesting(j) > NESTING_LIMIT && (terminator == [] || terminator == [0])
    ensures ParseText(TextOf(j, format, 0) + terminator, false).Malformed? && ParseText(TextOf(j, format, 0) + terminator, true).Malformed?
  {
    hide TextOf, ParseValue, Nesting;
    var text := TextOf(j, format, 0);
    var c := text + terminator;
    assert HasAt(c, 0, text) by { assert c[0..|text|] == text; }
    TextStart(j, format, 0);
    FirstByteIsAscii(j, format);
    assert !HasAt(c, 0, BOM) by { if HasAt(c, 0, BOM) { HasAtHead(c, 0, BOM); } }
    SkipRun(c, 0, 0);
    FailsTooDeep(c, 0, j, format, 0, 0);
  }
}
