/** JSON trees as values, the measures on them, and the text the printer gives them. */
module Json {
  import opened Bytes

  const INT32_MIN: int := -0x8000_0000
  const INT32_MAX: int := 0x7FFF_FFFF
  const NESTING_LIMIT: nat := 1000
  const CIRCULAR_LIMIT: nat := 10000

  type Int32 = n: int | -0x8000_0000 <= n <= 0x7FFF_FFFF

  /** A node of a child list together with the key in its `string` field. */
  datatype Keyed<+T> = Keyed(key: CString, item: T)

  datatype Json =
    | Null
    | False
    | True
    | Number(n: Int32)
    | String(s: CString)
    | Array(items: seq<Json>)
    | Object(members: seq<Keyed<Json>>)

  datatype Option<+T> = None | Some(value: T)

  function Max(a: nat, b: nat): nat { if a < b then b else a }

  predicate NoRepeats<T(==)>(s: seq<T>) {
    forall i, k :: 0 <= i < k < |s| ==> s[i] != s[k]
  }

  /** How many arrays and objects enclose the most deeply nested value. */
  function Nesting(j: Json): nat
    decreases j, 0
  {
    match j
    case Array(items) => 1 + ItemsNesting(items)
    case Object(members) => 1 + MembersNesting(members)
    case _ => 0
  }

  function ItemsNesting(items: seq<Json>): nat
    decreases items
  {
    if items == [] then 0 else Max(Nesting(items[0]), ItemsNesting(items[1..]))
  }

  function MembersNesting(members: seq<Keyed<Json>>): nat
    decreases members
  {
    if members == [] then 0 else Max(Nesting(members[0].item), MembersNesting(members[1..]))
  }

  lemma {:induction false} ItemNesting(items: seq<Json>, k: nat)
    requires k < |items|
    ensures Nesting(items[k]) <= ItemsNesting(items)
  {
    if k > 0 {
      ItemNesting(items[1..], k - 1);
    }
  }

  lemma {:induction false} MemberNesting(members: seq<Keyed<Json>>, k: nat)
    requires k < |members|
    ensures Nesting(members[k].item) <= MembersNesting(members)
  {
    if k > 0 {
      MemberNesting(members[1..], k - 1);
    }
  }

  lemma {:induction false} ItemsNestingSnoc(items: seq<Json>, j: Json)
    ensures ItemsNesting(items + [j]) == Max(ItemsNesting(items), Nesting(j))
  {
    if items == [] {
      assert (items + [j])[1..] == [];
    } else {
      ItemsNestingSnoc(items[1..], j);
      assert (items + [j])[1..] == items[1..] + [j];
    }
  }

  lemma {:induction false} MembersNestingSnoc(members: seq<Keyed<Json>>, m: Keyed<Json>)
    ensures MembersNesting(members + [m]) == Max(MembersNesting(members), Nesting(m.item))
  {
    if members == [] {
      assert (members + [m])[1..] == [];
    } else {
      MembersNestingSnoc(members[1..], m);
      assert (members + [m])[1..] == members[1..] + [m];
    }
  }

  /** Whether `duplicate_rec` gets through the tree from `depth` on: no child deeper than its limit. */
  predicate Copyable(j: Json, depth: nat)
    decreases j
  {
    match j
    case Array(items) =>
      (items == [] || depth < CIRCULAR_LIMIT) && forall i :: 0 <= i < |items| ==> Copyable(items[i], depth + 1)
    case Object(members) =>
      (members == [] || depth < CIRCULAR_LIMIT) && forall i :: 0 <= i < |members| ==> Copyable(members[i].item, depth + 1)
    case _ => true
  }

  lemma {:induction false} CopyableHigher(j: Json, depth: nat)
    requires Copyable(j, depth + 1)
    ensures Copyable(j, depth)
    decreases j
  {
    match j {
      case Array(items) =>
        forall i | 0 <= i < |items| ensures Copyable(items[i], depth + 1) {
          CopyableHigher(items[i], depth + 1);
        }
      case Object(members) =>
        forall i | 0 <= i < |members| ensures Copyable(members[i].item, depth + 1) {
          CopyableHigher(members[i].item, depth + 1);
        }
      case _ =>
    }
  }

  /** `cJSON_Duplicate` with an allocator that never fails. */
  function Duplicate(j: Json): Option<Json> {
    if Copyable(j, 0) then Some(j) else None
  }
}

/** The text of a tree, as one pure function of the tree. */
module Text {
  import opened Bytes
  import opened Json

  const NULL_TEXT: CString := [110, 117, 108, 108]
  const FALSE_TEXT: CString := [102, 97, 108, 115, 101]
  const TRUE_TEXT: CString := [116, 114, 117, 101]

  function HexDigit(d: nat): (b: CChar)
    requires d < 16
    ensures b == "0123456789abcdef"[d] as int
  {
    if d < 10 then 48 + d else 87 + d
  }

  /** One character of a string literal. */
  function Escape(c: CChar): (e: CString)
    ensures 1 <= |e| <= 6
  {
    if c == QUOTE then [BACKSLASH, QUOTE]
    else if c == BACKSLASH then [BACKSLASH, BACKSLASH]
    else if c == 8 then [BACKSLASH, LOWER_B]
    else if c == 12 then [BACKSLASH, LOWER_F]
    else if c == NEWLINE then [BACKSLASH, LOWER_N]
    else if c == 13 then [BACKSLASH, LOWER_R]
    else if c == TAB then [BACKSLASH, LOWER_T]
    else if c < 32 then [BACKSLASH, LOWER_U, ZERO, ZERO, HexDigit(c / 16), HexDigit(c % 16)]
    else [c]
  }

  function EscapeAll(s: CString): CString {
    if s == [] then [] else Escape(s[0]) + EscapeAll(s[1..])
  }

  lemma {:induction false} EscapeAllSnoc(s: CString, c: CChar)
    ensures EscapeAll(s + [c]) == EscapeAll(s) + Escape(c)
  {
    hide Escape;
    if s == [] {
      assert (s + [c])[1..] == [];
    } else {
      EscapeAllSnoc(s[1..], c);
      assert (s + [c])[1..] == s[1..] + [c];
    }
  }

  function Quoted(s: CString): CString {
    [QUOTE] + EscapeAll(s) + [QUOTE]
  }

  function Tabs(n: nat): (s: CString)
    ensures |s| == n
    ensures forall i :: 0 <= i < n ==> s[i] == TAB
  {
    seq(n, _ => TAB)
  }

  /** The text of `j` with `depth` arrays and objects around it; `format` is the printer's format flag. */
  function TextOf(j: Json, format: bool, depth: nat): (t: CString)
    decreases j, 0, 0
  {
    match j
    case Null => NULL_TEXT
    case False => FALSE_TEXT
    case True => TRUE_TEXT
    case Number(n) => Decimal(n)
    case String(s) => Quoted(s)
    case Array(items) => [LBRACKET] + ItemsText(items, format, depth + 1, |items|) + [RBRACKET]
    case Object(members) =>
      Open(format) + MembersText(members, format, depth + 1, |members|) + Close(format, depth)
  }

  function Open(format: bool): CString { if format then [LBRACE, NEWLINE] else [LBRACE] }

  function Close(format: bool, depth: nat): CString { Indent(format, depth) + [RBRACE] }

  function Indent(format: bool, depth: nat): CString { if format then Tabs(depth) else [] }

  function Colon(format: bool): CString { if format then [COLON, TAB] else [COLON] }

  function ItemSeparator(format: bool, last: bool): CString {
    if last then [] else if format then [COMMA, SPACE] else [COMMA]
  }

  function MemberStart(key: CString, format: bool, depth: nat): CString {
    Indent(format, depth) + Quoted(key) + Colon(format)
  }

  function MemberEnd(format: bool, last: bool): CString {
    (if last then [] else [COMMA]) + (if format then [NEWLINE] else [])
  }

  /** The first `k` elements, each with what follows it before the next element. */
  function ItemsText(items: seq<Json>, format: bool, depth: nat, k: nat): CString
    requires k <= |items|
    decreases items, 1, k
  {
    if k == 0 then []
    else ItemsText(items, format, depth, k - 1) + TextOf(items[k - 1], format, depth) + ItemSeparator(format, k == |items|)
  }

  /** The first `k` members, each with its separators. */
  function MembersText(members: seq<Keyed<Json>>, format: bool, depth: nat, k: nat): CString
    requires k <= |members|
    decreases members, 1, k
  {
    if k == 0 then []
    else
      MembersText(members, format, depth, k - 1)
      + MemberStart(members[k - 1].key, format, depth)
      + TextOf(members[k - 1].item, format, depth)
      + MemberEnd(format, k == |members|)
  }

  lemma {:induction false} ItemsTextPrefix(items: seq<Json>, format: bool, depth: nat, k: nat, n: nat)
    requires k <= n <= |items|
    ensures ItemsText(items, format, depth, k) <= ItemsText(items, format, depth, n)
    decreases n - k
  {
    hide TextOf, ItemSeparator;
    if k < n {
      ItemsTextPrefix(items, format, depth, k + 1, n);
    }
  }

  lemma {:induction false} MembersTextPrefix(members: seq<Keyed<Json>>, format: bool, depth: nat, k: nat, n: nat)
    requires k <= n <= |members|
    ensures MembersText(members, format, depth, k) <= MembersText(members, format, depth, n)
    decreases n - k
  {
    hide TextOf, MemberStart, MemberEnd;
    if k < n {
      MembersTextPrefix(members, format, depth, k + 1, n);
    }
  }

  lemma ArrayParts(items: seq<Json>, format: bool, depth: nat)
    ensures TextOf(Array(items), format, depth) == [LBRACKET] + ItemsText(items, format, depth + 1, |items|) + [RBRACKET]
    ensures Nesting(Array(items)) == 1 + ItemsNesting(items)
  {
  }

  lemma ObjectParts(members: seq<Keyed<Json>>, format: bool, depth: nat)
    ensures TextOf(Object(members), format, depth) == Open(format) + MembersText(members, format, depth + 1, |members|) + Close(format, depth)
    ensures Nesting(Object(members)) == 1 + MembersNesting(members)
  {
  }

  /** One more element: what was before it, its text, its separator. */
  lemma ItemsTextStep(items: seq<Json>, format: bool, depth: nat, k: nat)
    requires k < |items|
    ensures ItemsText(items, format, depth, k + 1)
         == ItemsText(items, format, depth, k) + (TextOf(items[k], format, depth) + ItemSeparator(format, k + 1 == |items|))
    ensures |ItemsText(items, format, depth, k + 1)| <= |ItemsText(items, format, depth, |items|)|
  {
    hide TextOf, ItemSeparator;
    Assoc(ItemsText(items, format, depth, k), TextOf(items[k], format, depth), ItemSeparator(format, k + 1 == |items|));
    ItemsTextPrefix(items, format, depth, k + 1, |items|);
  }

  function MemberText(member: Keyed<Json>, format: bool, depth: nat, last: bool): CString {
    MemberStart(member.key, format, depth) + TextOf(member.item, format, depth) + MemberEnd(format, last)
  }

  lemma MembersTextStep(members: seq<Keyed<Json>>, format: bool, depth: nat, k: nat)
    requires k < |members|
    ensures MembersText(members, format, depth, k + 1)
         == MembersText(members, format, depth, k) + MemberText(members[k], format, depth, k + 1 == |members|)
    ensures |MembersText(members, format, depth, k + 1)| <= |MembersText(members, format, depth, |members|)|
  {
    hide TextOf, MemberStart, MemberEnd;
    var before, start := MembersText(members, format, depth, k), MemberStart(members[k].key, format, depth);
    Assoc(before, start, TextOf(members[k].item, format, depth));
    Assoc(before, start + TextOf(members[k].item, format, depth), MemberEnd(format, k + 1 == |members|));
    MembersTextPrefix(members, format, depth, k + 1, |members|);
  }
}
