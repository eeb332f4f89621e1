/** The parser building nodes on the heap, with an allocator that may refuse. */
module ParseTree {
  import opened Bytes
  import opened Json
  import opened Nodes
  import opened Ownership
  import opened DuplicateTree
  import Spec = ParseSpec
  import Buffer = ParseBuffer
  import Text

  const KIND_FALSE: int := 1
  const KIND_TRUE: int := 2
  const KIND_NULL: int := 4
  const KIND_NUMBER: int := 8
  const KIND_STRING: int := 16
  const KIND_ARRAY: int := 32
  const KIND_OBJECT: int := 64

  /** What the nodes of a parsed value say. */
  function Says(j: Json, name: Option<CString>): Tree
    decreases j
  {
    match j
    case Null => Tree(KIND_NULL, 0, None, name, [])
    case False => Tree(KIND_FALSE, 0, None, name, [])
    case True => Tree(KIND_TRUE, 1, None, name, [])
    case Number(n) => Tree(KIND_NUMBER, n, None, name, [])
    case String(s) => Tree(KIND_STRING, 0, Some(s), name, [])
    case Array(items) => Tree(KIND_ARRAY, 0, None, name, seq(|items|, i requires 0 <= i < |items| => Says(items[i], None)))
    case Object(members) =>
      Tree(KIND_OBJECT, 0, None, name, seq(|members|, i requires 0 <= i < |members| => Says(members[i].item, Some(members[i].key))))
  }

  // ----- the child list under construction -----

  /** How the children so far are linked; `next` is behind the last. */
  ghost predicate LinkedTo(kids: seq<Shape>, i: nat, next: Node?)
    requires i < |kids|
    reads kids[i].node
  {
    kids[i].node.next == (if i + 1 < |kids| then kids[i + 1].node else next) && (i > 0 ==> kids[i].node.prev == kids[i - 1].node)
  }

  /** A complete tree that says what was read. */
  ghost predicate Whole(kid: Shape, tree: Tree)
    reads kid.node, Footprints(kid.children)
  {
    Owns(kid) && Laid(kid) && Meaning(kid) == tree
  }

  /** The children so far, each complete. */
  ghost predicate Built(kids: seq<Shape>, trees: seq<Tree>, next: Node?)
    reads Footprints(kids)
  {
    && |kids| == |trees| && Apart(kids)
    && (forall i :: 0 <= i < |kids| ==> (PartOf(kids, i); RootOf(kids[i]); Whole(kids[i], trees[i])))
    && (forall i :: 0 <= i < |kids| ==> (PartOf(kids, i); RootOf(kids[i]); LinkedTo(kids, i, next)))
  }

  function Last(kids: seq<Shape>): Node? {
    if kids == [] then null else kids[|kids| - 1].node
  }

  lemma LastElsewhere(kids: seq<Shape>, node: Node, i: nat)
    requires i < |kids| && Apart(kids) && node !in Footprints(kids)
    ensures node !in Footprints(kids[i].children) && node != kids[i].node
    ensures kids[|kids| - 1].node !in Footprints(kids[i].children)
    ensures i < |kids| - 1 ==> kids[i].node != kids[|kids| - 1].node
  {
    hide Footprint, Footprints, Apart;
    NewElsewhere(node, kids, i);
    ApartNodes(kids, |kids| - 1, i);
  }

  method LinkNew(current: Node?, node: Node, ghost kids: seq<Shape>, ghost trees: seq<Tree>)
    requires Built(kids, trees, null) && current == Last(kids) && Unlinked(node) && node !in Footprints(kids)
    modifies (if kids == [] then {} else {kids[|kids| - 1].node})`next, node`prev
    ensures Built(kids, trees, node) && node.next == null && node.prev == Last(kids)
  {
    hide Footprint, Footprints, Apart, Owns, Laid, Meaning;
    forall i | 0 <= i < |kids|
      ensures node !in Footprints(kids[i].children) && node != kids[i].node && current !in Footprints(kids[i].children)
      ensures i < |kids| - 1 ==> kids[i].node != current
    {
      LastElsewhere(kids, node, i);
    }
    label Before:
    if current != null {
      current.next := node;
      node.prev := current;
    }
    forall i | 0 <= i < |kids| ensures Whole(kids[i], trees[i]) {
      assert old@Before(Whole(kids[i], trees[i]));
    }
    forall i | 0 <= i < |kids| ensures LinkedTo(kids, i, node) {
      assert old@Before(LinkedTo(kids, i, null));
      assert kids[i].node.prev == old@Before(kids[i].node.prev);
      assert i < |kids| - 1 ==> kids[i].node.next == old@Before(kids[i].node.next);
    }
  }

  lemma BuiltNothing()
    ensures Built([], [], null)
  {
  }

  lemma BuiltApart(kids: seq<Shape>, trees: seq<Tree>, next: Node?)
    requires Built(kids, trees, next)
    ensures Apart(kids) && |kids| == |trees|
  {
  }

  /** With a last node behind them, the children make up a chain that can be deleted. */
  lemma {:induction false} WithLast(kids: seq<Shape>, trees: seq<Tree>, t: Shape)
    requires Built(kids, trees, t.node) && Owns(t) && Separate(t) && t.node.next == null && t.node.prev == Last(kids)
    requires Footprint(t) !! Footprints(kids)
    ensures Chained(kids + [t]) && Apart(kids + [t]) && Footprints(kids + [t]) == Footprints(kids) + Footprint(t)
  {
    hide Footprint, Footprints, Apart, Owns, Laid, Meaning, Separate, Chained;
    BuiltApart(kids, trees, t.node);
    ApartSnoc(kids, t);
    FootprintsSnoc(kids, t);
    var all := kids + [t];
    forall i | 0 <= i < |all| ensures Owns(all[i]) && LinkedAt(all, i) {
      if i < |kids| {
        assert LinkedTo(kids, i, t.node) && all[i] == kids[i];
        assert Whole(kids[i], trees[i]);
      }
    }
    ChainedFromParts(all);
  }

  /** Once the last node is complete too, it is one of the children. */
  lemma {:induction false} BuiltMore(kids: seq<Shape>, trees: seq<Tree>, t: Shape, tree: Tree)
    requires Built(kids, trees, t.node) && Whole(t, tree) && Separate(t) && t.node.next == null && t.node.prev == Last(kids)
    requires Footprint(t) !! Footprints(kids)
    ensures Built(kids + [t], trees + [tree], null)
  {
    hide Footprint, Footprints, Apart, Whole, Separate;
    BuiltApart(kids, trees, t.node);
    ApartSnoc(kids, t);
    var all, said := kids + [t], trees + [tree];
    forall i | 0 <= i < |all| ensures Whole(all[i], said[i]) {
      assert i < |kids| ==> all[i] == kids[i] && said[i] == trees[i];
    }
    forall i | 0 <= i < |all| ensures LinkedTo(all, i, null) {
      if i < |kids| {
        assert LinkedTo(kids, i, t.node) && all[i] == kids[i];
      }
    }
  }

  /** The head points back at the tail: the list is complete. */
  method CloseBuilt(head: Node?, current: Node?, ghost kids: seq<Shape>, ghost trees: seq<Tree>)
    requires Built(kids, trees, null) && head == Head(kids) && current == Last(kids)
    modifies (if kids == [] then {} else {kids[0].node})`prev
    ensures Chained(kids) && Apart(kids) && AllLaid(kids) && ChildLinks(NodesOf(kids)) && Meanings(kids) == trees
  {
    hide Footprint, Footprints, Apart, Owns, Laid, Meaning, Chained, AllLaid, Meanings, NodesOf, ChildLinks;
    BuiltApart(kids, trees, null);
    forall i | 0 <= i < |kids| ensures head !in Footprints(kids[i].children) && (i > 0 ==> kids[i].node != head) {
      ApartNodes(kids, 0, i);
    }
    label Before:
    if head != null {
      head.prev := current;
    }
    forall i | 0 <= i < |kids| ensures Owns(kids[i]) && Laid(kids[i]) && Meaning(kids[i]) == trees[i] {
      assert old@Before(Whole(kids[i], trees[i]));
      assert Whole(kids[i], trees[i]);
    }
    forall i | 0 <= i < |kids| ensures LinkedAt(kids, i) {
      assert old@Before(LinkedTo(kids, i, null));
      assert kids[i].node.next == old@Before(kids[i].node.next);
      assert i > 0 ==> kids[i].node.prev == old@Before(kids[i].node.prev);
    }
    ChainedFromParts(kids);
    AllLaidFromParts(kids);
    LinksFromParts(kids);
    MeaningsAre(kids, trees);
  }

  lemma {:induction false} MeaningsAre(kids: seq<Shape>, trees: seq<Tree>)
    requires |kids| == |trees| && forall i :: 0 <= i < |kids| ==> Meaning(kids[i]) == trees[i]
    ensures Meanings(kids) == trees
  {
    hide Meaning, Meanings;
    MeaningsLength(kids);
    forall i | 0 <= i < |kids| ensures Meanings(kids)[i] == trees[i] {
      MeaningsAt(kids, i);
    }
  }

  // ----- values -----

  /** What a parsing method promises about the node it fills. On success the node is the root of a complete tree of
      what was parsed; on failure it owns no more than before, and neither does anyone else. */
  twostate predicate Fills(buffer: Buffer.ParseBuffer, memory: Memory, item: Node, r: Spec.Parsed<Json>, ok: bool, new t: Shape)
    reads buffer, memory, item, Footprints(t.children)
  {
    item.name == old(item.name) &&
    if ok then
      && r.Done? && buffer.offset == r.offset && buffer.depth == old(buffer.depth) && memory.refused == old(memory.refused)
      && t.node == item && t.name == item.name && Whole(t, Says(r.value, Contents(item.name))) && Separate(t)
      && memory.live == old(memory.live) + Footprint(t) && fresh(Footprint(t) - old(Own(Bare(item))))
    else
      && memory.live == old(memory.live) && item.value == null && item.child == null
      && (!memory.refused ==> !old(memory.refused) && r == Spec.Fail(buffer.offset))
  }

  /** The node to be filled, and the memory that is in use. */
  ghost predicate Blank(buffer: Buffer.ParseBuffer, memory: Memory, item: Node)
    reads memory, item
  {
    && item.value == null && item.child == null && item.number == 0
    && Own(Bare(item)) <= memory.live && memory !in memory.live && buffer !in memory.live
  }

  lemma Leaf(item: Node)
    requires item.child == null && (item.value == null || item.value != item.name)
    ensures Whole(Bare(item), Tree(item.kind, item.number, Contents(item.value), Contents(item.name), []))
    ensures Separate(Bare(item)) && Footprint(Bare(item)) == Own(Bare(item))
  {
  }

  method ParseString(buffer: Buffer.ParseBuffer, memory: Memory, item: Node) returns (ok: bool)
    requires buffer.offset < |buffer.content| && memory !in memory.live && buffer !in memory.live
    modifies buffer`offset, memory, item`kind, item`value
    ensures buffer.depth == old(buffer.depth)
    ensures ok ==> Spec.ParseString(buffer.content, old(buffer.offset)).Done? && memory.refused == old(memory.refused)
    ensures ok ==> item.kind == KIND_STRING && item.value != null && fresh(item.value) && memory.live == old(memory.live) + {item.value}
    ensures ok ==> Spec.ParseString(buffer.content, old(buffer.offset)) == Spec.Done(item.value.text, buffer.offset)
    ensures !ok ==> memory.live == old(memory.live) && item.kind == old(item.kind) && item.value == old(item.value)
    ensures !ok && !memory.refused ==>
      !old(memory.refused) && Spec.ParseString(buffer.content, old(buffer.offset)) == Spec.Fail(buffer.offset)
  {
    hide Spec.Decode, UpToNul;
    var at := buffer.offset;
    if buffer.content[at] != QUOTE || Spec.ScanEnd(buffer.content, at + 1) < 0 {
      buffer.offset := at + 1;
      return false;
    }
    var end := Spec.ScanEnd(buffer.content, at + 1);
    var output := memory.Strdup(UpToNul(Spec.Decode(buffer.content, at + 1, end).bytes));
    if output == null {
      buffer.offset := at + 1;
      return false;
    }
    var parsed, text := buffer.ParseString();
    if !parsed {
      memory.Free(output);
      return false;
    }
    item.kind := KIND_STRING;
    item.value := output;
    return true;
  }

  method ParseNumber(buffer: Buffer.ParseBuffer, memory: Memory, item: Node) returns (ok: bool, ghost t: Shape)
    requires buffer.offset <= |buffer.content| && Blank(buffer, memory, item)
    modifies buffer`offset, memory, item`kind, item`number
    ensures Fills(buffer, memory, item, Spec.ParseNumber(buffer.content, old(buffer.offset)), ok, t)
  {
    hide Footprint, Footprints, Whole, Separate;
    t := Bare(item);
    var copy := memory.Strdup([]);
    if copy == null {
      return false, t;
    }
    var parsed, number := buffer.ParseNumber();
    if !parsed {
      memory.Free(copy);
      return false, t;
    }
    item.number := number.n;
    item.kind := KIND_NUMBER;
    memory.Free(copy);
    Leaf(item);
    return true, t;
  }

  // ----- children: allocating, linking, giving up -----

  /** What is known of the children while the list grows. */
  ghost predicate Growing(memory: Memory, head: Node?, current: Node?, kids: seq<Shape>, trees: seq<Tree>)
    reads memory, Footprints(kids)
  {
    Built(kids, trees, null) && head == Head(kids) && current == Last(kids) && Footprints(kids) <= memory.live && memory !in memory.live
  }

  /** A new node behind the children so far, or, if there is no memory for it, none of them any more. */
  method Grow(memory: Memory, head: Node?, current: Node?, ghost kids: seq<Shape>, ghost trees: seq<Tree>) returns (node: Node?)
    requires Growing(memory, head, current, kids, trees)
    modifies memory, (if kids == [] then {} else {kids[|kids| - 1].node})`next
    ensures node == null ==> memory.refused && memory.live == old(memory.live) - Footprints(kids)
    ensures node != null ==>
      && memory.refused == old(memory.refused) && fresh(node) && memory.live == old(memory.live) + {node}
      && Built(kids, trees, node) && node.next == null && node.prev == Last(kids)
      && node.child == null && node.value == null && node.name == null && node.number == 0
  {
    hide Footprint, Footprints, Built, Chained, Apart;
    node := memory.NewNode();
    if node == null {
      if head != null {
        BuiltChained(kids, trees);
        Delete(memory, head, kids);
      } else {
        NoFootprints();
      }
      return;
    }
    if kids != [] {
      LastOf(kids);
    }
    LinkNew(current, node, kids, trees);
  }

  lemma {:induction false} BuiltChained(kids: seq<Shape>, trees: seq<Tree>)
    requires Built(kids, trees, null)
    ensures Chained(kids) && Apart(kids)
  {
    hide Footprint, Footprints, Apart, Owns, Laid, Meaning, Chained;
    BuiltApart(kids, trees, null);
    forall i | 0 <= i < |kids| ensures Owns(kids[i]) && LinkedAt(kids, i) {
      assert LinkedTo(kids, i, null);
      assert Whole(kids[i], trees[i]);
    }
    ChainedFromParts(kids);
  }

  /** Frees the children and the node behind them. */
  method GiveUp(memory: Memory, head: Node?, node: Node, ghost kids: seq<Shape>, ghost trees: seq<Tree>)
    requires Built(kids, trees, node) && node.next == null && node.prev == Last(kids) && node.child == null && node.value == null
    requires head == Head(kids) && Footprints(kids) + Own(Bare(node)) <= memory.live && memory !in memory.live
    requires Footprints(kids) !! Own(Bare(node))
    modifies memory`live
    ensures memory.live == old(memory.live) - Footprints(kids) - Own(Bare(node))
  {
    hide Footprint, Footprints, Built, Chained, Apart, Separate, Own, Whole;
    Leaf(node);
    assert Owns(Bare(node)) by { WholeOwns(Bare(node), Tree(node.kind, node.number, Contents(node.value), Contents(node.name), [])); }
    WithLast(kids, trees, Bare(node));
    Delete(memory, if head == null then node else head, kids + [Bare(node)]);
  }

  lemma WholeOwns(t: Shape, tree: Tree)
    requires Whole(t, tree)
    ensures Owns(t)
  {
  }

  // ----- the recursive descent -----

  method ParseValue(buffer: Buffer.ParseBuffer, memory: Memory, item: Node) returns (ok: bool, ghost t: Shape)
    requires buffer.offset <= |buffer.content| && buffer.depth <= NESTING_LIMIT && Blank(buffer, memory, item)
    modifies buffer, memory, item`kind, item`number, item`value, item`child
    ensures Fills(buffer, memory, item, Spec.ParseValue(buffer.content, old(buffer.offset), old(buffer.depth)), ok, t)
    decreases |buffer.content| - buffer.offset, 3
  {
    hide Footprint, Footprints, Whole, Separate, Own, Spec.ParseArray, Spec.ParseObject, Spec.ParseNumber, Spec.ParseString, HasAt;
    t := Bare(item);
    var c := buffer.content;
    if HasAt(c, buffer.offset, Text.NULL_TEXT) {
      item.kind := KIND_NULL;
      buffer.offset := buffer.offset + 4;
      Leaf(item);
      return true, t;
    }
    if HasAt(c, buffer.offset, Text.FALSE_TEXT) {
      item.kind := KIND_FALSE;
      buffer.offset := buffer.offset + 5;
      Leaf(item);
      return true, t;
    }
    if HasAt(c, buffer.offset, Text.TRUE_TEXT) {
      item.kind := KIND_TRUE;
      item.number := 1;
      buffer.offset := buffer.offset + 4;
      Leaf(item);
      return true, t;
    }
    if buffer.CanAccess(0) && c[buffer.offset] == QUOTE {
      ok := ParseString(buffer, memory, item);
      if ok {
        NewValue(item);
        Leaf(item);
        t := Bare(item);
      }
      return;
    }
    if buffer.CanAccess(0) && (c[buffer.offset] == MINUS || IsDigit(c[buffer.offset])) {
      ok, t := ParseNumber(buffer, memory, item);
      return;
    }
    if buffer.CanAccess(0) && c[buffer.offset] == LBRACKET {
      ok, t := ParseArray(buffer, memory, item);
      return;
    }
    if buffer.CanAccess(0) && c[buffer.offset] == LBRACE {
      ok, t := ParseObject(buffer, memory, item);
      return;
    }
    return false, t;
  }

  twostate lemma NewValue(item: Node)
    requires old(item.value) == null && item.value != null && item.name == old(item.name)
    ensures Own(Bare(item)) == old(Own(Bare(item))) + {item.value}
  {
  }

  function AllSay(items: seq<Json>): seq<Tree> {
    seq(|items|, i requires 0 <= i < |items| => Says(items[i], None))
  }

  /** One element: allocate, link, read. On failure nothing is left of the children. */
  method ParseItem(buffer: Buffer.ParseBuffer, memory: Memory, head: Node?, current: Node?, ghost kids: seq<Shape>, ghost trees: seq<Tree>)
    returns (ok: bool, node: Node?, ghost grown: seq<Shape>)
    requires buffer.offset < |buffer.content| && buffer.depth <= NESTING_LIMIT && buffer !in memory.live
    requires Growing(memory, head, current, kids, trees)
    modifies buffer, memory, (if kids == [] then {} else {kids[|kids| - 1].node})`next
    ensures ok ==>
      && var r := Spec.ParseElement(buffer.content, old(buffer.offset), old(buffer.depth));
      && r.Done? && buffer.offset == r.offset && Built(grown, trees + [Says(r.value, None)], null)
      && buffer.depth == old(buffer.depth) && memory.refused == old(memory.refused)
      && node != null && node == Last(grown) && (kids != [] ==> Head(grown) == Head(kids)) && (kids == [] ==> Head(grown) == node)
      && Footprints(kids) <= Footprints(grown) && fresh(Footprints(grown) - Footprints(kids))
      && memory.live == old(memory.live) + Footprints(grown)
    ensures !ok ==> memory.live == old(memory.live) - Footprints(kids)
    ensures !ok && !memory.refused ==>
      !old(memory.refused) && Spec.ParseElement(buffer.content, old(buffer.offset), old(buffer.depth)) == Spec.Fail(buffer.offset)
    decreases |buffer.content| - buffer.offset, 0, 1
  {
    hide Footprint, Footprints, Whole, Separate, Own, Built, Says, Spec.ParseValue, Spec.SkipWhitespace;
    grown := kids;
    ok := false;
    node := Grow(memory, head, current, kids, trees);
    if node == null {
      return;
    }
    OwnOnlyNode(node);
    buffer.offset := buffer.offset + 1;
    buffer.SkipWhitespace();
    ghost var r := Spec.ParseValue(buffer.content, buffer.offset, buffer.depth);
    label Before:
    ghost var kid;
    ok, kid := ParseValue(buffer, memory, node);
    if !ok {
      OwnOnlyNode(node);
      GiveUp(memory, head, node, kids, trees);
      return;
    }
    grown := kids + [kid];
    FootprintsSnoc(kids, kid);
    RootOf(kid);
    BuiltMore(kids, trees, kid, Says(r.value, None));
  }

  lemma OwnOnlyNode(node: Node)
    requires node.value == null && node.name == null
    ensures Own(Bare(node)) == {node}
  {
  }

  /** How an array or an object starts. */
  datatype Start = TooDeep | Ends | Empty | Filled

  /** The first lines of `parse_array` and `parse_object`. */
  method Open(buffer: Buffer.ParseBuffer, closing: Byte) returns (start: Start)
    requires buffer.offset < |buffer.content| && buffer.depth <= NESTING_LIMIT
    modifies buffer
    ensures var c, k := buffer.content, Spec.SkipWhitespace(buffer.content, old(buffer.offset) + 1);
      match start
      case TooDeep => old(buffer.depth) == NESTING_LIMIT && buffer.offset == old(buffer.offset)
      case Ends => old(buffer.depth) < NESTING_LIMIT && k == |c| && buffer.offset == k - 1
      case Empty => old(buffer.depth) < NESTING_LIMIT && k < |c| && c[k] == closing && buffer.offset == k + 1 && buffer.depth == old(buffer.depth)
      case Filled =>
        old(buffer.depth) < NESTING_LIMIT && k < |c| && c[k] != closing && buffer.offset == k - 1 && buffer.depth == old(buffer.depth) + 1
  {
    hide Spec.SkipWhitespace;
    if buffer.depth >= NESTING_LIMIT {
      return TooDeep;
    }
    buffer.depth := buffer.depth + 1;
    buffer.offset := buffer.offset + 1;
    buffer.SkipWhitespace();
    if buffer.CanAccess(0) && buffer.content[buffer.offset] == closing {
      buffer.depth := buffer.depth - 1;
      buffer.offset := buffer.offset + 1;
      return Empty;
    }
    start := if buffer.CanAccess(0) then Filled else Ends;
    buffer.offset := buffer.offset - 1;
  }

  method ParseArray(buffer: Buffer.ParseBuffer, memory: Memory, item: Node) returns (ok: bool, ghost t: Shape)
    requires buffer.offset < |buffer.content| && buffer.content[buffer.offset] == LBRACKET
    requires buffer.depth <= NESTING_LIMIT && Blank(buffer, memory, item)
    modifies buffer, memory, item`kind, item`number, item`value, item`child
    ensures Fills(buffer, memory, item, Spec.ParseArray(buffer.content, old(buffer.offset), old(buffer.depth)), ok, t)
    decreases |buffer.content| - buffer.offset, 2
  {
    hide Footprint, Footprints, Whole, Separate, Own, Built, Says, Spec.ParseElement, Spec.SkipWhitespace;
    t := Bare(item);
    ok := false;
    var start := Open(buffer, RBRACKET);
    if start == TooDeep || start == Ends {
      return;
    }
    if start == Empty {
      item.kind := KIND_ARRAY;
      item.child := null;
      Leaf(item);
      SaysNothing(item);
      return true, t;
    }
    ghost var r := Spec.ParseItems(buffer.content, buffer.offset, buffer.depth, []);
    var head, current;
    ghost var kids;
    ok, head, current, kids := ParseItems(buffer, memory);
    if !ok {
      return;
    }
    buffer.depth := buffer.depth - 1;
    item.kind := KIND_ARRAY;
    if kids != [] {
      LastOf(kids);
    }
    SaysArray(r.value.items, Contents(item.name));
    t := Complete(item, head, current, kids, AllSay(r.value.items));
  }

  lemma SaysArray(items: seq<Json>, name: Option<CString>)
    ensures Says(Array(items), name) == Tree(KIND_ARRAY, 0, None, name, AllSay(items))
  {
  }

  /** The list is closed and hung below the item. */
  method Complete(item: Node, head: Node?, current: Node?, ghost kids: seq<Shape>, ghost trees: seq<Tree>) returns (ghost t: Shape)
    requires Built(kids, trees, null) && head == Head(kids) && current == Last(kids)
    requires item.value == null && Own(Bare(item)) !! Footprints(kids)
    modifies item`child, (if kids == [] then {} else {kids[0].node})`prev
    ensures t == Shape(item, item.value, item.name, kids) && Separate(t) && Footprint(t) == Own(Bare(item)) + Footprints(kids)
    ensures Whole(t, Tree(item.kind, item.number, None, Contents(item.name), trees))
  {
    hide Footprint, Footprints, Built, Separate, Own, Chained, Apart, AllLaid, Meanings;
    OwnNode(Bare(item));
    CloseBuilt(head, current, kids, trees);
    item.child := head;
    t := Shape(item, item.value, item.name, kids);
    OwnWithout(item, kids);
    Assembled(t);
  }

  lemma OwnWithout(item: Node, kids: seq<Shape>)
    ensures Own(Shape(item, item.value, item.name, kids)) == Own(Bare(item))
  {
  }

  /** The loop of `parse_array`, up to the closing bracket. */
  method ParseItems(buffer: Buffer.ParseBuffer, memory: Memory)
    returns (ok: bool, head: Node?, current: Node?, ghost kids: seq<Shape>)
    requires buffer.offset < |buffer.content| && 0 < buffer.depth <= NESTING_LIMIT
    requires memory !in memory.live && buffer !in memory.live
    modifies buffer, memory
    ensures ok ==>
      && var r := Spec.ParseItems(buffer.content, old(buffer.offset), old(buffer.depth), []);
      && r.Done? && buffer.offset == r.offset && r.value.Array? && Built(kids, AllSay(r.value.items), null)
      && buffer.depth == old(buffer.depth) && memory.refused == old(memory.refused)
      && head == Head(kids) && current == Last(kids)
      && fresh(Footprints(kids)) && memory.live == old(memory.live) + Footprints(kids)
    ensures !ok ==> memory.live == old(memory.live)
    ensures !ok && !memory.refused ==>
      !old(memory.refused) && Spec.ParseItems(buffer.content, old(buffer.offset), old(buffer.depth), []) == Spec.Fail(buffer.offset)
    decreases |buffer.content| - buffer.offset, 1
  {
    hide Footprint, Footprints, Whole, Separate, Own, Built, Says, AllSay, Spec.ParseElement, Spec.SkipWhitespace;
    ok, head, current := false, null, null;
    kids := [];
    ghost var items: seq<Json> := [];
    ghost var result := Spec.ParseItems(buffer.content, buffer.offset, buffer.depth, []);
    BuiltNothing();
    NoFootprints();
    AllSayNothing();
    while true
      invariant old(buffer.offset) <= buffer.offset < |buffer.content|
      invariant buffer.depth == old(buffer.depth) && buffer.depth + ItemsNesting(items) <= NESTING_LIMIT
      invariant Spec.ParseItems(buffer.content, buffer.offset, buffer.depth, items) == result
      invariant Built(kids, AllSay(items), null) && head == Head(kids) && current == Last(kids)
      invariant fresh(Footprints(kids)) && memory.live == old(memory.live) + Footprints(kids)
      invariant memory.refused == old(memory.refused)
      decreases |buffer.content| - buffer.offset
    {
      if kids != [] {
        LastOf(kids);
      }
      ghost var element := Spec.ParseElement(buffer.content, buffer.offset, buffer.depth);
      var parsed, node, grown := ParseItem(buffer, memory, head, current, kids, AllSay(items));
      if !parsed {
        return;
      }
      ItemsNestingSnoc(items, element.value);
      SaysOneMore(items, element.value);
      kids, items, current := grown, items + [element.value], node;
      if head == null {
        head := node;
      }
      buffer.SkipWhitespace();
      if !(buffer.CanAccess(0) && buffer.content[buffer.offset] == COMMA) {
        break;
      }
    }
    if !buffer.CanAccess(0) || buffer.content[buffer.offset] != RBRACKET {
      BuiltChained(kids, AllSay(items));
      Delete(memory, head, kids);
      return;
    }
    buffer.offset := buffer.offset + 1;
    ok := true;
  }

  lemma AllSayNothing()
    ensures AllSay([]) == []
  {
  }

  lemma SaysOneMore(items: seq<Json>, item: Json)
    ensures AllSay(items + [item]) == AllSay(items) + [Says(item, None)]
  {
    hide Says;
  }

  lemma SaysNothing(item: Node)
    ensures Says(Array([]), Contents(item.name)) == Tree(KIND_ARRAY, 0, None, Contents(item.name), [])
    ensures Says(Object([]), Contents(item.name)) == Tree(KIND_OBJECT, 0, None, Contents(item.name), [])
  {
  }

  // ----- objects -----

  function MembersSay(members: seq<Keyed<Json>>): seq<Tree> {
    seq(|members|, i requires 0 <= i < |members| => Says(members[i].item, Some(members[i].key)))
  }

  /** Key, colon and value of one member; the string that was parsed first becomes the name. */
  method ParseNamed(buffer: Buffer.ParseBuffer, memory: Memory, item: Node) returns (ok: bool, ghost t: Shape)
    requires buffer.offset < |buffer.content| && buffer.depth <= NESTING_LIMIT && Blank(buffer, memory, item) && item.name == null
    modifies buffer, memory, item`kind, item`number, item`value, item`child, item`name
    ensures ok ==>
      && var r := Spec.ParseMember(buffer.content, old(buffer.offset), old(buffer.depth));
      && r.Done? && buffer.offset == r.offset && buffer.depth == old(buffer.depth) && memory.refused == old(memory.refused)
      && t.node == item && Whole(t, Says(r.value.item, Some(r.value.key))) && Separate(t)
      && memory.live == old(memory.live) + Footprint(t) && fresh(Footprint(t) - {item})
    ensures !ok ==>
      && item.value == null && item.child == null && memory.live == old(memory.live) + Own(Bare(item)) && fresh(Own(Bare(item)) - {item})
    ensures !ok && !memory.refused ==>
      !old(memory.refused) && Spec.ParseMember(buffer.content, old(buffer.offset), old(buffer.depth)) == Spec.Fail(buffer.offset)
    decreases |buffer.content| - buffer.offset, 0, 0
  {
    hide Footprint, Footprints, Whole, Separate, Says, Spec.ParseValue, Spec.ParseString, Spec.SkipWhitespace;
    t := Bare(item);
    ok := false;
    if !buffer.CanAccess(1) {
      return;
    }
    buffer.offset := buffer.offset + 1;
    buffer.SkipWhitespace();
    var named := ParseString(buffer, memory, item);
    if !named {
      return;
    }
    buffer.SkipWhitespace();
    item.name := item.value;
    item.value := null;
    if !buffer.CanAccess(0) || buffer.content[buffer.offset] != COLON {
      return;
    }
    buffer.offset := buffer.offset + 1;
    buffer.SkipWhitespace();
    ok, t := ParseValue(buffer, memory, item);
    if ok {
      NameOf(t);
    }
  }

  lemma NameOf(t: Shape)
    ensures t.node in Footprint(t) && (t.name != null ==> t.name in Footprint(t))
  {
  }

  /** One member: allocate, link, read. On failure nothing is left of the children. */
  method ParseMember(buffer: Buffer.ParseBuffer, memory: Memory, head: Node?, current: Node?, ghost kids: seq<Shape>, ghost trees: seq<Tree>)
    returns (ok: bool, node: Node?, ghost grown: seq<Shape>)
    requires buffer.offset < |buffer.content| && buffer.depth <= NESTING_LIMIT && buffer !in memory.live
    requires Growing(memory, head, current, kids, trees)
    modifies buffer, memory, (if kids == [] then {} else {kids[|kids| - 1].node})`next
    ensures ok ==>
      && var r := Spec.ParseMember(buffer.content, old(buffer.offset), old(buffer.depth));
      && r.Done? && buffer.offset == r.offset && Built(grown, trees + [Says(r.value.item, Some(r.value.key))], null)
      && buffer.depth == old(buffer.depth) && memory.refused == old(memory.refused)
      && node != null && node == Last(grown) && (kids != [] ==> Head(grown) == Head(kids)) && (kids == [] ==> Head(grown) == node)
      && Footprints(kids) <= Footprints(grown) && fresh(Footprints(grown) - Footprints(kids))
      && memory.live == old(memory.live) + Footprints(grown)
    ensures !ok ==> memory.live == old(memory.live) - Footprints(kids)
    ensures !ok && !memory.refused ==>
      !old(memory.refused) && Spec.ParseMember(buffer.content, old(buffer.offset), old(buffer.depth)) == Spec.Fail(buffer.offset)
    decreases |buffer.content| - buffer.offset, 0, 1
  {
    hide Footprint, Footprints, Whole, Separate, Own, Built, Says, Spec.ParseMember;
    grown := kids;
    ok := false;
    node := Grow(memory, head, current, kids, trees);
    if node == null {
      return;
    }
    OwnOnlyNode(node);
    ghost var r := Spec.ParseMember(buffer.content, buffer.offset, buffer.depth);
    ghost var kid;
    ok, kid := ParseNamed(buffer, memory, node);
    if !ok {
      OwnNode(Bare(node));
      GiveUp(memory, head, node, kids, trees);
      return;
    }
    grown := kids + [kid];
    FootprintsSnoc(kids, kid);
    RootOf(kid);
    BuiltMore(kids, trees, kid, Says(r.value.item, Some(r.value.key)));
  }

  method ParseObject(buffer: Buffer.ParseBuffer, memory: Memory, item: Node) returns (ok: bool, ghost t: Shape)
    requires buffer.offset < |buffer.content| && buffer.content[buffer.offset] == LBRACE
    requires buffer.depth <= NESTING_LIMIT && Blank(buffer, memory, item)
    modifies buffer, memory, item`kind, item`number, item`value, item`child
    ensures Fills(buffer, memory, item, Spec.ParseObject(buffer.content, old(buffer.offset), old(buffer.depth)), ok, t)
    decreases |buffer.content| - buffer.offset, 2
  {
    hide Footprint, Footprints, Whole, Separate, Own, Built, Says, Spec.ParseMember, Spec.SkipWhitespace;
    t := Bare(item);
    ok := false;
    var start := Open(buffer, RBRACE);
    if start == TooDeep || start == Ends {
      return;
    }
    if start == Empty {
      item.kind := KIND_OBJECT;
      item.child := null;
      Leaf(item);
      SaysNothing(item);
      return true, t;
    }
    ghost var r := Spec.ParseMembers(buffer.content, buffer.offset, buffer.depth, []);
    var head, current;
    ghost var kids;
    ok, head, current, kids := ParseMembers(buffer, memory);
    if !ok {
      return;
    }
    buffer.depth := buffer.depth - 1;
    item.kind := KIND_OBJECT;
    if kids != [] {
      LastOf(kids);
    }
    SaysObject(r.value.members, Contents(item.name));
    t := Complete(item, head, current, kids, MembersSay(r.value.members));
  }

  lemma SaysObject(members: seq<Keyed<Json>>, name: Option<CString>)
    ensures Says(Object(members), name) == Tree(KIND_OBJECT, 0, None, name, MembersSay(members))
  {
  }

  lemma MembersSayNothing()
    ensures MembersSay([]) == []
  {
  }

  lemma SaysOneMoreMember(members: seq<Keyed<Json>>, member: Keyed<Json>)
    ensures MembersSay(members + [member]) == MembersSay(members) + [Says(member.item, Some(member.key))]
  {
    hide Says;
  }

  /** The loop of `parse_object`, up to the closing brace. */
  method ParseMembers(buffer: Buffer.ParseBuffer, memory: Memory)
    returns (ok: bool, head: Node?, current: Node?, ghost kids: seq<Shape>)
    requires buffer.offset < |buffer.content| && 0 < buffer.depth <= NESTING_LIMIT
    requires memory !in memory.live && buffer !in memory.live
    modifies buffer, memory
    ensures ok ==>
      && var r := Spec.ParseMembers(buffer.content, old(buffer.offset), old(buffer.depth), []);
      && r.Done? && buffer.offset == r.offset && r.value.Object? && Built(kids, MembersSay(r.value.members), null)
      && buffer.depth == old(buffer.depth) && memory.refused == old(memory.refused)
      && head == Head(kids) && current == Last(kids)
      && fresh(Footprints(kids)) && memory.live == old(memory.live) + Footprints(kids)
    ensures !ok ==> memory.live == old(memory.live)
    ensures !ok && !memory.refused ==>
      !old(memory.refused) && Spec.ParseMembers(buffer.content, old(buffer.offset), old(buffer.depth), []) == Spec.Fail(buffer.offset)
    decreases |buffer.content| - buffer.offset, 1
  {
    hide Footprint, Footprints, Whole, Separate, Own, Built, Says, MembersSay, Spec.ParseMember, Spec.SkipWhitespace;
    ok, head, current := false, null, null;
    kids := [];
    ghost var members: seq<Keyed<Json>> := [];
    ghost var result := Spec.ParseMembers(buffer.content, buffer.offset, buffer.depth, []);
    BuiltNothing();
    NoFootprints();
    MembersSayNothing();
    while true
      invariant old(buffer.offset) <= buffer.offset < |buffer.content|
      invariant buffer.depth == old(buffer.depth) && buffer.depth + MembersNesting(members) <= NESTING_LIMIT
      invariant Spec.ParseMembers(buffer.content, buffer.offset, buffer.depth, members) == result
      invariant Built(kids, MembersSay(members), null) && head == Head(kids) && current == Last(kids)
      invariant fresh(Footprints(kids)) && memory.live == old(memory.live) + Footprints(kids)
      invariant memory.refused == old(memory.refused)
      decreases |buffer.content| - buffer.offset
    {
      if kids != [] {
        LastOf(kids);
      }
      ghost var member := Spec.ParseMember(buffer.content, buffer.offset, buffer.depth);
      var parsed, node, grown := ParseMember(buffer, memory, head, current, kids, MembersSay(members));
      if !parsed {
        return;
      }
      MembersNestingSnoc(members, member.value);
      SaysOneMoreMember(members, member.value);
      kids, members, current := grown, members + [member.value], node;
      if head == null {
        head := node;
      }
      buffer.SkipWhitespace();
      if !(buffer.CanAccess(0) && buffer.content[buffer.offset] == COMMA) {
        break;
      }
    }
    if !buffer.CanAccess(0) || buffer.content[buffer.offset] != RBRACE {
      BuiltChained(kids, MembersSay(members));
      Delete(memory, head, kids);
      return;
    }
    buffer.offset := buffer.offset + 1;
    ok := true;
  }

  // ----- whole texts -----

  /** `cJSON_ParseWithLengthOpts` with all its memory. Nothing is returned exactly when the text is refused or an
      allocation is, and then nothing is held on to; otherwise the tree is made of new objects, completely linked,
      and says what the parsing function says. */
  method ParseWithLengthOpts(content: seq<Byte>, requireNull: bool, memory: Memory)
    returns (tree: Node?, position: nat, ghost t: seq<Shape>)
    requires memory !in memory.live && !memory.refused
    modifies memory
    ensures tree == null ==> memory.live == old(memory.live)
    ensures tree == null && !memory.refused ==> Spec.ParseText(content, requireNull) == Spec.Malformed(position)
    ensures tree != null ==>
      && var parsed := Spec.ParseText(content, requireNull);
      && !memory.refused && parsed.Parsed? && position == parsed.end
      && |t| == 1 && t[0].node == tree && Unlinked(tree) && Whole(t[0], Says(parsed.tree, None)) && Separate(t[0])
      && fresh(Footprint(t[0])) && memory.live == old(memory.live) + Footprint(t[0])
  {
    hide Footprint, Whole, Separate, Own, Says, Spec.ParseValue, Spec.SkipWhitespace, HasAt;
    tree, position, t := null, 0, [];
    if |content| == 0 {
      return;
    }
    var buffer := new Buffer.ParseBuffer(content);
    var item := memory.NewNode();
    if item == null {
      return;
    }
    OwnOnlyNode(item);
    if |content| > 4 && HasAt(content, 0, Spec.BOM) {
      buffer.offset := 3;
    }
    buffer.SkipWhitespace();
    ghost var r := Spec.ParseValue(content, buffer.offset, buffer.depth);
    var ok;
    ghost var whole;
    ok, whole := ParseValue(buffer, memory, item);
    if !ok {
      OwnOnlyNode(item);
      Leaf(item);
      DropTree(memory, item, Bare(item), Tree(item.kind, item.number, Contents(item.value), Contents(item.name), []));
      return null, Spec.ErrorPosition(content, buffer.offset), [];
    }
    RootOf(whole);
    if requireNull {
      buffer.SkipWhitespace();
      if buffer.offset >= |content| || content[buffer.offset] != 0 {
        DropTree(memory, item, whole, Says(r.value, None));
        return null, Spec.ErrorPosition(content, buffer.offset), [];
      }
    }
    return item, buffer.offset, [whole];
  }

  method DropTree(memory: Memory, item: Node, ghost whole: Shape, ghost tree: Tree)
    requires item == whole.node && Whole(whole, tree) && Separate(whole) && item.next == null
    requires Footprint(whole) <= memory.live && memory !in memory.live
    modifies memory`live
    ensures memory.live == old(memory.live) - Footprint(whole)
  {
    AloneInChain(whole);
    Delete(memory, item, [whole]);
  }
}
