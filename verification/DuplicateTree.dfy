/** `duplicate_rec` on the heap, with an allocator that may refuse. */
module DuplicateTree {
  import opened Json
  import opened Nodes
  import opened Ownership

  // ----- chains from their parts -----

  lemma {:induction false} FootprintsSnoc(chain: seq<Shape>, s: Shape)
    ensures Footprints(chain + [s]) == Footprints(chain) + Footprint(s)
  {
    hide Footprint;
    if chain == [] {
      assert [s][1..] == [] && chain + [s] == [s];
    } else {
      assert (chain + [s])[1..] == chain[1..] + [s];
      FootprintsSnoc(chain[1..], s);
    }
  }

  lemma {:induction false} ApartSnoc(chain: seq<Shape>, s: Shape)
    requires Apart(chain) && Separate(s) && Footprints(chain) !! Footprint(s)
    ensures Apart(chain + [s])
  {
    hide Footprint, Separate;
    if chain == [] {
      assert [s][1..] == [] && chain + [s] == [s];
    } else {
      assert (chain + [s])[1..] == chain[1..] + [s];
      ApartSnoc(chain[1..], s);
      FootprintsSnoc(chain[1..], s);
    }
  }

  lemma FootprintsTail(chain: seq<Shape>)
    requires chain != []
    ensures Footprints(chain) == Footprint(chain[0]) + Footprints(chain[1..])
  {
    hide Footprint;
  }

  lemma {:induction false} PartOf(chain: seq<Shape>, i: nat)
    requires i < |chain|
    ensures Footprint(chain[i]) <= Footprints(chain)
  {
    hide Footprint, Footprints;
    FootprintsTail(chain);
    if i > 0 {
      PartOf(chain[1..], i - 1);
    }
  }

  /** No node of a chain is part of what hangs below another, or below itself. */
  lemma {:induction false} ApartNodes(chain: seq<Shape>, i: nat, k: nat)
    requires i < |chain| && k < |chain| && Apart(chain)
    ensures chain[i].node !in Footprints(chain[k].children)
    ensures i != k ==> chain[i].node != chain[k].node
  {
    if i == 0 || k == 0 {
      if i > 0 { PartOf(chain[1..], i - 1); }
      if k > 0 { PartOf(chain[1..], k - 1); }
    } else {
      ApartNodes(chain[1..], i - 1, k - 1);
    }
  }

  ghost function NextNode(chain: seq<Shape>, i: nat): Node? {
    if i < |chain| then chain[i].node else null
  }

  /** How siblings are linked, one by one. */
  ghost predicate LinkedAt(kids: seq<Shape>, i: nat)
    requires i < |kids|
    reads kids[i].node
  {
    kids[i].node.next == NextNode(kids, i + 1) && (i > 0 ==> kids[i].node.prev == kids[i - 1].node)
  }

  lemma {:induction false} ChainedFromParts(chain: seq<Shape>)
    requires forall i :: 0 <= i < |chain| ==> Owns(chain[i]) && LinkedAt(chain, i)
    ensures Chained(chain)
  {
    hide Owns;
    if chain != [] {
      var rest := chain[1..];
      forall i | 0 <= i < |rest| ensures Owns(rest[i]) && LinkedAt(rest, i) {
        assert rest[i] == chain[i + 1] && LinkedAt(chain, i + 1);
      }
      assert LinkedAt(chain, 0);
      ChainedFromParts(rest);
    }
  }

  lemma {:induction false} AllLaidFromParts(chain: seq<Shape>)
    requires forall i :: 0 <= i < |chain| ==> Laid(chain[i])
    ensures AllLaid(chain)
  {
    if chain != [] {
      AllLaidFromParts(chain[1..]);
    }
  }

  lemma {:induction false} MeaningsAt(chain: seq<Shape>, i: nat)
    requires i < |chain|
    ensures |Meanings(chain)| == |chain| && Meanings(chain)[i] == Meaning(chain[i])
  {
    hide Meaning;
    MeaningsLength(chain);
    if i > 0 {
      MeaningsAt(chain[1..], i - 1);
    }
  }

  lemma {:induction false} MeaningsLength(chain: seq<Shape>)
    ensures |Meanings(chain)| == |chain|
  {
    if chain != [] {
      MeaningsLength(chain[1..]);
    }
  }

  // ----- the copied children so far -----

  /** The copies, each whole in itself, linked to each other but not yet from the head back to the tail. */
  ghost predicate Copies(kids: seq<Shape>, originals: seq<Shape>)
    requires |kids| <= |originals|
    reads Footprints(kids), Footprints(originals)
  {
    Apart(kids) && Linked(NodesOf(kids))
    && (kids != [] ==> kids[|kids| - 1].node.next == null)
    && (forall i {:trigger kids[i]} :: 0 <= i < |kids| ==>
         (PartOf(kids, i); PartOf(originals, i); Owns(kids[i]) && Laid(kids[i]) && Meaning(kids[i]) == Meaning(originals[i])))
  }

  lemma CopiesNothing(originals: seq<Shape>)
    ensures Copies([], originals)
  {
  }

  /** The root of one copy is no part of what hangs below any copy, or of the originals. */
  lemma KidElsewhere(kids: seq<Shape>, originals: seq<Shape>, k: nat, i: nat)
    requires k < |kids| && i < |kids| <= |originals| && Apart(kids) && Footprints(kids) !! Footprints(originals)
    ensures kids[k].node !in Footprints(kids[i].children) && kids[k].node !in Footprints(originals[i].children)
    ensures kids[k].node != originals[i].node && (i != k ==> kids[k].node != kids[i].node)
  {
    hide Footprint, Footprints, Apart;
    ApartNodes(kids, k, i);
    PartOf(kids, k);
    RootOf(kids[k]);
    PartOf(originals, i);
    RootOf(originals[i]);
  }

  /** A new node is no part of the copies or of the originals. */
  lemma NewElsewhere(copy: Node, chain: seq<Shape>, i: nat)
    requires i < |chain| && copy !in Footprints(chain)
    ensures copy !in Footprints(chain[i].children) && copy != chain[i].node
  {
    hide Footprint, Footprints;
    PartOf(chain, i);
    RootOf(chain[i]);
  }

  /** One more copy, linked behind the last. */
  method LinkCopy(next: Node?, copy: Node, ghost kids: seq<Shape>, ghost kid: Shape, ghost originals: seq<Shape>)
    requires |kids| < |originals| && Copies(kids, originals) && next == if kids == [] then null else kids[|kids| - 1].node
    requires kid.node == copy && Owns(kid) && Laid(kid) && Separate(kid) && Meaning(kid) == Meaning(originals[|kids|]) && Unlinked(copy)
    requires Footprint(kid) !! Footprints(kids) && Footprint(kid) + Footprints(kids) !! Footprints(originals)
    modifies (if kids == [] then {} else {kids[|kids| - 1].node})`next, copy`prev
    ensures Copies(kids + [kid], originals)
  {
    hide Footprint, Footprints, Separate, Apart, Owns, Laid, Meaning, NodesOf;
    ApartSnoc(kids, kid);
    RootOf(kid);
    NotBelowItself(kid);
    NewElsewhere(copy, originals, |kids|);
    if next != null {
      LastOf(kids);
      NewElsewhere(next, originals, |kids|);
    }
    forall i | 0 <= i < |kids|
      ensures copy !in Footprints(kids[i].children) && (next != null ==> next !in Footprints(kids[i].children))
      ensures copy !in Footprints(originals[i].children) && (next != null ==> next !in Footprints(originals[i].children))
      ensures copy != kids[i].node && copy != originals[i].node && next != originals[i].node && (i < |kids| - 1 ==> kids[i].node != next)
    {
      KidElsewhere(kids, originals, |kids| - 1, i);
      NewElsewhere(copy, kids, i);
      NewElsewhere(copy, originals, i);
    }
    if next != null {
      next.next := copy;
      copy.prev := next;
    }
    ghost var longer := kids + [kid];
    forall i | 0 <= i < |longer|
      ensures Owns(longer[i]) && Laid(longer[i]) && Meaning(longer[i]) == Meaning(originals[i])
    {
      assert longer[i] == if i < |kids| then kids[i] else kid;
    }
    assert Linked(NodesOf(longer));
  }

  lemma RootOf(s: Shape)
    ensures s.node in Footprint(s) && Footprints(s.children) <= Footprint(s)
  {
  }

  lemma NotBelowItself(s: Shape)
    requires Separate(s)
    ensures s.node !in Footprints(s.children)
  {
  }

  // ----- the duplicate -----

  lemma AloneInChain(s: Shape)
    requires Owns(s) && Separate(s) && s.node.next == null
    ensures Chained([s]) && Apart([s]) && Footprints([s]) == Footprint(s)
  {
    hide Owns, Footprint, Separate;
    assert [s][1..] == [];
    assert Footprints([]) == {};
    assert Chained([]) && Apart([]);
  }

  lemma Childless(s: Shape)
    requires s.children == []
    ensures Footprint(s) == Own(s) && (Separate(s) <==> s.value == null || s.value != s.name)
  {
  }

  /** The node itself with its strings; what was allocated is freed again if an allocation is refused. */
  method NewCopy(memory: Memory, item: Node, ghost s: Shape) returns (copy: Node?)
    requires item == s.node && item.value == s.value && item.name == s.name && memory !in memory.live
    modifies memory
    ensures copy == null ==> memory.live == old(memory.live) && memory.refused
    ensures copy != null ==>
      && memory.refused == old(memory.refused) && fresh(copy) && Unlinked(copy) && copy.child == null
      && var t := Shape(copy, copy.value, copy.name, []);
      && fresh(Own(t)) && memory.live == old(memory.live) + Own(t) && (t.value == null || t.value != t.name)
      && Meaning(t) == Tree(item.kind, item.number, Contents(s.value), Contents(s.name), [])
  {
    var newItem := memory.NewNode();
    if newItem == null {
      return null;
    }
    newItem.kind := item.kind;
    newItem.number := item.number;
    if item.value != null {
      var text := memory.Strdup(item.value.text);
      if text == null {
        Childless(Shape(newItem, null, null, []));
        AloneInChain(Shape(newItem, null, null, []));
        Delete(memory, newItem, [Shape(newItem, null, null, [])]);
        return null;
      }
      newItem.value := text;
    }
    if item.name != null {
      var text := memory.Strdup(item.name.text);
      if text == null {
        Childless(Shape(newItem, newItem.value, null, []));
        AloneInChain(Shape(newItem, newItem.value, null, []));
        Delete(memory, newItem, [Shape(newItem, newItem.value, null, [])]);
        return null;
      }
      newItem.name := text;
    }
    return newItem;
  }

  /** The node without its children. */
  function Bare(node: Node): Shape
    reads node`value, node`name
  {
    Shape(node, node.value, node.name, [])
  }

  lemma Assembled(t: Shape)
    requires Apart(t.children) && Own(t) !! Footprints(t.children) && (t.value == null || t.value != t.name)
    ensures Separate(t) && Footprint(t) == Own(t) + Footprints(t.children)
  {
  }

  /** Frees a node with the children copied so far. */
  method Abandon(memory: Memory, newItem: Node, ghost kids: seq<Shape>, ghost originals: seq<Shape>)
    requires |kids| <= |originals| && Copies(kids, originals) && newItem.child == Head(kids) && newItem.next == null
    requires Own(Bare(newItem)) !! Footprints(kids) && (newItem.value == null || newItem.value != newItem.name)
    requires Own(Bare(newItem)) + Footprints(kids) <= memory.live && memory !in memory.live
    modifies memory`live
    ensures memory.live == old(memory.live) - Own(Bare(newItem)) - Footprints(kids)
  {
    hide Footprint, Footprints;
    ghost var t := Shape(newItem, newItem.value, newItem.name, kids);
    CopiesChained(kids, originals);
    Assembled(t);
    AloneInChain(t);
    Delete(memory, newItem, [t]);
  }

  lemma CopiesChained(kids: seq<Shape>, originals: seq<Shape>)
    requires |kids| <= |originals| && Copies(kids, originals)
    ensures Chained(kids) && Apart(kids)
  {
    hide Owns, Laid, Meaning, Apart;
    CopiesLinked(kids, originals);
    ChainedFromParts(kids);
  }

  lemma {:induction false} SuffixOf(chain: seq<Shape>, i: nat)
    requires i <= |chain|
    ensures Footprints(chain[i..]) <= Footprints(chain)
  {
    hide Footprint;
    if i > 0 {
      SuffixOf(chain[1..], i - 1);
      assert chain[1..][i - 1..] == chain[i..];
    } else {
      assert chain[0..] == chain;
    }
  }

  lemma NextOriginal(originals: seq<Shape>, i: nat, depth: nat)
    requires i < |originals| && Chained(originals[i..])
    ensures Owns(originals[i]) && originals[i].node.next == Head(originals[i + 1..]) && Chained(originals[i + 1..])
    ensures Footprint(originals[i]) <= Footprints(originals) && originals[i].node in Footprints(originals)
    ensures Footprints(originals[i + 1..]) <= Footprints(originals)
    ensures AllShallow(originals[i..], depth) <==>
      depth < CIRCULAR_LIMIT && Shallow(originals[i], depth + 1) && AllShallow(originals[i + 1..], depth)
  {
    hide Owns, Footprint, Footprints, Shallow;
    assert originals[i..][0] == originals[i] && originals[i..][1..] == originals[i + 1..];
    PartOf(originals, i);
    SuffixOf(originals, i + 1);
    RootOf(originals[i]);
  }

  lemma AllShallowNothing(depth: nat)
    ensures AllShallow([], depth)
  {
  }

  lemma NoFootprints()
    ensures Footprints([]) == {}
  {
  }

  lemma OwnNode(s: Shape)
    ensures s.node in Own(s)
  {
  }

  lemma LastOf(kids: seq<Shape>)
    requires kids != []
    ensures kids[|kids| - 1].node in Footprints(kids) && kids[0].node in Footprints(kids)
  {
    hide Footprint, Footprints;
    PartOf(kids, |kids| - 1);
    PartOf(kids, 0);
    RootOf(kids[|kids| - 1]);
    RootOf(kids[0]);
  }

  /** The loop over the children; on failure the new item and what was copied are freed. */
  method CopyChildren(memory: Memory, newItem: Node, first: Node?, depth: nat, ghost originals: seq<Shape>)
    returns (ok: bool, last: Node?, ghost kids: seq<Shape>)
    requires first == Head(originals) && Chained(originals) && Footprints(originals) <= memory.live && memory !in memory.live
    requires Unlinked(newItem) && newItem.child == null && (newItem.value == null || newItem.value != newItem.name)
    requires Own(Bare(newItem)) <= memory.live && Own(Bare(newItem)) !! Footprints(originals)
    modifies memory, newItem`child
    ensures ok ==>
      && |kids| == |originals| && Copies(kids, originals) && newItem.child == Head(kids)
      && last == (if kids == [] then null else kids[|kids| - 1].node)
      && fresh(Footprints(kids)) && memory.live == old(memory.live) + Footprints(kids)
      && memory.refused == old(memory.refused) && AllShallow(originals, depth)
    ensures !ok ==> memory.live == old(memory.live) - old(Own(Bare(newItem))) && (memory.refused || !AllShallow(originals, depth))
    decreases originals, 2
  {
    hide Footprint, Footprints, Copies, AllShallow, Shallow, Meaning, Owns, Laid, Separate, Apart, Chained, Own;
    var child := first;
    assert originals[0..] == originals && Footprints([]) == {} by { NoFootprints(); }
    last := null;
    kids := [];
    CopiesNothing(originals);
    ghost var i := 0;
    while child != null
      invariant 0 <= i == |kids| <= |originals| && child == Head(originals[i..]) && Chained(originals[i..])
      invariant Copies(kids, originals) && newItem.child == Head(kids)
      invariant last == if kids == [] then null else kids[|kids| - 1].node
      invariant fresh(Footprints(kids)) && memory.live == old(memory.live) + Footprints(kids)
      invariant memory.refused == old(memory.refused) && AllShallow(originals, depth) == AllShallow(originals[i..], depth)
      decreases |originals| - i
    {
      NextOriginal(originals, i, depth);
      OwnNode(Bare(newItem));
      if kids != [] {
        LastOf(kids);
      }
      if depth >= CIRCULAR_LIMIT {
        Abandon(memory, newItem, kids, originals);
        return false, null, [];
      }
      var newChild, kid := Duplicate(memory, child, depth + 1, originals[i]);
      if newChild == null {
        Abandon(memory, newItem, kids, originals);
        return false, null, [];
      }
      FootprintsSnoc(kids, kid);
      RootOf(kid);
      LinkCopy(last, newChild, kids, kid, originals);
      if last == null {
        newItem.child := newChild;
      }
      last := newChild;
      child := child.next;
      kids := kids + [kid];
      i := i + 1;
    }
    assert i == |originals| && originals[i..] == [];
    AllShallowNothing(depth);
    return true, last, kids;
  }

  lemma CopiesLinked(kids: seq<Shape>, originals: seq<Shape>)
    requires |kids| <= |originals| && Copies(kids, originals)
    ensures forall i :: 0 <= i < |kids| ==> LinkedAt(kids, i)
    ensures Apart(kids)
  {
    hide Owns, Laid, Meaning, Apart, NodesOf;
    forall i | 0 <= i < |kids| ensures LinkedAt(kids, i) {
      assert NodesOf(kids)[i] == kids[i].node;
    }
  }

  lemma LinksFromParts(kids: seq<Shape>)
    requires Apart(kids) && forall i :: 0 <= i < |kids| ==> LinkedAt(kids, i)
    requires kids != [] ==> kids[0].node.prev == kids[|kids| - 1].node
    ensures ChildLinks(NodesOf(kids))
  {
    hide Apart, NodesOf;
    DistinctNodes(kids);
    var nodes := NodesOf(kids);
    assert kids != [] ==> nodes[0] == kids[0].node && nodes[|nodes| - 1] == kids[|kids| - 1].node;
    forall i | 0 <= i < |nodes|
      ensures nodes[i].next == (if i + 1 < |nodes| then nodes[i + 1] else null) && (i > 0 ==> nodes[i].prev == nodes[i - 1])
    {
      assert LinkedAt(kids, i);
    }
    if kids != [] {
      assert LinkedAt(kids, |kids| - 1) && nodes[|kids| - 1].next == null;
    }
  }

  /** Completes the list: the head points back at the tail. */
  method CloseList(head: Node?, last: Node?, ghost kids: seq<Shape>, ghost originals: seq<Shape>)
    requires |kids| == |originals| && Copies(kids, originals) && Footprints(kids) !! Footprints(originals)
    requires head == Head(kids) && last == if kids == [] then null else kids[|kids| - 1].node
    modifies (if kids == [] then {} else {kids[0].node})`prev
    ensures Chained(kids) && AllLaid(kids) && ChildLinks(NodesOf(kids)) && Meanings(kids) == Meanings(originals)
  {
    hide Footprint, Footprints, Owns, Laid, Meaning, Apart, Chained, AllLaid, Meanings, NodesOf, ChildLinks, Linked;
    CopiesLinked(kids, originals);
    forall i | 0 <= i < |kids|
      ensures head !in Footprints(kids[i].children) && head !in Footprints(originals[i].children) && head != originals[i].node
      ensures i > 0 ==> kids[i].node != head
    {
      KidElsewhere(kids, originals, 0, i);
    }
    label Before:
    if head != null {
      head.prev := last;
    }
    forall i | 0 <= i < |kids| ensures LinkedAt(kids, i) {
      assert old@Before(LinkedAt(kids, i));
      assert kids[i].node.next == old@Before(kids[i].node.next);
      assert i > 0 ==> kids[i].node.prev == old@Before(kids[i].node.prev);
    }
    forall i | 0 <= i < |kids| ensures Owns(kids[i]) && Laid(kids[i]) && Meaning(kids[i]) == Meaning(originals[i]) {
    }
    ChainedFromParts(kids);
    AllLaidFromParts(kids);
    SameMeanings(kids, originals);
    LinksFromParts(kids);
  }

  lemma DistinctNodes(kids: seq<Shape>)
    requires Apart(kids)
    ensures NoRepeats(NodesOf(kids))
  {
    hide Apart;
    forall i, k | 0 <= i < k < |kids| ensures NodesOf(kids)[i] != NodesOf(kids)[k] {
      ApartNodes(kids, i, k);
    }
  }

  lemma SameMeanings(kids: seq<Shape>, originals: seq<Shape>)
    requires |kids| == |originals| && forall i :: 0 <= i < |kids| ==> Meaning(kids[i]) == Meaning(originals[i])
    ensures Meanings(kids) == Meanings(originals)
  {
    hide Meaning, Meanings;
    MeaningsLength(kids);
    MeaningsLength(originals);
    forall i | 0 <= i < |kids| ensures Meanings(kids)[i] == Meanings(originals)[i] {
      MeaningsAt(kids, i);
      MeaningsAt(originals, i);
    }
  }

  /** `duplicate_rec`. It gives nothing exactly when an allocation was refused or the tree is too deep, and then it
      holds on to nothing; otherwise the copy is a tree of new objects that says the same, completely linked. */
  method Duplicate(memory: Memory, item: Node, depth: nat, ghost s: Shape) returns (copy: Node?, ghost t: Shape)
    requires item == s.node && Owns(s) && Footprint(s) <= memory.live && memory !in memory.live
    modifies memory
    ensures copy == null ==> memory.live == old(memory.live) && (memory.refused || !Shallow(s, depth))
    ensures copy != null ==>
      && t.node == copy && Owns(t) && Laid(t) && Separate(t) && Meaning(t) == Meaning(s) && Unlinked(copy)
      && fresh(Footprint(t)) && memory.live == old(memory.live) + Footprint(t)
      && memory.refused == old(memory.refused) && Shallow(s, depth)
    decreases s, 1
  {
    hide Footprint, Footprints, Copies, Apart, Chained, AllLaid, Meanings, AllShallow, Laid, Separate, Own;
    t := s;
    RootOf(s);
    copy := NewCopy(memory, item, s);
    if copy == null {
      return;
    }
    var ok, last, kids := CopyChildren(memory, copy, item.child, depth, s.children);
    if !ok {
      copy := null;
      return;
    }
    if kids != [] {
      LastOf(kids);
    }
    t := Complete(copy, last, kids, s.children);
  }

  method Complete(copy: Node, last: Node?, ghost kids: seq<Shape>, ghost originals: seq<Shape>) returns (ghost t: Shape)
    requires |kids| == |originals| && Copies(kids, originals) && Footprints(kids) !! Footprints(originals)
    requires copy.child == Head(kids) && last == if kids == [] then null else kids[|kids| - 1].node
    requires Own(Bare(copy)) !! Footprints(kids) && (copy.value == null || copy.value != copy.name)
    modifies (if kids == [] then {} else {kids[0].node})`prev
    ensures t == Shape(copy, copy.value, copy.name, kids)
    ensures Owns(t) && Laid(t) && Separate(t) && Footprint(t) == Own(Bare(copy)) + Footprints(kids)
    ensures Meaning(t) == Tree(copy.kind, copy.number, Contents(copy.value), Contents(copy.name), Meanings(originals))
  {
    hide Footprint, Footprints, Copies, Apart, Chained, AllLaid, Meanings, Separate;
    CopiesChained(kids, originals);
    if kids != [] {
      LastOf(kids);
    }
    CloseList(copy.child, last, kids, originals);
    t := Shape(copy, copy.value, copy.name, kids);
    Assembled(t);
  }
}
