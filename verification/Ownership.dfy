/** Trees of nodes and the memory they own: deleting, and duplicating with an allocator that may fail. */
module Ownership {
  import opened Bytes
  import opened Json
  import opened Nodes

  /** The allocator: it may refuse at any call. */
  class Memory {
    ghost var live: set<object>
    ghost var refused: bool

    method NewNode() returns (node: Node?)
      modifies this
      ensures node == null ==> live == old(live) && refused
      ensures node != null ==> fresh(node) && live == old(live) + {node} && refused == old(refused)
      ensures node != null ==> Unlinked(node) && node.child == null && node.value == null && node.name == null && node.kind == 0 && node.number == 0
    {
      var refuses: bool := *;
      if refuses {
        refused := true;
        return null;
      }
      node := new Node();
      live := live + {node};
    }

    method Strdup(text: CString) returns (copy: Block?)
      modifies this
      ensures copy == null ==> live == old(live) && refused
      ensures copy != null ==> fresh(copy) && copy.text == text && live == old(live) + {copy} && refused == old(refused)
    {
      var refuses: bool := *;
      if refuses {
        refused := true;
        return null;
      }
      copy := new Block(text);
      live := live + {copy};
    }

    method Free(o: object)
      requires o in live
      modifies this`live
      ensures live == old(live) - {o}
    {
      live := live - {o};
    }
  }

  /** Which objects make up a tree: the node, its strings, and the trees of its children in order. */
  datatype Shape = Shape(node: Node, value: Block?, name: Block?, children: seq<Shape>)

  function Own(s: Shape): set<object> {
    {s.node} + (if s.value == null then {} else {s.value}) + (if s.name == null then {} else {s.name})
  }

  function Footprint(s: Shape): set<object>
    decreases s
  {
    Own(s) + Footprints(s.children)
  }

  function Footprints(chain: seq<Shape>): set<object>
    decreases chain
  {
    if chain == [] then {} else Footprint(chain[0]) + Footprints(chain[1..])
  }

  lemma FootprintParts(chain: seq<Shape>)
    requires chain != []
    ensures chain[0].node in Footprints(chain)
    ensures Footprints(chain[0].children) <= Footprints(chain) && Footprints(chain[1..]) <= Footprints(chain)
  {
    assert Footprints(chain) == Footprint(chain[0]) + Footprints(chain[1..]);
  }

  /** No object has two places in the tree. */
  predicate Separate(s: Shape)
    decreases s, 0
  {
    (s.value == null || s.value != s.name) && Own(s) !! Footprints(s.children) && Apart(s.children)
  }

  predicate Apart(chain: seq<Shape>)
    decreases chain, 0
  {
    chain != [] ==> Separate(chain[0]) && Footprint(chain[0]) !! Footprints(chain[1..]) && Apart(chain[1..])
  }

  function Head(chain: seq<Shape>): Node? {
    if chain == [] then null else chain[0].node
  }

  /** The node's fields point at what the shape says. The links to its own siblings are not among them. */
  ghost predicate Owns(s: Shape)
    reads s.node`value, s.node`name, s.node`child, Footprints(s.children)
    decreases s, 0
  {
    s.node.value == s.value && s.node.name == s.name && s.node.child == Head(s.children) && Chained(s.children)
  }

  /** The trees of a sibling chain that ends with it. */
  ghost predicate Chained(chain: seq<Shape>)
    reads Footprints(chain)
    decreases chain, 0
  {
    chain != [] ==> (FootprintParts(chain); Owns(chain[0])) && chain[0].node.next == Head(chain[1..]) && Chained(chain[1..])
  }

  function NodesOf(chain: seq<Shape>): (nodes: seq<Node>)
    ensures |nodes| == |chain| && forall i :: 0 <= i < |chain| ==> nodes[i] == chain[i].node
    ensures forall n :: n in nodes ==> n in Footprints(chain)
  {
    if chain == [] then [] else FootprintParts(chain); [chain[0].node] + NodesOf(chain[1..])
  }

  /** Every child list in the tree has its back links and the link from its head to its tail. */
  ghost predicate Laid(s: Shape)
    reads s.node`child, Footprints(s.children)
    decreases s, 0
  {
    s.node.child == First(NodesOf(s.children)) && ChildLinks(NodesOf(s.children)) && AllLaid(s.children)
  }

  ghost predicate ChildLinks(nodes: seq<Node>)
    reads nodes
  {
    Chain(nodes) && (nodes != [] ==> nodes[0].prev == nodes[|nodes| - 1])
  }

  ghost predicate AllLaid(chain: seq<Shape>)
    reads Footprints(chain)
    decreases chain, 0
  {
    chain != [] ==> (FootprintParts(chain); Laid(chain[0])) && AllLaid(chain[1..])
  }

  // ----- what a tree says -----

  datatype Tree = Tree(kind: int, number: int, value: Option<CString>, name: Option<CString>, children: seq<Tree>)

  function Contents(block: Block?): Option<CString> {
    if block == null then None else Some(block.text)
  }

  ghost function Meaning(s: Shape): Tree
    reads s.node`kind, s.node`number, Footprints(s.children)
    decreases s, 0
  {
    Tree(s.node.kind, s.node.number, Contents(s.value), Contents(s.name), Meanings(s.children))
  }

  ghost function Meanings(chain: seq<Shape>): seq<Tree>
    reads Footprints(chain)
    decreases chain, 0
  {
    if chain == [] then [] else FootprintParts(chain); [Meaning(chain[0])] + Meanings(chain[1..])
  }

  /** No child lies deeper than `duplicate_rec` goes. */
  predicate Shallow(s: Shape, depth: nat)
    decreases s, 0
  {
    AllShallow(s.children, depth)
  }

  predicate AllShallow(chain: seq<Shape>, depth: nat)
    decreases chain, 0
  {
    chain != [] ==> depth < CIRCULAR_LIMIT && Shallow(chain[0], depth + 1) && AllShallow(chain[1..], depth)
  }

  /** `cJSON_Delete`: frees every block of the chain exactly once. */
  method Delete(memory: Memory, item: Node?, ghost chain: seq<Shape>)
    requires item == Head(chain) && Chained(chain) && Apart(chain) && Footprints(chain) <= memory.live
    requires memory !in Footprints(chain)
    modifies memory`live
    ensures memory.live == old(memory.live) - Footprints(chain)
    decreases chain, 1
  {
    hide Footprint;
    var current := item;
    ghost var rest := chain;
    while current != null
      invariant current == Head(rest) && Chained(rest) && Apart(rest) && Footprints(rest) <= memory.live
      invariant memory !in Footprints(rest)
      invariant memory.live - Footprints(rest) == old(memory.live) - Footprints(chain)
      decreases rest
    {
      var next := current.next;
      DeleteNode(memory, current, rest[0]);
      current := next;
      rest := rest[1..];
    }
  }

  /** One node with its children and its strings. */
  method DeleteNode(memory: Memory, item: Node, ghost s: Shape)
    requires item == s.node && Owns(s) && Separate(s) && Footprint(s) <= memory.live && memory !in Footprint(s)
    modifies memory`live
    ensures memory.live == old(memory.live) - Footprint(s)
    decreases s, 0
  {
    hide Chained, Apart;
    if item.child != null {
      Delete(memory, item.child, s.children);
    }
    if item.value != null {
      memory.Free(item.value);
    }
    if item.name != null {
      memory.Free(item.name);
    }
    memory.Free(item);
  }
}
