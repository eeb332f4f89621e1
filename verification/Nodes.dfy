/** Nodes and their child lists on the heap: forward chain, back links, and a head whose `prev` is the tail. */
module Nodes {
  import opened Bytes
  import opened Canon
  import opened Json

  /** A string in memory of its own. */
  class Block {
    const text: CString

    constructor (contents: CString)
      ensures text == contents
    {
      text := contents;
    }
  }

  /** `cJSON`: `value` and `name` are the strings behind `valuestring` and `string`. */
  class Node {
    var next: Node?
    var prev: Node?
    var child: Node?
    var kind: int
    var number: int
    var value: Block?
    var name: Block?

    /** A zeroed node. */
    constructor ()
      ensures next == null && prev == null && child == null && value == null && name == null && kind == 0 && number == 0
    {
      next, prev, child, kind, number, value, name := null, null, null, 0, 0, null, null;
    }
  }

  /** Neighbours point at each other. */
  ghost predicate Linked(s: seq<Node>)
    reads s
  {
    forall i :: 0 <= i < |s| ==> (i + 1 < |s| ==> s[i].next == s[i + 1]) && (i > 0 ==> s[i].prev == s[i - 1])
  }

  /** The chain from `s[0]` is exactly `s`. */
  ghost predicate Chain(s: seq<Node>)
    reads s
  {
    NoRepeats(s) && Linked(s) && (s != [] ==> s[|s| - 1].next == null)
  }

  function First(s: seq<Node>): Node? {
    if s == [] then null else s[0]
  }

  /** The children of `parent` are chained, whatever the head's `prev` is. */
  ghost predicate Listed(parent: Node, s: seq<Node>)
    reads parent, s
  {
    parent.child == First(s) && Chain(s)
  }

  /** `s` is the child list of `parent`, in order. */
  ghost predicate Children(parent: Node, s: seq<Node>)
    reads parent, s
  {
    Listed(parent, s) && (s != [] ==> s[0].prev == s[|s| - 1])
  }

  ghost predicate Unlinked(item: Node)
    reads item
  {
    item.next == null && item.prev == null
  }

  lemma InsertedItems<T>(s: seq<T>, i: nat, item: T)
    requires NoRepeats(s) && item !in s && i <= |s|
    ensures var t := s[..i] + [item] + s[i..];
      && NoRepeats(t) && t[i] == item
      && (forall k :: 0 <= k < i ==> t[k] == s[k])
      && (forall k :: i < k <= |s| ==> t[k] == s[k - 1])
  {
  }

  lemma ReplacedItems<T>(s: seq<T>, i: nat, item: T)
    requires NoRepeats(s) && item !in s && i < |s|
    ensures NoRepeats(s[i := item]) && s[i] !in s[i := item]
  {
  }

  lemma RemovedItems<T>(s: seq<T>, i: nat)
    requires NoRepeats(s) && i < |s|
    ensures var t := Without(s, i);
      && NoRepeats(t) && s[i] !in t
      && (forall k :: 0 <= k < i ==> t[k] == s[k])
      && (forall k :: i <= k < |s| - 1 ==> t[k] == s[k + 1])
  {
  }

  /** What the list says about one of its nodes. */
  lemma Around(parent: Node, s: seq<Node>, i: nat)
    requires Children(parent, s) && i < |s|
    ensures s[i].next == if i + 1 < |s| then s[i + 1] else null
    ensures s[i].prev == s[if i > 0 then i - 1 else |s| - 1]
    ensures s[i] == parent.child <==> i == 0
  {
  }

  // ----- list surgery -----

  /** `get_array_item`. */
  method GetArrayItem(parent: Node, which: nat, ghost s: seq<Node>) returns (item: Node?)
    requires Children(parent, s)
    ensures item == if which < |s| then s[which] else null
  {
    var left := which;
    item := parent.child;
    ghost var i := 0;
    while item != null && left > 0
      invariant 0 <= i <= |s| && i + left == which
      invariant item == if i < |s| then s[i] else null
    {
      assert item == s[i];
      assert i + 1 < |s| ==> s[i].next == s[i + 1];
      item := item.next;
      left := left - 1;
      i := i + 1;
    }
  }

  method SuffixObject(prev: Node, item: Node)
    modifies prev`next, item`prev
    ensures prev.next == item && item.prev == prev
  {
    prev.next := item;
    item.prev := prev;
  }

  /** What appending gives when the head's `prev` is the node at `k`: what stands behind that node is cut off. */
  function AppendedAt(s: seq<Node>, k: int, item: Node): seq<Node>
    requires s != [] ==> 0 <= k < |s|
  {
    if s == [] then [item] else s[..k + 1] + [item]
  }

  lemma AppendedBehind(s: seq<Node>, item: Node)
    ensures AppendedAt(s, |s| - 1, item) == s + [item]
  {
    assert s[..|s|] == s;
  }

  /** `add_item_to_array` on any chain whose head has no `prev` or one of the chain's nodes. Without a `prev` nothing
      is written, and yet the answer is yes. */
  method AddItemToArray(parent: Node, item: Node, ghost s: seq<Node>, ghost k: int) returns (ok: bool)
    requires Listed(parent, s) && item !in s && Unlinked(item)
    requires s != [] ==> 0 <= k < |s| && (s[0].prev == null || s[0].prev == s[k])
    modifies parent`child, item`next, item`prev, s`next, s`prev
    ensures ok <==> item != parent
    ensures ok && (s == [] || old(s[0].prev) != null) ==> Children(parent, AppendedAt(s, k, item))
    ensures !ok || (s != [] && old(s[0].prev) == null) ==> Listed(parent, s) && Unlinked(item)
    ensures !ok || (s != [] && old(s[0].prev) == null) ==> forall i :: 0 <= i < |s| ==> s[i].prev == old(s[i].prev)
  {
    if parent == item {
      return false;
    }
    var child := parent.child;
    if child == null {
      parent.child := item;
      item.prev := item;
      item.next := null;
    } else if child.prev != null {
      SuffixObject(child.prev, item);
      parent.child.prev := item;
    }
    ok := true;
  }

  /** The surgery that both ways of detaching share. */
  method TakeOut(parent: Node, item: Node, ghost s: seq<Node>, ghost i: nat)
    requires Children(parent, s) && i < |s| && item == s[i]
    modifies parent`child, s`next, s`prev
    ensures Unlinked(item) && Children(parent, Without(s, i))
  {
    Around(parent, s, i);
    RemovedItems(s, i);
    if item != parent.child {
      item.prev.next := item.next;
    }
    if item.next != null {
      item.next.prev := item.prev;
    }
    if item == parent.child {
      parent.child := item.next;
    } else if item.next == null {
      parent.child.prev := item.prev;
    }
    item.prev := null;
    item.next := null;
  }

  /** `cJSON_DetachItemViaPointer` on an item of the list. */
  method DetachItemViaPointer(parent: Node, item: Node, ghost s: seq<Node>, ghost i: nat) returns (detached: Node?)
    requires Children(parent, s) && i < |s| && item == s[i]
    modifies parent`child, s`next, s`prev
    ensures detached == item && Unlinked(item)
    ensures Children(parent, Without(s, i))
  {
    Around(parent, s, i);
    if item != parent.child && item.prev == null {
      return null;
    }
    TakeOut(parent, item, s, i);
    detached := item;
  }

  /** `detach_item_from_array`: by place. */
  method DetachItemFromArray(parent: Node, which: nat, ghost s: seq<Node>) returns (detached: Node?)
    requires Children(parent, s)
    modifies parent`child, s`next, s`prev
    ensures detached == if which < |s| then s[which] else null
    ensures Children(parent, if which < |s| then Without(s, which) else s)
    ensures detached != null ==> Unlinked(detached)
  {
    detached := GetArrayItem(parent, which, s);
    if detached != null {
      TakeOut(parent, detached, s, which);
    }
  }

  /** `cJSON_InsertItemInArray`: behind the last element when there is no element `which`. */
  method InsertItemInArray(parent: Node, which: int, item: Node, ghost s: seq<Node>) returns (ok: bool)
    requires Children(parent, s) && item !in s && item != parent && Unlinked(item)
    modifies parent`child, item`next, item`prev, s`next, s`prev
    ensures ok <==> which >= 0
    ensures Children(parent, if which < 0 then s else if which < |s| then s[..which] + [item] + s[which..] else s + [item])
  {
    if which < 0 {
      return false;
    }
    var after := GetArrayItem(parent, which, s);
    if after == null {
      AppendedBehind(s, item);
      ok := AddItemToArray(parent, item, s, |s| - 1);
      return;
    }
    Around(parent, s, which);
    if after != parent.child && after.prev == null {
      return false;
    }
    LinkBefore(parent, after, item, s, which);
    ok := true;
  }

  /** `insert_item_in_array`: refuses a place beyond the end. */
  method InsertItemInArrayStrict(parent: Node, which: nat, item: Node, ghost s: seq<Node>) returns (ok: bool)
    requires Children(parent, s) && item !in s && item != parent && Unlinked(item)
    modifies parent`child, item`next, item`prev, s`next, s`prev
    ensures ok <==> which <= |s|
    ensures Children(parent, if which <= |s| then s[..which] + [item] + s[which..] else s)
  {
    var child, left := parent.child, which;
    ghost var i := 0;
    while child != null && left > 0
      invariant 0 <= i <= |s| && i + left == which
      invariant child == if i < |s| then s[i] else null
    {
      assert child == s[i];
      assert i + 1 < |s| ==> s[i].next == s[i + 1];
      child := child.next;
      left := left - 1;
      i := i + 1;
    }
    if left > 0 {
      return false;
    }
    if child == null {
      assert s[..which] + [item] + s[which..] == s + [item];
      AppendedBehind(s, item);
      ok := AddItemToArray(parent, item, s, |s| - 1);
      return;
    }
    LinkBefore(parent, child, item, s, which);
    ok := true;
  }

  method LinkBefore(parent: Node, after: Node, item: Node, ghost s: seq<Node>, ghost i: nat)
    requires Children(parent, s) && item !in s && i < |s| && after == s[i]
    modifies parent`child, item`next, item`prev, s`next, s`prev
    ensures Children(parent, s[..i] + [item] + s[i..])
  {
    Around(parent, s, i);
    InsertedItems(s, i, item);
    item.next := after;
    item.prev := after.prev;
    after.prev := item;
    if after == parent.child {
      parent.child := item;
    } else {
      item.prev.next := item;
    }
  }

  /** `cJSON_ReplaceItemViaPointer` up to the deletion of the replaced item. */
  method ReplaceItemViaPointer(parent: Node, item: Node, replacement: Node, ghost s: seq<Node>, ghost i: nat) returns (ok: bool)
    requires Children(parent, s) && i < |s| && item == s[i] && (replacement == item || replacement !in s)
    modifies parent`child, replacement`next, replacement`prev, s`next, s`prev
    ensures ok && Children(parent, s[i := replacement])
    ensures replacement != item ==> Unlinked(item)
  {
    if replacement == item {
      return true;
    }
    Around(parent, s, i);
    ReplacedItems(s, i, replacement);
    replacement.next := item.next;
    replacement.prev := item.prev;
    if replacement.next != null {
      replacement.next.prev := replacement;
    }
    if parent.child == item {
      if parent.child.prev == parent.child {
        replacement.prev := replacement;
      }
      parent.child := replacement;
    } else {
      if replacement.prev != null {
        replacement.prev.next := replacement;
      }
      if replacement.next == null {
        parent.child.prev := replacement;
      }
    }
    item.next := null;
    item.prev := null;
    ok := true;
  }
}
