/** The merge sort on linked nodes, in place. */
module SortList {
  import opened Bytes
  import opened Json
  import opened MergeSort
  import opened Nodes

  /** The texts the nodes' names hold. */
  type Keys = map<Node, CString>

  function KeyOf(keys: Keys, n: Node): CString {
    if n in keys then keys[n] else []
  }

  /** Every node has a name, and `keys` says which. Sorting does not touch the names. */
  ghost predicate Named(s: seq<Node>, keys: Keys)
    reads s`name
  {
    forall i :: 0 <= i < |s| ==> s[i].name != null && s[i].name.text == KeyOf(keys, s[i])
  }

  /** The nodes with their keys, as the sorting function sees them. */
  function Items(s: seq<Node>, keys: Keys): (r: seq<Keyed<Node>>)
    ensures |r| == |s|
  {
    seq(|s|, i requires 0 <= i < |s| => Keyed(KeyOf(keys, s[i]), s[i]))
  }

  /** From `i` on, the nodes of `s` are chained to the end. */
  ghost predicate ChainFrom(s: seq<Node>, i: nat)
    requires i <= |s|
    reads s
  {
    forall j :: i <= j < |s| ==> s[j].next == NodeAt(s, j + 1) && (j > i ==> s[j].prev == s[j - 1])
  }

  function AsSet<T>(s: seq<T>): set<T> { set x | x in s }

  function NodeAt(s: seq<Node>, i: nat): Node? {
    if i < |s| then s[i] else null
  }

  /** What has been taken so far: all of one chain up to `i` and of the other up to `k`. */
  ghost predicate Taken(a: seq<Node>, b: seq<Node>, i: nat, k: nat, done: seq<Node>)
    requires i <= |a| && k <= |b|
  {
    && NoRepeats(a) && NoRepeats(b) && (forall n :: n in a ==> n !in b)
    && NoRepeats(done) && AsSet(done) == AsSet(a[..i]) + AsSet(b[..k])
  }

  lemma InPrefix<T>(s: seq<T>, n: nat, x: T)
    requires n <= |s|
    ensures x in s[..n] ==> x in s
  {
  }

  lemma Untaken(a: seq<Node>, b: seq<Node>, i: nat, k: nat, done: seq<Node>)
    requires i <= |a| && k <= |b| && Taken(a, b, i, k, done)
    ensures NoRepeats(done) && NoRepeats(a) && NoRepeats(b)
    ensures forall j :: i <= j < |a| ==> a[j] !in done
    ensures forall j :: k <= j < |b| ==> b[j] !in done
  {
    forall j | i <= j < |a| ensures a[j] !in done {
      InPrefix(b, k, a[j]);
      assert a[j] in a && a[j] !in a[..i] && a[j] !in AsSet(done);
    }
    forall j | k <= j < |b| ensures b[j] !in done {
      InPrefix(a, i, b[j]);
      assert b[j] in b && b[j] !in b[..k] && b[j] !in AsSet(done);
    }
  }

  lemma TakesNext(a: seq<Node>, b: seq<Node>, i: nat, k: nat, done: seq<Node>)
    requires i < |a| && k <= |b| && Taken(a, b, i, k, done)
    ensures a[i] !in done && Taken(a, b, i + 1, k, done + [a[i]])
  {
    Untaken(a, b, i, k, done);
    assert a[..i + 1] == a[..i] + [a[i]];
    assert AsSet(a[..i + 1]) == AsSet(a[..i]) + {a[i]} && AsSet(done + [a[i]]) == AsSet(done) + {a[i]};
  }

  lemma TakesAll(a: seq<Node>, b: seq<Node>, i: nat, k: nat, done: seq<Node>)
    requires i <= |a| && k == |b| && Taken(a, b, i, k, done)
    ensures NoRepeats(done + a[i..]) && AsSet(done + a[i..]) == AsSet(a) + AsSet(b)
  {
    Untaken(a, b, i, k, done);
    assert a == a[..i] + a[i..] && b[..k] == b;
    assert AsSet(a) == AsSet(a[..i]) + AsSet(a[i..]) && AsSet(done + a[i..]) == AsSet(done) + AsSet(a[i..]);
  }

  /** What is still to be merged behind what has been. */
  ghost predicate Merging(a: seq<Node>, b: seq<Node>, i: nat, k: nat, done: seq<Node>, caseSensitive: bool, keys: Keys)
    requires i <= |a| && k <= |b|
  {
    Items(done, keys) + Merge(Items(a[i..], keys), Items(b[k..], keys), caseSensitive) == Merge(Items(a, keys), Items(b, keys), caseSensitive)
  }

  /** Appends a node behind the tail of the merged chain. */
  method Append(result: Node?, tail: Node?, smaller: Node, ghost done: seq<Node>) returns (head: Node)
    requires Linked(done) && NoRepeats(done) && smaller !in done
    requires result == First(done) && tail == if done == [] then null else done[|done| - 1]
    modifies (if done == [] then {} else {done[|done| - 1]})`next, smaller`prev
    ensures head == First(done + [smaller]) && Linked(done + [smaller])
    ensures done == [] ==> smaller.prev == old(smaller.prev)
  {
    if result == null {
      return smaller;
    }
    tail.next := smaller;
    smaller.prev := tail;
    return result;
  }

  lemma MergingStarts(a: seq<Node>, b: seq<Node>, caseSensitive: bool, keys: Keys)
    requires NoRepeats(a) && NoRepeats(b) && (forall n :: n in a ==> n !in b)
    ensures Merging(a, b, 0, 0, [], caseSensitive, keys) && Taken(a, b, 0, 0, [])
  {
    assert a[0..] == a && b[0..] == b;
  }

  lemma MergingStep(a: seq<Node>, b: seq<Node>, i: nat, k: nat, done: seq<Node>, caseSensitive: bool, keys: Keys)
    requires i < |a| && k < |b| && Merging(a, b, i, k, done, caseSensitive, keys)
    ensures if CompareStrings(KeyOf(keys, a[i]), KeyOf(keys, b[k]), caseSensitive) < 0
            then Merging(a, b, i + 1, k, done + [a[i]], caseSensitive, keys)
            else Merging(a, b, i, k + 1, done + [b[k]], caseSensitive, keys)
  {
    hide CompareStrings, KeyOf;
    assert Items(a[i..], keys)[1..] == Items(a[i + 1..], keys) && Items(b[k..], keys)[1..] == Items(b[k + 1..], keys);
    assert Items(done + [a[i]], keys) == Items(done, keys) + [Keyed(KeyOf(keys, a[i]), a[i])];
    assert Items(done + [b[k]], keys) == Items(done, keys) + [Keyed(KeyOf(keys, b[k]), b[k])];
  }

  /** What is left of one chain belongs behind what was merged. */
  lemma MergingEnds(a: seq<Node>, b: seq<Node>, i: nat, k: nat, done: seq<Node>, caseSensitive: bool, keys: Keys)
    requires i <= |a| && k <= |b| && (i == |a| || k == |b|) && Merging(a, b, i, k, done, caseSensitive, keys)
    ensures Items(done + if i < |a| then a[i..] else b[k..], keys) == Merge(Items(a, keys), Items(b, keys), caseSensitive)
  {
    hide CompareStrings;
    var rest := if i < |a| then a[i..] else b[k..];
    assert Items(done + rest, keys) == Items(done, keys) + Items(rest, keys);
  }

  lemma NotBefore(done: seq<Node>, rest: seq<Node>)
    requires NoRepeats(done + rest)
    ensures forall j :: 0 <= j < |rest| ==> rest[j] !in done
  {
    forall i, j | 0 <= i < |done| && 0 <= j < |rest| ensures done[i] != rest[j] {
      assert done[i] == (done + rest)[i] && rest[j] == (done + rest)[|done| + j];
    }
  }

  /** Hangs what is left of a chain behind what was merged. */
  method AppendRest(result: Node?, tail: Node?, first: Node, ghost done: seq<Node>, ghost rest: seq<Node>) returns (head: Node)
    requires Linked(done) && Chain(rest) && rest != [] && first == rest[0] && NoRepeats(done + rest)
    requires result == First(done) && tail == if done == [] then null else done[|done| - 1]
    modifies (if done == [] then {} else {done[|done| - 1]})`next, first`prev
    ensures head == First(done + rest) && Chain(done + rest)
    ensures if done == [] then first.prev == old(first.prev) else done[0].prev == old(done[0].prev)
  {
    if result == null {
      assert done + rest == rest;
      return first;
    }
    NotBefore(done, rest);
    ghost var t := done + rest;
    assert forall j :: 0 <= j < |t| ==> t[j] == if j < |done| then done[j] else rest[j - |done|];
    assert forall j :: 0 < j < |rest| ==> rest[j] == t[|done| + j] && rest[j] != rest[0];
    tail.next := first;
    first.prev := tail;
    return result;
  }

  /** The chains from `i` and `k` on and the merged chain, as the three cursors see them. */
  ghost predicate Cursors(a: seq<Node>, b: seq<Node>, i: nat, k: nat, done: seq<Node>, first: Node?, second: Node?, result: Node?, tail: Node?)
    requires i <= |a| && k <= |b|
    reads a, b, done
  {
    && ChainFrom(a, i) && ChainFrom(b, k) && Linked(done)
    && first == NodeAt(a, i) && second == NodeAt(b, k)
    && result == First(done) && tail == (if done == [] then null else done[|done| - 1])
  }

  function PrevOf(n: Node?): Node?
    reads n
  {
    if n == null then null else n.prev
  }

  /** The merged chain starts at the head of one of the two, and that head's `prev` is what it was. */
  ghost predicate StartsAtHead(merged: seq<Node>, one: Node?, two: Node?, prevOfOne: Node?, prevOfTwo: Node?)
    reads merged
  {
    merged != [] ==> (merged[0] == one && merged[0].prev == prevOfOne) || (merged[0] == two && merged[0].prev == prevOfTwo)
  }

  lemma HeadSays(merged: seq<Node>, h: Node, one: Node?, two: Node?, p: Node?, q: Node?)
    requires merged != [] && merged[0] == h
    ensures StartsAtHead(merged, one, two, p, q) <==> (h == one && h.prev == p) || (h == two && h.prev == q)
  {
  }

  /** The first chain gives its next node. */
  method TakeNext(first: Node, result: Node?, tail: Node?, ghost a: seq<Node>, ghost b: seq<Node>, ghost i: nat, ghost k: nat, ghost done: seq<Node>,
                  ghost one: Node?, ghost two: Node?, ghost p: Node?, ghost q: Node?)
    returns (head: Node)
    requires StartsAtHead(done, one, two, p, q) && (done == [] ==> (first == one && first.prev == p) || (first == two && first.prev == q))
    requires i < |a| && k <= |b| && Taken(a, b, i, k, done) && Cursors(a, b, i, k, done, first, NodeAt(b, k), result, tail)
    modifies (if done == [] then {} else {done[|done| - 1]})`next, first`prev
    ensures Taken(a, b, i + 1, k, done + [first])
    ensures Cursors(a, b, i + 1, k, done + [first], first.next, NodeAt(b, k), head, first)
    ensures StartsAtHead(done + [first], one, two, p, q) && first.next == NodeAt(a, i + 1)
  {
    hide Taken, AsSet, NoRepeats, Linked, StartsAtHead;
    ghost var h := if done == [] then first else done[0];
    if done != [] {
      HeadSays(done, h, one, two, p, q);
    }
    TakesNext(a, b, i, k, done);
    Untaken(a, b, i, k, done);
    Untaken(a, b, i + 1, k, done + [first]);
    assert first in done + [first] && (done != [] ==> done[|done| - 1] in done + [first]);
    head := Append(result, tail, first, done);
    assert ChainFrom(a, i + 1) && ChainFrom(b, k);
    HeadSays(done + [first], h, one, two, p, q);
  }

  /** `compare_strings` on two names: a missing one never compares as smaller. */
  method CompareNames(first: Node, second: Node, caseSensitive: bool) returns (diff: int)
    ensures first.name != null && second.name != null ==> diff == CompareStrings(first.name.text, second.name.text, caseSensitive)
    ensures first.name == null || second.name == null ==> diff == 1
  {
    if first.name == null || second.name == null {
      return 1;
    }
    diff := CCompareStrings(first.name.text, second.name.text, caseSensitive);
  }

  /** The second chain gives its next node. */
  method TakeSecond(second: Node, result: Node?, tail: Node?, ghost a: seq<Node>, ghost b: seq<Node>, ghost i: nat, ghost k: nat, ghost done: seq<Node>,
                    ghost one: Node?, ghost two: Node?, ghost p: Node?, ghost q: Node?)
    returns (head: Node)
    requires StartsAtHead(done, one, two, p, q) && (done == [] ==> (second == one && second.prev == p) || (second == two && second.prev == q))
    requires i <= |a| && k < |b| && Taken(a, b, i, k, done) && Cursors(a, b, i, k, done, NodeAt(a, i), second, result, tail)
    modifies (if done == [] then {} else {done[|done| - 1]})`next, second`prev
    ensures Taken(a, b, i, k + 1, done + [second])
    ensures Cursors(a, b, i, k + 1, done + [second], NodeAt(a, i), second.next, head, second)
    ensures StartsAtHead(done + [second], one, two, p, q) && second.next == NodeAt(b, k + 1)
  {
    hide Taken, AsSet, StartsAtHead, Cursors;
    TakenSwaps(a, b, i, k, done);
    CursorsTell(a, b, i, k, done, NodeAt(a, i), second, result, tail);
    head := TakeNext(second, result, tail, b, a, k, i, done, one, two, p, q);
    TakenSwaps(b, a, k + 1, i, done + [second]);
    CursorsTell(b, a, k + 1, i, done + [second], second.next, NodeAt(a, i), head, second);
  }

  /** Which node is next in the functional merge. */
  method IsSmaller(first: Node, second: Node, caseSensitive: bool, ghost a: seq<Node>, ghost b: seq<Node>, ghost i: nat, ghost k: nat,
                   ghost done: seq<Node>, ghost keys: Keys) returns (smaller: bool)
    requires i < |a| && k < |b| && first == a[i] && second == b[k]
    ensures Named(a, keys) && Named(b, keys) && Merging(a, b, i, k, done, caseSensitive, keys) ==>
              if smaller then Merging(a, b, i + 1, k, done + [first], caseSensitive, keys)
              else Merging(a, b, i, k + 1, done + [second], caseSensitive, keys)
  {
    hide Merging, CompareStrings, Named;
    var diff := CompareNames(first, second, caseSensitive);
    smaller := diff < 0;
    if Named(a, keys) && Named(b, keys) && Merging(a, b, i, k, done, caseSensitive, keys) {
      NamedAt(a, i, keys);
      NamedAt(b, k, keys);
      MergingStep(a, b, i, k, done, caseSensitive, keys);
    }
  }

  /** The second half of `sort_list`. */
  method MergeChains(one: Node?, two: Node?, caseSensitive: bool, ghost a: seq<Node>, ghost b: seq<Node>, ghost keys: Keys)
    returns (result: Node?, ghost merged: seq<Node>)
    requires one == First(a) && two == First(b) && Chain(a) && Chain(b) && forall n :: n in a ==> n !in b
    modifies a`next, a`prev, b`next, b`prev
    ensures result == First(merged) && Chain(merged) && AsSet(merged) == AsSet(a) + AsSet(b)
    ensures Named(a, keys) && Named(b, keys) ==> Items(merged, keys) == Merge(Items(a, keys), Items(b, keys), caseSensitive)
    ensures StartsAtHead(merged, one, two, old(PrevOf(one)), old(PrevOf(two)))
  {
    hide Taken, Merging, Items, Merge, AsSet, CompareStrings, Cursors, Named, NoRepeats, Linked, StartsAtHead, Within, KeyOf;
    var first, second := one, two;
    result := null;
    var tail: Node? := null;
    ghost var i, k, done: seq<Node> := 0, 0, [];
    ghost var named, p, q := Named(a, keys) && Named(b, keys), PrevOf(one), PrevOf(two);
    MergingStarts(a, b, caseSensitive, keys);
    CursorsStart(a, b);
    NothingMerged(one, two, p, q, a, b);
    CursorsTell(a, b, i, k, done, first, second, result, tail);
    while first != null && second != null
      invariant 0 <= i <= |a| && 0 <= k <= |b| && Taken(a, b, i, k, done) && (named ==> Merging(a, b, i, k, done, caseSensitive, keys))
      invariant Cursors(a, b, i, k, done, first, second, result, tail) && Within(done, a, b)
      invariant first == NodeAt(a, i) && second == NodeAt(b, k) && (done == [] || i < |a| || k < |b|)
      invariant done == [] ==> i == k == 0 && PrevOf(one) == p && PrevOf(two) == q && first == one && second == two
      invariant StartsAtHead(done, one, two, p, q) && named == (Named(a, keys) && Named(b, keys))
      decreases |a| - i + |b| - k
    {
      var smaller := IsSmaller(first, second, caseSensitive, a, b, i, k, done, keys);
      StaysWithin(done, first, a, b);
      StaysWithin(done, second, a, b);
      if smaller {
        result := TakeNext(first, result, tail, a, b, i, k, done, one, two, p, q);
        done, tail, first, i := done + [first], first, first.next, i + 1;
      } else {
        result := TakeSecond(second, result, tail, a, b, i, k, done, one, two, p, q);
        done, tail, second, k := done + [second], second, second.next, k + 1;
      }
    }
    result, merged := AppendRemaining(first, second, result, tail, caseSensitive, a, b, i, k, done, keys, named, one, two, p, q);
  }

  lemma NothingMerged(one: Node?, two: Node?, p: Node?, q: Node?, a: seq<Node>, b: seq<Node>)
    ensures StartsAtHead([], one, two, p, q) && Within([], a, b)
  {
  }

  lemma CursorsStart(a: seq<Node>, b: seq<Node>)
    requires Chain(a) && Chain(b)
    ensures Cursors(a, b, 0, 0, [], First(a), First(b), null, null)
  {
  }

  lemma CursorsTell(a: seq<Node>, b: seq<Node>, i: nat, k: nat, done: seq<Node>, first: Node?, second: Node?, result: Node?, tail: Node?)
    requires i <= |a| && k <= |b| && Cursors(a, b, i, k, done, first, second, result, tail)
    ensures first == NodeAt(a, i) && second == NodeAt(b, k) && Cursors(b, a, k, i, done, second, first, result, tail)
  {
  }

  predicate Within(done: seq<Node>, a: seq<Node>, b: seq<Node>) {
    forall n :: n in done ==> n in a || n in b
  }

  lemma StaysWithin(done: seq<Node>, next: Node, a: seq<Node>, b: seq<Node>)
    requires Within(done, a, b) && (next in a || next in b)
    ensures Within(done + [next], a, b)
    ensures done != [] ==> done[|done| - 1] in a || done[|done| - 1] in b
  {
  }

  lemma LastWithin(done: seq<Node>, a: seq<Node>, b: seq<Node>)
    requires Within(done, a, b) && done != []
    ensures done[|done| - 1] in a || done[|done| - 1] in b
  {
    assert done[|done| - 1] in done;
  }

  lemma TakenSwaps(a: seq<Node>, b: seq<Node>, i: nat, k: nat, done: seq<Node>)
    requires i <= |a| && k <= |b| && Taken(a, b, i, k, done)
    ensures Taken(b, a, k, i, done)
  {
  }

  lemma EmptyChain()
    ensures Chain([])
  {
  }

  lemma ChainRest(s: seq<Node>, i: nat)
    requires i < |s| && ChainFrom(s, i) && NoRepeats(s)
    ensures Chain(s[i..]) && s[i] in s
  {
  }

  /** Hangs what is left of either chain behind what was merged. */
  method AppendRemaining(first: Node?, second: Node?, head: Node?, tail: Node?, caseSensitive: bool,
                         ghost a: seq<Node>, ghost b: seq<Node>, ghost i: nat, ghost k: nat, ghost done: seq<Node>,
                         ghost keys: Keys, ghost named: bool, ghost one: Node?, ghost two: Node?, ghost p: Node?, ghost q: Node?)
    returns (result: Node?, ghost merged: seq<Node>)
    requires StartsAtHead(done, one, two, p, q)
    requires done == [] ==> (first == one && PrevOf(first) == p) && (second == two && PrevOf(second) == q)
    requires i <= |a| && k <= |b| && Taken(a, b, i, k, done) && (named ==> Merging(a, b, i, k, done, caseSensitive, keys))
    requires Cursors(a, b, i, k, done, first, second, head, tail) && Within(done, a, b)
    requires (first == null || second == null) && (done == [] ==> i == k == 0) && (done == [] || first != null || second != null)
    modifies a`next, a`prev, b`next, b`prev
    ensures result == First(merged) && Chain(merged) && AsSet(merged) == AsSet(a) + AsSet(b)
    ensures named ==> Items(merged, keys) == Merge(Items(a, keys), Items(b, keys), caseSensitive)
    ensures StartsAtHead(merged, one, two, p, q)
  {
    hide Taken, Merging, Items, Merge, AsSet, ChainFrom, Linked, NoRepeats;
    if done != [] {
      LastWithin(done, a, b);
    }
    Untaken(a, b, i, k, done);
    if named {
      MergingEnds(a, b, i, k, done, caseSensitive, keys);
    }
    if first != null {
      merged := done + a[i..];
      ChainRest(a, i);
      TakesAll(a, b, i, k, done);
      result := AppendRest(head, tail, first, done, a[i..]);
    } else if second != null {
      merged := done + b[k..];
      ChainRest(b, k);
      TakenSwaps(a, b, i, k, done);
      TakesAll(b, a, k, i, done);
      result := AppendRest(head, tail, second, done, b[k..]);
    } else {
      TakesAll(a, b, i, k, done);
      assert a[i..] == [] && b[k..] == [];
      result, merged := head, [];
      assert Chain(merged) by { EmptyChain(); }
    }
  }

  // ----- the whole sort -----

  /** The test for a chain that is sorted already. */
  method IsAscending(list: Node, caseSensitive: bool, ghost s: seq<Node>, ghost keys: Keys) returns (ascending: bool)
    requires s != [] && list == s[0] && Chain(s)
    ensures Named(s, keys) ==> ascending == Ascending(Items(s, keys), caseSensitive)
  {
    hide CompareStrings;
    var current := list;
    ghost var i, items := 0, Items(s, keys);
    while current.next != null
      invariant 0 <= i < |s| && current == s[i] && current.next == NodeAt(s, i + 1)
      invariant Named(s, keys) ==> forall j :: 0 < j <= i ==> MergeSort.Compare(items[j - 1], items[j], caseSensitive) < 0
      decreases |s| - i
    {
      assert current.next == s[i + 1];
      var diff := CompareNames(current, current.next, caseSensitive);
      assert Named(s, keys) ==> diff == MergeSort.Compare(items[i], items[i + 1], caseSensitive);
      if diff >= 0 {
        assert Named(s, keys) ==> MergeSort.Compare(items[i + 1 - 1], items[i + 1], caseSensitive) >= 0;
        return false;
      }
      current := current.next;
      i := i + 1;
    }
    return true;
  }

  /** Two cursors, one twice as fast, and the cut in front of the slow one. */
  method Split(list: Node, ghost s: seq<Node>) returns (second: Node?, ghost middle: nat)
    requires |s| >= 2 && list == s[0] && Chain(s)
    modifies s`next, s`prev
    ensures middle == (|s| + 1) / 2 && second == First(s[middle..])
    ensures Chain(s[..middle]) && Chain(s[middle..])
    ensures s[0].prev == old(s[0].prev) && second != null && second.prev == null
  {
    second := list;
    var current: Node? := list;
    middle := 0;
    while current != null
      invariant 0 <= middle <= (|s| + 1) / 2 && second == NodeAt(s, middle) && current == NodeAt(s, 2 * middle)
      decreases |s| + 1 - middle
    {
      assert second == s[middle] && current == s[2 * middle];
      second := second.next;
      current := current.next;
      assert current == NodeAt(s, 2 * middle + 1);
      if current != null {
        current := current.next;
      }
      middle := middle + 1;
    }
    assert second == s[middle] && second.prev == s[middle - 1];
    if second != null && second.prev != null {
      second.prev.next := null;
      second.prev := null;
    }
  }

  /** The head keeps its `prev` if it was the head before, and otherwise has none: it was cut off in front, and a
      merge writes only to nodes behind others. */
  twostate predicate HeadLink(new sorted: seq<Node>, s: seq<Node>)
    reads sorted
  {
    |sorted| == |s| && (s != [] ==> sorted[0].prev == if sorted[0] == s[0] then old(s[0].prev) else null)
  }

  /** `sort_list`: the same nodes, chained, with every back link but that of the head; where the nodes have names, in
      the order the sorting function gives them, and a chain in strictly ascending order is not written to. */
  method SortList(list: Node?, caseSensitive: bool, ghost s: seq<Node>, ghost keys: Keys) returns (result: Node?, ghost sorted: seq<Node>)
    requires list == First(s) && Chain(s)
    modifies s`next, s`prev
    ensures result == First(sorted) && Chain(sorted) && AsSet(sorted) == AsSet(s)
    ensures Named(s, keys) ==> Items(sorted, keys) == Sort(Items(s, keys), caseSensitive)
    ensures Named(s, keys) && Ascending(Items(s, keys), caseSensitive) ==>
              sorted == s && forall n :: n in s ==> n.next == old(n.next) && n.prev == old(n.prev)
    ensures HeadLink(sorted, s)
    decreases |s|, 1
  {
    hide Sort, Items, AsSet, Chain, Named;
    SortOfOne(s, caseSensitive, keys);
    ChainOnce(s);
    if list == null || list.next == null {
      return list, s;
    }
    var ascending := IsAscending(list, caseSensitive, s, keys);
    if ascending {
      return list, s;
    }
    ghost var middle;
    var second: Node?;
    second, middle := Split(list, s);
    ghost var a, b := s[..middle], s[middle..];
    Halves(s, caseSensitive, keys);
    if Named(s, keys) {
      NamedInside(a, s, keys);
      NamedInside(b, s, keys);
    }
    result, sorted := SortHalves(list, second, caseSensitive, a, b, keys);
    ChainOnce(sorted);
    SameSize(sorted, s);
  }

  /** Both halves sorted and merged. */
  method SortHalves(list: Node, rest: Node?, caseSensitive: bool, ghost a: seq<Node>, ghost b: seq<Node>, ghost keys: Keys)
    returns (result: Node?, ghost sorted: seq<Node>)
    requires list == First(a) && rest == First(b) && Chain(a) && Chain(b) && a != [] && b != []
    requires b[0].prev == null && forall n :: n in a ==> n !in b
    modifies a`next, a`prev, b`next, b`prev
    ensures result == First(sorted) && Chain(sorted) && AsSet(sorted) == AsSet(a) + AsSet(b)
    ensures Named(a, keys) && Named(b, keys) ==>
              Items(sorted, keys) == Merge(Sort(Items(a, keys), caseSensitive), Sort(Items(b, keys), caseSensitive), caseSensitive)
    ensures sorted != [] && sorted[0].prev == if sorted[0] == a[0] then old(a[0].prev) else null
    decreases |a| + |b|, 0
  {
    hide Sort, Items, AsSet, Chain, Named, Merge;
    ghost var one, two;
    var first, second: Node?;
    OtherWayRound(a, b);
    label Cut:
    first, one := SortList(list, caseSensitive, a, keys);
    ChainStays@Cut(b);
    StayApart(a, b, one, b);
    label FirstSorted:
    second, two := SortList(rest, caseSensitive, b, keys);
    ChainStays@FirstSorted(one);
    StayApart(a, b, one, two);
    Inside(one, a, a);
    Inside(two, b, b);
    if Named(a, keys) && Named(b, keys) {
      NamedInside(one, a, keys);
      NamedInside(two, b, keys);
    }
    result, sorted := MergeChains(first, second, caseSensitive, one, two, keys);
    NotEmpty(sorted, one, two);
  }

  /** `sort_object`. The link from the head to the tail is right afterwards if and only if the first key is strictly
      below every other and the last strictly above; where only the tail was moved, it names the old tail. */
  method SortObject(parent: Node, caseSensitive: bool, ghost s: seq<Node>, ghost keys: Keys) returns (ghost sorted: seq<Node>)
    requires Children(parent, s)
    modifies parent`child, s`next, s`prev
    ensures Listed(parent, sorted) && AsSet(sorted) == AsSet(s) && |sorted| == |s|
    ensures Named(s, keys) ==> Items(sorted, keys) == Sort(Items(s, keys), caseSensitive)
    ensures Named(s, keys) ==> (Children(parent, sorted) <==> EndsStay(Items(s, keys), caseSensitive))
    ensures Named(s, keys) && s != [] ==>
              sorted[0].prev == if FirstLeads(Items(s, keys), caseSensitive) then s[|s| - 1] else null
  {
    hide Items, Sort, Ascending, AsSet, FirstLeads, LastTrails, NoRepeats, Named;
    var head: Node?;
    head, sorted := SortList(parent.child, caseSensitive, s, keys);
    parent.child := head;
    if Named(s, keys) {
      EndsOfNodes(s, sorted, caseSensitive, keys);
    }
  }

  /** Which nodes are first and last after sorting, by the keys before. */
  lemma EndsOfNodes(s: seq<Node>, sorted: seq<Node>, caseSensitive: bool, keys: Keys)
    requires NoRepeats(s) && Items(sorted, keys) == Sort(Items(s, keys), caseSensitive)
    ensures |sorted| == |s|
    ensures s != [] ==> (sorted[0] == s[0] <==> FirstLeads(Items(s, keys), caseSensitive))
    ensures s != [] ==> (sorted[|s| - 1] == s[|s| - 1] <==> LastTrails(Items(s, keys), caseSensitive))
    ensures s == [] ==> EndsStay(Items(s, keys), caseSensitive)
  {
    hide Sort, FirstLeads, LastTrails, CompareStrings;
    var items := Items(s, keys);
    if s == [] {
      ShortAscends(items, caseSensitive);
      AscendingEnds(items, caseSensitive);
    } else {
      assert NoRepeats(items);
      FirstStays(items, caseSensitive);
      LastStays(items, caseSensitive);
      assert Items(sorted, keys)[0].item == sorted[0] && items[0].item == s[0];
      assert Items(sorted, keys)[|s| - 1].item == sorted[|s| - 1] && items[|s| - 1].item == s[|s| - 1];
    }
  }

  /** `sort_object`, then `add_item_to_array`, as a patch does it that adds a member behind a test. The answer is
      always yes, but the item has become the last child if and only if the keys' ends stay where they are. With a
      moved head it is dropped; with only a moved tail, what is sorted behind the old tail is cut off. */
  method SortThenAdd(parent: Node, item: Node, caseSensitive: bool, ghost s: seq<Node>, ghost keys: Keys)
    returns (ok: bool, ghost sorted: seq<Node>, ghost list: seq<Node>)
    requires Children(parent, s) && Named(s, keys) && item !in s && item != parent && Unlinked(item)
    modifies parent`child, item`next, item`prev, s`next, s`prev
    ensures ok && Items(sorted, keys) == Sort(Items(s, keys), caseSensitive)
    ensures Listed(parent, list)
    ensures Items(list, keys) == SortedThenAppended(Items(s, keys), caseSensitive, Keyed(KeyOf(keys, item), item))
    ensures FirstLeads(Items(s, keys), caseSensitive) ==> Children(parent, list)
    ensures !FirstLeads(Items(s, keys), caseSensitive) ==> Unlinked(item)
    ensures Children(parent, sorted + [item]) <==> EndsStay(Items(s, keys), caseSensitive)
  {
    hide Items, Sort, FirstLeads, LastTrails, Named, Linked, NoRepeats, AsSet, SortedThenAppended, AppendedAt;
    ChainOnce(s);
    sorted := SortObject(parent, caseSensitive, s, keys);
    EndsOfNodes(s, sorted, caseSensitive, keys);
    OneOutside(sorted, s, item);
    ghost var k: int := -1;
    if s != [] {
      k := PlaceOf(sorted, s, |s| - 1);
      OnlyPlace(sorted, k, |s| - 1);
    }
    ok := AddItemToArray(parent, item, sorted, k);
    if s == [] || FirstLeads(Items(s, keys), caseSensitive) {
      AppendedWhole(parent, sorted, k, item);
      list := AppendedAt(sorted, k, item);
      ItemsAppended(s, sorted, k, item, caseSensitive, keys);
    } else {
      Dropped(parent, sorted, item);
      list := sorted;
      ItemDropped(Items(s, keys), caseSensitive, Keyed(KeyOf(keys, item), item));
    }
  }

  lemma {:induction false} SizeOfSet<T>(s: seq<T>)
    requires NoRepeats(s)
    ensures |AsSet(s)| == |s|
  {
    if s != [] {
      var front, last := s[..|s| - 1], s[|s| - 1];
      SizeOfSet(front);
      assert s == front + [last];
      assert AsSet(s) == AsSet(front) + {last};
      assert last !in AsSet(front);
    }
  }

  lemma SameSize<T>(a: seq<T>, b: seq<T>)
    requires NoRepeats(a) && NoRepeats(b) && AsSet(a) == AsSet(b)
    ensures |a| == |b|
  {
    SizeOfSet(a);
    SizeOfSet(b);
  }

  lemma ChainOnce(s: seq<Node>)
    requires Chain(s)
    ensures NoRepeats(s)
  {
  }

  lemma OneOutside<T>(a: seq<T>, b: seq<T>, x: T)
    requires AsSet(a) == AsSet(b)
    ensures x !in b ==> x !in a
    ensures forall i :: 0 <= i < |a| ==> a[i] in b
  {
    forall i | 0 <= i < |a| ensures a[i] in b {
      assert a[i] in AsSet(a) && a[i] in AsSet(b);
    }
  }

  lemma NotEmpty<T>(all: seq<T>, a: seq<T>, b: seq<T>)
    requires AsSet(all) == AsSet(a) + AsSet(b) && a != []
    ensures all != []
  {
    assert a[0] in AsSet(a);
  }

  lemma PlaceOf<T>(a: seq<T>, b: seq<T>, i: nat) returns (k: nat)
    requires AsSet(a) == AsSet(b) && i < |b|
    ensures k < |a| && a[k] == b[i]
  {
    assert b[i] in AsSet(b);
    k :| 0 <= k < |a| && a[k] == b[i];
  }

  lemma AppendedWhole(parent: Node, s: seq<Node>, k: int, item: Node)
    requires NoRepeats(s) && item !in s && (s != [] ==> 0 <= k < |s|) && Children(parent, AppendedAt(s, k, item))
    ensures Children(parent, s + [item]) <==> s == [] || k == |s| - 1
  {
    if s != [] && k == |s| - 1 {
      assert s[..k + 1] == s;
    } else if s != [] {
      var t := s[..k + 1] + [item];
      assert t[k] == s[k] && t[k + 1] == item && s[k].next == item;
      assert (s + [item])[k] == s[k] && (s + [item])[k + 1] == s[k + 1] && s[k + 1] in s;
    } else {
      assert s + [item] == [item];
    }
  }

  lemma ItemsAppended(s: seq<Node>, sorted: seq<Node>, k: int, item: Node, caseSensitive: bool, keys: Keys)
    requires NoRepeats(sorted) && |sorted| == |s| && Items(sorted, keys) == Sort(Items(s, keys), caseSensitive)
    requires s != [] ==> 0 <= k < |s| && sorted[k] == s[|s| - 1]
    requires s == [] || FirstLeads(Items(s, keys), caseSensitive)
    ensures Items(AppendedAt(sorted, k, item), keys)
         == SortedThenAppended(Items(s, keys), caseSensitive, Keyed(KeyOf(keys, item), item))
  {
    hide Sort, FirstLeads;
    if s != [] {
      var items := Items(sorted, keys);
      assert items[k] == Items(s, keys)[|s| - 1];
      assert forall i :: 0 <= i < |sorted| ==> items[i].item == sorted[i];
      UpToPlace(items, k);
      assert Items(AppendedAt(sorted, k, item), keys) == items[..k + 1] + [Keyed(KeyOf(keys, item), item)];
    }
  }

  lemma ItemDropped(s: seq<Keyed<Node>>, caseSensitive: bool, item: Keyed<Node>)
    requires s != [] && !FirstLeads(s, caseSensitive)
    ensures SortedThenAppended(s, caseSensitive, item) == Sort(s, caseSensitive)
  {
  }

  lemma Dropped(parent: Node, s: seq<Node>, item: Node)
    requires Listed(parent, s) && s != [] && item !in s
    ensures !Children(parent, s + [item])
  {
    var t := s + [item];
    assert t[|s| - 1] == s[|s| - 1] && t[|s|] == item;
  }

  /** When the sort returns early, and that it is right to. */
  lemma SortOfOne(s: seq<Node>, caseSensitive: bool, keys: Keys)
    requires Chain(s)
    ensures NoRepeats(s)
    ensures First(s) == null || First(s).next == null <==> |s| <= 1
    ensures |s| <= 1 || Ascending(Items(s, keys), caseSensitive) ==> Sort(Items(s, keys), caseSensitive) == Items(s, keys)
  {
    hide CompareStrings;
    assert |s| > 1 ==> s[0].next == s[1];
  }

  twostate lemma ChainStays(s: seq<Node>)
    requires old(Chain(s)) && forall i :: 0 <= i < |s| ==> s[i].next == old(s[i].next) && s[i].prev == old(s[i].prev)
    ensures Chain(s)
  {
  }

  lemma OtherWayRound(a: seq<Node>, b: seq<Node>)
    requires forall n :: n in a ==> n !in b
    ensures forall i :: 0 <= i < |b| ==> b[i] !in a
  {
    forall i | 0 <= i < |b| ensures b[i] !in a {
      assert b[i] in b;
    }
  }

  lemma NamedAt(s: seq<Node>, i: nat, keys: Keys)
    requires Named(s, keys) && i < |s|
    ensures s[i].name != null && s[i].name.text == KeyOf(keys, s[i])
  {
  }

  lemma NamedInside(one: seq<Node>, s: seq<Node>, keys: Keys)
    requires Named(s, keys) && forall i :: 0 <= i < |one| ==> one[i] in s
    ensures Named(one, keys)
  {
  }

  lemma Inside(one: seq<Node>, a: seq<Node>, s: seq<Node>)
    requires AsSet(one) == AsSet(a) && forall n :: n in a ==> n in s
    ensures forall i :: 0 <= i < |one| ==> one[i] in s
  {
    forall i | 0 <= i < |one| ensures one[i] in s {
      assert one[i] in AsSet(one) && one[i] in AsSet(a);
    }
  }

  lemma StayApart(a: seq<Node>, b: seq<Node>, one: seq<Node>, two: seq<Node>)
    requires AsSet(one) == AsSet(a) && AsSet(two) == AsSet(b) && forall n :: n in a ==> n !in b
    ensures forall i :: 0 <= i < |one| ==> one[i] !in two
    ensures forall n :: n in one ==> n !in two
  {
    forall n | n in one ensures n !in two {
      assert n in AsSet(one) && n in AsSet(a);
      assert n !in AsSet(b);
    }
  }

  lemma Halves(s: seq<Node>, caseSensitive: bool, keys: Keys)
    requires NoRepeats(s) && |s| > 1
    ensures var a, b := s[..(|s| + 1) / 2], s[(|s| + 1) / 2..];
      && (forall n :: n in a ==> n in s) && (forall n :: n in b ==> n in s)
      && (!Ascending(Items(s, keys), caseSensitive) ==>
            Sort(Items(s, keys), caseSensitive) == Merge(Sort(Items(a, keys), caseSensitive), Sort(Items(b, keys), caseSensitive), caseSensitive))
      && AsSet(s) == AsSet(a) + AsSet(b) && forall n :: n in a ==> n !in b
  {
    hide CompareStrings, Merge;
    var middle := (|s| + 1) / 2;
    var a, b := s[..middle], s[middle..];
    HalvesOfNodes(s, middle);
    hide AsSet, NoRepeats;
    assert Items(a, keys) == Items(s, keys)[..middle] && Items(b, keys) == Items(s, keys)[middle..];
  }

  lemma HalvesOfNodes(s: seq<Node>, middle: nat)
    requires NoRepeats(s) && middle <= |s|
    ensures var a, b := s[..middle], s[middle..];
      && (forall n :: n in a ==> n in s) && (forall n :: n in b ==> n in s)
      && AsSet(s) == AsSet(a) + AsSet(b) && (forall n :: n in a ==> n !in b)
  {
    assert s == s[..middle] + s[middle..];
  }
}
