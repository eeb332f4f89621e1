/** Following a pointer to a node, and finding the pointer of a node. A node of a tree is identified by
    its position: the child indices on the way from the root, as a node's address identifies it in memory. */
module Paths {
  import opened Bytes
  import opened Json
  import opened MergeSort
  import opened Pointer

  type Position = seq<nat>

  function ChildCount(j: Json): nat {
    match j
    case Array(items) => |items|
    case Object(members) => |members|
    case _ => 0
  }

  function Child(j: Json, k: nat): (child: Json)
    requires k < ChildCount(j)
    ensures Nesting(child) < Nesting(j)
  {
    match j
    case Array(items) => ItemNesting(items, k); items[k]
    case Object(members) => MemberNesting(members, k); members[k].item
  }

  predicate HasPosition(j: Json, pos: Position)
    decreases pos
  {
    pos == [] || (pos[0] < ChildCount(j) && HasPosition(Child(j, pos[0]), pos[1..]))
  }

  function Get(j: Json, pos: Position): Json
    requires HasPosition(j, pos)
    decreases pos
  {
    if pos == [] then j else Get(Child(j, pos[0]), pos[1..])
  }

  function WithChild(j: Json, k: nat, v: Json): Json
    requires k < ChildCount(j)
  {
    match j
    case Array(items) => Array(items[k := v])
    case Object(members) => Object(members[k := Keyed(members[k].key, v)])
  }

  /** The tree with the node at `pos` replaced; its key stays. */
  function Put(j: Json, pos: Position, v: Json): Json
    requires HasPosition(j, pos)
    decreases pos
  {
    if pos == [] then v else WithChild(j, pos[0], Put(Child(j, pos[0]), pos[1..], v))
  }

  // ----- following a pointer -----

  /** The first member whose key matches the token at `i`, or the number of members. */
  function FindToken<T>(members: seq<Keyed<T>>, p: CString, i: nat, caseSensitive: bool): (k: nat)
    requires i <= |p|
    ensures k <= |members|
  {
    if members == [] || ComparePointers(members[0].key, p, i, caseSensitive) then 0
    else 1 + FindToken(members[1..], p, i, caseSensitive)
  }

  /** The child that the token at `i` names. */
  function Step(j: Json, p: CString, i: nat, caseSensitive: bool): (r: Option<nat>)
    requires i <= |p|
    ensures r.Some? ==> r.value < ChildCount(j)
  {
    match j
    case Array(items) =>
      (match DecodeIndex(p, i)
       case None => None
       case Some(n) => if n < |items| then Some(n) else None)
    case Object(members) =>
      var k := FindToken(members, p, i, caseSensitive);
      if k < |members| then Some(k) else None
    case _ => None
  }

  /** `get_item_from_pointer` from the node `j` and the pointer's byte `i` on. */
  function Lookup(j: Json, p: CString, i: nat, caseSensitive: bool): (r: Option<Position>)
    requires i <= |p|
    ensures r.Some? ==> HasPosition(j, r.value)
    decreases Nesting(j)
  {
    if i < |p| && p[i] == SLASH then
      match Step(j, p, i + 1, caseSensitive)
      case None => None
      case Some(k) => Below([k], Lookup(Child(j, k), p, TokenEnd(p, i + 1), caseSensitive))
    else Some([])
  }

  method CFindToken<T>(members: seq<Keyed<T>>, pointer: CString, start: nat, caseSensitive: bool) returns (k: nat)
    requires start <= |pointer|
    ensures k == FindToken(members, pointer, start, caseSensitive)
  {
    k := 0;
    while k < |members|
      invariant k <= |members|
      invariant FindToken(members, pointer, start, caseSensitive) == k + FindToken(members[k..], pointer, start, caseSensitive)
    {
      var equal := CComparePointers(members[k].key, pointer, start, caseSensitive);
      if equal {
        return;
      }
      assert members[k..][1..] == members[k + 1..];
      k := k + 1;
    }
  }

  /** One token of the loop of `get_item_from_pointer`. */
  method CStep(current: Json, pointer: CString, at: nat, caseSensitive: bool) returns (k: Option<nat>)
    requires at <= |pointer|
    ensures k == Step(current, pointer, at, caseSensitive)
  {
    match current {
      case Array(items) =>
        k := CDecodeIndex(pointer, at);
        if k.Some? && k.value >= |items| {
          return None;
        }
      case Object(members) =>
        var n := CFindToken(members, pointer, at, caseSensitive);
        return if n < |members| then Some(n) else None;
      case _ =>
        return None;
    }
  }

  method SkipToken(pointer: CString, start: nat) returns (at: nat)
    requires start <= |pointer|
    ensures at == TokenEnd(pointer, start)
  {
    at := start;
    while At(pointer, at) != 0 && At(pointer, at) != SLASH
      invariant start <= at <= |pointer|
      invariant TokenEnd(pointer, at) == TokenEnd(pointer, start)
      decreases |pointer| - at
    {
      at := at + 1;
    }
  }

  /** The loop of `get_item_from_pointer`: one token at a time, down from the root. */
  method GetItemFromPointer(root: Json, pointer: CString, caseSensitive: bool) returns (found: Option<Position>)
    ensures found == Lookup(root, pointer, 0, caseSensitive)
  {
    hide Step, TokenEnd;
    var current, at, pos := root, 0, [];
    BelowNothing(Lookup(root, pointer, 0, caseSensitive));
    while At(pointer, at) == SLASH
      invariant at <= |pointer|
      invariant Lookup(root, pointer, 0, caseSensitive) == Below(pos, Lookup(current, pointer, at, caseSensitive))
      decreases |pointer| - at
    {
      at := at + 1;
      var k := CStep(current, pointer, at, caseSensitive);
      if k.None? {
        return None;
      }
      current := Child(current, k.value);
      at := SkipToken(pointer, at);
      BelowTwice(pos, k.value, Lookup(current, pointer, at, caseSensitive));
      pos := pos + [k.value];
    }
    assert pos + [] == pos;
    return Some(pos);
  }

  function Below(pos: Position, rest: Option<Position>): Option<Position> {
    match rest
    case None => None
    case Some(r) => Some(pos + r)
  }

  lemma BelowNothing(rest: Option<Position>)
    ensures Below([], rest) == rest
  {
    if rest.Some? {
      assert [] + rest.value == rest.value;
    }
  }

  lemma BelowTwice(pos: Position, k: nat, rest: Option<Position>)
    ensures Below(pos, Below([k], rest)) == Below(pos + [k], rest)
  {
    if rest.Some? {
      assert pos + ([k] + rest.value) == pos + [k] + rest.value;
    }
  }

  // ----- finding a pointer -----

  /** The pointer text of a position: an index or an encoded key for each step. */
  function PathOf(j: Json, pos: Position): (p: CString)
    requires HasPosition(j, pos)
    ensures pos != [] ==> p != [] && p[0] == SLASH
    ensures pos == [] ==> p == []
    decreases pos
  {
    if pos == [] then [] else [SLASH] + TokenOf(j, pos[0]) + PathOf(Child(j, pos[0]), pos[1..])
  }

  function TokenOf(j: Json, k: nat): (t: CString)
    requires k < ChildCount(j)
    ensures SLASH !in t
  {
    match j
    case Array(items) => Digits(k)
    case Object(members) => Encode(members[k].key)
  }

  /** `cJSONUtils_FindPointerFromObjectTo`: a depth-first search from the node at `here` for the node at `target`. */
  function Find(j: Json, here: Position, target: Position): Option<CString>
    decreases Nesting(j), 1, 0
  {
    if here == target then Some([]) else FindAmong(j, here, target, 0)
  }

  /** The search among the children from `k` on. */
  function FindAmong(j: Json, here: Position, target: Position, k: nat): Option<CString>
    requires k <= ChildCount(j)
    decreases Nesting(j), 0, ChildCount(j) - k
  {
    if k == ChildCount(j) then None
    else
      match Find(Child(j, k), here + [k], target)
      case Some(rest) => Some([SLASH] + TokenOf(j, k) + rest)
      case None => FindAmong(j, here, target, k + 1)
  }

  /** The target is not in the subtree at `here`. */
  predicate Elsewhere(j: Json, here: Position, target: Position) {
    !(here <= target) || !HasPosition(j, target[|here|..])
  }

  lemma {:induction false} FindsNothing(j: Json, here: Position, target: Position)
    requires Elsewhere(j, here, target)
    ensures Find(j, here, target) == None
    decreases Nesting(j), 1, 0
  {
    FindsNothingAmong(j, here, target, 0);
  }

  lemma {:induction false} FindsNothingAmong(j: Json, here: Position, target: Position, k: nat)
    requires k <= ChildCount(j)
    requires forall i :: k <= i < ChildCount(j) ==> Elsewhere(Child(j, i), here + [i], target)
    ensures FindAmong(j, here, target, k) == None
    decreases Nesting(j), 0, ChildCount(j) - k
  {
    if k < ChildCount(j) {
      FindsNothing(Child(j, k), here + [k], target);
      FindsNothingAmong(j, here, target, k + 1);
    }
  }

  lemma {:induction false} FindsPath(j: Json, here: Position, pos: Position)
    requires HasPosition(j, pos)
    ensures Find(j, here, here + pos) == Some(PathOf(j, pos))
    decreases Nesting(j), 1, 0
  {
    if pos != [] {
      FindsPathAmong(j, here, pos, 0);
    } else {
      assert here + pos == here;
    }
  }

  lemma {:induction false} FindsPathAmong(j: Json, here: Position, pos: Position, k: nat)
    requires pos != [] && HasPosition(j, pos) && k <= pos[0]
    ensures FindAmong(j, here, here + pos, k) == Some(PathOf(j, pos))
    decreases Nesting(j), 0, ChildCount(j) - k
  {
    var target := here + pos;
    if k == pos[0] {
      assert target == here + [k] + pos[1..];
      FindsPath(Child(j, k), here + [k], pos[1..]);
    } else {
      assert target[|here|] == pos[0];
      FindsNothing(Child(j, k), here + [k], target);
      FindsPathAmong(j, here, pos, k + 1);
    }
  }

  /** No key repeats among the siblings of any node on the way down `pos`. */
  predicate DistinctOnPath(j: Json, pos: Position)
    requires HasPosition(j, pos)
    decreases pos
  {
    pos == [] || ((j.Object? ==> DistinctKeys(j.members)) && DistinctOnPath(Child(j, pos[0]), pos[1..]))
  }

  /** Array indices a `usize` can hold. */
  predicate Addressable(pos: Position) {
    forall i :: 0 <= i < |pos| ==> pos[i] < SIZE_MAX_PLUS_ONE
  }

  lemma {:induction false} FindsOwnToken<T>(members: seq<Keyed<T>>, p: CString, i: nat, k: nat)
    requires i <= |p| && k < |members| && DistinctKeys(members)
    requires p[i..TokenEnd(p, i)] == Encode(members[k].key)
    ensures FindToken(members, p, i, true) == k
  {
    MatchesItsEncoding(members[0].key, p, i);
    if k > 0 {
      if Encode(members[0].key) == Encode(members[k].key) {
        EncodeInjective(members[0].key, members[k].key);
      }
      FindsOwnToken(members[1..], p, i, k - 1);
    }
  }

  /** The token of child `k` is resolved to child `k`. */
  lemma StepsToChild(j: Json, k: nat, p: CString, i: nat, rest: CString)
    requires k < ChildCount(j) && k < SIZE_MAX_PLUS_ONE && (j.Object? ==> DistinctKeys(j.members))
    requires i <= |p| && p[i..] == TokenOf(j, k) + rest && (rest == [] || rest[0] == SLASH)
    ensures Step(j, p, i, true) == Some(k) && p[TokenEnd(p, i)..] == rest
  {
    hide TokenEnd, DecodeIndex, FindToken;
    TokenIs(p, i, TokenOf(j, k), rest);
    if j.Array? {
      IndexDecodes(p, i, k, rest);
    } else {
      FindsOwnToken(j.members, p, i, k);
    }
  }

  /** Following the text of a position leads to that position. */
  lemma {:induction false} FollowsPath(j: Json, pos: Position, p: CString, i: nat)
    requires HasPosition(j, pos) && DistinctOnPath(j, pos) && Addressable(pos)
    requires i <= |p| && p[i..] == PathOf(j, pos)
    ensures Lookup(j, p, i, true) == Some(pos)
    decreases pos
  {
    hide TokenEnd, Step, TokenOf, Nesting;
    if pos != [] {
      var k, child := pos[0], Child(j, pos[0]);
      var token, rest := TokenOf(j, k), PathOf(child, pos[1..]);
      assert p[i] == p[i..][0];
      assert p[i + 1..] == p[i..][1..] == token + rest;
      StepsToChild(j, k, p, i + 1, rest);
      FollowsPath(child, pos[1..], p, TokenEnd(p, i + 1));
      assert [k] + pos[1..] == pos;
    }
  }

  /** Pointer discovery and lookup are inverse (sections 3 and 4 of RFC 6901): a pointer is found exactly for
      the nodes of the tree, and following it, key for key, leads back to that very node, whatever bytes the
      keys hold, as long as siblings have different keys. */
  lemma DiscoveryInvertsLookup(j: Json, target: Position)
    ensures Find(j, [], target).Some? <==> HasPosition(j, target)
    ensures HasPosition(j, target) && DistinctOnPath(j, target) && Addressable(target) ==>
      Lookup(j, Find(j, [], target).value, 0, true) == Some(target)
  {
    if HasPosition(j, target) {
      FindsPath(j, [], target);
      assert [] + target == target;
      if DistinctOnPath(j, target) && Addressable(target) {
        FollowsPath(j, target, PathOf(j, target), 0);
      }
    } else {
      assert target[0..] == target;
      FindsNothing(j, [], target);
    }
  }

  /** The search as the source runs it. The memory for each step's text is reserved before it is written:
      for an object exactly the bytes of slash, encoded key, the rest and the NUL; for an array 20 digits. */
  method FindPointer(j: Json, here: Position, target: Position) returns (pointer: Option<CString>)
    requires forall i :: 0 <= i < |target| ==> target[i] < SIZE_MAX_PLUS_ONE
    ensures pointer == Find(j, here, target)
    decreases Nesting(j)
  {
    if here == target {
      return Some([]);
    }
    var k := 0;
    while k < ChildCount(j)
      invariant k <= ChildCount(j)
      invariant Find(j, here, target) == FindAmong(j, here, target, k)
    {
      pointer := FindPointer(Child(j, k), here + [k], target);
      if pointer.Some? {
        FoundBelow(Child(j, k), here + [k], target);
        assert target[|here|] == k;
        var text := ComposeStep(j, k, pointer.value);
        return Some(text);
      }
      k := k + 1;
    }
    return None;
  }

  lemma FoundBelow(j: Json, here: Position, target: Position)
    requires Find(j, here, target).Some?
    ensures here <= target
  {
    if Elsewhere(j, here, target) {
      FindsNothing(j, here, target);
    }
  }

  /** `"/<index or encoded key><rest>"` in freshly reserved memory. */
  method ComposeStep(j: Json, k: nat, rest: CString) returns (text: CString)
    requires k < ChildCount(j) && k < SIZE_MAX_PLUS_ONE
    ensures text == [SLASH] + TokenOf(j, k) + rest
  {
    match j {
      case Array(items) =>
        IndexLength(k);
        var memory := new Byte[|rest| + 20 + 2];
        memory[0] := SLASH;
        CopyString(memory, 1, Digits(k));
        text := Concatenate(memory, [SLASH] + Digits(k), rest);
      case Object(members) =>
        var length := EncodedLength(members[k].key);
        var memory := new Byte[|rest| + length + 2];
        memory[0] := SLASH;
        EncodeInto(memory, 1, members[k].key);
        assert memory[..1 + length] == memory[..1 + length + 1][..1 + length] == [SLASH] + Encode(members[k].key);
        text := Concatenate(memory, [SLASH] + Encode(members[k].key), rest);
    }
  }

  method CopyString(memory: array<Byte>, at: nat, s: CString)
    requires at + |s| <= memory.Length
    modifies memory
    ensures memory[..at + |s|] == old(memory[..at]) + s
  {
    for i := 0 to |s|
      invariant memory[..at + i] == old(memory[..at]) + s[..i]
    {
      memory[at + i] := s[i];
    }
  }

  /** `strcat` behind `front`, and the string that is then in memory. */
  method Concatenate(memory: array<Byte>, front: CString, rest: CString) returns (text: CString)
    requires |front| + |rest| < memory.Length && memory[..|front|] == front
    modifies memory
    ensures text == front + rest
  {
    CopyString(memory, |front|, rest);
    memory[|front| + |rest|] := 0;
    UpToNulStops(memory[..], |front| + |rest|);
    assert memory[..][..|front| + |rest|] == front + rest;
    UpToNulOfCString(front + rest);
    text := UpToNul(memory[..]);
  }

  /** The decimal text of a `usize` has at most 20 digits. */
  lemma IndexLength(k: nat)
    requires k < SIZE_MAX_PLUS_ONE
    ensures |Digits(k)| <= 20
  {
    assert Pow10(20) == 100000000000000000000 by {
      assert Pow10(5) == 100000;
      assert Pow10(10) == 10000000000;
      assert Pow10(15) == 1000000000000000;
    }
    DigitsLength(k, 20);
  }
}
