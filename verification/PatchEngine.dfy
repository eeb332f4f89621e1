/** The patch engine as the source runs it: a document edited in place, and a growing list of patches. */
module PatchEngine {
  import opened Bytes
  import opened Json
  import opened MergeSort
  import opened Canon
  import opened Compare
  import opened CompareWalk
  import opened Pointer
  import opened Paths
  import opened Patch
  import DecodeInPlace
  import Generate = PatchGenerate

  lemma LastSlashUpTo(path: CString, i: nat)
    requires i < |path|
    ensures LastSlash(path[..i + 1]) == if path[i] == SLASH then Some(i) else LastSlash(path[..i])
  {
    assert path[..i + 1][..i] == path[..i];
  }

  /** `cstr_rchr(path, '/')`. */
  method CLastSlash(path: CString) returns (last: Option<nat>)
    ensures last == LastSlash(path)
  {
    last := None;
    var i := 0;
    while At(path, i) != 0
      invariant i <= |path| && last == LastSlash(path[..i])
      decreases |path| - i
    {
      LastSlashUpTo(path, i);
      if path[i] == SLASH {
        last := Some(i);
      }
      i := i + 1;
    }
    assert path[..i] == path;
  }

  /** The token behind the last slash, copied out and decoded where it lies. */
  method DecodedToken(token: CString) returns (child: CString)
    ensures child == DecodeInPlace.Decode(token)
  {
    var memory := new Byte[|token| + 1];
    CopyString(memory, 0, token);
    memory[|token|] := 0;
    assert memory[..|token|] == token;
    DecodeInPlace.DecodePointerInPlace(memory, token);
    child := UpToNul(memory[..]);
  }

  lemma NothingToDetach(path: CString, caseSensitive: bool)
    ensures FindPlace(Null, path, caseSensitive) == None
  {
    hide Lookup, LastSlash;
    var place := FindPlace(Null, path, caseSensitive);
    if place.Some? {
      assert HasPlace(Null, place.value);
    }
  }

  /** The document a list of patches is applied to. A root that was removed is a node of no type. */
  class Document {
    var root: Option<Json>

    constructor (tree: Json)
      ensures root == Some(tree)
    {
      root := Some(tree);
    }

    ghost function Tree(): Json
      reads this
    {
      if root.Some? then root.value else Null
    }

    method Find(pointer: CString, caseSensitive: bool) returns (found: Option<Position>)
      ensures found == Lookup(Tree(), pointer, 0, caseSensitive)
    {
      found := GetItemFromPointer(if root.Some? then root.value else Null, pointer, caseSensitive);
    }

    /** Writes a child list back into the node at `parent`. */
    method Relink(parent: Position, node: Json)
      requires HasPosition(Tree(), parent)
      modifies this
      ensures root == if old(root).Some? then Some(Put(old(root).value, parent, node)) else None
    {
      if root.Some? {
        root := Some(Put(root.value, parent, node));
      }
    }

    method DetachPath(path: CString, caseSensitive: bool) returns (detached: Option<Json>)
      modifies this
      ensures match FindPlace(old(Tree()), path, caseSensitive)
        case None => detached == None && root == old(root)
        case Some(place) =>
          && detached == Some(Detached(old(Tree()), place))
          && root == if old(root).Some? then Some(Detach(old(root).value, place)) else None
    {
      hide Lookup, DecodeIndex, FindKey, LastSlash, Get, Put;
      var slash := CLastSlash(path);
      if slash.None? {
        return None;
      }
      var parent := Find(path[..slash.value], caseSensitive);
      var child := DecodedToken(path[slash.value + 1..]);
      if parent.None? {
        return None;
      }
      var node := Get(if root.Some? then root.value else Null, parent.value);
      match node {
        case Array(items) =>
          var index := CDecodeIndex(child, 0);
          if index.None? || index.value >= |items| {
            return None;
          }
          Relink(parent.value, Array(Without(items, index.value)));
          return Some(items[index.value]);
        case Object(members) =>
          var k := CFindKey(members, child, false);
          if k == |members| {
            return None;
          }
          Relink(parent.value, Object(Without(members, k)));
          return Some(members[k].item);
        case _ =>
          return None;
      }
    }

    /** The last part of `apply_patch`. */
    method AddAt(path: CString, value: Json, caseSensitive: bool) returns (status: int)
      modifies this
      ensures var edited := AddValue(old(Tree()), path, value, caseSensitive);
        status == edited.status && root == if old(root).Some? then Some(edited.doc) else None
    {
      hide Lookup, DecodeIndex, FindKey, LastSlash, Get, Put;
      var slash := CLastSlash(path);
      if slash.None? {
        return 9;
      }
      var parent := Find(path[..slash.value], caseSensitive);
      var child := DecodedToken(path[slash.value + 1..]);
      if parent.None? {
        return 9;
      }
      status := 0;
      match Get(if root.Some? then root.value else Null, parent.value) {
        case Array(items) =>
          if child == [MINUS] {
            Relink(parent.value, Array(items + [value]));
            return;
          }
          var index := CDecodeIndex(child, 0);
          if index.None? {
            return 11;
          }
          if index.value > |items| {
            return 10;
          }
          Relink(parent.value, Array(items[..index.value] + [value] + items[index.value..]));
        case Object(members) =>
          var k := CFindKey(members, child, caseSensitive);
          var others := members;
          if k < |members| {
            others := Without(members, k);
          }
          Relink(parent.value, Object(others + [Keyed(child, value)]));
        case _ =>
          return 9;
      }
    }

    /** The `test` operation: the objects it walks stay sorted behind it. */
    method TestAt(path: CString, expected: Json, caseSensitive: bool) returns (status: int, ghost linked: bool)
      requires root.Some?
      modifies this
      ensures Outcome(status, root, linked) == TestValue(old(root).value, path, expected, caseSensitive)
    {
      hide Lookup, CompareSorted, Put, Get;
      var found := Find(path, caseSensitive);
      if found.None? {
        return 1, true;
      }
      var node := Get(root.value, found.value);
      linked := StaysLinked(node, expected, caseSensitive);
      var holds, left, right := CCompareSorted(node, expected, caseSensitive);
      Relink(found.value, left);
      status := if holds then 0 else 1;
    }

    /** `apply_patch`. The ghost result says whether the links that the code relies on are still there. */
    method ApplyPatch(patch: Json, caseSensitive: bool) returns (status: int, ghost linked: bool)
      modifies this
      ensures Outcome(status, root, linked) == Apply(old(root), patch, caseSensitive)
    {
      hide Lookup, FindKey, FindPlace, AddValue, DecodeOperation, TestValue;
      linked := true;
      var path := Item(patch, PATH, caseSensitive);
      if !(path.Some? && path.value.String?) {
        return 2, linked;
      }
      var text := path.value.s;
      var operation := DecodeOperation(patch, caseSensitive);
      if operation == Invalid {
        return 3, linked;
      }
      if operation == Test {
        var expected := Item(patch, VALUE, caseSensitive);
        if root.None? || expected.None? {
          return 1, linked;
        }
        status, linked := TestAt(text, expected.value, caseSensitive);
        return;
      }
      if text == [] {
        if operation == Remove {
          root := None;
          return 0, linked;
        }
        if operation == Replace || operation == Add {
          var value := Item(patch, VALUE, caseSensitive);
          if value.None? {
            return 7, linked;
          }
          var copy := Duplicate(value.value);
          if copy.None? {
            return 8, linked;
          }
          root := copy;
          return 0, linked;
        }
      }
      status := EditAt(operation, text, patch, caseSensitive);
    }

    method EditAt(operation: Operation, path: CString, patch: Json, caseSensitive: bool) returns (status: int)
      requires operation != Invalid && operation != Test
      modifies this
      ensures var edited := Edit(old(Tree()), operation, path, patch, caseSensitive);
        status == edited.status && root == if old(root).Some? then Some(edited.doc) else None
    {
      hide Lookup, FindKey, FindPlace, AddValue, Put, Get;
      NothingToDetach(path, caseSensitive);
      if operation == Remove || operation == Replace {
        var removed := DetachPath(path, caseSensitive);
        if removed.None? {
          return 13;
        }
        if operation == Remove {
          return 0;
        }
      }
      var value: Option<Json>;
      if operation == Move || operation == Copy {
        var from := Item(patch, FROM, caseSensitive);
        if !(from.Some? && from.value.String?) {
          return 4;
        }
        if operation == Move {
          NothingToDetach(from.value.s, caseSensitive);
          value := DetachPath(from.value.s, caseSensitive);
          if value.None? {
            return 5;
          }
        } else {
          var source := Find(from.value.s, caseSensitive);
          if source.None? {
            return 5;
          }
          value := Duplicate(Get(if root.Some? then root.value else Null, source.value));
          if value.None? {
            return 6;
          }
        }
      } else {
        value := Item(patch, VALUE, caseSensitive);
        if value.None? {
          return 7;
        }
        value := Duplicate(value.value);
        if value.None? {
          return 8;
        }
      }
      status := AddAt(path, value.value, caseSensitive);
    }

    /** `cJSONUtils_ApplyPatches` and its case-sensitive variant. */
    method ApplyPatches(patches: Json, caseSensitive: bool) returns (status: int, ghost linked: bool)
      modifies this
      ensures Outcome(status, root, linked) == Patch.ApplyPatches(old(root), patches, caseSensitive)
    {
      hide Apply;
      linked := true;
      if !patches.Array? {
        return 1, linked;
      }
      var k := 0;
      while k < |patches.items|
        invariant k <= |patches.items|
        invariant var rest := ApplyAll(root, patches.items[k..], caseSensitive);
          ApplyAll(old(root), patches.items, caseSensitive) == Outcome(rest.status, rest.doc, linked && rest.linked)
      {
        assert patches.items[k..][1..] == patches.items[k + 1..];
        ghost var still;
        status, still := ApplyPatch(patches.items[k], caseSensitive);
        linked := linked && still;
        if status != 0 {
          return;
        }
        k := k + 1;
      }
      return 0, linked;
    }
  }

  /** The `patches` array under construction. */
  class PatchList {
    var patches: seq<Json>

    constructor ()
      ensures patches == []
    {
      patches := [];
    }

    /** `compose_patch`, with the path composed in memory of exactly the reserved size. */
    method ComposePatch(operation: CString, path: CString, suffix: Option<CString>, value: Option<Json>)
      modifies this
      ensures patches == old(patches) + [Generate.Compose(operation, path, suffix, value)]
    {
      hide Copyable, Encode;
      var patch: seq<Keyed<Json>> := [Keyed(OP, String(operation))];
      if suffix.None? {
        patch := patch + [Keyed(PATH, String(path))];
      } else {
        var full := JoinEncoded(path, suffix.value);
        patch := patch + [Keyed(PATH, String(full))];
      }
      if value.Some? {
        var copy := Duplicate(value.value);
        if copy.Some? {
          patch := patch + [Keyed(VALUE, copy.value)];
        }
      }
      assert patch == Generate.Compose(operation, path, suffix, value).members;
      patches := patches + [Object(patch)];
    }

    /** `create_patches`, with what it leaves of the two trees. */
    method CreatePatches(path: CString, from: Json, to: Json, caseSensitive: bool) returns (left: Json, right: Json)
      modifies this
      ensures patches == old(patches) + Generate.CreatePatches(path, from, to, caseSensitive)
      ensures left == Generate.Behind(from, to, caseSensitive) && right == Generate.Behind(to, from, caseSensitive)
      decreases Nesting(from), 2
    {
      hide Generate.Compose, Generate.MemberPatches, Generate.ItemPatches, Sort;
      left, right := from, to;
      match (from, to) {
        case (Array(xs), Array(ys)) =>
          var ls, rs := ItemPatches(path, xs, ys, caseSensitive);
          left, right := Array(ls), Array(rs);
        case (Object(xs), Object(ys)) =>
          forall i | 0 <= i < |xs| ensures Nesting(Sort(xs, caseSensitive)[i].item) < Nesting(from) {
            SortedNesting(xs, caseSensitive, i);
          }
          var ls, rs := MemberPatches(path, Sort(xs, caseSensitive), Sort(ys, caseSensitive), caseSensitive, Nesting(from));
          left, right := Object(ls), Object(rs);
        case _ =>
          if from != to {
            ComposePatch(REPLACE_TEXT, path, None, Some(to));
          }
      }
    }

    /** The three loops over array elements: shared ones, leftovers to remove, new ones to add. */
    method ItemPatches(path: CString, xs: seq<Json>, ys: seq<Json>, caseSensitive: bool) returns (ls: seq<Json>, rs: seq<Json>)
      modifies this
      ensures patches == old(patches) + Generate.ItemPatches(path, xs, ys, caseSensitive, 0)
      ensures ls == Generate.BehindItems(xs, ys, caseSensitive) && rs == Generate.BehindItems(ys, xs, caseSensitive)
      decreases 1 + ItemsNesting(xs), 1
    {
      hide Generate.Compose, Generate.CreatePatches, Generate.ItemPatches, Digits, Generate.Behind, ItemsBehind;
      ghost var all := old(patches) + Generate.ItemPatches(path, xs, ys, caseSensitive, 0);
      var k := 0;
      ls, rs := [], [];
      ItemsBehindStart(xs, ys, caseSensitive);
      while k < |xs| && k < |ys|
        invariant k <= |xs| && k <= |ys|
        invariant patches + Generate.ItemPatches(path, xs, ys, caseSensitive, k) == all
        invariant ItemsBehind(xs, ys, caseSensitive, k, ls) && ItemsBehind(ys, xs, caseSensitive, k, rs)
      {
        ItemNesting(xs, k);
        ItemsStep(path, xs, ys, caseSensitive, k);
        var below := JoinIndex(path, k);
        ghost var before := patches;
        var left, right := CreatePatches(below, xs[k], ys[k], caseSensitive);
        ItemsBehindStep(xs, ys, caseSensitive, k, ls, left);
        ItemsBehindStep(ys, xs, caseSensitive, k, rs, right);
        ls, rs, k := ls + [left], rs + [right], k + 1;
        AssocPatches(before, patches[|before|..], Generate.ItemPatches(path, xs, ys, caseSensitive, k));
      }
      ItemsEnd(path, xs, ys, caseSensitive, k);
      RemoveLeftovers(path, k, |xs| - k);
      AddLeftovers(path, ys[k..]);
      ItemsBehindEnd(xs, ys, caseSensitive, k, ls);
      ItemsBehindEnd(ys, xs, caseSensitive, k, rs);
      ls, rs := ls + xs[k..], rs + ys[k..];
    }

    method RemoveLeftovers(path: CString, index: nat, count: nat)
      modifies this
      ensures patches == old(patches) + Generate.RemoveItems(path, index, count)
    {
      hide Generate.Compose, Digits;
      var left := count;
      while left > 0
        invariant 0 <= left <= count
        invariant patches + Generate.RemoveItems(path, index, left) == old(patches) + Generate.RemoveItems(path, index, count)
      {
        ComposePatch(REMOVE_TEXT, path, Some(Digits(index)), None);
        left := left - 1;
      }
    }

    method AddLeftovers(path: CString, items: seq<Json>)
      modifies this
      ensures patches == old(patches) + Generate.AddItems(path, items)
    {
      hide Generate.Compose;
      var i := 0;
      while i < |items|
        invariant i <= |items|
        invariant patches + Generate.AddItems(path, items[i..]) == old(patches) + Generate.AddItems(path, items)
      {
        assert items[i..][1..] == items[i + 1..];
        ComposePatch(ADD_TEXT, path, Some([MINUS]), Some(items[i]));
        i := i + 1;
      }
    }

    /** The walk over two sorted objects. */
    method MemberPatches(path: CString, xs: seq<Keyed<Json>>, ys: seq<Keyed<Json>>, caseSensitive: bool, ghost depth: nat)
      returns (ls: seq<Keyed<Json>>, rs: seq<Keyed<Json>>)
      requires forall i :: 0 <= i < |xs| ==> Nesting(xs[i].item) < depth
      modifies this
      ensures patches == old(patches) + Generate.MemberPatches(path, xs, ys, caseSensitive, depth)
      ensures ls == Generate.BehindMembers(xs, ys, caseSensitive) && rs == Generate.BehindMembers(ys, xs, caseSensitive)
      decreases depth, 0
    {
      hide Generate.Compose, Generate.CreatePatches, Generate.MemberPatches, Encode, CompareStrings, Generate.Behind, MembersBehind;
      ghost var all := old(patches) + Generate.MemberPatches(path, xs, ys, caseSensitive, depth);
      var i, k := 0, 0;
      ls, rs := [], [];
      assert xs[0..] == xs && ys[0..] == ys;
      MembersBehindStart(xs, ys, caseSensitive);
      while i < |xs| || k < |ys|
        invariant i <= |xs| && k <= |ys|
        invariant patches + Generate.MemberPatches(path, xs[i..], ys[k..], caseSensitive, depth) == all
        invariant MembersBehind(xs, ys, caseSensitive, i, k, ls) && MembersBehind(ys, xs, caseSensitive, k, i, rs)
        decreases |xs| - i + |ys| - k
      {
        var diff := 1;
        if i < |xs| {
          diff := -1;
          if k < |ys| {
            diff := CCompareStrings(xs[i].key, ys[k].key, caseSensitive);
          }
        }
        ghost var before := patches;
        WalkStep(path, xs, ys, i, k, caseSensitive, depth, diff);
        HeadsAre(xs, ys, i, k, caseSensitive, diff);
        if diff == 0 {
          var below := JoinEncoded(path, xs[i].key);
          var left, right := CreatePatches(below, xs[i].item, ys[k].item, caseSensitive);
          MembersBehindBoth(xs, ys, caseSensitive, i, k, ls, left);
          MembersBehindBoth(ys, xs, caseSensitive, k, i, rs, right);
          ls, rs := ls + [Keyed(xs[i].key, left)], rs + [Keyed(ys[k].key, right)];
          i, k := i + 1, k + 1;
        } else if diff < 0 {
          ComposePatch(REMOVE_TEXT, path, Some(xs[i].key), None);
          MembersBehindOne(xs, ys, caseSensitive, i, k, ls, rs);
          ls, i := ls + [xs[i]], i + 1;
        } else {
          ComposePatch(ADD_TEXT, path, Some(ys[k].key), Some(ys[k].item));
          MembersBehindOne(ys, xs, caseSensitive, k, i, rs, ls);
          rs, k := rs + [ys[k]], k + 1;
        }
        AssocPatches(before, patches[|before|..], Generate.MemberPatches(path, xs[i..], ys[k..], caseSensitive, depth));
      }
      WalkEnd(path, xs, ys, caseSensitive, depth);
      MembersBehindEnd(xs, ys, caseSensitive, ls);
      MembersBehindEnd(ys, xs, caseSensitive, rs);
    }
  }

  /** The first `k` elements of the array have been walked and are left as `ls`. */
  ghost predicate ItemsBehind(xs: seq<Json>, ys: seq<Json>, caseSensitive: bool, k: nat, ls: seq<Json>)
    requires k <= |xs| && k <= |ys|
  {
    Generate.BehindItems(xs, ys, caseSensitive) == ls + Generate.BehindItems(xs[k..], ys[k..], caseSensitive)
  }

  lemma ItemsBehindStart(xs: seq<Json>, ys: seq<Json>, caseSensitive: bool)
    ensures ItemsBehind(xs, ys, caseSensitive, 0, []) && ItemsBehind(ys, xs, caseSensitive, 0, [])
  {
    hide Generate.BehindItems;
    assert xs[0..] == xs && ys[0..] == ys;
  }

  lemma ItemsBehindStep(xs: seq<Json>, ys: seq<Json>, caseSensitive: bool, k: nat, ls: seq<Json>, left: Json)
    requires k < |xs| && k < |ys| && ItemsBehind(xs, ys, caseSensitive, k, ls) && left == Generate.Behind(xs[k], ys[k], caseSensitive)
    ensures ItemsBehind(xs, ys, caseSensitive, k + 1, ls + [left])
  {
    hide Generate.BehindItems, Generate.Behind;
    Generate.BehindItemsAt(xs, ys, k, caseSensitive);
    AssocPatches(ls, [left], Generate.BehindItems(xs[k + 1..], ys[k + 1..], caseSensitive));
  }

  lemma ItemsBehindEnd(xs: seq<Json>, ys: seq<Json>, caseSensitive: bool, k: nat, ls: seq<Json>)
    requires k <= |xs| && k <= |ys| && (k == |xs| || k == |ys|) && ItemsBehind(xs, ys, caseSensitive, k, ls)
    ensures ls + xs[k..] == Generate.BehindItems(xs, ys, caseSensitive)
  {
    hide Generate.BehindItems;
    Generate.BehindItemsAt(xs, ys, k, caseSensitive);
  }

  /** The members in front of the two cursors have been walked, and those of the first object are left as `ls`. */
  ghost predicate MembersBehind(xs: seq<Keyed<Json>>, ys: seq<Keyed<Json>>, caseSensitive: bool, i: nat, k: nat, ls: seq<Keyed<Json>>)
    requires i <= |xs| && k <= |ys|
  {
    Generate.BehindMembers(xs, ys, caseSensitive) == ls + Generate.BehindMembers(xs[i..], ys[k..], caseSensitive)
  }

  lemma MembersBehindStart(xs: seq<Keyed<Json>>, ys: seq<Keyed<Json>>, caseSensitive: bool)
    ensures MembersBehind(xs, ys, caseSensitive, 0, 0, []) && MembersBehind(ys, xs, caseSensitive, 0, 0, [])
  {
    hide Generate.BehindMembers;
    assert xs[0..] == xs && ys[0..] == ys;
  }

  lemma HeadsAre(xs: seq<Keyed<Json>>, ys: seq<Keyed<Json>>, i: nat, k: nat, caseSensitive: bool, diff: int)
    requires i <= |xs| && k <= |ys| && (i < |xs| || k < |ys|)
    requires diff == if i == |xs| then 1 else if k == |ys| then -1 else CompareStrings(xs[i].key, ys[k].key, caseSensitive)
    ensures Generate.HeadDifference(xs[i..], ys[k..], caseSensitive) == diff
    ensures Generate.HeadDifference(ys[k..], xs[i..], caseSensitive) == -diff
  {
    hide CompareStrings;
    Generate.HeadSides(xs[i..], ys[k..], caseSensitive);
  }

  lemma AssocMembers(a: seq<Keyed<Json>>, b: seq<Keyed<Json>>, c: seq<Keyed<Json>>)
    ensures a + (b + c) == a + b + c
  {
  }

  lemma MembersBehindBoth(xs: seq<Keyed<Json>>, ys: seq<Keyed<Json>>, caseSensitive: bool, i: nat, k: nat, ls: seq<Keyed<Json>>, left: Json)
    requires i < |xs| && k < |ys| && MembersBehind(xs, ys, caseSensitive, i, k, ls)
    requires left == Generate.Behind(xs[i].item, ys[k].item, caseSensitive) && Generate.HeadDifference(xs[i..], ys[k..], caseSensitive) == 0
    ensures MembersBehind(xs, ys, caseSensitive, i + 1, k + 1, ls + [Keyed(xs[i].key, left)])
  {
    hide Generate.BehindMembers, Generate.Behind, Generate.HeadDifference;
    Generate.BehindMembersAt(xs, ys, i, k, caseSensitive);
    AssocMembers(ls, [Keyed(xs[i].key, left)], Generate.BehindMembers(xs[i + 1..], ys[k + 1..], caseSensitive));
  }

  /** A member that only the first object has is passed. */
  lemma MembersBehindOne(xs: seq<Keyed<Json>>, ys: seq<Keyed<Json>>, caseSensitive: bool, i: nat, k: nat, ls: seq<Keyed<Json>>, rs: seq<Keyed<Json>>)
    requires i < |xs| && k <= |ys| && MembersBehind(xs, ys, caseSensitive, i, k, ls) && MembersBehind(ys, xs, caseSensitive, k, i, rs)
    requires Generate.HeadDifference(xs[i..], ys[k..], caseSensitive) < 0 < Generate.HeadDifference(ys[k..], xs[i..], caseSensitive)
    ensures MembersBehind(xs, ys, caseSensitive, i + 1, k, ls + [xs[i]]) && MembersBehind(ys, xs, caseSensitive, k, i + 1, rs)
  {
    hide Generate.BehindMembers, Generate.HeadDifference;
    Generate.BehindMembersAt(xs, ys, i, k, caseSensitive);
    Generate.BehindMembersAt(ys, xs, k, i, caseSensitive);
    AssocMembers(ls, [xs[i]], Generate.BehindMembers(xs[i + 1..], ys[k..], caseSensitive));
  }

  lemma MembersBehindEnd(xs: seq<Keyed<Json>>, ys: seq<Keyed<Json>>, caseSensitive: bool, ls: seq<Keyed<Json>>)
    requires MembersBehind(xs, ys, caseSensitive, |xs|, |ys|, ls)
    ensures ls == Generate.BehindMembers(xs, ys, caseSensitive)
  {
    assert xs[|xs|..] == [];
  }

  lemma AssocPatches(a: seq<Json>, b: seq<Json>, c: seq<Json>)
    ensures a + (b + c) == a + b + c
  {
  }

  lemma ItemsStep(path: CString, xs: seq<Json>, ys: seq<Json>, caseSensitive: bool, k: nat)
    requires k < |xs| && k < |ys|
    ensures Generate.ItemPatches(path, xs, ys, caseSensitive, k)
         == Generate.CreatePatches(path + ([SLASH] + Digits(k)), xs[k], ys[k], caseSensitive)
            + Generate.ItemPatches(path, xs, ys, caseSensitive, k + 1)
  {
    hide Generate.CreatePatches, Digits;
  }

  lemma ItemsEnd(path: CString, xs: seq<Json>, ys: seq<Json>, caseSensitive: bool, k: nat)
    requires k <= |xs| && k <= |ys| && (k == |xs| || k == |ys|)
    ensures Generate.ItemPatches(path, xs, ys, caseSensitive, k)
         == Generate.RemoveItems(path, k, |xs| - k) + Generate.AddItems(path, ys[k..])
  {
    hide Generate.Compose;
  }

  lemma WalkEnd(path: CString, xs: seq<Keyed<Json>>, ys: seq<Keyed<Json>>, caseSensitive: bool, depth: nat)
    ensures Generate.MemberPatches(path, xs[|xs|..], ys[|ys|..], caseSensitive, depth) == []
  {
  }

  /** One turn of the walk, in terms of the two cursors. */
  lemma WalkStep(path: CString, xs: seq<Keyed<Json>>, ys: seq<Keyed<Json>>, i: nat, k: nat, caseSensitive: bool, depth: nat, diff: int)
    requires forall i :: 0 <= i < |xs| ==> Nesting(xs[i].item) < depth
    requires i <= |xs| && k <= |ys| && (i < |xs| || k < |ys|)
    requires diff == if i == |xs| then 1 else if k == |ys| then -1 else CompareStrings(xs[i].key, ys[k].key, caseSensitive)
    ensures Generate.MemberPatches(path, xs[i..], ys[k..], caseSensitive, depth) ==
      if diff == 0 then
        Generate.CreatePatches(path + ([SLASH] + Encode(xs[i].key)), xs[i].item, ys[k].item, caseSensitive)
        + Generate.MemberPatches(path, xs[i + 1..], ys[k + 1..], caseSensitive, depth)
      else if diff < 0 then
        [Generate.Compose(REMOVE_TEXT, path, Some(xs[i].key), None)]
        + Generate.MemberPatches(path, xs[i + 1..], ys[k..], caseSensitive, depth)
      else
        [Generate.Compose(ADD_TEXT, path, Some(ys[k].key), Some(ys[k].item))]
        + Generate.MemberPatches(path, xs[i..], ys[k + 1..], caseSensitive, depth)
  {
    hide Generate.Compose, Generate.CreatePatches, Encode, CompareStrings;
    assert i < |xs| ==> xs[i..][1..] == xs[i + 1..] && xs[i] == xs[i..][0];
    assert k < |ys| ==> ys[k..][1..] == ys[k + 1..] && ys[k] == ys[k..][0];
  }

  /** `<path>/<encoded key>` in memory of exactly the size that `pointer_encoded_length` asks for. */
  method JoinEncoded(path: CString, key: CString) returns (text: CString)
    ensures text == path + ([SLASH] + Encode(key))
  {
    hide Encode;
    var length := EncodedLength(key);
    var memory := new Byte[|path| + length + 2];
    CopyString(memory, 0, path);
    memory[|path|] := SLASH;
    assert memory[..|path| + 1] == path + [SLASH];
    EncodeInto(memory, |path| + 1, key);
    text := Whole(memory, path + [SLASH] + Encode(key));
  }

  /** `<path>/<index>`. */
  method JoinIndex(path: CString, index: nat) returns (text: CString)
    ensures text == path + ([SLASH] + Digits(index))
  {
    hide Digits;
    var digits := Digits(index);
    var memory := new Byte[|path| + 1 + |digits| + 1];
    CopyString(memory, 0, path);
    memory[|path|] := SLASH;
    assert memory[..|path| + 1] == path + [SLASH];
    CopyString(memory, |path| + 1, digits);
    memory[|path| + 1 + |digits|] := 0;
    text := Whole(memory, path + [SLASH] + digits);
  }

  /** The string in memory that it fills to the last byte. */
  method Whole(memory: array<Byte>, ghost s: CString) returns (text: CString)
    requires memory.Length == |s| + 1 && memory[..|s|] == s && memory[|s|] == 0
    ensures text == s
  {
    UpToNulStops(memory[..], |s|);
    assert memory[..][..|s|] == s;
    UpToNulOfCString(s);
    text := UpToNul(memory[..]);
  }

  /** `cJSONUtils_GeneratePatchesCaseSensitive` and the variant that ignores case, with what they leave of the trees. */
  method GeneratePatches(from: Json, to: Json, caseSensitive: bool) returns (patches: Json, left: Json, right: Json)
    ensures patches == Array(Generate.CreatePatches([], from, to, caseSensitive))
    ensures left == Generate.Behind(from, to, caseSensitive) && right == Generate.Behind(to, from, caseSensitive)
  {
    var list := new PatchList();
    left, right := list.CreatePatches([], from, to, caseSensitive);
    patches := Array(list.patches);
  }
}
