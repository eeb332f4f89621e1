/** RFC 6902 `add` (section 4.1) followed by `remove` (section 4.2) at the same path. */
module PatchUndo {
  import opened Bytes
  import opened Json
  import opened Canon
  import opened Compare
  import opened Pointer
  import opened Paths
  import opened Patch
  import DecodeInPlace

  // ----- laws of positions -----

  lemma {:induction false} PutIsThere(j: Json, pos: Position, v: Json)
    requires HasPosition(j, pos)
    ensures HasPosition(Put(j, pos, v), pos) && Get(Put(j, pos, v), pos) == v
    decreases pos
  {
    if pos != [] {
      PutIsThere(Child(j, pos[0]), pos[1..], v);
    }
  }

  lemma {:induction false} PutTwice(j: Json, pos: Position, v: Json, w: Json)
    requires HasPosition(j, pos)
    ensures HasPosition(Put(j, pos, v), pos) && Put(Put(j, pos, v), pos, w) == Put(j, pos, w)
    decreases pos
  {
    if pos != [] {
      PutTwice(Child(j, pos[0]), pos[1..], v, w);
    }
  }

  lemma {:induction false} PutBack(j: Json, pos: Position)
    requires HasPosition(j, pos)
    ensures Put(j, pos, Get(j, pos)) == j
    decreases pos
  {
    if pos != [] {
      PutBack(Child(j, pos[0]), pos[1..]);
    }
  }

  lemma {:induction false} PutInjective(j: Json, pos: Position, v: Json)
    requires HasPosition(j, pos)
    ensures Put(j, pos, v) == j <==> v == Get(j, pos)
    decreases pos
  {
    PutIsThere(j, pos, v);
    PutBack(j, pos);
  }

  lemma {:induction false} FindTokenSameKeys(a: seq<Keyed<Json>>, b: seq<Keyed<Json>>, p: CString, i: nat, caseSensitive: bool)
    requires i <= |p| && |a| == |b| && forall k :: 0 <= k < |a| ==> a[k].key == b[k].key
    ensures FindToken(a, p, i, caseSensitive) == FindToken(b, p, i, caseSensitive)
  {
    if a != [] {
      FindTokenSameKeys(a[1..], b[1..], p, i, caseSensitive);
    }
  }

  /** A step is the same when only the child it leads to has changed. */
  lemma StepAfter(j: Json, p: CString, i: nat, caseSensitive: bool, k: nat, child: Json)
    requires i <= |p| && k < ChildCount(j)
    ensures Step(WithChild(j, k, child), p, i, caseSensitive) == Step(j, p, i, caseSensitive)
  {
    hide DecodeIndex, FindToken;
    if j.Object? {
      FindTokenSameKeys(j.members, WithChild(j, k, child).members, p, i, caseSensitive);
    }
  }

  /** A path leads to the same place when only the node it leads to has changed. */
  lemma {:induction false} LookupAfterPut(j: Json, p: CString, i: nat, caseSensitive: bool, pos: Position, v: Json)
    requires i <= |p| && Lookup(j, p, i, caseSensitive) == Some(pos)
    ensures Lookup(Put(j, pos, v), p, i, caseSensitive) == Some(pos)
    decreases pos
  {
    hide Step, TokenEnd;
    if i < |p| && p[i] == SLASH {
      var k := Step(j, p, i + 1, caseSensitive).value;
      var child := Child(j, k);
      assert pos[0] == k && pos[1..] == Lookup(child, p, TokenEnd(p, i + 1), caseSensitive).value;
      StepAfter(j, p, i + 1, caseSensitive, k, Put(child, pos[1..], v));
      LookupAfterPut(child, p, TokenEnd(p, i + 1), caseSensitive, pos[1..], v);
      assert [k] + pos[1..] == pos;
    }
  }

  // ----- add, then remove -----

  /** What an `add` that succeeds must find at its path to be undone by a `remove` there: an array element by
      index and not by "-", or an object without a member whose key agrees ignoring case. */
  predicate Restorable(doc: Json, path: CString, caseSensitive: bool) {
    match LastSlash(path)
    case None => false
    case Some(n) =>
      match Lookup(doc, path[..n], 0, caseSensitive)
      case None => false
      case Some(parent) =>
        var child := DecodeInPlace.Decode(path[n + 1..]);
        match Get(doc, parent)
        case Array(items) => child != [MINUS]
        case Object(members) => FindKey(members, child, false) == |members|
        case _ => false
  }

  /** The document comes back exactly, member order included, if and only if the path is restorable. */
  lemma AddThenRemove(doc: Json, path: CString, value: Json, patch: Json, caseSensitive: bool)
    requires AddValue(doc, path, value, caseSensitive).status == 0
    ensures Edit(AddValue(doc, path, value, caseSensitive).doc, Remove, path, patch, caseSensitive) == Edited(0, doc)
      <==> Restorable(doc, path, caseSensitive)
  {
    hide Lookup, Put, Get, DecodeIndex, FindKey, CompareStrings, Edit;
    var n := LastSlash(path).value;
    var parent := Lookup(doc, path[..n], 0, caseSensitive).value;
    var child := DecodeInPlace.Decode(path[n + 1..]);
    match Get(doc, parent) {
      case Array(items) => AddThenRemoveItem(doc, path, value, patch, caseSensitive, n, parent, items);
      case Object(members) => AddThenRemoveMember(doc, path, value, patch, caseSensitive, n, parent, members);
      case _ =>
    }
  }

  /** Removing below a node that was just put there. */
  lemma RemoveBelowPut(doc: Json, path: CString, patch: Json, caseSensitive: bool, n: nat, parent: Position, x: Json)
    requires LastSlash(path) == Some(n) && Lookup(doc, path[..n], 0, caseSensitive) == Some(parent)
    ensures Edit(Put(doc, parent, x), Remove, path, patch, caseSensitive) ==
      match FindChild(x, DecodeInPlace.Decode(path[n + 1..]))
      case None => Edited(13, Put(doc, parent, x))
      case Some(k) => Edited(0, Put(doc, parent, WithoutChild(x, k)))
  {
    hide Lookup, Put, Get, FindChild;
    LookupAfterPut(doc, path[..n], 0, caseSensitive, parent, x);
    PutIsThere(doc, parent, x);
    var k := FindChild(x, DecodeInPlace.Decode(path[n + 1..]));
    if k.Some? {
      PutTwice(doc, parent, x, WithoutChild(x, k.value));
    }
  }

  lemma AddsAt(doc: Json, path: CString, value: Json, caseSensitive: bool, n: nat, parent: Position)
    requires LastSlash(path) == Some(n) && Lookup(doc, path[..n], 0, caseSensitive) == Some(parent)
    ensures AddValue(doc, path, value, caseSensitive) == AddChild(doc, parent, DecodeInPlace.Decode(path[n + 1..]), value, caseSensitive)
  {
    hide Lookup, LastSlash, AddChild;
  }

  lemma AddThenRemoveItem(doc: Json, path: CString, value: Json, patch: Json, caseSensitive: bool, n: nat, parent: Position, items: seq<Json>)
    requires LastSlash(path) == Some(n) && Lookup(doc, path[..n], 0, caseSensitive) == Some(parent) && Get(doc, parent) == Array(items)
    requires AddValue(doc, path, value, caseSensitive).status == 0
    ensures Edit(AddValue(doc, path, value, caseSensitive).doc, Remove, path, patch, caseSensitive) == Edited(0, doc)
      <==> DecodeInPlace.Decode(path[n + 1..]) != [MINUS]
  {
    hide Lookup, Put, Get, FindKey, Edit, AddValue, LastSlash, DecodeInPlace.Decode;
    AddsAt(doc, path, value, caseSensitive, n, parent);
    var child := DecodeInPlace.Decode(path[n + 1..]);
    PutBack(doc, parent);
    if child == [MINUS] {
      RemoveBelowPut(doc, path, patch, caseSensitive, n, parent, Array(items + [value]));
      assert DecodeIndex([MINUS], 0) == None;
    } else {
      var k := DecodeIndex(child, 0).value;
      var longer := items[..k] + [value] + items[k..];
      assert AddValue(doc, path, value, caseSensitive).doc == Put(doc, parent, Array(longer));
      RemoveBelowPut(doc, path, patch, caseSensitive, n, parent, Array(longer));
      assert Without(longer, k) == items;
    }
  }

  lemma {:induction false} FindKeyAppended(members: seq<Keyed<Json>>, m: Keyed<Json>, caseSensitive: bool)
    ensures FindKey(members + [m], m.key, caseSensitive) == FindKey(members, m.key, caseSensitive)
  {
    hide CompareStrings;
    KeyMatchesItself(m.key, caseSensitive);
    if members == [] {
      assert members + [m] == [m];
    } else {
      assert (members + [m])[1..] == members[1..] + [m];
      FindKeyAppended(members[1..], m, caseSensitive);
    }
  }

  lemma KeyMatchesItself(key: CString, caseSensitive: bool)
    ensures CompareStrings(key, key, caseSensitive) == 0
  {
    StrCmpZero(key, key);
    StrCmpZero(LowerAll(key), LowerAll(key));
  }

  lemma ExactIsLoose(a: CString, b: CString, caseSensitive: bool)
    requires CompareStrings(a, b, caseSensitive) == 0
    ensures CompareStrings(a, b, false) == 0
  {
    if caseSensitive {
      StrCmpZero(a, b);
      StrCmpZero(LowerAll(a), LowerAll(b));
    }
  }

  /** What the object's members are after the `add`, and after the `remove`. */
  lemma MembersAfter(members: seq<Keyed<Json>>, m: Keyed<Json>, caseSensitive: bool)
    ensures var k := FindKey(members, m.key, caseSensitive);
      var added := (if k < |members| then Without(members, k) else members) + [m];
      var r := FindKey(added, m.key, false);
      r < |added| && (Without(added, r) == members <==> FindKey(members, m.key, false) == |members|)
  {
    hide CompareStrings;
    var k := FindKey(members, m.key, caseSensitive);
    var others := if k < |members| then Without(members, k) else members;
    var added := others + [m];
    FindKeyAppended(others, m, false);
    var r := FindKey(added, m.key, false);
    KeyMatchesItself(m.key, false);
    assert added[|others|] == m;
    if k < |members| {
      ExactIsLoose(members[k].key, m.key, caseSensitive);
    } else if r < |others| {
      KeyMatchesItself(m.key, caseSensitive);
      var rest := Without(added, r);
      assert rest[|rest| - 1] == m;
    } else {
      assert Without(added, r) == members;
    }
  }

  lemma AddThenRemoveMember(doc: Json, path: CString, value: Json, patch: Json, caseSensitive: bool, n: nat, parent: Position,
                            members: seq<Keyed<Json>>)
    requires LastSlash(path) == Some(n) && Lookup(doc, path[..n], 0, caseSensitive) == Some(parent) && Get(doc, parent) == Object(members)
    requires AddValue(doc, path, value, caseSensitive).status == 0
    ensures Edit(AddValue(doc, path, value, caseSensitive).doc, Remove, path, patch, caseSensitive) == Edited(0, doc)
      <==> FindKey(members, DecodeInPlace.Decode(path[n + 1..]), false) == |members|
  {
    hide Lookup, Put, Get, DecodeIndex, FindKey, CompareStrings, Edit, AddValue, LastSlash, DecodeInPlace.Decode;
    AddsAt(doc, path, value, caseSensitive, n, parent);
    var m := Keyed(DecodeInPlace.Decode(path[n + 1..]), value);
    MembersAfter(members, m, caseSensitive);
    var k := FindKey(members, m.key, caseSensitive);
    var added := (if k < |members| then Without(members, k) else members) + [m];
    var r := FindKey(added, m.key, false);
    assert AddValue(doc, path, value, caseSensitive).doc == Put(doc, parent, Object(added));
    RemoveBelowPut(doc, path, patch, caseSensitive, n, parent, Object(added));
    PutInjective(doc, parent, Object(Without(added, r)));
  }
}
