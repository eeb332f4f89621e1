/** When applying a patch fails, and with which status. */
module PatchStatus {
  import opened Bytes
  import opened Json
  import opened Canon
  import opened Pointer
  import opened Patch
  import opened PatchMeaning
  import opened PatchMeets
  import opened PatchTests
  import CP = CanonPath
  import DecodeInPlace
  import PatchSteps

  /** The documents and patches spoken of: no object has two keys that are the same to the case flag, and the patch does
      not remove the root. */
  ghost predicate IsCase(doc: Json, patch: Json, caseSensitive: bool) {
    && Distinct(doc)
    && KeysApart(Norm(doc), caseSensitive)
    && ValueApart(patch, caseSensitive)
    && !(Is(patch, "remove", caseSensitive) && Item(patch, PATH, caseSensitive) == Some(String([])))
  }

  function Status(doc: Json, patch: Json, caseSensitive: bool): int { Apply(Some(doc), patch, caseSensitive).status }

  /** The field is a string, or else the empty string is given. */
  predicate IsText(field: Option<Json>) { field.Some? && field.value.String? }

  function TextOf(field: Option<Json>): CString { if field.Some? && field.value.String? then field.value.s else [] }

  /** At most one of the operations is named. */
  lemma OneOperation(patch: Json, caseSensitive: bool)
    ensures Is(patch, "copy", caseSensitive) ==> !Is(patch, "test", caseSensitive) && !Is(patch, "add", caseSensitive)
    ensures Is(patch, "copy", caseSensitive) ==> !Is(patch, "replace", caseSensitive) && !Is(patch, "remove", caseSensitive)
    ensures Is(patch, "move", caseSensitive) ==> !Is(patch, "test", caseSensitive) && !Is(patch, "add", caseSensitive)
    ensures Is(patch, "move", caseSensitive) ==> !Is(patch, "replace", caseSensitive) && !Is(patch, "remove", caseSensitive)
    ensures Is(patch, "copy", caseSensitive) ==> !Is(patch, "move", caseSensitive)
    ensures Is(patch, "remove", caseSensitive) ==> !Is(patch, "test", caseSensitive) && !Is(patch, "add", caseSensitive)
    ensures Is(patch, "remove", caseSensitive) ==> !Is(patch, "replace", caseSensitive)
    ensures Is(patch, "replace", caseSensitive) ==> !Is(patch, "test", caseSensitive) && !Is(patch, "add", caseSensitive)
    ensures Is(patch, "add", caseSensitive) ==> !Is(patch, "test", caseSensitive)
  {
    hide Is, DecodeOperation;
    OperationIs(patch, caseSensitive);
  }

  /** The target of a change is one node and one name at most. */
  lemma TargetsOne(c: Canon, p: CString, a: CP.Path, x: CString, b: CP.Path, y: CString, caseSensitive: bool)
    requires KeysApart(c, caseSensitive) && Targets(c, p, a, x, caseSensitive) && Targets(c, p, b, y, caseSensitive)
    ensures a == b && x == y
  {
    hide Follows, LastSlash;
    var s, t :| IsSplit(p, s, t) && Follows(c, s, a, caseSensitive) && x == DecodeInPlace.Decode(t);
    var u, v :| IsSplit(p, u, v) && Follows(c, u, b, caseSensitive) && y == DecodeInPlace.Decode(v);
    SplitIsLast(p, s, t);
    SplitIsLast(p, u, v);
    FollowsOneWay(c, s, a, b, caseSensitive);
  }

  // ----- where a value can be put -----

  /** No container is there to put a value in. */
  ghost predicate NoContainer(c: Canon, p: CString, caseSensitive: bool) {
    forall path, name :: Targets(c, p, path, name, caseSensitive) ==> CP.At(c, path).Scalar?
  }

  /** An array is there, and the name is neither a minus nor an index. */
  ghost predicate NoIndex(c: Canon, p: CString, caseSensitive: bool) {
    exists path, name :: Targets(c, p, path, name, caseSensitive) && CP.At(c, path).List? && name != [MINUS] && forall n: nat :: !IsPlace(name, n)
  }

  /** An array is there, and the index lies beyond its end. */
  ghost predicate Beyond(c: Canon, p: CString, caseSensitive: bool) {
    exists path, name, n: nat ::
      Targets(c, p, path, name, caseSensitive) && CP.At(c, path).List? && name != [MINUS] && IsPlace(name, n) && n > |CP.At(c, path).items|
  }

  /** A value can be put exactly where a container is, and in an array at an index up to its length. */
  lemma PutsExactly(c: Canon, p: CString, v: Canon, status: int, after: Canon, caseSensitive: bool)
    requires KeysApart(c, caseSensitive) && Puts(c, p, v, status, after, caseSensitive)
    ensures status == 9 <==> NoContainer(c, p, caseSensitive)
    ensures status == 11 <==> NoIndex(c, p, caseSensitive)
    ensures status == 10 <==> Beyond(c, p, caseSensitive)
  {
    hide Targets, IsPlace;
    if HasParent(c, p, caseSensitive) {
      var path, name, r := PutParts(c, p, v, status, after, caseSensitive);
      forall other, x | Targets(c, p, other, x, caseSensitive) ensures other == path && x == name {
        TargetsOne(c, p, other, x, path, name, caseSensitive);
      }
      forall n: nat, m: nat | IsPlace(name, n) && IsPlace(name, m) ensures n == m {
        PlaceOne(name, n, m);
      }
    }
  }

  lemma PutParts(c: Canon, p: CString, v: Canon, status: int, after: Canon, caseSensitive: bool) returns (path: CP.Path, name: CString, r: Canon)
    requires HasParent(c, p, caseSensitive) && Puts(c, p, v, status, after, caseSensitive)
    ensures CP.HasPath(c, path) && Targets(c, p, path, name, caseSensitive)
    ensures Receives(CP.At(c, path), name, v, status, r, caseSensitive) && after == CP.Set(c, path, r)
  {
    hide Receives;
    path, name, r :|
      && Targets(c, p, path, name, caseSensitive)
      && Receives(CP.At(c, path), name, v, status, r, caseSensitive)
      && after == CP.Set(c, path, r);
  }

  /** A value that cannot be put anywhere changes nothing. */
  lemma PutsOrKeeps(c: Canon, p: CString, v: Canon, status: int, after: Canon, caseSensitive: bool)
    requires Puts(c, p, v, status, after, caseSensitive)
    ensures status in {0, 9, 10, 11} && (status != 0 ==> after == c)
  {
    hide Targets, IsPlace;
    if HasParent(c, p, caseSensitive) {
      var path, name, r := PutParts(c, p, v, status, after, caseSensitive);
      CP.SetSame(c, path);
    }
  }

  lemma PlaceOne(name: CString, n: nat, m: nat)
    requires IsPlace(name, n) && IsPlace(name, m)
    ensures n == m
  {
    PlaceIsIndex(name, n);
    PlaceIsIndex(name, m);
  }

  // ----- statuses -----

  predicate Known(patch: Json, caseSensitive: bool) {
    || Is(patch, "test", caseSensitive)
    || Is(patch, "add", caseSensitive)
    || Is(patch, "replace", caseSensitive)
    || Is(patch, "remove", caseSensitive)
    || Is(patch, "move", caseSensitive)
    || Is(patch, "copy", caseSensitive)
  }

  /** Status 2: there is no path. Status 3: there is a path and no known operation. */
  lemma NotAPatch(doc: Json, patch: Json, caseSensitive: bool)
    requires IsCase(doc, patch, caseSensitive)
    ensures Status(doc, patch, caseSensitive) == 2 <==> !IsText(Item(patch, PATH, caseSensitive))
    ensures Status(doc, patch, caseSensitive) == 3 <==> IsText(Item(patch, PATH, caseSensitive)) && !Known(patch, caseSensitive)
  {
    StatusRange(doc, patch, caseSensitive);
  }

  /** What each operation can end with. */
  lemma StatusRange(doc: Json, patch: Json, caseSensitive: bool)
    requires IsCase(doc, patch, caseSensitive)
    ensures var s := Status(doc, patch, caseSensitive);
      if !IsText(Item(patch, PATH, caseSensitive)) then s == 2
      else if Is(patch, "test", caseSensitive) then s in {0, 1}
      else if Is(patch, "add", caseSensitive) then s in {0, 7, 8, 9, 10, 11}
      else if Is(patch, "replace", caseSensitive) then s in {0, 7, 8, 9, 10, 11, 13}
      else if Is(patch, "remove", caseSensitive) then s in {0, 13}
      else if Is(patch, "move", caseSensitive) then s in {0, 4, 5, 9, 10, 11}
      else if Is(patch, "copy", caseSensitive) then s in {0, 4, 5, 6, 9, 10, 11}
      else s == 3
  {
    hide Apply, Norm, Distinct, Item, Does;
    var after := AppliesAsMeant(doc, patch, caseSensitive);
    MeantRange(Norm(doc), patch, Status(doc, patch, caseSensitive), Norm(after), caseSensitive);
  }

  /** What a patch can mean for the status, and for a document that stays. */
  lemma MeantRange(c: Canon, patch: Json, s: int, after: Canon, caseSensitive: bool)
    requires Does(c, patch, s, after, caseSensitive)
    ensures
      if !IsText(Item(patch, PATH, caseSensitive)) then s == 2
      else if Is(patch, "test", caseSensitive) then s in {0, 1}
      else if Is(patch, "add", caseSensitive) then s in {0, 7, 8, 9, 10, 11}
      else if Is(patch, "replace", caseSensitive) then s in {0, 7, 8, 9, 10, 11, 13}
      else if Is(patch, "remove", caseSensitive) then s in {0, 13}
      else if Is(patch, "move", caseSensitive) then s in {0, 4, 5, 9, 10, 11}
      else if Is(patch, "copy", caseSensitive) then s in {0, 4, 5, 6, 9, 10, 11}
      else s == 3
    ensures s != 0 && !Is(patch, "replace", caseSensitive) && !Is(patch, "move", caseSensitive) ==> after == c
  {
    hide Norm, Item, PatchMeaning.Tests, Adds, Replaces, Removes, Moves, Copies, Is;
    var p, value, source := TextOf(Item(patch, PATH, caseSensitive)), Item(patch, VALUE, caseSensitive), Item(patch, FROM, caseSensitive);
    if IsText(Item(patch, PATH, caseSensitive)) {
      if Is(patch, "test", caseSensitive) {
        TestsRange(c, p, value, s, after, caseSensitive);
      } else if Is(patch, "add", caseSensitive) {
        AddsRange(c, p, value, s, after, caseSensitive);
      } else if Is(patch, "replace", caseSensitive) {
        ReplacesRange(c, p, value, s, after, caseSensitive);
      } else if Is(patch, "remove", caseSensitive) {
        RemovesRange(c, p, s, after, caseSensitive);
      } else if Is(patch, "move", caseSensitive) {
        MovesRange(c, p, source, s, after, caseSensitive);
      } else if Is(patch, "copy", caseSensitive) {
        CopiesRange(c, p, source, s, after, caseSensitive);
      }
    }
  }

  lemma TestsRange(c: Canon, p: CString, value: Option<Json>, s: int, after: Canon, caseSensitive: bool)
    requires PatchMeaning.Tests(c, p, value, s, after, caseSensitive)
    ensures s in {0, 1} && after == c
  {
  }

  lemma AddsRange(c: Canon, p: CString, value: Option<Json>, s: int, after: Canon, caseSensitive: bool)
    requires Adds(c, p, value, s, after, caseSensitive)
    ensures s in {0, 7, 8, 9, 10, 11} && (s != 0 ==> after == c)
  {
    hide Puts, IsShallow, Norm;
    if value.Some? && IsShallow(Norm(value.value), 0) && p != [] {
      PutsOrKeeps(c, p, Norm(value.value), s, after, caseSensitive);
    }
  }

  lemma ReplacesRange(c: Canon, p: CString, value: Option<Json>, s: int, after: Canon, caseSensitive: bool)
    requires Replaces(c, p, value, s, after, caseSensitive)
    ensures s in {0, 7, 8, 9, 10, 11, 13} && (s == 13 <==> p != [] && !HasChild(c, p, caseSensitive))
  {
    hide Adds, HasChild, Detaches;
    if p == [] {
      AddsRange(c, p, value, s, after, caseSensitive);
    } else if HasChild(c, p, caseSensitive) {
      var between, taken :| Detaches(c, p, between, taken, caseSensitive) && Adds(between, p, value, s, after, caseSensitive);
      AddsRange(between, p, value, s, after, caseSensitive);
    }
  }

  lemma RemovesRange(c: Canon, p: CString, s: int, after: Canon, caseSensitive: bool)
    requires Removes(c, p, s, after, caseSensitive)
    ensures s in {0, 13} && (s == 13 <==> !HasChild(c, p, caseSensitive)) && (s != 0 ==> after == c)
  {
    hide HasChild, Detaches;
  }

  lemma MovesRange(c: Canon, p: CString, source: Option<Json>, s: int, after: Canon, caseSensitive: bool)
    requires Moves(c, p, source, s, after, caseSensitive)
    ensures s in {0, 4, 5, 9, 10, 11}
    ensures s == 4 <==> !IsText(source)
    ensures s == 5 <==> IsText(source) && !HasChild(c, TextOf(source), caseSensitive)
  {
    hide Puts, HasChild, Detaches;
    if IsText(source) && HasChild(c, TextOf(source), caseSensitive) {
      var between, taken :| Detaches(c, TextOf(source), between, taken, caseSensitive) && Puts(between, p, taken, s, after, caseSensitive);
      PutsOrKeeps(between, p, taken, s, after, caseSensitive);
    }
  }

  lemma CopiesRange(c: Canon, p: CString, source: Option<Json>, s: int, after: Canon, caseSensitive: bool)
    requires Copies(c, p, source, s, after, caseSensitive)
    ensures s in {0, 4, 5, 6, 9, 10, 11} && (s != 0 ==> after == c)
    ensures s == 4 <==> !IsText(source)
    ensures s == 5 <==> IsText(source) && !Leads(c, TextOf(source), caseSensitive)
  {
    hide Puts, IsShallow, Spelled, TokenEnd;
    if IsText(source) && Leads(c, TextOf(source), caseSensitive) {
      var path :| Follows(c, TextOf(source), path, caseSensitive) && CP.HasPath(c, path) && PutsCopy(c, p, CP.At(c, path), s, after, caseSensitive);
      if IsShallow(CP.At(c, path), 0) {
        PutsOrKeeps(c, p, CP.At(c, path), s, after, caseSensitive);
      }
    }
  }

  /** A tree at the end of the pointer that is too deep to be copied. */
  ghost predicate TooDeep(c: Canon, from: CString, caseSensitive: bool) {
    exists path :: Follows(c, from, path, caseSensitive) && CP.HasPath(c, path) && !IsShallow(CP.At(c, path), 0)
  }

  lemma CopiesTooDeep(c: Canon, p: CString, source: Option<Json>, s: int, after: Canon, caseSensitive: bool)
    requires KeysApart(c, caseSensitive) && Copies(c, p, source, s, after, caseSensitive)
    ensures s == 6 <==> IsText(source) && TooDeep(c, TextOf(source), caseSensitive)
  {
    hide Puts, IsShallow, Spelled, TokenEnd;
    if IsText(source) && Leads(c, TextOf(source), caseSensitive) {
      var from := TextOf(source);
      var path :| Follows(c, from, path, caseSensitive) && CP.HasPath(c, path) && PutsCopy(c, p, CP.At(c, path), s, after, caseSensitive);
      forall other | Follows(c, from, other, caseSensitive) ensures other == path {
        FollowsOneWay(c, from, other, path, caseSensitive);
      }
      if IsShallow(CP.At(c, path), 0) {
        PutsOrKeeps(c, p, CP.At(c, path), s, after, caseSensitive);
      }
    }
  }

  /** A copy of what no pointer leads to, or a move of a child that is not there. */
  ghost predicate SourceIsMissing(c: Canon, patch: Json, from: CString, caseSensitive: bool) {
    || (Is(patch, "copy", caseSensitive) && !Leads(c, from, caseSensitive))
    || (Is(patch, "move", caseSensitive) && !HasChild(c, from, caseSensitive))
  }

  /** Status 4: a copy or move without a source. Status 5: exactly when the source is not there. Status 6: a copy of
      a tree that is too deep. */
  lemma SourceMissing(doc: Json, patch: Json, caseSensitive: bool)
    requires IsCase(doc, patch, caseSensitive) && IsText(Item(patch, PATH, caseSensitive))
    ensures var s, c, from := Status(doc, patch, caseSensitive), Norm(doc), Item(patch, FROM, caseSensitive);
      && (s == 4 <==> (Is(patch, "copy", caseSensitive) || Is(patch, "move", caseSensitive)) && !IsText(from))
      && (s == 5 <==> IsText(from) && SourceIsMissing(c, patch, TextOf(from), caseSensitive))
      && (s == 6 <==> Is(patch, "copy", caseSensitive) && IsText(from) && TooDeep(c, TextOf(from), caseSensitive))
  {
    hide Apply, Is, Norm, Distinct, Item, Leads, TooDeep, HasChild, Copies, Moves, PatchMeaning.Tests, Adds, Replaces, Removes;
    OneOperation(patch, caseSensitive);
    StatusRange(doc, patch, caseSensitive);
    var after := AppliesAsMeant(doc, patch, caseSensitive);
    var c, p, from := Norm(doc), TextOf(Item(patch, PATH, caseSensitive)), Item(patch, FROM, caseSensitive);
    if Is(patch, "copy", caseSensitive) {
      CopiesRange(c, p, from, Status(doc, patch, caseSensitive), Norm(after), caseSensitive);
      CopiesTooDeep(c, p, from, Status(doc, patch, caseSensitive), Norm(after), caseSensitive);
    } else if Is(patch, "move", caseSensitive) {
      MovesRange(c, p, from, Status(doc, patch, caseSensitive), Norm(after), caseSensitive);
    }
  }

  /** Status 13: a removal or replacement below the root whose child is not there. */
  lemma ChildMissing(doc: Json, patch: Json, caseSensitive: bool)
    requires IsCase(doc, patch, caseSensitive) && IsText(Item(patch, PATH, caseSensitive))
    ensures Status(doc, patch, caseSensitive) == 13 <==>
      var p := TextOf(Item(patch, PATH, caseSensitive));
      (Is(patch, "remove", caseSensitive) || Is(patch, "replace", caseSensitive)) && p != [] && !HasChild(Norm(doc), p, caseSensitive)
  {
    hide Apply, Is, Norm, Distinct, Item, HasChild, PatchMeaning.Tests, Adds, Replaces, Removes, Moves, Copies, KeysApart;
    OneOperation(patch, caseSensitive);
    StatusRange(doc, patch, caseSensitive);
    var after := AppliesAsMeant(doc, patch, caseSensitive);
    var c, p, value := Norm(doc), TextOf(Item(patch, PATH, caseSensitive)), Item(patch, VALUE, caseSensitive);
    var status := Status(doc, patch, caseSensitive);
    if Is(patch, "replace", caseSensitive) {
      ReplacesRange(c, p, value, status, Norm(after), caseSensitive);
    } else if Is(patch, "remove", caseSensitive) {
      RemovesRange(c, p, status, Norm(after), caseSensitive);
    }
  }

  /** An addition below the root. Status 7: there is no value. Status 8: it is too deep. Status 9, 11 or 10: exactly
      when there is no container, no index, or an index beyond the end. */
  lemma TargetRefuses(doc: Json, patch: Json, caseSensitive: bool)
    requires IsCase(doc, patch, caseSensitive) && Is(patch, "add", caseSensitive)
    requires IsText(Item(patch, PATH, caseSensitive)) && TextOf(Item(patch, PATH, caseSensitive)) != []
    ensures var s, c := Status(doc, patch, caseSensitive), Norm(doc);
      var p, value := TextOf(Item(patch, PATH, caseSensitive)), Item(patch, VALUE, caseSensitive);
      && (s == 7 <==> value.None?)
      && (s == 8 <==> value.Some? && !IsShallow(Norm(value.value), 0))
      && (s == 9 <==> value.Some? && IsShallow(Norm(value.value), 0) && NoContainer(c, p, caseSensitive))
      && (s == 11 <==> value.Some? && IsShallow(Norm(value.value), 0) && NoIndex(c, p, caseSensitive))
      && (s == 10 <==> value.Some? && IsShallow(Norm(value.value), 0) && Beyond(c, p, caseSensitive))
  {
    hide Apply, Is, Norm, Distinct, Item, Puts, IsShallow, NoContainer, NoIndex, Beyond, KeysApart;
    hide PatchMeaning.Tests, Replaces, Removes, Moves, Copies;
    OneOperation(patch, caseSensitive);
    var after := AppliesAsMeant(doc, patch, caseSensitive);
    var value := Item(patch, VALUE, caseSensitive);
    if value.Some? && IsShallow(Norm(value.value), 0) {
      var p, status := TextOf(Item(patch, PATH, caseSensitive)), Status(doc, patch, caseSensitive);
      PutsExactly(Norm(doc), p, Norm(value.value), status, Norm(after), caseSensitive);
      PutsOrKeeps(Norm(doc), p, Norm(value.value), status, Norm(after), caseSensitive);
    }
  }

  /** Status 1: exactly when the value is not alike what stands at the path. */
  lemma TestFails(doc: Json, patch: Json, caseSensitive: bool)
    requires IsCase(doc, patch, caseSensitive) && IsText(Item(patch, PATH, caseSensitive))
    ensures var p, value := TextOf(Item(patch, PATH, caseSensitive)), Item(patch, VALUE, caseSensitive);
      Status(doc, patch, caseSensitive) == 1 <==>
        Is(patch, "test", caseSensitive) && !(value.Some? && Holds(Norm(doc), p, Norm(value.value), caseSensitive))
  {
    hide Apply, Is, Norm, Distinct, Item, Holds, Adds, Replaces, Removes, Moves, Copies, KeysApart;
    OneOperation(patch, caseSensitive);
    StatusRange(doc, patch, caseSensitive);
    var after := AppliesAsMeant(doc, patch, caseSensitive);
  }

  /** A patch that fails leaves the document as it was, unless it is a replacement or a move. */
  lemma FailureKeeps(doc: Json, patch: Json, caseSensitive: bool) returns (after: Json)
    requires IsCase(doc, patch, caseSensitive) && Status(doc, patch, caseSensitive) != 0
    requires !Is(patch, "replace", caseSensitive) && !Is(patch, "move", caseSensitive)
    ensures Apply(Some(doc), patch, caseSensitive).doc == Some(after) && Same(after, doc)
  {
    hide Apply, Is, Norm, Distinct, Item, Does;
    after := AppliesAsMeant(doc, patch, caseSensitive);
    MeantRange(Norm(doc), patch, Status(doc, patch, caseSensitive), Norm(after), caseSensitive);
  }

  // ----- the text of a path -----

  /** As far as the path goes, it has a key for each object and an index for each array. */
  predicate Fits(c: Canon, path: CP.Path)
    decreases path
  {
    path == [] || match c
                  case List(items) => path[0].Index? && path[0].n < SIZE_MAX_PLUS_ONE && (path[0].n < |items| ==> Fits(items[path[0].n], path[1..]))
                  case Dict(members) => path[0].Key? && (path[0].key in members ==> Fits(members[path[0].key], path[1..]))
                  case Scalar(_) => true
  }

  /** The text of a path leads somewhere exactly when the path is there. */
  lemma {:induction false} TextLeads(c: Canon, path: CP.Path)
    requires Fits(c, path)
    ensures Leads(c, CP.PathText(path), true) <==> CP.HasPath(c, path)
    ensures CP.HasPath(c, path) ==> Follows(c, CP.PathText(path), path, true)
    decreases path
  {
    hide TokenEnd, CP.PathText, CP.TokenText, Spelled;
    var p := CP.PathText(path);
    CP.PathTextStart(path, []);
    if path == [] {
      assert Follows(c, p, [], true);
    } else {
      var token, rest := CP.TokenText(path[0]), CP.PathText(path[1..]);
      assert p + [] == p && rest + [] == rest && p == [SLASH] + (token + rest);
      assert p[1..] == token + rest;
      TokenIs(p, 1, token, rest);
      assert p[1..TokenEnd(p, 1)] == token && p[TokenEnd(p, 1)..] == rest;
      if CP.HasToken(c, path[0]) {
        TextLeads(CP.Below(c, path[0]), path[1..]);
        SpellsItself(c, path[0]);
        if CP.HasPath(c, path) { LeadsBy(c, p, path); }
      }
      if Leads(c, p, true) {
        var q :| Follows(c, p, q, true);
        TokenIsSpelled(c, path[0], q[0]);
        assert Follows(CP.Below(c, path[0]), rest, q[1..], true);
        LeadsBy(CP.Below(c, path[0]), rest, q[1..]);
        assert CP.HasPath(CP.Below(c, path[0]), path[1..]);
      }
    }
  }

  lemma LeadsBy(c: Canon, p: CString, path: CP.Path)
    requires Follows(c, p, path, true)
    ensures Leads(c, p, true)
  {
  }

  lemma SpellsItself(c: Canon, t: CP.Token)
    requires CP.HasToken(c, t) && (t.Index? ==> t.n < SIZE_MAX_PLUS_ONE)
    ensures Spelled(CP.TokenText(t), t, true)
  {
    hide Encode, Digits;
  }

  lemma TokenIsSpelled(c: Canon, t: CP.Token, s: CP.Token)
    requires CP.HasToken(c, s) && Spelled(CP.TokenText(t), s, true)
    requires c.List? ==> t.Index? && t.n < SIZE_MAX_PLUS_ONE
    requires c.Dict? ==> t.Key?
    ensures s == t
  {
    hide Encode, Digits;
    match c {
      case List(_) => NamesOne(Digits(t.n), s.n, t.n);
      case Dict(_) => EncodeInjective(s.key, t.key);
      case _ =>
    }
  }

  /** A member whose key is that one ignoring case, or that element. */
  predicate Gives(c: Canon, t: CP.Token) {
    match (c, t)
    case (Dict(members), Key(key)) => exists k :: k in members && LowerAll(k) == LowerAll(key)
    case (List(items), Index(n)) => n < |items|
    case _ => false
  }

  /** The text of a path to a child, as patches are generated with: there is a child to take out exactly when the
      parent is there and has it. The key is one that decoding leaves as it is. */
  lemma ChildIsThere(c: Canon, path: CP.Path, t: CP.Token)
    requires Fits(c, path) && (t.Key? ==> DecodeInPlace.Unshifted(t.key)) && (t.Index? ==> t.n < SIZE_MAX_PLUS_ONE)
    requires CP.HasPath(c, path) ==> (CP.At(c, path).Dict? ==> t.Key?) && (CP.At(c, path).List? ==> t.Index?)
    ensures HasChild(c, CP.PathText(path + [t]), true) <==> CP.HasPath(c, path) && Gives(CP.At(c, path), t)
  {
    hide Follows, TakesOut, CP.PathText, CP.TokenText, CP.HasPath, CP.At, Gives, Fits, DecodeInPlace.Unshifted;
    var p, parent, token := CP.PathText(path + [t]), CP.PathText(path), CP.TokenText(t);
    CP.PathTextSnoc(path, t);
    TextLeads(c, path);
    DecodesToken(t);
    if CP.HasPath(c, path) {
      assert IsSplit(p, parent, token);
      assert Targets(c, p, path, DecodeInPlace.Decode(token), true);
      TakesOutGiven(CP.At(c, path), t);
      if Gives(CP.At(c, path), t) {
        var rest, taken :| TakesOut(CP.At(c, path), DecodeInPlace.Decode(token), rest, taken);
        DetachesBy(c, p, path, DecodeInPlace.Decode(token), rest, taken, true);
      }
    }
    if HasChild(c, p, true) {
      var after, taken :| Detaches(c, p, after, taken, true);
      var other, name, rest := DetachParts(c, p, after, taken, true);
      ParentLeads(c, p, parent, token, other, name);
      AlwaysApart(c);
      TargetsOne(c, p, other, name, path, DecodeInPlace.Decode(token), true);
    }
  }

  lemma ParentLeads(c: Canon, p: CString, parent: CString, token: CString, path: CP.Path, name: CString)
    requires IsSplit(p, parent, token) && Targets(c, p, path, name, true)
    ensures Leads(c, parent, true)
  {
    hide Follows, LastSlash;
    var s, t :| IsSplit(p, s, t) && Follows(c, s, path, true);
    SplitIsLast(p, s, t);
    SplitIsLast(p, parent, token);
  }

  function NameOf(t: CP.Token): CString { if t.Key? then t.key else Digits(t.n) }

  lemma DecodesToken(t: CP.Token)
    requires (t.Key? ==> DecodeInPlace.Unshifted(t.key)) && (t.Index? ==> t.n < SIZE_MAX_PLUS_ONE)
    ensures DecodeInPlace.Decode(CP.TokenText(t)) == NameOf(t)
  {
    hide Encode, Digits, DecodeInPlace.Unshifted;
    match t {
      case Key(key) => PatchSteps.DecodesKey(key);
      case Index(n) => PatchSteps.DecodesIndex(n);
    }
  }

  lemma TakesOutGiven(c: Canon, t: CP.Token)
    requires (c.Dict? ==> t.Key?) && (c.List? ==> t.Index?) && (t.Index? ==> t.n < SIZE_MAX_PLUS_ONE)
    ensures Gives(c, t) <==> exists rest, taken :: TakesOut(c, NameOf(t), rest, taken)
  {
    hide IsPlace, Digits;
    match (c, t) {
      case (List(items), Index(n)) =>
        forall m: nat ensures IsPlace(Digits(n), m) <==> m == n {
          PlaceIsIndex(Digits(n), m);
          PatchSteps.DecodesIndex(n);
        }
        if n < |items| {
          assert TakesOut(c, NameOf(t), List(Without(items, n)), items[n]);
        }
      case (Dict(members), Key(key)) =>
        if k :| k in members && LowerAll(k) == LowerAll(key) {
          assert TakesOut(c, NameOf(t), Dict(members - {k}), members[k]);
        }
        forall rest, taken | TakesOut(c, NameOf(t), rest, taken) ensures Gives(c, t) {
          var k :| k in members && LowerAll(k) == LowerAll(key);
        }
      case _ =>
    }
  }

  /** Where an object stands and the path has an index, its text can still lead to a member: the key "0". */
  lemma IndexTextIsKey()
    ensures var c, path := Dict(map[[ZERO] := Scalar(Null)]), [CP.Index(0)];
      !CP.HasPath(c, path) && Leads(c, CP.PathText(path), true)
  {
    var c := Dict(map[[ZERO] := Scalar(Null)]);
    var key := [CP.Key([ZERO])];
    assert |Digits(0)| == 1 && Digits(0)[0] == ZERO;
    assert Encode([ZERO]) == [ZERO] && Digits(0) == [ZERO] by { assert [ZERO][1..] == []; }
    assert key[1..] == [] && [CP.Index(0)][1..] == [];
    assert CP.PathText(key) == [SLASH] + CP.TokenText(key[0]) + CP.PathText([]);
    TextLeads(c, key);
  }
}
