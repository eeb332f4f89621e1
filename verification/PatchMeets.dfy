/** The apply function does to every document what the patch means. */
module PatchMeets {
  import opened Bytes
  import opened Json
  import opened MergeSort
  import opened Canon
  import opened Pointer
  import opened Paths
  import opened Patch
  import opened PatchMeaning
  import opened PatchTests
  import Comparing = Compare
  import CompareWalk
  import CP = CanonPath
  import DecodeInPlace
  import PatchSteps

  // ----- pointers -----

  /** A key matches a token exactly when, to the case flag, the token is its encoding. */
  lemma MatchesFolded(name: CString, p: CString, i: nat, caseSensitive: bool)
    requires i <= |p|
    ensures ComparePointers(name, p, i, caseSensitive) <==> Folded(p[i..TokenEnd(p, i)], caseSensitive) == Encode(Folded(name, caseSensitive))
  {
    hide ComparePointers, Encode, TokenEnd;
    if caseSensitive {
      MatchesItsEncoding(name, p, i);
    } else {
      MatchesLoosely(name, p, i);
    }
  }

  lemma {:induction false} FindsFirst<T>(members: seq<Keyed<T>>, p: CString, i: nat, caseSensitive: bool)
    requires i <= |p|
    ensures var n := FindToken(members, p, i, caseSensitive);
      && (n < |members| ==> ComparePointers(members[n].key, p, i, caseSensitive))
      && forall x :: 0 <= x < n ==> !ComparePointers(members[x].key, p, i, caseSensitive)
  {
    hide ComparePointers;
    if members != [] && !ComparePointers(members[0].key, p, i, caseSensitive) {
      FindsFirst(members[1..], p, i, caseSensitive);
    }
  }

  /** A step goes to the child that the token spells, and nowhere else. */
  lemma StepsWhereSpelled(j: Json, p: CString, i: nat, k: nat, caseSensitive: bool)
    requires Distinct(j) && KeysApart(Norm(j), caseSensitive) && i <= |p|
    ensures Step(j, p, i, caseSensitive) == Some(k) <==> k < ChildCount(j) && Spelled(p[i..TokenEnd(p, i)], CP.TokenAt(j, k), caseSensitive)
  {
    hide TokenEnd, DecodeIndex, Encode, NamesIndex, ComparePointers, Folded, Norm, Distinct, KeysApart;
    match j {
      case Array(items) =>
        DecodesNamed(p, i, k);
      case Object(members) =>
        FindsFirst(members, p, i, caseSensitive);
        ApartMembers(members, caseSensitive);
        var n := FindToken(members, p, i, caseSensitive);
        if n < |members| {
          MatchesFolded(members[n].key, p, i, caseSensitive);
        }
        if k < |members| {
          MatchesFolded(members[k].key, p, i, caseSensitive);
          if n < |members| && Encode(Folded(members[n].key, caseSensitive)) == Encode(Folded(members[k].key, caseSensitive)) {
            EncodeInjective(Folded(members[n].key, caseSensitive), Folded(members[k].key, caseSensitive));
          }
        }
      case _ =>
    }
  }

  lemma ChildApart(j: Json, k: nat, caseSensitive: bool)
    requires Distinct(j) && KeysApart(Norm(j), caseSensitive) && k < ChildCount(j)
    ensures Distinct(Child(j, k)) && KeysApart(Norm(Child(j, k)), caseSensitive)
  {
    hide Norm;
    match j {
      case Array(items) => ApartItems(items, caseSensitive);
      case Object(members) => ApartMembers(members, caseSensitive);
    }
  }

  lemma {:induction false} NodeApart(j: Json, pos: Position, caseSensitive: bool)
    requires Distinct(j) && KeysApart(Norm(j), caseSensitive) && HasPosition(j, pos)
    ensures Distinct(Get(j, pos)) && KeysApart(Norm(Get(j, pos)), caseSensitive)
    decreases pos
  {
    hide Norm, KeysApart, Distinct;
    if pos != [] {
      ChildApart(j, pos[0], caseSensitive);
      NodeApart(Child(j, pos[0]), pos[1..], caseSensitive);
    }
  }

  /** A change keeps keys apart where the changed node does. */
  lemma {:induction false} SetApart(c: Canon, path: CP.Path, r: Canon, caseSensitive: bool)
    requires KeysApart(c, caseSensitive) && KeysApart(r, caseSensitive) && CP.HasPath(c, path)
    ensures KeysApart(CP.Set(c, path, r), caseSensitive)
    decreases path
  {
    hide Folded;
    if path != [] {
      SetApart(CP.Below(c, path[0]), path[1..], r, caseSensitive);
    }
  }

  lemma TakenApart(c: Canon, name: CString, rest: Canon, taken: Canon, caseSensitive: bool)
    requires KeysApart(c, caseSensitive) && TakesOut(c, name, rest, taken)
    ensures KeysApart(rest, caseSensitive) && KeysApart(taken, caseSensitive)
  {
    hide IsPlace, Folded;
  }

  lemma TokenShift(p: CString, i: nat)
    requires i < |p|
    ensures var q := p[i..];
      && TokenEnd(q, 1) == TokenEnd(p, i + 1) - i
      && q[1..TokenEnd(q, 1)] == p[i + 1..TokenEnd(p, i + 1)]
      && q[TokenEnd(q, 1)..] == p[TokenEnd(p, i + 1)..]
  {
    hide TokenEnd;
    var q, end := p[i..], TokenEnd(p, i + 1);
    assert forall x :: 1 <= x < end - i ==> q[x] == p[x + i];
    TokenEndUnique(q, 1, end - i);
  }

  /** A lookup that finds something follows a path, and leads where the path leads. */
  lemma {:induction false} LookupFollows(j: Json, p: CString, i: nat, caseSensitive: bool) returns (path: CP.Path)
    requires Distinct(j) && KeysApart(Norm(j), caseSensitive) && i <= |p| && Lookup(j, p, i, caseSensitive).Some?
    ensures Follows(Norm(j), p[i..], path, caseSensitive) && CP.Leads(j, Lookup(j, p, i, caseSensitive).value, path)
    decreases Nesting(j)
  {
    hide Norm, Distinct, Step, TokenEnd, Spelled, KeysApart;
    if i < |p| && p[i] == SLASH {
      var k := Step(j, p, i + 1, caseSensitive).value;
      var child, end := Child(j, k), TokenEnd(p, i + 1);
      StepsWhereSpelled(j, p, i + 1, k, caseSensitive);
      CP.NormChild(j, k);
      ChildApart(j, k, caseSensitive);
      var rest := LookupFollows(child, p, end, caseSensitive);
      path := [CP.TokenAt(j, k)] + rest;
      assert path[1..] == rest;
      TokenShift(p, i);
      var pos := Lookup(child, p, end, caseSensitive).value;
      assert ([k] + pos)[1..] == pos;
    } else {
      path := [];
    }
  }

  /** Where a pointer follows a path, the lookup leads there. */
  lemma {:induction false} FollowsLookup(j: Json, p: CString, i: nat, path: CP.Path, caseSensitive: bool) returns (pos: Position)
    requires Distinct(j) && KeysApart(Norm(j), caseSensitive) && i <= |p| && Follows(Norm(j), p[i..], path, caseSensitive)
    ensures Lookup(j, p, i, caseSensitive) == Some(pos) && CP.Leads(j, pos, path)
    decreases path
  {
    hide Norm, Distinct, Step, TokenEnd, Spelled, KeysApart;
    if i < |p| && p[i] == SLASH {
      var k := CP.FindChildOf(j, path[0]);
      CP.NormChild(j, k);
      ChildApart(j, k, caseSensitive);
      TokenShift(p, i);
      StepsWhereSpelled(j, p, i + 1, k, caseSensitive);
      var rest := FollowsLookup(Child(j, k), p, TokenEnd(p, i + 1), path[1..], caseSensitive);
      pos := [k] + rest;
      assert pos[1..] == rest;
    } else {
      pos := [];
    }
  }

  /** A pointer leads to one node at most. */
  lemma {:induction false} FollowsOneWay(c: Canon, p: CString, a: CP.Path, b: CP.Path, caseSensitive: bool)
    requires Follows(c, p, a, caseSensitive) && Follows(c, p, b, caseSensitive) && KeysApart(c, caseSensitive)
    ensures a == b && CP.HasPath(c, a)
    decreases |p|
  {
    hide TokenEnd, Spelled, Encode, NamesIndex, Folded;
    if p != [] && p[0] == SLASH {
      SpellsOne(c, p[1..TokenEnd(p, 1)], a[0], b[0], caseSensitive);
      FollowsOneWay(CP.Below(c, a[0]), p[TokenEnd(p, 1)..], a[1..], b[1..], caseSensitive);
      assert a == [a[0]] + a[1..] && b == [b[0]] + b[1..];
    }
  }

  lemma SpellsOne(c: Canon, token: CString, a: CP.Token, b: CP.Token, caseSensitive: bool)
    requires CP.HasToken(c, a) && CP.HasToken(c, b) && KeysApart(c, caseSensitive)
    requires Spelled(token, a, caseSensitive) && Spelled(token, b, caseSensitive)
    ensures a == b
  {
    hide Encode, Digits;
    match c {
      case List(_) => NamesOne(token, a.n, b.n);
      case Dict(_) => EncodeInjective(Folded(a.key, caseSensitive), Folded(b.key, caseSensitive));
      case _ =>
    }
  }

  lemma NamesOne(token: CString, n: nat, m: nat)
    requires NamesIndex(token, n) && NamesIndex(token, m)
    ensures n == m
  {
    hide Digits;
    if token != [] {
      var a: nat :| token == Digits(a) && n == a % SIZE_MAX_PLUS_ONE;
      var b: nat :| token == Digits(b) && m == b % SIZE_MAX_PLUS_ONE;
      DigitsRoundTrip(a);
      DigitsRoundTrip(b);
    } else {
      NoDigitsEmpty(token);
    }
  }

  lemma NoDigitsEmpty(token: CString)
    requires token == []
    ensures forall a: nat :: token != Digits(a)
  {
    hide Digits;
  }

  /** Looking a pointer up and following it find the same node, if any. */
  lemma LooksWhereItLeads(j: Json, p: CString, caseSensitive: bool)
    requires Distinct(j) && KeysApart(Norm(j), caseSensitive)
    ensures Lookup(j, p, 0, caseSensitive).Some? <==> Leads(Norm(j), p, caseSensitive)
    ensures forall path :: Follows(Norm(j), p, path, caseSensitive) ==>
      && CP.HasPath(Norm(j), path)
      && Lookup(j, p, 0, caseSensitive).Some?
      && CP.Leads(j, Lookup(j, p, 0, caseSensitive).value, path)
      && Distinct(Get(j, Lookup(j, p, 0, caseSensitive).value))
      && Norm(Get(j, Lookup(j, p, 0, caseSensitive).value)) == CP.At(Norm(j), path)
  {
    hide Norm, Lookup, Follows, Get, CP.Leads, KeysApart;
    assert p[0..] == p;
    if Lookup(j, p, 0, caseSensitive).Some? {
      var path := LookupFollows(j, p, 0, caseSensitive);
    }
    forall path | Follows(Norm(j), p, path, caseSensitive)
      ensures CP.HasPath(Norm(j), path) && Lookup(j, p, 0, caseSensitive).Some? && CP.Leads(j, Lookup(j, p, 0, caseSensitive).value, path)
      ensures Distinct(Get(j, Lookup(j, p, 0, caseSensitive).value)) && Norm(Get(j, Lookup(j, p, 0, caseSensitive).value)) == CP.At(Norm(j), path)
    {
      var pos := FollowsLookup(j, p, 0, path, caseSensitive);
      CP.LeadsToNorm(j, pos, path, Null);
    }
  }

  // ----- parents -----

  lemma {:induction false} SplitsAtLast(p: CString)
    ensures LastSlash(p).Some? ==> IsSplit(p, p[..LastSlash(p).value], p[LastSlash(p).value + 1..])
    ensures LastSlash(p).None? ==> SLASH !in p
    decreases |p|
  {
    if p != [] {
      var last := |p| - 1;
      if p[last] == SLASH {
        assert p == p[..last] + ([SLASH] + p[last + 1..]);
      } else {
        SplitsAtLast(p[..last]);
        if LastSlash(p).Some? {
          var n := LastSlash(p).value;
          assert p[n + 1..] == p[..last][n + 1..] + [p[last]];
          assert p == p[..n] + ([SLASH] + p[n + 1..]);
        } else {
          assert p == p[..last] + [p[last]];
        }
      }
    }
  }

  lemma SplitIsLast(p: CString, parent: CString, token: CString)
    requires IsSplit(p, parent, token)
    ensures LastSlash(p) == Some(|parent|) && p[..|parent|] == parent && p[|parent| + 1..] == token
  {
    hide LastSlash;
    PatchSteps.LastSlashIs(parent, token);
  }

  /** The node that the parent's pointer is looked up to, and the name of the child. */
  ghost predicate IsParent(doc: Json, p: CString, pos: Position, name: CString, caseSensitive: bool) {
    && LastSlash(p).Some?
    && Lookup(doc, p[..LastSlash(p).value], 0, caseSensitive) == Some(pos)
    && name == DecodeInPlace.Decode(p[LastSlash(p).value + 1..])
  }

  lemma ParentIsTarget(doc: Json, p: CString, pos: Position, name: CString, caseSensitive: bool) returns (path: CP.Path)
    requires Distinct(doc) && KeysApart(Norm(doc), caseSensitive) && IsParent(doc, p, pos, name, caseSensitive)
    ensures HasPosition(doc, pos) && Targets(Norm(doc), p, path, name, caseSensitive) && CP.Leads(doc, pos, path)
    ensures Distinct(Get(doc, pos)) && Norm(Get(doc, pos)) == CP.At(Norm(doc), path)
  {
    hide Norm, Distinct, Lookup, Follows, Get, CP.Leads, LastSlash, KeysApart;
    SplitsAtLast(p);
    var n := LastSlash(p).value;
    LooksWhereItLeads(doc, p[..n], caseSensitive);
    path :| Follows(Norm(doc), p[..n], path, caseSensitive);
  }

  lemma TargetIsParent(doc: Json, p: CString, path: CP.Path, name: CString, caseSensitive: bool) returns (pos: Position)
    requires Distinct(doc) && KeysApart(Norm(doc), caseSensitive) && Targets(Norm(doc), p, path, name, caseSensitive)
    ensures IsParent(doc, p, pos, name, caseSensitive) && HasPosition(doc, pos) && CP.Leads(doc, pos, path)
    ensures Distinct(Get(doc, pos)) && Norm(Get(doc, pos)) == CP.At(Norm(doc), path)
  {
    hide Norm, Distinct, Lookup, Follows, Get, CP.Leads, LastSlash, KeysApart;
    var parent, token :| IsSplit(p, parent, token) && Follows(Norm(doc), parent, path, caseSensitive) && name == DecodeInPlace.Decode(token);
    SplitIsLast(p, parent, token);
    LooksWhereItLeads(doc, parent, caseSensitive);
    pos := Lookup(doc, parent, 0, caseSensitive).value;
  }

  // ----- taking out -----

  lemma PlaceIsIndex(name: CString, n: nat)
    ensures IsPlace(name, n) <==> DecodeIndex(name, 0) == Some(n)
  {
    hide NamesIndex, DecodeIndex, TokenEnd;
    DecodesNamed(name, 0, n);
    assert name[0..TokenEnd(name, 0)] == name[..TokenEnd(name, 0)];
  }

  lemma ChildIsTaken(node: Json, name: CString, k: nat)
    requires Distinct(node) && FindChild(node, name) == Some(k)
    ensures Distinct(WithoutChild(node, k)) && Distinct(Child(node, k))
    ensures TakesOut(Norm(node), name, Norm(WithoutChild(node, k)), Norm(Child(node, k)))
  {
    hide NormMembers, IsPlace, DecodeIndex, Comparing.FindKey;
    match node {
      case Array(items) =>
        PlaceIsIndex(name, k);
        assert Norm(Array(Without(items, k))).items == Without(Norm(node).items, k);
      case Object(members) =>
        StrCmpZero(LowerAll(members[k].key), LowerAll(name));
        NormAt(members, k);
        NormRemove(members, k);
        assert members[k].key in NormMembers(members);
      case _ =>
    }
  }

  lemma TakenIsChild(node: Json, name: CString, rest: Canon, taken: Canon)
    requires Distinct(node) && TakesOut(Norm(node), name, rest, taken)
    ensures FindChild(node, name).Some?
  {
    hide NormMembers, IsPlace, DecodeIndex, Comparing.FindKey;
    match node {
      case Array(items) =>
        var n: nat :| IsPlace(name, n) && n < |items|;
        PlaceIsIndex(name, n);
      case Object(members) =>
        if FindChild(node, name).None? {
          PatchSteps.NoneLoosely(members, name);
          assert false;
        }
      case _ =>
    }
  }

  /** `detach_path` finds a child exactly when there is one to take out, and takes out such a one. */
  lemma DetachMeets(doc: Json, p: CString, caseSensitive: bool)
    requires Distinct(doc) && KeysApart(Norm(doc), caseSensitive)
    ensures FindPlace(doc, p, caseSensitive).Some? <==> HasChild(Norm(doc), p, caseSensitive)
    ensures FindPlace(doc, p, caseSensitive).Some? ==>
      var place := FindPlace(doc, p, caseSensitive).value;
      && Distinct(Detach(doc, place)) && Distinct(Detached(doc, place))
      && Detaches(Norm(doc), p, Norm(Detach(doc, place)), Norm(Detached(doc, place)), caseSensitive)
      && KeysApart(Norm(Detach(doc, place)), caseSensitive)
  {
    hide KeysApart, Norm, Distinct, Lookup, Get, Put, LastSlash, Child, WithoutChild, FindChild, TakesOut, Targets, CP.Leads;
    if FindPlace(doc, p, caseSensitive).Some? {
      var place := FindPlace(doc, p, caseSensitive).value;
      var node, name := Get(doc, place.parent), DecodeInPlace.Decode(p[LastSlash(p).value + 1..]);
      var path := ParentIsTarget(doc, p, place.parent, name, caseSensitive);
      ChildIsTaken(node, name, place.k);
      CP.LeadsToNorm(doc, place.parent, path, WithoutChild(node, place.k));
      NodeApart(doc, place.parent, caseSensitive);
      TakenApart(Norm(node), name, Norm(WithoutChild(node, place.k)), Norm(Child(node, place.k)), caseSensitive);
      SetApart(Norm(doc), path, Norm(WithoutChild(node, place.k)), caseSensitive);
      assert Detaches(Norm(doc), p, Norm(Detach(doc, place)), Norm(Detached(doc, place)), caseSensitive) by {
        DetachesBy(Norm(doc), p, path, name, Norm(WithoutChild(node, place.k)), Norm(Child(node, place.k)), caseSensitive);
      }
    }
    if HasChild(Norm(doc), p, caseSensitive) {
      var after, taken :| Detaches(Norm(doc), p, after, taken, caseSensitive);
      var path, name, rest := DetachParts(Norm(doc), p, after, taken, caseSensitive);
      var pos := TargetIsParent(doc, p, path, name, caseSensitive);
      TakenIsChild(Get(doc, pos), name, rest, taken);
    }
  }

  lemma DetachParts(c: Canon, p: CString, after: Canon, taken: Canon, caseSensitive: bool) returns (path: CP.Path, name: CString, rest: Canon)
    requires Detaches(c, p, after, taken, caseSensitive)
    ensures CP.HasPath(c, path) && Targets(c, p, path, name, caseSensitive)
    ensures TakesOut(CP.At(c, path), name, rest, taken) && after == CP.Set(c, path, rest)
  {
    hide TakesOut;
    path, name, rest :| Targets(c, p, path, name, caseSensitive) && TakesOut(CP.At(c, path), name, rest, taken) && after == CP.Set(c, path, rest);
  }

  lemma DetachesBy(c: Canon, p: CString, path: CP.Path, name: CString, rest: Canon, taken: Canon, caseSensitive: bool)
    requires Targets(c, p, path, name, caseSensitive) && TakesOut(CP.At(c, path), name, rest, taken)
    ensures Detaches(c, p, CP.Set(c, path, rest), taken, caseSensitive)
  {
    hide TakesOut;
  }

  // ----- putting in -----

  lemma ChildIsReceived(doc: Json, pos: Position, path: CP.Path, name: CString, value: Json, caseSensitive: bool) returns (node: Json)
    requires Distinct(doc) && Distinct(value) && CP.Leads(doc, pos, path) && HasPosition(doc, pos)
    requires Distinct(Get(doc, pos)) && KeysApart(Norm(Get(doc, pos)), caseSensitive)
    ensures var added := AddChild(doc, pos, name, value, caseSensitive);
      && Distinct(node) && added.doc == Put(doc, pos, node)
      && Receives(Norm(Get(doc, pos)), name, Norm(value), added.status, Norm(node), caseSensitive)
  {
    hide NormMembers, IsPlace, DecodeIndex, Comparing.FindKey, Put, Get;
    PutSame(doc, pos);
    match Get(doc, pos) {
      case Array(items) =>
        node := ItemIsReceived(doc, pos, name, value, caseSensitive);
      case Object(members) =>
        node := MemberIsReceived(members, name, value, caseSensitive);
      case _ =>
        node := Get(doc, pos);
    }
  }

  /** Putting a member into an object takes the place of the one member with that key, to the case flag. */
  lemma MemberIsReceived(members: seq<Keyed<Json>>, name: CString, value: Json, caseSensitive: bool) returns (node: Json)
    requires Distinct(Object(members)) && KeysApart(Norm(Object(members)), caseSensitive) && Distinct(value)
    ensures var k := Comparing.FindKey(members, name, caseSensitive);
      node == Object((if k < |members| then Without(members, k) else members) + [Keyed(name, value)])
    ensures Distinct(node) && node.Object? && NormMembers(node.members) == Others(NormMembers(members), name, caseSensitive)[name := Norm(value)]
  {
    var k := Comparing.FindKey(members, name, caseSensitive);
    var others := if k < |members| then Without(members, k) else members;
    ApartMembers(members, caseSensitive);
    FindsOne(members, name, caseSensitive);
    NoneLeft(members, k, name, caseSensitive);
    hide Norm, NormMembers, Comparing.FindKey, Folded, KeysApart, HasKey, Others, MembersApart, DistinctKeys, Without;
    OthersLeft(members, k, name, caseSensitive);
    if k < |members| { NormRemove(members, k); }
    NormAppend(others, Keyed(name, value));
    node := Object(others + [Keyed(name, value)]);
    assert Distinct(node) by { DistinctWith(others, Keyed(name, value)); }
  }

  lemma DistinctWith(others: seq<Keyed<Json>>, m: Keyed<Json>)
    requires DistinctKeys(others + [m]) && (forall o :: o in others ==> Distinct(o.item)) && Distinct(m.item)
    ensures Distinct(Object(others + [m]))
  {
  }

  lemma NoneLeft(members: seq<Keyed<Json>>, k: nat, name: CString, caseSensitive: bool)
    requires k <= |members|
    requires forall x :: 0 <= x < |members| && Folded(members[x].key, caseSensitive) == Folded(name, caseSensitive) ==> x == k
    requires k < |members| ==> DistinctKeys(members) && Folded(members[k].key, caseSensitive) == Folded(name, caseSensitive)
    ensures !HasKey(if k < |members| then Without(members, k) else members, name)
    ensures k < |members| ==> forall x :: x in Without(members, k) ==> x in members
  {
    hide Folded;
    if k < |members| {
      var others := Without(members, k);
      forall x | 0 <= x < |others| ensures others[x].key != name && others[x] in members {
        var y: nat := if x < k then x else x + 1;
        assert others[x] == members[y];
      }
    }
  }

  lemma OthersLeft(members: seq<Keyed<Json>>, k: nat, name: CString, caseSensitive: bool)
    requires DistinctKeys(members) && k <= |members|
    requires forall x :: 0 <= x < |members| && Folded(members[x].key, caseSensitive) == Folded(name, caseSensitive) ==> x == k
    requires k < |members| ==> Folded(members[k].key, caseSensitive) == Folded(name, caseSensitive)
    ensures var m := NormMembers(members);
      Others(m, name, caseSensitive) == if k < |members| then m - {members[k].key} else m
  {
    hide NormMembers, Folded;
    var m := NormMembers(members);
    forall key | key in m ensures Folded(key, caseSensitive) == Folded(name, caseSensitive) <==> k < |members| && key == members[k].key {
      var x := MemberOf(members, key);
    }
  }

  lemma ItemIsReceived(doc: Json, pos: Position, name: CString, value: Json, caseSensitive: bool) returns (node: Json)
    requires HasPosition(doc, pos) && Get(doc, pos).Array? && Distinct(Get(doc, pos)) && Distinct(value)
    ensures var added := AddChild(doc, pos, name, value, caseSensitive);
      && Distinct(node) && added.doc == Put(doc, pos, node)
      && Receives(Norm(Get(doc, pos)), name, Norm(value), added.status, Norm(node), caseSensitive)
  {
    hide IsPlace, DecodeIndex, Put, Get;
    PutSame(doc, pos);
    node := Get(doc, pos);
    var items := node.items;
    var index := DecodeIndex(name, 0);
    if name == [MINUS] {
      node := Array(items + [value]);
      assert Norm(node).items == Norm(Array(items)).items + [Norm(value)];
    } else if index.None? {
      forall n: nat ensures !IsPlace(name, n) {
        PlaceIsIndex(name, n);
      }
    } else {
      var k := index.value;
      PlaceIsIndex(name, k);
      if k <= |items| {
        node := Array(items[..k] + [value] + items[k..]);
        var canon := Norm(Array(items)).items;
        assert Norm(node).items == canon[..k] + [Norm(value)] + canon[k..];
      }
      assert Inserts(Norm(Get(doc, pos)).items, k, Norm(value), AddChild(doc, pos, name, value, caseSensitive).status, Norm(node));
    }
  }

  lemma {:induction false} PutSame(j: Json, pos: Position)
    requires HasPosition(j, pos)
    ensures Put(j, pos, Get(j, pos)) == j
    decreases pos
  {
    if pos != [] {
      PutSame(Child(j, pos[0]), pos[1..]);
      match j {
        case Array(items) => assert items[pos[0] := items[pos[0]]] == items;
        case Object(members) => assert members[pos[0] := Keyed(members[pos[0]].key, members[pos[0]].item)] == members;
      }
    }
  }

  /** The last part of `apply_patch` puts the value where it belongs, or gives the status that says why not. */
  lemma PutMeets(doc: Json, p: CString, value: Json, caseSensitive: bool)
    requires Distinct(doc) && KeysApart(Norm(doc), caseSensitive) && Distinct(value)
    ensures var added := AddValue(doc, p, value, caseSensitive);
      Distinct(added.doc) && Puts(Norm(doc), p, Norm(value), added.status, Norm(added.doc), caseSensitive)
  {
    hide Norm, Distinct, Lookup, Get, Put, LastSlash, AddChild, Receives, Targets, CP.Leads;
    var c := Norm(doc);
    if LastSlash(p).Some? && Lookup(doc, p[..LastSlash(p).value], 0, caseSensitive).Some? {
      var pos, name := Lookup(doc, p[..LastSlash(p).value], 0, caseSensitive).value, DecodeInPlace.Decode(p[LastSlash(p).value + 1..]);
      var path := ParentIsTarget(doc, p, pos, name, caseSensitive);
      NodeApart(doc, pos, caseSensitive);
      var node := ChildIsReceived(doc, pos, path, name, value, caseSensitive);
      CP.LeadsToNorm(doc, pos, path, node);
      PutsBy(c, p, path, name, Norm(value), AddChild(doc, pos, name, value, caseSensitive).status, Norm(node), caseSensitive);
    } else if HasParent(c, p, caseSensitive) {
      var path, name :| Targets(c, p, path, name, caseSensitive);
      var pos := TargetIsParent(doc, p, path, name, caseSensitive);
      assert false;
    }
  }

  lemma PutsBy(c: Canon, p: CString, path: CP.Path, name: CString, v: Canon, status: int, r: Canon, caseSensitive: bool)
    requires Targets(c, p, path, name, caseSensitive) && Receives(CP.At(c, path), name, v, status, r, caseSensitive)
    ensures Puts(c, p, v, status, CP.Set(c, path, r), caseSensitive)
  {
    hide Receives;
  }

  // ----- copying -----

  /** Whether a tree is copied whole does not depend on the order of its members. */
  lemma {:induction false} CopiesShallow(j: Json, depth: nat)
    requires Distinct(j)
    ensures Copyable(j, depth) <==> IsShallow(Norm(j), depth)
    decreases j
  {
    match j {
      case Array(items) =>
        forall i | 0 <= i < |items| ensures Copyable(items[i], depth + 1) <==> IsShallow(Norm(items[i]), depth + 1) {
          CopiesShallow(items[i], depth + 1);
        }
        assert |Norm(j).items| == |items| && forall i :: 0 <= i < |items| ==> Norm(j).items[i] == Norm(items[i]);
      case Object(members) =>
        forall i | 0 <= i < |members| ensures Copyable(members[i].item, depth + 1) <==> IsShallow(Norm(members[i].item), depth + 1) {
          CopiesShallow(members[i].item, depth + 1);
        }
        MembersShallow(members, depth);
      case _ =>
    }
  }

  lemma MembersShallow(members: seq<Keyed<Json>>, depth: nat)
    requires DistinctKeys(members)
    ensures members == [] <==> NormMembers(members) == map[]
    ensures (forall k :: k in NormMembers(members) ==> IsShallow(NormMembers(members)[k], depth + 1))
       <==> (forall i :: 0 <= i < |members| ==> IsShallow(Norm(members[i].item), depth + 1))
  {
    hide Norm, IsShallow;
    forall i | 0 <= i < |members| ensures members[i].key in NormMembers(members) && NormMembers(members)[members[i].key] == Norm(members[i].item) {
      NormAt(members, i);
    }
    forall k | k in NormMembers(members) ensures exists i :: 0 <= i < |members| && members[i].key == k {
      NormKeys(members, k);
    }
  }

  // ----- operations -----

  /** Each operation by its text in a patch. */
  lemma OperationTexts(s: CString)
    ensures Reads(s, "test") <==> s == TEST_TEXT
    ensures Reads(s, "add") <==> s == ADD_TEXT
    ensures Reads(s, "replace") <==> s == REPLACE_TEXT
    ensures Reads(s, "remove") <==> s == REMOVE_TEXT
    ensures Reads(s, "move") <==> s == MOVE_TEXT
    ensures Reads(s, "copy") <==> s == COPY_TEXT
  {
    ReadsOne(s, TEST_TEXT, "test");
    ReadsOne(s, ADD_TEXT, "add");
    ReadsOne(s, REPLACE_TEXT, "replace");
    ReadsOne(s, REMOVE_TEXT, "remove");
    ReadsOne(s, MOVE_TEXT, "move");
    ReadsOne(s, COPY_TEXT, "copy");
  }

  lemma ReadsOne(s: CString, t: CString, word: string)
    requires Reads(t, word)
    ensures Reads(s, word) <==> s == t
  {
  }

  /** The kind of a patch is told by its text. */
  lemma OperationIs(patch: Json, caseSensitive: bool)
    ensures var operation := DecodeOperation(patch, caseSensitive);
      && (operation == Test <==> Is(patch, "test", caseSensitive))
      && (operation == Add <==> Is(patch, "add", caseSensitive))
      && (operation == Replace <==> Is(patch, "replace", caseSensitive))
      && (operation == Remove <==> Is(patch, "remove", caseSensitive))
      && (operation == Move <==> Is(patch, "move", caseSensitive))
      && (operation == Copy <==> Is(patch, "copy", caseSensitive))
  {
    hide Item, Reads;
    if Item(patch, OP, caseSensitive).Some? && Item(patch, OP, caseSensitive).value.String? {
      OperationTexts(Item(patch, OP, caseSensitive).value.s);
    }
    assert TEST_TEXT[0] == 116 && ADD_TEXT[0] == 97 && REPLACE_TEXT[2] == 112 && REMOVE_TEXT[2] == 109 && MOVE_TEXT[0] == 109 && COPY_TEXT[0] == 99;
  }

  lemma AddMeets(doc: Json, p: CString, patch: Json, caseSensitive: bool)
    requires Distinct(doc) && KeysApart(Norm(doc), caseSensitive) && p != []
    requires Item(patch, VALUE, caseSensitive).Some? ==> Distinct(Item(patch, VALUE, caseSensitive).value)
    ensures var edited := Edit(doc, Add, p, patch, caseSensitive);
      Distinct(edited.doc) && Adds(Norm(doc), p, Item(patch, VALUE, caseSensitive), edited.status, Norm(edited.doc), caseSensitive)
  {
    hide Norm, Distinct, KeysApart, Item, AddValue, Puts, Copyable, IsShallow;
    match Item(patch, VALUE, caseSensitive) {
      case Some(value) =>
        CopiesShallow(value, 0);
        PutMeets(doc, p, value, caseSensitive);
      case _ =>
    }
  }

  lemma ReplaceMeets(doc: Json, p: CString, patch: Json, caseSensitive: bool)
    requires Distinct(doc) && KeysApart(Norm(doc), caseSensitive) && p != []
    requires Item(patch, VALUE, caseSensitive).Some? ==> Distinct(Item(patch, VALUE, caseSensitive).value)
    ensures var edited := Edit(doc, Replace, p, patch, caseSensitive);
      Distinct(edited.doc) && Replaces(Norm(doc), p, Item(patch, VALUE, caseSensitive), edited.status, Norm(edited.doc), caseSensitive)
  {
    hide Norm, Distinct, KeysApart, Item, AddValue, Adds, FindPlace, Detach, Detached, HasChild, Detaches;
    DetachMeets(doc, p, caseSensitive);
    if FindPlace(doc, p, caseSensitive).Some? {
      var between := Detach(doc, FindPlace(doc, p, caseSensitive).value);
      AddMeets(between, p, patch, caseSensitive);
    }
  }

  lemma RemoveMeets(doc: Json, p: CString, patch: Json, caseSensitive: bool)
    requires Distinct(doc) && KeysApart(Norm(doc), caseSensitive)
    ensures var edited := Edit(doc, Remove, p, patch, caseSensitive);
      Distinct(edited.doc) && Removes(Norm(doc), p, edited.status, Norm(edited.doc), caseSensitive)
  {
    hide Norm, Distinct, KeysApart, Item, FindPlace, Detach, Detached, HasChild, Detaches;
    DetachMeets(doc, p, caseSensitive);
  }

  lemma MoveMeets(doc: Json, p: CString, patch: Json, caseSensitive: bool)
    requires Distinct(doc) && KeysApart(Norm(doc), caseSensitive)
    ensures var edited := Edit(doc, Move, p, patch, caseSensitive);
      Distinct(edited.doc) && Moves(Norm(doc), p, Item(patch, FROM, caseSensitive), edited.status, Norm(edited.doc), caseSensitive)
  {
    hide Norm, Distinct, KeysApart, Item, AddValue, Puts, FindPlace, Detach, Detached, HasChild, Detaches;
    match Item(patch, FROM, caseSensitive) {
      case Some(String(from)) =>
        DetachMeets(doc, from, caseSensitive);
        if FindPlace(doc, from, caseSensitive).Some? {
          var place := FindPlace(doc, from, caseSensitive).value;
          PutMeets(Detach(doc, place), p, Detached(doc, place), caseSensitive);
        }
      case _ =>
    }
  }

  lemma CopyMeets(doc: Json, p: CString, patch: Json, caseSensitive: bool)
    requires Distinct(doc) && KeysApart(Norm(doc), caseSensitive)
    ensures var edited := Edit(doc, Copy, p, patch, caseSensitive);
      Distinct(edited.doc) && Copies(Norm(doc), p, Item(patch, FROM, caseSensitive), edited.status, Norm(edited.doc), caseSensitive)
  {
    hide Norm, Distinct, KeysApart, Item, AddValue, Puts, Lookup, Get, Follows, Copyable, IsShallow, CP.Leads;
    match Item(patch, FROM, caseSensitive) {
      case Some(String(from)) =>
        LooksWhereItLeads(doc, from, caseSensitive);
        if Lookup(doc, from, 0, caseSensitive).Some? {
          var path :| Follows(Norm(doc), from, path, caseSensitive);
          var source := Get(doc, Lookup(doc, from, 0, caseSensitive).value);
          CopiesShallow(source, 0);
          PutMeets(doc, p, source, caseSensitive);
          var edited := Edit(doc, Copy, p, patch, caseSensitive);
          assert PutsCopy(Norm(doc), p, CP.At(Norm(doc), path), edited.status, Norm(edited.doc), caseSensitive);
        }
      case _ =>
    }
  }

  lemma TestMeets(doc: Json, p: CString, value: Json, caseSensitive: bool)
    requires Distinct(doc) && KeysApart(Norm(doc), caseSensitive) && Distinct(value) && KeysApart(Norm(value), caseSensitive)
    ensures var tested := TestValue(doc, p, value, caseSensitive);
      && tested.doc.Some? && Distinct(tested.doc.value)
      && PatchMeaning.Tests(Norm(doc), p, Some(value), tested.status, Norm(tested.doc.value), caseSensitive)
  {
    hide Holds, Norm, Distinct, Lookup, Get, Put, Follows, Alike, KeysApart, CP.Leads, Comparing.CompareSorted, CompareWalk.Left, CompareWalk.StaysLinked;
    LooksWhereItLeads(doc, p, caseSensitive);
    if Lookup(doc, p, 0, caseSensitive).Some? {
      var pos := Lookup(doc, p, 0, caseSensitive).value;
      var path :| Follows(Norm(doc), p, path, caseSensitive);
      var node := Get(doc, pos);
      NodeApart(doc, pos, caseSensitive);
      TestsAlike(node, value, caseSensitive);
      CompareWalk.LeftSame(node, value, caseSensitive);
      CP.LeadsToNorm(doc, pos, path, CompareWalk.Left(node, value, caseSensitive));
      CP.SetSame(Norm(doc), path);
      HoldsAt(Norm(doc), p, path, Norm(value), caseSensitive);
    } else {
      HoldsNowhere(Norm(doc), p, Norm(value), caseSensitive);
    }
  }

  lemma HoldsAt(c: Canon, p: CString, path: CP.Path, v: Canon, caseSensitive: bool)
    requires KeysApart(c, caseSensitive) && Follows(c, p, path, caseSensitive) && CP.HasPath(c, path)
    ensures Holds(c, p, v, caseSensitive) <==> Alike(CP.At(c, path), v, caseSensitive)
  {
    hide Spelled, TokenEnd, Alike;
    forall other | Follows(c, p, other, caseSensitive) ensures other == path {
      FollowsOneWay(c, p, other, path, caseSensitive);
    }
  }

  lemma HoldsNowhere(c: Canon, p: CString, v: Canon, caseSensitive: bool)
    requires !PatchMeaning.Leads(c, p, caseSensitive)
    ensures !Holds(c, p, v, caseSensitive)
  {
    hide Spelled, TokenEnd, Alike;
  }

  /** Applying a patch makes of the document what the patch means, with the status that it means; only a test
      can leave an object without its link from head to tail. */
  lemma AppliesAsMeant(doc: Json, patch: Json, caseSensitive: bool) returns (after: Json)
    requires Distinct(doc) && KeysApart(Norm(doc), caseSensitive)
    requires ValueApart(patch, caseSensitive)
    requires !(Is(patch, "remove", caseSensitive) && Item(patch, PATH, caseSensitive) == Some(String([])))
    ensures var applied := Apply(Some(doc), patch, caseSensitive);
      && applied.doc == Some(after) && Distinct(after) && (applied.linked || Is(patch, "test", caseSensitive))
      && Does(Norm(doc), patch, applied.status, Norm(after), caseSensitive)
  {
    hide Norm, Distinct, KeysApart, Item, Edit, Is, Apply, DecodeOperation, TestValue, PatchMeaning.Tests, Adds, Replaces, Removes, Moves, Copies;
    OperationIs(patch, caseSensitive);
    match Item(patch, PATH, caseSensitive) {
      case Some(String(p)) =>
        after := AppliesAt(doc, patch, p, caseSensitive);
      case _ =>
        NeedsPath(doc, patch, caseSensitive);
        after := doc;
    }
  }

  lemma NeedsPath(doc: Json, patch: Json, caseSensitive: bool)
    requires !(Item(patch, PATH, caseSensitive).Some? && Item(patch, PATH, caseSensitive).value.String?)
    ensures Apply(Some(doc), patch, caseSensitive) == Outcome(2, Some(doc), true)
  {
    hide Item, Edit;
  }

  lemma AppliesAt(doc: Json, patch: Json, p: CString, caseSensitive: bool) returns (after: Json)
    requires Distinct(doc) && KeysApart(Norm(doc), caseSensitive)
    requires ValueApart(patch, caseSensitive)
    requires Item(patch, PATH, caseSensitive) == Some(String(p)) && !(DecodeOperation(patch, caseSensitive) == Remove && p == [])
    ensures var operation, value := DecodeOperation(patch, caseSensitive), Item(patch, VALUE, caseSensitive);
      var applied := Apply(Some(doc), patch, caseSensitive);
      && applied.doc == Some(after) && Distinct(after) && (applied.linked || operation == Test)
      && match operation
         case Test => PatchMeaning.Tests(Norm(doc), p, value, applied.status, Norm(after), caseSensitive)
         case Add => Adds(Norm(doc), p, value, applied.status, Norm(after), caseSensitive)
         case Replace => Replaces(Norm(doc), p, value, applied.status, Norm(after), caseSensitive)
         case Remove => Removes(Norm(doc), p, applied.status, Norm(after), caseSensitive)
         case Move => Moves(Norm(doc), p, Item(patch, FROM, caseSensitive), applied.status, Norm(after), caseSensitive)
         case Copy => Copies(Norm(doc), p, Item(patch, FROM, caseSensitive), applied.status, Norm(after), caseSensitive)
         case Invalid => applied.status == 3 && after == doc
  {
    hide Norm, Distinct, KeysApart, Item, Edit, DecodeOperation, TestValue, HasChild, Detaches, Puts, Moves, Copies, Removes, Copyable, IsShallow;
    var applied := Apply(Some(doc), patch, caseSensitive);
    after := if applied.doc.Some? then applied.doc.value else doc;
    var value := Item(patch, VALUE, caseSensitive);
    if value.Some? { CopiesShallow(value.value, 0); }
    match DecodeOperation(patch, caseSensitive) {
      case Test => if value.Some? { TestMeets(doc, p, value.value, caseSensitive); }
      case Add => if p != [] { AddMeets(doc, p, patch, caseSensitive); }
      case Replace => if p != [] { ReplaceMeets(doc, p, patch, caseSensitive); }
      case Remove => RemoveMeets(doc, p, patch, caseSensitive);
      case Move => MoveMeets(doc, p, patch, caseSensitive);
      case Copy => CopyMeets(doc, p, patch, caseSensitive);
      case Invalid =>
    }
  }

  /** No patch of the list removes the root or gives a value that repeats a key. */
  ghost predicate AreCases(patches: seq<Json>) {
    forall i :: 0 <= i < |patches| ==> KeepsRoot(patches[i])
  }

  ghost predicate KeepsRoot(patch: Json) {
    && (Item(patch, VALUE, true).Some? ==> Distinct(Item(patch, VALUE, true).value))
    && !(Is(patch, "remove", true) && Item(patch, PATH, true) == Some(String([])))
  }

  /** Applying a list of patches with the flag on makes of the document what the list means. */
  lemma {:induction false} RunsAsMeant(doc: Json, patches: seq<Json>) returns (after: Json)
    requires Distinct(doc) && AreCases(patches)
    ensures var applied := ApplyAll(Some(doc), patches, true);
      applied.doc == Some(after) && Distinct(after) && Runs(Norm(doc), patches, applied.status, Norm(after), true)
    decreases |patches|
  {
    hide Norm, Distinct, Item, Is, Apply, Does, KeysApart;
    if patches == [] {
      after := doc;
    } else {
      assert KeepsRoot(patches[0]);
      AlwaysApart(Norm(doc));
      if Item(patches[0], VALUE, true).Some? { AlwaysApart(Norm(Item(patches[0], VALUE, true).value)); }
      var between := AppliesAsMeant(doc, patches[0], true);
      var first := Apply(Some(doc), patches[0], true);
      if first.status != 0 {
        after := between;
      } else {
        after := RunsAsMeant(between, patches[1..]);
      }
      assert RunsOn(first.status, Norm(between), patches[1..], ApplyAll(Some(doc), patches, true).status, Norm(after), true);
    }
  }
}
