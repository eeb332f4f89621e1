/** What a patch leaves alone, whatever the in-place decoder makes of its last token: members of the object at a path
    that its last key is not taken for. */
module PatchSpares {
  import opened Bytes
  import opened Json
  import opened Canon
  import opened Pointer
  import opened Paths
  import opened Patch
  import opened PatchSteps
  import CP = CanonPath
  import DecodeInPlace
  import opened DecodeRank

  /** The two objects say the same about `key`. */
  predicate Agree(m: map<CString, Canon>, n: map<CString, Canon>, key: CString) {
    (key in m <==> key in n) && (key in m ==> m[key] == n[key])
  }

  /** Only the object at `path` has changed, to `m`, and not at `key`. */
  ghost predicate Spares(doc: Json, path: CP.Path, key: CString, after: Json, m: map<CString, Canon>) {
    && CP.HasPath(Norm(doc), path) && CP.At(Norm(doc), path).Dict?
    && Distinct(after) && Norm(after) == CP.Set(Norm(doc), path, Dict(m)) && Agree(CP.At(Norm(doc), path).members, m, key)
  }

  lemma SparesNothing(doc: Json, path: CP.Path, key: CString)
    requires Distinct(doc) && CP.HasPath(Norm(doc), path) && CP.At(Norm(doc), path).Dict?
    ensures Spares(doc, path, key, doc, CP.At(Norm(doc), path).members)
  {
    hide Norm, Distinct;
    CP.SetSame(Norm(doc), path);
  }

  lemma SparesThere(doc: Json, path: CP.Path, key: CString, after: Json, m: map<CString, Canon>)
    requires Spares(doc, path, key, after, m)
    ensures Distinct(after) && CP.HasPath(Norm(after), path) && CP.At(Norm(after), path) == Dict(m)
  {
    hide Norm, Distinct;
    CP.SetIsThere(Norm(doc), path, Dict(m));
  }

  lemma SparesTwice(doc: Json, path: CP.Path, key: CString, middle: Json, m: map<CString, Canon>, after: Json, n: map<CString, Canon>)
    requires Spares(doc, path, key, middle, m) && Spares(middle, path, key, after, n)
    ensures Spares(doc, path, key, after, n)
  {
    hide Norm, Distinct;
    CP.SetIsThere(Norm(doc), path, Dict(m));
    CP.SetTwice(Norm(doc), path, Dict(m), Dict(n));
  }

  // ----- edits deeper down -----

  /** A node below the member `other` of the object at `path`. */
  ghost predicate Under(doc: Json, path: CP.Path, other: CString, pos: Position) {
    exists a: Position, b: Position :: pos == a + b && CP.Leads(doc, a, path + [CP.Key(other)]) && HasPosition(doc, a) && HasPosition(Get(doc, a), b)
  }

  lemma {:induction false} SplitPosition(j: Json, a: Position, b: Position)
    requires HasPosition(j, a + b)
    ensures HasPosition(j, a) && HasPosition(Get(j, a), b) && Get(j, a + b) == Get(Get(j, a), b)
    decreases a
  {
    if a == [] {
      assert a + b == b;
    } else {
      assert (a + b)[1..] == a[1..] + b;
      SplitPosition(Child(j, a[0]), a[1..], b);
    }
  }

  /** Whatever is put there, the other members of the object at `path` stay. */
  lemma PutUnder(doc: Json, path: CP.Path, other: CString, key: CString, pos: Position, v: Json) returns (m: map<CString, Canon>)
    requires Distinct(doc) && Distinct(v) && CP.HasPath(Norm(doc), path) && CP.At(Norm(doc), path).Dict?
    requires Under(doc, path, other, pos) && other != key
    ensures HasPosition(doc, pos) && Distinct(Get(doc, pos)) && Spares(doc, path, key, Put(doc, pos, v), m)
  {
    hide Norm, Distinct, Get, Put, CP.Leads, HasPosition;
    var a: Position, b: Position :| pos == a + b && CP.Leads(doc, a, path + [CP.Key(other)]) && HasPosition(doc, a) && HasPosition(Get(doc, a), b);
    var child := path + [CP.Key(other)];
    var rest := CP.LeadsSomewhere(Get(doc, a), b);
    CP.LeadsOn(doc, a, child, b, rest);
    CP.LeadsToNorm(doc, a, child, v);
    CP.LeadsToNorm(Get(doc, a), b, rest, v);
    CP.LeadsToNorm(doc, pos, child + rest, v);
    CP.SetPrefix(Norm(doc), child, rest, Norm(v));
    var c := CP.Set(CP.At(Norm(doc), child), rest, Norm(v));
    HasLast(Norm(doc), path, CP.Key(other));
    CP.PathSnoc(Norm(doc), path, CP.Key(other), c);
    m := CP.At(Norm(doc), path).members[other := c];
  }

  lemma GetUnder(doc: Json, path: CP.Path, other: CString, pos: Position)
    requires Distinct(doc) && Under(doc, path, other, pos)
    ensures HasPosition(doc, pos) && Distinct(Get(doc, pos))
  {
    hide Get, CP.Leads, HasPosition, Put;
    var a: Position, b: Position :| pos == a + b && CP.Leads(doc, a, path + [CP.Key(other)]) && HasPosition(doc, a) && HasPosition(Get(doc, a), b);
    var rest := CP.LeadsSomewhere(Get(doc, a), b);
    CP.LeadsOn(doc, a, path + [CP.Key(other)], b, rest);
    CP.LeadsToNorm(doc, pos, path + [CP.Key(other)] + rest, Null);
  }

  lemma LeadsToDict(doc: Json, pos: Position, path: CP.Path)
    requires Distinct(doc) && CP.HasPath(Norm(doc), path) && CP.At(Norm(doc), path).Dict? && CP.Leads(doc, pos, path)
    ensures HasPosition(doc, pos) && Get(doc, pos).Object?
  {
    CP.LeadsToNorm(doc, pos, path, Null);
  }

  lemma {:induction false} HasLast(c: Canon, path: CP.Path, t: CP.Token)
    requires CP.HasPath(c, path) && CP.HasPath(c, path + [t])
    ensures CP.HasToken(CP.At(c, path), t)
    decreases path
  {
    if path == [] {
      assert (path + [t])[0] == t;
    } else {
      assert (path + [t])[1..] == path[1..] + [t];
      HasLast(CP.Below(c, path[0]), path[1..], t);
    }
  }

  /** A pointer that goes on behind the member's encoded key leads to that member first, if anywhere. */
  lemma LooksUnder(doc: Json, path: CP.Path, other: CString, p: CString, more: CString)
    requires Distinct(doc) && CP.HasPath(Norm(doc), path) && CP.Indexable(path) && CP.At(Norm(doc), path).Dict?
    requires p == Full(path, Encode(other)) + more && (more == [] || more[0] == SLASH) && Lookup(doc, p, 0, true).Some?
    ensures Under(doc, path, other, Lookup(doc, p, 0, true).value)
  {
    hide Norm, Distinct, Lookup, Encode, Get, CP.PathText, CP.Leads;
    var pos := CP.PathLeads(doc, path);
    LeadsToDict(doc, pos, path);
    var node, token := Get(doc, pos), Encode(other);
    assert p[0..] == CP.PathText(path) + ([SLASH] + (token + more));
    var k := CP.PassesThrough(doc, pos, path, p, 0, [SLASH] + (token + more));
    assert p[k] == p[k..][0] && p[k + 1..] == p[k..][1..] == token + more;
    var found := Lookup(node, p, k, true).value;
    LooksAtKey(node, p, k, other, more, found);
    assert pos + found == pos + [found[0]] + found[1..];
    assert CP.Leads(doc, pos + [found[0]], path + [CP.Key(other)]) by { LeadsToChild(doc, pos, path, found[0], other); }
    SplitPosition(doc, pos + [found[0]], found[1..]);
  }

  lemma LeadsToChild(doc: Json, pos: Position, path: CP.Path, n: nat, other: CString)
    requires CP.Leads(doc, pos, path) && HasPosition(doc, pos)
    requires n < ChildCount(Get(doc, pos)) && CP.TokenAt(Get(doc, pos), n) == CP.Key(other)
    ensures CP.Leads(doc, pos + [n], path + [CP.Key(other)])
  {
    hide CP.Leads, Get;
    assert CP.Leads(Get(doc, pos), [n], [CP.Key(other)]) by { LeadsOne(Get(doc, pos), n); }
    CP.LeadsOn(doc, pos, path, [n], [CP.Key(other)]);
  }

  lemma LeadsOne(j: Json, n: nat)
    requires n < ChildCount(j)
    ensures CP.Leads(j, [n], [CP.TokenAt(j, n)])
  {
    assert [n][1..] == [] && [CP.TokenAt(j, n)][1..] == [];
  }

  lemma LooksAtKey(node: Json, p: CString, k: nat, other: CString, more: CString, found: Position)
    requires node.Object? && k < |p| && p[k] == SLASH && p[k + 1..] == Encode(other) + more && (more == [] || more[0] == SLASH)
    requires Lookup(node, p, k, true) == Some(found)
    ensures found != [] && found[0] < ChildCount(node) && CP.TokenAt(node, found[0]) == CP.Key(other)
  {
    hide Encode, ComparePointers, TokenEnd;
    TokenIs(p, k + 1, Encode(other), more);
    var n := FindToken(node.members, p, k + 1, true);
    FindsToken(node.members, p, k + 1);
    MatchesItsEncoding(node.members[n].key, p, k + 1);
    EncodeInjective(node.members[n].key, other);
  }

  lemma {:induction false} FindsToken<T>(members: seq<Keyed<T>>, p: CString, i: nat)
    requires i <= |p|
    ensures var n := FindToken(members, p, i, true); n < |members| ==> ComparePointers(members[n].key, p, i, true)
  {
    hide ComparePointers;
    if members != [] && !ComparePointers(members[0].key, p, i, true) {
      FindsToken(members[1..], p, i);
    }
  }

  // ----- which patches spare a key -----

  /** The operation ends in a key of the object at `path` that is not taken for `key`, or goes on below another member. */
  ghost predicate PathSpares(p: CString, path: CP.Path, key: CString) {
    || (exists k :: p == Full(path, Encode(k)) && LowerAll(Mistaken(k)) != LowerAll(key))
    || (exists other: CString, rest: CString :: other != key && p == Full(path, Encode(other)) + ([SLASH] + rest))
  }

  /** How a pointer below a member splits at its last slash. */
  lemma {:induction false} LastSlashBehind(a: CString, rest: CString) returns (more: CString)
    ensures var p, last := a + ([SLASH] + rest), LastSlash(a + ([SLASH] + rest));
      last.Some? && p[..last.value] == a + more && (more == [] || more[0] == SLASH)
    decreases |rest|
  {
    var p := a + ([SLASH] + rest);
    if rest == [] {
      assert p[|p| - 1] == SLASH && p[..|p| - 1] == a;
      more := [];
    } else if rest[|rest| - 1] == SLASH {
      assert p[|p| - 1] == SLASH;
      more := [SLASH] + rest[..|rest| - 1];
      assert p[..|p| - 1] == a + more;
    } else {
      assert p[|p| - 1] == rest[|rest| - 1];
      assert p[..|p| - 1] == a + ([SLASH] + rest[..|rest| - 1]);
      more := LastSlashBehind(a, rest[..|rest| - 1]);
      var last := LastSlash(p[..|p| - 1]).value;
      assert p[..|p| - 1][..last] == p[..last];
    }
  }

  lemma DistinctWithoutChild(j: Json, k: nat)
    requires Distinct(j) && k < ChildCount(j)
    ensures Distinct(WithoutChild(j, k))
  {
    if j.Object? {
      DistinctWithout(j.members, k);
    }
  }

  /** Detaching spares the key. */
  lemma DetachSpares(doc: Json, path: CP.Path, key: CString, p: CString) returns (m: map<CString, Canon>)
    requires Distinct(doc) && CP.HasPath(Norm(doc), path) && CP.Indexable(path) && CP.At(Norm(doc), path).Dict? && PathSpares(p, path, key)
    requires FindPlace(doc, p, true).Some?
    ensures Spares(doc, path, key, Detach(doc, FindPlace(doc, p, true).value), m)
  {
    hide Norm, Distinct, Encode, Mistaken, Put, Get, Lookup, LastSlash, Full, FindChild;
    if k :| p == Full(path, Encode(k)) && LowerAll(Mistaken(k)) != LowerAll(key) {
      hide FindPlace, Detach;
      var place, hit := DetachesMistaken(doc, path, k);
      m := CP.At(Norm(doc), path).members - {hit};
    } else {
      var other: CString, rest: CString :| other != key && p == Full(path, Encode(other)) + ([SLASH] + rest);
      var more := LastSlashBehind(Full(path, Encode(other)), rest);
      LooksUnder(doc, path, other, p[..LastSlash(p).value], more);
      var place := FindPlace(doc, p, true).value;
      GetUnder(doc, path, other, place.parent);
      DistinctWithoutChild(Get(doc, place.parent), place.k);
      m := PutUnder(doc, path, other, key, place.parent, WithoutChild(Get(doc, place.parent), place.k));
    }
  }

  /** Adding spares the key. */
  lemma AddSpares(doc: Json, path: CP.Path, key: CString, p: CString, value: Json) returns (m: map<CString, Canon>)
    requires Distinct(doc) && CP.HasPath(Norm(doc), path) && CP.Indexable(path) && CP.At(Norm(doc), path).Dict? && PathSpares(p, path, key)
    requires Distinct(value) && AddValue(doc, p, value, true).status == 0
    ensures Spares(doc, path, key, AddValue(doc, p, value, true).doc, m)
  {
    hide Norm, Distinct, Encode, Mistaken, Put, Get, Lookup, LastSlash, Full, AddChild;
    if k :| p == Full(path, Encode(k)) && LowerAll(Mistaken(k)) != LowerAll(key) {
      hide AddValue;
      var after := AddsMistaken(doc, path, k, value);
      m := CP.At(Norm(doc), path).members[Mistaken(k) := Norm(value)];
    } else {
      var other: CString, rest: CString :| other != key && p == Full(path, Encode(other)) + ([SLASH] + rest);
      var more := LastSlashBehind(Full(path, Encode(other)), rest);
      LooksUnder(doc, path, other, p[..LastSlash(p).value], more);
      var parent, child := Lookup(doc, p[..LastSlash(p).value], 0, true).value, DecodeInPlace.Decode(p[LastSlash(p).value + 1..]);
      GetUnder(doc, path, other, parent);
      var node := AddsChild(doc, parent, child, value);
      m := PutUnder(doc, path, other, key, parent, node);
    }
  }

  /** What adding a child puts in place of the parent. */
  lemma AddsChild(doc: Json, parent: Position, child: CString, value: Json) returns (node: Json)
    requires HasPosition(doc, parent) && Distinct(Get(doc, parent)) && Distinct(value) && AddChild(doc, parent, child, value, true).status == 0
    ensures Distinct(node) && AddChild(doc, parent, child, value, true).doc == Put(doc, parent, node)
  {
    hide NormMembers, Compare.FindKey, Get, Put;
    match Get(doc, parent) {
      case Array(items) =>
        if child == [MINUS] {
          node := Array(items + [value]);
        } else {
          var k := DecodeIndex(child, 0).value;
          node := Array(items[..k] + [value] + items[k..]);
        }
      case Object(members) =>
        ObjectWith(members, child, value);
        var k := Compare.FindKey(members, child, true);
        node := Object((if k < |members| then Without(members, k) else members) + [Keyed(child, value)]);
      case _ =>
    }
  }

  // ----- lists of patches -----

  /** A patch of the generator's kinds that spares the key. */
  ghost predicate EditSpares(patch: Json, path: CP.Path, key: CString) {
    && (exists p: CString, operation: Operation :: EditsAt(patch, p, operation) && PathSpares(p, path, key))
    && (Item(patch, VALUE, true).Some? ==> Distinct(Item(patch, VALUE, true).value))
  }

  lemma PathIsLonger(p: CString, path: CP.Path, key: CString)
    requires PathSpares(p, path, key)
    ensures p != []
  {
    hide Encode;
  }

  lemma ApplySpares(doc: Json, path: CP.Path, key: CString, patch: Json) returns (m: map<CString, Canon>)
    requires Distinct(doc) && CP.HasPath(Norm(doc), path) && CP.Indexable(path) && CP.At(Norm(doc), path).Dict? && EditSpares(patch, path, key)
    requires Apply(Some(doc), patch, true).status == 0
    ensures Apply(Some(doc), patch, true).doc.Some? && Apply(Some(doc), patch, true).linked
    ensures Spares(doc, path, key, Apply(Some(doc), patch, true).doc.value, m)
  {
    hide Norm, Distinct, Item, Apply, FindPlace, AddValue, Detach, EditsAt, PathSpares, Spares, Copyable;
    var p: CString, operation: Operation :| EditsAt(patch, p, operation) && PathSpares(p, path, key);
    PathIsLonger(p, path, key);
    AppliesEdit(doc, patch, p, operation);
    assert operation == Add || operation == Remove || operation == Replace by { EditsKinds(patch, p, operation); }
    if operation == Add {
      m := AddSpares(doc, path, key, p, Item(patch, VALUE, true).value);
    } else {
      var place := FindPlace(doc, p, true).value;
      m := DetachSpares(doc, path, key, p);
      if operation == Replace {
        var middle, value, n := Detach(doc, place), Item(patch, VALUE, true).value, m;
        SparesThere(doc, path, key, middle, n);
        m := AddSpares(middle, path, key, p, value);
        SparesTwice(doc, path, key, middle, n, AddValue(middle, p, value, true).doc, m);
      }
    }
  }

  lemma EditsKinds(patch: Json, p: CString, operation: Operation)
    requires EditsAt(patch, p, operation)
    ensures operation == Add || operation == Remove || operation == Replace
  {
  }

  /** A list of such patches, run to its end, has not touched the key. */
  lemma {:induction false} ListSpares(doc: Json, path: CP.Path, key: CString, patches: seq<Json>) returns (m: map<CString, Canon>)
    requires Distinct(doc) && CP.HasPath(Norm(doc), path) && CP.Indexable(path) && CP.At(Norm(doc), path).Dict?
    requires forall i :: 0 <= i < |patches| ==> EditSpares(patches[i], path, key)
    requires ApplyAll(Some(doc), patches, true).status == 0
    ensures ApplyAll(Some(doc), patches, true).doc.Some? && ApplyAll(Some(doc), patches, true).linked
    ensures Spares(doc, path, key, ApplyAll(Some(doc), patches, true).doc.value, m)
    decreases |patches|
  {
    hide Norm, Distinct, Apply, EditSpares, Spares;
    if patches == [] {
      SparesNothing(doc, path, key);
      m := CP.At(Norm(doc), path).members;
    } else {
      var n := ApplySpares(doc, path, key, patches[0]);
      var middle := Apply(Some(doc), patches[0], true).doc.value;
      SparesThere(doc, path, key, middle, n);
      m := ListSpares(middle, path, key, patches[1..]);
      SparesTwice(doc, path, key, middle, n, ApplyAll(Some(middle), patches[1..], true).doc.value, m);
    }
  }
}
