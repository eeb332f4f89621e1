/** What each generated patch operation does to a document, up to member order. */
module PatchSteps {
  import opened Bytes
  import opened Json
  import opened MergeSort
  import opened Canon
  import opened Compare
  import opened Pointer
  import opened Paths
  import opened Patch
  import opened PatchGenerate
  import CP = CanonPath
  import DecodeInPlace
  import DecodeRank

  type Path = CP.Path

  lemma {:induction false} LastSlashIs(a: CString, token: CString)
    requires SLASH !in token
    ensures LastSlash(a + ([SLASH] + token)) == Some(|a|)
  {
    var p := a + ([SLASH] + token);
    if token == [] {
      assert p[|p| - 1] == SLASH;
    } else {
      var shorter := token[..|token| - 1];
      assert p[|p| - 1] == token[|token| - 1] != SLASH;
      assert p[..|p| - 1] == a + ([SLASH] + shorter);
      LastSlashIs(a, shorter);
    }
  }

  function Full(path: Path, token: CString): CString {
    CP.PathText(path) + ([SLASH] + token)
  }

  /** A path and one more token split into the node the path leads to and the decoded token. */
  lemma Resolve(doc: Json, path: Path, token: CString) returns (pos: Position)
    requires Distinct(doc) && CP.HasPath(Norm(doc), path) && CP.Indexable(path) && SLASH !in token
    ensures LastSlash(Full(path, token)) == Some(|CP.PathText(path)|) && Full(path, token)[|CP.PathText(path)| + 1..] == token
    ensures Lookup(doc, Full(path, token)[..|CP.PathText(path)|], 0, true) == Some(pos)
    ensures HasPosition(doc, pos) && CP.Leads(doc, pos, path)
    ensures Distinct(Get(doc, pos)) && Norm(Get(doc, pos)) == CP.At(Norm(doc), path)
  {
    hide Norm, Distinct, Lookup, LastSlash;
    pos := CP.Follow(doc, path);
    LastSlashIs(CP.PathText(path), token);
    assert Full(path, token)[..|CP.PathText(path)|] == CP.PathText(path);
  }

  /** Adding there is adding a child to that node. */
  lemma ResolveAdd(doc: Json, path: Path, token: CString, value: Json) returns (pos: Position)
    requires Distinct(doc) && CP.HasPath(Norm(doc), path) && CP.Indexable(path) && SLASH !in token
    ensures HasPosition(doc, pos) && CP.Leads(doc, pos, path)
    ensures Distinct(Get(doc, pos)) && Norm(Get(doc, pos)) == CP.At(Norm(doc), path)
    ensures AddValue(doc, Full(path, token), value, true) == AddChild(doc, pos, DecodeInPlace.Decode(token), value, true)
  {
    hide Norm, Distinct, Lookup, LastSlash, AddChild, Full;
    pos := Resolve(doc, path, token);
  }

  /** Detaching there is detaching a child of that node. */
  lemma ResolveDetach(doc: Json, path: Path, token: CString) returns (pos: Position)
    requires Distinct(doc) && CP.HasPath(Norm(doc), path) && CP.Indexable(path) && SLASH !in token
    ensures HasPosition(doc, pos) && CP.Leads(doc, pos, path)
    ensures Distinct(Get(doc, pos)) && Norm(Get(doc, pos)) == CP.At(Norm(doc), path)
    ensures FindPlace(doc, Full(path, token), true) ==
      match FindChild(Get(doc, pos), DecodeInPlace.Decode(token))
      case None => None
      case Some(k) => Some(Place(pos, k))
  {
    hide Norm, Distinct, Lookup, LastSlash, FindChild, Full;
    pos := Resolve(doc, path, token);
  }

  /** Reading back what was composed. */
  lemma ComposedFields(operation: CString, path: CString, suffix: Option<CString>, value: Option<Json>)
    ensures Item(Compose(operation, path, suffix, value), OP, true) == Some(String(operation))
    ensures Item(Compose(operation, path, suffix, value), PATH, true)
         == Some(String(match suffix case None => path case Some(s) => path + ([SLASH] + Encode(s))))
    ensures Item(Compose(operation, path, suffix, value), VALUE, true) == if value.Some? then Duplicate(value.value) else None
  {
    var members := Compose(operation, path, suffix, value).members;
    assert members[0].key == OP && members[1].key == PATH && (|members| == 3 ==> members[2] == Keyed(VALUE, value.value));
    assert DistinctKeys(members);
    FindsKey(members, 0);
    FindsKey(members, 1);
    if |members| == 3 {
      FindsKey(members, 2);
    } else {
      var k := FindKey(members, VALUE, true);
      if k < 2 {
        StrCmpZero(members[k].key, VALUE);
      }
    }
  }

  /** A patch that adds, removes or replaces behind `path`. */
  ghost predicate EditsAt(patch: Json, path: CString, operation: Operation) {
    && Item(patch, PATH, true) == Some(String(path)) && DecodeOperation(patch, true) == operation
    && (operation == Add || operation == Remove || operation == Replace)
  }

  lemma ComposedEdits(operation: CString, path: CString, suffix: Option<CString>, value: Option<Json>)
    ensures var full := match suffix case None => path case Some(s) => path + ([SLASH] + Encode(s));
      && (operation == ADD_TEXT ==> EditsAt(Compose(operation, path, suffix, value), full, Add))
      && (operation == REMOVE_TEXT ==> EditsAt(Compose(operation, path, suffix, value), full, Remove))
      && (operation == REPLACE_TEXT ==> EditsAt(Compose(operation, path, suffix, value), full, Replace))
    ensures Item(Compose(operation, path, suffix, value), VALUE, true) == if value.Some? then Duplicate(value.value) else None
  {
    hide Item, Compose, Duplicate;
    ComposedFields(operation, path, suffix, value);
  }

  /** What applying such a patch amounts to, other than at the root. */
  lemma AppliesEdit(doc: Json, patch: Json, path: CString, operation: Operation)
    requires EditsAt(patch, path, operation) && path != []
    ensures Apply(Some(doc), patch, true) ==
      var edited := Edit(doc, operation, path, patch, true);
      Outcome(edited.status, Some(edited.doc), true)
  {
    hide Item, Edit, DecodeOperation;
  }

  /** What applying a composed operation amounts to. */
  lemma AppliesRemove(doc: Json, path: Path, suffix: CString)
    ensures Apply(Some(doc), Compose(REMOVE_TEXT, CP.PathText(path), Some(suffix), None), true) ==
      match FindPlace(doc, Full(path, Encode(suffix)), true)
      case None => Outcome(13, Some(doc), true)
      case Some(place) => Outcome(0, Some(Detach(doc, place)), true)
  {
    hide Item, Apply, Compose, FindPlace, Detach, Encode, EditsAt, AddValue;
    ComposedEdits(REMOVE_TEXT, CP.PathText(path), Some(suffix), None);
    AppliesEdit(doc, Compose(REMOVE_TEXT, CP.PathText(path), Some(suffix), None), Full(path, Encode(suffix)), Remove);
  }

  lemma AppliesAdd(doc: Json, path: Path, suffix: CString, value: Json)
    requires Copyable(value, 0)
    ensures Apply(Some(doc), Compose(ADD_TEXT, CP.PathText(path), Some(suffix), Some(value)), true) ==
      var edited := AddValue(doc, Full(path, Encode(suffix)), value, true);
      Outcome(edited.status, Some(edited.doc), true)
  {
    hide Item, Apply, Compose, AddValue, Encode, EditsAt, FindPlace;
    ComposedEdits(ADD_TEXT, CP.PathText(path), Some(suffix), Some(value));
    AppliesEdit(doc, Compose(ADD_TEXT, CP.PathText(path), Some(suffix), Some(value)), Full(path, Encode(suffix)), Add);
  }

  lemma AppliesReplace(doc: Json, path: Path, token: CString, value: Json)
    requires Copyable(value, 0)
    ensures Apply(Some(doc), Compose(REPLACE_TEXT, Full(path, token), None, Some(value)), true) ==
      match FindPlace(doc, Full(path, token), true)
      case None => Outcome(13, Some(doc), true)
      case Some(place) =>
        var edited := AddValue(Detach(doc, place), Full(path, token), value, true);
        Outcome(edited.status, Some(edited.doc), true)
  {
    hide Item, Apply, Compose, FindPlace, AddValue, Detach, EditsAt;
    ComposedEdits(REPLACE_TEXT, Full(path, token), None, Some(value));
    AppliesEdit(doc, Compose(REPLACE_TEXT, Full(path, token), None, Some(value)), Full(path, token), Replace);
  }

  lemma DecodesKey(key: CString)
    requires DecodeInPlace.Unshifted(key)
    ensures DecodeInPlace.Decode(Encode(key)) == key
  {
    DecodeInPlace.DecodesExactly(key);
  }

  lemma DecodesPlain(text: CString)
    requires SLASH !in text && TILDE !in text
    ensures Encode(text) == text && DecodeInPlace.Decode(text) == text
  {
    DecodeInPlace.PlainKeys(text, 0);
    DecodesKey(text);
  }

  lemma DecodesIndex(n: nat)
    requires n < SIZE_MAX_PLUS_ONE
    ensures Encode(Digits(n)) == Digits(n) && DecodeInPlace.Decode(Digits(n)) == Digits(n)
    ensures DecodeIndex(Digits(n), 0) == Some(n) && Digits(n) != [MINUS]
  {
    assert SLASH !in Digits(n) && TILDE !in Digits(n);
    DecodesPlain(Digits(n));
    assert Digits(n)[0..] == Digits(n) + [];
    IndexDecodes(Digits(n), 0, n, []);
    assert IsDigit(Digits(n)[0]);
  }

  // ----- object members -----

  /** Putting a member into an object: an equal key is replaced. */
  lemma ObjectWith(members: seq<Keyed<Json>>, key: CString, value: Json)
    requires Distinct(Object(members)) && Distinct(value)
    ensures var k := FindKey(members, key, true);
      var added := (if k < |members| then Without(members, k) else members) + [Keyed(key, value)];
      Distinct(Object(added)) && NormMembers(added) == NormMembers(members)[key := Norm(value)]
  {
    hide Norm, NormMembers, FindKey;
    var k := FindKey(members, key, true);
    if k < |members| {
      StrCmpZero(members[k].key, key);
      NormRemove(members, k);
      var others := Without(members, k);
      assert !HasKey(others, key);
      NormAppend(others, Keyed(key, value));
      assert NormMembers(members) - {key} + map[key := Norm(value)] == NormMembers(members)[key := Norm(value)];
    } else {
      forall i | 0 <= i < |members| ensures members[i].key != key {
        StrCmpZero(members[i].key, key);
      }
      NormAppend(members, Keyed(key, value));
    }
  }

  /** No other key of `m` agrees with `key` ignoring case. */
  predicate LooselyUnique(m: map<CString, Canon>, key: CString) {
    forall k :: k in m && LowerAll(k) == LowerAll(key) ==> k == key
  }

  /** The case-insensitive search of `detach_path` then finds the right member. */
  lemma FindsLoosely(members: seq<Keyed<Json>>, key: CString)
    requires DistinctKeys(members) && key in NormMembers(members) && LooselyUnique(NormMembers(members), key)
    ensures FindKey(members, key, false) < |members| && members[FindKey(members, key, false)].key == key
  {
    hide NormMembers;
    NormKeys(members, key);
    var n :| 0 <= n < |members| && members[n].key == key;
    var k := FindKey(members, key, false);
    StrCmpZero(LowerAll(key), LowerAll(key));
    if k < |members| {
      StrCmpZero(LowerAll(members[k].key), LowerAll(key));
      NormAt(members, k);
    }
  }

  lemma PutObject(doc: Json, path: Path, pos: Position, members: seq<Keyed<Json>>)
    requires Distinct(doc) && CP.Leads(doc, pos, path) && Distinct(Object(members))
    ensures HasPosition(doc, pos) && CP.HasPath(Norm(doc), path)
    ensures Distinct(Put(doc, pos, Object(members)))
    ensures Norm(Put(doc, pos, Object(members))) == CP.Set(Norm(doc), path, Dict(NormMembers(members)))
  {
    CP.LeadsToNorm(doc, pos, path, Object(members));
  }

  /** The text edit `AddValue` at a key of the object at `path`: it sets what the key is taken for. */
  lemma AddsMistaken(doc: Json, path: Path, key: CString, value: Json) returns (after: Json)
    requires Distinct(doc) && Distinct(value) && CP.HasPath(Norm(doc), path) && CP.Indexable(path)
    requires CP.At(Norm(doc), path).Dict?
    ensures AddValue(doc, Full(path, Encode(key)), value, true) == Edited(0, after) && Distinct(after)
    ensures Norm(after) == CP.Set(Norm(doc), path, Dict(CP.At(Norm(doc), path).members[DecodeRank.Mistaken(key) := Norm(value)]))
  {
    hide NormMembers, FindKey, Lookup, Get, Put, Encode, AddValue;
    var pos := ResolveAdd(doc, path, Encode(key), value);
    var members, name := Get(doc, pos).members, DecodeRank.Mistaken(key);
    ObjectWith(members, name, value);
    var k := FindKey(members, name, true);
    var added := (if k < |members| then Without(members, k) else members) + [Keyed(name, value)];
    PutObject(doc, path, pos, added);
    after := Put(doc, pos, Object(added));
  }

  lemma AddsKey(doc: Json, path: Path, key: CString, value: Json) returns (after: Json)
    requires Distinct(doc) && Distinct(value) && CP.HasPath(Norm(doc), path) && CP.Indexable(path)
    requires CP.At(Norm(doc), path).Dict? && DecodeInPlace.Unshifted(key)
    ensures AddValue(doc, Full(path, Encode(key)), value, true) == Edited(0, after) && Distinct(after)
    ensures Norm(after) == CP.Set(Norm(doc), path, Dict(CP.At(Norm(doc), path).members[key := Norm(value)]))
  {
    hide Norm, Distinct, Encode, AddValue;
    DecodesKey(key);
    after := AddsMistaken(doc, path, key, value);
  }

  /** The text edit `Detach` at a key of the object at `path`: it takes out a member that agrees, ignoring case, with
      what the key is taken for, and finds nothing only if there is none. */
  lemma DetachesMistaken(doc: Json, path: Path, key: CString) returns (place: Option<Place>, hit: CString)
    requires Distinct(doc) && CP.HasPath(Norm(doc), path) && CP.Indexable(path)
    requires CP.At(Norm(doc), path).Dict?
    ensures FindPlace(doc, Full(path, Encode(key)), true) == place
    ensures place.None? ==> forall k :: k in CP.At(Norm(doc), path).members ==> LowerAll(k) != LowerAll(DecodeRank.Mistaken(key))
    ensures place.Some? ==>
      && hit in CP.At(Norm(doc), path).members && LowerAll(hit) == LowerAll(DecodeRank.Mistaken(key))
      && HasPlace(doc, place.value) && Distinct(Detach(doc, place.value))
      && Norm(Detach(doc, place.value)) == CP.Set(Norm(doc), path, Dict(CP.At(Norm(doc), path).members - {hit}))
  {
    hide NormMembers, FindKey, Lookup, Get, Put, Encode, FindPlace;
    var pos := ResolveDetach(doc, path, Encode(key));
    var members, name := Get(doc, pos).members, DecodeRank.Mistaken(key);
    var k := FindKey(members, name, false);
    if k < |members| {
      StrCmpZero(LowerAll(members[k].key), LowerAll(name));
      NormAt(members, k);
      NormRemove(members, k);
      PutObject(doc, path, pos, Without(members, k));
      place, hit := Some(Place(pos, k)), members[k].key;
    } else {
      place, hit := None, [];
      NoneLoosely(members, name);
    }
  }

  lemma NoneLoosely(members: seq<Keyed<Json>>, name: CString)
    requires FindKey(members, name, false) == |members|
    ensures forall k :: k in NormMembers(members) ==> LowerAll(k) != LowerAll(name)
  {
    hide NormMembers, FindKey;
    forall k | k in NormMembers(members) ensures LowerAll(k) != LowerAll(name) {
      NormKeys(members, k);
      var n :| 0 <= n < |members| && members[n].key == k;
      StrCmpZero(LowerAll(k), LowerAll(name));
    }
  }

  lemma DetachesKey(doc: Json, path: Path, key: CString) returns (place: Place)
    requires Distinct(doc) && CP.HasPath(Norm(doc), path) && CP.Indexable(path)
    requires CP.At(Norm(doc), path).Dict? && DecodeInPlace.Unshifted(key)
    requires key in CP.At(Norm(doc), path).members && LooselyUnique(CP.At(Norm(doc), path).members, key)
    ensures FindPlace(doc, Full(path, Encode(key)), true) == Some(place)
    ensures HasPlace(doc, place) && Distinct(Detach(doc, place))
    ensures Norm(Detach(doc, place)) == CP.Set(Norm(doc), path, Dict(CP.At(Norm(doc), path).members - {key}))
  {
    hide Norm, Distinct, Encode, FindPlace, Detach;
    DecodesKey(key);
    var found, hit := DetachesMistaken(doc, path, key);
    place := found.value;
  }

  ghost predicate Yields(doc: Json, patch: Json, after: Json, result: Canon) {
    Apply(Some(doc), patch, true) == Outcome(0, Some(after), true) && Distinct(after) && Norm(after) == result
  }

  lemma AddsMember(doc: Json, path: Path, key: CString, value: Json) returns (after: Json)
    requires Distinct(doc) && Distinct(value) && Copyable(value, 0) && CP.HasPath(Norm(doc), path) && CP.Indexable(path)
    requires CP.At(Norm(doc), path).Dict? && DecodeInPlace.Unshifted(key)
    ensures Yields(doc, Compose(ADD_TEXT, CP.PathText(path), Some(key), Some(value)), after,
                   CP.Set(Norm(doc), path, Dict(CP.At(Norm(doc), path).members[key := Norm(value)])))
  {
    hide Norm, Distinct, AddValue, FindPlace, Encode, Compose, Apply;
    after := AddsKey(doc, path, key, value);
    AppliesAdd(doc, path, key, value);
  }

  lemma RemovesMember(doc: Json, path: Path, key: CString) returns (after: Json)
    requires Distinct(doc) && CP.HasPath(Norm(doc), path) && CP.Indexable(path)
    requires CP.At(Norm(doc), path).Dict? && DecodeInPlace.Unshifted(key)
    requires key in CP.At(Norm(doc), path).members && LooselyUnique(CP.At(Norm(doc), path).members, key)
    ensures Yields(doc, Compose(REMOVE_TEXT, CP.PathText(path), Some(key), None), after,
                   CP.Set(Norm(doc), path, Dict(CP.At(Norm(doc), path).members - {key})))
  {
    hide Norm, Distinct, AddValue, FindPlace, Detach, Encode, Compose, Apply;
    var place := DetachesKey(doc, path, key);
    AppliesRemove(doc, path, key);
    after := Detach(doc, place);
  }

  /** Replacing a member detaches it and adds it again, at the end. */
  lemma ReplacesMember(doc: Json, path: Path, key: CString, value: Json) returns (after: Json)
    requires Distinct(doc) && Distinct(value) && Copyable(value, 0) && CP.HasPath(Norm(doc), path) && CP.Indexable(path)
    requires CP.At(Norm(doc), path).Dict? && DecodeInPlace.Unshifted(key)
    requires key in CP.At(Norm(doc), path).members && LooselyUnique(CP.At(Norm(doc), path).members, key)
    ensures Yields(doc, Compose(REPLACE_TEXT, Full(path, Encode(key)), None, Some(value)), after,
                   CP.Set(Norm(doc), path, Dict(CP.At(Norm(doc), path).members[key := Norm(value)])))
  {
    hide Norm, Distinct, AddValue, FindPlace, Detach, Encode, Compose, Apply;
    var members := CP.At(Norm(doc), path).members;
    var place := DetachesKey(doc, path, key);
    var between := Detach(doc, place);
    CP.SetIsThere(Norm(doc), path, Dict(members - {key}));
    after := AddsKey(between, path, key, value);
    AppliesReplace(doc, path, Encode(key), value);
    CP.SetTwice(Norm(doc), path, Dict(members - {key}), Dict(members[key := Norm(value)]));
    assert (members - {key})[key := Norm(value)] == members[key := Norm(value)];
  }

  // ----- array elements -----

  lemma PutArray(doc: Json, path: Path, pos: Position, items: seq<Json>)
    requires Distinct(doc) && CP.Leads(doc, pos, path) && Distinct(Array(items))
    ensures HasPosition(doc, pos) && CP.HasPath(Norm(doc), path)
    ensures Distinct(Put(doc, pos, Array(items)))
    ensures Norm(Put(doc, pos, Array(items))) == CP.Set(Norm(doc), path, Norm(Array(items)))
  {
    CP.LeadsToNorm(doc, pos, path, Array(items));
  }

  lemma PushesItem(doc: Json, path: Path, value: Json) returns (after: Json)
    requires Distinct(doc) && Distinct(value) && CP.HasPath(Norm(doc), path) && CP.Indexable(path)
    requires CP.At(Norm(doc), path).List?
    ensures AddValue(doc, Full(path, [MINUS]), value, true) == Edited(0, after) && Distinct(after)
    ensures Norm(after) == CP.Set(Norm(doc), path, List(CP.At(Norm(doc), path).items + [Norm(value)]))
  {
    hide Lookup, Get, Put, AddValue;
    DecodesPlain([MINUS]);
    var pos := ResolveAdd(doc, path, [MINUS], value);
    var items := Get(doc, pos).items;
    PutArray(doc, path, pos, items + [value]);
    after := Put(doc, pos, Array(items + [value]));
    assert Norm(Array(items + [value])).items == Norm(Array(items)).items + [Norm(value)];
  }

  lemma AppendsItem(doc: Json, path: Path, value: Json) returns (after: Json)
    requires Distinct(doc) && Distinct(value) && Copyable(value, 0) && CP.HasPath(Norm(doc), path) && CP.Indexable(path)
    requires CP.At(Norm(doc), path).List?
    ensures Yields(doc, Compose(ADD_TEXT, CP.PathText(path), Some([MINUS]), Some(value)), after,
                   CP.Set(Norm(doc), path, List(CP.At(Norm(doc), path).items + [Norm(value)])))
  {
    hide Norm, Distinct, AddValue, Compose, Apply;
    assert Encode([MINUS]) == [MINUS] by { DecodesPlain([MINUS]); }
    AppliesAdd(doc, path, [MINUS], value);
    after := PushesItem(doc, path, value);
  }

  lemma DetachesItem(doc: Json, path: Path, n: nat) returns (place: Place)
    requires Distinct(doc) && CP.HasPath(Norm(doc), path) && CP.Indexable(path) && n < SIZE_MAX_PLUS_ONE
    requires CP.At(Norm(doc), path).List? && n < |CP.At(Norm(doc), path).items|
    ensures FindPlace(doc, Full(path, Digits(n)), true) == Some(place)
    ensures HasPlace(doc, place) && Distinct(Detach(doc, place))
    ensures Norm(Detach(doc, place)) == CP.Set(Norm(doc), path, List(Without(CP.At(Norm(doc), path).items, n)))
  {
    hide Lookup, Get, Put, FindPlace, DecodeIndex, Digits;
    DecodesIndex(n);
    var pos := ResolveDetach(doc, path, Digits(n));
    var items := Get(doc, pos).items;
    PutArray(doc, path, pos, Without(items, n));
    place := Place(pos, n);
    assert Norm(Array(Without(items, n))).items == Without(Norm(Array(items)).items, n);
  }

  lemma RemovesItem(doc: Json, path: Path, n: nat) returns (after: Json)
    requires Distinct(doc) && CP.HasPath(Norm(doc), path) && CP.Indexable(path) && n < SIZE_MAX_PLUS_ONE
    requires CP.At(Norm(doc), path).List? && n < |CP.At(Norm(doc), path).items|
    ensures Yields(doc, Compose(REMOVE_TEXT, CP.PathText(path), Some(Digits(n)), None), after,
                   CP.Set(Norm(doc), path, List(Without(CP.At(Norm(doc), path).items, n))))
  {
    hide Norm, Distinct, AddValue, FindPlace, Detach, Encode, Compose, Apply;
    DecodesIndex(n);
    AppliesRemove(doc, path, Digits(n));
    var place := DetachesItem(doc, path, n);
    after := Detach(doc, place);
  }

  lemma InsertsItem(doc: Json, path: Path, n: nat, value: Json) returns (after: Json)
    requires Distinct(doc) && Distinct(value) && CP.HasPath(Norm(doc), path) && CP.Indexable(path) && n < SIZE_MAX_PLUS_ONE
    requires CP.At(Norm(doc), path).List? && n <= |CP.At(Norm(doc), path).items|
    ensures AddValue(doc, Full(path, Digits(n)), value, true) == Edited(0, after) && Distinct(after)
    ensures var items := CP.At(Norm(doc), path).items;
      Norm(after) == CP.Set(Norm(doc), path, List(items[..n] + [Norm(value)] + items[n..]))
  {
    hide Lookup, Get, Put, AddValue, DecodeIndex, Digits;
    DecodesIndex(n);
    var pos := ResolveAdd(doc, path, Digits(n), value);
    var items := Get(doc, pos).items;
    var longer := items[..n] + [value] + items[n..];
    PutArray(doc, path, pos, longer);
    after := Put(doc, pos, Array(longer));
    var canon := Norm(Array(items)).items;
    assert Norm(Array(longer)).items == canon[..n] + [Norm(value)] + canon[n..];
  }

  lemma ReplacesItem(doc: Json, path: Path, n: nat, value: Json) returns (after: Json)
    requires Distinct(doc) && Distinct(value) && Copyable(value, 0) && CP.HasPath(Norm(doc), path) && CP.Indexable(path) && n < SIZE_MAX_PLUS_ONE
    requires CP.At(Norm(doc), path).List? && n < |CP.At(Norm(doc), path).items|
    ensures Yields(doc, Compose(REPLACE_TEXT, Full(path, Digits(n)), None, Some(value)), after,
                   CP.Set(Norm(doc), path, List(CP.At(Norm(doc), path).items[n := Norm(value)])))
  {
    hide Norm, Distinct, AddValue, FindPlace, Detach, Digits, Compose, Apply;
    var items := CP.At(Norm(doc), path).items;
    var place := DetachesItem(doc, path, n);
    var between, fewer := Detach(doc, place), Without(items, n);
    CP.SetIsThere(Norm(doc), path, List(fewer));
    after := InsertsItem(between, path, n, value);
    AppliesReplace(doc, path, Digits(n), value);
    var filled := fewer[..n] + [Norm(value)] + fewer[n..];
    CP.SetTwice(Norm(doc), path, List(fewer), List(filled));
    assert filled == items[n := Norm(value)];
  }

  lemma ReplacesRoot(doc: Json, value: Json)
    requires Distinct(value) && Copyable(value, 0)
    ensures Yields(doc, Compose(REPLACE_TEXT, [], None, Some(value)), value, Norm(value))
  {
    hide FindKey, Compose, Edit, Norm, Distinct;
    ComposedFields(REPLACE_TEXT, [], None, Some(value));
  }
}
