/** The operations the generator does not use: `test`, `copy` and `move`. */
module PatchOperations {
  import opened Bytes
  import opened Json
  import opened MergeSort
  import opened Canon
  import opened Compare
  import opened CompareWalk
  import opened Pointer
  import opened Paths
  import opened Patch
  import opened PatchGenerate
  import opened PatchSteps
  import CP = CanonPath
  import DecodeInPlace

  /** A patch with a `from`. */
  function Transfer(operation: CString, from: CString, path: CString): Json {
    Object([Keyed(OP, String(operation)), Keyed(PATH, String(path)), Keyed(FROM, String(from))])
  }

  lemma TransferFields(operation: CString, from: CString, path: CString)
    ensures Item(Transfer(operation, from, path), OP, true) == Some(String(operation))
    ensures Item(Transfer(operation, from, path), PATH, true) == Some(String(path))
    ensures Item(Transfer(operation, from, path), FROM, true) == Some(String(from))
  {
    var members := Transfer(operation, from, path).members;
    assert members[0].key == OP && members[1].key == PATH && members[2].key == FROM;
    assert DistinctKeys(members);
    FindsKey(members, 0);
    FindsKey(members, 1);
    FindsKey(members, 2);
  }

  /** The path to a key of the object at `path`. */
  lemma KeyPath(c: Canon, path: Path, key: CString, v: Canon)
    requires CP.HasPath(c, path) && CP.At(c, path).Dict?
    ensures var after := CP.Set(c, path, Dict(CP.At(c, path).members[key := v]));
      && CP.HasPath(after, path + [CP.Key(key)]) && CP.At(after, path + [CP.Key(key)]) == v
      && CP.PathText(path + [CP.Key(key)]) == Full(path, Encode(key))
  {
    hide Encode;
    var changed := Dict(CP.At(c, path).members[key := v]);
    CP.SetIsThere(c, path, changed);
    CP.PathSnoc(CP.Set(c, path, changed), path, CP.Key(key), v);
    CP.PathTextSnoc(path, CP.Key(key));
  }

  // ----- test -----

  function TestPatch(path: CString, expected: Json): Json {
    Compose(TEST_TEXT, path, None, Some(expected))
  }

  lemma IsTest()
    ensures TEST_TEXT != ADD_TEXT && TEST_TEXT != REMOVE_TEXT && TEST_TEXT != REPLACE_TEXT && TEST_TEXT != MOVE_TEXT && TEST_TEXT != COPY_TEXT
  {
    assert TEST_TEXT[0] != ADD_TEXT[0] && |TEST_TEXT| != |REMOVE_TEXT| && |TEST_TEXT| != |REPLACE_TEXT|;
    assert TEST_TEXT[0] != MOVE_TEXT[0] && TEST_TEXT[0] != COPY_TEXT[0];
  }

  /** What `test` amounts to. */
  lemma AppliesTest(doc: Json, path: CString, expected: Json)
    requires Copyable(expected, 0)
    ensures Apply(Some(doc), TestPatch(path, expected), true) == TestValue(doc, path, expected, true)
  {
    hide FindKey, Compose, TestValue, Edit, Copyable, Item;
    ComposedFields(TEST_TEXT, path, None, Some(expected));
    IsTest();
  }

  /** A test succeeds exactly for values that are the same up to member order as what is at the path. It leaves the
      document the same up to member order; whether all links survive can be told from the two trees. */
  lemma Tests(doc: Json, path: Path, expected: Json) returns (pos: Position, after: Json)
    requires Distinct(doc) && CP.HasPath(Norm(doc), path) && CP.Indexable(path) && Distinct(expected) && Copyable(expected, 0)
    ensures Lookup(doc, CP.PathText(path), 0, true) == Some(pos) && HasPosition(doc, pos)
    ensures var status := if Norm(expected) == CP.At(Norm(doc), path) then 0 else 1;
      Apply(Some(doc), TestPatch(CP.PathText(path), expected), true)
        == Outcome(status, Some(after), StaysLinked(Get(doc, pos), expected, true))
    ensures Same(after, doc) && Distinct(after)
  {
    hide Norm, Distinct, TestPatch, Apply, Lookup, Get, Put, CompareSorted, Left, StaysLinked, CP.HasPath, CP.At, CP.Set;
    pos := CP.Follow(doc, path);
    var node := Get(doc, pos);
    var left := Left(node, expected, true);
    AppliesTest(doc, CP.PathText(path), expected);
    EqualityTestsAgree(node, expected);
    LeftSame(node, expected, true);
    CP.LeadsToNorm(doc, pos, path, left);
    CP.SetSame(Norm(doc), path);
    after := Put(doc, pos, left);
  }

  /** After adding a member, testing for a value there succeeds exactly for values that are the same up to member
      order, and leaves the document alone up to member order. */
  lemma AddThenTest(doc: Json, path: Path, key: CString, value: Json, expected: Json) returns (added: Json, after: Json)
    requires Distinct(doc) && Distinct(value) && Copyable(value, 0) && CP.HasPath(Norm(doc), path) && CP.Indexable(path)
    requires CP.At(Norm(doc), path).Dict? && DecodeInPlace.Unshifted(key)
    requires Distinct(expected) && Copyable(expected, 0)
    ensures Apply(Some(doc), Compose(ADD_TEXT, CP.PathText(path), Some(key), Some(value)), true) == Outcome(0, Some(added), true)
    ensures var tested := Apply(Some(added), TestPatch(CP.PathText(path + [CP.Key(key)]), expected), true);
      tested.status == (if Same(expected, value) then 0 else 1) && tested.doc == Some(after)
    ensures Same(after, added)
  {
    hide Norm, Distinct, Compose, TestPatch, Apply, Encode, Lookup, Get, CompareSorted, Full, StaysLinked;
    added := AddsMember(doc, path, key, value);
    KeyPath(Norm(doc), path, key, Norm(value));
    var pos;
    pos, after := Tests(added, path + [CP.Key(key)], expected);
  }

  /** A member added to an object that has just been tested: status 0 and the member under its key. The code's list
      agrees if every object that the test sorted keeps its link. */
  lemma TestThenAdd(doc: Json, path: Path, expected: Json, key: CString, value: Json) returns (pos: Position, after: Json)
    requires Distinct(doc) && CP.HasPath(Norm(doc), path) && CP.Indexable(path) && CP.At(Norm(doc), path).Dict?
    requires Distinct(expected) && Copyable(expected, 0) && Norm(expected) == CP.At(Norm(doc), path)
    requires Distinct(value) && Copyable(value, 0) && DecodeInPlace.Unshifted(key)
    ensures Lookup(doc, CP.PathText(path), 0, true) == Some(pos) && HasPosition(doc, pos)
    ensures ApplyAll(Some(doc), [TestPatch(CP.PathText(path), expected), Compose(ADD_TEXT, CP.PathText(path), Some(key), Some(value))], true)
         == Outcome(0, Some(after), StaysLinked(Get(doc, pos), expected, true))
    ensures Norm(after) == CP.Set(Norm(doc), path, Dict(CP.At(Norm(doc), path).members[key := Norm(value)]))
  {
    hide Norm, Distinct, Compose, TestPatch, Apply, Lookup, Get, StaysLinked, CP.PathText;
    var tested;
    pos, tested := Tests(doc, path, expected);
    after := AddsMember(tested, path, key, value);
    var add := Compose(ADD_TEXT, CP.PathText(path), Some(key), Some(value));
    assert ApplyAll(Some(after), [], true) == Outcome(0, Some(after), true);
    assert [TestPatch(CP.PathText(path), expected), add][1..] == [add] && [add][1..] == [];
  }

  const B_THEN_A: seq<Keyed<Json>> := [Keyed([98], Number(1)), Keyed([97], Number(2))]
  const C: Keyed<Json> := Keyed([99], Number(3))

  /** The document {"b":1,"a":2}, tested at its root, and then the member c: status 0, and the list of the code is {"a":2,"b":1}. */
  lemma TestThenAddDrops()
    ensures ApplyAll(Some(Object(B_THEN_A)), [TestPatch([], Object(B_THEN_A)), Compose(ADD_TEXT, [], Some(C.key), Some(C.item))], true).status == 0
    ensures !ApplyAll(Some(Object(B_THEN_A)), [TestPatch([], Object(B_THEN_A)), Compose(ADD_TEXT, [], Some(C.key), Some(C.item))], true).linked
    ensures SortedThenAppended(B_THEN_A, true, C) == [B_THEN_A[1], B_THEN_A[0]]
  {
    hide Compose, TestPatch, Apply, ApplyAll, DecodeInPlace.Unshifted;
    var doc := Object(B_THEN_A);
    assert Distinct(doc);
    assert CP.PathText([]) == [];
    DecodeInPlace.PlainKeys(C.key, 0);
    var pos, after := TestThenAdd(doc, [], doc, C.key, C.item);
    assert pos == [] by { assert Lookup(doc, [], 0, true) == Some([]); }
    assert !FirstLeads(B_THEN_A, true) by { assert MergeSort.Compare(B_THEN_A[0], B_THEN_A[1], true) == 1; }
    SortOfTwo(B_THEN_A);
  }

  lemma SortOfTwo(s: seq<Keyed<Json>>)
    requires |s| == 2 && MergeSort.Compare(s[0], s[1], true) > 0
    ensures Sort(s, true) == [s[1], s[0]]
  {
    assert !Ascending(s, true) by { assert MergeSort.Compare(s[1 - 1], s[1], true) > 0; }
    assert s[..1] == [s[0]] && s[1..] == [s[1]];
    assert Sort(s, true) == Merge([s[0]], [s[1]], true);
    assert [s[1]][1..] == [];
  }

  // ----- copy and move -----

  /** Where a value can be put: under a key, in front of an element, or behind the last one. */
  datatype Target = Member(key: CString) | Before(n: nat) | End

  function TargetText(t: Target): (s: CString)
    ensures SLASH !in s
  {
    match t
    case Member(key) => Encode(key)
    case Before(n) => Digits(n)
    case End => [MINUS]
  }

  predicate CanTake(c: Canon, t: Target) {
    match t
    case Member(key) => c.Dict? && DecodeInPlace.Unshifted(key)
    case Before(n) => c.List? && n <= |c.items| && n < SIZE_MAX_PLUS_ONE
    case End => c.List?
  }

  function Filled(c: Canon, t: Target, v: Canon): Canon
    requires CanTake(c, t)
  {
    match t
    case Member(key) => Dict(c.members[key := v])
    case Before(n) => List(c.items[..n] + [v] + c.items[n..])
    case End => List(c.items + [v])
  }

  /** The last part of `apply_patch` puts the value there and changes nothing else. */
  lemma Takes(doc: Json, path: Path, t: Target, value: Json) returns (after: Json)
    requires Distinct(doc) && Distinct(value) && CP.HasPath(Norm(doc), path) && CP.Indexable(path) && CanTake(CP.At(Norm(doc), path), t)
    ensures AddValue(doc, Full(path, TargetText(t)), value, true) == Edited(0, after) && Distinct(after)
    ensures Norm(after) == CP.Set(Norm(doc), path, Filled(CP.At(Norm(doc), path), t, Norm(value)))
  {
    hide Norm, Distinct, AddValue, Full, Encode, Digits, DecodeInPlace.Unshifted;
    match t {
      case Member(key) => after := AddsKey(doc, path, key, value);
      case Before(n) => after := InsertsItem(doc, path, n, value);
      case End => after := PushesItem(doc, path, value);
    }
  }

  /** What can be taken out: the member of that key, if no other agrees with it ignoring case, or that element. */
  predicate CanGive(c: Canon, t: CP.Token) {
    match t
    case Key(key) => c.Dict? && key in c.members && DecodeInPlace.Unshifted(key) && LooselyUnique(c.members, key)
    case Index(n) => c.List? && n < |c.items| && n < SIZE_MAX_PLUS_ONE
  }

  function Less(c: Canon, t: CP.Token): Canon
    requires CanGive(c, t)
  {
    match t
    case Key(key) => Dict(c.members - {key})
    case Index(n) => List(Without(c.items, n))
  }

  /** `detach_path` takes that child out and hands it over. */
  lemma Gives(doc: Json, path: Path, t: CP.Token) returns (place: Place)
    requires Distinct(doc) && CP.HasPath(Norm(doc), path) && CP.Indexable(path) && CanGive(CP.At(Norm(doc), path), t)
    ensures FindPlace(doc, Full(path, CP.TokenText(t)), true) == Some(place)
    ensures HasPlace(doc, place) && Distinct(Detach(doc, place)) && Distinct(Detached(doc, place))
    ensures Norm(Detach(doc, place)) == CP.Set(Norm(doc), path, Less(CP.At(Norm(doc), path), t))
    ensures CP.HasToken(CP.At(Norm(doc), path), t) && Norm(Detached(doc, place)) == CP.Below(CP.At(Norm(doc), path), t)
  {
    hide Norm, Distinct, FindPlace, Detach, Detached, Full, Encode, Digits, DecodeInPlace.Unshifted;
    match t {
      case Key(key) =>
        place := DetachesKey(doc, path, key);
        DetachedKey(doc, path, key, place);
      case Index(n) =>
        place := DetachesItem(doc, path, n);
        DetachedItem(doc, path, n, place);
    }
  }

  /** What `copy` amounts to. */
  lemma AppliesCopy(doc: Json, source: CString, pos: Position, target: CString)
    requires Lookup(doc, source, 0, true) == Some(pos) && HasPosition(doc, pos) && Copyable(Get(doc, pos), 0) && target != []
    ensures Apply(Some(doc), Transfer(COPY_TEXT, source, target), true) ==
      var edited := AddValue(doc, target, Get(doc, pos), true);
      Outcome(edited.status, Some(edited.doc), true)
  {
    hide FindKey, Transfer, AddValue, Lookup, Get;
    TransferFields(COPY_TEXT, source, target);
  }

  /** Copying puts what is at the source at the target, and changes nothing else. */
  lemma CopiesTo(doc: Json, source: Path, path: Path, t: Target) returns (after: Json)
    requires Distinct(doc) && CP.HasPath(Norm(doc), source) && CP.Indexable(source) && Copyable(doc, 0)
    requires CP.HasPath(Norm(doc), path) && CP.Indexable(path) && CanTake(CP.At(Norm(doc), path), t)
    ensures Yields(doc, Transfer(COPY_TEXT, CP.PathText(source), Full(path, TargetText(t))), after,
                   CP.Set(Norm(doc), path, Filled(CP.At(Norm(doc), path), t, CP.At(Norm(doc), source))))
  {
    hide Norm, Distinct, Lookup, Get, Transfer, Apply, AddValue, Copyable, CanTake, Filled, TargetText;
    var pos := CP.Follow(doc, source);
    CopyableBelow(doc, pos);
    AppliesCopy(doc, CP.PathText(source), pos, Full(path, TargetText(t)));
    after := Takes(doc, path, t, Get(doc, pos));
  }

  lemma {:induction false} CopyableBelow(j: Json, pos: Position)
    requires HasPosition(j, pos) && Copyable(j, 0)
    ensures Copyable(Get(j, pos), 0)
    decreases pos
  {
    if pos != [] {
      CopyableHigher(Child(j, pos[0]), 0);
      CopyableBelow(Child(j, pos[0]), pos[1..]);
    }
  }

  /** What `move` amounts to. */
  lemma AppliesMove(doc: Json, source: CString, place: Place, target: CString)
    requires FindPlace(doc, source, true) == Some(place) && HasPlace(doc, place) && target != []
    ensures Apply(Some(doc), Transfer(MOVE_TEXT, source, target), true) ==
      var edited := AddValue(Detach(doc, place), target, Detached(doc, place), true);
      Outcome(edited.status, Some(edited.doc), true)
  {
    hide FindKey, Transfer, AddValue, FindPlace, Detach, Detached;
    TransferFields(MOVE_TEXT, source, target);
  }

  /** Moving takes the child out and then puts it at the target, which must be there in what is left: inside one array,
      the place counts without the child. */
  lemma MovesTo(doc: Json, source: Path, child: CP.Token, path: Path, t: Target) returns (after: Json)
    requires Distinct(doc) && CP.HasPath(Norm(doc), source) && CP.Indexable(source) && CanGive(CP.At(Norm(doc), source), child)
    requires var between := CP.Set(Norm(doc), source, Less(CP.At(Norm(doc), source), child));
      CP.HasPath(between, path) && CP.Indexable(path) && CanTake(CP.At(between, path), t)
    ensures CP.HasToken(CP.At(Norm(doc), source), child)
    ensures var between := CP.Set(Norm(doc), source, Less(CP.At(Norm(doc), source), child));
      Yields(doc, Transfer(MOVE_TEXT, Full(source, CP.TokenText(child)), Full(path, TargetText(t))), after,
             CP.Set(between, path, Filled(CP.At(between, path), t, CP.Below(CP.At(Norm(doc), source), child))))
  {
    hide Norm, Distinct, FindPlace, Detach, Detached, Transfer, Apply, AddValue, CanTake, Filled, TargetText, CanGive, Less, CP.TokenText, CP.Below;
    var place := Gives(doc, source, child);
    AppliesMove(doc, Full(source, CP.TokenText(child)), place, Full(path, TargetText(t)));
    after := Takes(Detach(doc, place), path, t, Detached(doc, place));
  }

  lemma DetachedKey(doc: Json, path: Path, key: CString, place: Place)
    requires Distinct(doc) && CP.HasPath(Norm(doc), path) && CP.Indexable(path)
    requires CP.At(Norm(doc), path).Dict? && DecodeInPlace.Unshifted(key)
    requires key in CP.At(Norm(doc), path).members && LooselyUnique(CP.At(Norm(doc), path).members, key)
    requires FindPlace(doc, Full(path, Encode(key)), true) == Some(place)
    ensures HasPlace(doc, place) && Distinct(Detached(doc, place)) && Norm(Detached(doc, place)) == CP.At(Norm(doc), path).members[key]
  {
    hide NormMembers, FindKey, Lookup, Get, Put, Encode, FindPlace;
    var pos := ResolveDetach(doc, path, Encode(key));
    var members := Get(doc, pos).members;
    DecodesKey(key);
    FindsLoosely(members, key);
    NormAt(members, FindKey(members, key, false));
  }

  lemma DetachedItem(doc: Json, path: Path, n: nat, place: Place)
    requires Distinct(doc) && CP.HasPath(Norm(doc), path) && CP.Indexable(path) && n < SIZE_MAX_PLUS_ONE
    requires CP.At(Norm(doc), path).List? && n < |CP.At(Norm(doc), path).items|
    requires FindPlace(doc, Full(path, Digits(n)), true) == Some(place)
    ensures HasPlace(doc, place) && Distinct(Detached(doc, place)) && Norm(Detached(doc, place)) == CP.At(Norm(doc), path).items[n]
  {
    hide Lookup, Get, Put, FindPlace, DecodeIndex, Digits;
    DecodesIndex(n);
    var pos := ResolveDetach(doc, path, Digits(n));
    assert Norm(Get(doc, pos)).items[n] == Norm(Get(doc, pos).items[n]);
  }
}
