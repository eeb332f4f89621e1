/** Which keys the generated patches end in, and what follows when the in-place decoder changes one of them. */
module PatchEdits {
  import opened Bytes
  import opened Json
  import opened MergeSort
  import opened Canon
  import opened Compare
  import opened Pointer
  import opened Patch
  import opened PatchGenerate
  import opened PatchSteps
  import opened PatchSpares
  import opened DecodeRank
  import CP = CanonPath
  import DecodeInPlace

  /** The generator does not walk the two trees side by side: it replaces the one by the other. */
  predicate Replaced(x: Json, y: Json) {
    x != y && !(x.Array? && y.Array?) && !(x.Object? && y.Object?)
  }

  /** Both objects have the key, and no patch ends in it. */
  ghost predicate SharedKept(xs: seq<Keyed<Json>>, ys: seq<Keyed<Json>>, key: CString) {
    exists m, n :: m in xs && n in ys && m.key == key && n.key == key && !Replaced(m.item, n.item)
  }

  /** A patch ends in the key: only one of the objects has it, or its value is replaced. */
  ghost predicate EndsAt(xs: seq<Keyed<Json>>, ys: seq<Keyed<Json>>, key: CString) {
    (HasKey(xs, key) || HasKey(ys, key)) && !SharedKept(xs, ys, key)
  }

  /** The in-place decoder leaves every such key alone. */
  ghost predicate EditsUnshifted(xs: seq<Keyed<Json>>, ys: seq<Keyed<Json>>) {
    forall key :: EndsAt(xs, ys, key) ==> DecodeInPlace.Unshifted(key)
  }

  lemma HasMember<T>(s: seq<Keyed<T>>, m: Keyed<T>)
    requires m in s
    ensures HasKey(s, m.key)
  {
  }

  lemma MemberOf<T>(s: seq<Keyed<T>>, key: CString) returns (m: Keyed<T>)
    requires HasKey(s, key)
    ensures m in s && m.key == key
  {
    var i :| 0 <= i < |s| && s[i].key == key;
    m := s[i];
  }

  /** Leaving one key out of both lists changes nothing for the others. */
  predicate Drops<T(==)>(s: seq<Keyed<T>>, t: seq<Keyed<T>>, key: CString) {
    (forall m :: m in s ==> m in t || m.key == key) && (forall m :: m in t ==> m in s && m.key != key)
  }

  lemma DropsHead<T>(s: seq<Keyed<T>>)
    requires Strictly(s) && s != []
    ensures Drops(s, s[1..], s[0].key)
  {
    forall m | m in s[1..] ensures m.key != s[0].key {
      var i :| 0 <= i < |s| - 1 && s[1..][i] == m;
      StrCmpZero(s[0].key, s[i + 1].key);
    }
  }

  lemma DropsNothing<T>(s: seq<Keyed<T>>, key: CString)
    requires !HasKey(s, key)
    ensures Drops(s, s, key)
  {
  }

  lemma EditedInRest(xs: seq<Keyed<Json>>, ys: seq<Keyed<Json>>, xs': seq<Keyed<Json>>, ys': seq<Keyed<Json>>, head: CString, key: CString)
    requires Drops(xs, xs', head) && Drops(ys, ys', head)
    ensures EndsAt(xs', ys', key) ==> EndsAt(xs, ys, key) && key != head
    ensures SharedKept(xs', ys', key) ==> SharedKept(xs, ys, key)
  {
    hide Replaced;
    if EndsAt(xs', ys', key) {
      if HasKey(xs', key) {
        var m := MemberOf(xs', key);
        HasMember(xs, m);
      } else {
        var m := MemberOf(ys', key);
        HasMember(ys, m);
      }
    }
  }

  // ----- the shape of generated patches -----

  ghost predicate GoodValue(patch: Json) {
    Item(patch, VALUE, true).Some? ==> Distinct(Item(patch, VALUE, true).value)
  }

  /** The patch edits behind `text` itself. */
  ghost predicate EditsHere(patch: Json, text: CString) {
    GoodValue(patch) && exists operation: Operation :: EditsAt(patch, text, operation)
  }

  /** The patch edits somewhere below `text`. */
  ghost predicate EditsBelow(patch: Json, text: CString) {
    GoodValue(patch) && exists rest: CString, operation: Operation :: EditsAt(patch, text + ([SLASH] + rest), operation)
  }

  ghost predicate AllBelow(patches: seq<Json>, text: CString) {
    forall i :: 0 <= i < |patches| ==> EditsBelow(patches[i], text)
  }

  lemma BelowChild(patch: Json, text: CString, token: CString)
    requires EditsHere(patch, text + ([SLASH] + token)) || EditsBelow(patch, text + ([SLASH] + token))
    ensures EditsBelow(patch, text)
  {
    hide GoodValue, EditsAt;
    if EditsHere(patch, text + ([SLASH] + token)) {
      var operation: Operation :| EditsAt(patch, text + ([SLASH] + token), operation);
    } else {
      var rest: CString, operation: Operation :| EditsAt(patch, text + ([SLASH] + token) + ([SLASH] + rest), operation);
      assert text + ([SLASH] + token) + ([SLASH] + rest) == text + ([SLASH] + (token + ([SLASH] + rest)));
    }
  }

  lemma ComposedHere(operation: CString, path: CString, suffix: Option<CString>, value: Option<Json>)
    requires operation == ADD_TEXT || operation == REMOVE_TEXT || operation == REPLACE_TEXT
    requires value.Some? ==> Distinct(value.value)
    ensures EditsHere(Compose(operation, path, suffix, value), match suffix case None => path case Some(s) => path + ([SLASH] + Encode(s)))
  {
    hide Item, Compose, Distinct, EditsAt, Encode, Copyable;
    ComposedEdits(operation, path, suffix, value);
  }

  lemma {:induction false} RemovedBelow(path: CString, k: nat, count: nat)
    ensures AllBelow(RemoveItems(path, k, count), path)
    decreases count
  {
    hide Compose, EditsHere, EditsBelow, Digits, Encode;
    if count > 0 {
      ComposedHere(REMOVE_TEXT, path, Some(Digits(k)), None);
      BelowChild(Compose(REMOVE_TEXT, path, Some(Digits(k)), None), path, Encode(Digits(k)));
      RemovedBelow(path, k, count - 1);
    }
  }

  lemma {:induction false} AddedBelow(path: CString, items: seq<Json>)
    requires forall i :: 0 <= i < |items| ==> Distinct(items[i])
    ensures AllBelow(AddItems(path, items), path)
    decreases |items|
  {
    hide Compose, EditsHere, EditsBelow, Encode, Distinct;
    if items != [] {
      ComposedHere(ADD_TEXT, path, Some([MINUS]), Some(items[0]));
      BelowChild(Compose(ADD_TEXT, path, Some([MINUS]), Some(items[0])), path, Encode([MINUS]));
      AddedBelow(path, items[1..]);
    }
  }

  /** Patches for two trees that are walked side by side all end below them. */
  lemma {:induction false} GeneratedBelow(path: CString, from: Json, to: Json)
    requires Distinct(to)
    ensures Replaced(from, to) ==>
              CreatePatches(path, from, to, true) == [Compose(REPLACE_TEXT, path, None, Some(to))] && EditsHere(Compose(REPLACE_TEXT, path, None, Some(to)), path)
    ensures !Replaced(from, to) ==> AllBelow(CreatePatches(path, from, to, true), path)
    decreases Nesting(from), 2
  {
    hide Compose, EditsHere, EditsBelow, ItemPatches, MemberPatches, Sort;
    match (from, to) {
      case (Array(xs), Array(ys)) =>
        ItemsBelow(path, xs, ys, 0);
      case (Object(xs), Object(ys)) =>
        forall i | 0 <= i < |xs| ensures Nesting(Sort(xs, true)[i].item) < Nesting(from) {
          SortedNesting(xs, true, i);
        }
        SortedDistinct(ys, true);
        MembersBelow(path, Sort(xs, true), Sort(ys, true), Nesting(from));
      case _ =>
        ComposedHere(REPLACE_TEXT, path, None, Some(to));
    }
  }

  lemma ChildBelow(path: CString, token: CString, from: Json, to: Json)
    requires var child := path + ([SLASH] + token);
      && (Replaced(from, to) ==>
            CreatePatches(child, from, to, true) == [Compose(REPLACE_TEXT, child, None, Some(to))] && EditsHere(Compose(REPLACE_TEXT, child, None, Some(to)), child))
      && (!Replaced(from, to) ==> AllBelow(CreatePatches(child, from, to, true), child))
    ensures AllBelow(CreatePatches(path + ([SLASH] + token), from, to, true), path)
  {
    hide Compose, EditsHere, EditsBelow, CreatePatches, Replaced;
    var patches := CreatePatches(path + ([SLASH] + token), from, to, true);
    forall i | 0 <= i < |patches| ensures EditsBelow(patches[i], path) {
      BelowChild(patches[i], path, token);
    }
  }

  lemma {:induction false} ItemsBelow(path: CString, xs: seq<Json>, ys: seq<Json>, k: nat)
    requires k <= |xs| && k <= |ys| && forall i :: 0 <= i < |ys| ==> Distinct(ys[i])
    ensures AllBelow(ItemPatches(path, xs, ys, true, k), path)
    decreases 1 + ItemsNesting(xs), 1, |xs| - k
  {
    hide Compose, EditsHere, EditsBelow, CreatePatches, Replaced, Distinct, RemoveItems, AddItems, Digits;
    if k < |xs| && k < |ys| {
      ItemNesting(xs, k);
      GeneratedBelow(path + ([SLASH] + Digits(k)), xs[k], ys[k]);
      ChildBelow(path, Digits(k), xs[k], ys[k]);
      ItemsBelow(path, xs, ys, k + 1);
    } else if k < |xs| {
      RemovedBelow(path, k, |xs| - k);
    } else {
      AddedBelow(path, ys[k..]);
    }
  }

  lemma {:induction false} MembersBelow(path: CString, xs: seq<Keyed<Json>>, ys: seq<Keyed<Json>>, depth: nat)
    requires forall i :: 0 <= i < |xs| ==> Nesting(xs[i].item) < depth
    requires forall i :: 0 <= i < |ys| ==> Distinct(ys[i].item)
    ensures AllBelow(MemberPatches(path, xs, ys, true, depth), path)
    decreases depth, 0, |xs| + |ys|
  {
    hide Compose, EditsHere, EditsBelow, CreatePatches, Replaced, Distinct, Encode;
    if xs != [] || ys != [] {
      var diff := HeadDifference(xs, ys, true);
      if diff == 0 {
        GeneratedBelow(path + ([SLASH] + Encode(xs[0].key)), xs[0].item, ys[0].item);
        ChildBelow(path, Encode(xs[0].key), xs[0].item, ys[0].item);
        MembersBelow(path, xs[1..], ys[1..], depth);
      } else if diff < 0 {
        ComposedHere(REMOVE_TEXT, path, Some(xs[0].key), None);
        BelowChild(Compose(REMOVE_TEXT, path, Some(xs[0].key), None), path, Encode(xs[0].key));
        MembersBelow(path, xs[1..], ys, depth);
      } else {
        ComposedHere(ADD_TEXT, path, Some(ys[0].key), Some(ys[0].item));
        BelowChild(Compose(ADD_TEXT, path, Some(ys[0].key), Some(ys[0].item)), path, Encode(ys[0].key));
        MembersBelow(path, xs, ys[1..], depth);
      }
    }
  }

  // ----- a key that no patch hits -----

  /** No patch for the two objects is taken to end in `key`, nor goes on below it. */
  ghost predicate Missed(xs: seq<Keyed<Json>>, ys: seq<Keyed<Json>>, key: CString) {
    && (forall k :: EndsAt(xs, ys, k) ==> LowerAll(Mistaken(k)) != LowerAll(key))
    && (forall k :: SharedKept(xs, ys, k) ==> k != key)
  }

  lemma MissedInRest(xs: seq<Keyed<Json>>, ys: seq<Keyed<Json>>, xs': seq<Keyed<Json>>, ys': seq<Keyed<Json>>, head: CString, key: CString)
    requires Drops(xs, xs', head) && Drops(ys, ys', head) && Missed(xs, ys, key)
    ensures Missed(xs', ys', key)
  {
    hide EndsAt, SharedKept, Drops, Mistaken;
    forall k ensures EndsAt(xs', ys', k) ==> EndsAt(xs, ys, k) ensures SharedKept(xs', ys', k) ==> SharedKept(xs, ys, k) {
      EditedInRest(xs, ys, xs', ys', head, k);
    }
  }

  /** Patches that end at another key spare the key. */
  lemma HereSpares(patch: Json, path: CP.Path, key: CString, other: CString)
    requires EditsHere(patch, CP.PathText(path) + ([SLASH] + Encode(other))) && LowerAll(Mistaken(other)) != LowerAll(key)
    ensures EditSpares(patch, path, key)
  {
    hide EditsAt, Item, Encode, Mistaken, LowerAll;
    var operation: Operation :| EditsAt(patch, CP.PathText(path) + ([SLASH] + Encode(other)), operation);
    assert PathSpares(Full(path, Encode(other)), path, key);
  }

  lemma BelowSpares(patch: Json, path: CP.Path, key: CString, other: CString)
    requires EditsBelow(patch, CP.PathText(path) + ([SLASH] + Encode(other))) && other != key
    ensures EditSpares(patch, path, key)
  {
    hide EditsAt, Item, Encode, Mistaken, LowerAll;
    var rest: CString, operation: Operation :| EditsAt(patch, CP.PathText(path) + ([SLASH] + Encode(other)) + ([SLASH] + rest), operation);
    assert PathSpares(Full(path, Encode(other)) + ([SLASH] + rest), path, key);
  }

  ghost predicate AllSpare(patches: seq<Json>, path: CP.Path, key: CString) {
    forall i :: 0 <= i < |patches| ==> EditSpares(patches[i], path, key)
  }

  lemma SharedSpares(path: CP.Path, xs: seq<Keyed<Json>>, ys: seq<Keyed<Json>>, key: CString)
    requires Strictly(xs) && Strictly(ys) && xs != [] && ys != [] && xs[0].key == ys[0].key && Missed(xs, ys, key) && Distinct(ys[0].item)
    ensures AllSpare(CreatePatches(CP.PathText(path) + ([SLASH] + Encode(xs[0].key)), xs[0].item, ys[0].item, true), path, key)
  {
    hide EditSpares, EditsHere, EditsBelow, CreatePatches, Compose, Encode, Mistaken, LowerAll, Replaced, Distinct, EndsAt, SharedKept;
    var text, x, y := CP.PathText(path) + ([SLASH] + Encode(xs[0].key)), xs[0].item, ys[0].item;
    GeneratedBelow(text, x, y);
    SharedHead(xs, ys);
    if Replaced(x, y) {
      HereSpares(Compose(REPLACE_TEXT, text, None, Some(y)), path, key, xs[0].key);
    } else {
      var patches := CreatePatches(text, x, y, true);
      forall i | 0 <= i < |patches| ensures EditSpares(patches[i], path, key) {
        BelowSpares(patches[i], path, key, xs[0].key);
      }
    }
  }

  /** A key at the head of both lists is edited exactly if its value is replaced. */
  lemma SharedHead(xs: seq<Keyed<Json>>, ys: seq<Keyed<Json>>)
    requires Strictly(xs) && Strictly(ys) && xs != [] && ys != [] && xs[0].key == ys[0].key
    ensures EndsAt(xs, ys, xs[0].key) <==> Replaced(xs[0].item, ys[0].item)
    ensures SharedKept(xs, ys, xs[0].key) <==> !Replaced(xs[0].item, ys[0].item)
  {
    hide Replaced;
    HasMember(xs, xs[0]);
    assert xs[0] in xs && ys[0] in ys;
    forall m | m in xs && m.key == xs[0].key ensures m == xs[0] {
      OnlyHead(xs, m);
    }
    forall m | m in ys && m.key == ys[0].key ensures m == ys[0] {
      OnlyHead(ys, m);
    }
  }

  lemma OnlyHead<T>(s: seq<Keyed<T>>, m: Keyed<T>)
    requires Strictly(s) && m in s && m.key == s[0].key
    ensures m == s[0]
  {
    var i :| 0 <= i < |s| && s[i] == m;
    if i > 0 {
      StrCmpZero(s[0].key, s[i].key);
    }
  }

  lemma SpareBoth(a: seq<Json>, b: seq<Json>, path: CP.Path, key: CString)
    requires AllSpare(a, path, key) && AllSpare(b, path, key)
    ensures AllSpare(a + b, path, key)
  {
  }

  lemma SpareOne(patch: Json, path: CP.Path, key: CString)
    requires EditSpares(patch, path, key)
    ensures AllSpare([patch], path, key)
  {
  }

  lemma {:induction false} MembersSpare(path: CP.Path, xs: seq<Keyed<Json>>, ys: seq<Keyed<Json>>, depth: nat, key: CString)
    requires Strictly(xs) && Strictly(ys) && Missed(xs, ys, key)
    requires forall i :: 0 <= i < |xs| ==> Nesting(xs[i].item) < depth
    requires forall i :: 0 <= i < |ys| ==> Distinct(ys[i].item)
    ensures AllSpare(MemberPatches(CP.PathText(path), xs, ys, true, depth), path, key)
    decreases |xs| + |ys|
  {
    hide EditSpares, EditsHere, CreatePatches, Compose, Encode, Mistaken, LowerAll, Replaced, Distinct, EndsAt, SharedKept, Drops, Missed, AllSpare, Strictly, CP.PathText;
    if xs == [] && ys == [] {
      NothingSpares(path, key);
    }
    if xs != [] || ys != [] {
      var diff, text := HeadDifference(xs, ys, true), CP.PathText(path);
      if diff == 0 {
        StrCmpZero(xs[0].key, ys[0].key);
        SharedSpares(path, xs, ys, key);
        DropsHead(xs);
        DropsHead(ys);
        MissedInRest(xs, ys, xs[1..], ys[1..], xs[0].key, key);
        RestStrictly(xs);
        RestStrictly(ys);
        MembersSpare(path, xs[1..], ys[1..], depth, key);
        SpareBoth(CreatePatches(text + ([SLASH] + Encode(xs[0].key)), xs[0].item, ys[0].item, true), MemberPatches(text, xs[1..], ys[1..], true, depth), path, key);
      } else if diff < 0 {
        OnlyFirst(xs, ys);
        EditedMisses(xs, ys, key, xs[0].key);
        ComposedHere(REMOVE_TEXT, text, Some(xs[0].key), None);
        HereSpares(Compose(REMOVE_TEXT, text, Some(xs[0].key), None), path, key, xs[0].key);
        SpareOne(Compose(REMOVE_TEXT, text, Some(xs[0].key), None), path, key);
        RestStrictly(xs);
        MissedInRest(xs, ys, xs[1..], ys, xs[0].key, key);
        MembersSpare(path, xs[1..], ys, depth, key);
        SpareBoth([Compose(REMOVE_TEXT, text, Some(xs[0].key), None)], MemberPatches(text, xs[1..], ys, true, depth), path, key);
      } else {
        OnlySecond(xs, ys);
        EditedMisses(xs, ys, key, ys[0].key);
        ComposedHere(ADD_TEXT, text, Some(ys[0].key), Some(ys[0].item));
        HereSpares(Compose(ADD_TEXT, text, Some(ys[0].key), Some(ys[0].item)), path, key, ys[0].key);
        SpareOne(Compose(ADD_TEXT, text, Some(ys[0].key), Some(ys[0].item)), path, key);
        RestStrictly(ys);
        MissedInRest(xs, ys, xs, ys[1..], ys[0].key, key);
        MembersSpare(path, xs, ys[1..], depth, key);
        SpareBoth([Compose(ADD_TEXT, text, Some(ys[0].key), Some(ys[0].item))], MemberPatches(text, xs, ys[1..], true, depth), path, key);
      }
    }
  }

  lemma RestStrictly<T>(s: seq<Keyed<T>>)
    requires Strictly(s) && s != []
    ensures Strictly(s[1..])
  {
  }

  lemma NothingSpares(path: CP.Path, key: CString)
    ensures AllSpare([], path, key)
  {
  }

  lemma EditedMisses(xs: seq<Keyed<Json>>, ys: seq<Keyed<Json>>, key: CString, k: CString)
    requires Missed(xs, ys, key) && EndsAt(xs, ys, k)
    ensures LowerAll(Mistaken(k)) != LowerAll(key)
  {
  }

  lemma SmallerIsNotIn(key: CString, s: seq<Keyed<Json>>)
    requires Strictly(s) && (s != [] ==> StrCmp(key, s[0].key) < 0)
    ensures !HasKey(s, key)
  {
    SmallestKey(key, s);
    NormKeys(s, key);
  }

  lemma OnlyFirst(xs: seq<Keyed<Json>>, ys: seq<Keyed<Json>>)
    requires Strictly(xs) && Strictly(ys) && xs != [] && HeadDifference(xs, ys, true) < 0
    ensures EndsAt(xs, ys, xs[0].key) && !HasKey(ys, xs[0].key)
    ensures Drops(xs, xs[1..], xs[0].key) && Drops(ys, ys, xs[0].key)
  {
    SmallerIsNotIn(xs[0].key, ys);
    HasMember(xs, xs[0]);
    DropsHead(xs);
    DropsNothing(ys, xs[0].key);
    NotKept(xs, ys, xs[0].key);
  }

  lemma OnlySecond(xs: seq<Keyed<Json>>, ys: seq<Keyed<Json>>)
    requires Strictly(xs) && Strictly(ys) && ys != [] && HeadDifference(xs, ys, true) > 0
    ensures EndsAt(xs, ys, ys[0].key) && !HasKey(xs, ys[0].key)
    ensures Drops(xs, xs, ys[0].key) && Drops(ys, ys[1..], ys[0].key)
  {
    if xs != [] {
      StrCmpAntisymmetric(xs[0].key, ys[0].key);
    }
    SmallerIsNotIn(ys[0].key, xs);
    HasMember(ys, ys[0]);
    DropsHead(ys);
    DropsNothing(xs, ys[0].key);
    NotKept(xs, ys, ys[0].key);
  }

  lemma NotKept(xs: seq<Keyed<Json>>, ys: seq<Keyed<Json>>, key: CString)
    requires !HasKey(xs, key) || !HasKey(ys, key)
    ensures !SharedKept(xs, ys, key)
  {
    hide HasKey;
    forall m | m in xs ensures HasKey(xs, m.key) {
      HasMember(xs, m);
    }
    forall m | m in ys ensures HasKey(ys, m.key) {
      HasMember(ys, m);
    }
  }

  // ----- the key of lowest rank -----

  lemma {:induction false} LowestRank(keys: set<CString>) returns (key: CString)
    requires keys != {}
    ensures key in keys && forall k :: k in keys ==> Rank(LowerAll(key)) <= Rank(LowerAll(k))
    decreases |keys|
  {
    hide Rank, LowerAll;
    key :| key in keys;
    var rest := keys - {key};
    if rest != {} {
      var lowest := LowestRank(rest);
      if Rank(LowerAll(lowest)) < Rank(LowerAll(key)) {
        key := lowest;
      }
    }
  }

  /** Among the edited keys that are taken for others, the lowest is not hit by any patch. */
  lemma MissesOne(xs: seq<Keyed<Json>>, ys: seq<Keyed<Json>>) returns (key: CString)
    requires LooselyApart(NormMembers(xs).Keys + NormMembers(ys).Keys) && !EditsUnshifted(xs, ys)
    ensures EndsAt(xs, ys, key) && Missed(xs, ys, key)
  {
    hide Rank, LowerAll, Mistaken, NormMembers, HasKey, SharedKept, DecodeInPlace.Unshifted;
    var all := NormMembers(xs).Keys + NormMembers(ys).Keys;
    var shifted := set k | k in all && EndsAt(xs, ys, k) && !DecodeInPlace.Unshifted(k);
    var some :| EndsAt(xs, ys, some) && !DecodeInPlace.Unshifted(some);
    KeysOfBoth(xs, ys, some);
    assert some in shifted;
    key := LowestRank(shifted);
    forall k | EndsAt(xs, ys, k) ensures LowerAll(Mistaken(k)) != LowerAll(key) {
      KeysOfBoth(xs, ys, k);
      MistakenLoosely(k);
      if Mistaken(k) != k {
        RankGrows(k);
        assert k in shifted;
      } else {
        assert k != key;
      }
    }
    assert forall k :: SharedKept(xs, ys, k) ==> k != key;
  }

  lemma KeysOfBoth(xs: seq<Keyed<Json>>, ys: seq<Keyed<Json>>, key: CString)
    ensures HasKey(xs, key) || HasKey(ys, key) <==> key in NormMembers(xs).Keys + NormMembers(ys).Keys
  {
    hide NormMembers, HasKey;
    NormKeys(xs, key);
    NormKeys(ys, key);
  }

  /** So the result differs from the goal there. */
  lemma MissedDiffers(xs: seq<Keyed<Json>>, ys: seq<Keyed<Json>>, key: CString, m: map<CString, Canon>)
    requires Strictly(xs) && Strictly(ys) && EndsAt(xs, ys, key) && Agree(NormMembers(xs), m, key)
    ensures m != NormMembers(ys)
  {
    hide NormMembers, Norm, SharedKept;
    NormKeys(xs, key);
    NormKeys(ys, key);
    if HasKey(xs, key) && HasKey(ys, key) {
      var x :| 0 <= x < |xs| && xs[x].key == key;
      var y :| 0 <= y < |ys| && ys[y].key == key;
      StrictlyDistinct(xs);
      StrictlyDistinct(ys);
      NormAt(xs, x);
      NormAt(ys, y);
      assert Replaced(xs[x].item, ys[y].item) by { EditedShared(xs, ys, key, x, y); }
      ReplacedDiffers(xs[x].item, ys[y].item);
    }
  }

  lemma EditedShared(xs: seq<Keyed<Json>>, ys: seq<Keyed<Json>>, key: CString, x: nat, y: nat)
    requires x < |xs| && y < |ys| && xs[x].key == key && ys[y].key == key && !SharedKept(xs, ys, key)
    ensures Replaced(xs[x].item, ys[y].item)
  {
    assert xs[x] in xs && ys[y] in ys;
  }

  lemma StrictlyDistinct<T>(s: seq<Keyed<T>>)
    requires Strictly(s)
    ensures DistinctKeys(s)
  {
    forall i, k | 0 <= i < k < |s| ensures s[i].key != s[k].key {
      StrCmpZero(s[i].key, s[k].key);
    }
  }

  lemma ReplacedDiffers(x: Json, y: Json)
    requires Replaced(x, y)
    ensures Norm(x) != Norm(y)
  {
  }
}
