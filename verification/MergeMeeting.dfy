/** Which keys a generated merge patch keeps, whatever order the two objects were sorted in: the walk compares keys byte
    by byte even where they were sorted ignoring case. */
module MergeMeeting {
  import opened Bytes
  import opened Json
  import opened MergeSort
  import opened Canon
  import opened Compare
  import opened CompareWalk
  import opened Merge
  import opened MergeGenerate

  /** How the walk over two lists comes upon a key that both have. */
  datatype Meeting = NotShared | Together | FromFirst | ToFirst

  function Meet<T>(xs: seq<Keyed<T>>, ys: seq<Keyed<T>>, key: CString): Meeting
    decreases |xs| + |ys|
  {
    if xs == [] && ys == [] then NotShared
    else
      var diff := if xs == [] then 1 else if ys == [] then -1 else StrCmp(xs[0].key, ys[0].key);
      if diff < 0 then
        if xs[0].key != key then Meet(xs[1..], ys, key) else if HasKey(ys, key) then FromFirst else NotShared
      else if diff > 0 then
        if ys[0].key != key then Meet(xs, ys[1..], key) else if HasKey(xs, key) then ToFirst else NotShared
      else
        if ys[0].key == key then Together else Meet(xs[1..], ys[1..], key)
  }

  lemma KeyInRest<T>(s: seq<Keyed<T>>, key: CString)
    requires DistinctKeys(s) && s != []
    ensures DistinctKeys(s[1..])
    ensures HasKey(s, key) <==> s[0].key == key || HasKey(s[1..], key)
    ensures s[0].key == key ==> !HasKey(s[1..], key)
  {
    if HasKey(s, key) && s[0].key != key {
      var i :| 0 <= i < |s| && s[i].key == key;
      assert s[1..][i - 1].key == key;
    }
  }

  /** Where both lists are in byte order, no key is met in one of them first. */
  lemma {:induction false} MeetsInOrder<T>(xs: seq<Keyed<T>>, ys: seq<Keyed<T>>, key: CString)
    requires Strictly(xs) && Strictly(ys)
    ensures Meet(xs, ys, key) == if HasKey(xs, key) && HasKey(ys, key) then Together else NotShared
    decreases |xs| + |ys|
  {
    hide StrCmp;
    DistinctIfStrict(xs);
    DistinctIfStrict(ys);
    if xs != [] {
      KeyInRest(xs, key);
    }
    if ys != [] {
      KeyInRest(ys, key);
    }
    if xs != [] || ys != [] {
      var diff := if xs == [] then 1 else if ys == [] then -1 else StrCmp(xs[0].key, ys[0].key);
      if diff < 0 {
        BelowAll(xs[0].key, ys);
        MeetsInOrder(xs[1..], ys, key);
      } else if diff > 0 {
        if xs != [] {
          StrCmpAntisymmetric(xs[0].key, ys[0].key);
        }
        BelowAll(ys[0].key, xs);
        MeetsInOrder(xs, ys[1..], key);
      } else {
        StrCmpZero(xs[0].key, ys[0].key);
        MeetsInOrder(xs[1..], ys[1..], key);
      }
    }
  }

  lemma DistinctIfStrict<T>(s: seq<Keyed<T>>)
    requires Strictly(s)
    ensures DistinctKeys(s)
  {
    forall i, k | 0 <= i < k < |s| ensures s[i].key != s[k].key {
      StrCmpZero(s[i].key, s[k].key);
    }
  }

  lemma BelowAll<T>(key: CString, s: seq<Keyed<T>>)
    requires Strictly(s) && (s != [] ==> StrCmp(key, s[0].key) < 0)
    ensures !HasKey(s, key)
  {
    if HasKey(s, key) {
      var i :| 0 <= i < |s| && s[i].key == key;
      StrCmpZero(key, key);
      StrCmpAntisymmetric(key, s[0].key);
    }
  }

  // ----- the last word of a patch on a key -----

  function LastFor(changes: seq<Keyed<Json>>, key: CString): Option<Json> {
    if changes == [] then None
    else
      var later := LastFor(changes[1..], key);
      if later.Some? then later else if changes[0].key == key then Some(changes[0].item) else None
  }

  lemma LastForEntry(head: CString, value: Option<Json>, rest: seq<Keyed<Json>>, key: CString)
    ensures LastFor(Entry(head, value) + rest, key) ==
      if LastFor(rest, key).Some? then LastFor(rest, key) else if head == key then value else None
  {
    match value {
      case None => assert [] + rest == rest;
      case Some(v) => assert ([Keyed(head, v)] + rest)[1..] == rest;
    }
  }

  /** What the walk says last about a key: removed, set, or nothing. */
  ghost predicate SaysLast(xs: seq<Keyed<Json>>, ys: seq<Keyed<Json>>, key: CString, last: Option<Json>) {
    && (last == Some(Null) <==> HasKey(xs, key) && (HasKey(ys, key) ==> Meet(xs, ys, key) == ToFirst))
    && (last == None ==> (HasKey(xs, key) <==> HasKey(ys, key)))
    && (!HasKey(xs, key) && !HasKey(ys, key) ==> last == None)
  }

  predicate Values(ys: seq<Keyed<Json>>) {
    forall i :: 0 <= i < |ys| ==> Copyable(ys[i].item, 0) && !ys[i].item.Null?
  }

  lemma BelowIsNotNull(x: Json, y: Json, caseSensitive: bool)
    requires !y.Null?
    ensures ToTell(x, y, caseSensitive) != Some(Null)
  {
    hide CompareSorted, Changes, Sort, Copyable, LeftItems, LeftMembers;
  }

  lemma {:induction false} ChangesSayLast(xs: seq<Keyed<Json>>, ys: seq<Keyed<Json>>, caseSensitive: bool, depth: nat, key: CString)
    requires DistinctKeys(xs) && DistinctKeys(ys) && Values(ys)
    requires forall i :: 0 <= i < |xs| ==> Nesting(xs[i].item) < depth
    ensures SaysLast(xs, ys, key, LastFor(Changes(xs, ys, caseSensitive, depth), key))
    decreases |xs| + |ys|
  {
    hide StrCmp, ToTell, Copyable, LastFor, DistinctKeys, HasKey;
    if xs != [] {
      KeyInRest(xs, key);
    }
    if ys != [] {
      KeyInRest(ys, key);
    }
    if xs == [] && ys == [] {
      NothingSaysLast(key);
    } else {
      var diff := HeadDifference(xs, ys);
      if diff < 0 {
        LastForEntry(xs[0].key, Some(Null), Changes(xs[1..], ys, caseSensitive, depth), key);
        ChangesSayLast(xs[1..], ys, caseSensitive, depth, key);
      } else if diff > 0 {
        LastForEntry(ys[0].key, Duplicate(ys[0].item), Changes(xs, ys[1..], caseSensitive, depth), key);
        ChangesSayLast(xs, ys[1..], caseSensitive, depth, key);
      } else {
        StrCmpZero(xs[0].key, ys[0].key);
        BelowIsNotNull(xs[0].item, ys[0].item, caseSensitive);
        LastForEntry(ys[0].key, ToTell(xs[0].item, ys[0].item, caseSensitive), Changes(xs[1..], ys[1..], caseSensitive, depth), key);
        ChangesSayLast(xs[1..], ys[1..], caseSensitive, depth, key);
      }
    }
  }

  lemma NothingSaysLast(key: CString)
    ensures LastFor([], key) == None && !HasKey<Json>([], key)
  {
  }

  lemma {:induction false} MeetsAlone<T>(xs: seq<Keyed<T>>, ys: seq<Keyed<T>>, key: CString)
    requires DistinctKeys(xs) && DistinctKeys(ys) && (!HasKey(xs, key) || !HasKey(ys, key))
    ensures Meet(xs, ys, key) == NotShared
    decreases |xs| + |ys|
  {
    hide StrCmp, HasKey, DistinctKeys;
    if xs != [] {
      KeyInRest(xs, key);
    }
    if ys != [] {
      KeyInRest(ys, key);
    }
    if xs != [] || ys != [] {
      var diff := if xs == [] then 1 else if ys == [] then -1 else StrCmp(xs[0].key, ys[0].key);
      if diff < 0 {
        MeetsAlone(xs[1..], ys, key);
      } else if diff > 0 {
        MeetsAlone(xs, ys[1..], key);
      } else {
        StrCmpZero(xs[0].key, ys[0].key);
        MeetsAlone(xs[1..], ys[1..], key);
      }
    }
  }

  // ----- merging obeys the last word -----

  lemma TakesOnlyKeyOut(members: seq<Keyed<Json>>, key: CString, other: CString)
    requires DistinctKeys(members)
    ensures var others := WithoutKey(members, key, true);
      && DistinctKeys(others) && !HasKey(others, key)
      && (other != key ==> (HasKey(others, other) <==> HasKey(members, other)) && ValueAt(others, other, true) == ValueAt(members, other, true))
  {
    hide FindKey;
    ExactKey(members, key);
    var k := FindKey(members, key, true);
    if k < |members| {
      DistinctWithout(members, k);
      var others := Without(members, k);
      assert forall i :: 0 <= i < |others| ==> others[i] == members[if i < k then i else i + 1];
      if other != key {
        if HasKey(members, other) {
          KeptKey(members, k, other);
        }
        SameValue(members, others, other);
      }
    }
  }

  lemma SameValue(a: seq<Keyed<Json>>, b: seq<Keyed<Json>>, key: CString)
    requires DistinctKeys(a) && DistinctKeys(b) && (HasKey(b, key) <==> HasKey(a, key)) && forall m :: m in b && m.key == key ==> m in a
    ensures ValueAt(a, key, true) == ValueAt(b, key, true)
  {
    hide FindKey;
    ExactKey(a, key);
    ExactKey(b, key);
    var i, k := FindKey(a, key, true), FindKey(b, key, true);
    if i < |a| && k < |b| {
      assert b[k] in b && b[k] in a;
      var n :| 0 <= n < |a| && a[n] == b[k];
      assert n == i;
    }
  }

  lemma PutsOnlyKeyIn(others: seq<Keyed<Json>>, key: CString, value: Json, other: CString)
    requires DistinctKeys(others) && !HasKey(others, key)
    ensures var all := others + [Keyed(key, value)];
      && DistinctKeys(all) && HasKey(all, key)
      && (other != key ==> (HasKey(all, other) <==> HasKey(others, other)) && ValueAt(all, other, true) == ValueAt(others, other, true))
  {
    hide FindKey;
    var all := others + [Keyed(key, value)];
    assert all[|others|].key == key;
    if other != key {
      if HasKey(others, other) {
        var i :| 0 <= i < |others| && others[i].key == other;
        assert all[i].key == other;
      }
      if HasKey(all, other) {
        var i :| 0 <= i < |all| && all[i].key == other;
        assert others[i].key == other;
      }
      SameValue(all, others, other);
    }
  }

  /** A key is there after merging if it was set last, or never mentioned and there before; then its value is the same. */
  lemma {:induction false} MergeObeysLast(members: seq<Keyed<Json>>, changes: seq<Keyed<Json>>, key: CString)
    requires DistinctKeys(members) && MergeMembers(members, changes, true).Some?
    ensures var merged, last := MergeMembers(members, changes, true).value, LastFor(changes, key);
      && (HasKey(merged, key) <==> if last.Some? then !last.value.Null? else HasKey(members, key))
      && (last.None? ==> ValueAt(merged, key, true) == ValueAt(members, key, true))
    decreases |changes|
  {
    hide HasKey, DistinctKeys, WithoutKey, ValueAt, MergePatch;
    if changes != [] {
      var head, change := changes[0].key, changes[0].item;
      var others := WithoutKey(members, head, true);
      TakesOnlyKeyOut(members, head, key);
      if change.Null? {
        MergeObeysLast(others, changes[1..], key);
      } else {
        var merged := MergePatch(ValueAt(members, head, true), change, true).value;
        PutsOnlyKeyIn(others, head, merged, key);
        MergeObeysLast(others + [Keyed(head, merged)], changes[1..], key);
      }
    }
  }

  lemma StartsWalk(xs: seq<Keyed<Json>>, ys: seq<Keyed<Json>>, caseSensitive: bool)
    requires DistinctKeys(xs) && DistinctKeys(ys) && Values(ys)
    ensures var sx, sy := Sort(xs, caseSensitive), Sort(ys, caseSensitive);
      && DistinctKeys(sx) && DistinctKeys(sy) && Values(sy)
      && (forall i :: 0 <= i < |sx| ==> Nesting(sx[i].item) < Nesting(Object(xs)))
      && (forall key :: HasKey(sx, key) <==> HasKey(xs, key)) && (forall key :: HasKey(sy, key) <==> HasKey(ys, key))
  {
    hide Sort, Nesting, Copyable, Norm, NormMembers, HasKey;
    var sx, sy := Sort(xs, caseSensitive), Sort(ys, caseSensitive);
    SortSame(xs, caseSensitive);
    SortSame(ys, caseSensitive);
    SortIsSort(ys, caseSensitive);
    forall i | 0 <= i < |sy| ensures Copyable(sy[i].item, 0) && !sy[i].item.Null? {
      InBoth(ys, sy, sy[i]);
    }
    forall i | 0 <= i < |sx| ensures Nesting(sx[i].item) < Nesting(Object(xs)) {
      SortedNesting(xs, caseSensitive, i);
      NestingOfObject(xs);
    }
    forall key ensures HasKey(sx, key) <==> HasKey(xs, key) {
      NormKeys(sx, key);
      NormKeys(xs, key);
    }
    forall key ensures HasKey(sy, key) <==> HasKey(ys, key) {
      NormKeys(sy, key);
      NormKeys(ys, key);
    }
  }

  lemma NestingOfObject(xs: seq<Keyed<Json>>)
    ensures Nesting(Object(xs)) == 1 + MembersNesting(xs)
  {
  }

  /** Merging the patch generated for two objects into a copy of the first leaves exactly the keys of the second, but for
      those that the walk meets among the second's sorted members first. */
  lemma KeysAfterMerge(xs: seq<Keyed<Json>>, ys: seq<Keyed<Json>>, caseSensitive: bool, members: seq<Keyed<Json>>, merged: seq<Keyed<Json>>, key: CString)
    requires DistinctKeys(xs) && DistinctKeys(ys) && Values(ys) && DistinctKeys(members) && (HasKey(members, key) <==> HasKey(xs, key))
    requires Generate(Object(xs), Object(ys), caseSensitive).Some?
    requires MergePatch(Some(Object(members)), Generate(Object(xs), Object(ys), caseSensitive).value, true) == Some(Object(merged))
    ensures HasKey(merged, key) <==> HasKey(ys, key) && Meet(Sort(xs, caseSensitive), Sort(ys, caseSensitive), key) != ToFirst
  {
    hide Sort, Nesting, Changes, LastFor, MergeMembers, HasKey, DistinctKeys, Values, Meet;
    var sx, sy, depth := Sort(xs, caseSensitive), Sort(ys, caseSensitive), Nesting(Object(xs));
    StartsWalk(xs, ys, caseSensitive);
    ChangesSayLast(sx, sy, caseSensitive, depth, key);
    MergeObeysLast(members, Changes(sx, sy, caseSensitive, depth), key);
    MeetsOnlyShared(sx, sy, key);
  }

  lemma MeetsOnlyShared<T>(xs: seq<Keyed<T>>, ys: seq<Keyed<T>>, key: CString)
    requires DistinctKeys(xs) && DistinctKeys(ys)
    ensures Meet(xs, ys, key) != NotShared ==> HasKey(xs, key) && HasKey(ys, key)
  {
    hide Meet;
    if !HasKey(xs, key) || !HasKey(ys, key) {
      MeetsAlone(xs, ys, key);
    }
  }

  // ----- values that compare as equal -----

  lemma {:induction false} EqualSaysNothing(xs: seq<Keyed<Json>>, ys: seq<Keyed<Json>>, caseSensitive: bool, depth: nat, key: CString)
    requires DistinctKeys(xs) && DistinctKeys(ys) && Values(ys) && Meet(xs, ys, key) == Together
    requires forall i :: 0 <= i < |xs| ==> Nesting(xs[i].item) < depth
    requires forall i, k :: 0 <= i < |xs| && 0 <= k < |ys| && xs[i].key == key == ys[k].key ==> CompareSorted(xs[i].item, ys[k].item, caseSensitive)
    ensures LastFor(Changes(xs, ys, caseSensitive, depth), key) == None
    decreases |xs| + |ys|
  {
    hide StrCmp, CompareSorted, Generate, Copyable, LastFor, DistinctKeys, HasKey, Left;
    if xs != [] {
      KeyInRest(xs, key);
    }
    if ys != [] {
      KeyInRest(ys, key);
    }
    if xs != [] || ys != [] {
      var diff := HeadDifference(xs, ys);
      if diff < 0 {
        LastForEntry(xs[0].key, Some(Null), Changes(xs[1..], ys, caseSensitive, depth), key);
        EqualSaysNothing(xs[1..], ys, caseSensitive, depth, key);
      } else if diff > 0 {
        LastForEntry(ys[0].key, Duplicate(ys[0].item), Changes(xs, ys[1..], caseSensitive, depth), key);
        EqualSaysNothing(xs, ys[1..], caseSensitive, depth, key);
      } else {
        StrCmpZero(xs[0].key, ys[0].key);
        LastForEntry(ys[0].key, ToTell(xs[0].item, ys[0].item, caseSensitive), Changes(xs[1..], ys[1..], caseSensitive, depth), key);
        if ys[0].key == key {
          ChangesSayLast(xs[1..], ys[1..], caseSensitive, depth, key);
        } else {
          EqualSaysNothing(xs[1..], ys[1..], caseSensitive, depth, key);
        }
      }
    }
  }

  /** Where the walk meets a key in both lists at once and the two values compare as equal, if only ignoring case, merging
      leaves the old value. */
  lemma EqualIsNotPatched(xs: seq<Keyed<Json>>, ys: seq<Keyed<Json>>, caseSensitive: bool, members: seq<Keyed<Json>>, merged: seq<Keyed<Json>>, key: CString)
    requires DistinctKeys(xs) && DistinctKeys(ys) && Values(ys) && DistinctKeys(members)
    requires Meet(Sort(xs, caseSensitive), Sort(ys, caseSensitive), key) == Together
    requires forall m, n :: m in xs && n in ys && m.key == key == n.key ==> CompareSorted(m.item, n.item, caseSensitive)
    requires Generate(Object(xs), Object(ys), caseSensitive).Some?
    requires MergePatch(Some(Object(members)), Generate(Object(xs), Object(ys), caseSensitive).value, true) == Some(Object(merged))
    ensures ValueAt(merged, key, true) == ValueAt(members, key, true)
  {
    hide Sort, Nesting, Changes, LastFor, MergeMembers, HasKey, DistinctKeys, Values, Meet, CompareSorted, ValueAt;
    var sx, sy, depth := Sort(xs, caseSensitive), Sort(ys, caseSensitive), Nesting(Object(xs));
    StartsWalk(xs, ys, caseSensitive);
    SortIsSort(xs, caseSensitive);
    SortIsSort(ys, caseSensitive);
    forall i, k | 0 <= i < |sx| && 0 <= k < |sy| && sx[i].key == key == sy[k].key ensures CompareSorted(sx[i].item, sy[k].item, caseSensitive) {
      InBoth(xs, sx, sx[i]);
      InBoth(ys, sy, sy[k]);
    }
    EqualSaysNothing(sx, sy, caseSensitive, depth, key);
    MergeObeysLast(members, Changes(sx, sy, caseSensitive, depth), key);
  }
}
