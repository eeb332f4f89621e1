/** The two equality tests: lookup in both directions, and sorting followed by a pairwise walk. */
module Compare {
  import opened Bytes
  import opened Json
  import opened MergeSort
  import opened Canon

  /** `get_object_item`: the first member with that key, or the number of members. */
  function FindKey<T>(members: seq<Keyed<T>>, name: CString, caseSensitive: bool): (k: nat)
    ensures k <= |members|
    ensures k < |members| ==> CompareStrings(members[k].key, name, caseSensitive) == 0
    ensures forall i :: 0 <= i < k ==> CompareStrings(members[i].key, name, caseSensitive) != 0
  {
    if members == [] || CompareStrings(members[0].key, name, caseSensitive) == 0 then 0
    else 1 + FindKey(members[1..], name, caseSensitive)
  }

  method CFindKey<T>(members: seq<Keyed<T>>, name: CString, caseSensitive: bool) returns (k: nat)
    ensures k == FindKey(members, name, caseSensitive)
  {
    k := 0;
    while k < |members|
      invariant k <= |members|
      invariant FindKey(members, name, caseSensitive) == k + FindKey(members[k..], name, caseSensitive)
    {
      var diff := CCompareStrings(members[k].key, name, caseSensitive);
      if diff == 0 {
        return;
      }
      assert members[k..][1..] == members[k + 1..];
      k := k + 1;
    }
  }

  // ----- cJSON_Compare -----

  /** `cJSON_Compare` on two different nodes. */
  function CompareTrees(a: Json, b: Json, caseSensitive: bool): bool
    decreases Nesting(a) + Nesting(b)
  {
    match (a, b)
    case (Array(xs), Array(ys)) =>
      |xs| == |ys| && forall i | 0 <= i < |xs| :: ItemNesting(xs, i); ItemNesting(ys, i); CompareTrees(xs[i], ys[i], caseSensitive)
    case (Object(xs), Object(ys)) =>
      && (forall i | 0 <= i < |xs| :: MemberNesting(xs, i);
            var k := FindKey(ys, xs[i].key, caseSensitive);
            k < |ys| && (MemberNesting(ys, k); CompareTrees(xs[i].item, ys[k].item, caseSensitive)))
      && (forall i | 0 <= i < |ys| :: MemberNesting(ys, i);
            var k := FindKey(xs, ys[i].key, caseSensitive);
            k < |xs| && (MemberNesting(xs, k); CompareTrees(ys[i].item, xs[k].item, caseSensitive)))
    case _ => a == b
  }

  /** `cJSON_Compare` as a walk over siblings. */
  method CCompare(a: Json, b: Json, caseSensitive: bool) returns (equal: bool)
    ensures equal == CompareTrees(a, b, caseSensitive)
    decreases Nesting(a) + Nesting(b), 1
  {
    hide FindKey, CompareStrings;
    match (a, b) {
      case (Array(xs), Array(ys)) =>
        equal := CCompareItems(xs, ys, caseSensitive);
      case (Object(xs), Object(ys)) =>
        equal := CCompareMembers(xs, ys, caseSensitive);
        if equal {
          equal := CCompareMembers(ys, xs, caseSensitive);
        }
      case _ =>
        return a == b;
    }
  }

  /** The walk over two arrays. */
  method CCompareItems(xs: seq<Json>, ys: seq<Json>, caseSensitive: bool) returns (equal: bool)
    ensures equal <==> |xs| == |ys| && forall n :: 0 <= n < |xs| ==> CompareTrees(xs[n], ys[n], caseSensitive)
    decreases Nesting(Array(xs)) + Nesting(Array(ys)), 0
  {
    hide CompareTrees;
    var i := 0;
    while i < |xs| && i < |ys|
      invariant i <= |xs| && i <= |ys|
      invariant forall n :: 0 <= n < i ==> CompareTrees(xs[n], ys[n], caseSensitive)
    {
      ItemNesting(xs, i);
      ItemNesting(ys, i);
      equal := CCompare(xs[i], ys[i], caseSensitive);
      if !equal {
        return;
      }
      i := i + 1;
    }
    return i == |xs| && i == |ys|;
  }

  /** One of the two walks over an object's members, looking each one up in the other object. */
  method CCompareMembers(xs: seq<Keyed<Json>>, ys: seq<Keyed<Json>>, caseSensitive: bool) returns (equal: bool)
    ensures equal == AllMatch(xs, ys, caseSensitive)
    decreases Nesting(Object(xs)) + Nesting(Object(ys)), 0
  {
    hide FindKey, CompareStrings, CompareTrees;
    var i := 0;
    while i < |xs|
      invariant i <= |xs|
      invariant forall n | 0 <= n < i ::
        FindKey(ys, xs[n].key, caseSensitive) < |ys| && CompareTrees(xs[n].item, ys[FindKey(ys, xs[n].key, caseSensitive)].item, caseSensitive)
    {
      var k := CFindKey(ys, xs[i].key, caseSensitive);
      if k == |ys| {
        return false;
      }
      MemberNesting(xs, i);
      MemberNesting(ys, k);
      equal := CCompare(xs[i].item, ys[k].item, caseSensitive);
      if !equal {
        return;
      }
      i := i + 1;
    }
    return true;
  }

  lemma {:induction false} FindsKey<T>(members: seq<Keyed<T>>, k: nat)
    requires k < |members| && DistinctKeys(members)
    ensures FindKey(members, members[k].key, true) == k
  {
    StrCmpZero(members[0].key, members[k].key);
    if k > 0 {
      FindsKey(members[1..], k - 1);
    }
  }

  lemma SameMembers(xs: seq<Keyed<Json>>, ys: seq<Keyed<Json>>, i: nat)
    requires DistinctKeys(xs) && DistinctKeys(ys) && i < |xs|
    ensures FindKey(ys, xs[i].key, true) < |ys| <==> xs[i].key in NormMembers(ys)
    ensures FindKey(ys, xs[i].key, true) < |ys| ==>
      NormMembers(ys)[xs[i].key] == Norm(ys[FindKey(ys, xs[i].key, true)].item)
  {
    hide Norm, NormMembers;
    var k := FindKey(ys, xs[i].key, true);
    NormKeys(ys, xs[i].key);
    if k < |ys| {
      StrCmpZero(ys[k].key, xs[i].key);
      NormAt(ys, k);
    } else if HasKey(ys, xs[i].key) {
      var n :| 0 <= n < |ys| && ys[n].key == xs[i].key;
      StrCmpZero(ys[n].key, xs[i].key);
    }
  }

  /** On trees without repeated keys, `cJSON_Compare` is equality up to member order. */
  lemma {:induction false} CompareIsSame(a: Json, b: Json)
    requires Distinct(a) && Distinct(b)
    ensures CompareTrees(a, b, true) <==> Same(a, b)
    decreases Nesting(a) + Nesting(b), 3
  {
    match (a, b) {
      case (Array(xs), Array(ys)) =>
        CompareItems(xs, ys);
      case (Object(xs), Object(ys)) =>
        CompareMembers(xs, ys);
      case _ =>
    }
  }

  lemma {:induction false} CompareItems(xs: seq<Json>, ys: seq<Json>)
    requires Distinct(Array(xs)) && Distinct(Array(ys))
    ensures CompareTrees(Array(xs), Array(ys), true) <==> Same(Array(xs), Array(ys))
    decreases Nesting(Array(xs)) + Nesting(Array(ys)), 0
  {
    if |xs| == |ys| {
      forall i | 0 <= i < |xs| ensures CompareTrees(xs[i], ys[i], true) <==> Norm(xs[i]) == Norm(ys[i]) {
        ItemNesting(xs, i);
        ItemNesting(ys, i);
        CompareIsSame(xs[i], ys[i]);
      }
      var nx, ny := Norm(Array(xs)).items, Norm(Array(ys)).items;
      assert forall i :: 0 <= i < |xs| ==> nx[i] == Norm(xs[i]) && ny[i] == Norm(ys[i]);
      if nx == ny {
        assert forall i :: 0 <= i < |xs| ==> Norm(xs[i]) == nx[i] == ny[i] == Norm(ys[i]);
      }
    }
  }

  /** Every member of `xs` has an equal partner in `ys`, in terms of the maps. */
  predicate Covered(xs: seq<Keyed<Json>>, ys: seq<Keyed<Json>>) {
    forall i :: 0 <= i < |xs| ==> xs[i].key in NormMembers(ys) && NormMembers(ys)[xs[i].key] == Norm(xs[i].item)
  }

  /** One direction of the lookup loop. */
  lemma {:induction false} CompareCovers(xs: seq<Keyed<Json>>, ys: seq<Keyed<Json>>, i: nat)
    requires Distinct(Object(xs)) && Distinct(Object(ys)) && i < |xs|
    ensures Nesting(xs[i].item) < Nesting(Object(xs))
    ensures FindKey(ys, xs[i].key, true) < |ys| <==> xs[i].key in NormMembers(ys)
    ensures var k := FindKey(ys, xs[i].key, true);
      k < |ys| ==>
        && Nesting(ys[k].item) < Nesting(Object(ys))
        && (CompareTrees(xs[i].item, ys[k].item, true) <==> NormMembers(ys)[xs[i].key] == Norm(xs[i].item))
    decreases Nesting(Object(xs)) + Nesting(Object(ys)), 0
  {
    hide Norm, NormMembers, CompareTrees;
    SameMembers(xs, ys, i);
    MemberNesting(xs, i);
    var k := FindKey(ys, xs[i].key, true);
    if k < |ys| {
      MemberNesting(ys, k);
      CompareIsSame(xs[i].item, ys[k].item);
    }
  }

  /** One direction of `cJSON_Compare`'s lookups. */
  ghost predicate AllMatch(xs: seq<Keyed<Json>>, ys: seq<Keyed<Json>>, caseSensitive: bool) {
    forall i | 0 <= i < |xs| ::
      FindKey(ys, xs[i].key, caseSensitive) < |ys| && CompareTrees(xs[i].item, ys[FindKey(ys, xs[i].key, caseSensitive)].item, caseSensitive)
  }

  lemma {:induction false} AllMatchIsCovered(xs: seq<Keyed<Json>>, ys: seq<Keyed<Json>>)
    requires Distinct(Object(xs)) && Distinct(Object(ys))
    ensures AllMatch(xs, ys, true) <==> Covered(xs, ys)
    decreases Nesting(Object(xs)) + Nesting(Object(ys)), 1
  {
    hide Norm, NormMembers, FindKey, CompareTrees, Distinct;
    forall i | 0 <= i < |xs|
      ensures (FindKey(ys, xs[i].key, true) < |ys| && CompareTrees(xs[i].item, ys[FindKey(ys, xs[i].key, true)].item, true))
        <==> (xs[i].key in NormMembers(ys) && NormMembers(ys)[xs[i].key] == Norm(xs[i].item))
    {
      CompareCovers(xs, ys, i);
    }
  }

  lemma {:induction false} CompareMembers(xs: seq<Keyed<Json>>, ys: seq<Keyed<Json>>)
    requires Distinct(Object(xs)) && Distinct(Object(ys))
    ensures CompareTrees(Object(xs), Object(ys), true) <==> Same(Object(xs), Object(ys))
    decreases Nesting(Object(xs)) + Nesting(Object(ys)), 2
  {
    hide NormMembers, FindKey, Distinct;
    AllMatchIsCovered(xs, ys);
    AllMatchIsCovered(ys, xs);
    assert CompareTrees(Object(xs), Object(ys), true) <==> AllMatch(xs, ys, true) && AllMatch(ys, xs, true);
    assert DistinctKeys(xs) && DistinctKeys(ys) by { DistinctObject(xs); DistinctObject(ys); }
    CoveredBothWays(xs, ys);
  }

  lemma DistinctObject(xs: seq<Keyed<Json>>)
    requires Distinct(Object(xs))
    ensures DistinctKeys(xs) && forall i :: 0 <= i < |xs| ==> Distinct(xs[i].item)
  {
  }

  lemma CoveredBothWays(xs: seq<Keyed<Json>>, ys: seq<Keyed<Json>>)
    requires DistinctKeys(xs) && DistinctKeys(ys)
    ensures Covered(xs, ys) && Covered(ys, xs) <==> NormMembers(xs) == NormMembers(ys)
  {
    hide Norm, NormMembers;
    if Covered(xs, ys) && Covered(ys, xs) {
      forall k | k in NormMembers(ys) ensures HasKey(xs, k) {
        NormKeys(ys, k);
        var i :| 0 <= i < |ys| && ys[i].key == k;
        NormKeys(xs, k);
      }
      NormIs(xs, NormMembers(ys));
    }
    if NormMembers(xs) == NormMembers(ys) {
      forall i | 0 <= i < |xs| ensures xs[i].key in NormMembers(ys) && NormMembers(ys)[xs[i].key] == Norm(xs[i].item) {
        NormAt(xs, i);
      }
      forall i | 0 <= i < |ys| ensures ys[i].key in NormMembers(xs) && NormMembers(xs)[ys[i].key] == Norm(ys[i].item) {
        NormAt(ys, i);
      }
    }
  }

  // ----- compare_json -----

  lemma SortedNesting(xs: seq<Keyed<Json>>, caseSensitive: bool, i: nat)
    requires i < |xs|
    ensures Nesting(Sort(xs, caseSensitive)[i].item) <= MembersNesting(xs)
  {
    SortIsSort(xs, caseSensitive);
    InBoth(xs, Sort(xs, caseSensitive), Sort(xs, caseSensitive)[i]);
    var k :| 0 <= k < |xs| && xs[k] == Sort(xs, caseSensitive)[i];
    MemberNesting(xs, k);
  }

  /** `compare_json`: both objects are sorted, then walked side by side. */
  function CompareSorted(a: Json, b: Json, caseSensitive: bool): bool
    decreases Nesting(a)
  {
    match (a, b)
    case (Array(xs), Array(ys)) =>
      |xs| == |ys| && forall i | 0 <= i < |xs| :: ItemNesting(xs, i); CompareSorted(xs[i], ys[i], caseSensitive)
    case (Object(xs), Object(ys)) =>
      var sx, sy := Sort(xs, caseSensitive), Sort(ys, caseSensitive);
      && |xs| == |ys|
      && (forall i | 0 <= i < |xs| ::
            SortedNesting(xs, caseSensitive, i);
            CompareStrings(sx[i].key, sy[i].key, caseSensitive) == 0 && CompareSorted(sx[i].item, sy[i].item, caseSensitive))
    case _ => a == b
  }

  lemma SortedDistinct(xs: seq<Keyed<Json>>, caseSensitive: bool)
    requires Distinct(Object(xs))
    ensures Distinct(Object(Sort(xs, caseSensitive)))
  {
    SortSame(xs, caseSensitive);
    SortIsSort(xs, caseSensitive);
    var sx := Sort(xs, caseSensitive);
    forall i | 0 <= i < |sx| ensures Distinct(sx[i].item) {
      InBoth(xs, sx, sx[i]);
      var k :| 0 <= k < |xs| && xs[k] == sx[i];
    }
  }

  predicate Strictly<T>(s: seq<Keyed<T>>) {
    forall i, k :: 0 <= i < k < |s| ==> StrCmp(s[i].key, s[k].key) < 0
  }

  /** The same in the order that the case flag gives. */
  predicate StrictlyBy<T>(s: seq<Keyed<T>>, caseSensitive: bool) {
    forall i, k :: 0 <= i < k < |s| ==> CompareStrings(s[i].key, s[k].key, caseSensitive) < 0
  }

  /** Two strictly sorted lists with the same keys have them in the same places. */
  lemma {:induction false} SortedKeysAgree<T>(sx: seq<Keyed<T>>, sy: seq<Keyed<T>>, caseSensitive: bool)
    requires StrictlyBy(sx, caseSensitive) && StrictlyBy(sy, caseSensitive)
    requires forall i :: 0 <= i < |sx| ==> HasKey(sy, sx[i].key)
    requires forall i :: 0 <= i < |sy| ==> HasKey(sx, sy[i].key)
    ensures |sx| == |sy| && forall i :: 0 <= i < |sx| ==> sx[i].key == sy[i].key
    decreases |sx|
  {
    hide CompareStrings;
    assert sy != [] ==> HasKey(sx, sy[0].key);
    if sx != [] {
      assert HasKey(sy, sx[0].key);
      HeadsAgree(sx, sy, caseSensitive);
      TailKeys(sx, sy, caseSensitive);
      TailKeys(sy, sx, caseSensitive);
      SortedKeysAgree(sx[1..], sy[1..], caseSensitive);
      forall i | 0 < i < |sx| ensures sx[i].key == sy[i].key {
        assert sx[1..][i - 1].key == sy[1..][i - 1].key;
      }
    }
  }

  lemma HeadsAgree<T>(sx: seq<Keyed<T>>, sy: seq<Keyed<T>>, caseSensitive: bool)
    requires StrictlyBy(sx, caseSensitive) && StrictlyBy(sy, caseSensitive) && sx != [] && sy != []
    requires HasKey(sy, sx[0].key) && HasKey(sx, sy[0].key)
    ensures sx[0].key == sy[0].key
  {
    hide CompareStrings;
    var i :| 0 <= i < |sy| && sy[i].key == sx[0].key;
    var k :| 0 <= k < |sx| && sx[k].key == sy[0].key;
    if i > 0 && k > 0 {
      CompareFlips(sx[0].key, sy[0].key, caseSensitive);
    }
  }

  lemma TailKeys<T>(sx: seq<Keyed<T>>, sy: seq<Keyed<T>>, caseSensitive: bool)
    requires StrictlyBy(sx, caseSensitive) && StrictlyBy(sy, caseSensitive) && sx != [] && sy != [] && sx[0].key == sy[0].key
    requires forall i :: 0 <= i < |sx| ==> HasKey(sy, sx[i].key)
    ensures forall i :: 0 <= i < |sx[1..]| ==> HasKey(sy[1..], sx[1..][i].key)
  {
    hide CompareStrings;
    forall i | 0 <= i < |sx[1..]| ensures HasKey(sy[1..], sx[1..][i].key) {
      assert HasKey(sy, sx[i + 1].key);
      var k :| 0 <= k < |sy| && sy[k].key == sx[i + 1].key;
      CompareFlips(sx[0].key, sx[0].key, caseSensitive);
      assert k != 0;
      assert sy[1..][k - 1].key == sx[i + 1].key;
    }
  }

  /** A key below the first key of a strictly sorted list is not in the list. */
  lemma SmallestKey(key: CString, xs: seq<Keyed<Json>>)
    requires Strictly(xs) && (xs != [] ==> StrCmp(key, xs[0].key) < 0)
    ensures key !in NormMembers(xs)
  {
    hide NormMembers;
    NormKeys(xs, key);
    if HasKey(xs, key) {
      var i :| 0 <= i < |xs| && xs[i].key == key;
      StrCmpAntisymmetric(key, xs[0].key);
      StrCmpZero(key, key);
    }
  }

  /** A strictly sorted list and its tail as maps. */
  lemma TailAsMap(xs: seq<Keyed<Json>>)
    requires Strictly(xs) && xs != []
    ensures Strictly(xs[1..]) && xs[0].key !in NormMembers(xs[1..])
    ensures NormMembers(xs) == NormMembers(xs[1..])[xs[0].key := Norm(xs[0].item)]
  {
    hide Norm;
    SmallestKey(xs[0].key, xs[1..]);
  }

  /** No two of the keys agree ignoring case. */
  predicate LooselyApart(keys: set<CString>) {
    forall k, l :: k in keys && l in keys && LowerAll(k) == LowerAll(l) ==> k == l
  }

  /** In no two objects that are compared do different keys agree ignoring case. */
  predicate Comparable(a: Canon, b: Canon)
    decreases a
  {
    match (a, b)
    case (Dict(xs), Dict(ys)) => LooselyApart(xs.Keys + ys.Keys) && forall k :: k in xs && k in ys ==> Comparable(xs[k], ys[k])
    case (List(xs), List(ys)) => forall i :: 0 <= i < |xs| && i < |ys| ==> Comparable(xs[i], ys[i])
    case _ => true
  }

  /** On trees without repeated keys, `compare_json` is equality up to member order; with the case flag off, as long as
      no different keys agree ignoring case. */
  lemma {:induction false} CompareSortedIsSame(a: Json, b: Json, caseSensitive: bool)
    requires Distinct(a) && Distinct(b) && (caseSensitive || Comparable(Norm(a), Norm(b)))
    ensures CompareSorted(a, b, caseSensitive) <==> Same(a, b)
    decreases Nesting(a), 1
  {
    hide NormMembers;
    match (a, b) {
      case (Array(xs), Array(ys)) =>
        CompareSortedItems(xs, ys, caseSensitive);
      case (Object(xs), Object(ys)) =>
        CompareSortedMembers(xs, ys, caseSensitive);
      case _ =>
        LeavesSame(a, b);
    }
  }

  lemma LeavesSame(a: Json, b: Json)
    requires !(a.Array? && b.Array?) && !(a.Object? && b.Object?)
    ensures Same(a, b) <==> a == b
  {
  }

  lemma {:induction false} CompareSortedItems(xs: seq<Json>, ys: seq<Json>, caseSensitive: bool)
    requires Distinct(Array(xs)) && Distinct(Array(ys)) && (caseSensitive || Comparable(Norm(Array(xs)), Norm(Array(ys))))
    ensures CompareSorted(Array(xs), Array(ys), caseSensitive) <==> Same(Array(xs), Array(ys))
    decreases Nesting(Array(xs)), 0
  {
    hide Norm, Sort, CompareStrings, Comparable;
    if |xs| == |ys| {
      forall i | 0 <= i < |xs| ensures CompareSorted(xs[i], ys[i], caseSensitive) <==> Norm(xs[i]) == Norm(ys[i]) {
        ItemNesting(xs, i);
        ComparableItem(xs, ys, i, caseSensitive);
        CompareSortedIsSame(xs[i], ys[i], caseSensitive);
      }
      ItemsSame(xs, ys);
    } else {
      DifferentLengths(xs, ys);
    }
  }

  lemma ComparableItem(xs: seq<Json>, ys: seq<Json>, i: nat, caseSensitive: bool)
    requires i < |xs| && i < |ys| && (caseSensitive || Comparable(Norm(Array(xs)), Norm(Array(ys))))
    ensures caseSensitive || Comparable(Norm(xs[i]), Norm(ys[i]))
  {
    assert Norm(Array(xs)).items[i] == Norm(xs[i]) && Norm(Array(ys)).items[i] == Norm(ys[i]);
  }

  lemma NormOfObject(xs: seq<Keyed<Json>>)
    ensures Norm(Object(xs)) == Dict(NormMembers(xs))
  {
  }

  lemma ComparableAt(a: map<CString, Canon>, b: map<CString, Canon>, key: CString)
    requires Comparable(Dict(a), Dict(b)) && key in a && key in b
    ensures Comparable(a[key], b[key])
  {
  }

  lemma ComparableMembers(xs: seq<Keyed<Json>>, ys: seq<Keyed<Json>>)
    requires Comparable(Norm(Object(xs)), Norm(Object(ys))) && DistinctKeys(xs) && DistinctKeys(ys)
    ensures LooselyApart(NormMembers(xs).Keys + NormMembers(ys).Keys)
    ensures forall i, k :: 0 <= i < |xs| && 0 <= k < |ys| && xs[i].key == ys[k].key ==> Comparable(Norm(xs[i].item), Norm(ys[k].item))
  {
    hide NormMembers, Norm, LooselyApart;
    NormOfObject(xs);
    NormOfObject(ys);
    assert LooselyApart(NormMembers(xs).Keys + NormMembers(ys).Keys);
    hide Comparable;
    forall i, k | 0 <= i < |xs| && 0 <= k < |ys| && xs[i].key == ys[k].key ensures Comparable(Norm(xs[i].item), Norm(ys[k].item)) {
      NormAt(xs, i);
      NormAt(ys, k);
      ComparableAt(NormMembers(xs), NormMembers(ys), xs[i].key);
    }
  }

  lemma DifferentLengths(xs: seq<Json>, ys: seq<Json>)
    requires |xs| != |ys|
    ensures !Same(Array(xs), Array(ys))
  {
    assert |Norm(Array(xs)).items| != |Norm(Array(ys)).items|;
  }

  lemma {:induction false} CompareSortedMembers(xs: seq<Keyed<Json>>, ys: seq<Keyed<Json>>, caseSensitive: bool)
    requires Distinct(Object(xs)) && Distinct(Object(ys)) && (caseSensitive || Comparable(Norm(Object(xs)), Norm(Object(ys))))
    ensures CompareSorted(Object(xs), Object(ys), caseSensitive) <==> Same(Object(xs), Object(ys))
    decreases Nesting(Object(xs)), 0
  {
    hide NormMembers, Sort, Distinct, Comparable, CompareStrings, LooselyApart, StrictlyBy;
    var sx, sy := Sort(xs, caseSensitive), Sort(ys, caseSensitive);
    SortedStarts(xs, ys, caseSensitive);
    forall i | 0 <= i < |sx| && i < |sy|
      ensures sx[i].key == sy[i].key ==> (CompareSorted(sx[i].item, sy[i].item, caseSensitive) <==> Norm(sx[i].item) == Norm(sy[i].item))
      ensures CompareStrings(sx[i].key, sy[i].key, caseSensitive) == 0 <==> sx[i].key == sy[i].key
    {
      SortedNesting(xs, caseSensitive, i);
      if sx[i].key == sy[i].key {
        CompareSortedIsSame(sx[i].item, sy[i].item, caseSensitive);
      }
      KeysMeet(xs, ys, caseSensitive, i);
    }
    PairwiseSame(sx, sy, caseSensitive);
  }

  /** Both lists, sorted: what the walk over them relies on. */
  lemma SortedStarts(xs: seq<Keyed<Json>>, ys: seq<Keyed<Json>>, caseSensitive: bool)
    requires Distinct(Object(xs)) && Distinct(Object(ys)) && (caseSensitive || Comparable(Norm(Object(xs)), Norm(Object(ys))))
    ensures var sx, sy := Sort(xs, caseSensitive), Sort(ys, caseSensitive);
      && DistinctKeys(sx) && DistinctKeys(sy) && StrictlyBy(sx, caseSensitive) && StrictlyBy(sy, caseSensitive)
      && NormMembers(sx) == NormMembers(xs) && NormMembers(sy) == NormMembers(ys)
      && (forall i :: 0 <= i < |sx| ==> Distinct(sx[i].item)) && (forall i :: 0 <= i < |sy| ==> Distinct(sy[i].item))
      && (caseSensitive || LooselyApart(NormMembers(sx).Keys + NormMembers(sy).Keys))
      && (forall i, k :: 0 <= i < |sx| && 0 <= k < |sy| && sx[i].key == sy[k].key ==> caseSensitive || Comparable(Norm(sx[i].item), Norm(sy[k].item)))
  {
    hide NormMembers, Sort, Comparable, CompareStrings, LooselyApart, StrictlyBy, Norm, Distinct;
    var sx, sy := Sort(xs, caseSensitive), Sort(ys, caseSensitive);
    SortedDistinct(xs, caseSensitive);
    SortedDistinct(ys, caseSensitive);
    DistinctObject(sx);
    DistinctObject(sy);
    DistinctObject(xs);
    DistinctObject(ys);
    SortSame(xs, caseSensitive);
    SortSame(ys, caseSensitive);
    if !caseSensitive {
      NormOfObjects(xs, ys, sx, sy);
      ComparableMembers(sx, sy);
    }
    SortedByFlag(xs, caseSensitive, NormMembers(sx).Keys + NormMembers(sy).Keys);
    SortedByFlag(ys, caseSensitive, NormMembers(sx).Keys + NormMembers(sy).Keys);
  }

  lemma NormOfObjects(xs: seq<Keyed<Json>>, ys: seq<Keyed<Json>>, sx: seq<Keyed<Json>>, sy: seq<Keyed<Json>>)
    requires NormMembers(sx) == NormMembers(xs) && NormMembers(sy) == NormMembers(ys)
    ensures Norm(Object(sx)) == Norm(Object(xs)) && Norm(Object(sy)) == Norm(Object(ys))
  {
  }

  lemma SortedByFlag(xs: seq<Keyed<Json>>, caseSensitive: bool, keys: set<CString>)
    requires DistinctKeys(xs) && NormMembers(xs).Keys <= keys && (caseSensitive || LooselyApart(keys))
    ensures StrictlyBy(Sort(xs, caseSensitive), caseSensitive)
  {
    hide NormMembers, Sort;
    var sx := Sort(xs, caseSensitive);
    SortIsSort(xs, caseSensitive);
    SortSame(xs, caseSensitive);
    forall i, k | 0 <= i < k < |sx| ensures CompareStrings(sx[i].key, sx[k].key, caseSensitive) < 0 {
      assert MergeSort.Compare(sx[i], sx[k], caseSensitive) <= 0;
      NormAt(sx, i);
      NormAt(sx, k);
      StrCmpZero(sx[i].key, sx[k].key);
      StrCmpZero(LowerAll(sx[i].key), LowerAll(sx[k].key));
    }
  }

  lemma KeysMeet(xs: seq<Keyed<Json>>, ys: seq<Keyed<Json>>, caseSensitive: bool, i: nat)
    requires var sx, sy := Sort(xs, caseSensitive), Sort(ys, caseSensitive);
      && i < |xs| && i < |ys| && DistinctKeys(sx) && DistinctKeys(sy)
      && (caseSensitive || LooselyApart(NormMembers(sx).Keys + NormMembers(sy).Keys))
    ensures var sx, sy := Sort(xs, caseSensitive), Sort(ys, caseSensitive);
      CompareStrings(sx[i].key, sy[i].key, caseSensitive) == 0 <==> sx[i].key == sy[i].key
  {
    hide NormMembers, Sort;
    var sx, sy := Sort(xs, caseSensitive), Sort(ys, caseSensitive);
    NormAt(sx, i);
    NormAt(sy, i);
    StrCmpZero(sx[i].key, sy[i].key);
    StrCmpZero(LowerAll(sx[i].key), LowerAll(sy[i].key));
  }

  lemma SortedMember(xs: seq<Keyed<Json>>, i: nat)
    requires Distinct(Object(xs)) && i < |xs|
    ensures Distinct(Sort(xs, true)[i].item) && Nesting(Sort(xs, true)[i].item) < Nesting(Object(xs))
  {
    SortedDistinct(xs, true);
    SortedNesting(xs, true, i);
  }

  lemma SortedMembers(xs: seq<Keyed<Json>>)
    requires Distinct(Object(xs))
    ensures DistinctKeys(Sort(xs, true)) && Strictly(Sort(xs, true)) && NormMembers(Sort(xs, true)) == NormMembers(xs)
  {
    SortSame(xs, true);
    SortedStrictly(xs);
  }

  lemma ItemsSame(xs: seq<Json>, ys: seq<Json>)
    requires |xs| == |ys|
    ensures Same(Array(xs), Array(ys)) <==> forall i :: 0 <= i < |xs| ==> Norm(xs[i]) == Norm(ys[i])
  {
    var nx, ny := Norm(Array(xs)).items, Norm(Array(ys)).items;
    assert forall i :: 0 <= i < |xs| ==> nx[i] == Norm(xs[i]) && ny[i] == Norm(ys[i]);
    if nx == ny {
      assert forall i :: 0 <= i < |xs| ==> Norm(xs[i]) == nx[i] == ny[i] == Norm(ys[i]);
    }
  }

  lemma PairwiseSame(sx: seq<Keyed<Json>>, sy: seq<Keyed<Json>>, caseSensitive: bool)
    requires DistinctKeys(sx) && DistinctKeys(sy) && StrictlyBy(sx, caseSensitive) && StrictlyBy(sy, caseSensitive)
    ensures NormMembers(sx) == NormMembers(sy) <==>
      |sx| == |sy| && forall i :: 0 <= i < |sx| ==> sx[i].key == sy[i].key && Norm(sx[i].item) == Norm(sy[i].item)
  {
    hide Norm, NormMembers, StrictlyBy;
    CoveredBothWays(sx, sy);
    if NormMembers(sx) == NormMembers(sy) {
      forall i | 0 <= i < |sx| ensures HasKey(sy, sx[i].key) {
        NormKeys(sy, sx[i].key);
      }
      forall i | 0 <= i < |sy| ensures HasKey(sx, sy[i].key) {
        NormKeys(sx, sy[i].key);
      }
      SortedKeysAgree(sx, sy, caseSensitive);
      forall i | 0 <= i < |sx| ensures Norm(sx[i].item) == Norm(sy[i].item) {
        NormAt(sx, i);
        NormAt(sy, i);
      }
    } else if |sx| == |sy| && forall i :: 0 <= i < |sx| ==> sx[i].key == sy[i].key && Norm(sx[i].item) == Norm(sy[i].item) {
      forall i | 0 <= i < |sx| ensures sx[i].key in NormMembers(sy) && NormMembers(sy)[sx[i].key] == Norm(sx[i].item) {
        NormAt(sy, i);
      }
      forall k | k in NormMembers(sy) ensures HasKey(sx, k) {
        NormKeys(sy, k);
        var i :| 0 <= i < |sy| && sy[i].key == k;
        assert sx[i].key == k;
      }
      NormIs(sx, NormMembers(sy));
    }
  }

  /** The two equality tests give the same answer. */
  lemma EqualityTestsAgree(a: Json, b: Json)
    requires Distinct(a) && Distinct(b)
    ensures CompareTrees(a, b, true) == CompareSorted(a, b, true) == Same(a, b)
  {
    CompareIsSame(a, b);
    CompareSortedIsSame(a, b, true);
  }
}
