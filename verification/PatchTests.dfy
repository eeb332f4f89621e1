/** What a `test` compares: with either case flag, both equality tests say whether two trees are alike. */
module PatchTests {
  import opened Bytes
  import opened Json
  import opened MergeSort
  import opened Canon
  import opened Compare
  import opened CompareLoosely
  import opened PatchMeaning

  lemma FoldedSame(a: CString, b: CString, caseSensitive: bool)
    ensures CompareStrings(a, b, caseSensitive) == 0 <==> Folded(a, caseSensitive) == Folded(b, caseSensitive)
  {
    StrCmpZero(Folded(a, caseSensitive), Folded(b, caseSensitive));
  }

  /** The members of an object, for whose keys the flag is enough to tell them apart. */
  predicate MembersApart(members: seq<Keyed<Json>>, caseSensitive: bool) {
    forall i, k | 0 <= i < |members| && 0 <= k < |members| ::
      Folded(members[i].key, caseSensitive) == Folded(members[k].key, caseSensitive) ==> i == k
  }

  lemma ApartMembers(members: seq<Keyed<Json>>, caseSensitive: bool)
    requires Distinct(Object(members)) && KeysApart(Norm(Object(members)), caseSensitive)
    ensures MembersApart(members, caseSensitive)
    ensures forall i :: 0 <= i < |members| ==> Distinct(members[i].item) && KeysApart(Norm(members[i].item), caseSensitive)
    ensures forall i :: 0 <= i < |members| ==> members[i].key in NormMembers(members) && NormMembers(members)[members[i].key] == Norm(members[i].item)
  {
    hide NormMembers, Folded;
    forall i | 0 <= i < |members| ensures members[i].key in NormMembers(members) && NormMembers(members)[members[i].key] == Norm(members[i].item) {
      NormAt(members, i);
    }
  }

  lemma ApartItems(items: seq<Json>, caseSensitive: bool)
    requires Distinct(Array(items)) && KeysApart(Norm(Array(items)), caseSensitive)
    ensures forall i :: 0 <= i < |items| ==> Distinct(items[i]) && KeysApart(Norm(items[i]), caseSensitive)
  {
    forall i | 0 <= i < |items| ensures Distinct(items[i]) && KeysApart(Norm(items[i]), caseSensitive) {
      assert Norm(Array(items)).items[i] == Norm(items[i]);
    }
  }

  /** With the flag on, trees that repeat no key are always of this kind. */
  lemma {:induction false} AlwaysApart(c: Canon)
    ensures KeysApart(c, true)
    decreases c
  {
    match c {
      case List(items) =>
        forall i | 0 <= i < |items| ensures KeysApart(items[i], true) {
          AlwaysApart(items[i]);
        }
      case Dict(members) =>
        forall k | k in members ensures KeysApart(members[k], true) {
          AlwaysApart(members[k]);
        }
      case _ =>
    }
  }

  lemma {:induction false} LoweredDistinct(j: Json)
    requires Distinct(j) && KeysApart(Norm(j), false)
    ensures Distinct(Lowered(j))
    decreases j
  {
    hide Norm;
    match j {
      case Array(items) =>
        ApartItems(items, false);
        forall i | 0 <= i < |items| ensures Distinct(Lowered(items[i])) {
          LoweredDistinct(items[i]);
        }
      case Object(members) =>
        ApartMembers(members, false);
        forall i | 0 <= i < |members| ensures Distinct(Lowered(members[i].item)) {
          LoweredDistinct(members[i].item);
        }
      case _ =>
    }
  }

  lemma {:induction false} AlikeSymmetric(a: Canon, b: Canon, caseSensitive: bool)
    ensures Alike(a, b, caseSensitive) == Alike(b, a, caseSensitive)
    decreases a
  {
    match (a, b) {
      case (List(xs), List(ys)) =>
        if |xs| == |ys| {
          forall i | 0 <= i < |xs| ensures Alike(xs[i], ys[i], caseSensitive) == Alike(ys[i], xs[i], caseSensitive) {
            AlikeSymmetric(xs[i], ys[i], caseSensitive);
          }
        }
      case (Dict(xs), Dict(ys)) =>
        forall k, l | k in xs && l in ys ensures Alike(xs[k], ys[l], caseSensitive) == Alike(ys[l], xs[k], caseSensitive) {
          AlikeSymmetric(xs[k], ys[l], caseSensitive);
        }
      case _ =>
    }
  }

  // ----- the test by lookup -----

  /** Each key of one object is one of the other, with a value alike. */
  ghost predicate Covers(xs: map<CString, Canon>, ys: map<CString, Canon>, caseSensitive: bool) {
    && FoldedKeys(xs, caseSensitive) <= FoldedKeys(ys, caseSensitive)
    && forall k, l | k in xs && l in ys && Folded(k, caseSensitive) == Folded(l, caseSensitive) :: Alike(xs[k], ys[l], caseSensitive)
  }

  lemma {:induction false} TreesAlike(a: Json, b: Json, caseSensitive: bool)
    requires Distinct(a) && Distinct(b) && KeysApart(Norm(a), caseSensitive) && KeysApart(Norm(b), caseSensitive)
    ensures CompareTrees(a, b, caseSensitive) <==> Alike(Norm(a), Norm(b), caseSensitive)
    decreases Nesting(a) + Nesting(b), 1
  {
    match (a, b) {
      case (Array(xs), Array(ys)) =>
        ItemsAlike(xs, ys, caseSensitive);
      case (Object(xs), Object(ys)) =>
        MembersAlike(xs, ys, caseSensitive);
        MembersAlike(ys, xs, caseSensitive);
        ObjectsCompare(xs, ys, caseSensitive);
        ObjectsAlike(NormMembers(xs), NormMembers(ys), caseSensitive);
      case _ =>
    }
  }

  lemma ObjectsAlike(xs: map<CString, Canon>, ys: map<CString, Canon>, caseSensitive: bool)
    ensures Alike(Dict(xs), Dict(ys), caseSensitive) <==> Covers(xs, ys, caseSensitive) && Covers(ys, xs, caseSensitive)
  {
    hide Folded;
    forall k, l | k in xs && l in ys ensures Alike(xs[k], ys[l], caseSensitive) == Alike(ys[l], xs[k], caseSensitive) {
      AlikeSymmetric(xs[k], ys[l], caseSensitive);
    }
  }

  lemma {:induction false} ItemsAlike(xs: seq<Json>, ys: seq<Json>, caseSensitive: bool)
    requires Distinct(Array(xs)) && Distinct(Array(ys)) && KeysApart(Norm(Array(xs)), caseSensitive) && KeysApart(Norm(Array(ys)), caseSensitive)
    ensures CompareTrees(Array(xs), Array(ys), caseSensitive) <==> Alike(Norm(Array(xs)), Norm(Array(ys)), caseSensitive)
    decreases Nesting(Array(xs)) + Nesting(Array(ys)), 0
  {
    ApartItems(xs, caseSensitive);
    ApartItems(ys, caseSensitive);
    var cs, ds := Norm(Array(xs)).items, Norm(Array(ys)).items;
    assert |cs| == |xs| && |ds| == |ys|;
    if |xs| == |ys| {
      forall i | 0 <= i < |xs| ensures CompareTrees(xs[i], ys[i], caseSensitive) <==> Alike(cs[i], ds[i], caseSensitive) {
        ItemNesting(xs, i);
        ItemNesting(ys, i);
        TreesAlike(xs[i], ys[i], caseSensitive);
      }
    }
  }

  lemma {:induction false} MembersAlike(xs: seq<Keyed<Json>>, ys: seq<Keyed<Json>>, caseSensitive: bool)
    requires Distinct(Object(xs)) && Distinct(Object(ys)) && KeysApart(Norm(Object(xs)), caseSensitive) && KeysApart(Norm(Object(ys)), caseSensitive)
    ensures AllMatch(xs, ys, caseSensitive) <==> Covers(NormMembers(xs), NormMembers(ys), caseSensitive)
    decreases Nesting(Object(xs)) + Nesting(Object(ys)), 0
  {
    hide NormMembers, Norm, CompareTrees, FindKey, Folded, Alike, Distinct, KeysApart;
    ApartMembers(xs, caseSensitive);
    ApartMembers(ys, caseSensitive);
    if AllMatch(xs, ys, caseSensitive) {
      MatchesCover(xs, ys, caseSensitive);
    }
    if Covers(NormMembers(xs), NormMembers(ys), caseSensitive) {
      CoversMatch(xs, ys, caseSensitive);
    }
  }

  /** What looking the key of one member up finds: the one member with that key, to the flag. */
  lemma FindsOne(ys: seq<Keyed<Json>>, key: CString, caseSensitive: bool)
    requires MembersApart(ys, caseSensitive)
    ensures var k := FindKey(ys, key, caseSensitive);
      && (k < |ys| ==> Folded(ys[k].key, caseSensitive) == Folded(key, caseSensitive))
      && forall x :: 0 <= x < |ys| && Folded(ys[x].key, caseSensitive) == Folded(key, caseSensitive) ==> x == k
  {
    hide Folded;
    forall x | 0 <= x < |ys|
      ensures CompareStrings(ys[x].key, key, caseSensitive) == 0 <==> Folded(ys[x].key, caseSensitive) == Folded(key, caseSensitive)
    {
      FoldedSame(ys[x].key, key, caseSensitive);
    }
  }

  lemma MemberOf(xs: seq<Keyed<Json>>, key: CString) returns (i: nat)
    requires key in NormMembers(xs)
    ensures i < |xs| && xs[i].key == key
  {
    NormKeys(xs, key);
    i :| 0 <= i < |xs| && xs[i].key == key;
  }

  lemma {:induction false} MatchesCover(xs: seq<Keyed<Json>>, ys: seq<Keyed<Json>>, caseSensitive: bool)
    requires Distinct(Object(xs)) && Distinct(Object(ys)) && KeysApart(Norm(Object(xs)), caseSensitive) && KeysApart(Norm(Object(ys)), caseSensitive)
    requires AllMatch(xs, ys, caseSensitive)
    ensures Covers(NormMembers(xs), NormMembers(ys), caseSensitive)
    decreases Nesting(Object(xs)) + Nesting(Object(ys)), -1
  {
    hide NormMembers, Norm, CompareTrees, FindKey, Folded, Alike, Distinct, KeysApart;
    ApartMembers(xs, caseSensitive);
    ApartMembers(ys, caseSensitive);
    var m, n := NormMembers(xs), NormMembers(ys);
    forall k | k in m ensures Folded(k, caseSensitive) in FoldedKeys(n, caseSensitive) {
      var i := MemberOf(xs, k);
      FindsOne(ys, k, caseSensitive);
      assert ys[FindKey(ys, xs[i].key, caseSensitive)].key in n;
    }
    forall k, l | k in m && l in n && Folded(k, caseSensitive) == Folded(l, caseSensitive) ensures Alike(m[k], n[l], caseSensitive) {
      var i := MemberOf(xs, k);
      var x := MemberOf(ys, l);
      FindsOne(ys, k, caseSensitive);
      MemberNesting(xs, i);
      MemberNesting(ys, x);
      TreesAlike(xs[i].item, ys[x].item, caseSensitive);
    }
  }

  lemma {:induction false} CoversMatch(xs: seq<Keyed<Json>>, ys: seq<Keyed<Json>>, caseSensitive: bool)
    requires Distinct(Object(xs)) && Distinct(Object(ys)) && KeysApart(Norm(Object(xs)), caseSensitive) && KeysApart(Norm(Object(ys)), caseSensitive)
    requires Covers(NormMembers(xs), NormMembers(ys), caseSensitive)
    ensures AllMatch(xs, ys, caseSensitive)
    decreases Nesting(Object(xs)) + Nesting(Object(ys)), -1
  {
    hide NormMembers, Norm, CompareTrees, FindKey, Folded, Alike, Distinct, KeysApart;
    ApartMembers(xs, caseSensitive);
    ApartMembers(ys, caseSensitive);
    var m, n := NormMembers(xs), NormMembers(ys);
    forall i | 0 <= i < |xs|
      ensures FindKey(ys, xs[i].key, caseSensitive) < |ys| && CompareTrees(xs[i].item, ys[FindKey(ys, xs[i].key, caseSensitive)].item, caseSensitive)
    {
      var k := xs[i].key;
      assert Folded(k, caseSensitive) in FoldedKeys(m, caseSensitive);
      var l :| l in n && Folded(l, caseSensitive) == Folded(k, caseSensitive);
      var x := MemberOf(ys, l);
      FindsOne(ys, k, caseSensitive);
      MemberNesting(xs, i);
      MemberNesting(ys, x);
      TreesAlike(xs[i].item, ys[x].item, caseSensitive);
    }
  }

  /** Both tests, with either flag, are the same relation on the trees up to member order. */
  lemma TestsAlike(a: Json, b: Json, caseSensitive: bool)
    requires Distinct(a) && Distinct(b) && KeysApart(Norm(a), caseSensitive) && KeysApart(Norm(b), caseSensitive)
    ensures CompareTrees(a, b, caseSensitive) == CompareSorted(a, b, caseSensitive) == Alike(Norm(a), Norm(b), caseSensitive)
  {
    hide Norm, Alike, KeysApart, CompareTrees, CompareSorted;
    TreesAlike(a, b, caseSensitive);
    if caseSensitive {
      EqualityTestsAgree(a, b);
    } else {
      LoweredDistinct(a);
      LoweredDistinct(b);
      LooseTestsAgree(a, b);
    }
  }

  /** With the flag on, alike means the same. */
  lemma AlikeIsSame(a: Json, b: Json)
    requires Distinct(a) && Distinct(b)
    ensures Alike(Norm(a), Norm(b), true) <==> Same(a, b)
  {
    hide Norm, Alike, KeysApart, CompareTrees, CompareSorted;
    AlwaysApart(Norm(a));
    AlwaysApart(Norm(b));
    TestsAlike(a, b, true);
    EqualityTestsAgree(a, b);
  }
}
