/** What `compare_json` does to its two arguments: it sorts the objects it walks. */
module CompareWalk {
  import opened Bytes
  import opened Json
  import opened MergeSort
  import opened Canon
  import opened Compare

  lemma {:induction false} SameItemsNesting(xs: seq<Keyed<Json>>, bound: nat)
    requires forall i :: 0 <= i < |xs| ==> Nesting(xs[i].item) <= bound
    ensures MembersNesting(xs) <= bound
  {
    if xs != [] {
      SameItemsNesting(xs[1..], bound);
    }
  }

  lemma SortedMembersNesting(xs: seq<Keyed<Json>>, caseSensitive: bool)
    ensures MembersNesting(Sort(xs, caseSensitive)) <= MembersNesting(xs)
  {
    hide Sort, Nesting, MembersNesting;
    forall i | 0 <= i < |xs| ensures Nesting(Sort(xs, caseSensitive)[i].item) <= MembersNesting(xs) {
      SortedNesting(xs, caseSensitive, i);
    }
    SameItemsNesting(Sort(xs, caseSensitive), MembersNesting(xs));
  }

  /** What is left of the first argument. By symmetry, the second is left as `Left(b, a)`. */
  function Left(a: Json, b: Json, caseSensitive: bool): Json
    decreases Nesting(a), 0
  {
    match (a, b)
    case (Array(xs), Array(ys)) => Array(LeftItems(xs, ys, caseSensitive))
    case (Object(xs), Object(ys)) =>
      SortedMembersNesting(xs, caseSensitive);
      Object(LeftMembers(Sort(xs, caseSensitive), Sort(ys, caseSensitive), caseSensitive))
    case _ => a
  }

  /** The walk over elements stops behind the first pair that differs. */
  function LeftItems(xs: seq<Json>, ys: seq<Json>, caseSensitive: bool): (l: seq<Json>)
    ensures |l| == |xs|
    decreases ItemsNesting(xs), |xs|
  {
    if xs == [] || ys == [] then xs
    else
      [Left(xs[0], ys[0], caseSensitive)] +
      if CompareSorted(xs[0], ys[0], caseSensitive) then LeftItems(xs[1..], ys[1..], caseSensitive) else xs[1..]
  }

  /** The walk over sorted members also stops at the first pair of keys that differ. */
  function LeftMembers(sx: seq<Keyed<Json>>, sy: seq<Keyed<Json>>, caseSensitive: bool): (l: seq<Keyed<Json>>)
    ensures |l| == |sx|
    decreases MembersNesting(sx), |sx|
  {
    if sx == [] || sy == [] || MergeSort.Compare(sx[0], sy[0], caseSensitive) != 0 then sx
    else
      [Keyed(sx[0].key, Left(sx[0].item, sy[0].item, caseSensitive))] +
      if CompareSorted(sx[0].item, sy[0].item, caseSensitive) then LeftMembers(sx[1..], sy[1..], caseSensitive) else sx[1..]
  }

  /** Every object that is sorted on the way keeps its link from head to tail. A caller can tell before the call. */
  predicate StaysLinked(a: Json, b: Json, caseSensitive: bool)
    decreases Nesting(a), 0
  {
    match (a, b)
    case (Array(xs), Array(ys)) => ItemsStayLinked(xs, ys, caseSensitive)
    case (Object(xs), Object(ys)) =>
      SortedMembersNesting(xs, caseSensitive);
      EndsStay(xs, caseSensitive) && MembersStayLinked(Sort(xs, caseSensitive), Sort(ys, caseSensitive), caseSensitive)
    case _ => true
  }

  predicate ItemsStayLinked(xs: seq<Json>, ys: seq<Json>, caseSensitive: bool)
    decreases ItemsNesting(xs), |xs|
  {
    xs == [] || ys == []
    || (StaysLinked(xs[0], ys[0], caseSensitive)
        && (CompareSorted(xs[0], ys[0], caseSensitive) ==> ItemsStayLinked(xs[1..], ys[1..], caseSensitive)))
  }

  predicate MembersStayLinked(sx: seq<Keyed<Json>>, sy: seq<Keyed<Json>>, caseSensitive: bool)
    decreases MembersNesting(sx), |sx|
  {
    sx == [] || sy == [] || MergeSort.Compare(sx[0], sy[0], caseSensitive) != 0
    || (StaysLinked(sx[0].item, sy[0].item, caseSensitive)
        && (CompareSorted(sx[0].item, sy[0].item, caseSensitive) ==> MembersStayLinked(sx[1..], sy[1..], caseSensitive)))
  }

  // ----- the same tree up to member order -----

  lemma {:induction false} PointwiseSame(xs: seq<Keyed<Json>>, ys: seq<Keyed<Json>>)
    requires |xs| == |ys| && forall i :: 0 <= i < |xs| ==> xs[i].key == ys[i].key && Same(xs[i].item, ys[i].item)
    ensures NormMembers(xs) == NormMembers(ys)
  {
    hide Norm;
    if xs != [] {
      PointwiseSame(xs[1..], ys[1..]);
    }
  }

  /** Comparing leaves the same tree up to member order, and repeats no key. */
  lemma {:induction false} LeftSame(a: Json, b: Json, caseSensitive: bool)
    requires Distinct(a)
    ensures Same(Left(a, b, caseSensitive), a) && Distinct(Left(a, b, caseSensitive))
    decreases Nesting(a), 0
  {
    match (a, b) {
      case (Array(xs), Array(ys)) =>
        LeftItemsSame(xs, ys, caseSensitive);
        ItemsSame(LeftItems(xs, ys, caseSensitive), xs);
      case (Object(xs), Object(ys)) =>
        LeftObjectSame(xs, ys, caseSensitive);
      case _ =>
    }
  }

  lemma {:induction false} LeftObjectSame(xs: seq<Keyed<Json>>, ys: seq<Keyed<Json>>, caseSensitive: bool)
    requires Distinct(Object(xs))
    ensures Same(Left(Object(xs), Object(ys), caseSensitive), Object(xs)) && Distinct(Left(Object(xs), Object(ys), caseSensitive))
    decreases Nesting(Object(xs)), -1
  {
    hide Sort, LeftMembers, NormMembers, CompareSorted;
    var sx, sy := Sort(xs, caseSensitive), Sort(ys, caseSensitive);
    SortedMembersNesting(xs, caseSensitive);
    SortedDistinct(xs, caseSensitive);
    SortSame(xs, caseSensitive) by { DistinctObject(xs); }
    DistinctObject(sx);
    LeftMembersSame(sx, sy, caseSensitive);
    PointwiseSame(LeftMembers(sx, sy, caseSensitive), sx);
  }

  lemma {:induction false} LeftItemsSame(xs: seq<Json>, ys: seq<Json>, caseSensitive: bool)
    requires forall i :: 0 <= i < |xs| ==> Distinct(xs[i])
    ensures forall i :: 0 <= i < |xs| ==> Same(LeftItems(xs, ys, caseSensitive)[i], xs[i]) && Distinct(LeftItems(xs, ys, caseSensitive)[i])
    decreases ItemsNesting(xs), |xs|
  {
    hide Norm, Distinct, Left, CompareSorted;
    if xs != [] && ys != [] {
      LeftSame(xs[0], ys[0], caseSensitive);
      if CompareSorted(xs[0], ys[0], caseSensitive) {
        LeftItemsSame(xs[1..], ys[1..], caseSensitive);
      }
    }
  }

  lemma {:induction false} LeftMembersSame(sx: seq<Keyed<Json>>, sy: seq<Keyed<Json>>, caseSensitive: bool)
    requires forall i :: 0 <= i < |sx| ==> Distinct(sx[i].item)
    ensures forall i :: 0 <= i < |sx| ==>
      && LeftMembers(sx, sy, caseSensitive)[i].key == sx[i].key
      && Same(LeftMembers(sx, sy, caseSensitive)[i].item, sx[i].item) && Distinct(LeftMembers(sx, sy, caseSensitive)[i].item)
    decreases MembersNesting(sx), |sx|
  {
    hide Norm, Distinct, Left, CompareSorted, CompareStrings;
    if sx != [] && sy != [] && MergeSort.Compare(sx[0], sy[0], caseSensitive) == 0 {
      LeftSame(sx[0].item, sy[0].item, caseSensitive);
      if CompareSorted(sx[0].item, sy[0].item, caseSensitive) {
        LeftMembersSame(sx[1..], sy[1..], caseSensitive);
      }
    }
  }

  // ----- as deep as before -----

  /** Comparing makes no tree deeper. */
  lemma {:induction false} LeftNesting(a: Json, b: Json, caseSensitive: bool)
    ensures Nesting(Left(a, b, caseSensitive)) <= Nesting(a)
    decreases Nesting(a), 0
  {
    match (a, b) {
      case (Array(xs), Array(ys)) =>
        LeftItemsNesting(xs, ys, caseSensitive);
      case (Object(xs), Object(ys)) =>
        SortedMembersNesting(xs, caseSensitive);
        LeftMembersNesting(Sort(xs, caseSensitive), Sort(ys, caseSensitive), caseSensitive);
      case _ =>
    }
  }

  lemma {:induction false} LeftItemsNesting(xs: seq<Json>, ys: seq<Json>, caseSensitive: bool)
    ensures ItemsNesting(LeftItems(xs, ys, caseSensitive)) <= ItemsNesting(xs)
    decreases ItemsNesting(xs), |xs|
  {
    hide Left, CompareSorted;
    if xs != [] && ys != [] {
      LeftNesting(xs[0], ys[0], caseSensitive);
      var rest := if CompareSorted(xs[0], ys[0], caseSensitive) then LeftItems(xs[1..], ys[1..], caseSensitive) else xs[1..];
      LeftItemsNesting(xs[1..], ys[1..], caseSensitive);
      assert ([Left(xs[0], ys[0], caseSensitive)] + rest)[1..] == rest;
    }
  }

  lemma {:induction false} LeftMembersNesting(sx: seq<Keyed<Json>>, sy: seq<Keyed<Json>>, caseSensitive: bool)
    ensures MembersNesting(LeftMembers(sx, sy, caseSensitive)) <= MembersNesting(sx)
    decreases MembersNesting(sx), |sx|
  {
    hide Left, CompareSorted, MergeSort.Compare;
    if sx != [] && sy != [] && MergeSort.Compare(sx[0], sy[0], caseSensitive) == 0 {
      LeftNesting(sx[0].item, sy[0].item, caseSensitive);
      var rest := if CompareSorted(sx[0].item, sy[0].item, caseSensitive) then LeftMembers(sx[1..], sy[1..], caseSensitive) else sx[1..];
      LeftMembersNesting(sx[1..], sy[1..], caseSensitive);
      assert ([Keyed(sx[0].key, Left(sx[0].item, sy[0].item, caseSensitive))] + rest)[1..] == rest;
    }
  }

  /** What could be duplicated before still can be. */
  lemma {:induction false} LeftCopyable(a: Json, b: Json, caseSensitive: bool, depth: nat)
    requires Copyable(a, depth)
    ensures Copyable(Left(a, b, caseSensitive), depth)
    decreases Nesting(a), 0
  {
    match (a, b) {
      case (Array(xs), Array(ys)) =>
        LeftItemsCopyable(xs, ys, caseSensitive, depth + 1);
      case (Object(xs), Object(ys)) =>
        LeftObjectCopyable(xs, ys, caseSensitive, depth);
      case _ =>
    }
  }

  lemma {:induction false} LeftObjectCopyable(xs: seq<Keyed<Json>>, ys: seq<Keyed<Json>>, caseSensitive: bool, depth: nat)
    requires Copyable(Object(xs), depth)
    ensures Copyable(Left(Object(xs), Object(ys), caseSensitive), depth)
    decreases Nesting(Object(xs)), -1
  {
    hide Sort, LeftMembers, CompareSorted;
    var sx := Sort(xs, caseSensitive);
    SortedMembersNesting(xs, caseSensitive);
    SortIsSort(xs, caseSensitive);
    forall i | 0 <= i < |sx| ensures Copyable(sx[i].item, depth + 1) {
      InBoth(xs, sx, sx[i]);
    }
    LeftMembersCopyable(sx, Sort(ys, caseSensitive), caseSensitive, depth + 1);
  }

  lemma {:induction false} LeftItemsCopyable(xs: seq<Json>, ys: seq<Json>, caseSensitive: bool, depth: nat)
    requires forall i :: 0 <= i < |xs| ==> Copyable(xs[i], depth)
    ensures forall i :: 0 <= i < |xs| ==> Copyable(LeftItems(xs, ys, caseSensitive)[i], depth)
    decreases ItemsNesting(xs), |xs|
  {
    hide Copyable, Left, CompareSorted;
    if xs != [] && ys != [] {
      LeftCopyable(xs[0], ys[0], caseSensitive, depth);
      if CompareSorted(xs[0], ys[0], caseSensitive) {
        LeftItemsCopyable(xs[1..], ys[1..], caseSensitive, depth);
      }
    }
  }

  lemma {:induction false} LeftMembersCopyable(sx: seq<Keyed<Json>>, sy: seq<Keyed<Json>>, caseSensitive: bool, depth: nat)
    requires forall i :: 0 <= i < |sx| ==> Copyable(sx[i].item, depth)
    ensures forall i :: 0 <= i < |sx| ==> Copyable(LeftMembers(sx, sy, caseSensitive)[i].item, depth)
    decreases MembersNesting(sx), |sx|
  {
    hide Copyable, Left, CompareSorted, CompareStrings;
    if sx != [] && sy != [] && MergeSort.Compare(sx[0], sy[0], caseSensitive) == 0 {
      LeftCopyable(sx[0].item, sy[0].item, caseSensitive, depth);
      if CompareSorted(sx[0].item, sy[0].item, caseSensitive) {
        LeftMembersCopyable(sx[1..], sy[1..], caseSensitive, depth);
      }
    }
  }

  // ----- the walk itself -----

  /** The answer does not depend on the order of the arguments. */
  lemma {:induction false} CompareSortedSymmetric(a: Json, b: Json, caseSensitive: bool)
    ensures CompareSorted(a, b, caseSensitive) == CompareSorted(b, a, caseSensitive)
    decreases Nesting(a)
  {
    hide Sort, CompareStrings;
    match (a, b) {
      case (Array(xs), Array(ys)) =>
        forall i | 0 <= i < |xs| && i < |ys| ensures CompareSorted(xs[i], ys[i], caseSensitive) == CompareSorted(ys[i], xs[i], caseSensitive) {
          ItemNesting(xs, i);
          CompareSortedSymmetric(xs[i], ys[i], caseSensitive);
        }
      case (Object(xs), Object(ys)) =>
        var sx, sy := Sort(xs, caseSensitive), Sort(ys, caseSensitive);
        forall i | 0 <= i < |sx| && i < |sy|
          ensures CompareSorted(sx[i].item, sy[i].item, caseSensitive) == CompareSorted(sy[i].item, sx[i].item, caseSensitive)
          ensures CompareStrings(sx[i].key, sy[i].key, caseSensitive) == -CompareStrings(sy[i].key, sx[i].key, caseSensitive)
        {
          SortedNesting(xs, caseSensitive, i);
          CompareSortedSymmetric(sx[i].item, sy[i].item, caseSensitive);
          CompareFlips(sx[i].key, sy[i].key, caseSensitive);
        }
      case _ =>
    }
  }

  /** `compare_json` as it walks the two trees, with what it leaves of them. */
  method CCompareSorted(a: Json, b: Json, caseSensitive: bool) returns (equal: bool, left: Json, right: Json)
    ensures equal == CompareSorted(a, b, caseSensitive)
    ensures left == Left(a, b, caseSensitive) && right == Left(b, a, caseSensitive)
    decreases Nesting(a), 1
  {
    hide Sort;
    match (a, b) {
      case (Array(xs), Array(ys)) =>
        var ls, rs;
        equal, ls, rs := CCompareSortedItems(xs, ys, caseSensitive);
        left, right := Array(ls), Array(rs);
      case (Object(xs), Object(ys)) =>
        var ls, rs;
        equal, ls, rs := CCompareSortedMembers(xs, ys, caseSensitive);
        left, right := Object(ls), Object(rs);
      case _ =>
        return a == b, a, b;
    }
  }

  /** The first `i` elements have been walked and are left as `ls`. */
  ghost predicate ItemsLeft(xs: seq<Json>, ys: seq<Json>, caseSensitive: bool, i: nat, ls: seq<Json>)
    requires i <= |xs| && i <= |ys|
  {
    |ls| == i && LeftItems(xs, ys, caseSensitive) == ls + LeftItems(xs[i..], ys[i..], caseSensitive)
  }

  lemma ItemsLeftStart(xs: seq<Json>, ys: seq<Json>, caseSensitive: bool)
    ensures ItemsLeft(xs, ys, caseSensitive, 0, [])
  {
    hide LeftItems;
    assert xs[0..] == xs && ys[0..] == ys;
  }

  lemma LeftItemsUnfolds(xs: seq<Json>, ys: seq<Json>, caseSensitive: bool)
    requires xs != [] && ys != []
    ensures LeftItems(xs, ys, caseSensitive) == [Left(xs[0], ys[0], caseSensitive)] +
              if CompareSorted(xs[0], ys[0], caseSensitive) then LeftItems(xs[1..], ys[1..], caseSensitive) else xs[1..]
  {
    hide Left, CompareSorted;
  }

  lemma ItemsLeftStep(xs: seq<Json>, ys: seq<Json>, caseSensitive: bool, i: nat, ls: seq<Json>, l: Json)
    requires i < |xs| && i < |ys| && ItemsLeft(xs, ys, caseSensitive, i, ls) && l == Left(xs[i], ys[i], caseSensitive)
    ensures CompareSorted(xs[i], ys[i], caseSensitive) ==> ItemsLeft(xs, ys, caseSensitive, i + 1, ls + [l])
    ensures !CompareSorted(xs[i], ys[i], caseSensitive) ==> LeftItems(xs, ys, caseSensitive) == ls + [l] + xs[i + 1..]
  {
    hide Left, CompareSorted, LeftItems;
    LeftItemsUnfolds(xs[i..], ys[i..], caseSensitive);
    assert xs[i..][1..] == xs[i + 1..] && ys[i..][1..] == ys[i + 1..];
  }

  lemma ItemsLeftEnd(xs: seq<Json>, ys: seq<Json>, caseSensitive: bool, i: nat, ls: seq<Json>)
    requires i <= |xs| && i <= |ys| && (i == |xs| || i == |ys|) && ItemsLeft(xs, ys, caseSensitive, i, ls)
    ensures LeftItems(xs, ys, caseSensitive) == ls + xs[i..]
  {
  }

  method CCompareSortedItems(xs: seq<Json>, ys: seq<Json>, caseSensitive: bool) returns (equal: bool, ls: seq<Json>, rs: seq<Json>)
    ensures equal == CompareSorted(Array(xs), Array(ys), caseSensitive)
    ensures ls == LeftItems(xs, ys, caseSensitive) && rs == LeftItems(ys, xs, caseSensitive)
    decreases Nesting(Array(xs)), 0
  {
    hide Left, LeftItems, ItemsLeft, Sort;
    ls, rs := [], [];
    var i := 0;
    ItemsLeftStart(xs, ys, caseSensitive);
    ItemsLeftStart(ys, xs, caseSensitive);
    while i < |xs| && i < |ys|
      invariant i <= |xs| && i <= |ys|
      invariant forall n :: 0 <= n < i ==> CompareSorted(xs[n], ys[n], caseSensitive)
      invariant ItemsLeft(xs, ys, caseSensitive, i, ls) && ItemsLeft(ys, xs, caseSensitive, i, rs)
    {
      ItemNesting(xs, i);
      CompareSortedSymmetric(xs[i], ys[i], caseSensitive);
      var l, r;
      equal, l, r := CCompareSorted(xs[i], ys[i], caseSensitive);
      ItemsLeftStep(xs, ys, caseSensitive, i, ls, l);
      ItemsLeftStep(ys, xs, caseSensitive, i, rs, r);
      ls, rs, i := ls + [l], rs + [r], i + 1;
      if !equal {
        return equal, ls + xs[i..], rs + ys[i..];
      }
    }
    ItemsLeftEnd(xs, ys, caseSensitive, i, ls);
    ItemsLeftEnd(ys, xs, caseSensitive, i, rs);
    return i == |xs| && i == |ys|, ls + xs[i..], rs + ys[i..];
  }

  /** The first `i` sorted members have been walked and are left as `ls`. */
  ghost predicate MembersLeft(sx: seq<Keyed<Json>>, sy: seq<Keyed<Json>>, caseSensitive: bool, i: nat, ls: seq<Keyed<Json>>)
    requires i <= |sx| && i <= |sy|
  {
    |ls| == i && LeftMembers(sx, sy, caseSensitive) == ls + LeftMembers(sx[i..], sy[i..], caseSensitive)
  }

  lemma MembersLeftStart(sx: seq<Keyed<Json>>, sy: seq<Keyed<Json>>, caseSensitive: bool)
    ensures MembersLeft(sx, sy, caseSensitive, 0, [])
  {
    hide LeftMembers;
    assert sx[0..] == sx && sy[0..] == sy;
  }

  lemma LeftMembersUnfolds(sx: seq<Keyed<Json>>, sy: seq<Keyed<Json>>, caseSensitive: bool)
    requires sx != [] && sy != [] && MergeSort.Compare(sx[0], sy[0], caseSensitive) == 0
    ensures LeftMembers(sx, sy, caseSensitive) == [Keyed(sx[0].key, Left(sx[0].item, sy[0].item, caseSensitive))] +
              if CompareSorted(sx[0].item, sy[0].item, caseSensitive) then LeftMembers(sx[1..], sy[1..], caseSensitive) else sx[1..]
  {
    hide Left, CompareSorted, MergeSort.Compare;
  }

  lemma MembersLeftStep(sx: seq<Keyed<Json>>, sy: seq<Keyed<Json>>, caseSensitive: bool, i: nat, ls: seq<Keyed<Json>>, l: Json)
    requires i < |sx| && i < |sy| && MembersLeft(sx, sy, caseSensitive, i, ls) && l == Left(sx[i].item, sy[i].item, caseSensitive)
    requires MergeSort.Compare(sx[i], sy[i], caseSensitive) == 0
    ensures CompareSorted(sx[i].item, sy[i].item, caseSensitive) ==> MembersLeft(sx, sy, caseSensitive, i + 1, ls + [Keyed(sx[i].key, l)])
    ensures !CompareSorted(sx[i].item, sy[i].item, caseSensitive) ==>
              LeftMembers(sx, sy, caseSensitive) == ls + [Keyed(sx[i].key, l)] + sx[i + 1..]
  {
    hide Left, CompareSorted, MergeSort.Compare, LeftMembers;
    LeftMembersUnfolds(sx[i..], sy[i..], caseSensitive);
    assert sx[i..][1..] == sx[i + 1..] && sy[i..][1..] == sy[i + 1..];
  }

  lemma MembersLeftEnd(sx: seq<Keyed<Json>>, sy: seq<Keyed<Json>>, caseSensitive: bool, i: nat, ls: seq<Keyed<Json>>)
    requires i <= |sx| && i <= |sy| && MembersLeft(sx, sy, caseSensitive, i, ls)
    requires i == |sx| || i == |sy| || MergeSort.Compare(sx[i], sy[i], caseSensitive) != 0
    ensures LeftMembers(sx, sy, caseSensitive) == ls + sx[i..]
  {
    hide MergeSort.Compare;
  }

  method CCompareSortedMembers(xs: seq<Keyed<Json>>, ys: seq<Keyed<Json>>, caseSensitive: bool)
    returns (equal: bool, ls: seq<Keyed<Json>>, rs: seq<Keyed<Json>>)
    ensures equal == CompareSorted(Object(xs), Object(ys), caseSensitive)
    ensures Object(ls) == Left(Object(xs), Object(ys), caseSensitive) && Object(rs) == Left(Object(ys), Object(xs), caseSensitive)
    decreases Nesting(Object(xs)), 0
  {
    hide Sort, CompareStrings, LeftMembers, MembersLeft;
    var sx, sy := Sort(xs, caseSensitive), Sort(ys, caseSensitive);
    ls, rs := [], [];
    var i := 0;
    MembersLeftStart(sx, sy, caseSensitive);
    MembersLeftStart(sy, sx, caseSensitive);
    while i < |sx| && i < |sy|
      invariant i <= |sx| && i <= |sy|
      invariant forall n :: 0 <= n < i ==>
        CompareStrings(sx[n].key, sy[n].key, caseSensitive) == 0 && CompareSorted(sx[n].item, sy[n].item, caseSensitive)
      invariant MembersLeft(sx, sy, caseSensitive, i, ls) && MembersLeft(sy, sx, caseSensitive, i, rs)
    {
      SortedNesting(xs, caseSensitive, i);
      CompareFlips(sx[i].key, sy[i].key, caseSensitive);
      CompareSortedSymmetric(sx[i].item, sy[i].item, caseSensitive);
      var diff := CCompareStrings(sx[i].key, sy[i].key, caseSensitive);
      if diff != 0 {
        MembersLeftEnd(sx, sy, caseSensitive, i, ls);
        MembersLeftEnd(sy, sx, caseSensitive, i, rs);
        return false, ls + sx[i..], rs + sy[i..];
      }
      var l, r;
      equal, l, r := CCompareSorted(sx[i].item, sy[i].item, caseSensitive);
      MembersLeftStep(sx, sy, caseSensitive, i, ls, l);
      MembersLeftStep(sy, sx, caseSensitive, i, rs, r);
      ls, rs, i := ls + [Keyed(sx[i].key, l)], rs + [Keyed(sy[i].key, r)], i + 1;
      if !equal {
        return equal, ls + sx[i..], rs + sy[i..];
      }
    }
    MembersLeftEnd(sx, sy, caseSensitive, i, ls);
    MembersLeftEnd(sy, sx, caseSensitive, i, rs);
    return i == |sx| && i == |sy|, ls + sx[i..], rs + sy[i..];
  }
}
