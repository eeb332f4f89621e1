/** Generating a JSON Merge Patch, and what merging it gives. */
module MergeGenerate {
  import opened Bytes
  import opened Json
  import opened MergeSort
  import opened Canon
  import opened Compare
  import opened CompareWalk

  /** `generate_merge_patch`: nothing if there is no difference to tell. Below the root the case flag is dropped. */
  function Generate(from: Json, to: Json, caseSensitive: bool): Option<Json>
    decreases Nesting(from), 1
  {
    match (from, to)
    case (Object(xs), Object(ys)) =>
      assert forall i :: 0 <= i < |xs| ==> Nesting(Sort(xs, caseSensitive)[i].item) < Nesting(from) by {
        forall i | 0 <= i < |xs| ensures Nesting(Sort(xs, caseSensitive)[i].item) < Nesting(from) {
          SortedNesting(xs, caseSensitive, i);
        }
      }
      var changes := Changes(Sort(xs, caseSensitive), Sort(ys, caseSensitive), caseSensitive, Nesting(from));
      if changes == [] then None else Some(Object(changes))
    case _ => Duplicate(to)
  }

  /** The walk compares keys byte by byte even where they were sorted ignoring case. */
  function HeadDifference(xs: seq<Keyed<Json>>, ys: seq<Keyed<Json>>): int
    requires xs != [] || ys != []
  {
    if xs == [] then 1 else if ys == [] then -1 else StrCmp(xs[0].key, ys[0].key)
  }

  /** A member of the patch, unless there is no value for it. */
  function Entry(key: CString, value: Option<Json>): seq<Keyed<Json>> {
    match value
    case None => []
    case Some(v) => [Keyed(key, v)]
  }

  /** What is told about two values under the same key: they are compared first, which sorts them, and what is left of
      them is told. */
  function ToTell(x: Json, y: Json, caseSensitive: bool): Option<Json>
    decreases Nesting(x), 2
  {
    LeftNesting(x, y, caseSensitive);
    if CompareSorted(x, y, caseSensitive) then None
    else Generate(Left(x, y, caseSensitive), Left(y, x, caseSensitive), false)
  }

  function Changes(xs: seq<Keyed<Json>>, ys: seq<Keyed<Json>>, caseSensitive: bool, depth: nat): seq<Keyed<Json>>
    requires forall i :: 0 <= i < |xs| ==> Nesting(xs[i].item) < depth
    decreases depth, 0, |xs| + |ys|
  {
    if xs == [] && ys == [] then []
    else
      var diff := HeadDifference(xs, ys);
      if diff < 0 then Entry(xs[0].key, Some(Null)) + Changes(xs[1..], ys, caseSensitive, depth)
      else if diff > 0 then Entry(ys[0].key, Duplicate(ys[0].item)) + Changes(xs, ys[1..], caseSensitive, depth)
      else
        Entry(ys[0].key, ToTell(xs[0].item, ys[0].item, caseSensitive))
        + Changes(xs[1..], ys[1..], caseSensitive, depth)
  }

  // ----- what generating leaves of its arguments -----

  /** What is left of the first tree. Of the second, `Behind(to, from, caseSensitive)` is left. */
  function Behind(from: Json, to: Json, caseSensitive: bool): Json
    decreases Nesting(from), 1
  {
    match (from, to)
    case (Object(xs), Object(ys)) =>
      SortedMembersNesting(xs, caseSensitive);
      Object(BehindMembers(Sort(xs, caseSensitive), Sort(ys, caseSensitive), caseSensitive))
    case _ => from
  }

  /** A value under a shared key is sorted by the comparison, and again where its patch is generated. */
  function BehindShared(x: Json, y: Json, caseSensitive: bool): Json
    decreases Nesting(x), 2
  {
    LeftNesting(x, y, caseSensitive);
    if CompareSorted(x, y, caseSensitive) then Left(x, y, caseSensitive)
    else Behind(Left(x, y, caseSensitive), Left(y, x, caseSensitive), false)
  }

  function BehindMembers(xs: seq<Keyed<Json>>, ys: seq<Keyed<Json>>, caseSensitive: bool): (l: seq<Keyed<Json>>)
    ensures |l| == |xs|
    decreases MembersNesting(xs), 3, |xs| + |ys|
  {
    if xs == [] then []
    else
      var diff := HeadDifference(xs, ys);
      if diff < 0 then [xs[0]] + BehindMembers(xs[1..], ys, caseSensitive)
      else if diff > 0 then BehindMembers(xs, ys[1..], caseSensitive)
      else
        [Keyed(xs[0].key, BehindShared(xs[0].item, ys[0].item, caseSensitive))] + BehindMembers(xs[1..], ys[1..], caseSensitive)
  }

  /** Generating leaves the same tree up to member order. */
  lemma {:induction false} BehindSame(from: Json, to: Json, caseSensitive: bool)
    requires Distinct(from)
    ensures Same(Behind(from, to, caseSensitive), from) && Distinct(Behind(from, to, caseSensitive))
    decreases Nesting(from), 1
  {
    hide Sort, BehindMembers, NormMembers;
    if from.Object? && to.Object? {
      var xs := from.members;
      var sx, sy := Sort(xs, caseSensitive), Sort(to.members, caseSensitive);
      SortedMembersNesting(xs, caseSensitive);
      SortedDistinct(xs, caseSensitive);
      SortSame(xs, caseSensitive) by { DistinctObject(xs); }
      DistinctObject(sx);
      BehindMembersSame(sx, sy, caseSensitive);
      PointwiseSame(BehindMembers(sx, sy, caseSensitive), sx);
    }
  }

  lemma {:induction false} BehindSharedSame(x: Json, y: Json, caseSensitive: bool)
    requires Distinct(x)
    ensures Same(BehindShared(x, y, caseSensitive), x) && Distinct(BehindShared(x, y, caseSensitive))
    decreases Nesting(x), 2
  {
    hide Norm, Distinct, Behind, CompareSorted, Left;
    LeftNesting(x, y, caseSensitive);
    LeftSame(x, y, caseSensitive);
    if !CompareSorted(x, y, caseSensitive) {
      BehindSame(Left(x, y, caseSensitive), Left(y, x, caseSensitive), false);
    }
  }

  lemma {:induction false} BehindMembersSame(xs: seq<Keyed<Json>>, ys: seq<Keyed<Json>>, caseSensitive: bool)
    requires forall i :: 0 <= i < |xs| ==> Distinct(xs[i].item)
    ensures forall i :: 0 <= i < |xs| ==>
      && BehindMembers(xs, ys, caseSensitive)[i].key == xs[i].key
      && Same(BehindMembers(xs, ys, caseSensitive)[i].item, xs[i].item) && Distinct(BehindMembers(xs, ys, caseSensitive)[i].item)
    decreases MembersNesting(xs), 3, |xs| + |ys|
  {
    hide Norm, Distinct, BehindShared, HeadDifference;
    if xs != [] {
      var diff := HeadDifference(xs, ys);
      HeadSides(xs, ys);
      if diff < 0 {
        BehindMembersSame(xs[1..], ys, caseSensitive);
      } else if diff > 0 {
        BehindMembersSame(xs, ys[1..], caseSensitive);
      } else {
        BehindSharedSame(xs[0].item, ys[0].item, caseSensitive);
        BehindMembersSame(xs[1..], ys[1..], caseSensitive);
      }
    }
  }

  lemma HeadSides(xs: seq<Keyed<Json>>, ys: seq<Keyed<Json>>)
    requires xs != [] || ys != []
    ensures HeadDifference(xs, ys) == -HeadDifference(ys, xs)
    ensures HeadDifference(xs, ys) == 0 ==> xs != [] && ys != []
    ensures HeadDifference(xs, ys) < 0 ==> xs != []
    ensures HeadDifference(xs, ys) > 0 ==> ys != []
  {
    hide StrCmp;
    if xs != [] && ys != [] {
      StrCmpAntisymmetric(xs[0].key, ys[0].key);
    }
  }

  /** One turn of the walk, as the first list sees it. */
  lemma BehindMembersAt(xs: seq<Keyed<Json>>, ys: seq<Keyed<Json>>, i: nat, k: nat, caseSensitive: bool)
    requires i <= |xs| && k <= |ys| && (i < |xs| || k < |ys|)
    ensures var diff := HeadDifference(xs[i..], ys[k..]);
      && (diff == 0 ==>
            && i < |xs| && k < |ys|
            && BehindMembers(xs[i..], ys[k..], caseSensitive)
               == [Keyed(xs[i].key, BehindShared(xs[i].item, ys[k].item, caseSensitive))] + BehindMembers(xs[i + 1..], ys[k + 1..], caseSensitive))
      && (diff < 0 ==> i < |xs| && BehindMembers(xs[i..], ys[k..], caseSensitive) == [xs[i]] + BehindMembers(xs[i + 1..], ys[k..], caseSensitive))
      && (diff > 0 ==> k < |ys| && BehindMembers(xs[i..], ys[k..], caseSensitive) == BehindMembers(xs[i..], ys[k + 1..], caseSensitive))
  {
    hide BehindShared, HeadDifference, StrCmp;
    HeadSides(xs[i..], ys[k..]);
    assert i < |xs| ==> xs[i..][1..] == xs[i + 1..];
    assert k < |ys| ==> ys[k..][1..] == ys[k + 1..];
  }

  /** The members in front of the two cursors have been walked, and those of the first object are left as `ls`. */
  ghost predicate MembersBehind(xs: seq<Keyed<Json>>, ys: seq<Keyed<Json>>, caseSensitive: bool, i: nat, k: nat, ls: seq<Keyed<Json>>)
    requires i <= |xs| && k <= |ys|
  {
    BehindMembers(xs, ys, caseSensitive) == ls + BehindMembers(xs[i..], ys[k..], caseSensitive)
  }

  lemma MembersBehindStart(xs: seq<Keyed<Json>>, ys: seq<Keyed<Json>>, caseSensitive: bool)
    ensures MembersBehind(xs, ys, caseSensitive, 0, 0, []) && MembersBehind(ys, xs, caseSensitive, 0, 0, [])
  {
    hide BehindMembers;
    assert xs[0..] == xs && ys[0..] == ys;
  }

  lemma HeadsAre(xs: seq<Keyed<Json>>, ys: seq<Keyed<Json>>, i: nat, k: nat, diff: int)
    requires i <= |xs| && k <= |ys| && (i < |xs| || k < |ys|)
    requires diff == if i == |xs| then 1 else if k == |ys| then -1 else StrCmp(xs[i].key, ys[k].key)
    ensures HeadDifference(xs[i..], ys[k..]) == diff && HeadDifference(ys[k..], xs[i..]) == -diff
  {
    hide StrCmp;
    HeadSides(xs[i..], ys[k..]);
  }

  lemma MembersBehindBoth(xs: seq<Keyed<Json>>, ys: seq<Keyed<Json>>, caseSensitive: bool, i: nat, k: nat, ls: seq<Keyed<Json>>, left: Json)
    requires i < |xs| && k < |ys| && MembersBehind(xs, ys, caseSensitive, i, k, ls)
    requires left == BehindShared(xs[i].item, ys[k].item, caseSensitive) && HeadDifference(xs[i..], ys[k..]) == 0
    ensures MembersBehind(xs, ys, caseSensitive, i + 1, k + 1, ls + [Keyed(xs[i].key, left)])
  {
    hide BehindMembers, BehindShared, HeadDifference;
    BehindMembersAt(xs, ys, i, k, caseSensitive);
    AssocMembers(ls, [Keyed(xs[i].key, left)], BehindMembers(xs[i + 1..], ys[k + 1..], caseSensitive));
  }

  /** A member that only the first object has is passed. */
  lemma MembersBehindOne(xs: seq<Keyed<Json>>, ys: seq<Keyed<Json>>, caseSensitive: bool, i: nat, k: nat, ls: seq<Keyed<Json>>, rs: seq<Keyed<Json>>)
    requires i < |xs| && k <= |ys| && MembersBehind(xs, ys, caseSensitive, i, k, ls) && MembersBehind(ys, xs, caseSensitive, k, i, rs)
    requires HeadDifference(xs[i..], ys[k..]) < 0 < HeadDifference(ys[k..], xs[i..])
    ensures MembersBehind(xs, ys, caseSensitive, i + 1, k, ls + [xs[i]]) && MembersBehind(ys, xs, caseSensitive, k, i + 1, rs)
  {
    hide BehindMembers, HeadDifference;
    BehindMembersAt(xs, ys, i, k, caseSensitive);
    BehindMembersAt(ys, xs, k, i, caseSensitive);
    AssocMembers(ls, [xs[i]], BehindMembers(xs[i + 1..], ys[k..], caseSensitive));
  }

  lemma MembersBehindEnd(xs: seq<Keyed<Json>>, ys: seq<Keyed<Json>>, caseSensitive: bool, ls: seq<Keyed<Json>>)
    requires MembersBehind(xs, ys, caseSensitive, |xs|, |ys|, ls)
    ensures ls == BehindMembers(xs, ys, caseSensitive)
  {
    assert xs[|xs|..] == [];
  }

  // ----- as the source runs it -----

  /** `generate_merge_patch`, with what it leaves of the two trees. */
  method CGenerate(from: Json, to: Json, caseSensitive: bool) returns (patch: Option<Json>, left: Json, right: Json)
    ensures patch == Generate(from, to, caseSensitive)
    ensures left == Behind(from, to, caseSensitive) && right == Behind(to, from, caseSensitive)
    decreases Nesting(from), 1
  {
    hide Changes, Sort, BehindMembers;
    if !to.Object? || !from.Object? {
      return Duplicate(to), from, to;
    }
    forall i | 0 <= i < |from.members| ensures Nesting(Sort(from.members, caseSensitive)[i].item) < Nesting(from) {
      SortedNesting(from.members, caseSensitive, i);
    }
    var changes, ls, rs := CChanges(Sort(from.members, caseSensitive), Sort(to.members, caseSensitive), caseSensitive, Nesting(from));
    return if changes == [] then None else Some(Object(changes)), Object(ls), Object(rs);
  }

  /** What is told about two values under the same key, and what is left of them. */
  method CToTell(x: Json, y: Json, caseSensitive: bool) returns (told: Option<Json>, left: Json, right: Json)
    ensures told == ToTell(x, y, caseSensitive)
    ensures left == BehindShared(x, y, caseSensitive) && right == BehindShared(y, x, caseSensitive)
    decreases Nesting(x), 2
  {
    hide CompareSorted, Generate, Left, Behind;
    var equal;
    equal, left, right := CCompareSorted(x, y, caseSensitive);
    CompareSortedSymmetric(x, y, caseSensitive);
    LeftNesting(x, y, caseSensitive);
    told := None;
    if !equal {
      told, left, right := CGenerate(left, right, false);
    }
  }

  /** The walk over two sorted objects. */
  method CChanges(xs: seq<Keyed<Json>>, ys: seq<Keyed<Json>>, caseSensitive: bool, ghost depth: nat)
    returns (changes: seq<Keyed<Json>>, ls: seq<Keyed<Json>>, rs: seq<Keyed<Json>>)
    requires forall i :: 0 <= i < |xs| ==> Nesting(xs[i].item) < depth
    ensures changes == Changes(xs, ys, caseSensitive, depth)
    ensures ls == BehindMembers(xs, ys, caseSensitive) && rs == BehindMembers(ys, xs, caseSensitive)
    decreases depth, 0
  {
    hide Changes, ToTell, Entry, StrCmp, BehindShared, MembersBehind;
    changes, ls, rs := [], [], [];
    var i, k := 0, 0;
    assert xs[0..] == xs && ys[0..] == ys;
    MembersBehindStart(xs, ys, caseSensitive);
    while i < |xs| || k < |ys|
      invariant i <= |xs| && k <= |ys|
      invariant changes + Changes(xs[i..], ys[k..], caseSensitive, depth) == Changes(xs, ys, caseSensitive, depth)
      invariant MembersBehind(xs, ys, caseSensitive, i, k, ls) && MembersBehind(ys, xs, caseSensitive, k, i, rs)
      decreases |xs| - i + |ys| - k
    {
      var diff := 1;
      if i < |xs| {
        diff := -1;
        if k < |ys| {
          diff := CStrCmp(xs[i].key, ys[k].key);
        }
      }
      WalkStep(xs, ys, i, k, caseSensitive, depth, diff);
      HeadsAre(xs, ys, i, k, diff);
      var entry;
      if diff < 0 {
        entry := Entry(xs[i].key, Some(Null));
        MembersBehindOne(xs, ys, caseSensitive, i, k, ls, rs);
        ls, i := ls + [xs[i]], i + 1;
      } else if diff > 0 {
        entry := Entry(ys[k].key, Duplicate(ys[k].item));
        MembersBehindOne(ys, xs, caseSensitive, k, i, rs, ls);
        rs, k := rs + [ys[k]], k + 1;
      } else {
        var told, left, right := CToTell(xs[i].item, ys[k].item, caseSensitive);
        entry := Entry(ys[k].key, told);
        MembersBehindBoth(xs, ys, caseSensitive, i, k, ls, left);
        MembersBehindBoth(ys, xs, caseSensitive, k, i, rs, right);
        ls, rs := ls + [Keyed(xs[i].key, left)], rs + [Keyed(ys[k].key, right)];
        i, k := i + 1, k + 1;
      }
      AssocMembers(changes, entry, Changes(xs[i..], ys[k..], caseSensitive, depth));
      changes := changes + entry;
    }
    WalkEnd(xs, ys, caseSensitive, depth);
    MembersBehindEnd(xs, ys, caseSensitive, ls);
    MembersBehindEnd(ys, xs, caseSensitive, rs);
  }

  lemma AssocMembers(a: seq<Keyed<Json>>, b: seq<Keyed<Json>>, c: seq<Keyed<Json>>)
    ensures a + (b + c) == a + b + c
  {
  }

  lemma WalkEnd(xs: seq<Keyed<Json>>, ys: seq<Keyed<Json>>, caseSensitive: bool, depth: nat)
    ensures Changes(xs[|xs|..], ys[|ys|..], caseSensitive, depth) == []
  {
  }

  /** One turn of the walk, in terms of the two cursors. */
  lemma WalkStep(xs: seq<Keyed<Json>>, ys: seq<Keyed<Json>>, i: nat, k: nat, caseSensitive: bool, depth: nat, diff: int)
    requires forall i :: 0 <= i < |xs| ==> Nesting(xs[i].item) < depth
    requires i <= |xs| && k <= |ys| && (i < |xs| || k < |ys|)
    requires diff == if i == |xs| then 1 else if k == |ys| then -1 else StrCmp(xs[i].key, ys[k].key)
    ensures Changes(xs[i..], ys[k..], caseSensitive, depth) ==
      if diff < 0 then Entry(xs[i].key, Some(Null)) + Changes(xs[i + 1..], ys[k..], caseSensitive, depth)
      else if diff > 0 then Entry(ys[k].key, Duplicate(ys[k].item)) + Changes(xs[i..], ys[k + 1..], caseSensitive, depth)
      else
        Entry(ys[k].key, ToTell(xs[i].item, ys[k].item, caseSensitive))
        + Changes(xs[i + 1..], ys[k + 1..], caseSensitive, depth)
  {
    hide ToTell, StrCmp, Entry;
    assert i < |xs| ==> xs[i..][1..] == xs[i + 1..] && xs[i] == xs[i..][0];
    assert k < |ys| ==> ys[k..][1..] == ys[k + 1..] && ys[k] == ys[k..][0];
  }
}
