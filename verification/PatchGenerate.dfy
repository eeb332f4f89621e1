/** Generating a JSON Patch: `compose_patch` and `create_patches`. */
module PatchGenerate {
  import opened Bytes
  import opened Json
  import opened MergeSort
  import opened Canon
  import opened Compare
  import opened CompareWalk
  import opened Pointer
  import opened Patch

  /** `compose_patch`: the path, with the encoded suffix as one more token if there is one. A value that cannot be
      duplicated is left out without notice. */
  function Compose(operation: CString, path: CString, suffix: Option<CString>, value: Option<Json>): Json {
    var full := match suffix case None => path case Some(s) => path + ([SLASH] + Encode(s));
    Object([Keyed(OP, String(operation)), Keyed(PATH, String(full))]
           + match (if value.Some? then Duplicate(value.value) else None) case None => [] case Some(copy) => [Keyed(VALUE, copy)])
  }

  /** `create_patches`. */
  function CreatePatches(path: CString, from: Json, to: Json, caseSensitive: bool): seq<Json>
    decreases Nesting(from), 2
  {
    match (from, to)
    case (Array(xs), Array(ys)) => ItemPatches(path, xs, ys, caseSensitive, 0)
    case (Object(xs), Object(ys)) =>
      assert forall i :: 0 <= i < |xs| ==> Nesting(Sort(xs, caseSensitive)[i].item) < Nesting(from) by {
        forall i | 0 <= i < |xs| ensures Nesting(Sort(xs, caseSensitive)[i].item) < Nesting(from) {
          SortedNesting(xs, caseSensitive, i);
        }
      }
      MemberPatches(path, Sort(xs, caseSensitive), Sort(ys, caseSensitive), caseSensitive, Nesting(from))
    case _ => if from == to then [] else [Compose(REPLACE_TEXT, path, None, Some(to))]
  }

  /** The array loops, from element `k` on. */
  function ItemPatches(path: CString, xs: seq<Json>, ys: seq<Json>, caseSensitive: bool, k: nat): seq<Json>
    requires k <= |xs| && k <= |ys|
    decreases 1 + ItemsNesting(xs), 1, |xs| - k
  {
    if k < |xs| && k < |ys| then
      ItemNesting(xs, k);
      CreatePatches(path + ([SLASH] + Digits(k)), xs[k], ys[k], caseSensitive) + ItemPatches(path, xs, ys, caseSensitive, k + 1)
    else if k < |xs| then RemoveItems(path, k, |xs| - k)
    else AddItems(path, ys[k..])
  }

  function RemoveItems(path: CString, k: nat, count: nat): seq<Json> {
    if count == 0 then [] else [Compose(REMOVE_TEXT, path, Some(Digits(k)), None)] + RemoveItems(path, k, count - 1)
  }

  function AddItems(path: CString, items: seq<Json>): seq<Json> {
    if items == [] then [] else [Compose(ADD_TEXT, path, Some([MINUS]), Some(items[0]))] + AddItems(path, items[1..])
  }

  /** How the walk over two sorted objects compares their heads. */
  function HeadDifference(xs: seq<Keyed<Json>>, ys: seq<Keyed<Json>>, caseSensitive: bool): int
    requires xs != [] || ys != []
  {
    if xs == [] then 1 else if ys == [] then -1 else CompareStrings(xs[0].key, ys[0].key, caseSensitive)
  }

  /** The object loop on what is left of the two sorted member lists. */
  function MemberPatches(path: CString, xs: seq<Keyed<Json>>, ys: seq<Keyed<Json>>, caseSensitive: bool, depth: nat): seq<Json>
    requires forall i :: 0 <= i < |xs| ==> Nesting(xs[i].item) < depth
    decreases depth, 0, |xs| + |ys|
  {
    if xs == [] && ys == [] then []
    else
      var diff := HeadDifference(xs, ys, caseSensitive);
      if diff == 0 then
        CreatePatches(path + ([SLASH] + Encode(xs[0].key)), xs[0].item, ys[0].item, caseSensitive)
        + MemberPatches(path, xs[1..], ys[1..], caseSensitive, depth)
      else if diff < 0 then
        [Compose(REMOVE_TEXT, path, Some(xs[0].key), None)] + MemberPatches(path, xs[1..], ys, caseSensitive, depth)
      else
        [Compose(ADD_TEXT, path, Some(ys[0].key), Some(ys[0].item))] + MemberPatches(path, xs, ys[1..], caseSensitive, depth)
  }

  // ----- what generating leaves of its arguments -----

  /** What `create_patches` leaves of its first argument: the objects it walks are sorted. Of the second it leaves
      `Behind(to, from, caseSensitive)`. */
  function Behind(from: Json, to: Json, caseSensitive: bool): Json
    decreases Nesting(from), 1
  {
    match (from, to)
    case (Array(xs), Array(ys)) =>
      Array(BehindItems(xs, ys, caseSensitive))
    case (Object(xs), Object(ys)) =>
      SortedMembersNesting(xs, caseSensitive);
      Object(BehindMembers(Sort(xs, caseSensitive), Sort(ys, caseSensitive), caseSensitive))
    case _ => from
  }

  function BehindItems(xs: seq<Json>, ys: seq<Json>, caseSensitive: bool): (l: seq<Json>)
    ensures |l| == |xs|
    decreases ItemsNesting(xs), 2, |xs|
  {
    if xs == [] || ys == [] then xs
    else [Behind(xs[0], ys[0], caseSensitive)] + BehindItems(xs[1..], ys[1..], caseSensitive)
  }

  function BehindMembers(xs: seq<Keyed<Json>>, ys: seq<Keyed<Json>>, caseSensitive: bool): (l: seq<Keyed<Json>>)
    ensures |l| == |xs|
    decreases MembersNesting(xs), 2, |xs| + |ys|
  {
    if xs == [] then []
    else
      var diff := HeadDifference(xs, ys, caseSensitive);
      if diff == 0 then
        [Keyed(xs[0].key, Behind(xs[0].item, ys[0].item, caseSensitive))] + BehindMembers(xs[1..], ys[1..], caseSensitive)
      else if diff < 0 then [xs[0]] + BehindMembers(xs[1..], ys, caseSensitive)
      else BehindMembers(xs, ys[1..], caseSensitive)
  }

  /** Generating leaves the same tree up to member order. */
  lemma {:induction false} BehindSame(from: Json, to: Json, caseSensitive: bool)
    requires Distinct(from)
    ensures Same(Behind(from, to, caseSensitive), from) && Distinct(Behind(from, to, caseSensitive))
    decreases Nesting(from), 1
  {
    match (from, to) {
      case (Array(xs), Array(ys)) =>
        BehindItemsSame(xs, ys, caseSensitive);
        ItemsSame(BehindItems(xs, ys, caseSensitive), xs);
      case (Object(xs), Object(ys)) =>
        BehindObjectSame(xs, ys, caseSensitive);
      case _ =>
    }
  }

  lemma {:induction false} BehindObjectSame(xs: seq<Keyed<Json>>, ys: seq<Keyed<Json>>, caseSensitive: bool)
    requires Distinct(Object(xs))
    ensures Same(Behind(Object(xs), Object(ys), caseSensitive), Object(xs)) && Distinct(Behind(Object(xs), Object(ys), caseSensitive))
    decreases Nesting(Object(xs)), 0
  {
    hide Sort, BehindMembers, NormMembers;
    var sx, sy := Sort(xs, caseSensitive), Sort(ys, caseSensitive);
    SortedMembersNesting(xs, caseSensitive);
    SortedDistinct(xs, caseSensitive);
    SortSame(xs, caseSensitive) by { DistinctObject(xs); }
    DistinctObject(sx);
    BehindMembersSame(sx, sy, caseSensitive);
    PointwiseSame(BehindMembers(sx, sy, caseSensitive), sx);
  }

  lemma {:induction false} BehindItemsSame(xs: seq<Json>, ys: seq<Json>, caseSensitive: bool)
    requires forall i :: 0 <= i < |xs| ==> Distinct(xs[i])
    ensures forall i :: 0 <= i < |xs| ==> Same(BehindItems(xs, ys, caseSensitive)[i], xs[i]) && Distinct(BehindItems(xs, ys, caseSensitive)[i])
    decreases ItemsNesting(xs), 2, |xs|
  {
    hide Norm, Distinct, Behind;
    if xs != [] && ys != [] {
      BehindSame(xs[0], ys[0], caseSensitive);
      BehindItemsSame(xs[1..], ys[1..], caseSensitive);
    }
  }

  lemma {:induction false} BehindMembersSame(xs: seq<Keyed<Json>>, ys: seq<Keyed<Json>>, caseSensitive: bool)
    requires forall i :: 0 <= i < |xs| ==> Distinct(xs[i].item)
    ensures forall i :: 0 <= i < |xs| ==>
      && BehindMembers(xs, ys, caseSensitive)[i].key == xs[i].key
      && Same(BehindMembers(xs, ys, caseSensitive)[i].item, xs[i].item) && Distinct(BehindMembers(xs, ys, caseSensitive)[i].item)
    decreases MembersNesting(xs), 2, |xs| + |ys|
  {
    hide Norm, Distinct, Behind, HeadDifference;
    if xs != [] {
      var diff := HeadDifference(xs, ys, caseSensitive);
      HeadSides(xs, ys, caseSensitive);
      if diff == 0 {
        BehindSame(xs[0].item, ys[0].item, caseSensitive);
        BehindMembersSame(xs[1..], ys[1..], caseSensitive);
      } else if diff < 0 {
        BehindMembersSame(xs[1..], ys, caseSensitive);
      } else {
        BehindMembersSame(xs, ys[1..], caseSensitive);
      }
    }
  }

  lemma HeadSides(xs: seq<Keyed<Json>>, ys: seq<Keyed<Json>>, caseSensitive: bool)
    requires xs != [] || ys != []
    ensures HeadDifference(xs, ys, caseSensitive) == -HeadDifference(ys, xs, caseSensitive)
    ensures HeadDifference(xs, ys, caseSensitive) == 0 ==> xs != [] && ys != []
    ensures HeadDifference(xs, ys, caseSensitive) < 0 ==> xs != []
    ensures HeadDifference(xs, ys, caseSensitive) > 0 ==> ys != []
  {
    hide CompareStrings;
    if xs != [] && ys != [] {
      CompareFlips(xs[0].key, ys[0].key, caseSensitive);
    }
  }

  lemma BehindItemsAt(xs: seq<Json>, ys: seq<Json>, k: nat, caseSensitive: bool)
    requires k <= |xs| && k <= |ys|
    ensures k < |xs| && k < |ys| ==>
      BehindItems(xs[k..], ys[k..], caseSensitive) == [Behind(xs[k], ys[k], caseSensitive)] + BehindItems(xs[k + 1..], ys[k + 1..], caseSensitive)
    ensures k == |xs| || k == |ys| ==> BehindItems(xs[k..], ys[k..], caseSensitive) == xs[k..]
  {
    hide Behind;
    if k < |xs| && k < |ys| {
      assert xs[k..][1..] == xs[k + 1..] && ys[k..][1..] == ys[k + 1..];
    }
  }

  /** One turn of the walk over members, as the first list sees it. */
  lemma BehindMembersAt(xs: seq<Keyed<Json>>, ys: seq<Keyed<Json>>, i: nat, k: nat, caseSensitive: bool)
    requires i <= |xs| && k <= |ys| && (i < |xs| || k < |ys|)
    ensures var diff := HeadDifference(xs[i..], ys[k..], caseSensitive);
      && (diff == 0 ==>
            && i < |xs| && k < |ys|
            && BehindMembers(xs[i..], ys[k..], caseSensitive)
               == [Keyed(xs[i].key, Behind(xs[i].item, ys[k].item, caseSensitive))] + BehindMembers(xs[i + 1..], ys[k + 1..], caseSensitive))
      && (diff < 0 ==> i < |xs| && BehindMembers(xs[i..], ys[k..], caseSensitive) == [xs[i]] + BehindMembers(xs[i + 1..], ys[k..], caseSensitive))
      && (diff > 0 ==> k < |ys| && BehindMembers(xs[i..], ys[k..], caseSensitive) == BehindMembers(xs[i..], ys[k + 1..], caseSensitive))
  {
    hide Behind, HeadDifference, CompareStrings;
    HeadSides(xs[i..], ys[k..], caseSensitive);
    assert i < |xs| ==> xs[i..][1..] == xs[i + 1..];
    assert k < |ys| ==> ys[k..][1..] == ys[k + 1..];
  }
}
