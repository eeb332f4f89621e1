/** `cJSON_Compare` with its case flag off: the comparison of the trees with lower-cased keys. */
module CompareLoosely {
  import opened Bytes
  import opened Json
  import opened MergeSort
  import opened Canon
  import opened Compare

  /** The tree with every key in lower case. */
  function Lowered(j: Json): Json
    decreases j
  {
    match j
    case Array(items) => Array(seq(|items|, i requires 0 <= i < |items| => Lowered(items[i])))
    case Object(members) =>
      Object(seq(|members|, i requires 0 <= i < |members| => Keyed(LowerAll(members[i].key), Lowered(members[i].item))))
    case _ => j
  }

  /** The same members, in the same order, with lower-cased keys and values. */
  predicate AreLowered(xs: seq<Keyed<Json>>, ls: seq<Keyed<Json>>) {
    |ls| == |xs| && forall i :: 0 <= i < |xs| ==> ls[i] == Keyed(LowerAll(xs[i].key), Lowered(xs[i].item))
  }

  lemma LoweredMembers(xs: seq<Keyed<Json>>)
    ensures Lowered(Object(xs)).Object? && AreLowered(xs, Lowered(Object(xs)).members)
  {
  }

  lemma LoweredItems(xs: seq<Json>)
    ensures Lowered(Array(xs)).Array? && |Lowered(Array(xs)).items| == |xs|
    ensures forall i :: 0 <= i < |xs| ==> Lowered(Array(xs)).items[i] == Lowered(xs[i])
  {
  }

  /** Looking a key up ignoring case is looking its lower-cased form up among lower-cased keys. */
  lemma {:induction false} FindsLowered(xs: seq<Keyed<Json>>, ls: seq<Keyed<Json>>, name: CString)
    requires AreLowered(xs, ls)
    ensures FindKey(xs, name, false) == FindKey(ls, LowerAll(name), true)
  {
    if xs != [] {
      FindsLowered(xs[1..], ls[1..], name);
    }
  }

  /** With the flag off the test says of two trees what it says with the flag on of the trees with
      lower-cased keys. */
  lemma {:induction false} ComparesLowered(a: Json, b: Json)
    ensures CompareTrees(a, b, false) == CompareTrees(Lowered(a), Lowered(b), true)
    decreases Nesting(a) + Nesting(b), 1
  {
    match (a, b) {
      case (Array(xs), Array(ys)) =>
        LoweredItems(xs);
        LoweredItems(ys);
        ComparesLoweredItems(xs, ys);
      case (Object(xs), Object(ys)) =>
        LoweredMembers(xs);
        LoweredMembers(ys);
        var ls, ms := Lowered(a).members, Lowered(b).members;
        MatchesLowered(xs, ys, ls, ms);
        MatchesLowered(ys, xs, ms, ls);
        ObjectsCompare(xs, ys, false);
        ObjectsCompare(ls, ms, true);
      case _ =>
    }
  }

  lemma ObjectsCompare(xs: seq<Keyed<Json>>, ys: seq<Keyed<Json>>, caseSensitive: bool)
    ensures CompareTrees(Object(xs), Object(ys), caseSensitive) == (AllMatch(xs, ys, caseSensitive) && AllMatch(ys, xs, caseSensitive))
  {
    hide FindKey;
  }

  lemma {:induction false} ComparesLoweredItems(xs: seq<Json>, ys: seq<Json>)
    ensures CompareTrees(Array(xs), Array(ys), false) == CompareTrees(Lowered(Array(xs)), Lowered(Array(ys)), true)
    decreases Nesting(Array(xs)) + Nesting(Array(ys)), 0
  {
    LoweredItems(xs);
    LoweredItems(ys);
    var ls, ms := Lowered(Array(xs)).items, Lowered(Array(ys)).items;
    if |xs| == |ys| {
      forall i | 0 <= i < |xs| ensures CompareTrees(xs[i], ys[i], false) == CompareTrees(ls[i], ms[i], true) {
        ItemNesting(xs, i);
        ItemNesting(ys, i);
        ComparesLowered(xs[i], ys[i]);
      }
    }
  }

  lemma {:induction false} MatchesLowered(xs: seq<Keyed<Json>>, ys: seq<Keyed<Json>>, ls: seq<Keyed<Json>>, ms: seq<Keyed<Json>>)
    requires AreLowered(xs, ls) && AreLowered(ys, ms)
    ensures AllMatch(xs, ys, false) == AllMatch(ls, ms, true)
    decreases Nesting(Object(xs)) + Nesting(Object(ys)), 0
  {
    hide FindKey, CompareTrees, Lowered;
    forall i | 0 <= i < |xs|
      ensures var k := FindKey(ys, xs[i].key, false);
        && k == FindKey(ms, ls[i].key, true)
        && (k < |ys| ==> CompareTrees(xs[i].item, ys[k].item, false) == CompareTrees(ls[i].item, ms[k].item, true))
    {
      var k := FindKey(ys, xs[i].key, false);
      FindsLowered(ys, ms, xs[i].key);
      if k < |ys| {
        MemberNesting(xs, i);
        MemberNesting(ys, k);
        ComparesLowered(xs[i].item, ys[k].item);
      }
    }
  }

  // ----- the test by sorting -----

  lemma {:induction false} MergesLowered(a: seq<Keyed<Json>>, b: seq<Keyed<Json>>, la: seq<Keyed<Json>>, lb: seq<Keyed<Json>>)
    requires AreLowered(a, la) && AreLowered(b, lb)
    ensures AreLowered(Merge(a, b, false), Merge(la, lb, true))
    decreases |a| + |b|
  {
    hide Lowered;
    if a != [] && b != [] {
      if MergeSort.Compare(a[0], b[0], false) < 0 {
        MergesLowered(a[1..], b, la[1..], lb);
      } else {
        MergesLowered(a, b[1..], la, lb[1..]);
      }
    }
  }

  lemma AscendsLowered(xs: seq<Keyed<Json>>, ls: seq<Keyed<Json>>)
    requires AreLowered(xs, ls)
    ensures Ascending(xs, false) == Ascending(ls, true)
  {
    hide Lowered;
    assert forall i :: 0 < i < |xs| ==> MergeSort.Compare(xs[i - 1], xs[i], false) == MergeSort.Compare(ls[i - 1], ls[i], true);
  }

  /** Sorting ignoring case is sorting by lower-cased keys. */
  lemma {:induction false} SortsLowered(xs: seq<Keyed<Json>>, ls: seq<Keyed<Json>>)
    requires AreLowered(xs, ls)
    ensures AreLowered(Sort(xs, false), Sort(ls, true))
    decreases |xs|
  {
    hide Lowered, Merge, Ascending;
    AscendsLowered(xs, ls);
    if |xs| > 1 && !Ascending(xs, false) {
      var middle := (|xs| + 1) / 2;
      SortsLowered(xs[..middle], ls[..middle]);
      SortsLowered(xs[middle..], ls[middle..]);
      MergesLowered(Sort(xs[..middle], false), Sort(xs[middle..], false), Sort(ls[..middle], true), Sort(ls[middle..], true));
    }
  }

  lemma {:induction false} ComparesSortedLowered(a: Json, b: Json)
    ensures CompareSorted(a, b, false) == CompareSorted(Lowered(a), Lowered(b), true)
    decreases Nesting(a)
  {
    hide Sort;
    match (a, b) {
      case (Array(xs), Array(ys)) =>
        LoweredItems(xs);
        LoweredItems(ys);
        var ls, ms := Lowered(a).items, Lowered(b).items;
        if |xs| == |ys| {
          forall i | 0 <= i < |xs| ensures CompareSorted(xs[i], ys[i], false) == CompareSorted(ls[i], ms[i], true) {
            ItemNesting(xs, i);
            ComparesSortedLowered(xs[i], ys[i]);
          }
        }
      case (Object(xs), Object(ys)) =>
        LoweredMembers(xs);
        LoweredMembers(ys);
        var ls, ms := Lowered(a).members, Lowered(b).members;
        SortsLowered(xs, ls);
        SortsLowered(ys, ms);
        var sx, sy, sl, sm := Sort(xs, false), Sort(ys, false), Sort(ls, true), Sort(ms, true);
        forall i | 0 <= i < |xs| && |xs| == |ys|
          ensures CompareStrings(sx[i].key, sy[i].key, false) == CompareStrings(sl[i].key, sm[i].key, true)
          ensures CompareSorted(sx[i].item, sy[i].item, false) == CompareSorted(sl[i].item, sm[i].item, true)
        {
          SortedNesting(xs, false, i);
          ComparesSortedLowered(sx[i].item, sy[i].item);
        }
      case _ =>
    }
  }

  /** Where no two keys of an object agree ignoring case, both tests with the flag off are equality of the trees
      with lower-cased keys up to member order. */
  lemma LooseTestsAgree(a: Json, b: Json)
    requires Distinct(Lowered(a)) && Distinct(Lowered(b))
    ensures CompareTrees(a, b, false) == CompareSorted(a, b, false) == Same(Lowered(a), Lowered(b))
  {
    ComparesLowered(a, b);
    ComparesSortedLowered(a, b);
    EqualityTestsAgree(Lowered(a), Lowered(b));
  }
}
