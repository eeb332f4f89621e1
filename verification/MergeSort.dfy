/** What `sort_list` computes, as a function on the keyed items of a chain. */
module MergeSort {
  import opened Bytes
  import opened Json

  function Compare<T>(a: Keyed<T>, b: Keyed<T>, caseSensitive: bool): int {
    CompareStrings(a.key, b.key, caseSensitive)
  }

  /** The chain is in strictly ascending order from element to element. */
  predicate Ascending<T>(s: seq<Keyed<T>>, caseSensitive: bool) {
    forall i :: 0 < i < |s| ==> Compare(s[i - 1], s[i], caseSensitive) < 0
  }

  /** The merge takes from the first chain only when its item is strictly smaller. */
  function Merge<T>(a: seq<Keyed<T>>, b: seq<Keyed<T>>, caseSensitive: bool): (m: seq<Keyed<T>>)
    ensures |m| == |a| + |b|
    decreases |a| + |b|
  {
    if a == [] then b
    else if b == [] then a
    else if Compare(a[0], b[0], caseSensitive) < 0 then [a[0]] + Merge(a[1..], b, caseSensitive)
    else [b[0]] + Merge(a, b[1..], caseSensitive)
  }

  function Sort<T>(s: seq<Keyed<T>>, caseSensitive: bool): (r: seq<Keyed<T>>)
    ensures |r| == |s|
    decreases |s|
  {
    if |s| <= 1 || Ascending(s, caseSensitive) then s
    else
      var middle := (|s| + 1) / 2;
      Merge(Sort(s[..middle], caseSensitive), Sort(s[middle..], caseSensitive), caseSensitive)
  }

  // ----- the order -----

  lemma CompareTransitive(a: CString, b: CString, c: CString, caseSensitive: bool)
    requires CompareStrings(a, b, caseSensitive) <= 0 && CompareStrings(b, c, caseSensitive) <= 0
    ensures CompareStrings(a, c, caseSensitive) <= 0
    ensures CompareStrings(a, b, caseSensitive) < 0 || CompareStrings(b, c, caseSensitive) < 0 ==> CompareStrings(a, c, caseSensitive) < 0
  {
    var x, y, z := if caseSensitive then a else LowerAll(a), if caseSensitive then b else LowerAll(b), if caseSensitive then c else LowerAll(c);
    StrCmpZero(x, y);
    StrCmpZero(y, z);
    if StrCmp(x, y) < 0 && StrCmp(y, z) < 0 {
      StrCmpTransitive(x, y, z);
    }
  }

  lemma CompareFlips(a: CString, b: CString, caseSensitive: bool)
    ensures CompareStrings(a, b, caseSensitive) == -CompareStrings(b, a, caseSensitive)
  {
    if caseSensitive {
      StrCmpAntisymmetric(a, b);
    } else {
      StrCmpAntisymmetric(LowerAll(a), LowerAll(b));
    }
  }

  predicate Sorted<T>(s: seq<Keyed<T>>, caseSensitive: bool) {
    forall i, k :: 0 <= i < k < |s| ==> Compare(s[i], s[k], caseSensitive) <= 0
  }

  lemma {:induction false} AscendingIsSorted<T>(s: seq<Keyed<T>>, caseSensitive: bool, i: nat, k: nat)
    requires Ascending(s, caseSensitive) && i < k < |s|
    ensures Compare(s[i], s[k], caseSensitive) < 0
    decreases k
  {
    if i + 1 < k {
      AscendingIsSorted(s, caseSensitive, i, k - 1);
      CompareTransitive(s[i].key, s[k - 1].key, s[k].key, caseSensitive);
    }
  }

  /** Every item of `s` is at or above `x`. */
  predicate Above<T>(x: Keyed<T>, s: seq<Keyed<T>>, caseSensitive: bool) {
    forall i :: 0 <= i < |s| ==> Compare(x, s[i], caseSensitive) <= 0
  }

  lemma {:induction false} MergeAbove<T>(x: Keyed<T>, a: seq<Keyed<T>>, b: seq<Keyed<T>>, caseSensitive: bool)
    requires Above(x, a, caseSensitive) && Above(x, b, caseSensitive)
    ensures Above(x, Merge(a, b, caseSensitive), caseSensitive)
    decreases |a| + |b|
  {
    if a != [] && b != [] {
      if Compare(a[0], b[0], caseSensitive) < 0 {
        MergeAbove(x, a[1..], b, caseSensitive);
      } else {
        MergeAbove(x, a, b[1..], caseSensitive);
      }
    }
  }

  lemma HeadAbove<T>(x: Keyed<T>, s: seq<Keyed<T>>, caseSensitive: bool)
    requires Sorted(s, caseSensitive) && s != [] && Compare(x, s[0], caseSensitive) <= 0
    ensures Above(x, s, caseSensitive)
  {
    forall i | 0 < i < |s| ensures Compare(x, s[i], caseSensitive) <= 0 {
      CompareTransitive(x.key, s[0].key, s[i].key, caseSensitive);
    }
  }

  lemma SortedCons<T>(x: Keyed<T>, s: seq<Keyed<T>>, caseSensitive: bool)
    requires Sorted(s, caseSensitive) && Above(x, s, caseSensitive)
    ensures Sorted([x] + s, caseSensitive)
  {
  }

  lemma {:induction false} MergeSorted<T>(a: seq<Keyed<T>>, b: seq<Keyed<T>>, caseSensitive: bool)
    requires Sorted(a, caseSensitive) && Sorted(b, caseSensitive)
    ensures Sorted(Merge(a, b, caseSensitive), caseSensitive)
    decreases |a| + |b|
  {
    if a != [] && b != [] {
      CompareFlips(a[0].key, b[0].key, caseSensitive);
      if Compare(a[0], b[0], caseSensitive) < 0 {
        MergeSorted(a[1..], b, caseSensitive);
        HeadAbove(a[0], b, caseSensitive);
        MergeAbove(a[0], a[1..], b, caseSensitive);
        SortedCons(a[0], Merge(a[1..], b, caseSensitive), caseSensitive);
      } else {
        MergeSorted(a, b[1..], caseSensitive);
        HeadAbove(b[0], a, caseSensitive);
        MergeAbove(b[0], a, b[1..], caseSensitive);
        SortedCons(b[0], Merge(a, b[1..], caseSensitive), caseSensitive);
      }
    }
  }

  lemma MergeStep<T>(a: seq<Keyed<T>>, b: seq<Keyed<T>>, caseSensitive: bool)
    requires a != [] && b != []
    ensures Merge(a, b, caseSensitive) ==
            if Compare(a[0], b[0], caseSensitive) < 0 then [a[0]] + Merge(a[1..], b, caseSensitive)
            else [b[0]] + Merge(a, b[1..], caseSensitive)
  {
    hide CompareStrings;
  }

  lemma MergeRest<T>(a: seq<Keyed<T>>, b: seq<Keyed<T>>, caseSensitive: bool)
    ensures a == [] ==> Merge(a, b, caseSensitive) == b
    ensures b == [] ==> Merge(a, b, caseSensitive) == a
  {
  }

  lemma {:induction false} MergeKeepsItems<T>(a: seq<Keyed<T>>, b: seq<Keyed<T>>, caseSensitive: bool)
    ensures multiset(Merge(a, b, caseSensitive)) == multiset(a) + multiset(b)
    decreases |a| + |b|
  {
    hide Compare, Merge;
    if a == [] || b == [] {
      MergeRest(a, b, caseSensitive);
    } else {
      MergeStep(a, b, caseSensitive);
      if Compare(a[0], b[0], caseSensitive) < 0 {
        MergeKeepsItems(a[1..], b, caseSensitive);
        assert a == [a[0]] + a[1..];
      } else {
        MergeKeepsItems(a, b[1..], caseSensitive);
        assert b == [b[0]] + b[1..];
      }
    }
  }

  lemma AscendingSorted<T>(s: seq<Keyed<T>>, caseSensitive: bool)
    requires Ascending(s, caseSensitive)
    ensures Sorted(s, caseSensitive)
  {
    hide CompareStrings, Ascending;
    forall i, k | 0 <= i < k < |s| ensures Compare(s[i], s[k], caseSensitive) <= 0 {
      AscendingIsSorted(s, caseSensitive, i, k);
    }
  }

  /** Sorting gives an ordered rearrangement, and leaves a strictly ascending chain exactly as it is. */
  lemma {:induction false} SortIsSort<T>(s: seq<Keyed<T>>, caseSensitive: bool)
    ensures Sorted(Sort(s, caseSensitive), caseSensitive)
    ensures multiset(Sort(s, caseSensitive)) == multiset(s)
    ensures Ascending(s, caseSensitive) ==> Sort(s, caseSensitive) == s
    decreases |s|
  {
    hide CompareStrings, Ascending, Sorted, Merge;
    if Ascending(s, caseSensitive) {
      AscendingSorted(s, caseSensitive);
    } else if |s| > 1 {
      var middle := (|s| + 1) / 2;
      var a, b := s[..middle], s[middle..];
      SortIsSort(a, caseSensitive);
      SortIsSort(b, caseSensitive);
      MergeSorted(Sort(a, caseSensitive), Sort(b, caseSensitive), caseSensitive);
      MergeKeepsItems(Sort(a, caseSensitive), Sort(b, caseSensitive), caseSensitive);
      assert s == a + b;
    } else {
      ShortAscends(s, caseSensitive);
    }
  }

  lemma ShortAscends<T>(s: seq<Keyed<T>>, caseSensitive: bool)
    requires |s| <= 1
    ensures Ascending(s, caseSensitive)
  {
  }

  // ----- which items stay at the ends -----

  /** The first item is strictly below every other. */
  predicate FirstLeads<T>(s: seq<Keyed<T>>, caseSensitive: bool) {
    forall i :: 0 < i < |s| ==> Compare(s[0], s[i], caseSensitive) < 0
  }

  /** The last item is strictly above every other. */
  predicate LastTrails<T>(s: seq<Keyed<T>>, caseSensitive: bool) {
    forall i :: 0 <= i < |s| - 1 ==> Compare(s[i], s[|s| - 1], caseSensitive) < 0
  }

  /** Sorting leaves both ends where they are: what a caller can ask before the call. */
  predicate EndsStay<T>(s: seq<Keyed<T>>, caseSensitive: bool) {
    FirstLeads(s, caseSensitive) && LastTrails(s, caseSensitive)
  }

  lemma AscendingEnds<T>(s: seq<Keyed<T>>, caseSensitive: bool)
    requires Ascending(s, caseSensitive)
    ensures EndsStay(s, caseSensitive)
  {
    hide CompareStrings, Ascending;
    forall i, k | 0 <= i < k < |s| ensures Compare(s[i], s[k], caseSensitive) < 0 {
      AscendingIsSorted(s, caseSensitive, i, k);
    }
  }

  lemma OrderOfTwo<T>(s: seq<Keyed<T>>, caseSensitive: bool, x: Keyed<T>, y: Keyed<T>)
    requires Sorted(s, caseSensitive) && x in s && y in s && Compare(x, y, caseSensitive) < 0
    ensures x != s[|s| - 1] && y != s[0]
  {
    var i :| 0 <= i < |s| && s[i] == x;
    var k :| 0 <= k < |s| && s[k] == y;
    CompareFlips(x.key, y.key, caseSensitive);
    hide CompareStrings;
  }

  lemma MergeFirst<T>(a: seq<Keyed<T>>, b: seq<Keyed<T>>, caseSensitive: bool)
    requires a != [] && b != []
    ensures Merge(a, b, caseSensitive)[0] == if Compare(a[0], b[0], caseSensitive) < 0 then a[0] else b[0]
  {
  }

  lemma {:induction false} MergeLast<T>(a: seq<Keyed<T>>, b: seq<Keyed<T>>, caseSensitive: bool)
    requires a != [] && b != [] && Sorted(a, caseSensitive) && Sorted(b, caseSensitive)
    ensures var x, y := a[|a| - 1], b[|b| - 1];
      Merge(a, b, caseSensitive)[|a| + |b| - 1] == if Compare(x, y, caseSensitive) < 0 then y else x
    decreases |a| + |b|
  {
    hide Compare, Sorted, Merge;
    var x, y := a[|a| - 1], b[|b| - 1];
    MergeStep(a, b, caseSensitive);
    if Compare(a[0], b[0], caseSensitive) < 0 {
      if |a| == 1 {
        MergeRest(a[1..], b, caseSensitive);
        TopOf(b, caseSensitive);
        BelowTop(x, b[0], y, caseSensitive);
      } else {
        RestSorted(a, caseSensitive);
        MergeLast(a[1..], b, caseSensitive);
      }
    } else {
      if |b| == 1 {
        MergeRest(a, b[1..], caseSensitive);
        TopOf(a, caseSensitive);
        NotBelow(a[0], x, y, caseSensitive);
      } else {
        RestSorted(b, caseSensitive);
        MergeLast(a, b[1..], caseSensitive);
      }
    }
  }

  lemma BelowTop<T>(x: Keyed<T>, low: Keyed<T>, high: Keyed<T>, caseSensitive: bool)
    requires Compare(x, low, caseSensitive) < 0 && Compare(low, high, caseSensitive) <= 0
    ensures Compare(x, high, caseSensitive) < 0
  {
    CompareTransitive(x.key, low.key, high.key, caseSensitive);
  }

  lemma TopOf<T>(s: seq<Keyed<T>>, caseSensitive: bool)
    requires s != [] && Sorted(s, caseSensitive)
    ensures forall i :: 0 <= i < |s| ==> Compare(s[0], s[i], caseSensitive) <= 0 && Compare(s[i], s[|s| - 1], caseSensitive) <= 0
  {
    forall i | 0 <= i < |s| ensures Compare(s[i], s[i], caseSensitive) <= 0 {
      CompareFlips(s[i].key, s[i].key, caseSensitive);
    }
  }

  lemma RestSorted<T>(s: seq<Keyed<T>>, caseSensitive: bool)
    requires s != [] && Sorted(s, caseSensitive)
    ensures Sorted(s[1..], caseSensitive)
  {
    hide CompareStrings;
  }

  lemma NotBelow<T>(low: Keyed<T>, high: Keyed<T>, y: Keyed<T>, caseSensitive: bool)
    requires Compare(low, high, caseSensitive) <= 0 && Compare(low, y, caseSensitive) >= 0
    ensures Compare(high, y, caseSensitive) >= 0
  {
    if Compare(high, y, caseSensitive) < 0 {
      CompareTransitive(low.key, high.key, y.key, caseSensitive);
    }
  }

  /** The item at the head stays there if and only if it is strictly below every other: a merge prefers its second chain. */
  lemma {:induction false} FirstStays<T>(s: seq<Keyed<T>>, caseSensitive: bool)
    requires s != [] && NoRepeats(s)
    ensures Sort(s, caseSensitive)[0] == s[0] <==> FirstLeads(s, caseSensitive)
    decreases |s|
  {
    hide CompareStrings, Ascending, Sorted, FirstLeads, Merge;
    var r := Sort(s, caseSensitive);
    SortIsSort(s, caseSensitive);
    InBoth(s, r, r[0]);
    if FirstLeads(s, caseSensitive) && r[0] != s[0] {
      InBoth(s, r, s[0]);
      FirstBelow(s, r[0], caseSensitive);
      OrderOfTwo(r, caseSensitive, s[0], r[0]);
      assert false;
    }
    if r[0] == s[0] && (|s| <= 1 || Ascending(s, caseSensitive)) {
      if |s| <= 1 {
        ShortAscends(s, caseSensitive);
      }
      AscendingEnds(s, caseSensitive);
    } else if r[0] == s[0] {
      var middle := (|s| + 1) / 2;
      var a, b := s[..middle], s[middle..];
      var x, y := Sort(a, caseSensitive), Sort(b, caseSensitive);
      HalvesApart(s, middle);
      SortIsSort(b, caseSensitive);
      InBoth(b, y, y[0]);
      MergeFirst(x, y, caseSensitive);
      FirstStays(a, caseSensitive);
      FirstOfHalves(s, middle, y, caseSensitive);
    }
  }

  lemma FirstBelow<T>(s: seq<Keyed<T>>, x: Keyed<T>, caseSensitive: bool)
    requires FirstLeads(s, caseSensitive) && x in s && x != s[0]
    ensures Compare(s[0], x, caseSensitive) < 0
  {
  }

  lemma LastAbove<T>(s: seq<Keyed<T>>, x: Keyed<T>, caseSensitive: bool)
    requires LastTrails(s, caseSensitive) && x in s && x != s[|s| - 1]
    ensures Compare(x, s[|s| - 1], caseSensitive) < 0
  {
  }

  lemma HalvesApart<T>(s: seq<T>, middle: nat)
    requires NoRepeats(s) && middle <= |s|
    ensures NoRepeats(s[..middle]) && NoRepeats(s[middle..])
    ensures forall x :: x in s[middle..] ==> x !in s[..middle]
  {
    assert s == s[..middle] + s[middle..];
  }

  lemma FirstOfHalves<T>(s: seq<Keyed<T>>, middle: nat, y: seq<Keyed<T>>, caseSensitive: bool)
    requires 0 < middle < |s| && FirstLeads(s[..middle], caseSensitive)
    requires y != [] && Sorted(y, caseSensitive) && multiset(y) == multiset(s[middle..]) && Compare(s[0], y[0], caseSensitive) < 0
    ensures FirstLeads(s, caseSensitive)
  {
    hide CompareStrings, Sorted;
    TopOf(y, caseSensitive);
    forall i | 0 < i < |s| ensures Compare(s[0], s[i], caseSensitive) < 0 {
      if i < middle {
        assert s[i] == s[..middle][i];
      } else {
        assert s[i] == s[middle..][i - middle];
        InBoth(y, s[middle..], s[i]);
        var k :| 0 <= k < |y| && y[k] == s[i];
        CompareTransitive(s[0].key, y[0].key, y[k].key, caseSensitive);
      }
    }
  }

  lemma LastOfHalves<T>(s: seq<Keyed<T>>, middle: nat, x: seq<Keyed<T>>, caseSensitive: bool)
    requires 0 < middle < |s| && LastTrails(s[middle..], caseSensitive)
    requires x != [] && Sorted(x, caseSensitive) && multiset(x) == multiset(s[..middle]) && Compare(x[|x| - 1], s[|s| - 1], caseSensitive) < 0
    ensures LastTrails(s, caseSensitive)
  {
    hide CompareStrings, Sorted;
    TopOf(x, caseSensitive);
    forall i | 0 <= i < |s| - 1 ensures Compare(s[i], s[|s| - 1], caseSensitive) < 0 {
      if i < middle {
        assert s[i] == s[..middle][i];
        InBoth(x, s[..middle], s[i]);
        var k :| 0 <= k < |x| && x[k] == s[i];
        CompareTransitive(x[k].key, x[|x| - 1].key, s[|s| - 1].key, caseSensitive);
      } else {
        assert s[i] == s[middle..][i - middle];
      }
    }
  }

  lemma TrailingStays<T>(s: seq<Keyed<T>>, caseSensitive: bool)
    requires s != [] && LastTrails(s, caseSensitive)
    ensures Sort(s, caseSensitive)[|s| - 1] == s[|s| - 1]
  {
    hide CompareStrings, Ascending, Sorted, LastTrails, Merge, Sort;
    var r, last := Sort(s, caseSensitive), |s| - 1;
    SortIsSort(s, caseSensitive);
    if r[last] != s[last] {
      InBoth(s, r, r[last]);
      InBoth(s, r, s[last]);
      LastAbove(s, r[last], caseSensitive);
      OrderOfTwo(r, caseSensitive, r[last], s[last]);
    }
  }

  /** The item at the tail stays there if and only if it is strictly above every other. */
  lemma {:induction false} LastStays<T>(s: seq<Keyed<T>>, caseSensitive: bool)
    requires s != [] && NoRepeats(s)
    ensures Sort(s, caseSensitive)[|s| - 1] == s[|s| - 1] <==> LastTrails(s, caseSensitive)
    decreases |s|
  {
    hide CompareStrings, Ascending, Sorted, LastTrails, Merge, NoRepeats;
    if |s| <= 1 || Ascending(s, caseSensitive) {
      if |s| <= 1 {
        ShortAscends(s, caseSensitive);
      }
      AscendingEnds(s, caseSensitive);
    } else {
      var middle := (|s| + 1) / 2;
      HalvesApart(s, middle);
      LastStays(s[middle..], caseSensitive);
      LastOfMerge(s, middle, caseSensitive);
    }
  }

  lemma LastOfMerge<T>(s: seq<Keyed<T>>, middle: nat, caseSensitive: bool)
    requires 0 < middle < |s| && Sort(s, caseSensitive) == Merge(Sort(s[..middle], caseSensitive), Sort(s[middle..], caseSensitive), caseSensitive)
    requires forall x :: x in s[middle..] ==> x !in s[..middle]
    requires Sort(s[middle..], caseSensitive)[|s| - middle - 1] == s[|s| - 1] <==> LastTrails(s[middle..], caseSensitive)
    ensures Sort(s, caseSensitive)[|s| - 1] == s[|s| - 1] <==> LastTrails(s, caseSensitive)
  {
    hide CompareStrings, Ascending, Sorted, LastTrails, Merge, Sort;
    var a, b, last := s[..middle], s[middle..], s[|s| - 1];
    var x, y := Sort(a, caseSensitive), Sort(b, caseSensitive);
    if LastTrails(s, caseSensitive) {
      TrailingStays(s, caseSensitive);
    } else if Sort(s, caseSensitive)[|s| - 1] == last {
      SortIsSort(a, caseSensitive);
      SortIsSort(b, caseSensitive);
      assert last == b[|b| - 1] && last in b;
      InBoth(a, x, x[|x| - 1]);
      MergeLast(x, y, caseSensitive);
      LastOfHalves(s, middle, x, caseSensitive);
      assert false;
    }
  }

  /** The list as far as the first `x` in it. */
  function UpTo<T(==)>(s: seq<T>, x: T): (r: seq<T>)
    ensures |r| <= |s|
  {
    if s == [] || s[0] == x then s[..if s == [] then 0 else 1] else [s[0]] + UpTo(s[1..], x)
  }

  /** What the list is when an item is appended behind sorting: appending starts from the head's link to the old last
      item, and a head that was moved has none. */
  function SortedThenAppended<T(==)>(s: seq<Keyed<T>>, caseSensitive: bool, item: Keyed<T>): seq<Keyed<T>> {
    if s == [] then [item]
    else if FirstLeads(s, caseSensitive) then UpTo(Sort(s, caseSensitive), s[|s| - 1]) + [item]
    else Sort(s, caseSensitive)
  }

  lemma {:induction false} UpToPlace<T>(s: seq<T>, k: nat)
    requires NoRepeats(s) && k < |s|
    ensures UpTo(s, s[k]) == s[..k + 1]
  {
    if k > 0 {
      UpToPlace(s[1..], k - 1);
      assert s[1..][k - 1] == s[k];
    }
  }

  lemma AtMostOnce<T>(s: seq<T>, x: T)
    requires NoRepeats(s)
    ensures multiset(s)[x] <= 1
  {
    if x in s {
      var i :| 0 <= i < |s| && s[i] == x;
      assert s == s[..i] + [s[i]] + s[i + 1..];
      assert x !in s[..i] && x !in s[i + 1..];
    }
  }

  lemma NoTwice<T>(a: seq<T>, b: seq<T>)
    requires multiset(a) == multiset(b) && NoRepeats(a)
    ensures NoRepeats(b)
  {
    forall i, k | 0 <= i < k < |b| ensures b[i] != b[k] {
      AtMostOnce(a, b[i]);
      if b[i] == b[k] {
        TwiceIn(b, i, k);
      }
    }
  }

  /** Appending behind sorting keeps everything if and only if both ends stay. */
  lemma AppendsToSorted<T>(s: seq<Keyed<T>>, caseSensitive: bool, item: Keyed<T>)
    requires NoRepeats(s)
    ensures SortedThenAppended(s, caseSensitive, item) == Sort(s, caseSensitive) + [item] <==> EndsStay(s, caseSensitive)
  {
    hide Sort, FirstLeads, LastTrails, NoRepeats, CompareStrings;
    var r := Sort(s, caseSensitive);
    if s == [] {
      ShortAscends(s, caseSensitive);
      AscendingEnds(s, caseSensitive);
    } else if FirstLeads(s, caseSensitive) {
      var last := s[|s| - 1];
      SortIsSort(s, caseSensitive);
      NoTwice(s, r);
      InBoth(s, r, last);
      var k :| 0 <= k < |r| && r[k] == last;
      UpToPlace(r, k);
      LastStays(s, caseSensitive);
      OnlyPlace(r, k, |r| - 1);
      assert UpTo(r, last) + [item] == r + [item] ==> |UpTo(r, last) + [item]| == |r + [item]|;
      assert r[..|r|] == r;
    } else {
      assert |r| != |r + [item]|;
    }
  }

  lemma OnlyPlace<T>(s: seq<T>, i: nat, k: nat)
    requires i < |s| && k < |s| && NoRepeats(s)
    ensures s[i] == s[k] <==> i == k
  {
  }

  /** Keys b, a: the head moves. Keys a, c, b: only the tail does. Keys a, c, b, d: both stay, though the list is not in
      order. */
  lemma EndsAtInputs(caseSensitive: bool)
    ensures !FirstLeads([Keyed([98], 0), Keyed([97], 1)], caseSensitive)
    ensures var s := [Keyed([97], 0), Keyed([99], 1), Keyed([98], 2)];
      FirstLeads(s, caseSensitive) && !LastTrails(s, caseSensitive)
    ensures var s := [Keyed([97], 0), Keyed([99], 1), Keyed([98], 2), Keyed([100], 3)];
      EndsStay(s, caseSensitive) && !Ascending(s, caseSensitive)
  {
    assert LowerAll([97]) == [97] && LowerAll([98]) == [98] && LowerAll([99]) == [99] && LowerAll([100]) == [100];
    var s := [Keyed([98], 0), Keyed([97], 1)];
    assert Compare(s[0], s[1], caseSensitive) == 1;
    var t := [Keyed([97], 0), Keyed([99], 1), Keyed([98], 2)];
    assert Compare(t[1], t[2], caseSensitive) == 1;
    var u := [Keyed([97], 0), Keyed([99], 1), Keyed([98], 2), Keyed([100], 3)];
    assert Compare(u[2 - 1], u[2], caseSensitive) == 1;
  }

  // ----- sorting by distinct keys -----

  /** No key repeats among siblings. */
  predicate DistinctKeys<T>(s: seq<Keyed<T>>) {
    forall i, k :: 0 <= i < k < |s| ==> s[i].key != s[k].key
  }

  lemma InBoth<T>(a: seq<T>, b: seq<T>, x: T)
    requires multiset(a) == multiset(b)
    ensures x in a <==> x in b
  {
    assert x in multiset(a) <==> x in a;
    assert x in multiset(b) <==> x in b;
  }

  lemma TwiceIn<T>(s: seq<T>, i: nat, k: nat)
    requires i < k < |s| && s[i] == s[k]
    ensures multiset(s)[s[i]] >= 2
  {
    assert s == s[..k] + [s[k]] + s[k + 1..];
    assert s[i] in s[..k];
  }

  /** A rearrangement of distinctly keyed items is distinctly keyed. */
  lemma RearrangedDistinct<T>(a: seq<Keyed<T>>, b: seq<Keyed<T>>)
    requires multiset(a) == multiset(b) && DistinctKeys(a)
    ensures DistinctKeys(b)
  {
    forall i, k | 0 <= i < k < |b| ensures b[i].key != b[k].key {
      InBoth(a, b, b[i]);
      InBoth(a, b, b[k]);
      var x :| 0 <= x < |a| && a[x] == b[i];
      var y :| 0 <= y < |a| && a[y] == b[k];
      OnceOnly(a, x);
      if b[i] == b[k] {
        TwiceIn(b, i, k);
      }
    }
  }

  lemma OnceOnly<T>(a: seq<Keyed<T>>, x: nat)
    requires x < |a| && DistinctKeys(a)
    ensures multiset(a)[a[x]] == 1
  {
    assert a == a[..x] + [a[x]] + a[x + 1..];
    assert a[x] !in a[..x] && a[x] !in a[x + 1..];
  }

  /** Distinct keys in strictly ascending order: each is smaller than all that follow. */
  lemma SortedStrictly<T>(s: seq<Keyed<T>>)
    requires DistinctKeys(s)
    ensures DistinctKeys(Sort(s, true)) && multiset(Sort(s, true)) == multiset(s)
    ensures forall i, k :: 0 <= i < k < |s| ==> StrCmp(Sort(s, true)[i].key, Sort(s, true)[k].key) < 0
  {
    SortIsSort(s, true);
    var r := Sort(s, true);
    RearrangedDistinct(s, r);
    forall i, k | 0 <= i < k < |s| ensures StrCmp(r[i].key, r[k].key) < 0 {
      assert Compare(r[i], r[k], true) <= 0;
      StrCmpZero(r[i].key, r[k].key);
    }
  }
}
