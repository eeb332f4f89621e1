/** Merging a generated merge patch: exactly when it gives the tree the patch was generated for. */
module MergeRoundTrip {
  import opened Bytes
  import opened Json
  import opened MergeSort
  import opened Canon
  import opened Compare
  import opened CompareWalk
  import opened Merge
  import opened MergeGenerate

  // ----- what a merge patch can say -----

  /** No null is reachable through objects only. */
  predicate NullFree(c: Canon)
    decreases c
  {
    match c
    case Dict(members) => forall k :: k in members ==> members[k] != Scalar(Null) && NullFree(members[k])
    case _ => true
  }

  /** A merge patch can lead from the one to the other: wherever the two objects differ at a key, the goal there is
      not null, and what is new below it has no nulls. */
  predicate Expressible(from: Canon, goal: Canon)
    decreases goal
  {
    match (from, goal)
    case (Dict(fs), Dict(ts)) =>
      forall k :: k in ts ==>
        (k in fs && fs[k] == ts[k])
        || (ts[k] != Scalar(Null) && if k in fs then Expressible(fs[k], ts[k]) else NullFree(ts[k]))
    case _ => NullFree(goal)
  }

  predicate ExpressibleAt(from: Option<Canon>, to: Option<Canon>) {
    match (from, to)
    case (_, None) => true
    case (None, Some(t)) => t != Scalar(Null) && NullFree(t)
    case (Some(f), Some(t)) => f == t || (t != Scalar(Null) && Expressible(f, t))
  }

  lemma {:induction false} NullFreeSuffices(from: Canon, goal: Canon)
    requires NullFree(goal)
    ensures Expressible(from, goal)
    decreases goal
  {
    if from.Dict? && goal.Dict? {
      forall k | k in goal.members && k in from.members ensures Expressible(from.members[k], goal.members[k]) {
        NullFreeSuffices(from.members[k], goal.members[k]);
      }
    }
  }

  /** Merging a tree into nothing reproduces it exactly when it has no such null. */
  lemma {:induction false} RfcOnNothing(target: Option<Canon>, c: Canon)
    requires target.Some? ==> !target.value.Dict?
    ensures Rfc7396(target, c) == c <==> NullFree(c)
    decreases c
  {
    if c.Dict? {
      var merged := Rfc7396(target, c).members;
      forall k | k in c.members
        ensures MaybeAt(merged, k) == MaybeAt(c.members, k) <==> c.members[k] != Scalar(Null) && NullFree(c.members[k])
      {
        RfcOnNothing(None, c.members[k]);
      }
      if NullFree(c) {
        assert merged == c.members;
      } else {
        var k :| k in c.members && !(c.members[k] != Scalar(Null) && NullFree(c.members[k]));
        assert MaybeAt(merged, k) != MaybeAt(c.members, k);
      }
    }
  }

  // ----- one key at a time -----

  function With(m: map<CString, Canon>, key: CString, value: Option<Canon>): map<CString, Canon> {
    match value
    case None => m
    case Some(v) => m[key := v]
  }

  /** What a change leaves at a key. */
  function AppliedAt(from: Option<Canon>, change: Option<Canon>): Option<Canon> {
    match change
    case None => from
    case Some(c) => if c == Scalar(Null) then None else Some(Rfc7396(from, c))
  }

  lemma WithAt(m: map<CString, Canon>, key: CString, value: Option<Canon>, k: CString)
    requires key !in m
    ensures MaybeAt(With(m, key, value), k) == if k == key then value else MaybeAt(m, k)
  {
  }

  lemma OverlayWith(base: map<CString, Canon>, changes: map<CString, Canon>, key: CString, from: Option<Canon>, change: Option<Canon>)
    requires key !in base && key !in changes
    ensures key !in Overlay(base, changes)
    ensures Overlay(With(base, key, from), With(changes, key, change)) == With(Overlay(base, changes), key, AppliedAt(from, change))
  {
    hide Overlay, Rfc7396;
    var b, c := With(base, key, from), With(changes, key, change);
    OverlayAt(base, changes, key);
    forall k ensures MaybeAt(Overlay(b, c), k) == MaybeAt(With(Overlay(base, changes), key, AppliedAt(from, change)), k) {
      OverlayAt(b, c, k);
      OverlayAt(base, changes, k);
      WithAt(base, key, from, k);
      WithAt(changes, key, change, k);
    }
    EqualMaps(Overlay(b, c), With(Overlay(base, changes), key, AppliedAt(from, change)));
  }

  lemma WithEqual(a: map<CString, Canon>, b: map<CString, Canon>, key: CString, x: Option<Canon>, y: Option<Canon>)
    requires key !in a && key !in b
    ensures With(a, key, x) == With(b, key, y) <==> a == b && x == y
  {
    if With(a, key, x) == With(b, key, y) {
      WithAt(a, key, x, key);
      WithAt(b, key, y, key);
      forall k ensures MaybeAt(a, k) == MaybeAt(b, k) {
        WithAt(a, key, x, k);
        WithAt(b, key, y, k);
      }
      EqualMaps(a, b);
    }
  }

  lemma ExpressibleWith(fs: map<CString, Canon>, ts: map<CString, Canon>, key: CString, from: Option<Canon>, to: Option<Canon>)
    requires key !in fs && key !in ts
    ensures Expressible(Dict(With(fs, key, from)), Dict(With(ts, key, to))) <==> Expressible(Dict(fs), Dict(ts)) && ExpressibleAt(from, to)
  {
    var f, t := With(fs, key, from), With(ts, key, to);
    assert forall k :: k in ts ==> k in t && t[k] == ts[k] && (k in f <==> k in fs) && (k in fs ==> f[k] == fs[k]);
    assert forall k :: k in t && k != key ==> k in ts;
    assert to.Some? ==> key in t && t[key] == to.value && (key in f <==> from.Some?) && (from.Some? ==> f[key] == from.value);
  }

  /** If the change at one key says what it should, and the other changes do, then all of them do. */
  lemma HeadTells(fs: map<CString, Canon>, ts: map<CString, Canon>, changes: map<CString, Canon>, key: CString,
                  from: Option<Canon>, to: Option<Canon>, change: Option<Canon>)
    requires key !in fs && key !in ts && key !in changes
    requires AppliedAt(from, change) == to <==> ExpressibleAt(from, to)
    requires Overlay(fs, changes) == ts <==> Expressible(Dict(fs), Dict(ts))
    ensures Overlay(With(fs, key, from), With(changes, key, change)) == With(ts, key, to)
       <==> Expressible(Dict(With(fs, key, from)), Dict(With(ts, key, to)))
  {
    hide Overlay, Rfc7396, Expressible, With;
    OverlayWith(fs, changes, key, from, change);
    WithEqual(Overlay(fs, changes), ts, key, AppliedAt(from, change), to);
    ExpressibleWith(fs, ts, key, from, to);
  }

  // ----- where dropping the case flag does not matter -----

  /** The order ignoring case is the order byte by byte. */
  predicate SameOrder(k: CString, l: CString) {
    CompareStrings(k, l, false) < 0 <==> StrCmp(k, l) < 0
  }

  predicate InSameOrder(keys: set<CString>) {
    forall k, l :: k in keys && l in keys ==> SameOrder(k, l)
  }

  /** In objects that are walked side by side the two orders agree, and where values are only compared, no two keys of
      the two objects agree ignoring case. */
  predicate Orderly(from: Canon, to: Canon)
    decreases from
  {
    match (from, to)
    case (Dict(fs), Dict(ts)) => InSameOrder(fs.Keys + ts.Keys) && forall k :: k in fs && k in ts ==> Orderly(fs[k], ts[k])
    case _ => Comparable(from, to)
  }

  /** Only where the case flag is off is any order required: with the flag on, below the members that differ. */
  predicate OrderlyAt(from: Canon, to: Canon, caseSensitive: bool) {
    (caseSensitive && from == to) || Orderly(from, to)
  }

  predicate OrderlyWalk(from: Canon, to: Canon, caseSensitive: bool) {
    if !caseSensitive then Orderly(from, to)
    else from.Dict? && to.Dict? ==>
      forall k :: k in from.members && k in to.members ==> OrderlyAt(from.members[k], to.members[k], true)
  }

  lemma SameOrderIsApart(k: CString, l: CString)
    requires SameOrder(k, l) && SameOrder(l, k) && LowerAll(k) == LowerAll(l)
    ensures k == l
  {
    StrCmpZero(LowerAll(k), LowerAll(l));
    StrCmpZero(LowerAll(l), LowerAll(k));
    StrCmpAntisymmetric(k, l);
    StrCmpZero(k, l);
  }

  lemma {:induction false} OrderlyIsComparable(from: Canon, to: Canon)
    requires Orderly(from, to)
    ensures Comparable(from, to)
    decreases from
  {
    hide LowerAll, SameOrder;
    if from.Dict? && to.Dict? {
      var keys := from.members.Keys + to.members.Keys;
      forall k, l | k in keys && l in keys && LowerAll(k) == LowerAll(l) ensures k == l {
        SameOrderIsApart(k, l);
      }
      forall k | k in from.members && k in to.members ensures Comparable(from.members[k], to.members[k]) {
        OrderlyIsComparable(from.members[k], to.members[k]);
      }
    }
  }

  predicate KeysInOrder<T>(s: seq<Keyed<T>>) {
    forall i, k :: 0 <= i < |s| && 0 <= k < |s| ==> SameOrder(s[i].key, s[k].key)
  }

  lemma {:induction false} MergeIgnoresCase<T>(a: seq<Keyed<T>>, b: seq<Keyed<T>>)
    requires forall i, k :: 0 <= i < |a| && 0 <= k < |b| ==> SameOrder(a[i].key, b[k].key)
    ensures MergeSort.Merge(a, b, false) == MergeSort.Merge(a, b, true)
    decreases |a| + |b|
  {
    hide SameOrder, MergeSort.Merge, CompareStrings;
    if a == [] || b == [] {
      MergeRest(a, b, false);
      MergeRest(a, b, true);
    } else {
      MergeSort.MergeStep(a, b, false);
      MergeSort.MergeStep(a, b, true);
      HeadsInOrder(a[0], b[0]);
      MergeIgnoresCase(a[1..], b);
      MergeIgnoresCase(a, b[1..]);
    }
  }

  lemma HeadsInOrder<T>(a: Keyed<T>, b: Keyed<T>)
    requires SameOrder(a.key, b.key)
    ensures MergeSort.Compare(a, b, false) < 0 <==> MergeSort.Compare(a, b, true) < 0
  {
  }

  lemma SortKeepsAll<T>(s: seq<Keyed<T>>, caseSensitive: bool)
    ensures forall m :: m in Sort(s, caseSensitive) <==> m in s
  {
    hide Sort;
    SortIsSort(s, caseSensitive);
    forall m ensures m in Sort(s, caseSensitive) <==> m in s {
      InBoth(s, Sort(s, caseSensitive), m);
    }
  }

  lemma HalvesInOrder<T>(s: seq<Keyed<T>>, n: nat)
    requires KeysInOrder(s) && n <= |s|
    ensures KeysInOrder(s[..n]) && KeysInOrder(s[n..])
  {
    hide SameOrder;
  }

  lemma SortedHalvesInOrder<T>(s: seq<Keyed<T>>, n: nat)
    requires KeysInOrder(s) && n <= |s|
    ensures var a, b := Sort(s[..n], true), Sort(s[n..], true);
      forall i, k :: 0 <= i < |a| && 0 <= k < |b| ==> SameOrder(a[i].key, b[k].key)
  {
    hide SameOrder, Sort;
    var a, b := Sort(s[..n], true), Sort(s[n..], true);
    SortIsSort(s[..n], true);
    SortIsSort(s[n..], true);
    forall i, k | 0 <= i < |a| && 0 <= k < |b| ensures SameOrder(a[i].key, b[k].key) {
      InBoth(s[..n], a, a[i]);
      InBoth(s[n..], b, b[k]);
      var x :| 0 <= x < n && s[..n][x] == a[i];
      var y :| 0 <= y < |s| - n && s[n..][y] == b[k];
      assert s[x] == a[i] && s[n + y] == b[k];
    }
  }

  lemma AscendingIgnoresCase<T>(s: seq<Keyed<T>>)
    requires KeysInOrder(s)
    ensures Ascending(s, false) == Ascending(s, true)
  {
    hide CompareStrings, SameOrder;
    forall i | 0 < i < |s| ensures MergeSort.Compare(s[i - 1], s[i], false) < 0 <==> MergeSort.Compare(s[i - 1], s[i], true) < 0 {
      HeadsInOrder(s[i - 1], s[i]);
    }
  }

  lemma SortUnfolds<T>(s: seq<Keyed<T>>, caseSensitive: bool)
    ensures Sort(s, caseSensitive) ==
      if |s| <= 1 || Ascending(s, caseSensitive) then s
      else MergeSort.Merge(Sort(s[..(|s| + 1) / 2], caseSensitive), Sort(s[(|s| + 1) / 2..], caseSensitive), caseSensitive)
  {
    hide Ascending, MergeSort.Merge;
  }

  /** Where the two orders agree, sorting ignoring case is sorting. */
  lemma {:induction false} SortIgnoresCase<T>(s: seq<Keyed<T>>)
    requires KeysInOrder(s)
    ensures Sort(s, false) == Sort(s, true)
    decreases |s|
  {
    hide Ascending, KeysInOrder, SameOrder, MergeSort.Merge, Sort;
    AscendingIgnoresCase(s);
    SortUnfolds(s, false);
    SortUnfolds(s, true);
    if |s| > 1 {
      var n := (|s| + 1) / 2;
      HalvesInOrder(s, n);
      SortIgnoresCase(s[..n]);
      SortIgnoresCase(s[n..]);
      SortedHalvesInOrder(s, n);
      MergeIgnoresCase(Sort(s[..n], true), Sort(s[n..], true));
    }
  }

  // ----- what the generated patch says -----

  ghost predicate ReadyToWalk(xs: seq<Keyed<Json>>, ys: seq<Keyed<Json>>, caseSensitive: bool, depth: nat) {
    && Strictly(xs) && Strictly(ys)
    && (forall i :: 0 <= i < |xs| ==> Distinct(xs[i].item) && Nesting(xs[i].item) < depth)
    && (forall i :: 0 <= i < |ys| ==> Distinct(ys[i].item) && Copyable(ys[i].item, 0))
    && (forall i, k :: 0 <= i < |xs| && 0 <= k < |ys| && xs[i].key == ys[k].key ==> OrderlyAt(Norm(xs[i].item), Norm(ys[k].item), caseSensitive))
  }

  /** The changes are in order, empty only without a difference, and lead to the goal exactly where any could. */
  ghost predicate Tells(fs: map<CString, Canon>, ts: map<CString, Canon>, changes: seq<Keyed<Json>>) {
    && Distinct(Object(changes)) && Mergeable(Object(changes))
    && NormMembers(changes).Keys <= fs.Keys + ts.Keys
    && (changes == [] <==> fs == ts)
    && (Overlay(fs, NormMembers(changes)) == ts <==> Expressible(Dict(fs), Dict(ts)))
  }

  lemma PrependEntry(key: CString, value: Option<Json>, rest: seq<Keyed<Json>>)
    requires Distinct(Object(rest)) && Mergeable(Object(rest)) && key !in NormMembers(rest)
    requires value.Some? ==> Distinct(value.value) && Mergeable(value.value)
    ensures Distinct(Object(Entry(key, value) + rest)) && Mergeable(Object(Entry(key, value) + rest))
    ensures NormMembers(Entry(key, value) + rest) == With(NormMembers(rest), key, NormMaybe(value))
  {
    hide Norm;
    NormKeys(rest, key);
    match value {
      case None => assert [] + rest == rest;
      case Some(v) =>
        var all := [Keyed(key, v)] + rest;
        assert all[1..] == rest;
        assert forall i :: 0 < i < |all| ==> all[i] == rest[i - 1];
    }
  }

  lemma EntryTells(fs: map<CString, Canon>, ts: map<CString, Canon>, rest: seq<Keyed<Json>>, key: CString,
                   from: Option<Canon>, to: Option<Canon>, value: Option<Json>)
    requires Tells(fs, ts, rest) && key !in fs && key !in ts && (from.Some? || to.Some?)
    requires value.Some? ==> Distinct(value.value) && Mergeable(value.value)
    requires value.None? <==> from == to
    requires AppliedAt(from, NormMaybe(value)) == to <==> ExpressibleAt(from, to)
    ensures Tells(With(fs, key, from), With(ts, key, to), Entry(key, value) + rest)
  {
    hide Norm, NormMembers, Distinct, Mergeable, Overlay, Expressible, ExpressibleAt, AppliedAt;
    PrependEntry(key, value, rest);
    HeadTells(fs, ts, NormMembers(rest), key, from, to, NormMaybe(value));
    WithEqual(fs, ts, key, from, to);
  }

  lemma {:induction false} CopyableIsMergeable(j: Json)
    requires Copyable(j, 0)
    ensures Mergeable(j)
    decreases j
  {
    if j.Object? {
      forall i | 0 <= i < |j.members| ensures Mergeable(j.members[i].item) {
        CopyableHigher(j.members[i].item, 0);
        CopyableIsMergeable(j.members[i].item);
      }
    }
  }

  lemma {:induction false} ChangesTell(xs: seq<Keyed<Json>>, ys: seq<Keyed<Json>>, caseSensitive: bool, depth: nat)
    requires ReadyToWalk(xs, ys, caseSensitive, depth)
    ensures Tells(NormMembers(xs), NormMembers(ys), Changes(xs, ys, caseSensitive, depth))
    decreases depth, 0, |xs| + |ys|
  {
    hide Norm, NormMembers, Tells, Distinct, Expressible, ToTell, Rfc7396, Copyable, Entry, OrderlyAt;
    if xs == [] && ys == [] {
      NothingTells();
    } else {
      var diff := HeadDifference(xs, ys);
      if diff < 0 {
        var key := xs[0].key;
        TailAsMap(xs);
        SmallestKey(key, ys);
        ChangesTell(xs[1..], ys, caseSensitive, depth);
        NullIsNull(Null);
        NullTells();
        EntryTells(NormMembers(xs[1..]), NormMembers(ys), Changes(xs[1..], ys, caseSensitive, depth), key,
                   Some(Norm(xs[0].item)), None, Some(Null));
      } else if diff > 0 {
        var key, y := ys[0].key, ys[0].item;
        TailAsMap(ys);
        if xs != [] { StrCmpAntisymmetric(xs[0].key, key); }
        SmallestKey(key, xs);
        ChangesTell(xs, ys[1..], caseSensitive, depth);
        AddedTells(y);
        EntryTells(NormMembers(xs), NormMembers(ys[1..]), Changes(xs, ys[1..], caseSensitive, depth), key,
                   None, Some(Norm(y)), Duplicate(y));
      } else {
        var key, x, y := ys[0].key, xs[0].item, ys[0].item;
        StrCmpZero(xs[0].key, key);
        TailAsMap(xs);
        TailAsMap(ys);
        ChangesTell(xs[1..], ys[1..], caseSensitive, depth);
        var value := SharedTells(x, y, caseSensitive, depth);
        EntryTells(NormMembers(xs[1..]), NormMembers(ys[1..]), Changes(xs[1..], ys[1..], caseSensitive, depth), key,
                   Some(Norm(x)), Some(Norm(y)), value);
      }
    }
  }

  lemma NothingTells()
    ensures Tells(NormMembers([]), NormMembers([]), [])
  {
  }

  lemma NullTells()
    ensures Distinct(Null) && Mergeable(Null)
  {
  }

  lemma AddedTells(y: Json)
    requires Distinct(y) && Copyable(y, 0)
    ensures Duplicate(y) == Some(y) && Distinct(y) && Mergeable(y)
    ensures AppliedAt(None, NormMaybe(Duplicate(y))) == Some(Norm(y)) <==> ExpressibleAt(None, Some(Norm(y)))
  {
    hide Norm, Rfc7396, NullFree;
    CopyableIsMergeable(y);
    RfcOnNothing(None, Norm(y));
  }

  lemma {:induction false} SharedTells(x: Json, y: Json, caseSensitive: bool, depth: nat) returns (value: Option<Json>)
    requires Distinct(x) && Distinct(y) && Copyable(y, 0) && Nesting(x) < depth && OrderlyAt(Norm(x), Norm(y), caseSensitive)
    ensures value == ToTell(x, y, caseSensitive)
    ensures value.Some? ==> Distinct(value.value) && Mergeable(value.value)
    ensures value.None? <==> Norm(x) == Norm(y)
    ensures AppliedAt(Some(Norm(x)), NormMaybe(value)) == Some(Norm(y)) <==> ExpressibleAt(Some(Norm(x)), Some(Norm(y)))
    decreases depth, 0, 0
  {
    hide Norm, Rfc7396, Expressible, CompareSorted, Generate, Distinct, Mergeable, Left, Orderly, Comparable;
    if Orderly(Norm(x), Norm(y)) {
      OrderlyIsComparable(Norm(x), Norm(y));
    }
    CompareSortedIsSame(x, y, caseSensitive);
    value := ToTell(x, y, caseSensitive);
    if !Same(x, y) {
      var from, to := Left(x, y, caseSensitive), Left(y, x, caseSensitive);
      LeftSame(x, y, caseSensitive);
      LeftSame(y, x, caseSensitive);
      LeftNesting(x, y, caseSensitive);
      LeftCopyable(y, x, caseSensitive, 0);
      GenerateTells(from, to, false);
      NullIsNull(to);
      NullIsNull(value.value);
    }
  }

  /** Nothing is generated exactly for two objects that are the same; otherwise the patch leads to the goal if and only
      if a merge patch can express the difference. */
  lemma {:induction false} GenerateTells(from: Json, to: Json, caseSensitive: bool)
    requires Distinct(from) && Distinct(to) && Copyable(to, 0) && OrderlyWalk(Norm(from), Norm(to), caseSensitive)
    ensures var p := Generate(from, to, caseSensitive);
      && (p.None? <==> from.Object? && to.Object? && Same(from, to))
      && (p.Some? ==>
           && Distinct(p.value) && Mergeable(p.value) && (p.value.Null? <==> to.Null?)
           && (Rfc7396(Some(Norm(from)), Norm(p.value)) == Norm(to) <==> Expressible(Norm(from), Norm(to))))
    decreases Nesting(from), 1
  {
    hide Sort, NormMembers, Changes, Tells, Mergeable, Distinct, Copyable, OrderlyWalk;
    match (from, to) {
      case (Object(xs), Object(ys)) =>
        StartsReady(xs, ys, caseSensitive);
        ChangesTell(Sort(xs, caseSensitive), Sort(ys, caseSensitive), caseSensitive, Nesting(from));
        ObjectTells(xs, ys, Changes(Sort(xs, caseSensitive), Sort(ys, caseSensitive), caseSensitive, Nesting(from)));
      case _ =>
        CopyableIsMergeable(to);
        if to.Object? {
          NormsOfValues(from);
          RfcOnNothing(Some(Norm(from)), Norm(to));
        }
    }
  }

  lemma ObjectTells(xs: seq<Keyed<Json>>, ys: seq<Keyed<Json>>, changes: seq<Keyed<Json>>)
    requires Tells(NormMembers(xs), NormMembers(ys), changes)
    ensures changes == [] <==> Same(Object(xs), Object(ys))
    ensures Distinct(Object(changes)) && Mergeable(Object(changes))
    ensures Rfc7396(Some(Norm(Object(xs))), Norm(Object(changes))) == Norm(Object(ys))
       <==> Expressible(Norm(Object(xs)), Norm(Object(ys)))
  {
    hide Mergeable, NormMembers, Distinct, Expressible;
  }

  lemma SortIsExact(xs: seq<Keyed<Json>>, keys: set<CString>, caseSensitive: bool)
    requires caseSensitive || (InSameOrder(keys) && NormMembers(xs).Keys <= keys && DistinctKeys(xs))
    ensures Sort(xs, caseSensitive) == Sort(xs, true)
  {
    hide Sort, NormMembers, SameOrder;
    if !caseSensitive {
      forall i | 0 <= i < |xs| ensures xs[i].key in keys {
        NormAt(xs, i);
      }
      SortIgnoresCase(xs);
    }
  }

  /** What an orderly pair of objects says about their members. */
  lemma WalkableMembers(xs: seq<Keyed<Json>>, ys: seq<Keyed<Json>>, caseSensitive: bool)
    requires Distinct(Object(xs)) && Distinct(Object(ys)) && OrderlyWalk(Norm(Object(xs)), Norm(Object(ys)), caseSensitive)
    ensures caseSensitive || InSameOrder(NormMembers(xs).Keys + NormMembers(ys).Keys)
    ensures forall i, k :: 0 <= i < |xs| && 0 <= k < |ys| && xs[i].key == ys[k].key ==> OrderlyAt(Norm(xs[i].item), Norm(ys[k].item), caseSensitive)
  {
    hide Norm, NormMembers, InSameOrder, Comparable;
    NormOfObject(xs);
    NormOfObject(ys);
    forall i, k | 0 <= i < |xs| && 0 <= k < |ys| && xs[i].key == ys[k].key ensures OrderlyAt(Norm(xs[i].item), Norm(ys[k].item), caseSensitive) {
      NormAt(xs, i);
      NormAt(ys, k);
    }
  }

  lemma StartsReady(xs: seq<Keyed<Json>>, ys: seq<Keyed<Json>>, caseSensitive: bool)
    requires Distinct(Object(xs)) && Distinct(Object(ys)) && Copyable(Object(ys), 0)
    requires OrderlyWalk(Norm(Object(xs)), Norm(Object(ys)), caseSensitive)
    ensures ReadyToWalk(Sort(xs, caseSensitive), Sort(ys, caseSensitive), caseSensitive, Nesting(Object(xs)))
    ensures NormMembers(Sort(xs, caseSensitive)) == NormMembers(xs) && NormMembers(Sort(ys, caseSensitive)) == NormMembers(ys)
  {
    hide Sort, NormMembers, Norm, Distinct, Nesting, OrderlyWalk, OrderlyAt, InSameOrder;
    var keys, sx, sy := NormMembers(xs).Keys + NormMembers(ys).Keys, Sort(xs, true), Sort(ys, true);
    DistinctObject(xs);
    DistinctObject(ys);
    WalkableMembers(xs, ys, caseSensitive);
    SortIsExact(xs, keys, caseSensitive);
    SortIsExact(ys, keys, caseSensitive);
    SortedMembers(xs);
    SortedMembers(ys);
    SortKeepsAll(xs, true);
    SortKeepsAll(ys, true);
    forall i | 0 <= i < |sx| ensures Distinct(sx[i].item) && Nesting(sx[i].item) < Nesting(Object(xs)) {
      SortedMember(xs, i);
    }
    forall i | 0 <= i < |sy| ensures Distinct(sy[i].item) && Copyable(sy[i].item, 0) {
      SortedMember(ys, i);
      assert sy[i] in ys;
      var k :| 0 <= k < |ys| && ys[k] == sy[i];
      CopyableHigher(ys[k].item, 0);
    }
    forall i, k | 0 <= i < |sx| && 0 <= k < |sy| && sx[i].key == sy[k].key ensures OrderlyAt(Norm(sx[i].item), Norm(sy[k].item), caseSensitive) {
      assert sx[i] in xs && sy[k] in ys;
      var x :| 0 <= x < |xs| && xs[x] == sx[i];
      var y :| 0 <= y < |ys| && ys[y] == sy[k];
    }
  }

  /** Merging the generated patch into any copy of `from` gives `to`, up to the order of object members, exactly when
      a merge patch can express the difference at all. */
  lemma MergeRoundTrip(from: Json, to: Json, caseSensitive: bool, doc: Json) returns (after: Json)
    requires Distinct(from) && Distinct(to) && Copyable(to, 0) && OrderlyWalk(Norm(from), Norm(to), caseSensitive)
    requires Distinct(doc) && Same(doc, from) && Generate(from, to, caseSensitive).Some?
    ensures MergePatch(Some(doc), Generate(from, to, caseSensitive).value, true) == Some(after) && Distinct(after)
    ensures Same(after, to) <==> Expressible(Norm(from), Norm(to))
    ensures NullFree(Norm(to)) ==> Same(after, to)
  {
    hide Norm, Distinct, OrderlyWalk, Copyable, Generate, MergePatch, Rfc7396, Expressible, NullFree, Mergeable;
    var patch := Generate(from, to, caseSensitive).value;
    GenerateTells(from, to, caseSensitive);
    MergeMeetsRfc7396(Some(doc), patch);
    after := MergePatch(Some(doc), patch, true).value;
    if NullFree(Norm(to)) {
      NullFreeSuffices(Norm(from), Norm(to));
    }
  }

  // ----- a capital letter -----

  const LOWER: Keyed<Json> := Keyed([97], True)
  const CAPITAL: Keyed<Json> := Keyed([66], True)

  const NO_LOWER: Keyed<Json> := Keyed([97], Null)
  const NO_CAPITAL: Keyed<Json> := Keyed([66], Null)

  /** `a` comes before `B` ignoring case, but not byte by byte: the walk adds `B` first and removes it again. */
  lemma CapitalGenerates()
    ensures Generate(Object([LOWER, CAPITAL]), Object([CAPITAL]), false)
         == Some(Object([CAPITAL, NO_LOWER, NO_CAPITAL]))
  {
    var xs, ys, depth := [LOWER, CAPITAL], [CAPITAL], Nesting(Object([LOWER, CAPITAL]));
    assert LowerAll([97]) == [97] && LowerAll([66]) == [98];
    assert Sort(xs, false) == xs && Sort(ys, false) == ys;
    assert xs[1..] == [CAPITAL] && ys[1..] == [] && [CAPITAL][1..] == [];
    assert Changes([], [], false, depth) == [];
    assert Changes([CAPITAL], [], false, depth) == [NO_CAPITAL];
    assert Changes(xs, [], false, depth) == [NO_LOWER] + [NO_CAPITAL];
    assert Changes(xs, ys, false, depth) == [CAPITAL] + Changes(xs, [], false, depth);
    assert Changes(xs, ys, false, depth) == [CAPITAL, NO_LOWER, NO_CAPITAL];
  }

  lemma TakesOut(members: seq<Keyed<Json>>, i: nat)
    requires DistinctKeys(members) && i < |members|
    ensures WithoutKey(members, members[i].key, true) == Without(members, i)
  {
    hide FindKey;
    ExactKey(members, members[i].key);
    assert HasKey(members, members[i].key);
  }

  lemma MergesOne(members: seq<Keyed<Json>>, change: Keyed<Json>, rest: seq<Keyed<Json>>)
    requires change.item.Null? || change.item.True?
    ensures MergeMembers(members, [change] + rest, true) ==
      MergeMembers(WithoutKey(members, change.key, true) + if change.item.Null? then [] else [change], rest, true)
  {
    hide WithoutKey, ValueAt;
    assert ([change] + rest)[1..] == rest && ([change] + rest)[0] == change;
    assert WithoutKey(members, change.key, true) + [] == WithoutKey(members, change.key, true);
  }

  /** The generated patch empties the object instead of leaving it with the one member. */
  lemma CapitalIsLost()
    ensures MergePatch(Some(Object([LOWER, CAPITAL])), Object([CAPITAL, NO_LOWER, NO_CAPITAL]), true) == Some(Object([]))
  {
    hide WithoutKey, MergeMembers;
    TakesOut([LOWER, CAPITAL], 1);
    TakesOut([LOWER, CAPITAL], 0);
    TakesOut([CAPITAL], 0);
    MergesOne([LOWER, CAPITAL], CAPITAL, [NO_LOWER, NO_CAPITAL]);
    MergesOne([LOWER, CAPITAL], NO_LOWER, [NO_CAPITAL]);
    MergesOne([CAPITAL], NO_CAPITAL, []);
    assert MergeMembers([], [], true) == Some([]) by { NothingMerged(); }
    assert [CAPITAL] + [NO_LOWER, NO_CAPITAL] == [CAPITAL, NO_LOWER, NO_CAPITAL];
    assert [NO_LOWER] + [NO_CAPITAL] == [NO_LOWER, NO_CAPITAL] && [NO_CAPITAL] + [] == [NO_CAPITAL];
    assert Without([LOWER, CAPITAL], 1) + [CAPITAL] == [LOWER, CAPITAL];
    assert Without([LOWER, CAPITAL], 0) + [] == [CAPITAL] && Without([CAPITAL], 0) + [] == [];
  }

  lemma NothingMerged()
    ensures MergeMembers([], [], true) == Some([])
  {
  }
}
