/** Generating a patch and applying it: from one tree to the other, through textual paths. */
module PatchRoundTrip {
  import opened Bytes
  import opened Json
  import opened MergeSort
  import opened Canon
  import opened Compare
  import opened Pointer
  import opened Patch
  import opened PatchGenerate
  import opened PatchSteps
  import opened PatchSpares
  import opened PatchEdits
  import CP = CanonPath
  import DecodeInPlace

  /** No two keys agree ignoring case. */
  predicate KeysApart(members: seq<Keyed<Json>>) {
    forall i, k :: 0 <= i < |members| && 0 <= k < |members| && LowerAll(members[i].key) == LowerAll(members[k].key) ==>
      members[i].key == members[k].key
  }

  /** What the two trees must satisfy where the generator walks them side by side: no two keys of the two objects agree
      ignoring case, and a `usize` can count the arrays. */
  ghost predicate Patchable(from: Json, to: Json)
    decreases Nesting(from)
  {
    match (from, to)
    case (Array(xs), Array(ys)) =>
      && |xs| < SIZE_MAX_PLUS_ONE && |ys| < SIZE_MAX_PLUS_ONE
      && (forall k | 0 <= k < |xs| && k < |ys| :: ItemNesting(xs, k); Patchable(xs[k], ys[k]))
    case (Object(xs), Object(ys)) =>
      && KeysApart(xs + ys)
      && (forall i, k | 0 <= i < |xs| && 0 <= k < |ys| && xs[i].key == ys[k].key :: MemberNesting(xs, i); Patchable(xs[i].item, ys[k].item))
    case _ => true
  }

  /** Every key that a patch ends in is left alone by the in-place decoder. */
  ghost predicate Survives(from: Json, to: Json)
    decreases Nesting(from)
  {
    match (from, to)
    case (Array(xs), Array(ys)) =>
      forall k | 0 <= k < |xs| && k < |ys| :: ItemNesting(xs, k); Survives(xs[k], ys[k])
    case (Object(xs), Object(ys)) =>
      && EditsUnshifted(xs, ys)
      && (forall i, k | 0 <= i < |xs| && 0 <= k < |ys| && xs[i].key == ys[k].key :: MemberNesting(xs, i); Survives(xs[i].item, ys[k].item))
    case _ => true
  }

  // ----- running a list of patches -----

  ghost predicate Reaches(doc: Json, patches: seq<Json>, after: Json, result: Canon) {
    ApplyAll(Some(doc), patches, true) == Outcome(0, Some(after), true) && Distinct(after) && Norm(after) == result
  }

  lemma {:induction false} ApplyBoth(doc: Option<Json>, a: seq<Json>, b: seq<Json>)
    ensures var first := ApplyAll(doc, a, true);
      ApplyAll(doc, a + b, true) ==
        if first.status != 0 then first
        else
          var second := ApplyAll(first.doc, b, true);
          Outcome(second.status, second.doc, first.linked && second.linked)
    decreases |a|
  {
    hide Apply;
    if a == [] {
      assert a + b == b;
    } else {
      assert (a + b)[1..] == a[1..] + b;
      ApplyBoth(Apply(doc, a[0], true).doc, a[1..], b);
    }
  }

  lemma ReachesBoth(doc: Json, a: seq<Json>, middle: Json, b: seq<Json>, after: Json, reached: Canon, result: Canon)
    requires Reaches(doc, a, middle, reached) && Reaches(middle, b, after, result)
    ensures Reaches(doc, a + b, after, result)
  {
    hide ApplyAll;
    ApplyBoth(Some(doc), a, b);
  }

  lemma ReachesOne(doc: Json, patch: Json, after: Json, result: Canon)
    requires Yields(doc, patch, after, result)
    ensures Reaches(doc, [patch], after, result)
  {
    hide Apply;
    assert [patch][0] == patch && [patch][1..] == [];
    assert ApplyAll(Some(after), [], true) == Outcome(0, Some(after), true);
  }

  // ----- the generated patches lead from one tree to the other -----

  /** What a patch for the node at `path` itself may rely on: its parent is in order. */
  ghost predicate ParentOk(doc: Canon, path: CP.Path) {
    path != [] ==>
      && CP.HasPath(doc, path[..|path| - 1])
      && var parent := CP.At(doc, path[..|path| - 1]);
      && CP.HasToken(parent, path[|path| - 1])
      && (parent.Dict? ==> DecodeInPlace.Unshifted(path[|path| - 1].key) && LooselyUnique(parent.members, path[|path| - 1].key))
  }

  /** The patches turn what is at `path` into `v` and leave the rest of the document. */
  ghost predicate Turns(doc: Json, path: CP.Path, patches: seq<Json>, after: Json, v: Canon) {
    CP.HasPath(Norm(doc), path) && Reaches(doc, patches, after, CP.Set(Norm(doc), path, v))
  }

  lemma ValueThere(doc: Json, path: CP.Path, patches: seq<Json>, after: Json, v: Canon)
    requires Turns(doc, path, patches, after, v)
    ensures Distinct(after) && CP.HasPath(Norm(after), path) && CP.At(Norm(after), path) == v
  {
    hide Norm, Distinct, ApplyAll;
    CP.SetIsThere(Norm(doc), path, v);
  }

  lemma TurnsBoth(doc: Json, path: CP.Path, a: seq<Json>, middle: Json, v: Canon, b: seq<Json>, after: Json, w: Canon)
    requires Turns(doc, path, a, middle, v) && Turns(middle, path, b, after, w)
    ensures Turns(doc, path, a + b, after, w)
  {
    hide Norm, Distinct, ApplyAll;
    CP.SetTwice(Norm(doc), path, v, w);
    ReachesBoth(doc, a, middle, b, after, CP.Set(Norm(doc), path, v), CP.Set(Norm(doc), path, w));
  }

  /** How a list of patches ends: with an error, or with a document in which only the node at a path has changed. */
  datatype End = Failed | Arrived(after: Json, there: Canon)

  ghost predicate Ends(doc: Json, path: CP.Path, patches: seq<Json>, end: End) {
    match end
    case Failed => ApplyAll(Some(doc), patches, true).status != 0
    case Arrived(after, there) => Turns(doc, path, patches, after, there)
  }

  /** The node has become the goal. */
  predicate Reached(end: End, goal: Canon) {
    end.Arrived? && end.there == goal
  }

  lemma EndsBoth(doc: Json, path: CP.Path, a: seq<Json>, middle: Json, v: Canon, b: seq<Json>, end: End)
    requires Turns(doc, path, a, middle, v) && Ends(middle, path, b, end)
    ensures Ends(doc, path, a + b, end)
  {
    hide Norm, Distinct, ApplyAll;
    if end.Arrived? {
      TurnsBoth(doc, path, a, middle, v, b, end.after, end.there);
    } else {
      ApplyBoth(Some(doc), a, b);
    }
  }

  lemma FailsEarly(doc: Json, path: CP.Path, a: seq<Json>, b: seq<Json>)
    requires Ends(doc, path, a, Failed)
    ensures Ends(doc, path, a + b, Failed)
  {
    hide ApplyAll;
    ApplyBoth(Some(doc), a, b);
  }

  /** The end for a child is an end for its parent. */
  function Lifted(end: End, parent: Canon, t: CP.Token): End
    requires CP.HasToken(parent, t)
  {
    match end
    case Failed => Failed
    case Arrived(after, there) => Arrived(after, CP.SetBelow(parent, t, there))
  }

  lemma EndsChild(doc: Json, path: CP.Path, t: CP.Token, patches: seq<Json>, end: End)
    requires CP.HasPath(Norm(doc), path) && CP.HasToken(CP.At(Norm(doc), path), t) && Ends(doc, path + [t], patches, end)
    ensures Ends(doc, path, patches, Lifted(end, CP.At(Norm(doc), path), t))
  {
    hide Norm, Distinct, ApplyAll;
    if end.Arrived? {
      TurnsChild(doc, path, t, patches, end.after, end.there);
    }
  }

  lemma TurnsNothing(doc: Json, path: CP.Path)
    requires Distinct(doc) && CP.HasPath(Norm(doc), path)
    ensures Turns(doc, path, [], doc, CP.At(Norm(doc), path))
  {
    hide Norm, Distinct;
    CP.SetSame(Norm(doc), path);
  }

  /** Turning a child is turning its parent. */
  lemma TurnsChild(doc: Json, path: CP.Path, t: CP.Token, patches: seq<Json>, after: Json, v: Canon)
    requires CP.HasPath(Norm(doc), path) && CP.HasToken(CP.At(Norm(doc), path), t)
    requires Turns(doc, path + [t], patches, after, v)
    ensures Turns(doc, path, patches, after, CP.SetBelow(CP.At(Norm(doc), path), t, v))
  {
    hide Norm, Distinct, ApplyAll;
    CP.PathSnoc(Norm(doc), path, t, v);
  }

  // ----- arrays -----

  function Norms(items: seq<Json>): seq<Canon> {
    seq(|items|, i requires 0 <= i < |items| => Norm(items[i]))
  }

  lemma {:induction false} TurnsRemoved(doc: Json, path: CP.Path, n: nat, count: nat) returns (after: Json)
    requires Distinct(doc) && CP.HasPath(Norm(doc), path) && CP.Indexable(path)
    requires CP.At(Norm(doc), path).List? && |CP.At(Norm(doc), path).items| == n + count < SIZE_MAX_PLUS_ONE
    ensures Turns(doc, path, RemoveItems(CP.PathText(path), n, count), after, List(CP.At(Norm(doc), path).items[..n]))
    decreases count
  {
    hide Norm, Distinct, Compose, Apply, Reaches;
    var items := CP.At(Norm(doc), path).items;
    if count == 0 {
      TurnsNothing(doc, path);
      after := doc;
      assert items[..n] == items;
    } else {
      var patch := Compose(REMOVE_TEXT, CP.PathText(path), Some(Digits(n)), None);
      var middle := RemovesItem(doc, path, n);
      ReachesOne(doc, patch, middle, CP.Set(Norm(doc), path, List(Without(items, n))));
      ValueThere(doc, path, [patch], middle, List(Without(items, n)));
      after := TurnsRemoved(middle, path, n, count - 1);
      assert Without(items, n)[..n] == items[..n];
      TurnsBoth(doc, path, [patch], middle, List(Without(items, n)), RemoveItems(CP.PathText(path), n, count - 1), after, List(items[..n]));
    }
  }

  lemma {:induction false} TurnsAdded(doc: Json, path: CP.Path, ys: seq<Json>) returns (after: Json)
    requires Distinct(doc) && CP.HasPath(Norm(doc), path) && CP.Indexable(path)
    requires CP.At(Norm(doc), path).List? && forall i :: 0 <= i < |ys| ==> Distinct(ys[i]) && Copyable(ys[i], 0)
    ensures Turns(doc, path, AddItems(CP.PathText(path), ys), after, List(CP.At(Norm(doc), path).items + Norms(ys)))
    decreases |ys|
  {
    hide Norm, Distinct, Compose, Apply, Reaches;
    var items := CP.At(Norm(doc), path).items;
    if ys == [] {
      TurnsNothing(doc, path);
      after := doc;
      assert items + Norms(ys) == items;
    } else {
      var patch := Compose(ADD_TEXT, CP.PathText(path), Some([MINUS]), Some(ys[0]));
      var longer := List(items + [Norm(ys[0])]);
      var middle := AppendsItem(doc, path, ys[0]);
      ReachesOne(doc, patch, middle, CP.Set(Norm(doc), path, longer));
      ValueThere(doc, path, [patch], middle, longer);
      after := TurnsAdded(middle, path, ys[1..]);
      assert items + [Norm(ys[0])] + Norms(ys[1..]) == items + Norms(ys);
      TurnsBoth(doc, path, [patch], middle, longer, AddItems(CP.PathText(path), ys[1..]), after, List(items + Norms(ys)));
    }
  }

  /** An array whose first elements have been edited. */
  function Partly(done: seq<Canon>, xs: seq<Json>): (r: seq<Canon>)
    requires |done| <= |xs|
    ensures |r| == |xs|
  {
    done + Norms(xs[|done|..])
  }

  lemma PartlyTurns(done: seq<Canon>, xs: seq<Json>, v: Canon)
    requires |done| < |xs|
    ensures Partly(done, xs)[|done|] == Norm(xs[|done|]) && Partly(done, xs)[|done| := v] == Partly(done + [v], xs)
  {
    hide Norm;
  }

  /** Where the next element of the array at `path` is. */
  lemma ItemPlace(doc: Json, path: CP.Path, done: seq<Canon>, xs: seq<Json>)
    requires CP.HasPath(Norm(doc), path) && CP.Indexable(path) && |done| < |xs| < SIZE_MAX_PLUS_ONE
    requires CP.At(Norm(doc), path) == List(Partly(done, xs))
    ensures var child := path + [CP.Index(|done|)];
      && CP.HasPath(Norm(doc), child) && CP.Indexable(child) && CP.At(Norm(doc), child) == Norm(xs[|done|])
      && ParentOk(Norm(doc), child) && CP.PathText(child) == CP.PathText(path) + ([SLASH] + Digits(|done|))
    ensures CP.HasToken(List(Partly(done, xs)), CP.Index(|done|))
  {
    hide Norm, Digits, Norms, Partly;
    PartlyTurns(done, xs, Scalar(Null));
    var k := |done|;
    var child := path + [CP.Index(k)];
    CP.PathTextSnoc(path, CP.Index(k));
    CP.PathSnoc(Norm(doc), path, CP.Index(k), Scalar(Null));
    assert child[..|child| - 1] == path;
  }

  /** From element `k` on, every pair of elements survives. */
  ghost predicate ItemsSurvive(xs: seq<Json>, ys: seq<Json>, k: nat) {
    forall i :: k <= i < |xs| && i < |ys| ==> Survives(xs[i], ys[i])
  }

  lemma ItemsSurviveStep(xs: seq<Json>, ys: seq<Json>, k: nat)
    requires k < |xs| && k < |ys|
    ensures ItemsSurvive(xs, ys, k) <==> Survives(xs[k], ys[k]) && ItemsSurvive(xs, ys, k + 1)
  {
    hide Survives;
  }

  lemma NormsPrefix(done: seq<Canon>, v: Canon, ys: seq<Json>)
    requires |done| < |ys|
    ensures done + [v] == Norms(ys[..|done| + 1]) <==> done == Norms(ys[..|done|]) && v == Norm(ys[|done|])
  {
    hide Norm;
    var k := |done|;
    assert Norms(ys[..k + 1]) == Norms(ys[..k]) + [Norm(ys[k])];
    assert (done + [v])[..k] == done && (done + [v])[k] == v;
    assert Norms(ys[..k + 1])[..k] == Norms(ys[..k]);
  }

  lemma {:induction false} TransformsItems(doc: Json, path: CP.Path, done: seq<Canon>, xs: seq<Json>, ys: seq<Json>) returns (end: End)
    requires Distinct(doc) && Distinct(Array(xs)) && Distinct(Array(ys)) && Copyable(Array(ys), 0) && Patchable(Array(xs), Array(ys))
    requires CP.HasPath(Norm(doc), path) && CP.Indexable(path)
    requires |done| <= |xs| && |done| <= |ys| && CP.At(Norm(doc), path) == List(Partly(done, xs))
    ensures Ends(doc, path, ItemPatches(CP.PathText(path), xs, ys, true, |done|), end)
    ensures Reached(end, List(Norms(ys))) <==> done == Norms(ys[..|done|]) && ItemsSurvive(xs, ys, |done|)
    decreases 1 + ItemsNesting(xs), 1, |xs| - |done|
  {
    hide Norm, Norms, Ends, Turns, CreatePatches, RemoveItems, AddItems, ParentOk, Digits, Partly, Survives, ItemsSurvive, Replaced;
    var text, k := CP.PathText(path), |done|;
    if k < |xs| && k < |ys| {
      ItemNesting(xs, k);
      ItemPlace(doc, path, done, xs);
      ItemsSurviveStep(xs, ys, k);
      var first, rest := CreatePatches(text + ([SLASH] + Digits(k)), xs[k], ys[k], true), ItemPatches(text, xs, ys, true, k + 1);
      CopyableHigher(ys[k], 0);
      var there := Transforms(doc, path + [CP.Index(k)], xs[k], ys[k]);
      EndsChild(doc, path, CP.Index(k), first, there);
      if there.Failed? {
        FailsEarly(doc, path, first, rest);
        end := Failed;
      } else {
        var now := done + [there.there];
        PartlyTurns(done, xs, there.there);
        EndIsTurn(doc, path, first, there.after, List(Partly(now, xs)));
        end := TransformsItems(there.after, path, now, xs, ys);
        EndsBoth(doc, path, first, there.after, List(Partly(now, xs)), rest, end);
        NormsPrefix(done, there.there, ys);
      }
    } else {
      end := TransformsRest(doc, path, done, xs, ys);
    }
  }

  lemma EndIsTurn(doc: Json, path: CP.Path, patches: seq<Json>, after: Json, v: Canon)
    requires Ends(doc, path, patches, Arrived(after, v))
    ensures Turns(doc, path, patches, after, v)
    ensures Distinct(after) && CP.HasPath(Norm(after), path) && CP.At(Norm(after), path) == v
  {
    hide Norm, Distinct, ApplyAll;
    ValueThere(doc, path, patches, after, v);
  }

  lemma TransformsRest(doc: Json, path: CP.Path, done: seq<Canon>, xs: seq<Json>, ys: seq<Json>) returns (end: End)
    requires Distinct(doc) && Distinct(Array(ys)) && Copyable(Array(ys), 0) && |xs| < SIZE_MAX_PLUS_ONE
    requires CP.HasPath(Norm(doc), path) && CP.Indexable(path)
    requires |done| <= |xs| && |done| <= |ys| && (|done| == |xs| || |done| == |ys|) && CP.At(Norm(doc), path) == List(Partly(done, xs))
    ensures Ends(doc, path, ItemPatches(CP.PathText(path), xs, ys, true, |done|), end)
    ensures Reached(end, List(Norms(ys))) <==> done == Norms(ys[..|done|]) && ItemsSurvive(xs, ys, |done|)
  {
    hide Norm, Reaches, CreatePatches, RemoveItems, AddItems, Survives;
    var k := |done|;
    var after;
    if k < |xs| {
      assert Partly(done, xs)[..k] == done && ys[..k] == ys;
      after := TurnsRemoved(doc, path, k, |xs| - k);
      end := Arrived(after, List(done));
    } else {
      assert Partly(done, xs) == done;
      forall i | 0 <= i < |ys| ensures Copyable(ys[i], 0) {
        CopyableHigher(ys[i], 0);
      }
      after := TurnsAdded(doc, path, ys[k..]);
      end := Arrived(after, List(done + Norms(ys[k..])));
      assert Norms(ys) == Norms(ys[..k]) + Norms(ys[k..]);
      assert (done + Norms(ys[k..]))[..k] == done && Norms(ys)[..k] == Norms(ys[..k]);
    }
  }

  // ----- objects -----

  /** The members that are left to walk over, and the two trees at each key they share. */
  ghost predicate Walkable(xs: seq<Keyed<Json>>, ys: seq<Keyed<Json>>, keys: set<CString>, depth: nat) {
    && Strictly(xs) && Strictly(ys) && EditsUnshifted(xs, ys)
    && NormMembers(xs).Keys <= keys && NormMembers(ys).Keys <= keys && LooselyApart(keys)
    && (forall i :: 0 <= i < |xs| ==> Distinct(xs[i].item) && Nesting(xs[i].item) < depth)
    && (forall i :: 0 <= i < |ys| ==> Distinct(ys[i].item) && Copyable(ys[i].item, 0))
    && (forall i, k :: 0 <= i < |xs| && 0 <= k < |ys| && xs[i].key == ys[k].key ==> Patchable(xs[i].item, ys[k].item))
  }

  /** The two lists without a key at the head of one or both of them. */
  ghost predicate Rests(xs: seq<Keyed<Json>>, ys: seq<Keyed<Json>>, xs': seq<Keyed<Json>>, ys': seq<Keyed<Json>>, head: CString) {
    && Strictly(xs) && Strictly(ys)
    && Drops(xs, xs', head) && Drops(ys, ys', head)
    && (xs' == xs || (xs != [] && xs' == xs[1..])) && (ys' == ys || (ys != [] && ys' == ys[1..]))
  }

  lemma RestsUnshifted(xs: seq<Keyed<Json>>, ys: seq<Keyed<Json>>, xs': seq<Keyed<Json>>, ys': seq<Keyed<Json>>, head: CString)
    requires Rests(xs, ys, xs', ys', head) && EditsUnshifted(xs, ys)
    ensures EditsUnshifted(xs', ys')
  {
    hide EndsAt, SharedKept, Drops, DecodeInPlace.Unshifted;
    forall key | EndsAt(xs', ys', key) ensures DecodeInPlace.Unshifted(key) {
      EditedInRest(xs, ys, xs', ys', head, key);
    }
  }

  lemma KeysOfRest(s: seq<Keyed<Json>>, t: seq<Keyed<Json>>)
    requires Strictly(s) && (t == s || (s != [] && t == s[1..]))
    ensures Strictly(t) && NormMembers(t).Keys <= NormMembers(s).Keys
  {
    hide Norm, NormMembers;
    if t != s {
      TailAsMap(s);
    }
  }

  lemma WalksOn(xs: seq<Keyed<Json>>, ys: seq<Keyed<Json>>, xs': seq<Keyed<Json>>, ys': seq<Keyed<Json>>, head: CString, keys: set<CString>, depth: nat)
    requires Walkable(xs, ys, keys, depth) && Rests(xs, ys, xs', ys', head)
    ensures Walkable(xs', ys', keys, depth)
  {
    hide NormMembers, Norm, Distinct, Patchable, EditsUnshifted, LooselyApart, Drops, Nesting, Copyable;
    RestsUnshifted(xs, ys, xs', ys', head);
    KeysOfRest(xs, xs');
    KeysOfRest(ys, ys');
  }

  /** At every key that the two objects share, the two trees survive. */
  ghost predicate MembersSurvive(xs: seq<Keyed<Json>>, ys: seq<Keyed<Json>>) {
    forall m, n :: m in xs && n in ys && m.key == n.key ==> Survives(m.item, n.item)
  }

  lemma MembersSurviveDrop(xs: seq<Keyed<Json>>, ys: seq<Keyed<Json>>, xs': seq<Keyed<Json>>, ys': seq<Keyed<Json>>, head: CString)
    requires Drops(xs, xs', head) && Drops(ys, ys', head) && (!HasKey(xs, head) || !HasKey(ys, head))
    ensures MembersSurvive(xs, ys) <==> MembersSurvive(xs', ys')
  {
    hide Survives, HasKey;
    forall m | m in xs ensures HasKey(xs, m.key) {
      HasMember(xs, m);
    }
    forall m | m in ys ensures HasKey(ys, m.key) {
      HasMember(ys, m);
    }
  }

  lemma MembersSurviveShared(xs: seq<Keyed<Json>>, ys: seq<Keyed<Json>>)
    requires Strictly(xs) && Strictly(ys) && xs != [] && ys != [] && xs[0].key == ys[0].key
    ensures MembersSurvive(xs, ys) <==> Survives(xs[0].item, ys[0].item) && MembersSurvive(xs[1..], ys[1..])
    ensures Rests(xs, ys, xs[1..], ys[1..], xs[0].key)
  {
    hide Survives;
    DropsHead(xs);
    DropsHead(ys);
    assert xs[0] in xs && ys[0] in ys;
    forall m | m in xs && m.key == xs[0].key ensures m == xs[0] {
      OnlyHead(xs, m);
    }
    forall m | m in ys && m.key == ys[0].key ensures m == ys[0] {
      OnlyHead(ys, m);
    }
  }

  /** Map facts for one turn of the walk. */
  lemma MapTurns(done: map<CString, Canon>, m: map<CString, Canon>, k: CString, v: Canon, w: Canon)
    requires k !in done && k !in m
    ensures (done + m[k := v])[k := w] == done[k := w] + m
    ensures (done + m[k := v]) - {k} == done + m
    ensures (done + m)[k := w] == done[k := w] + m
    ensures done[k := w] + m == done + m[k := w]
  {
  }

  lemma MapsDiffer(done: map<CString, Canon>, good: map<CString, Canon>, k: CString, v: Canon, w: Canon)
    requires k !in done && k !in good
    ensures done[k := v] == good[k := w] <==> done == good && v == w
  {
    assert done[k := v][k] == v && good[k := w][k] == w;
    assert done[k := v] - {k} == done && good[k := w] - {k} == good;
  }

  /** Where a member of the object at `path` is. */
  lemma MemberPlace(doc: Json, path: CP.Path, key: CString, keys: set<CString>)
    requires CP.HasPath(Norm(doc), path) && CP.Indexable(path) && CP.At(Norm(doc), path).Dict?
    requires key in CP.At(Norm(doc), path).members && CP.At(Norm(doc), path).members.Keys <= keys && LooselyApart(keys)
    ensures var child := path + [CP.Key(key)];
      && CP.HasPath(Norm(doc), child) && CP.Indexable(child)
      && CP.At(Norm(doc), child) == CP.At(Norm(doc), path).members[key]
      && (DecodeInPlace.Unshifted(key) ==> ParentOk(Norm(doc), child)) && CP.PathText(child) == CP.PathText(path) + ([SLASH] + Encode(key))
  {
    hide Norm, DecodeInPlace.Unshifted;
    var child := path + [CP.Key(key)];
    CP.PathTextSnoc(path, CP.Key(key));
    CP.PathSnoc(Norm(doc), path, CP.Key(key), Scalar(Null));
    assert child[..|child| - 1] == path;
  }

  /** The walk over two sorted objects. Of the keys walked over, `done` says what the document has there now and `good`
      what it should have. */
  ghost predicate Walking(doc: Json, path: CP.Path, done: map<CString, Canon>, good: map<CString, Canon>, xs: seq<Keyed<Json>>, ys: seq<Keyed<Json>>, keys: set<CString>) {
    && Distinct(doc) && CP.HasPath(Norm(doc), path) && CP.Indexable(path)
    && done.Keys == good.Keys <= keys && done.Keys !! NormMembers(xs).Keys && done.Keys !! NormMembers(ys).Keys
    && CP.At(Norm(doc), path) == Dict(done + NormMembers(xs))
  }

  lemma {:induction false} TransformsMembers(doc: Json, path: CP.Path, done: map<CString, Canon>, good: map<CString, Canon>,
                                             xs: seq<Keyed<Json>>, ys: seq<Keyed<Json>>, keys: set<CString>, depth: nat) returns (end: End)
    requires Walking(doc, path, done, good, xs, ys, keys) && Walkable(xs, ys, keys, depth)
    ensures Ends(doc, path, MemberPatches(CP.PathText(path), xs, ys, true, depth), end)
    ensures Reached(end, Dict(good + NormMembers(ys))) <==> done == good && MembersSurvive(xs, ys)
    decreases depth, 0, |xs| + |ys|
  {
    hide Norm, NormMembers, Distinct, Turns, Ends, CreatePatches, Encode, Compose, Walking, Walkable, MembersSurvive, Survives, CP.PathText;
    WalkableDepth(xs, ys, keys, depth);
    if xs == [] && ys == [] {
      end := EndOfWalk(doc, path, done, good, keys, depth);
    } else {
      var diff := HeadDifference(xs, ys, true);
      if diff == 0 {
        end := TransformsShared(doc, path, done, good, xs, ys, keys, depth);
      } else if diff < 0 {
        var patch, middle := TurnsGone(doc, path, done, good, xs, ys, keys, depth);
        var rest := MemberPatches(CP.PathText(path), xs[1..], ys, true, depth);
        end := TransformsMembers(middle, path, done, good, xs[1..], ys, keys, depth);
        EndsBoth(doc, path, [patch], middle, Dict(done + NormMembers(xs[1..])), rest, end);
      } else {
        var patch, middle, now, aim := TurnsNew(doc, path, done, good, xs, ys, keys, depth);
        var rest := MemberPatches(CP.PathText(path), xs, ys[1..], true, depth);
        end := TransformsMembers(middle, path, now, aim, xs, ys[1..], keys, depth);
        EndsBoth(doc, path, [patch], middle, Dict(now + NormMembers(xs)), rest, end);
      }
    }
  }

  lemma WalkableDepth(xs: seq<Keyed<Json>>, ys: seq<Keyed<Json>>, keys: set<CString>, depth: nat)
    requires Walkable(xs, ys, keys, depth)
    ensures Strictly(xs) && Strictly(ys) && forall i :: 0 <= i < |xs| ==> Nesting(xs[i].item) < depth
  {
  }

  lemma EndOfWalk(doc: Json, path: CP.Path, done: map<CString, Canon>, good: map<CString, Canon>, keys: set<CString>, depth: nat) returns (end: End)
    requires Walking(doc, path, done, good, [], [], keys)
    ensures Ends(doc, path, MemberPatches(CP.PathText(path), [], [], true, depth), end)
    ensures Reached(end, Dict(good + NormMembers([]))) <==> done == good && MembersSurvive([], [])
  {
    hide Norm, Distinct, Reaches;
    TurnsNothing(doc, path);
    end := Arrived(doc, Dict(done + NormMembers([])));
    assert done + map[] == done && good + map[] == good;
  }

  /** A key both objects have: its value is transformed where it stands. */
  lemma {:induction false} TransformsShared(doc: Json, path: CP.Path, done: map<CString, Canon>, good: map<CString, Canon>,
                                            xs: seq<Keyed<Json>>, ys: seq<Keyed<Json>>, keys: set<CString>, depth: nat) returns (end: End)
    requires Walking(doc, path, done, good, xs, ys, keys) && Walkable(xs, ys, keys, depth)
    requires xs != [] && ys != [] && HeadDifference(xs, ys, true) == 0
    ensures Ends(doc, path, MemberPatches(CP.PathText(path), xs, ys, true, depth), end)
    ensures Reached(end, Dict(good + NormMembers(ys))) <==> done == good && MembersSurvive(xs, ys)
    decreases depth, 0, |xs| + |ys|, 0
  {
    hide Norm, NormMembers, Distinct, Turns, Ends, CreatePatches, Encode, Compose, Walking, Walkable, MembersSurvive, Survives, ParentOk, CP.PathText;
    WalkableDepth(xs, ys, keys, depth);
    var key, x, y, text := xs[0].key, xs[0].item, ys[0].item, CP.PathText(path);
    var first, rest := CreatePatches(text + ([SLASH] + Encode(key)), x, y, true), MemberPatches(text, xs[1..], ys[1..], true, depth);
    SharedStart(doc, path, done, good, xs, ys, keys, depth);
    var there := Transforms(doc, path + [CP.Key(key)], x, y);
    EndsChild(doc, path, CP.Key(key), first, there);
    if there.Failed? {
      FailsEarly(doc, path, first, rest);
      end := Failed;
    } else {
      var now, aim := done[key := there.there], good[key := Norm(y)];
      EndIsTurn(doc, path, first, there.after, Dict(now + NormMembers(xs[1..])));
      SharedStep(doc, path, done, good, xs, ys, keys, depth, there.after, there.there);
      end := TransformsMembers(there.after, path, now, aim, xs[1..], ys[1..], keys, depth);
      EndsBoth(doc, path, first, there.after, Dict(now + NormMembers(xs[1..])), rest, end);
    }
  }

  lemma SharedStart(doc: Json, path: CP.Path, done: map<CString, Canon>, good: map<CString, Canon>, xs: seq<Keyed<Json>>, ys: seq<Keyed<Json>>,
                    keys: set<CString>, depth: nat)
    requires Walking(doc, path, done, good, xs, ys, keys) && Walkable(xs, ys, keys, depth)
    requires xs != [] && ys != [] && HeadDifference(xs, ys, true) == 0
    ensures xs[0].key == ys[0].key && Nesting(xs[0].item) < depth
    ensures Distinct(doc) && Distinct(xs[0].item) && Distinct(ys[0].item) && Copyable(ys[0].item, 0) && Patchable(xs[0].item, ys[0].item)
    ensures CP.HasPath(Norm(doc), path) && CP.HasToken(CP.At(Norm(doc), path), CP.Key(xs[0].key))
    ensures var child := path + [CP.Key(xs[0].key)];
      && CP.HasPath(Norm(doc), child) && CP.Indexable(child) && CP.At(Norm(doc), child) == Norm(xs[0].item)
      && (Replaced(xs[0].item, ys[0].item) ==> ParentOk(Norm(doc), child))
      && CP.PathText(child) == CP.PathText(path) + ([SLASH] + Encode(xs[0].key))
    ensures forall v :: CP.SetBelow(CP.At(Norm(doc), path), CP.Key(xs[0].key), v) == Dict(done[xs[0].key := v] + NormMembers(xs[1..]))
    ensures MembersSurvive(xs, ys) <==> Survives(xs[0].item, ys[0].item) && MembersSurvive(xs[1..], ys[1..])
  {
    hide Norm, NormMembers, Distinct, Patchable, Encode, ParentOk, MembersSurvive, Survives, Replaced, EndsAt, SharedKept, LooselyApart, DecodeInPlace.Unshifted, CP.PathText;
    var key := xs[0].key;
    StrCmpZero(key, ys[0].key);
    TailAsMap(xs);
    MembersSurviveShared(xs, ys);
    MemberPlace(doc, path, key, keys);
    SharedHead(xs, ys);
    forall v ensures CP.SetBelow(CP.At(Norm(doc), path), CP.Key(key), v) == Dict(done[key := v] + NormMembers(xs[1..])) {
      MapTurns(done, NormMembers(xs[1..]), key, Norm(xs[0].item), v);
    }
  }

  lemma SharedStep(doc: Json, path: CP.Path, done: map<CString, Canon>, good: map<CString, Canon>, xs: seq<Keyed<Json>>, ys: seq<Keyed<Json>>,
                   keys: set<CString>, depth: nat, after: Json, v: Canon)
    requires Walking(doc, path, done, good, xs, ys, keys) && Walkable(xs, ys, keys, depth)
    requires xs != [] && ys != [] && xs[0].key == ys[0].key
    requires Distinct(after) && CP.HasPath(Norm(after), path) && CP.At(Norm(after), path) == Dict(done[xs[0].key := v] + NormMembers(xs[1..]))
    ensures var now, aim := done[xs[0].key := v], good[xs[0].key := Norm(ys[0].item)];
      && Walking(after, path, now, aim, xs[1..], ys[1..], keys) && Walkable(xs[1..], ys[1..], keys, depth)
      && aim + NormMembers(ys[1..]) == good + NormMembers(ys) && (now == aim <==> done == good && v == Norm(ys[0].item))
  {
    hide Norm, NormMembers, Distinct, Walkable, MembersSurvive, Survives;
    var key := xs[0].key;
    WalkableDepth(xs, ys, keys, depth);
    TailAsMap(xs);
    TailAsMap(ys);
    MembersSurviveShared(xs, ys);
    WalksOn(xs, ys, xs[1..], ys[1..], key, keys, depth);
    MapTurns(good, NormMembers(ys[1..]), key, Norm(xs[0].item), Norm(ys[0].item));
    MapsDiffer(done, good, key, v, Norm(ys[0].item));
    assert key in keys by { KeysOfWalk(xs, ys, keys, depth); }
  }

  lemma KeysOfWalk(xs: seq<Keyed<Json>>, ys: seq<Keyed<Json>>, keys: set<CString>, depth: nat)
    requires Walkable(xs, ys, keys, depth)
    ensures xs != [] ==> xs[0].key in keys
    ensures ys != [] ==> ys[0].key in keys
  {
    hide Norm, NormMembers;
    if xs != [] {
      TailAsMap(xs);
    }
    if ys != [] {
      TailAsMap(ys);
    }
  }

  /** A key only the first object has: removed. */
  lemma TurnsGone(doc: Json, path: CP.Path, done: map<CString, Canon>, good: map<CString, Canon>, xs: seq<Keyed<Json>>, ys: seq<Keyed<Json>>,
                  keys: set<CString>, depth: nat) returns (patch: Json, middle: Json)
    requires Walking(doc, path, done, good, xs, ys, keys) && Walkable(xs, ys, keys, depth)
    requires xs != [] && HeadDifference(xs, ys, true) < 0
    ensures patch == Compose(REMOVE_TEXT, CP.PathText(path), Some(xs[0].key), None)
    ensures Turns(doc, path, [patch], middle, Dict(done + NormMembers(xs[1..])))
    ensures Walking(middle, path, done, good, xs[1..], ys, keys) && Walkable(xs[1..], ys, keys, depth)
    ensures MembersSurvive(xs, ys) <==> MembersSurvive(xs[1..], ys)
  {
    hide Norm, NormMembers, Distinct, Compose, Apply, Walkable, MembersSurvive, Survives, CP.PathText, DecodeInPlace.Unshifted;
    var key, next := xs[0].key, Dict(done + NormMembers(xs[1..]));
    WalkableDepth(xs, ys, keys, depth);
    TailAsMap(xs);
    OnlyFirst(xs, ys);
    KeysInWalk(xs, ys, keys, depth);
    MembersSurviveDrop(xs, ys, xs[1..], ys, key);
    WalksOn(xs, ys, xs[1..], ys, key, keys, depth);
    EditedIsSafe(doc, path, xs, ys, keys, depth, key);
    MapTurns(done, NormMembers(xs[1..]), key, Norm(xs[0].item), Norm(xs[0].item));
    patch := Compose(REMOVE_TEXT, CP.PathText(path), Some(key), None);
    middle := RemovesMember(doc, path, key);
    ReachesOne(doc, patch, middle, CP.Set(Norm(doc), path, next));
    ValueThere(doc, path, [patch], middle, next);
  }

  lemma EditedIsSafe(doc: Json, path: CP.Path, xs: seq<Keyed<Json>>, ys: seq<Keyed<Json>>, keys: set<CString>, depth: nat, key: CString)
    requires Walkable(xs, ys, keys, depth) && EndsAt(xs, ys, key)
    requires CP.HasPath(Norm(doc), path) && CP.At(Norm(doc), path).Dict? && CP.At(Norm(doc), path).members.Keys <= keys
    ensures DecodeInPlace.Unshifted(key) && (key in keys ==> LooselyUnique(CP.At(Norm(doc), path).members, key))
    ensures forall i :: 0 <= i < |ys| ==> Distinct(ys[i].item) && Copyable(ys[i].item, 0)
  {
    hide Norm, NormMembers, DecodeInPlace.Unshifted, EndsAt, Patchable, Distinct, Copyable;
  }

  /** A key only the second object has: added. */
  lemma TurnsNew(doc: Json, path: CP.Path, done: map<CString, Canon>, good: map<CString, Canon>, xs: seq<Keyed<Json>>, ys: seq<Keyed<Json>>,
                 keys: set<CString>, depth: nat)
    returns (patch: Json, middle: Json, now: map<CString, Canon>, aim: map<CString, Canon>)
    requires Walking(doc, path, done, good, xs, ys, keys) && Walkable(xs, ys, keys, depth)
    requires ys != [] && HeadDifference(xs, ys, true) > 0
    ensures patch == Compose(ADD_TEXT, CP.PathText(path), Some(ys[0].key), Some(ys[0].item))
    ensures Turns(doc, path, [patch], middle, Dict(now + NormMembers(xs)))
    ensures Walking(middle, path, now, aim, xs, ys[1..], keys) && Walkable(xs, ys[1..], keys, depth)
    ensures aim + NormMembers(ys[1..]) == good + NormMembers(ys) && (now == aim <==> done == good)
    ensures MembersSurvive(xs, ys) <==> MembersSurvive(xs, ys[1..])
  {
    hide Norm, NormMembers, Distinct, Compose, Apply, Walkable, MembersSurvive, Survives, CP.PathText, DecodeInPlace.Unshifted, Copyable;
    var key, y := ys[0].key, ys[0].item;
    WalkableDepth(xs, ys, keys, depth);
    TailAsMap(ys);
    OnlySecond(xs, ys);
    NotAmong(xs, key);
    KeysOfWalk(xs, ys, keys, depth);
    KeysInWalk(xs, ys, keys, depth);
    MembersSurviveDrop(xs, ys, xs, ys[1..], key);
    WalksOn(xs, ys, xs, ys[1..], key, keys, depth);
    EditedIsSafe(doc, path, xs, ys, keys, depth, key);
    MapTurns(done, NormMembers(xs), key, Norm(y), Norm(y));
    MapTurns(good, NormMembers(ys[1..]), key, Norm(y), Norm(y));
    MapsDiffer(done, good, key, Norm(y), Norm(y));
    now, aim := done[key := Norm(y)], good[key := Norm(y)];
    var next := Dict(now + NormMembers(xs));
    patch := Compose(ADD_TEXT, CP.PathText(path), Some(key), Some(y));
    middle := AddsMember(doc, path, key, y);
    ReachesOne(doc, patch, middle, CP.Set(Norm(doc), path, next));
    ValueThere(doc, path, [patch], middle, next);
  }

  lemma KeysInWalk(xs: seq<Keyed<Json>>, ys: seq<Keyed<Json>>, keys: set<CString>, depth: nat)
    requires Walkable(xs, ys, keys, depth)
    ensures NormMembers(xs).Keys <= keys && NormMembers(ys).Keys <= keys
  {
  }

  lemma NotAmong(s: seq<Keyed<Json>>, key: CString)
    requires !HasKey(s, key)
    ensures key !in NormMembers(s)
  {
    NormKeys(s, key);
  }

  lemma ReplacesThere(doc: Json, path: CP.Path, value: Json) returns (after: Json)
    requires Distinct(doc) && Distinct(value) && Copyable(value, 0) && CP.HasPath(Norm(doc), path) && CP.Indexable(path) && ParentOk(Norm(doc), path)
    ensures Turns(doc, path, [Compose(REPLACE_TEXT, CP.PathText(path), None, Some(value))], after, Norm(value))
  {
    hide Norm, Distinct, Compose, Apply;
    if path == [] {
      ReplacesRoot(doc, value);
      after := value;
    } else {
      var front, last := path[..|path| - 1], path[|path| - 1];
      assert path == front + [last];
      assert CP.Indexable(front) by {
        forall i | 0 <= i < |front| && front[i].Index? ensures front[i].n < SIZE_MAX_PLUS_ONE {
          assert path[i] == front[i];
        }
      }
      CP.PathTextSnoc(front, last);
      CP.PathSnoc(Norm(doc), front, last, Norm(value));
      if last.Key? {
        after := ReplacesMember(doc, front, last.key, value);
      } else {
        after := ReplacesItem(doc, front, last.n, value);
      }
    }
    ReachesOne(doc, Compose(REPLACE_TEXT, CP.PathText(path), None, Some(value)), after, CP.Set(Norm(doc), path, Norm(value)));
  }

  lemma StartsItems(xs: seq<Json>, ys: seq<Json>)
    ensures Norm(Array(xs)) == List(Partly([], xs)) && Norm(Array(ys)) == List(Norms(ys))
    ensures [] == Norms(ys[..0]) && (Survives(Array(xs), Array(ys)) <==> ItemsSurvive(xs, ys, 0))
  {
  }

  lemma LooselyBoth(xs: seq<Keyed<Json>>, ys: seq<Keyed<Json>>)
    requires KeysApart(xs + ys)
    ensures LooselyApart(NormMembers(xs).Keys + NormMembers(ys).Keys)
  {
    hide NormMembers, LowerAll;
    forall k | k in NormMembers(xs).Keys + NormMembers(ys).Keys ensures HasKey(xs + ys, k) {
      NormKeys(xs, k);
      NormKeys(ys, k);
      if HasKey(xs, k) {
        var i :| 0 <= i < |xs| && xs[i].key == k;
        assert (xs + ys)[i].key == k;
      } else {
        var i :| 0 <= i < |ys| && ys[i].key == k;
        assert (xs + ys)[|xs| + i].key == k;
      }
    }
  }

  lemma SortedIn(xs: seq<Keyed<Json>>)
    ensures forall m :: m in xs <==> m in Sort(xs, true)
    ensures forall key :: HasKey(xs, key) <==> HasKey(Sort(xs, true), key)
  {
    hide Sort;
    var sx := Sort(xs, true);
    SortIsSort(xs, true);
    forall m ensures m in xs <==> m in sx {
      InBoth(xs, sx, m);
    }
    forall key ensures HasKey(xs, key) <==> HasKey(sx, key) {
      if HasKey(xs, key) {
        var m := MemberOf(xs, key);
        HasMember(sx, m);
      }
      if HasKey(sx, key) {
        var m := MemberOf(sx, key);
        HasMember(xs, m);
      }
    }
  }

  /** Sorting changes neither which keys are edited nor which trees are walked. */
  lemma SortedEdits(xs: seq<Keyed<Json>>, ys: seq<Keyed<Json>>)
    ensures EditsUnshifted(Sort(xs, true), Sort(ys, true)) <==> EditsUnshifted(xs, ys)
    ensures MembersSurvive(Sort(xs, true), Sort(ys, true)) <==> MembersSurvive(xs, ys)
  {
    hide Sort, Survives, Replaced, DecodeInPlace.Unshifted, HasKey;
    var sx, sy := Sort(xs, true), Sort(ys, true);
    SortedIn(xs);
    SortedIn(ys);
    forall key ensures EndsAt(sx, sy, key) <==> EndsAt(xs, ys, key) {
    }
  }

  lemma ObjectSurvives(xs: seq<Keyed<Json>>, ys: seq<Keyed<Json>>)
    ensures Survives(Object(xs), Object(ys)) <==> EditsUnshifted(xs, ys) && MembersSurvive(xs, ys)
  {
    hide EditsUnshifted;
    if MembersSurvive(xs, ys) {
      assert forall i, k :: 0 <= i < |xs| && 0 <= k < |ys| && xs[i].key == ys[k].key ==> xs[i] in xs && ys[k] in ys;
    }
  }

  /** Where a member of the sorted list was before. */
  lemma Unsorted(xs: seq<Keyed<Json>>, i: nat) returns (k: nat)
    requires i < |xs|
    ensures k < |xs| && xs[k] == Sort(xs, true)[i]
  {
    hide Sort;
    SortIsSort(xs, true);
    InBoth(xs, Sort(xs, true), Sort(xs, true)[i]);
    k :| 0 <= k < |xs| && xs[k] == Sort(xs, true)[i];
  }

  /** What the walk starts from. */
  lemma StartsMembers(xs: seq<Keyed<Json>>, ys: seq<Keyed<Json>>) returns (keys: set<CString>)
    requires Distinct(Object(xs)) && Distinct(Object(ys)) && Copyable(Object(ys), 0) && Patchable(Object(xs), Object(ys))
    ensures var sx, sy := Sort(xs, true), Sort(ys, true);
      && Strictly(sx) && Strictly(sy) && NormMembers(sx).Keys <= keys && NormMembers(sy).Keys <= keys && LooselyApart(keys)
      && (forall i :: 0 <= i < |sx| ==> Distinct(sx[i].item) && Nesting(sx[i].item) < Nesting(Object(xs)))
      && (forall i :: 0 <= i < |sy| ==> Distinct(sy[i].item) && Copyable(sy[i].item, 0))
      && (forall i, k :: 0 <= i < |sx| && 0 <= k < |sy| && sx[i].key == sy[k].key ==> Patchable(sx[i].item, sy[k].item))
    ensures keys == NormMembers(Sort(xs, true)).Keys + NormMembers(Sort(ys, true)).Keys
    ensures Norm(Object(xs)) == Dict(NormMembers(Sort(xs, true))) && Norm(Object(ys)) == Dict(NormMembers(Sort(ys, true)))
  {
    hide NormMembers, Sort, KeysApart, LooselyApart;
    var sx, sy := Sort(xs, true), Sort(ys, true);
    SortedMembers(xs);
    SortedMembers(ys);
    LooselyBoth(xs, ys);
    keys := NormMembers(xs).Keys + NormMembers(ys).Keys;
    forall i | 0 <= i < |sx| ensures Distinct(sx[i].item) && Nesting(sx[i].item) < Nesting(Object(xs)) {
      SortedMember(xs, i);
    }
    forall i | 0 <= i < |sy| ensures Distinct(sy[i].item) && Copyable(sy[i].item, 0) {
      SortedMember(ys, i);
      var y := Unsorted(ys, i);
      CopyableHigher(ys[y].item, 0);
    }
    forall i, k | 0 <= i < |sx| && 0 <= k < |sy| && sx[i].key == sy[k].key ensures Patchable(sx[i].item, sy[k].item) {
      var x := Unsorted(xs, i);
      var y := Unsorted(ys, k);
      assert xs[x].key == ys[y].key;
    }
  }

  /** If some edited key is taken for another, the patches for the two objects miss the goal. */
  lemma MissesGoal(doc: Json, path: CP.Path, xs: seq<Keyed<Json>>, ys: seq<Keyed<Json>>, depth: nat) returns (end: End)
    requires Distinct(doc) && CP.HasPath(Norm(doc), path) && CP.Indexable(path) && CP.At(Norm(doc), path) == Dict(NormMembers(xs))
    requires Strictly(xs) && Strictly(ys) && LooselyApart(NormMembers(xs).Keys + NormMembers(ys).Keys) && !EditsUnshifted(xs, ys)
    requires forall i :: 0 <= i < |xs| ==> Nesting(xs[i].item) < depth
    requires forall i :: 0 <= i < |ys| ==> Distinct(ys[i].item)
    ensures Ends(doc, path, MemberPatches(CP.PathText(path), xs, ys, true, depth), end)
    ensures !Reached(end, Dict(NormMembers(ys)))
  {
    hide Norm, NormMembers, Distinct, MemberPatches, ApplyAll, EditSpares, EndsAt, Missed, EditsUnshifted, LooselyApart, Agree;
    var patches := MemberPatches(CP.PathText(path), xs, ys, true, depth);
    var outcome := ApplyAll(Some(doc), patches, true);
    if outcome.status != 0 {
      end := Failed;
    } else {
      var key := MissesOne(xs, ys);
      MembersSpare(path, xs, ys, depth, key);
      var m := ListSpares(doc, path, key, patches);
      MissedDiffers(xs, ys, key, m);
      end := Arrived(outcome.doc.value, Dict(m));
      assert outcome == Outcome(0, Some(end.after), true);
    }
  }

  lemma {:induction false} TransformsObjects(doc: Json, path: CP.Path, xs: seq<Keyed<Json>>, ys: seq<Keyed<Json>>) returns (end: End)
    requires Distinct(doc) && Distinct(Object(xs)) && Distinct(Object(ys)) && Copyable(Object(ys), 0) && Patchable(Object(xs), Object(ys))
    requires CP.HasPath(Norm(doc), path) && CP.Indexable(path) && CP.At(Norm(doc), path) == Norm(Object(xs))
    ensures Ends(doc, path, CreatePatches(CP.PathText(path), Object(xs), Object(ys), true), end)
    ensures Reached(end, Norm(Object(ys))) <==> Survives(Object(xs), Object(ys))
    decreases Nesting(Object(xs)), 1
  {
    hide Norm, NormMembers, Distinct, Patchable, Ends, MemberPatches, Sort, Survives, MembersSurvive, EditsUnshifted, LooselyApart, CP.PathText;
    var sx, sy, depth := Sort(xs, true), Sort(ys, true), Nesting(Object(xs));
    var keys := StartsMembers(xs, ys);
    SortedEdits(xs, ys);
    ObjectSurvives(xs, ys);
    if EditsUnshifted(xs, ys) {
      assert map[] + NormMembers(sx) == NormMembers(sx) && map[] + NormMembers(sy) == NormMembers(sy);
      end := TransformsMembers(doc, path, map[], map[], sx, sy, keys, depth);
    } else {
      end := MissesGoal(doc, path, sx, sy, depth);
    }
  }

  lemma AlwaysSurvives(from: Json, to: Json)
    requires !(from.Array? && to.Array?) && !(from.Object? && to.Object?)
    ensures Survives(from, to)
  {
  }

  /** The patches for two trees, applied where the first stands, lead to the second if and only if every key that one
      of them ends in is left alone by the in-place decoder. */
  lemma {:induction false} Transforms(doc: Json, path: CP.Path, from: Json, to: Json) returns (end: End)
    requires Distinct(doc) && Distinct(from) && Distinct(to) && Copyable(to, 0) && Patchable(from, to)
    requires CP.HasPath(Norm(doc), path) && CP.Indexable(path) && CP.At(Norm(doc), path) == Norm(from)
    requires Replaced(from, to) ==> ParentOk(Norm(doc), path)
    ensures Ends(doc, path, CreatePatches(CP.PathText(path), from, to, true), end)
    ensures Reached(end, Norm(to)) <==> Survives(from, to)
    decreases Nesting(from), 2
  {
    hide Norm, NormMembers, Distinct, Patchable, Turns, ParentOk, ItemPatches, MemberPatches, Sort, Compose, EditsUnshifted, ItemsSurvive, Survives;
    match (from, to) {
      case (Array(xs), Array(ys)) =>
        StartsItems(xs, ys);
        end := TransformsItems(doc, path, [], xs, ys);
      case (Object(xs), Object(ys)) =>
        end := TransformsObjects(doc, path, xs, ys);
      case _ =>
        AlwaysSurvives(from, to);
        if from == to {
          TurnsNothing(doc, path);
          end := Arrived(doc, Norm(to));
        } else {
          var after := ReplacesThere(doc, path, to);
          end := Arrived(after, Norm(to));
        }
    }
  }

  /** Generating patches and applying them to any copy of `from` gives status 0 and `to`, up to the order of object
      members, if and only if every key that a patch ends in is left alone by the in-place decoder. */
  lemma PatchRoundTrip(from: Json, to: Json, doc: Json) returns (outcome: Outcome)
    requires Distinct(from) && Distinct(to) && Copyable(to, 0) && Patchable(from, to)
    requires Distinct(doc) && Same(doc, from)
    ensures outcome == ApplyPatches(Some(doc), Array(CreatePatches([], from, to, true)), true)
    ensures outcome.status == 0 ==> outcome.linked && outcome.doc.Some? && Distinct(outcome.doc.value)
    ensures outcome.status == 0 && outcome.doc.Some? && Same(outcome.doc.value, to) <==> Survives(from, to)
  {
    hide Norm, Distinct, Patchable, CreatePatches, ApplyAll, Survives;
    outcome := ApplyPatches(Some(doc), Array(CreatePatches([], from, to, true)), true);
    var end := Transforms(doc, [], from, to);
  }
}
