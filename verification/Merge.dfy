/** Applying a JSON Merge Patch (RFC 7396). */
module Merge {
  import opened Bytes
  import opened Json
  import opened Canon
  import opened Compare

  /** The member list without the first member that matches `key`. */
  function WithoutKey(members: seq<Keyed<Json>>, key: CString, caseSensitive: bool): seq<Keyed<Json>> {
    var k := FindKey(members, key, caseSensitive);
    if k < |members| then Without(members, k) else members
  }

  function ValueAt(members: seq<Keyed<Json>>, key: CString, caseSensitive: bool): Option<Json> {
    var k := FindKey(members, key, caseSensitive);
    if k < |members| then Some(members[k].item) else None
  }

  /** `merge_patch`: nothing if a value in the patch is too deep to be duplicated. */
  function MergePatch(target: Option<Json>, patch: Json, caseSensitive: bool): Option<Json>
    decreases patch, 1
  {
    match patch
    case Object(changes) =>
      (match MergeMembers(MembersOf(target), changes, caseSensitive)
       case None => None
       case Some(members) => Some(Object(members)))
    case _ => Duplicate(patch)
  }

  function MembersOf(target: Option<Json>): seq<Keyed<Json>> {
    match target
    case Some(Object(members)) => members
    case _ => []
  }

  function MergeMembers(members: seq<Keyed<Json>>, changes: seq<Keyed<Json>>, caseSensitive: bool): Option<seq<Keyed<Json>>>
    decreases changes, 0
  {
    if changes == [] then Some(members)
    else
      var key, change := changes[0].key, changes[0].item;
      var others := WithoutKey(members, key, caseSensitive);
      if change.Null? then MergeMembers(others, changes[1..], caseSensitive)
      else
        match MergePatch(ValueAt(members, key, caseSensitive), change, caseSensitive)
        case None => None
        case Some(merged) => MergeMembers(others + [Keyed(key, merged)], changes[1..], caseSensitive)
  }

  /** No value that the patch would put into the target is too deep to be duplicated. */
  predicate Mergeable(patch: Json)
    decreases patch
  {
    match patch
    case Object(changes) => forall i :: 0 <= i < |changes| && !changes[i].item.Null? ==> Mergeable(changes[i].item)
    case _ => Copyable(patch, 0)
  }

  // ----- as the source runs it -----

  method CMergePatch(target: Option<Json>, patch: Json, caseSensitive: bool) returns (merged: Option<Json>)
    ensures merged == MergePatch(target, patch, caseSensitive)
    decreases patch
  {
    hide FindKey, Copyable;
    if !patch.Object? {
      return Duplicate(patch);
    }
    var members, changes := MembersOf(target), patch.members;
    var k := 0;
    while k < |changes|
      invariant k <= |changes|
      invariant MergeMembers(members, changes[k..], caseSensitive) == MergeMembers(MembersOf(target), changes, caseSensitive)
    {
      assert changes[k..][0] == changes[k] && changes[k..][1..] == changes[k + 1..];
      var found := CFindKey(members, changes[k].key, caseSensitive);
      var replaced: Option<Json> := None;
      var others := members;
      if found < |members| {
        replaced := Some(members[found].item);
        others := Without(members, found);
      }
      if changes[k].item.Null? {
        members := others;
      } else {
        var replacement := CMergePatch(replaced, changes[k].item, caseSensitive);
        if replacement.None? {
          return None;
        }
        members := others + [Keyed(changes[k].key, replacement.value)];
      }
      k := k + 1;
    }
    return Some(Object(members));
  }

  // ----- section 2 of RFC 7396, on objects as maps -----

  function Base(target: Option<Canon>): map<CString, Canon> {
    match target
    case Some(Dict(members)) => members
    case _ => map[]
  }

  function MaybeAt(m: map<CString, Canon>, key: CString): Option<Canon> {
    if key in m then Some(m[key]) else None
  }

  /** The recursive function of the standard. */
  function Rfc7396(target: Option<Canon>, patch: Canon): Canon
    decreases patch
  {
    match patch
    case Dict(changes) =>
      var base := Base(target);
      Dict(map key | key in base.Keys + changes.Keys && !(key in changes && changes[key] == Scalar(Null)) ::
             if key in changes then Rfc7396(MaybeAt(base, key), changes[key]) else base[key])
    case _ => patch
  }

  function NormMaybe(j: Option<Json>): Option<Canon> {
    if j.Some? then Some(Norm(j.value)) else None
  }

  predicate DistinctMaybe(j: Option<Json>) {
    j.Some? ==> Distinct(j.value)
  }

  function Overlay(base: map<CString, Canon>, changes: map<CString, Canon>): map<CString, Canon> {
    Rfc7396(Some(Dict(base)), Dict(changes)).members
  }

  lemma OverlayAt(base: map<CString, Canon>, changes: map<CString, Canon>, key: CString)
    ensures MaybeAt(Overlay(base, changes), key) ==
      if key !in changes then MaybeAt(base, key)
      else if changes[key] == Scalar(Null) then None
      else Some(Rfc7396(MaybeAt(base, key), changes[key]))
  {
  }

  lemma EqualMaps(a: map<CString, Canon>, b: map<CString, Canon>)
    requires forall k :: MaybeAt(a, k) == MaybeAt(b, k)
    ensures a == b
  {
    assert forall k :: k in a <==> MaybeAt(a, k).Some?;
    assert forall k :: k in b <==> MaybeAt(b, k).Some?;
    forall k | k in a ensures a[k] == b[k] {
      assert MaybeAt(a, k) == MaybeAt(b, k);
    }
  }

  /** One change at a time: a null removes, anything else is merged into what is there. */
  lemma OverlayStep(base: map<CString, Canon>, changes: map<CString, Canon>, key: CString, change: Canon)
    requires key !in changes
    ensures Overlay(base, changes[key := change]) ==
      Overlay(if change == Scalar(Null) then base - {key} else base[key := Rfc7396(MaybeAt(base, key), change)], changes)
  {
    hide Overlay, Rfc7396;
    var stepped := if change == Scalar(Null) then base - {key} else base[key := Rfc7396(MaybeAt(base, key), change)];
    forall k ensures MaybeAt(Overlay(base, changes[key := change]), k) == MaybeAt(Overlay(stepped, changes), k) {
      OverlayAt(base, changes[key := change], k);
      OverlayAt(stepped, changes, k);
    }
    EqualMaps(Overlay(base, changes[key := change]), Overlay(stepped, changes));
  }

  // ----- what one step does to the member list -----

  lemma ExactKey(members: seq<Keyed<Json>>, key: CString)
    ensures var k := FindKey(members, key, true);
      && (k < |members| ==> members[k].key == key)
      && (k == |members| <==> !HasKey(members, key))
  {
    hide FindKey;
    var k := FindKey(members, key, true);
    if k < |members| {
      StrCmpZero(members[k].key, key);
    }
    forall i | 0 <= i < |members| ensures StrCmp(members[i].key, key) == 0 <==> members[i].key == key {
      StrCmpZero(members[i].key, key);
    }
  }

  lemma TakesKeyOut(members: seq<Keyed<Json>>, key: CString)
    requires Distinct(Object(members))
    ensures var others := WithoutKey(members, key, true);
      Distinct(Object(others)) && !HasKey(others, key) && NormMembers(others) == NormMembers(members) - {key}
    ensures var value := ValueAt(members, key, true);
      DistinctMaybe(value) && NormMaybe(value) == MaybeAt(NormMembers(members), key)
  {
    hide Norm, NormMembers, FindKey;
    ExactKey(members, key);
    NormKeys(members, key);
    var k := FindKey(members, key, true);
    if k < |members| {
      NormRemove(members, k);
      NormAt(members, k);
    } else {
      assert NormMembers(members) - {key} == NormMembers(members);
    }
  }

  lemma PutsKeyIn(others: seq<Keyed<Json>>, key: CString, value: Json)
    requires Distinct(Object(others)) && !HasKey(others, key) && Distinct(value)
    ensures Distinct(Object(others + [Keyed(key, value)]))
    ensures NormMembers(others + [Keyed(key, value)]) == NormMembers(others)[key := Norm(value)]
  {
    hide Norm, NormMembers;
    NormAppend(others, Keyed(key, value));
  }

  /** On trees without repeated keys, `merge_patch` is the function of the standard, up to member order; it gives
      nothing exactly when a value of the patch cannot be duplicated. */
  lemma {:induction false} MergeMeetsRfc7396(target: Option<Json>, patch: Json)
    requires DistinctMaybe(target) && Distinct(patch)
    ensures var merged := MergePatch(target, patch, true);
      && (merged.Some? <==> Mergeable(patch))
      && (merged.Some? ==> Distinct(merged.value) && Norm(merged.value) == Rfc7396(NormMaybe(target), Norm(patch)))
    decreases patch, 1
  {
    if patch.Object? {
      var start := MembersOf(target);
      MergeMembersMeetsRfc(start, patch.members);
      assert Norm(patch) == Dict(NormMembers(patch.members));
      assert Base(NormMaybe(target)) == NormMembers(start);
    } else {
      NormsOfValues(patch);
    }
  }

  lemma NormsOfValues(j: Json)
    requires !j.Object?
    ensures !Norm(j).Dict?
  {
  }

  lemma {:induction false} MergeMembersMeetsRfc(members: seq<Keyed<Json>>, changes: seq<Keyed<Json>>)
    requires Distinct(Object(members)) && Distinct(Object(changes))
    ensures var merged := MergeMembers(members, changes, true);
      && (merged.Some? <==> Mergeable(Object(changes)))
      && (merged.Some? ==> Distinct(Object(merged.value)) && NormMembers(merged.value) == Overlay(NormMembers(members), NormMembers(changes)))
    decreases changes, 0
  {
    hide Norm, NormMembers, FindKey, Overlay, Mergeable, Distinct, WithoutKey, ValueAt;
    if changes == [] {
      OverlayNothing(NormMembers(members));
    } else {
      var key, change, rest := changes[0].key, changes[0].item, changes[1..];
      var others := WithoutKey(members, key, true);
      TakesKeyOut(members, key);
      ChangesTail(changes);
      OverlayStep(NormMembers(members), NormMembers(rest), key, Norm(change));
      NullIsNull(change);
      if change.Null? {
        MergeMembersMeetsRfc(others, rest);
      } else {
        MergeMeetsRfc7396(ValueAt(members, key, true), change);
        var merged := MergePatch(ValueAt(members, key, true), change, true);
        if merged.Some? {
          PutsKeyIn(others, key, merged.value);
          assert (NormMembers(members) - {key})[key := Norm(merged.value)] == NormMembers(members)[key := Norm(merged.value)];
          MergeMembersMeetsRfc(others + [Keyed(key, merged.value)], rest);
        }
      }
    }
  }

  lemma OverlayNothing(base: map<CString, Canon>)
    ensures Overlay(base, NormMembers([])) == base && Mergeable(Object([]))
  {
  }

  lemma NullIsNull(j: Json)
    ensures Norm(j) == Scalar(Null) <==> j.Null?
  {
  }

  lemma ChangesTail(changes: seq<Keyed<Json>>)
    requires changes != [] && Distinct(Object(changes))
    ensures Mergeable(Object(changes)) <==>
      (changes[0].item.Null? || Mergeable(changes[0].item)) && Mergeable(Object(changes[1..]))
    ensures Distinct(changes[0].item) && Distinct(Object(changes[1..])) && changes[0].key !in NormMembers(changes[1..])
    ensures NormMembers(changes) == NormMembers(changes[1..])[changes[0].key := Norm(changes[0].item)]
  {
    hide Copyable, Norm;
    NormKeys(changes[1..], changes[0].key);
    if (changes[0].item.Null? || Mergeable(changes[0].item)) && Mergeable(Object(changes[1..])) {
      forall i | 0 <= i < |changes| && !changes[i].item.Null? ensures Mergeable(changes[i].item) {
        if i > 0 {
          assert changes[1..][i - 1] == changes[i];
        }
      }
    }
  }
}
