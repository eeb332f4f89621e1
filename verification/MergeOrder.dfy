/** Where a merge leaves the members, and merging the same patch twice. */
module MergeOrder {
  import opened Bytes
  import opened Json
  import opened MergeSort
  import opened Canon
  import opened Compare
  import opened Merge

  /** The members the patch does not name, in their order. */
  function Kept(members: seq<Keyed<Json>>, changes: seq<Keyed<Json>>): seq<Keyed<Json>> {
    if members == [] then []
    else (if HasKey(changes, members[0].key) then [] else [members[0]]) + Kept(members[1..], changes)
  }

  /** What one change leaves as a member. */
  function Change(members: seq<Keyed<Json>>, change: Keyed<Json>): seq<Keyed<Json>> {
    if change.item.Null? then []
    else
      match MergePatch(ValueAt(members, change.key, true), change.item, true)
      case None => []
      case Some(merged) => [Keyed(change.key, merged)]
  }

  /** The members the patch leaves under its own keys, in the order of the patch. */
  function Applied(members: seq<Keyed<Json>>, changes: seq<Keyed<Json>>): seq<Keyed<Json>> {
    if changes == [] then [] else Change(members, changes[0]) + Applied(members, changes[1..])
  }

  lemma {:induction false} KeptAppend(a: seq<Keyed<Json>>, b: seq<Keyed<Json>>, changes: seq<Keyed<Json>>)
    ensures Kept(a + b, changes) == Kept(a, changes) + Kept(b, changes)
  {
    if a == [] {
      assert a + b == b;
    } else {
      assert (a + b)[1..] == a[1..] + b;
      KeptAppend(a[1..], b, changes);
    }
  }

  lemma HasKeyTail(changes: seq<Keyed<Json>>, key: CString)
    requires changes != []
    ensures HasKey(changes, key) <==> key == changes[0].key || HasKey(changes[1..], key)
  {
    if HasKey(changes, key) && key != changes[0].key {
      var i :| 0 <= i < |changes| && changes[i].key == key;
      assert changes[1..][i - 1].key == key;
    }
    if HasKey(changes[1..], key) {
      var i :| 0 <= i < |changes[1..]| && changes[1..][i].key == key;
      assert changes[i + 1].key == key;
    }
  }

  lemma {:induction false} KeptTail(members: seq<Keyed<Json>>, changes: seq<Keyed<Json>>)
    requires changes != [] && !HasKey(members, changes[0].key)
    ensures Kept(members, changes) == Kept(members, changes[1..])
  {
    if members != [] {
      HasKeyTail(members, changes[0].key);
      HasKeyTail(changes, members[0].key);
      KeptTail(members[1..], changes);
    }
  }

  lemma {:induction false} KeptWithout(members: seq<Keyed<Json>>, k: nat, changes: seq<Keyed<Json>>)
    requires k < |members| && HasKey(changes, members[k].key)
    ensures Kept(Without(members, k), changes) == Kept(members, changes)
  {
    hide HasKey;
    if k == 0 {
      assert Without(members, 0) == members[1..];
    } else {
      KeptWithout(members[1..], k - 1, changes);
      assert Without(members, k)[1..] == Without(members[1..], k - 1);
    }
  }

  /** Taking the first change's key out does not matter to what is kept. */
  lemma KeptStep(members: seq<Keyed<Json>>, changes: seq<Keyed<Json>>)
    requires changes != [] && Distinct(Object(members))
    ensures Kept(WithoutKey(members, changes[0].key, true), changes[1..]) == Kept(members, changes)
  {
    hide FindKey, Kept, Distinct, NormMembers, Norm;
    var key := changes[0].key;
    TakesKeyOut(members, key);
    KeptTail(WithoutKey(members, key, true), changes);
    ExactKey(members, key);
    var k := FindKey(members, key, true);
    if k < |members| {
      KeptWithout(members, k, changes);
    }
  }

  lemma {:induction false} KeptMember(members: seq<Keyed<Json>>, changes: seq<Keyed<Json>>, m: Keyed<Json>)
    ensures m in Kept(members, changes) ==> m in members && !HasKey(changes, m.key)
  {
    if members != [] {
      KeptMember(members[1..], changes, m);
    }
  }

  lemma {:induction false} KeptAll(members: seq<Keyed<Json>>, changes: seq<Keyed<Json>>)
    requires forall i :: 0 <= i < |members| ==> !HasKey(changes, members[i].key)
    ensures Kept(members, changes) == members
  {
    if members != [] {
      KeptAll(members[1..], changes);
    }
  }

  lemma {:induction false} KeptNone(members: seq<Keyed<Json>>, changes: seq<Keyed<Json>>)
    requires forall i :: 0 <= i < |members| ==> HasKey(changes, members[i].key)
    ensures Kept(members, changes) == []
  {
    if members != [] {
      KeptNone(members[1..], changes);
    }
  }

  // ----- values -----

  lemma ValueIs(members: seq<Keyed<Json>>, m: Keyed<Json>)
    requires DistinctKeys(members) && m in members
    ensures ValueAt(members, m.key, true) == Some(m.item)
  {
    hide FindKey;
    ExactKey(members, m.key);
    var i :| 0 <= i < |members| && members[i] == m;
    assert HasKey(members, m.key);
  }

  lemma ValueIsNot(members: seq<Keyed<Json>>, key: CString)
    requires !HasKey(members, key)
    ensures ValueAt(members, key, true) == None
  {
    hide FindKey;
    ExactKey(members, key);
  }

  lemma StillThere(members: seq<Keyed<Json>>, key: CString, i: nat)
    requires i < |members| && members[i].key != key
    ensures members[i] in WithoutKey(members, key, true)
  {
    hide FindKey;
    ExactKey(members, key);
    var after, k := WithoutKey(members, key, true), FindKey(members, key, true);
    assert after[if i < k then i else i - 1] == members[i];
  }

  /** Other keys keep their values when one key is taken out and, perhaps, put back at the end. */
  lemma ValueElsewhere(members: seq<Keyed<Json>>, key: CString, back: seq<Keyed<Json>>, other: CString)
    requires DistinctKeys(members) && key != other && |back| <= 1 && (back != [] ==> back[0].key == key)
    requires DistinctKeys(WithoutKey(members, key, true) + back)
    ensures ValueAt(WithoutKey(members, key, true) + back, other, true) == ValueAt(members, other, true)
  {
    hide FindKey, ValueAt, WithoutKey;
    var after := WithoutKey(members, key, true) + back;
    if HasKey(members, other) {
      var i :| 0 <= i < |members| && members[i].key == other;
      StillThere(members, key, i);
      ValueIs(members, members[i]);
      ValueIs(after, members[i]);
    } else {
      if HasKey(after, other) {
        var i :| 0 <= i < |after| && after[i].key == other;
        OnlyFrom(members, key, after[i]);
      }
      ValueIsNot(members, other);
      ValueIsNot(after, other);
    }
  }

  lemma OnlyFrom(members: seq<Keyed<Json>>, key: CString, m: Keyed<Json>)
    ensures m in WithoutKey(members, key, true) ==> m in members
  {
    hide FindKey;
  }

  lemma {:induction false} AppliedAgrees(a: seq<Keyed<Json>>, b: seq<Keyed<Json>>, changes: seq<Keyed<Json>>)
    requires forall i :: 0 <= i < |changes| ==> Change(a, changes[i]) == Change(b, changes[i])
    ensures Applied(a, changes) == Applied(b, changes)
  {
    hide Change;
    if changes != [] {
      AppliedAgrees(a, b, changes[1..]);
    }
  }

  // ----- the order -----

  /** A merge keeps the members the patch does not name, in order, and puts those it names behind them, in the order
      of the patch. */
  lemma {:induction false} MergeOrder(members: seq<Keyed<Json>>, changes: seq<Keyed<Json>>)
    requires Distinct(Object(members)) && Distinct(Object(changes))
    ensures var merged := MergeMembers(members, changes, true);
      merged.Some? ==> merged.value == Kept(members, changes) + Applied(members, changes)
    decreases |changes|
  {
    hide Distinct, WithoutKey, ValueAt, Mergeable, NormMembers, Norm, HasKey;
    if changes == [] {
      NothingNamed(members);
    } else {
      var key, change, rest := changes[0].key, changes[0].item, changes[1..];
      var others, entry := WithoutKey(members, key, true), Change(members, changes[0]);
      TakesKeyOut(members, key);
      ChangesTail(changes);
      if !change.Null? {
        MergeMeetsRfc7396(ValueAt(members, key, true), change);
      }
      if change.Null? || entry != [] {
        if !change.Null? {
          PutsKeyIn(others, key, entry[0].item);
        }
        assert others + [] == others;
        MergeOrder(others + entry, rest);
        StepOrder(members, changes, entry);
      }
    }
  }

  lemma NothingNamed(members: seq<Keyed<Json>>)
    ensures Kept(members, []) == members
  {
    KeptAll(members, []);
  }

  lemma StepOrder(members: seq<Keyed<Json>>, changes: seq<Keyed<Json>>, entry: seq<Keyed<Json>>)
    requires changes != [] && Distinct(Object(members)) && Distinct(Object(changes))
    requires |entry| <= 1 && (entry != [] ==> entry[0].key == changes[0].key)
    requires Distinct(Object(WithoutKey(members, changes[0].key, true) + entry))
    ensures Kept(WithoutKey(members, changes[0].key, true) + entry, changes[1..]) == Kept(members, changes) + entry
    ensures Applied(WithoutKey(members, changes[0].key, true) + entry, changes[1..]) == Applied(members, changes[1..])
  {
    hide WithoutKey, MergePatch, ValueAt, Norm, NormMembers;
    var key, rest := changes[0].key, changes[1..];
    var others := WithoutKey(members, key, true);
    KeptStep(members, changes);
    KeptAppend(others, entry, rest);
    assert !HasKey(rest, key);
    KeptAll(entry, rest);
    forall i | 0 <= i < |rest| ensures Change(others + entry, rest[i]) == Change(members, rest[i]) {
      ValueElsewhere(members, key, entry, rest[i].key);
    }
    AppliedAgrees(others + entry, members, rest);
  }

  // ----- merging twice -----

  lemma {:induction false} AppliedHas(members: seq<Keyed<Json>>, changes: seq<Keyed<Json>>, i: nat)
    requires i < |changes|
    ensures forall m :: m in Change(members, changes[i]) ==> m in Applied(members, changes)
    ensures forall k :: 0 <= k < |Applied(members, changes)| ==> HasKey(changes, Applied(members, changes)[k].key)
  {
    AppliedKeys(members, changes);
    AppliedContains(members, changes, i);
  }

  lemma {:induction false} AppliedContains(members: seq<Keyed<Json>>, changes: seq<Keyed<Json>>, i: nat)
    requires i < |changes|
    ensures forall m :: m in Change(members, changes[i]) ==> m in Applied(members, changes)
  {
    hide Change;
    if i > 0 {
      AppliedContains(members, changes[1..], i - 1);
    }
  }

  lemma {:induction false} AppliedKeys(members: seq<Keyed<Json>>, changes: seq<Keyed<Json>>)
    ensures forall k :: 0 <= k < |Applied(members, changes)| ==> HasKey(changes, Applied(members, changes)[k].key)
  {
    hide MergePatch, ValueAt;
    if changes != [] {
      AppliedKeys(members, changes[1..]);
      var all, first := Applied(members, changes), Change(members, changes[0]);
      forall k | 0 <= k < |all| ensures HasKey(changes, all[k].key) {
        HasKeyTail(changes, all[k].key);
        if k >= |first| {
          assert all[k] == Applied(members, changes[1..])[k - |first|];
        }
      }
    }
  }

  lemma KeptTwice(members: seq<Keyed<Json>>, changes: seq<Keyed<Json>>)
    ensures Kept(Kept(members, changes) + Applied(members, changes), changes) == Kept(members, changes)
  {
    hide Kept, Applied;
    var kept, applied := Kept(members, changes), Applied(members, changes);
    KeptAppend(kept, applied, changes);
    forall i | 0 <= i < |kept| ensures !HasKey(changes, kept[i].key) {
      KeptMember(members, changes, kept[i]);
    }
    KeptAll(kept, changes);
    AppliedKeys(members, changes);
    KeptNone(applied, changes);
  }

  /** A second merge makes the same change once more. */
  lemma ChangeTwice(members: seq<Keyed<Json>>, once: seq<Keyed<Json>>, changes: seq<Keyed<Json>>, i: nat)
    requires i < |changes| && DistinctKeys(once) && once == Kept(members, changes) + Applied(members, changes)
    requires var change := changes[i]; !change.item.Null? ==>
      var merged := MergePatch(ValueAt(members, change.key, true), change.item, true);
      merged.Some? && MergePatch(merged, change.item, true) == merged
    ensures Change(once, changes[i]) == Change(members, changes[i])
  {
    hide Kept, Applied, ValueAt, MergePatch;
    if !changes[i].item.Null? {
      AppliedHas(members, changes, i);
      var entry := Change(members, changes[i])[0];
      assert entry in Applied(members, changes);
      ValueIs(once, entry);
    }
  }

  /** Merging the same patch again changes nothing, the order of members included. */
  lemma {:induction false} MergeTwice(target: Option<Json>, patch: Json)
    requires DistinctMaybe(target) && Distinct(patch) && MergePatch(target, patch, true).Some?
    ensures MergePatch(MergePatch(target, patch, true), patch, true) == MergePatch(target, patch, true)
    decreases patch
  {
    hide FindKey, Norm, NormMembers, MergeMembers, Change, ValueAt;
    match patch {
      case Object(changes) =>
        var members := MembersOf(target);
        var once := MergeMembers(members, changes, true).value;
        MergeMeetsRfc7396(target, patch);
        MergeMeetsRfc7396(Some(Object(once)), patch);
        MergeOrder(members, changes);
        MergeOrder(once, changes);
        KeptTwice(members, changes);
        forall i | 0 <= i < |changes| ensures Change(once, changes[i]) == Change(members, changes[i]) {
          var value := ValueAt(members, changes[i].key, true);
          TakesKeyOut(members, changes[i].key);
          if !changes[i].item.Null? {
            MergeMeetsRfc7396(value, changes[i].item);
            MergeTwice(value, changes[i].item);
          }
          ChangeTwice(members, once, changes, i);
        }
        AppliedAgrees(once, members, changes);
      case _ =>
    }
  }
}
