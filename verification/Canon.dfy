/** Trees up to member order: objects as maps. */
module Canon {
  import opened Bytes
  import opened Json
  import opened MergeSort

  datatype Canon = Scalar(j: Json) | List(items: seq<Canon>) | Dict(members: map<CString, Canon>)

  /** The tree with member order forgotten. */
  function Norm(j: Json): Canon
    decreases j, 1
  {
    match j
    case Array(items) => List(seq(|items|, i requires 0 <= i < |items| => Norm(items[i])))
    case Object(members) => Dict(NormMembers(members))
    case _ => Scalar(j)
  }

  function NormMembers(members: seq<Keyed<Json>>): map<CString, Canon>
    decreases members, 0
  {
    if members == [] then map[] else NormMembers(members[1..])[members[0].key := Norm(members[0].item)]
  }

  /** Equal up to the order of object members. */
  predicate Same(a: Json, b: Json) { Norm(a) == Norm(b) }

  /** No object anywhere in the tree repeats a key. */
  predicate Distinct(j: Json)
    decreases j
  {
    match j
    case Array(items) => forall i :: 0 <= i < |items| ==> Distinct(items[i])
    case Object(members) => DistinctKeys(members) && forall i :: 0 <= i < |members| ==> Distinct(members[i].item)
    case _ => true
  }

  predicate HasKey<T>(s: seq<Keyed<T>>, key: CString) {
    exists i :: 0 <= i < |s| && s[i].key == key
  }

  lemma {:induction false} NormKeys(s: seq<Keyed<Json>>, key: CString)
    ensures key in NormMembers(s) <==> HasKey(s, key)
  {
    if s != [] {
      NormKeys(s[1..], key);
      if HasKey(s[1..], key) {
        var i :| 0 <= i < |s[1..]| && s[1..][i].key == key;
        assert s[i + 1].key == key;
      }
      if HasKey(s, key) && s[0].key != key {
        var i :| 0 <= i < |s| && s[i].key == key;
        assert s[1..][i - 1].key == key;
      }
    }
  }

  lemma {:induction false} NormAt(s: seq<Keyed<Json>>, i: nat)
    requires i < |s| && DistinctKeys(s)
    ensures s[i].key in NormMembers(s) && NormMembers(s)[s[i].key] == Norm(s[i].item)
  {
    if i > 0 {
      NormAt(s[1..], i - 1);
    }
  }

  /** The map of a distinctly keyed member list is fixed by what it says of each member. */
  lemma NormIs(s: seq<Keyed<Json>>, m: map<CString, Canon>)
    requires DistinctKeys(s)
    requires forall i :: 0 <= i < |s| ==> s[i].key in m && m[s[i].key] == Norm(s[i].item)
    requires forall k :: k in m ==> HasKey(s, k)
    ensures NormMembers(s) == m
  {
    hide Norm, NormMembers;
    forall k ensures k in NormMembers(s) <==> k in m {
      NormKeys(s, k);
    }
    forall k | k in m ensures NormMembers(s)[k] == m[k] {
      var i :| 0 <= i < |s| && s[i].key == k;
      NormAt(s, i);
    }
  }

  lemma NormRearranged(a: seq<Keyed<Json>>, b: seq<Keyed<Json>>)
    requires multiset(a) == multiset(b) && DistinctKeys(a)
    ensures DistinctKeys(b) && NormMembers(a) == NormMembers(b)
  {
    hide Norm, NormMembers;
    RearrangedDistinct(a, b);
    forall i | 0 <= i < |b| ensures b[i].key in NormMembers(a) && NormMembers(a)[b[i].key] == Norm(b[i].item) {
      InBoth(a, b, b[i]);
      var x :| 0 <= x < |a| && a[x] == b[i];
      NormAt(a, x);
    }
    forall k | k in NormMembers(a) ensures HasKey(b, k) {
      NormKeys(a, k);
      var x :| 0 <= x < |a| && a[x].key == k;
      InBoth(a, b, a[x]);
    }
    NormIs(b, NormMembers(a));
  }

  function Without<T>(s: seq<T>, i: nat): seq<T>
    requires i < |s|
  {
    s[..i] + s[i + 1..]
  }

  lemma NormUpdate(s: seq<Keyed<Json>>, i: nat, v: Json)
    requires i < |s| && DistinctKeys(s)
    ensures DistinctKeys(s[i := Keyed(s[i].key, v)])
    ensures NormMembers(s[i := Keyed(s[i].key, v)]) == NormMembers(s)[s[i].key := Norm(v)]
  {
    hide Norm, NormMembers;
    var t := s[i := Keyed(s[i].key, v)];
    forall k | 0 <= k < |s| ensures s[k].key in NormMembers(s) && NormMembers(s)[s[k].key] == Norm(s[k].item) {
      NormAt(s, k);
    }
    forall k | k in NormMembers(s) ensures HasKey(t, k) {
      NormKeys(s, k);
      var x :| 0 <= x < |s| && s[x].key == k;
      assert t[x].key == k;
    }
    assert t[i].key == s[i].key;
    NormIs(t, NormMembers(s)[s[i].key := Norm(v)]);
  }

  lemma DistinctWithout<T>(s: seq<Keyed<T>>, i: nat)
    requires i < |s| && DistinctKeys(s)
    ensures DistinctKeys(Without(s, i)) && forall k :: 0 <= k < |s| - 1 ==> Without(s, i)[k].key != s[i].key
  {
  }

  lemma KeptKey<T>(s: seq<Keyed<T>>, i: nat, key: CString)
    requires i < |s| && HasKey(s, key) && key != s[i].key
    ensures HasKey(Without(s, i), key)
  {
    var x :| 0 <= x < |s| && s[x].key == key;
    assert Without(s, i)[if x < i then x else x - 1].key == key;
  }

  lemma NormRemove(s: seq<Keyed<Json>>, i: nat)
    requires i < |s| && DistinctKeys(s)
    ensures DistinctKeys(Without(s, i))
    ensures NormMembers(Without(s, i)) == NormMembers(s) - {s[i].key}
  {
    hide Norm, NormMembers, HasKey, DistinctKeys;
    var t, m := Without(s, i), NormMembers(s) - {s[i].key};
    DistinctWithout(s, i);
    forall k | 0 <= k < |t| ensures t[k].key in m && m[t[k].key] == Norm(t[k].item) {
      NormAt(s, if k < i then k else k + 1);
    }
    forall k | k in m ensures HasKey(t, k) {
      NormKeys(s, k);
      KeptKey(s, i, k);
    }
    NormIs(t, m);
  }

  lemma NormAppend(s: seq<Keyed<Json>>, m: Keyed<Json>)
    requires DistinctKeys(s) && !HasKey(s, m.key)
    ensures DistinctKeys(s + [m])
    ensures NormMembers(s + [m]) == NormMembers(s)[m.key := Norm(m.item)]
  {
    hide Norm, NormMembers;
    var t := s + [m];
    forall k | 0 <= k < |t|
      ensures t[k].key in NormMembers(s)[m.key := Norm(m.item)] && NormMembers(s)[m.key := Norm(m.item)][t[k].key] == Norm(t[k].item)
    {
      if k < |s| { NormAt(s, k); }
    }
    forall k | k in NormMembers(s)[m.key := Norm(m.item)] ensures HasKey(t, k) {
      NormKeys(s, k);
      if k == m.key {
        assert t[|s|].key == k;
      } else {
        var x :| 0 <= x < |s| && s[x].key == k;
        assert t[x].key == k;
      }
    }
    NormIs(t, NormMembers(s)[m.key := Norm(m.item)]);
  }

  lemma SortSame(s: seq<Keyed<Json>>, caseSensitive: bool)
    requires DistinctKeys(s)
    ensures DistinctKeys(Sort(s, caseSensitive)) && NormMembers(Sort(s, caseSensitive)) == NormMembers(s)
  {
    hide Norm, NormMembers, Sort;
    SortIsSort(s, caseSensitive);
    NormRearranged(s, Sort(s, caseSensitive));
  }
}
