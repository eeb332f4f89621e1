/** Where generating and applying a patch does not lead to the goal, and the exact condition for one removal. */
module PatchLimits {
  import opened Bytes
  import opened Json
  import opened MergeSort
  import opened Canon
  import opened Compare
  import opened Pointer
  import opened Paths
  import opened Patch
  import opened PatchGenerate
  import opened PatchSteps
  import CP = CanonPath
  import PatchUndo
  import DecodeInPlace
  import opened DecodeRank

  /** The member that the case-insensitive search finds first for what the key is taken for. */
  lemma FindsFirst(members: seq<Keyed<Json>>, n: nat)
    requires DistinctKeys(members) && n < |members|
    ensures FindKey(members, Mistaken(members[n].key), false) == n
       <==> DecodeInPlace.Unshifted(members[n].key) && forall i :: 0 <= i < n ==> LowerAll(members[i].key) != LowerAll(members[n].key)
  {
    hide FindKey, Mistaken, LowerAll, DecodeInPlace.Unshifted;
    var key, name := members[n].key, Mistaken(members[n].key);
    var k := FindKey(members, name, false);
    MistakenLoosely(key);
    forall i | 0 <= i < |members| ensures CompareStrings(members[i].key, name, false) == 0 <==> LowerAll(members[i].key) == LowerAll(name) {
      StrCmpZero(LowerAll(members[i].key), LowerAll(name));
    }
  }

  /** The generated removal of a member of the object at a path takes the member it was made for if and only if the
      in-place decoder leaves the key alone and no earlier member's key agrees with it ignoring case. */
  lemma RemovalIsExact(doc: Json, path: Path, pos: Position, n: nat)
    requires Distinct(doc) && CP.HasPath(Norm(doc), path) && CP.Indexable(path) && CP.At(Norm(doc), path).Dict?
    requires Lookup(doc, CP.PathText(path), 0, true) == Some(pos) && HasPosition(doc, pos) && Get(doc, pos).Object? && n < |Get(doc, pos).members|
    ensures var members := Get(doc, pos).members;
      Apply(Some(doc), Compose(REMOVE_TEXT, CP.PathText(path), Some(members[n].key), None), true)
        == Outcome(0, Some(Put(doc, pos, Object(Without(members, n)))), true)
      <==> DecodeInPlace.Unshifted(members[n].key) && forall i :: 0 <= i < n ==> LowerAll(members[i].key) != LowerAll(members[n].key)
  {
    hide Norm, FindKey, Compose, Encode, Apply, FindPlace, Lookup, Get, Put, LowerAll, Mistaken, DecodeInPlace.Unshifted;
    var members := Get(doc, pos).members;
    var key := members[n].key;
    var there := CP.Follow(doc, path);
    AppliesRemove(doc, path, key);
    RemovalFinds(doc, path, pos, key);
    DistinctObject(members);
    FindsFirst(members, n);
    var k := FindKey(members, Mistaken(key), false);
    if k < |members| && k != n {
      PatchUndo.PutIsThere(doc, pos, Object(Without(members, k)));
      PatchUndo.PutIsThere(doc, pos, Object(Without(members, n)));
      var i := if k < n then k else n;
      assert Without(members, k)[i].key != Without(members, n)[i].key;
    }
  }

  lemma RemovalFinds(doc: Json, path: Path, pos: Position, key: CString)
    requires Distinct(doc) && CP.HasPath(Norm(doc), path) && CP.Indexable(path) && CP.At(Norm(doc), path).Dict?
    requires Lookup(doc, CP.PathText(path), 0, true) == Some(pos) && HasPosition(doc, pos) && Get(doc, pos).Object?
    ensures Distinct(Get(doc, pos))
    ensures var members, k := Get(doc, pos).members, FindKey(Get(doc, pos).members, Mistaken(key), false);
      Apply(Some(doc), Compose(REMOVE_TEXT, CP.PathText(path), Some(key), None), true) ==
        if k < |members| then Outcome(0, Some(Put(doc, pos, Object(Without(members, k)))), true) else Outcome(13, Some(doc), true)
  {
    hide Distinct, Norm, FindKey, Compose, Encode, Apply, FindPlace, Lookup, Get, Put;
    AppliesRemove(doc, path, key);
    var there := Resolve(doc, path, Encode(key));
    assert Full(path, Encode(key))[..|CP.PathText(path)|] == CP.PathText(path);
    ResolvesThere(doc, path, there, key);
  }

  lemma ResolvesThere(doc: Json, path: Path, pos: Position, key: CString)
    requires LastSlash(Full(path, Encode(key))) == Some(|CP.PathText(path)|) && Full(path, Encode(key))[|CP.PathText(path)| + 1..] == Encode(key)
    requires Lookup(doc, Full(path, Encode(key))[..|CP.PathText(path)|], 0, true) == Some(pos) && HasPosition(doc, pos) && Get(doc, pos).Object?
    ensures var k := FindKey(Get(doc, pos).members, Mistaken(key), false);
      FindPlace(doc, Full(path, Encode(key)), true) == if k < |Get(doc, pos).members| then Some(Place(pos, k)) else None
  {
    hide FindKey, Encode, Lookup, Get, LastSlash, Full;
  }

  const TILDE_A: CString := [TILDE, 97]
  const UPPER_A: CString := [65]
  const LOWER_A: CString := [97]

  lemma DecodesTildeA()
    ensures DecodeInPlace.Decode(Encode(TILDE_A)) == [TILDE, ZERO]
  {
    assert TILDE_A[1..] == LOWER_A && LOWER_A[1..] == [];
    assert Encode(LOWER_A) == LOWER_A + [];
    var encoded: CString := [TILDE, ZERO, 97];
    assert Encode(TILDE_A) == [TILDE, ZERO] + LOWER_A == encoded;
    assert encoded[0 := TILDE] == encoded;
    assert DecodeInPlace.DecodeFrom(encoded, 2, 1) == DecodeInPlace.DecodeFrom(encoded, 3, 2) == encoded[..2];
  }

  lemma RootRemoval(members: seq<Keyed<Json>>, key: CString)
    requires Distinct(Object(members))
    ensures var k := FindKey(members, Mistaken(key), false);
      Apply(Some(Object(members)), Compose(REMOVE_TEXT, [], Some(key), None), true) ==
        if k < |members| then Outcome(0, Some(Object(Without(members, k))), true) else Outcome(13, Some(Object(members)), true)
  {
    hide Distinct, Norm, FindKey, Compose, Encode, Apply, Mistaken;
    assert Lookup(Object(members), CP.PathText([]), 0, true) == Some([]);
    RemovalFinds(Object(members), [], [], key) by { ObjectIsDict(members); }
  }

  lemma ObjectIsDict(members: seq<Keyed<Json>>)
    ensures Norm(Object(members)).Dict?
  {
  }

  /** What is generated when the second object lacks the one member left. */
  lemma GeneratesRemoval(member: Keyed<Json>, depth: nat)
    requires Nesting(member.item) < depth
    ensures MemberPatches([], [member], [], true, depth) == [Compose(REMOVE_TEXT, [], Some(member.key), None)]
  {
    hide Compose;
    assert [member][1..] == [];
    assert MemberPatches([], [], [], true, depth) == [];
  }

  /** A key with a byte behind a tilde: the removal looks for `~0` in place of `~a` and fails. */
  lemma ShiftedKeyFails(value: Json)
    requires Distinct(value)
    ensures var from := Object([Keyed(TILDE_A, value)]);
      ApplyPatches(Some(from), Array(CreatePatches([], from, Object([]), true)), true) == Outcome(13, Some(from), true)
  {
    hide Apply, Compose, FindKey, MemberPatches;
    var members := [Keyed(TILDE_A, value)];
    var patch := Compose(REMOVE_TEXT, [], Some(TILDE_A), None);
    assert Nesting(value) < Nesting(Object(members)) by { MemberNesting(members, 0); }
    GeneratesRemoval(members[0], Nesting(Object(members)));
    assert CreatePatches([], Object(members), Object([]), true) == [patch];
    RootRemoval(members, TILDE_A);
    DecodesTildeA();
    StrCmpZero(LowerAll(TILDE_A), LowerAll([TILDE, ZERO]));
    assert LowerAll(TILDE_A)[1] != LowerAll([TILDE, ZERO])[1];
    assert [patch][0] == patch;
  }

  const UPPER: Keyed<Json> := Keyed(UPPER_A, Null)
  const LOWER: Keyed<Json> := Keyed(LOWER_A, True)

  lemma GeneratesForCases()
    ensures CreatePatches([], Object([UPPER, LOWER]), Object([UPPER]), true) == [Compose(REMOVE_TEXT, [], Some(LOWER_A), None)]
  {
    hide Compose;
    var members, kept, depth := [UPPER, LOWER], [UPPER], Nesting(Object([UPPER, LOWER]));
    assert Sort(members, true) == members && Sort(kept, true) == kept;
    assert members[1..] == [LOWER] && kept[1..] == [];
    GeneratesRemoval(LOWER, depth);
    assert CreatePatches([SLASH] + Encode(UPPER_A), Null, Null, true) == [];
    assert HeadDifference(members, kept, true) == 0 by { StrCmpZero(UPPER_A, UPPER_A); }
    assert [] + ([SLASH] + Encode(UPPER_A)) == [SLASH] + Encode(UPPER_A);
    assert MemberPatches([], members, kept, true, depth) == [] + MemberPatches([], [LOWER], [], true, depth);
  }

  lemma FindsUpper()
    ensures FindKey([UPPER, LOWER], Mistaken(LOWER_A), false) == 0
  {
    hide FindKey;
    DecodesPlain(LOWER_A);
    StrCmpZero(LowerAll(UPPER_A), LowerAll(LOWER_A));
    assert LowerAll(UPPER_A) == LOWER_A == LowerAll(LOWER_A);
    assert CompareStrings([UPPER, LOWER][0].key, LOWER_A, false) == 0;
  }

  /** Two keys that differ in case: the removal of the second takes the first. */
  lemma CaseCollisionFails()
    ensures ApplyPatches(Some(Object([UPPER, LOWER])), Array(CreatePatches([], Object([UPPER, LOWER]), Object([UPPER]), true)), true)
         == Outcome(0, Some(Object([LOWER])), true)
    ensures !Same(Object([LOWER]), Object([UPPER]))
  {
    hide Apply, Compose, FindKey, CreatePatches, Mistaken, LowerAll;
    GeneratesForCases();
    RootRemoval([UPPER, LOWER], LOWER_A);
    FindsUpper();
    assert Without([UPPER, LOWER], 0) == [LOWER];
    var patches := [Compose(REMOVE_TEXT, [], Some(LOWER_A), None)];
    assert patches[0] == Compose(REMOVE_TEXT, [], Some(LOWER_A), None) && patches[1..] == [];
    assert ApplyAll(Some(Object([LOWER])), [], true) == Outcome(0, Some(Object([LOWER])), true);
    assert LOWER_A in NormMembers([LOWER]) && LOWER_A !in NormMembers([UPPER]);
  }
}
