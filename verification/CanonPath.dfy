/** Token paths on trees up to member order, and the pointer texts that stand for them. */
module CanonPath {
  import opened Bytes
  import opened Json
  import opened Canon
  import opened Pointer
  import opened Paths

  datatype Token = Key(key: CString) | Index(n: nat)

  type Path = seq<Token>

  function TokenText(t: Token): (s: CString)
    ensures SLASH !in s
  {
    match t
    case Key(key) => Encode(key)
    case Index(n) => Digits(n)
  }

  function PathText(path: Path): CString {
    if path == [] then [] else [SLASH] + TokenText(path[0]) + PathText(path[1..])
  }

  lemma {:induction false} PathTextSnoc(path: Path, t: Token)
    ensures PathText(path + [t]) == PathText(path) + ([SLASH] + TokenText(t))
  {
    if path == [] {
      assert (path + [t])[1..] == [];
    } else {
      assert (path + [t])[1..] == path[1..] + [t];
      PathTextSnoc(path[1..], t);
    }
  }

  predicate HasToken(c: Canon, t: Token) {
    match (c, t)
    case (List(items), Index(n)) => n < |items|
    case (Dict(members), Key(key)) => key in members
    case _ => false
  }

  function Below(c: Canon, t: Token): Canon
    requires HasToken(c, t)
  {
    match c
    case List(items) => items[t.n]
    case Dict(members) => members[t.key]
  }

  function SetBelow(c: Canon, t: Token, v: Canon): (r: Canon)
    requires HasToken(c, t)
    ensures HasToken(r, t) && Below(r, t) == v
  {
    match c
    case List(items) => List(items[t.n := v])
    case Dict(members) => Dict(members[t.key := v])
  }

  predicate HasPath(c: Canon, path: Path)
    decreases path
  {
    path == [] || (HasToken(c, path[0]) && HasPath(Below(c, path[0]), path[1..]))
  }

  function At(c: Canon, path: Path): Canon
    requires HasPath(c, path)
    decreases path
  {
    if path == [] then c else At(Below(c, path[0]), path[1..])
  }

  function Set(c: Canon, path: Path, v: Canon): Canon
    requires HasPath(c, path)
    decreases path
  {
    if path == [] then v else SetBelow(c, path[0], Set(Below(c, path[0]), path[1..], v))
  }

  // ----- laws -----

  lemma {:induction false} SetIsThere(c: Canon, path: Path, v: Canon)
    requires HasPath(c, path)
    ensures HasPath(Set(c, path, v), path) && At(Set(c, path, v), path) == v
    decreases path
  {
    if path != [] {
      SetIsThere(Below(c, path[0]), path[1..], v);
    }
  }

  lemma {:induction false} SetTwice(c: Canon, path: Path, v: Canon, w: Canon)
    requires HasPath(c, path)
    ensures HasPath(Set(c, path, v), path) && Set(Set(c, path, v), path, w) == Set(c, path, w)
    decreases path
  {
    if path != [] {
      SetTwice(Below(c, path[0]), path[1..], v, w);
      SetBelowTwice(c, path[0], Set(Below(c, path[0]), path[1..], v), Set(Below(c, path[0]), path[1..], w));
    }
  }

  lemma SetBelowTwice(c: Canon, t: Token, v: Canon, w: Canon)
    requires HasToken(c, t)
    ensures SetBelow(SetBelow(c, t, v), t, w) == SetBelow(c, t, w)
  {
    match c {
      case List(items) => assert items[t.n := v][t.n := w] == items[t.n := w];
      case Dict(members) => assert members[t.key := v][t.key := w] == members[t.key := w];
    }
  }

  lemma {:induction false} SetSame(c: Canon, path: Path)
    requires HasPath(c, path)
    ensures Set(c, path, At(c, path)) == c
    decreases path
  {
    if path != [] {
      SetSame(Below(c, path[0]), path[1..]);
      match c {
        case List(items) => assert items[path[0].n := items[path[0].n]] == items;
        case Dict(members) => assert members[path[0].key := members[path[0].key]] == members;
      }
    }
  }

  lemma {:induction false} PathSnoc(c: Canon, path: Path, t: Token, v: Canon)
    requires HasPath(c, path) && HasToken(At(c, path), t)
    ensures HasPath(c, path + [t]) && At(c, path + [t]) == Below(At(c, path), t)
    ensures Set(c, path + [t], v) == Set(c, path, SetBelow(At(c, path), t, v))
    decreases path
  {
    var longer := path + [t];
    if path == [] {
      assert longer[1..] == [];
    } else {
      assert longer[1..] == path[1..] + [t];
      PathSnoc(Below(c, path[0]), path[1..], t, v);
    }
  }

  // ----- from trees to their canonical forms -----

  /** `pos` leads in `j` where `path` leads in its canonical form. */
  predicate Leads(j: Json, pos: Position, path: Path)
    decreases pos
  {
    |pos| == |path| &&
    (pos != [] ==> pos[0] < ChildCount(j) && path[0] == TokenAt(j, pos[0]) && Leads(Child(j, pos[0]), pos[1..], path[1..]))
  }

  function TokenAt(j: Json, k: nat): Token
    requires k < ChildCount(j)
  {
    match j
    case Array(items) => Index(k)
    case Object(members) => Key(members[k].key)
  }

  lemma NormChild(j: Json, k: nat)
    requires Distinct(j) && k < ChildCount(j)
    ensures Distinct(Child(j, k))
    ensures HasToken(Norm(j), TokenAt(j, k)) && Below(Norm(j), TokenAt(j, k)) == Norm(Child(j, k))
  {
    if j.Object? {
      NormAt(j.members, k);
    }
  }

  lemma NormWithChild(j: Json, k: nat, v: Json)
    requires Distinct(j) && Distinct(v) && k < ChildCount(j)
    ensures Distinct(WithChild(j, k, v))
    ensures HasToken(Norm(j), TokenAt(j, k)) && Norm(WithChild(j, k, v)) == SetBelow(Norm(j), TokenAt(j, k), Norm(v))
  {
    NormChild(j, k);
    match j {
      case Array(items) => assert Norm(Array(items[k := v])).items == Norm(j).items[k := Norm(v)];
      case Object(members) => NormUpdate(members, k, v);
    }
  }

  lemma FindChildOf(j: Json, t: Token) returns (k: nat)
    requires Distinct(j) && HasToken(Norm(j), t)
    ensures k < ChildCount(j) && TokenAt(j, k) == t
  {
    match t {
      case Index(n) => k := n;
      case Key(key) =>
        NormKeys(j.members, key);
        k :| 0 <= k < |j.members| && j.members[k].key == key;
    }
  }

  lemma {:induction false} PathLeads(j: Json, path: Path) returns (pos: Position)
    requires Distinct(j) && HasPath(Norm(j), path)
    ensures Leads(j, pos, path)
    decreases path
  {
    if path == [] {
      pos := [];
    } else {
      var k := FindChildOf(j, path[0]);
      NormChild(j, k);
      var rest := PathLeads(Child(j, k), path[1..]);
      pos := [k] + rest;
      assert pos[1..] == rest;
    }
  }

  /** Reading there, and putting a tree there, in the two views. */
  lemma {:induction false} LeadsToNorm(j: Json, pos: Position, path: Path, v: Json)
    requires Distinct(j) && Distinct(v) && Leads(j, pos, path)
    ensures HasPosition(j, pos) && HasPath(Norm(j), path)
    ensures Distinct(Get(j, pos)) && Norm(Get(j, pos)) == At(Norm(j), path)
    ensures Distinct(Put(j, pos, v)) && Norm(Put(j, pos, v)) == Set(Norm(j), path, Norm(v))
    decreases pos
  {
    hide Norm, Distinct;
    if pos != [] {
      var k := pos[0];
      NormChild(j, k);
      LeadsToNorm(Child(j, k), pos[1..], path[1..], v);
      NormWithChild(j, k, Put(Child(j, k), pos[1..], v));
    }
  }

  predicate Indexable(path: Path) {
    forall i :: 0 <= i < |path| && path[i].Index? ==> path[i].n < SIZE_MAX_PLUS_ONE
  }

  lemma StepsToToken(j: Json, k: nat, p: CString, i: nat, rest: CString)
    requires Distinct(j) && k < ChildCount(j) && (j.Array? ==> k < SIZE_MAX_PLUS_ONE)
    requires i <= |p| && p[i..] == TokenText(TokenAt(j, k)) + rest && (rest == [] || rest[0] == SLASH)
    ensures Step(j, p, i, true) == Some(k) && p[TokenEnd(p, i)..] == rest
  {
    hide TokenEnd, DecodeIndex, FindToken;
    TokenIs(p, i, TokenText(TokenAt(j, k)), rest);
    if j.Array? {
      IndexDecodes(p, i, k, rest);
    } else {
      FindsOwnToken(j.members, p, i, k);
    }
  }

  // ----- pointers that go on -----

  lemma {:induction false} SetPrefix(c: Canon, a: Path, b: Path, v: Canon)
    requires HasPath(c, a) && HasPath(At(c, a), b)
    ensures HasPath(c, a + b) && Set(c, a + b, v) == Set(c, a, Set(At(c, a), b, v))
    decreases a
  {
    if a == [] {
      assert a + b == b;
    } else {
      assert (a + b)[1..] == a[1..] + b;
      SetPrefix(Below(c, a[0]), a[1..], b, v);
    }
  }

  lemma {:induction false} LeadsSomewhere(j: Json, pos: Position) returns (path: Path)
    requires HasPosition(j, pos)
    ensures Leads(j, pos, path)
    decreases pos
  {
    if pos == [] {
      path := [];
    } else {
      var rest := LeadsSomewhere(Child(j, pos[0]), pos[1..]);
      path := [TokenAt(j, pos[0])] + rest;
      assert path[1..] == rest;
    }
  }

  lemma {:induction false} LeadsOn(j: Json, pos: Position, a: Path, rest: Position, b: Path)
    requires Leads(j, pos, a) && HasPosition(j, pos) && Leads(Get(j, pos), rest, b)
    ensures Leads(j, pos + rest, a + b)
    decreases pos
  {
    if pos == [] {
      assert pos + rest == rest && a + b == b;
    } else {
      assert (pos + rest)[1..] == pos[1..] + rest && (a + b)[1..] == a[1..] + b;
      LeadsOn(Child(j, pos[0]), pos[1..], a[1..], rest, b);
    }
  }

  /** A pointer that starts with the text of a path goes through the node there. */
  lemma {:induction false} PassesThrough(j: Json, pos: Position, path: Path, p: CString, i: nat, more: CString) returns (k: nat)
    requires Distinct(j) && Leads(j, pos, path) && Indexable(path)
    requires i <= |p| && p[i..] == PathText(path) + more && (more == [] || more[0] == SLASH)
    ensures HasPosition(j, pos) && k <= |p| && p[k..] == more
    ensures Lookup(j, p, i, true) == Paths.Below(pos, Lookup(Get(j, pos), p, k, true))
    decreases pos
  {
    hide TokenEnd, Step, Nesting, PathText, TokenText, Distinct, Norm;
    if pos == [] {
      k := i;
      assert PathText(path) == [] by { PathTextStart(path, more); }
      assert [] + more == more;
      BelowNothing(Lookup(j, p, i, true));
    } else {
      PathTextStart(path, more);
      var n, child, token, rest := pos[0], Child(j, pos[0]), TokenText(path[0]), PathText(path[1..]) + more;
      assert p[i..] == [SLASH] + (token + rest);
      assert p[i] == p[i..][0] && p[i + 1..] == p[i..][1..];
      NormChild(j, n);
      StepsToToken(j, n, p, i + 1, rest);
      k := PassesThrough(child, pos[1..], path[1..], p, TokenEnd(p, i + 1), more);
      BelowTwice([], n, Paths.Below(pos[1..], Lookup(Get(j, pos), p, k, true)));
      BelowAgain(n, pos, Lookup(Get(j, pos), p, k, true));
    }
  }

  lemma BelowAgain(n: nat, pos: Position, rest: Option<Position>)
    requires pos != [] && pos[0] == n
    ensures Paths.Below([n], Paths.Below(pos[1..], rest)) == Paths.Below(pos, rest)
  {
    if rest.Some? {
      assert [n] + (pos[1..] + rest.value) == pos + rest.value;
    }
  }

  lemma PathTextStart(path: Path, more: CString)
    requires more == [] || more[0] == SLASH
    ensures path == [] ==> PathText(path) == []
    ensures path != [] ==> PathText(path) + more == [SLASH] + (TokenText(path[0]) + (PathText(path[1..]) + more))
    ensures path != [] ==> PathText(path[1..]) + more == [] || (PathText(path[1..]) + more)[0] == SLASH
  {
    hide TokenText;
  }

  /** The text of a path is followed to where the path leads. */
  lemma Follow(j: Json, path: Path) returns (pos: Position)
    requires Distinct(j) && HasPath(Norm(j), path) && Indexable(path)
    ensures Lookup(j, PathText(path), 0, true) == Some(pos) && Leads(j, pos, path)
    ensures HasPosition(j, pos) && Distinct(Get(j, pos)) && Norm(Get(j, pos)) == At(Norm(j), path)
  {
    pos := PathLeads(j, path);
    assert PathText(path)[0..] == PathText(path) + [];
    var k := PassesThrough(j, pos, path, PathText(path), 0, []);
    assert pos + [] == pos;
    LeadsToNorm(j, pos, path, Null);
  }
}
