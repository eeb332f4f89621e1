/** What applying one patch means, on trees up to member order: which child a pointer names, what each operation makes
    of the document, and every status. */
module PatchMeaning {
  import opened Bytes
  import opened Json
  import opened Canon
  import opened Pointer
  import CP = CanonPath
  import DecodeInPlace
  import opened Patch

  /** A text as far as the case flag looks at it. */
  function Folded(s: CString, caseSensitive: bool): CString { if caseSensitive then s else LowerAll(s) }

  /** In no object of the tree two keys are the same to the case flag. */
  predicate KeysApart(c: Canon, caseSensitive: bool)
    decreases c
  {
    match c
    case List(items) => forall i :: 0 <= i < |items| ==> KeysApart(items[i], caseSensitive)
    case Dict(members) =>
      && (forall k, l :: k in members && l in members && Folded(k, caseSensitive) == Folded(l, caseSensitive) ==> k == l)
      && forall k :: k in members ==> KeysApart(members[k], caseSensitive)
    case Scalar(_) => true
  }

  /** The token of a pointer that names a child: a key as it is encoded, or an index. */
  ghost predicate Spelled(token: CString, t: CP.Token, caseSensitive: bool) {
    match t
    case Key(key) => Folded(token, caseSensitive) == Encode(Folded(key, caseSensitive))
    case Index(n) => NamesIndex(token, n)
  }

  /** The pointer `p` leads in `c` along `path`. A text that does not start with a slash leads nowhere but to `c`. */
  ghost predicate Follows(c: Canon, p: CString, path: CP.Path, caseSensitive: bool)
    decreases path
  {
    if p == [] || p[0] != SLASH then path == []
    else
      && path != []
      && CP.HasToken(c, path[0])
      && Spelled(p[1..TokenEnd(p, 1)], path[0], caseSensitive)
      && Follows(CP.Below(c, path[0]), p[TokenEnd(p, 1)..], path[1..], caseSensitive)
  }

  ghost predicate Leads(c: Canon, p: CString, caseSensitive: bool) { exists path :: Follows(c, p, path, caseSensitive) }

  /** A pointer that is changed ends in a token behind a last slash. */
  predicate IsSplit(p: CString, parent: CString, token: CString) {
    p == parent + ([SLASH] + token) && SLASH !in token
  }

  /** The node at `path` is the one a change through `p` is made in, and `name` is what its last token decodes to. */
  ghost predicate Targets(c: Canon, p: CString, path: CP.Path, name: CString, caseSensitive: bool) {
    && CP.HasPath(c, path)
    && exists parent, token :: IsSplit(p, parent, token) && Follows(c, parent, path, caseSensitive) && name == DecodeInPlace.Decode(token)
  }

  /** The name of an element: digits, of which those before a decoded slash count. */
  ghost predicate IsPlace(name: CString, n: nat) {
    NamesIndex(name[..TokenEnd(name, 0)], n)
  }

  /** A child that is taken out: the element of that name, or a member whose key is that name ignoring case. */
  ghost predicate TakesOut(c: Canon, name: CString, rest: Canon, taken: Canon) {
    match c
    case List(items) => exists n: nat :: IsPlace(name, n) && n < |items| && rest == List(Without(items, n)) && taken == items[n]
    case Dict(members) =>
      exists key :: key in members && LowerAll(key) == LowerAll(name) && rest == Dict(members - {key}) && taken == members[key]
    case Scalar(_) => false
  }

  ghost predicate Detaches(c: Canon, p: CString, after: Canon, taken: Canon, caseSensitive: bool) {
    exists path, name, rest ::
      Targets(c, p, path, name, caseSensitive) && TakesOut(CP.At(c, path), name, rest, taken) && after == CP.Set(c, path, rest)
  }

  ghost predicate HasChild(c: Canon, p: CString, caseSensitive: bool) { exists after, taken :: Detaches(c, p, after, taken, caseSensitive) }

  /** Inserting before an element or behind the last one. */
  predicate Inserts(items: seq<Canon>, n: nat, v: Canon, status: int, r: Canon) {
    if n > |items| then status == 10 && r == List(items) else status == 0 && r == List(items[..n] + [v] + items[n..])
  }

  /** The members whose keys are not the name, to the case flag. */
  function Others(members: map<CString, Canon>, name: CString, caseSensitive: bool): map<CString, Canon> {
    map k | k in members && Folded(k, caseSensitive) != Folded(name, caseSensitive) :: members[k]
  }

  /** What a node makes of a new child. */
  ghost predicate Receives(c: Canon, name: CString, v: Canon, status: int, r: Canon, caseSensitive: bool) {
    match c
    case List(items) =>
      if name == [MINUS] then status == 0 && r == List(items + [v])
      else if forall n: nat :: !IsPlace(name, n) then status == 11 && r == c
      else exists n: nat :: IsPlace(name, n) && Inserts(items, n, v, status, r)
    case Dict(members) => status == 0 && r == Dict(Others(members, name, caseSensitive)[name := v])
    case Scalar(_) => status == 9 && r == c
  }

  ghost predicate HasParent(c: Canon, p: CString, caseSensitive: bool) { exists path, name :: Targets(c, p, path, name, caseSensitive) }

  ghost predicate Puts(c: Canon, p: CString, v: Canon, status: int, after: Canon, caseSensitive: bool) {
    if !HasParent(c, p, caseSensitive) then status == 9 && after == c
    else exists path, name, r ::
      && Targets(c, p, path, name, caseSensitive)
      && Receives(CP.At(c, path), name, v, status, r, caseSensitive)
      && after == CP.Set(c, path, r)
  }

  // ----- whole patches -----

  /** The characters of `word`. */
  predicate Reads(t: CString, word: string) {
    |t| == |word| && forall k :: 0 <= k < |word| ==> t[k] == word[k] as int
  }

  predicate Is(patch: Json, operation: string, caseSensitive: bool) {
    match Item(patch, OP, caseSensitive)
    case Some(String(s)) => Reads(s, operation)
    case _ => false
  }

  /** The keys under which a patch has its fields. */
  lemma FieldNames()
    ensures Reads(OP, "op") && Reads(PATH, "path") && Reads(VALUE, "value") && Reads(FROM, "from")
  {
  }

  /** Whether a tree is copied whole: nothing stands deeper than the limit on copying. */
  predicate IsShallow(c: Canon, depth: nat)
    decreases c
  {
    match c
    case List(items) => (items == [] || depth < CIRCULAR_LIMIT) && forall i :: 0 <= i < |items| ==> IsShallow(items[i], depth + 1)
    case Dict(members) => (members == map[] || depth < CIRCULAR_LIMIT) && forall k :: k in members ==> IsShallow(members[k], depth + 1)
    case Scalar(_) => true
  }

  function FoldedKeys(members: map<CString, Canon>, caseSensitive: bool): set<CString> {
    set k | k in members :: Folded(k, caseSensitive)
  }

  /** The same up to the order of members, the keys as far as the case flag looks at them. */
  predicate Alike(a: Canon, b: Canon, caseSensitive: bool)
    decreases a
  {
    match (a, b)
    case (List(xs), List(ys)) => |xs| == |ys| && forall i :: 0 <= i < |xs| ==> Alike(xs[i], ys[i], caseSensitive)
    case (Dict(xs), Dict(ys)) =>
      && FoldedKeys(xs, caseSensitive) == FoldedKeys(ys, caseSensitive)
      && forall k, l | k in xs && l in ys && Folded(k, caseSensitive) == Folded(l, caseSensitive) :: Alike(xs[k], ys[l], caseSensitive)
    case _ => a == b
  }

  /** What stands at the end of the pointer is alike. */
  ghost predicate Holds(c: Canon, p: CString, v: Canon, caseSensitive: bool) {
    exists path :: Follows(c, p, path, caseSensitive) && CP.HasPath(c, path) && Alike(CP.At(c, path), v, caseSensitive)
  }

  /** A test succeeds for a value that is alike, and changes nothing. */
  ghost predicate Tests(c: Canon, p: CString, value: Option<Json>, status: int, after: Canon, caseSensitive: bool) {
    after == c && status == if value.Some? && Holds(c, p, Norm(value.value), caseSensitive) then 0 else 1
  }

  ghost predicate Adds(c: Canon, p: CString, value: Option<Json>, status: int, after: Canon, caseSensitive: bool) {
    if value.None? then status == 7 && after == c
    else if !IsShallow(Norm(value.value), 0) then status == 8 && after == c
    else if p == [] then status == 0 && after == Norm(value.value)
    else Puts(c, p, Norm(value.value), status, after, caseSensitive)
  }

  /** Replacing takes the child out first, also when the value is then refused. At the root there is nothing to take out. */
  ghost predicate Replaces(c: Canon, p: CString, value: Option<Json>, status: int, after: Canon, caseSensitive: bool) {
    if p == [] then Adds(c, p, value, status, after, caseSensitive)
    else if !HasChild(c, p, caseSensitive) then status == 13 && after == c
    else exists between, taken :: Detaches(c, p, between, taken, caseSensitive) && Adds(between, p, value, status, after, caseSensitive)
  }

  ghost predicate Removes(c: Canon, p: CString, status: int, after: Canon, caseSensitive: bool) {
    if !HasChild(c, p, caseSensitive) then status == 13 && after == c
    else status == 0 && exists taken :: Detaches(c, p, after, taken, caseSensitive)
  }

  ghost predicate Moves(c: Canon, p: CString, source: Option<Json>, status: int, after: Canon, caseSensitive: bool) {
    match source
    case Some(String(from)) =>
      if !HasChild(c, from, caseSensitive) then status == 5 && after == c
      else exists between, taken :: Detaches(c, from, between, taken, caseSensitive) && Puts(between, p, taken, status, after, caseSensitive)
    case _ => status == 4 && after == c
  }

  ghost predicate PutsCopy(c: Canon, p: CString, source: Canon, status: int, after: Canon, caseSensitive: bool) {
    if !IsShallow(source, 0) then status == 6 && after == c else Puts(c, p, source, status, after, caseSensitive)
  }

  ghost predicate Copies(c: Canon, p: CString, source: Option<Json>, status: int, after: Canon, caseSensitive: bool) {
    match source
    case Some(String(from)) =>
      if !Leads(c, from, caseSensitive) then status == 5 && after == c
      else exists path :: Follows(c, from, path, caseSensitive) && CP.HasPath(c, path) && PutsCopy(c, p, CP.At(c, path), status, after, caseSensitive)
    case _ => status == 4 && after == c
  }

  /** No object of the patch's value has two keys that are the same to the case flag. */
  predicate ValueApart(patch: Json, caseSensitive: bool) {
    var value := Item(patch, VALUE, caseSensitive);
    value.Some? ==> Distinct(value.value) && KeysApart(Norm(value.value), caseSensitive)
  }

  /** What one patch makes of a document, other than removing its root, with the status it gives. */
  ghost predicate Does(c: Canon, patch: Json, status: int, after: Canon, caseSensitive: bool) {
    match Item(patch, PATH, caseSensitive)
    case Some(String(p)) =>
      if Is(patch, "test", caseSensitive) then Tests(c, p, Item(patch, VALUE, caseSensitive), status, after, caseSensitive)
      else if Is(patch, "add", caseSensitive) then Adds(c, p, Item(patch, VALUE, caseSensitive), status, after, caseSensitive)
      else if Is(patch, "replace", caseSensitive) then Replaces(c, p, Item(patch, VALUE, caseSensitive), status, after, caseSensitive)
      else if Is(patch, "remove", caseSensitive) then Removes(c, p, status, after, caseSensitive)
      else if Is(patch, "move", caseSensitive) then Moves(c, p, Item(patch, FROM, caseSensitive), status, after, caseSensitive)
      else if Is(patch, "copy", caseSensitive) then Copies(c, p, Item(patch, FROM, caseSensitive), status, after, caseSensitive)
      else status == 3 && after == c
    case _ => status == 2 && after == c
  }

  /** What a list of patches makes of a document: each is applied to what the one before it left, until one fails. */
  ghost predicate Runs(c: Canon, patches: seq<Json>, status: int, after: Canon, caseSensitive: bool)
    decreases |patches|, 0
  {
    if patches == [] then status == 0 && after == c
    else exists first, between ::
      Does(c, patches[0], first, between, caseSensitive) && RunsOn(first, between, patches[1..], status, after, caseSensitive)
  }

  ghost predicate RunsOn(first: int, between: Canon, rest: seq<Json>, status: int, after: Canon, caseSensitive: bool)
    decreases |rest|, 1
  {
    if first != 0 then status == first && after == between else Runs(between, rest, status, after, caseSensitive)
  }
}
