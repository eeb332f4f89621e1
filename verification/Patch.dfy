/** Applying JSON Patch (RFC 6902). A document is a tree, or nothing once its root has been removed. */
module Patch {
  import opened Bytes
  import opened Json
  import opened Canon
  import opened Compare
  import opened CompareWalk
  import opened Pointer
  import opened Paths
  import DecodeInPlace

  const OP: CString := [111, 112]
  const PATH: CString := [112, 97, 116, 104]
  const VALUE: CString := [118, 97, 108, 117, 101]
  const FROM: CString := [102, 114, 111, 109]
  const ADD_TEXT: CString := [97, 100, 100]
  const REMOVE_TEXT: CString := [114, 101, 109, 111, 118, 101]
  const REPLACE_TEXT: CString := [114, 101, 112, 108, 97, 99, 101]
  const MOVE_TEXT: CString := [109, 111, 118, 101]
  const COPY_TEXT: CString := [99, 111, 112, 121]
  const TEST_TEXT: CString := [116, 101, 115, 116]

  datatype Operation = Invalid | Add | Remove | Replace | Move | Copy | Test

  /** `get_object_item`. */
  function Item(node: Json, name: CString, caseSensitive: bool): Option<Json> {
    match node
    case Object(members) =>
      var k := FindKey(members, name, caseSensitive);
      if k < |members| then Some(members[k].item) else None
    case _ => None
  }

  /** `decode_patch_operation`. */
  function DecodeOperation(patch: Json, caseSensitive: bool): Operation {
    match Item(patch, OP, caseSensitive)
    case Some(String(s)) =>
      if s == ADD_TEXT then Add
      else if s == REMOVE_TEXT then Remove
      else if s == REPLACE_TEXT then Replace
      else if s == MOVE_TEXT then Move
      else if s == COPY_TEXT then Copy
      else if s == TEST_TEXT then Test
      else Invalid
    case _ => Invalid
  }

  /** `strrchr(path, '/')`: the number of bytes before the last slash, if there is one. */
  function LastSlash(path: CString): (r: Option<nat>)
    ensures r.Some? ==> r.value < |path| && path[r.value] == SLASH
  {
    if path == [] then None
    else if path[|path| - 1] == SLASH then Some(|path| - 1)
    else LastSlash(path[..|path| - 1])
  }

  /** Where a child to be detached stands: its parent and its index there. */
  datatype Place = Place(parent: Position, k: nat)

  predicate HasPlace(doc: Json, place: Place) {
    HasPosition(doc, place.parent) && place.k < ChildCount(Get(doc, place.parent))
  }

  /** The child of `parent` that the last token names. Object keys match ignoring case. */
  function FindChild(parent: Json, child: CString): (r: Option<nat>)
    ensures r.Some? ==> r.value < ChildCount(parent)
  {
    match parent
    case Array(items) =>
      (match DecodeIndex(child, 0)
       case None => None
       case Some(k) => if k < |items| then Some(k) else None)
    case Object(members) =>
      var k := FindKey(members, child, false);
      if k < |members| then Some(k) else None
    case _ => None
  }

  /** `detach_path` up to the detaching. Its last step ignores case whatever the flag says. */
  function FindPlace(doc: Json, path: CString, caseSensitive: bool): (r: Option<Place>)
    ensures r.Some? ==> HasPlace(doc, r.value)
  {
    match LastSlash(path)
    case None => None
    case Some(n) =>
      match Lookup(doc, path[..n], 0, caseSensitive)
      case None => None
      case Some(parent) =>
        match FindChild(Get(doc, parent), DecodeInPlace.Decode(path[n + 1..]))
        case None => None
        case Some(k) => Some(Place(parent, k))
  }

  function WithoutChild(j: Json, k: nat): Json
    requires k < ChildCount(j)
  {
    match j
    case Array(items) => Array(Without(items, k))
    case Object(members) => Object(Without(members, k))
  }

  /** The document after the detaching, and the detached node. */
  function Detach(doc: Json, place: Place): Json
    requires HasPlace(doc, place)
  {
    Put(doc, place.parent, WithoutChild(Get(doc, place.parent), place.k))
  }

  function Detached(doc: Json, place: Place): Json
    requires HasPlace(doc, place)
  {
    Child(Get(doc, place.parent), place.k)
  }

  datatype Edited = Edited(status: int, doc: Json)

  /** The last part of `apply_patch`: put `value` at `path`. */
  function AddValue(doc: Json, path: CString, value: Json, caseSensitive: bool): Edited {
    match LastSlash(path)
    case None => Edited(9, doc)
    case Some(n) =>
      match Lookup(doc, path[..n], 0, caseSensitive)
      case None => Edited(9, doc)
      case Some(parent) => AddChild(doc, parent, DecodeInPlace.Decode(path[n + 1..]), value, caseSensitive)
  }

  function AddChild(doc: Json, parent: Position, child: CString, value: Json, caseSensitive: bool): Edited
    requires HasPosition(doc, parent)
  {
    match Get(doc, parent)
    case Array(items) =>
      if child == [MINUS] then Edited(0, Put(doc, parent, Array(items + [value])))
      else
        (match DecodeIndex(child, 0)
         case None => Edited(11, doc)
         case Some(k) => if k > |items| then Edited(10, doc) else Edited(0, Put(doc, parent, Array(items[..k] + [value] + items[k..]))))
    case Object(members) =>
      var k := FindKey(members, child, caseSensitive);
      var others := if k < |members| then Without(members, k) else members;
      Edited(0, Put(doc, parent, Object(others + [Keyed(child, value)])))
    case _ => Edited(9, doc)
  }

  /** `apply_patch` behind the special cases for `test` and for the root. */
  function Edit(doc: Json, operation: Operation, path: CString, patch: Json, caseSensitive: bool): Edited {
    match operation
    case Remove =>
      (match FindPlace(doc, path, caseSensitive)
       case None => Edited(13, doc)
       case Some(place) => Edited(0, Detach(doc, place)))
    case Replace =>
      (match FindPlace(doc, path, caseSensitive)
       case None => Edited(13, doc)
       case Some(place) =>
         match Item(patch, VALUE, caseSensitive)
         case None => Edited(7, Detach(doc, place))
         case Some(value) =>
           match Duplicate(value)
           case None => Edited(8, Detach(doc, place))
           case Some(copy) => AddValue(Detach(doc, place), path, copy, caseSensitive))
    case Add =>
      (match Item(patch, VALUE, caseSensitive)
       case None => Edited(7, doc)
       case Some(value) =>
         match Duplicate(value)
         case None => Edited(8, doc)
         case Some(copy) => AddValue(doc, path, copy, caseSensitive))
    case Move =>
      (match Item(patch, FROM, caseSensitive)
       case Some(String(from)) =>
         (match FindPlace(doc, from, caseSensitive)
          case None => Edited(5, doc)
          case Some(place) => AddValue(Detach(doc, place), path, Detached(doc, place), caseSensitive))
       case _ => Edited(4, doc))
    case Copy =>
      (match Item(patch, FROM, caseSensitive)
       case Some(String(from)) =>
         (match Lookup(doc, from, 0, caseSensitive)
          case None => Edited(5, doc)
          case Some(source) =>
            match Duplicate(Get(doc, source))
            case None => Edited(6, doc)
            case Some(copy) => AddValue(doc, path, copy, caseSensitive))
       case _ => Edited(4, doc))
    case _ => Edited(3, doc)
  }

  /** `linked` says that every object sorted on the way kept its link from head to tail. Without that link the code can
      lose or cut off members when it appends, and the document no longer speaks for it. */
  datatype Outcome = Outcome(status: int, doc: Option<Json>, linked: bool)

  /** `apply_patch`. A removed root is a node of no type: to everything but `test` it looks like a leaf. A `test` leaves
      the objects it compares sorted. */
  function Apply(doc: Option<Json>, patch: Json, caseSensitive: bool): Outcome {
    match Item(patch, PATH, caseSensitive)
    case Some(String(path)) =>
      var operation := DecodeOperation(patch, caseSensitive);
      var value := Item(patch, VALUE, caseSensitive);
      if operation == Invalid then Outcome(3, doc, true)
      else if operation == Test then
        if doc.Some? && value.Some? then TestValue(doc.value, path, value.value, caseSensitive) else Outcome(1, doc, true)
      else if path == [] && operation == Remove then Outcome(0, None, true)
      else if path == [] && (operation == Replace || operation == Add) then
        if value.None? then Outcome(7, doc, true)
        else if Duplicate(value.value).None? then Outcome(8, doc, true)
        else Outcome(0, Duplicate(value.value), true)
      else
        var edited := Edit(if doc.Some? then doc.value else Null, operation, path, patch, caseSensitive);
        Outcome(edited.status, if doc.Some? then Some(edited.doc) else None, true)
    case _ => Outcome(2, doc, true)
  }

  function TestValue(doc: Json, path: CString, value: Json, caseSensitive: bool): Outcome {
    match Lookup(doc, path, 0, caseSensitive)
    case None => Outcome(1, Some(doc), true)
    case Some(pos) =>
      var node := Get(doc, pos);
      Outcome(if CompareSorted(node, value, caseSensitive) then 0 else 1,
              Some(Put(doc, pos, Left(node, value, caseSensitive))), StaysLinked(node, value, caseSensitive))
  }

  /** The loop of `cJSONUtils_ApplyPatches...`: in order, until one fails. */
  function ApplyAll(doc: Option<Json>, patches: seq<Json>, caseSensitive: bool): Outcome
    decreases |patches|
  {
    if patches == [] then Outcome(0, doc, true)
    else
      var first := Apply(doc, patches[0], caseSensitive);
      if first.status != 0 then first
      else
        var rest := ApplyAll(first.doc, patches[1..], caseSensitive);
        Outcome(rest.status, rest.doc, first.linked && rest.linked)
  }

  function ApplyPatches(doc: Option<Json>, patches: Json, caseSensitive: bool): Outcome {
    match patches
    case Array(list) => ApplyAll(doc, list, caseSensitive)
    case _ => Outcome(1, doc, true)
  }
}
