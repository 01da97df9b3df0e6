/** JSON Patch: generating patches between two trees, and applying them. Patches are themselves JSON documents. */
module Patch {
  import opened Text
  import opened Json
  import opened Sorting
  import opened Trees
  import opened Equality
  import opened PointerText
  import opened Pointer
  import opened Locate

  const OP: Str := [111, 112]
  const PATH: Str := [112, 97, 116, 104]
  const VALUE: Str := [118, 97, 108, 117, 101]
  const ADD: Str := [97, 100, 100]
  const REMOVE: Str := [114, 101, 109, 111, 118, 101]
  const REPLACE: Str := [114, 101, 112, 108, 97, 99, 101]
  const MOVE: Str := [109, 111, 118, 101]
  const COPY: Str := [99, 111, 112, 121]
  const TEST: Str := [116, 101, 115, 116]
  const FROM: Str := [102, 114, 111, 109]
  const DASH: Str := [45]

  // ---------- generating

  function PathOf(path: Str, suffix: Option<Str>): Str {
    match suffix
    case None => path
    case Some(s) => path + [SLASH] + Encode(s)
  }

  /** `compose_patch`. */
  function ComposePatch(operation: Str, path: Str, suffix: Option<Str>, value: Option<Json>): Json {
    Object([Member(OP, String(operation)), Member(PATH, String(PathOf(path, suffix)))] +
           match value case None => [] case Some(v) => [Member(VALUE, v)])
  }

  predicate SameKind(a: Json, b: Json) {
    match a
    case Null => b.Null?
    case False => b.False?
    case True => b.True?
    case Number(_) => b.Number?
    case String(_) => b.String?
    case Array(_) => b.Array?
    case Object(_) => b.Object?
  }

  /** The patches `create_patches` appends for a pair of trees found at `path`. */
  function Patches(cs: bool, path: Str, from: Json, to: Json): seq<Json>
    decreases Size(from), 0
  {
    if !SameKind(from, to) then [ComposePatch(REPLACE, path, None, Some(to))]
    else
      match from
      case Number(n) => if n != to.n then [ComposePatch(REPLACE, path, None, Some(to))] else []
      case String(s) => if s != to.s then [ComposePatch(REPLACE, path, None, Some(to))] else []
      case Array(items) => ItemPatches(cs, path, items, to.items, 0)
      case Object(ms) =>
        SizeSort(cs, ms);
        MemberPatches(cs, path, Sort(cs, ms), Sort(cs, to.members))
      case _ => []
  }

  function ItemPatches(cs: bool, path: Str, xs: seq<Json>, ys: seq<Json>, index: nat): seq<Json>
    decreases SizeItems(xs), |ys|
  {
    if xs != [] && ys != [] then
      Patches(cs, path + [SLASH] + Decimal(index), xs[0], ys[0]) + ItemPatches(cs, path, xs[1..], ys[1..], index + 1)
    else if xs != [] then
      [ComposePatch(REMOVE, path, Some(Decimal(index)), None)] + ItemPatches(cs, path, xs[1..], [], index)
    else if ys != [] then
      [ComposePatch(ADD, path, Some(DASH), Some(ys[0]))] + ItemPatches(cs, path, [], ys[1..], index)
    else []
  }

  function MemberPatches(cs: bool, path: Str, xs: Members, ys: Members): seq<Json>
    decreases SizeMembers(xs), |ys|
  {
    if xs == [] && ys == [] then []
    else if KeyOrder(cs, xs, ys) == 0 then
      Patches(cs, path + [SLASH] + Encode(xs[0].key), xs[0].value, ys[0].value) + MemberPatches(cs, path, xs[1..], ys[1..])
    else if KeyOrder(cs, xs, ys) < 0 then
      [ComposePatch(REMOVE, path, Some(xs[0].key), None)] + MemberPatches(cs, path, xs[1..], ys)
    else
      [ComposePatch(ADD, path, Some(ys[0].key), Some(ys[0].value))] + MemberPatches(cs, path, xs, ys[1..])
  }

  // ---------- applying

  /**
   * What applying a patch does: it succeeds, or stops with a status and the tree as it then is.
   * Outside stands for what a value cannot show: a test sorts the objects it compares, so that a later addition can be
   * lost; removing the root leaves an invalid node; and moving from something that is no string is undefined.
   */
  datatype Outcome = Done(doc: Json) | Failed(status: nat, doc: Json) | Outside

  function Lookup(cs: bool, j: Json, key: Str): Option<Json> {
    match j
    case Object(ms) =>
      var i := IndexOfKey(cs, ms, key);
      if i < |ms| then Some(ms[i].value) else None
    case _ => None
  }

  function PutChild(j: Json, i: nat, c: Json): Json
    requires i < Arity(j)
  {
    match j
    case Array(items) => Array(items[i := c])
    case Object(ms) => Object(ms[i := Member(ms[i].key, c)])
  }

  /** The tree with the node at `position` exchanged for another. */
  function PutAt(j: Json, position: Position, v: Json): Json
    requires ValidPosition(j, position)
    decreases |position|
  {
    if position == [] then v
    else PutChild(j, position[0], PutAt(Child(j, position[0]), position[1..], v))
  }

  /** `strrchr(path, '/')`. */
  function LastSlash(path: Str): (i: Option<nat>)
    ensures i.Some? ==> i.value < |path|
  {
    if path == [] then None
    else if path[|path| - 1] == SLASH then Some(|path| - 1)
    else LastSlash(path[..|path| - 1])
  }

  function IndexText(child: Str): Option<nat> {
    TokenIndex(child[..TokenEnd(child, 0)])
  }

  /** Taking a child out of its parent. Object members are always looked up ignoring case here. */
  function DetachChild(parent: Json, child: Str): Option<Json> {
    match parent
    case Array(items) =>
      var i := IndexText(child);
      if i.Some? && i.value < |items| then Some(Array(RemoveAt(items, i.value))) else None
    case Object(ms) =>
      var i := IndexOfKey(false, ms, child);
      if i < |ms| then Some(Object(RemoveAt(ms, i))) else None
    case _ => None
  }

  function DetachAt(doc: Json, position: Position, child: Str): Option<Json>
    requires ValidPosition(doc, position)
  {
    match DetachChild(At(doc, position), child)
    case None => None
    case Some(parent) => Some(PutAt(doc, position, parent))
  }

  /** `detach_path`: the tree without the node the path names. */
  function DetachPath(cs: bool, doc: Json, path: Str): Option<Json> {
    var slash := LastSlash(path);
    if slash == None then None
    else
      match LocatePointer(cs, doc, path[..slash.value])
      case None => None
      case Some(position) => DetachAt(doc, position, DecodeInPlace(path[slash.value + 1..]))
  }

  /** The child such a call takes out. */
  function ItemOf(parent: Json, child: Str): Option<Json> {
    match parent
    case Array(items) =>
      var i := IndexText(child);
      if i.Some? && i.value < |items| then Some(items[i.value]) else None
    case Object(ms) =>
      var i := IndexOfKey(false, ms, child);
      if i < |ms| then Some(ms[i].value) else None
    case _ => None
  }

  /** The node `detach_path` returns. */
  function DetachedItem(cs: bool, doc: Json, path: Str): Option<Json> {
    var slash := LastSlash(path);
    if slash == None then None
    else
      match LocatePointer(cs, doc, path[..slash.value])
      case None => None
      case Some(position) => ItemOf(At(doc, position), DecodeInPlace(path[slash.value + 1..]))
  }

  lemma DetachesBoth(cs: bool, doc: Json, path: Str)
    ensures DetachPath(cs, doc, path).Some? <==> DetachedItem(cs, doc, path).Some?
  {
  }

  /** Deleting a member if it is there, and appending one under the same key. */
  function SetMember(cs: bool, ms: Members, key: Str, v: Json): Members {
    WithoutKey(cs, ms, key) + [Member(key, v)]
  }

  datatype Added = Parent(parent: Json) | Refused(status: nat)

  function AddChild(cs: bool, parent: Json, child: Str, v: Json): Added {
    match parent
    case Array(items) =>
      if child == DASH then Parent(Array(items + [v]))
      else
        var i := IndexText(child);
        if i == None then Refused(11)
        else if i.value > |items| then Refused(10)
        else Parent(Array(InsertAt(items, i.value, v)))
    case Object(ms) => Parent(Object(SetMember(cs, ms, child, v)))
    case _ => Refused(9)
  }

  function AddAt(cs: bool, doc: Json, position: Position, child: Str, v: Json): Outcome
    requires ValidPosition(doc, position)
  {
    match AddChild(cs, At(doc, position), child, v)
    case Refused(status) => Failed(status, doc)
    case Parent(parent) => Done(PutAt(doc, position, parent))
  }

  /** The last part of `apply_patch`: adding a value at a path. */
  function AddPath(cs: bool, doc: Json, path: Str, v: Json): Outcome {
    var slash := LastSlash(path);
    if slash == None then Failed(9, doc)
    else
      match LocatePointer(cs, doc, path[..slash.value])
      case None => Failed(9, doc)
      case Some(position) => AddAt(cs, doc, position, DecodeInPlace(path[slash.value + 1..]), v)
  }

  /** `move` and `copy`: what is at `from` is added, for a move after it has been detached. */
  function MoveOrCopy(cs: bool, doc: Json, path: Str, from: Option<Json>, move: bool): Outcome {
    if from == None then Failed(4, doc)
    else if !from.value.String? then if move then Outside else Failed(5, doc)
    else if move then
      DetachesBoth(cs, doc, from.value.s);
      var item := DetachedItem(cs, doc, from.value.s);
      if item == None then Failed(5, doc)
      else AddPath(cs, DetachPath(cs, doc, from.value.s).value, path, item.value)
    else
      var position := LocatePointer(cs, doc, from.value.s);
      if position == None then Failed(5, doc) else AddPath(cs, doc, path, At(doc, position.value))
  }

  /** `apply_patch`. */
  function ApplyPatch(cs: bool, doc: Json, patch: Json): Outcome {
    var path := Lookup(cs, patch, PATH);
    var op := Lookup(cs, patch, OP);
    if !(path.Some? && path.value.String?) then Failed(2, doc)
    else if !(op.Some? && op.value.String? && op.value.s in {ADD, REMOVE, REPLACE, MOVE, COPY, TEST}) then Failed(3, doc)
    else if op.value.s == TEST then Outside
    else if op.value.s in {MOVE, COPY} then
      MoveOrCopy(cs, doc, path.value.s, Lookup(cs, patch, FROM), op.value.s == MOVE)
    else
      var value := Lookup(cs, patch, VALUE);
      if path.value.s == [] then
        if op.value.s == REMOVE then Outside
        else if value == None then Failed(7, doc)
        else Done(value.value)
      else if op.value.s == ADD then
        if value == None then Failed(7, doc) else AddPath(cs, doc, path.value.s, value.value)
      else
        match DetachPath(cs, doc, path.value.s)
        case None => Failed(13, doc)
        case Some(without) =>
          if op.value.s == REMOVE then Done(without)
          else if value == None then Failed(7, without)
          else AddPath(cs, without, path.value.s, value.value)
  }

  function ApplyAll(cs: bool, doc: Json, patches: seq<Json>): Outcome
    decreases |patches|
  {
    if patches == [] then Done(doc)
    else
      match ApplyPatch(cs, doc, patches[0])
      case Done(next) => ApplyAll(cs, next, patches[1..])
      case stopped => stopped
  }
}
