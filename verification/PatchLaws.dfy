/** RFC 6902 section 4 for any patch object, however it is built, and the statuses of patches that cannot be applied. */
module PatchLaws {
  import opened Text
  import opened Json
  import opened Trees
  import opened PointerText
  import opened Pointer
  import opened Locate
  import opened Values
  import opened Patch
  import opened PatchSteps
  import opened PatchRoundTrip

  /** The names a patch uses. */
  lemma Names()
    ensures OP == Ascii("op") && PATH == Ascii("path") && VALUE == Ascii("value") && FROM == Ascii("from")
    ensures ADD == Ascii("add") && REMOVE == Ascii("remove") && REPLACE == Ascii("replace")
    ensures MOVE == Ascii("move") && COPY == Ascii("copy") && TEST == Ascii("test") && DASH == Ascii("-")
  {
  }

  function Operation(cs: bool, patch: Json): Option<Json> {
    Lookup(cs, patch, Ascii("op"))
  }

  function Path(cs: bool, patch: Json): Option<Json> {
    Lookup(cs, patch, Ascii("path"))
  }

  function Value(cs: bool, patch: Json): Option<Json> {
    Lookup(cs, patch, Ascii("value"))
  }

  function From(cs: bool, patch: Json): Option<Json> {
    Lookup(cs, patch, Ascii("from"))
  }

  predicate IsOperation(op: Str) {
    op in {Ascii("add"), Ascii("remove"), Ascii("replace"), Ascii("move"), Ascii("copy"), Ascii("test")}
  }

  /** The patch asks for an operation at this path. */
  predicate AsksAdd(cs: bool, patch: Json, path: Str) {
    Operation(cs, patch) == Some(String(Ascii("add"))) && Path(cs, patch) == Some(String(path))
  }

  predicate AsksRemove(cs: bool, patch: Json, path: Str) {
    Operation(cs, patch) == Some(String(Ascii("remove"))) && Path(cs, patch) == Some(String(path))
  }

  predicate AsksReplace(cs: bool, patch: Json, path: Str) {
    Operation(cs, patch) == Some(String(Ascii("replace"))) && Path(cs, patch) == Some(String(path))
  }

  predicate AsksMove(cs: bool, patch: Json, path: Str) {
    Operation(cs, patch) == Some(String(Ascii("move"))) && Path(cs, patch) == Some(String(path))
  }

  predicate AsksCopy(cs: bool, patch: Json, path: Str) {
    Operation(cs, patch) == Some(String(Ascii("copy"))) && Path(cs, patch) == Some(String(path))
  }

  // ---------------------------------------------------------------- patches that are none

  lemma NoPath(cs: bool, doc: Json, patch: Json)
    requires var path := Path(cs, patch); !(path.Some? && path.value.String?)
    ensures ApplyPatch(cs, doc, patch) == Failed(2, doc)
  {
    Names();
    hide Lookup;
  }

  lemma NoOperation(cs: bool, doc: Json, patch: Json)
    requires var path := Path(cs, patch); path.Some? && path.value.String?
    requires var op := Operation(cs, patch); !(op.Some? && op.value.String? && IsOperation(op.value.s))
    ensures ApplyPatch(cs, doc, patch) == Failed(3, doc)
  {
    Names();
    hide Lookup;
  }

  // ---------------------------------------------------------------- add

  /** `add` and `replace` at the root give the value, whatever the document was. */
  lemma AtRoot(cs: bool, doc: Json, patch: Json, v: Json)
    requires AsksAdd(cs, patch, []) || AsksReplace(cs, patch, [])
    requires Value(cs, patch) == Some(v)
    ensures ApplyPatch(cs, doc, patch) == Done(v)
  {
    Names();
    hide Lookup, AddPath, DetachPath;
  }

  lemma NoValue(cs: bool, doc: Json, patch: Json, path: Str)
    requires AsksAdd(cs, patch, path) || (AsksReplace(cs, patch, path) && path == [])
    requires Value(cs, patch) == None
    ensures ApplyPatch(cs, doc, patch) == Failed(7, doc)
  {
    Names();
    hide Lookup, AddPath, DetachPath;
  }

  lemma AddAsked(cs: bool, doc: Json, patch: Json, path: Str, v: Json)
    requires AsksAdd(cs, patch, path) && Value(cs, patch) == Some(v) && path != []
    ensures ApplyPatch(cs, doc, patch) == AddPath(cs, doc, path, v)
  {
    Names();
    hide Lookup, AddPath, DetachPath;
  }

  function Below(p: Steps, token: Str): Str {
    Spell(p) + Ascii("/") + token
  }

  lemma BelowIs(p: Steps, token: Str)
    ensures Below(p, token) == Spell(p) + [SLASH] + token && Below(p, token) != []
  {
    assert Ascii("/") == [SLASH];
  }

  /** Section 4.1: adding a member sets exactly that field, whether it was there or not. */
  lemma AddsMember(cs: bool, doc: Json, patch: Json, p: Steps, fields: map<Str, Val>, k: Str, v: Json)
    requires Ready(cs, doc, p) && Here(cs, doc, p) == Some(VObject(fields)) && SurvivesDecoding(k) && Tidy(cs, v)
    requires AsksAdd(cs, patch, Below(p, Escaped(k))) && Value(cs, patch) == Some(v)
    ensures Reaches(cs, ApplyPatch(cs, doc, patch), Written(cs, doc, p, VObject(fields[Fold(cs, k) := M(cs, v)])))
  {
    hide Here, Written, Lookup, AddPath, ApplyPatch, Spell, SurvivesDecoding, Below, Escaped, Encode, Tidy;
    EncodeIsEscaped(k);
    BelowIs(p, Escaped(k));
    AddAsked(cs, doc, patch, Below(p, Escaped(k)), v);
    AddMember(cs, doc, p, fields, k, v);
  }

  lemma EncodeIsEscaped(k: Str)
    ensures Encode(k) == Escaped(k)
  {
    EncodeSubstitutes(k, 0);
    assert k[0..] == k;
  }

  /** Adding at index n inserts in front of the element that stood there, or behind the last one. */
  lemma AddsItem(cs: bool, doc: Json, patch: Json, p: Steps, vs: seq<Val>, n: nat, v: Json)
    requires Ready(cs, doc, p) && Here(cs, doc, p) == Some(VArray(vs)) && n <= |vs| < SIZE_MAX && Tidy(cs, v)
    requires AsksAdd(cs, patch, Below(p, Decimal(n))) && Value(cs, patch) == Some(v)
    ensures Reaches(cs, ApplyPatch(cs, doc, patch), Written(cs, doc, p, VArray(vs[..n] + [M(cs, v)] + vs[n..])))
  {
    InsertedAt(vs, n, M(cs, v));
    hide Here, Written, Lookup, AddPath, ApplyPatch, Spell, Below, Decimal, InsertAt, Tidy;
    BelowIs(p, Decimal(n));
    AddAsked(cs, doc, patch, Below(p, Decimal(n)), v);
    InsertItem(cs, doc, p, vs, n, v);
  }

  lemma InsertedAt<T>(s: seq<T>, n: nat, x: T)
    requires n <= |s|
    ensures InsertAt(s, n, x) == s[..n] + [x] + s[n..]
  {
  }

  /** "-" stands for the place behind the last element. */
  lemma AddsLast(cs: bool, doc: Json, patch: Json, p: Steps, vs: seq<Val>, v: Json)
    requires Ready(cs, doc, p) && Here(cs, doc, p) == Some(VArray(vs)) && |vs| < SIZE_MAX && Tidy(cs, v)
    requires AsksAdd(cs, patch, Below(p, Ascii("-"))) && Value(cs, patch) == Some(v)
    ensures Reaches(cs, ApplyPatch(cs, doc, patch), Written(cs, doc, p, VArray(vs + [M(cs, v)])))
  {
    Names();
    hide Here, Written, Lookup, AddPath, ApplyPatch, Spell, Below, Tidy;
    BelowIs(p, DASH);
    AddAsked(cs, doc, patch, Below(p, DASH), v);
    AppendItem(cs, doc, p, vs, v);
  }

  /** Neither "-" nor an index: with a character below "0", or beginning above "9" or with a superfluous zero. */
  predicate NoIndex(t: Str) {
    t != Ascii("-") && t != []
    && ((exists k :: 0 <= k < |t| && t[k] < '0' as int) || t[0] > '9' as int || (t[0] == '0' as int && |t| > 1))
  }

  /** What makes an addition below an existing value impossible; the document is then unchanged. */
  lemma AddRefused(cs: bool, doc: Json, patch: Json, p: Steps, t: Str, v: Json)
    requires Ready(cs, doc, p) && SLASH !in t && TILDE !in t
    requires AsksAdd(cs, patch, Below(p, t)) && Value(cs, patch) == Some(v)
    ensures match Here(cs, doc, p).value
      case VArray(vs) =>
        (NoIndex(t) ==> ApplyPatch(cs, doc, patch) == Failed(11, doc))
        && (forall n: nat :: t == Decimal(n) && |vs| < n <= SIZE_MAX ==> ApplyPatch(cs, doc, patch) == Failed(10, doc))
      case VObject(_) => true
      case _ => ApplyPatch(cs, doc, patch) == Failed(9, doc)
  {
    hide Here, Lookup, AddPath, ApplyPatch, Spell, Below, Tidy, IndexText;
    BelowIs(p, t);
    AddAsked(cs, doc, patch, Below(p, t), v);
    var position := FindParent(cs, doc, p, t);
    PlainToken(t);
    forall n: nat | t == Decimal(n) && n <= SIZE_MAX ensures IndexText(t) == Some(n) && t != DASH { DecimalPlain(n); }
  }

  lemma PlainToken(t: Str)
    requires SLASH !in t && TILDE !in t
    ensures DecodeInPlace(t) == t
    ensures NoIndex(t) ==> IndexText(t) == None && t != DASH
  {
    Names();
    DecodeExamples(t);
    DecodeRoundTrip(t);
    TokenEndIs(t, 0, |t|);
    assert t[..|t|] == t;
  }

  /** There is no value to add to at all. */
  lemma AddNowhere(cs: bool, doc: Json, patch: Json, parent: Str, t: Str, v: Json)
    requires SLASH !in t && Value(cs, patch) == Some(v)
    requires (AsksAdd(cs, patch, parent + Ascii("/") + t) && LocatePointer(cs, doc, parent) == None)
          || (AsksAdd(cs, patch, t) && t != [])
    ensures ApplyPatch(cs, doc, patch) == Failed(9, doc)
  {
    assert Ascii("/") == [SLASH];
    SplitPath(parent, t);
    NoSlashHere(t);
    hide Lookup, LocatePointer, ApplyPatch, LastSlash;
    if AsksAdd(cs, patch, t) && t != [] {
      AddAsked(cs, doc, patch, t, v);
    } else {
      AddAsked(cs, doc, patch, parent + [SLASH] + t, v);
    }
  }

  lemma {:induction false} NoSlashHere(t: Str)
    requires SLASH !in t
    ensures LastSlash(t) == None
    decreases |t|
  {
    if t != [] { NoSlashHere(t[..|t| - 1]); }
  }

  // ---------------------------------------------------------------- remove

  lemma RemoveAsked(cs: bool, doc: Json, patch: Json, path: Str)
    requires AsksRemove(cs, patch, path) && path != []
    ensures ApplyPatch(cs, doc, patch)
      == match DetachPath(cs, doc, path) case None => Failed(13, doc) case Some(without) => Done(without)
  {
    Names();
    hide Lookup, AddPath, DetachPath;
  }

  /** Section 4.2: removing a member that the case-ignoring lookup cannot confuse. */
  lemma RemovesMember(cs: bool, doc: Json, patch: Json, p: Steps, fields: map<Str, Val>, k: Str)
    requires Ready(cs, doc, p) && Here(cs, doc, p) == Some(VObject(fields)) && Fold(cs, k) in fields
    requires SurvivesDecoding(k) && Alone(cs, fields, k) && AsksRemove(cs, patch, Below(p, Escaped(k)))
    ensures Reaches(cs, ApplyPatch(cs, doc, patch), Written(cs, doc, p, VObject(fields - {Fold(cs, k)})))
  {
    hide Here, Written, Lookup, DetachPath, ApplyPatch, Spell, SurvivesDecoding, Below, Escaped, Encode, Tidy;
    EncodeIsEscaped(k);
    BelowIs(p, Escaped(k));
    RemoveAsked(cs, doc, patch, Below(p, Escaped(k)));
    DetachMember(cs, doc, p, fields, k);
  }

  /** Removing an element moves those behind it one place to the front. */
  lemma RemovesItem(cs: bool, doc: Json, patch: Json, p: Steps, vs: seq<Val>, n: nat)
    requires Ready(cs, doc, p) && Here(cs, doc, p) == Some(VArray(vs)) && n < |vs|
    requires AsksRemove(cs, patch, Below(p, Decimal(n)))
    ensures Reaches(cs, ApplyPatch(cs, doc, patch), Written(cs, doc, p, VArray(vs[..n] + vs[n + 1..])))
  {
    RemovedAt(vs, n);
    hide Here, Written, Lookup, DetachPath, ApplyPatch, Spell, Below, Decimal, RemoveAt, Tidy;
    BelowIs(p, Decimal(n));
    RemoveAsked(cs, doc, patch, Below(p, Decimal(n)));
    DetachItem(cs, doc, p, vs, n);
  }

  lemma RemovedAt<T>(s: seq<T>, n: nat)
    requires n < |s|
    ensures RemoveAt(s, n) == s[..n] + s[n + 1..]
  {
  }

  /** In what stands at p there is nothing the token names. */
  ghost predicate Missing(cs: bool, doc: Json, p: Steps, t: Str) {
    match Here(cs, doc, p)
    case None => false
    case Some(VArray(vs)) => NoIndex(t) || t == Ascii("-") || exists n: nat :: t == Decimal(n) && |vs| <= n <= SIZE_MAX
    case Some(VObject(fields)) => forall k | k in fields :: Lower(k) != Lower(t)
    case Some(_) => true
  }

  /** Removing or replacing what is not there fails and leaves the document as it was. */
  lemma NothingThere(cs: bool, doc: Json, patch: Json, p: Steps, t: Str)
    requires Ready(cs, doc, p) && SLASH !in t && TILDE !in t && Missing(cs, doc, p, t)
    requires AsksRemove(cs, patch, Below(p, t)) || AsksReplace(cs, patch, Below(p, t))
    ensures ApplyPatch(cs, doc, patch) == Failed(13, doc)
  {
    hide Lookup, AddPath, ApplyPatch, Spell, Below, IndexText, LastSlash, LocatePointer;
    BelowIs(p, t);
    var position := FindParent(cs, doc, p, t);
    PlainToken(t);
    DashIsNoIndex();
    forall n: nat | t == Decimal(n) && n <= SIZE_MAX ensures IndexText(t) == Some(n) { DecimalPlain(n); }
    NotDetached(cs, At(doc, position), Here(cs, doc, p).value, t);
    hide DetachChild;
    assert DetachPath(cs, doc, Below(p, t)) == None;
    DetachFails(cs, doc, patch, Below(p, t));
  }

  lemma DashIsNoIndex()
    ensures IndexText(Ascii("-")) == None
  {
    var t: Str := Ascii("-");
    assert t == [45];
    TokenEndIs(t, 0, 1);
    assert t[..1] == t && t[0] < ZERO;
  }

  lemma NotDetached(cs: bool, parent: Json, here: Val, t: Str)
    requires Tidy(cs, parent) && M(cs, parent) == here
    requires match here
      case VArray(vs) => IndexText(t) == None || IndexText(t).value >= |vs|
      case VObject(fields) => forall k | k in fields :: Lower(k) != Lower(t)
      case _ => true
    ensures DetachChild(parent, t) == None
  {
    hide IndexText;
    match parent {
      case Object(ms) =>
        var i := IndexOfKey(false, ms, t);
        if i < |ms| {
          FieldsAt(cs, ms, i);
          assert Fold(cs, ms[i].key) in Fields(cs, ms);
          LowerTwice(cs, ms[i].key);
        }
      case _ =>
    }
  }

  lemma LowerTwice(cs: bool, k: Str)
    ensures Lower(Fold(cs, k)) == Lower(k)
  {
    assert forall i :: 0 <= i < |k| ==> Lower(Fold(cs, k))[i] == Lower(k)[i];
  }

  lemma DetachFails(cs: bool, doc: Json, patch: Json, path: Str)
    requires path != [] && DetachPath(cs, doc, path) == None
    requires AsksRemove(cs, patch, path) || AsksReplace(cs, patch, path)
    ensures ApplyPatch(cs, doc, patch) == Failed(13, doc)
  {
    Names();
    hide Lookup, AddPath, DetachPath;
  }

  // ---------------------------------------------------------------- replace

  lemma ReplaceAsked(cs: bool, doc: Json, patch: Json, path: Str)
    requires AsksReplace(cs, patch, path) && path != [] && DetachPath(cs, doc, path).Some?
    ensures var without, value := DetachPath(cs, doc, path).value, Value(cs, patch);
      ApplyPatch(cs, doc, patch) == if value == None then Failed(7, without) else AddPath(cs, without, path, value.value)
  {
    Names();
    hide Lookup, AddPath, DetachPath;
  }

  function StepText(s: Step): Str {
    match s case Key(k) => Escaped(k) case Index(i) => Decimal(i)
  }

  /** Section 4.3: what is at a path is exchanged, and nothing else. */
  lemma Replaces(cs: bool, doc: Json, patch: Json, q: Steps, s: Step, v: Json)
    requires Ready(cs, doc, q + [s]) && Tidy(cs, v) && Exchangeable(cs, doc, q, s)
    requires AsksReplace(cs, patch, Below(q, StepText(s))) && Value(cs, patch) == Some(v)
    ensures Reaches(cs, ApplyPatch(cs, doc, patch), Written(cs, doc, q + [s], M(cs, v)))
  {
    hide Here, Written, Tidy, DetachPath, AddPath, ApplyPatch, Lookup, Exchangeable, Escaped, Encode, Spell, Below;
    match s { case Key(k) => EncodeIsEscaped(k); case Index(_) => }
    BelowIs(q, StepText(s));
    ReplaceChild(cs, doc, q, s, v);
    ReplaceAsked(cs, doc, patch, Below(q, StepText(s)));
  }

  /** Without a value the node is removed all the same, and the patch fails. */
  lemma ReplaceWithoutValue(cs: bool, doc: Json, patch: Json, p: Steps, vs: seq<Val>, n: nat)
    requires Ready(cs, doc, p) && Here(cs, doc, p) == Some(VArray(vs)) && n < |vs|
    requires AsksReplace(cs, patch, Below(p, Decimal(n))) && Value(cs, patch) == None
    ensures var r := ApplyPatch(cs, doc, patch);
      r.Failed? && r.status == 7 && M(cs, r.doc) == Written(cs, doc, p, VArray(vs[..n] + vs[n + 1..]))
  {
    RemovedAt(vs, n);
    hide Here, Written, Lookup, DetachPath, AddPath, ApplyPatch, Spell, Below, Decimal, RemoveAt, Tidy;
    BelowIs(p, Decimal(n));
    DetachItem(cs, doc, p, vs, n);
    ReplaceAsked(cs, doc, patch, Below(p, Decimal(n)));
  }

  // ---------------------------------------------------------------- move and copy

  /** Without a source there is nothing to move or to copy. */
  lemma NoSource(cs: bool, doc: Json, patch: Json, path: Str)
    requires (AsksMove(cs, patch, path) || AsksCopy(cs, patch, path)) && From(cs, patch) == None
    ensures ApplyPatch(cs, doc, patch) == Failed(4, doc)
  {
    Names();
    hide Lookup, AddPath, DetachPath, DetachedItem, LocatePointer;
  }

  lemma CopyOfNothing(cs: bool, doc: Json, patch: Json, path: Str, from: Json)
    requires AsksCopy(cs, patch, path) && From(cs, patch) == Some(from)
    requires from.String? ==> LocatePointer(cs, doc, from.s) == None
    ensures ApplyPatch(cs, doc, patch) == Failed(5, doc)
  {
    Names();
    hide Lookup, AddPath, DetachPath, DetachedItem, LocatePointer;
  }

  lemma MoveOfNothing(cs: bool, doc: Json, patch: Json, path: Str, from: Str)
    requires AsksMove(cs, patch, path) && From(cs, patch) == Some(String(from)) && DetachedItem(cs, doc, from) == None
    ensures ApplyPatch(cs, doc, patch) == Failed(5, doc)
  {
    Names();
    hide Lookup, AddPath, DetachPath, DetachedItem, LocatePointer;
  }

  /** A copy is the addition of what is at the source. */
  lemma CopyIsAdd(cs: bool, doc: Json, patch: Json, add: Json, path: Str, from: Str, position: Position)
    requires AsksCopy(cs, patch, path) && From(cs, patch) == Some(String(from))
    requires LocatePointer(cs, doc, from) == Some(position)
    requires AsksAdd(cs, add, path) && Value(cs, add) == Some(At(doc, position)) && path != []
    ensures ApplyPatch(cs, doc, patch) == ApplyPatch(cs, doc, add)
  {
    Names();
    AddAsked(cs, doc, add, path, At(doc, position));
    hide Lookup, AddPath, DetachPath, DetachedItem, LocatePointer;
  }

  /** What a removal or a move takes out of an array is the element at the index. */
  lemma ItemDetached(cs: bool, doc: Json, p: Steps, vs: seq<Val>, n: nat)
    requires Ready(cs, doc, p) && Here(cs, doc, p) == Some(VArray(vs)) && n < |vs|
    ensures var item := DetachedItem(cs, doc, Below(p, Decimal(n)));
      item.Some? && Tidy(cs, item.value) && M(cs, item.value) == vs[n]
  {
    hide Here, Below, Decimal, LastSlash, LocatePointer, MeaningItems, IndexText;
    BelowIs(p, Decimal(n));
    ArrayFits(cs, doc, p, vs);
    DecimalPlain(n);
    SplitPath(Spell(p), Decimal(n));
    var position := FollowPath(cs, doc, p);
    MeaningItemsAt(cs, At(doc, position).items, n);
  }

  // ---------------------------------------------------------------- a list of patches

  /** docs is the document before every patch that was applied; the first k of them were. */
  ghost predicate AppliedUpTo(cs: bool, docs: seq<Json>, patches: seq<Json>, k: nat) {
    k <= |patches| && |docs| == k + 1
    && forall i {:trigger docs[i]} :: 0 <= i < k ==> ApplyPatch(cs, docs[i], patches[i]) == Done(docs[i + 1])
  }

  /**
   * Patches are applied in order. Either all of them are, or the first that fails decides the status and the document,
   * and no later one is applied.
   */
  lemma {:induction false} FirstFailureDecides(cs: bool, doc: Json, patches: seq<Json>) returns (docs: seq<Json>, k: nat)
    requires ApplyAll(cs, doc, patches) != Outside
    ensures AppliedUpTo(cs, docs, patches, k) && docs[0] == doc
    ensures var r := ApplyAll(cs, doc, patches);
      if k == |patches| then r == Done(docs[k]) else r.Failed? && ApplyPatch(cs, docs[k], patches[k]) == r
    decreases |patches|
  {
    hide ApplyPatch;
    docs, k := [doc], 0;
    if patches != [] {
      var r := ApplyPatch(cs, doc, patches[0]);
      if r.Done? {
        var rest, n := FirstFailureDecides(cs, r.doc, patches[1..]);
        docs, k := [doc] + rest, n + 1;
        assert forall i :: 0 < i < k ==> patches[i] == patches[1..][i - 1];
      }
    }
  }
}
