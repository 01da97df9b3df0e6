/** What `move` and `copy` patches do to the meaning of a document (RFC 6902 sections 4.4 and 4.5). */
module PatchMoves {
  import opened Text
  import opened Json
  import opened Trees
  import opened PointerText
  import opened Pointer
  import opened Locate
  import opened Values
  import opened Patch
  import opened PatchSteps
  import opened PatchRoundTrip

  /** A patch with this operation and these two pointers. */
  ghost predicate Relocates(cs: bool, patch: Json, op: Str, from: Str, path: Str) {
    && Lookup(cs, patch, OP) == Some(String(op))
    && Lookup(cs, patch, FROM) == Some(String(from))
    && Lookup(cs, patch, PATH) == Some(String(path))
  }

  /** A move is the removal of the node and then the addition of the node removed. */
  lemma MoveIsRemoveThenAdd(cs: bool, doc: Json, patch: Json, from: Str, path: Str, remove: Json, add: Json)
    requires Relocates(cs, patch, MOVE, from, path) && from != [] && path != []
    requires DetachedItem(cs, doc, from).Some?
    requires Lookup(cs, remove, OP) == Some(String(REMOVE)) && Lookup(cs, remove, PATH) == Some(String(from))
    requires Lookup(cs, add, OP) == Some(String(ADD)) && Lookup(cs, add, PATH) == Some(String(path))
    requires Lookup(cs, add, VALUE) == DetachedItem(cs, doc, from)
    ensures ApplyPatch(cs, doc, patch) == ApplyAll(cs, doc, [remove, add])
  {
    hide Lookup, AddPath, DetachPath, DetachedItem;
    DetachesBoth(cs, doc, from);
    var mid := DetachPath(cs, doc, from).value;
    assert ApplyPatch(cs, doc, remove) == Done(mid);
    assert ApplyPatch(cs, mid, add) == AddPath(cs, mid, path, DetachedItem(cs, doc, from).value);
    assert ApplyPatch(cs, doc, patch) == ApplyPatch(cs, mid, add);
    assert [remove, add][1..] == [add] && [add][1..] == [];
    TwoPatches(cs, doc, remove, add, mid);
  }

  lemma TwoPatches(cs: bool, doc: Json, first: Json, second: Json, mid: Json)
    requires ApplyPatch(cs, doc, first) == Done(mid)
    ensures ApplyAll(cs, doc, [first, second]) == ApplyPatch(cs, mid, second)
  {
    hide ApplyPatch;
    assert [first, second][1..] == [second] && [second][1..] == [];
    var r := ApplyPatch(cs, mid, second);
    if r.Done? { assert ApplyAll(cs, r.doc, []) == r; }
  }

  /** Copying what is at r to a member: the field is set to the same value, and nothing else changes. */
  lemma CopyWorks(cs: bool, doc: Json, patch: Json, r: Steps, p: Steps, fields: map<Str, Val>, k: Str)
    requires Ready(cs, doc, r) && Ready(cs, doc, p) && Here(cs, doc, p) == Some(VObject(fields)) && SurvivesDecoding(k)
    requires Relocates(cs, patch, COPY, Spell(r), Spell(p) + [SLASH] + Encode(k))
    ensures Reaches(cs, ApplyPatch(cs, doc, patch),
                    Written(cs, doc, p, VObject(fields[Fold(cs, k) := Here(cs, doc, r).value])))
  {
    hide Here, Written, Lookup, AddPath, SurvivesDecoding, LocatePointer;
    var position := FollowPath(cs, doc, r);
    var v := At(doc, position);
    AddMember(cs, doc, p, fields, k, v);
    hide Spell;
  }

  /** The node a removal by key takes out is the member under that key. */
  lemma MemberDetached(cs: bool, doc: Json, p: Steps, fields: map<Str, Val>, k: Str)
    requires Ready(cs, doc, p) && Here(cs, doc, p) == Some(VObject(fields)) && Fold(cs, k) in fields
    requires SurvivesDecoding(k) && Alone(cs, fields, k)
    ensures var item := DetachedItem(cs, doc, Spell(p) + [SLASH] + Encode(k));
      item.Some? && Tidy(cs, item.value) && M(cs, item.value) == fields[Fold(cs, k)]
  {
    hide Here, SurvivesDecoding, Fields;
    KeyPlain(k);
    SplitPath(Spell(p), Encode(k));
    var position := FollowPath(cs, doc, p);
    var ms := At(doc, position).members;
    ObjectHere(cs, ms);
    AloneIndex(cs, ms, k);
    LookupIsField(cs, ms, k);
    ItemTaken(cs, doc, Spell(p) + [SLASH] + Encode(k), |Spell(p)|, position, k);
    hide LastSlash, DetachedItem;
  }

  lemma ObjectHere(cs: bool, ms: Members)
    ensures M(cs, Object(ms)) == VObject(Fields(cs, ms))
    ensures forall m :: m in ms && Tidy(cs, Object(ms)) ==> Tidy(cs, m.value)
  {
  }

  lemma ItemTaken(cs: bool, doc: Json, path: Str, slash: nat, position: Position, k: Str)
    requires LastSlash(path) == Some(slash) && slash < |path| && DecodeInPlace(path[slash + 1..]) == k
    requires LocatePointer(cs, doc, path[..slash]) == Some(position) && At(doc, position).Object?
    ensures var ms, i := At(doc, position).members, IndexOfKey(false, At(doc, position).members, k);
      DetachedItem(cs, doc, path) == if i < |ms| then Some(ms[i].value) else None
  {
  }

  lemma MoveApplied(cs: bool, doc: Json, patch: Json, from: Str, path: Str, item: Json, next: Json)
    requires Relocates(cs, patch, MOVE, from, path)
    requires DetachedItem(cs, doc, from) == Some(item) && DetachPath(cs, doc, from) == Some(next)
    ensures ApplyPatch(cs, doc, patch) == AddPath(cs, next, path, item)
  {
    hide Lookup, DetachPath, DetachedItem, AddPath;
  }

  /** Moving a member to another place: the field is gone where it was and set where it goes. */
  lemma MoveWorks(cs: bool, doc: Json, patch: Json, q: Steps, from: map<Str, Val>, a: Str,
                  p: Steps, without: Val, fields: map<Str, Val>, b: Str)
    requires Ready(cs, doc, q) && Here(cs, doc, q) == Some(VObject(from)) && Fold(cs, a) in from
    requires SurvivesDecoding(a) && SurvivesDecoding(b) && Alone(cs, from, a)
    requires without == Written(cs, doc, q, VObject(from - {Fold(cs, a)}))
    requires Get(without, Folded(cs, p)) == Some(VObject(fields))
    requires Relocates(cs, patch, MOVE, Spell(q) + [SLASH] + Encode(a), Spell(p) + [SLASH] + Encode(b))
    ensures Reaches(cs, ApplyPatch(cs, doc, patch),
                    Put(without, Folded(cs, p), VObject(fields[Fold(cs, b) := from[Fold(cs, a)]])))
  {
    hide SurvivesDecoding, Spell, Lookup, DetachPath, DetachedItem, AddPath, Get, Put, ApplyPatch, Tidy;
    var source := Spell(q) + [SLASH] + Encode(a);
    MemberDetached(cs, doc, q, from, a);
    DetachMember(cs, doc, q, from, a);
    DetachesBoth(cs, doc, source);
    var item, next := DetachedItem(cs, doc, source).value, DetachPath(cs, doc, source).value;
    assert Detach(cs, doc, q, Key(a)) == Some(next);
    AddMember(cs, next, p, fields, b, item);
    MoveApplied(cs, doc, patch, source, Spell(p) + [SLASH] + Encode(b), item, next);
  }
}
