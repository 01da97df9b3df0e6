/** Generated patches, applied in order, turn the first tree into the second. */
module PatchRoundTrip {
  import opened Text
  import opened Json
  import opened Sorting
  import opened Trees
  import opened Equality
  import opened PointerText
  import opened Pointer
  import opened Locate
  import opened Values
  import opened Patch
  import opened PatchSteps

  /** The patches succeeded and left a tidy document that means v. */
  ghost predicate Reaches(cs: bool, r: Outcome, v: Val) {
    r.Done? && Tidy(cs, r.doc) && M(cs, r.doc) == v
  }

  /** A document with something at a path. */
  ghost predicate Ready(cs: bool, doc: Json, p: Steps) {
    Tidy(cs, doc) && Here(cs, doc, p).Some?
  }

  function Spell(p: Steps): Str {
    Join(Texts(p))
  }

  /** The path of a child is what `compose_patch` prints for it. */
  lemma SpellSnoc(p: Steps, s: Step)
    ensures Spell(p + [s]) == Spell(p) + [SLASH] + TokenText(s)
  {
    assert Texts(p + [s]) == Texts(p) + [TokenText(s)];
    JoinSnoc(Texts(p), TokenText(s));
  }

  /** How `detach_path` and `apply_patch` find the parent of the node a path names. */
  lemma FindParent(cs: bool, doc: Json, p: Steps, t: Str) returns (position: Position)
    requires Ready(cs, doc, p) && SLASH !in t
    ensures ValidPosition(doc, position) && LocateTokens(cs, doc, Texts(p)) == Some(position)
    ensures M(cs, At(doc, position)) == Here(cs, doc, p).value && Tidy(cs, At(doc, position))
    ensures DetachPath(cs, doc, Spell(p) + [SLASH] + t) == DetachAt(doc, position, DecodeInPlace(t))
    ensures forall v :: AddPath(cs, doc, Spell(p) + [SLASH] + t, v) == AddAt(cs, doc, position, DecodeInPlace(t), v)
  {
    SplitPath(Spell(p), t);
    position := FollowPath(cs, doc, p);
  }

  ghost predicate Detaches(cs: bool, r: Option<Json>, v: Val) {
    r.Some? && Tidy(cs, r.value) && M(cs, r.value) == v
  }

  function Detach(cs: bool, doc: Json, p: Steps, s: Step): Option<Json> {
    DetachPath(cs, doc, Spell(p) + [SLASH] + TokenText(s))
  }

  function Add(cs: bool, doc: Json, p: Steps, t: Str, v: Json): Outcome {
    AddPath(cs, doc, Spell(p) + [SLASH] + t, v)
  }

  lemma DetachMember(cs: bool, doc: Json, p: Steps, fields: map<Str, Val>, k: Str)
    requires Ready(cs, doc, p) && Here(cs, doc, p) == Some(VObject(fields)) && Fold(cs, k) in fields
    requires SurvivesDecoding(k) && Alone(cs, fields, k)
    ensures Detaches(cs, Detach(cs, doc, p, Key(k)), Written(cs, doc, p, VObject(fields - {Fold(cs, k)})))
  {
    KeyPlain(k);
    var position := FindParent(cs, doc, p, Encode(k));
    var ms := At(doc, position).members;
    AloneIndex(cs, ms, k);
    WithoutKeyMeans(cs, ms, k);
    PutAtMeans(cs, doc, p, position, Object(WithoutKey(cs, ms, k)));
  }

  lemma DetachItem(cs: bool, doc: Json, p: Steps, vs: seq<Val>, n: nat)
    requires Ready(cs, doc, p) && Here(cs, doc, p) == Some(VArray(vs)) && n < |vs|
    ensures Detaches(cs, Detach(cs, doc, p, Index(n)), Written(cs, doc, p, VArray(RemoveAt(vs, n))))
  {
    DecimalPlain(n);
    var position := FindParent(cs, doc, p, Decimal(n));
    var items := At(doc, position).items;
    RemoveItemMeans(cs, items, n);
    PutAtMeans(cs, doc, p, position, Array(RemoveAt(items, n)));
  }

  lemma AddMember(cs: bool, doc: Json, p: Steps, fields: map<Str, Val>, k: Str, v: Json)
    requires Ready(cs, doc, p) && Here(cs, doc, p) == Some(VObject(fields)) && SurvivesDecoding(k) && Tidy(cs, v)
    ensures Reaches(cs, Add(cs, doc, p, Encode(k), v), Written(cs, doc, p, VObject(fields[Fold(cs, k) := M(cs, v)])))
  {
    KeyPlain(k);
    var position := FindParent(cs, doc, p, Encode(k));
    var ms := At(doc, position).members;
    SetMemberMeans(cs, ms, k, v);
    PutAtMeans(cs, doc, p, position, Object(SetMember(cs, ms, k, v)));
  }

  lemma InsertAtEnd<T>(s: seq<T>, x: T)
    ensures InsertAt(s, |s|, x) == s + [x]
  {
  }

  lemma AppendItem(cs: bool, doc: Json, p: Steps, vs: seq<Val>, v: Json)
    requires Ready(cs, doc, p) && Here(cs, doc, p) == Some(VArray(vs)) && |vs| < SIZE_MAX && Tidy(cs, v)
    ensures Reaches(cs, Add(cs, doc, p, DASH, v), Written(cs, doc, p, VArray(vs + [M(cs, v)])))
  {
    hide Here, Written, Spell, MeaningItems, PutAt, Texts;
    DashPlain();
    var position := FindParent(cs, doc, p, DASH);
    var items := At(doc, position).items;
    InsertItemMeans(cs, items, |items|, v);
    InsertAtEnd(items, v);
    InsertAtEnd(vs, M(cs, v));
    PutAtMeans(cs, doc, p, position, Array(items + [v]));
  }

  lemma InsertItem(cs: bool, doc: Json, p: Steps, vs: seq<Val>, n: nat, v: Json)
    requires Ready(cs, doc, p) && Here(cs, doc, p) == Some(VArray(vs)) && n <= |vs| < SIZE_MAX && Tidy(cs, v)
    ensures Reaches(cs, Add(cs, doc, p, Decimal(n), v), Written(cs, doc, p, VArray(InsertAt(vs, n, M(cs, v)))))
  {
    hide Here, Written, Spell, InsertAt, MeaningItems, PutAt, Texts, IndexText, Decimal;
    DecimalPlain(n);
    var position := FindParent(cs, doc, p, Decimal(n));
    var items := At(doc, position).items;
    InsertItemMeans(cs, items, n, v);
    PutAtMeans(cs, doc, p, position, Array(InsertAt(items, n, v)));
  }

  // ---------- one generated patch

  lemma ReadyAbove(cs: bool, doc: Json, q: Steps, s: Step)
    requires Ready(cs, doc, q + [s])
    ensures Ready(cs, doc, q)
    ensures GetStep(Here(cs, doc, q).value, FoldStep(cs, s)) == Here(cs, doc, q + [s])
  {
    FoldedSnoc(cs, q, s);
    AboveExists(M(cs, doc), Folded(cs, q), FoldStep(cs, s));
    GetSnoc(M(cs, doc), Folded(cs, q), FoldStep(cs, s));
  }

  lemma {:induction false} AboveExists(v: Val, q: Steps, s: Step)
    requires Get(v, q + [s]).Some?
    ensures Get(v, q).Some?
  {
    if q != [] {
      assert (q + [s])[1..] == q[1..] + [s];
      AboveExists(GetStep(v, q[0]).value, q[1..], s);
    }
  }

  ghost predicate Replaces(cs: bool, doc: Json, q: Steps, s: Step, v: Json, result: Val) {
    var without := Detach(cs, doc, q, s);
    without.Some? && Reaches(cs, Add(cs, without.value, q, TokenText(s), v), result)
  }

  /** A document after one write at q. */
  lemma AfterWrite(cs: bool, doc: Json, q: Steps, next: Json, mid: Val, end: Val)
    requires Ready(cs, doc, q) && Tidy(cs, next) && M(cs, next) == Written(cs, doc, q, mid)
    ensures Ready(cs, next, q) && Here(cs, next, q) == Some(mid)
    ensures Written(cs, next, q, end) == Written(cs, doc, q, end)
  {
    GetPut(M(cs, doc), Folded(cs, q), mid);
    PutPut(M(cs, doc), Folded(cs, q), mid, end);
  }

  lemma ReplaceMember(cs: bool, doc: Json, q: Steps, fields: map<Str, Val>, k: Str, v: Json)
    requires Ready(cs, doc, q) && Here(cs, doc, q) == Some(VObject(fields)) && Fold(cs, k) in fields && Tidy(cs, v)
    requires SurvivesDecoding(k) && Alone(cs, fields, k)
    ensures Replaces(cs, doc, q, Key(k), v, Written(cs, doc, q, VObject(fields[Fold(cs, k) := M(cs, v)])))
  {
    var key, w := Fold(cs, k), M(cs, v);
    var rest := fields - {key};
    assert rest[key := w] == fields[key := w];
    DetachMember(cs, doc, q, fields, k);
    var without := Detach(cs, doc, q, Key(k)).value;
    AfterWrite(cs, doc, q, without, VObject(rest), VObject(rest[key := w]));
    AddMember(cs, without, q, rest, k, v);
  }

  lemma Reinserted<T>(s: seq<T>, n: nat, x: T)
    requires n < |s|
    ensures |RemoveAt(s, n)| == |s| - 1 && InsertAt(RemoveAt(s, n), n, x) == s[n := x]
  {
  }

  lemma ReplaceItem(cs: bool, doc: Json, q: Steps, vs: seq<Val>, n: nat, v: Json)
    requires Ready(cs, doc, q) && Here(cs, doc, q) == Some(VArray(vs)) && n < |vs| <= SIZE_MAX && Tidy(cs, v)
    ensures Replaces(cs, doc, q, Index(n), v, Written(cs, doc, q, VArray(vs[n := M(cs, v)])))
  {
    hide Here, Written, RemoveAt, InsertAt, Add, Detach;
    var rest := RemoveAt(vs, n);
    Reinserted(vs, n, M(cs, v));
    DetachItem(cs, doc, q, vs, n);
    var without := Detach(cs, doc, q, Index(n)).value;
    AfterWrite(cs, doc, q, without, VArray(rest), VArray(vs[n := M(cs, v)]));
    InsertItem(cs, without, q, rest, n, v);
  }

  lemma ArrayFits(cs: bool, doc: Json, p: Steps, vs: seq<Val>)
    requires Ready(cs, doc, p) && Here(cs, doc, p) == Some(VArray(vs))
    ensures |vs| <= SIZE_MAX
  {
    var position := StepsArePosition(cs, doc, p);
  }

  /** The node at the end of the path can be exchanged: by its index, or by a key that finds it. */
  ghost predicate Exchangeable(cs: bool, doc: Json, q: Steps, s: Step) {
    s.Key? ==> SurvivesDecoding(s.k)
               && forall fields :: Here(cs, doc, q) == Some(VObject(fields)) ==> Alone(cs, fields, s.k)
  }

  lemma ReplaceChild(cs: bool, doc: Json, q: Steps, s: Step, v: Json)
    requires Ready(cs, doc, q + [s]) && Tidy(cs, v) && Exchangeable(cs, doc, q, s)
    ensures Replaces(cs, doc, q, s, v, Written(cs, doc, q + [s], M(cs, v)))
  {
    ReadyAbove(cs, doc, q, s);
    WrittenBelow(cs, doc, q, s, M(cs, v));
    match Here(cs, doc, q).value {
      case VObject(fields) => ReplaceMember(cs, doc, q, fields, s.k, v);
      case VArray(vs) =>
        ArrayFits(cs, doc, q, vs);
        ReplaceItem(cs, doc, q, vs, s.i, v);
    }
  }

  lemma WrittenBelow(cs: bool, doc: Json, q: Steps, s: Step, w: Val)
    requires Ready(cs, doc, q) && GetStep(Here(cs, doc, q).value, FoldStep(cs, s)).Some?
    ensures Ready(cs, doc, q + [s])
    ensures Here(cs, doc, q + [s]) == GetStep(Here(cs, doc, q).value, FoldStep(cs, s))
    ensures Written(cs, doc, q + [s], w) == Written(cs, doc, q, PutStep(Here(cs, doc, q).value, FoldStep(cs, s), w))
  {
    FoldedSnoc(cs, q, s);
    GetSnoc(M(cs, doc), Folded(cs, q), FoldStep(cs, s));
    PutSnoc(M(cs, doc), Folded(cs, q), FoldStep(cs, s), w);
  }

  /** A generated "replace", which removes the node and then adds the new one. */
  lemma ReplaceRoot(cs: bool, doc: Json, v: Json)
    requires Tidy(cs, v)
    ensures Reaches(cs, ApplyPatch(cs, doc, ComposePatch(REPLACE, Spell([]), None, Some(v))), M(cs, v))
  {
    hide Tidy, DetachPath, AddPath, ComposePatch, Lookup;
    PatchParts(cs, REPLACE, Spell([]), None, Some(v));
  }

  lemma ReplaceBelow(cs: bool, doc: Json, q: Steps, s: Step, v: Json)
    requires Ready(cs, doc, q + [s]) && Tidy(cs, v) && Exchangeable(cs, doc, q, s)
    ensures Reaches(cs, ApplyPatch(cs, doc, ComposePatch(REPLACE, Spell(q + [s]), None, Some(v))),
                    Written(cs, doc, q + [s], M(cs, v)))
  {
    hide Here, Written, Tidy, DetachPath, AddPath, ComposePatch, Lookup, Exchangeable;
    SpellSnoc(q, s);
    ReplaceChild(cs, doc, q, s, v);
    hide Spell;
    PatchParts(cs, REPLACE, Spell(q + [s]), None, Some(v));
  }

  lemma ReplaceWorks(cs: bool, doc: Json, p: Steps, v: Json)
    requires Ready(cs, doc, p) && Tidy(cs, v)
    requires p != [] ==> Exchangeable(cs, doc, p[..|p| - 1], p[|p| - 1])
    ensures Reaches(cs, ApplyPatch(cs, doc, ComposePatch(REPLACE, Spell(p), None, Some(v))), Written(cs, doc, p, M(cs, v)))
  {
    hide Reaches, ApplyPatch, ComposePatch, Spell, Exchangeable;
    if p == [] {
      ReplaceRoot(cs, doc, v);
    } else {
      assert p == p[..|p| - 1] + [p[|p| - 1]];
      ReplaceBelow(cs, doc, p[..|p| - 1], p[|p| - 1], v);
    }
  }

  lemma RemoveMemberWorks(cs: bool, doc: Json, p: Steps, fields: map<Str, Val>, k: Str)
    requires Ready(cs, doc, p) && Here(cs, doc, p) == Some(VObject(fields)) && Fold(cs, k) in fields
    requires SurvivesDecoding(k) && Alone(cs, fields, k)
    ensures Reaches(cs, ApplyPatch(cs, doc, ComposePatch(REMOVE, Spell(p), Some(k), None)),
                    Written(cs, doc, p, VObject(fields - {Fold(cs, k)})))
  {
    hide Here, Written, Tidy, DetachPath, ComposePatch, ApplyPatch, Spell, SurvivesDecoding;
    RemovePatch(cs, doc, Spell(p), k);
    DetachMember(cs, doc, p, fields, k);
  }

  lemma RemoveItemWorks(cs: bool, doc: Json, p: Steps, vs: seq<Val>, n: nat)
    requires Ready(cs, doc, p) && Here(cs, doc, p) == Some(VArray(vs)) && n < |vs|
    ensures Reaches(cs, ApplyPatch(cs, doc, ComposePatch(REMOVE, Spell(p), Some(Decimal(n)), None)),
                    Written(cs, doc, p, VArray(RemoveAt(vs, n))))
  {
    hide Here, Written, Tidy, DetachPath, ComposePatch, ApplyPatch, Spell;
    RemovePatch(cs, doc, Spell(p), Decimal(n));
    DecimalPlain(n);
    DetachItem(cs, doc, p, vs, n);
  }

  lemma AddMemberWorks(cs: bool, doc: Json, p: Steps, fields: map<Str, Val>, k: Str, v: Json)
    requires Ready(cs, doc, p) && Here(cs, doc, p) == Some(VObject(fields)) && SurvivesDecoding(k) && Tidy(cs, v)
    ensures Reaches(cs, ApplyPatch(cs, doc, ComposePatch(ADD, Spell(p), Some(k), Some(v))),
                    Written(cs, doc, p, VObject(fields[Fold(cs, k) := M(cs, v)])))
  {
    hide Here, Written, Tidy, AddPath, ComposePatch, ApplyPatch, Spell, SurvivesDecoding;
    AddPatch(cs, doc, Spell(p), k, v);
    AddMember(cs, doc, p, fields, k, v);
  }

  lemma AddItemWorks(cs: bool, doc: Json, p: Steps, vs: seq<Val>, v: Json)
    requires Ready(cs, doc, p) && Here(cs, doc, p) == Some(VArray(vs)) && |vs| < SIZE_MAX && Tidy(cs, v)
    ensures Reaches(cs, ApplyPatch(cs, doc, ComposePatch(ADD, Spell(p), Some(DASH), Some(v))),
                    Written(cs, doc, p, VArray(vs + [M(cs, v)])))
  {
    hide Here, Written, Tidy, AddPath, ComposePatch, ApplyPatch, Spell;
    AddPatch(cs, doc, Spell(p), DASH, v);
    DashPlain();
    AppendItem(cs, doc, p, vs, v);
  }

  // ---------- runs of patches

  lemma {:induction false} ApplyConcat(cs: bool, doc: Json, xs: seq<Json>, ys: seq<Json>)
    requires ApplyAll(cs, doc, xs).Done?
    ensures ApplyAll(cs, doc, xs + ys) == ApplyAll(cs, ApplyAll(cs, doc, xs).doc, ys)
    decreases |xs|
  {
    hide ApplyPatch;
    if xs == [] {
      assert xs + ys == ys;
    } else {
      assert (xs + ys)[1..] == xs[1..] + ys;
      ApplyConcat(cs, ApplyPatch(cs, doc, xs[0]).doc, xs[1..], ys);
    }
  }

  lemma ApplyOne(cs: bool, doc: Json, patch: Json)
    requires ApplyPatch(cs, doc, patch).Done?
    ensures ApplyAll(cs, doc, [patch]) == ApplyPatch(cs, doc, patch)
  {
    assert ApplyAll(cs, ApplyPatch(cs, doc, patch).doc, [patch][1..]) == ApplyPatch(cs, doc, patch);
  }

  /** Running the patches replaces what is at p, and nothing else, by v. */
  ghost predicate Writes(cs: bool, doc: Json, p: Steps, patches: seq<Json>, v: Val)
    requires Here(cs, doc, p).Some?
  {
    Reaches(cs, ApplyAll(cs, doc, patches), Written(cs, doc, p, v))
  }

  /** The document a first run of patches leaves. */
  lemma After(cs: bool, doc: Json, p: Steps, first: seq<Json>, mid: Val) returns (next: Json)
    requires Ready(cs, doc, p) && Writes(cs, doc, p, first, mid)
    ensures ApplyAll(cs, doc, first) == Done(next)
    ensures Ready(cs, next, p) && Here(cs, next, p) == Some(mid)
    ensures M(cs, next) == Written(cs, doc, p, mid)
  {
    next := ApplyAll(cs, doc, first).doc;
    AfterWrite(cs, doc, p, next, mid, mid);
  }

  /** A second run goes on from there, and only its write remains. */
  lemma Chain(cs: bool, doc: Json, p: Steps, first: seq<Json>, mid: Val, next: Json, rest: seq<Json>, end: Val)
    requires Ready(cs, doc, p) && ApplyAll(cs, doc, first) == Done(next)
    requires Tidy(cs, next) && M(cs, next) == Written(cs, doc, p, mid) && Here(cs, next, p).Some?
    requires Writes(cs, next, p, rest, end)
    ensures Writes(cs, doc, p, first + rest, end)
  {
    ApplyConcat(cs, doc, first, rest);
    AfterWrite(cs, doc, p, next, mid, end);
  }

  lemma NoPatches(cs: bool, doc: Json, p: Steps)
    requires Ready(cs, doc, p)
    ensures Writes(cs, doc, p, [], Here(cs, doc, p).value)
  {
    PutGet(M(cs, doc), Folded(cs, p));
  }

  // ---------- what the generated paths must meet

  predicate Replaced(a: Json, b: Json) {
    !SameKind(a, b) || (a.Number? && a.n != b.n) || (a.String? && a.s != b.s)
  }

  predicate HasKey(cs: bool, ms: Members, k: Str) {
    exists m :: m in ms && Fold(cs, m.key) == Fold(cs, k)
  }

  function Keys(ms: Members): set<Str> {
    set m | m in ms :: m.key
  }

  /** A key that ends the path of a removal in an object with such keys. */
  ghost predicate Removable(cs: bool, keys: set<Str>, k: Str) {
    SurvivesDecoding(k) && (cs ==> forall a | a in keys :: Lower(a) == Lower(k) ==> a == k)
  }

  /**
   * The paths generated for two trees can be followed: keys of removed and of replaced members survive decoding and,
   * in the case-sensitive mode, differ ignoring case from all other keys of the two objects; keys of added members
   * survive decoding. Nothing is asked of keys inside added values or in the middle of a path.
   */
  ghost predicate Clear(cs: bool, from: Json, to: Json)
    decreases from, 1
  {
    match from
    case Array(xs) => to.Array? ==> ItemsClear(cs, xs, to.items)
    case Object(ms) => to.Object? ==> MembersClear(cs, Keys(ms) + Keys(to.members), ms, to.members)
    case _ => true
  }

  ghost predicate ItemsClear(cs: bool, xs: seq<Json>, ys: seq<Json>)
    decreases xs, 0
  {
    forall i | 0 <= i < |xs| && i < |ys| :: Clear(cs, xs[i], ys[i])
  }

  ghost predicate MembersClear(cs: bool, keys: set<Str>, xs: Members, ys: Members)
    decreases xs, 0
  {
    && (forall x, y | x in xs && y in ys && Fold(cs, x.key) == Fold(cs, y.key) ::
          Clear(cs, x.value, y.value) && (Replaced(x.value, y.value) ==> Removable(cs, keys, x.key)))
    && (forall x | x in xs && !HasKey(cs, ys, x.key) :: Removable(cs, keys, x.key))
    && (forall y | y in ys && !HasKey(cs, xs, y.key) :: SurvivesDecoding(y.key))
  }

  /** What is at p means `from`; running the patches for (`from`, `to`) writes `to` there. */
  lemma {:induction false} PatchesWork(cs: bool, doc: Json, p: Steps, from: Json, to: Json)
    requires Ready(cs, doc, p) && Here(cs, doc, p) == Some(M(cs, from)) && Tidy(cs, from) && Tidy(cs, to)
    requires Clear(cs, from, to)
    requires Replaced(from, to) && p != [] ==> Exchangeable(cs, doc, p[..|p| - 1], p[|p| - 1])
    ensures Writes(cs, doc, p, Patches(cs, Spell(p), from, to), M(cs, to))
    decreases Size(from), 1
  {
    hide Here, Written, Spell, ComposePatch, Exchangeable;
    if Replaced(from, to) {
      ReplaceWorks(cs, doc, p, to);
      ApplyOne(cs, doc, ComposePatch(REPLACE, Spell(p), None, Some(to)));
    } else if from.Array? {
      ArrayWork(cs, doc, p, from.items, to.items);
    } else if from.Object? {
      ObjectWork(cs, doc, p, from.members, to.members);
    } else {
      NoPatches(cs, doc, p);
    }
  }

  lemma {:induction false} ArrayWork(cs: bool, doc: Json, p: Steps, xs: seq<Json>, ys: seq<Json>)
    requires Ready(cs, doc, p) && Here(cs, doc, p) == Some(VArray(MeaningItems(cs, xs)))
    requires TidyItems(cs, xs) && TidyItems(cs, ys) && ItemsClear(cs, xs, ys)
    ensures Writes(cs, doc, p, ItemPatches(cs, Spell(p), xs, ys, 0), VArray(MeaningItems(cs, ys)))
    decreases SizeItems(xs) + 1, 0
  {
    var vs, ws := MeaningItems(cs, xs), MeaningItems(cs, ys);
    assert [] + vs == vs && [] + ws == ws;
    ItemsWork(cs, doc, p, [], vs, ws, xs, ys);
  }

  lemma {:induction false} ObjectWork(cs: bool, doc: Json, p: Steps, xs: Members, ys: Members)
    requires Ready(cs, doc, p) && Here(cs, doc, p) == Some(VObject(Fields(cs, xs)))
    requires TidyMembers(cs, xs) && TidyMembers(cs, ys) && MembersClear(cs, Keys(xs) + Keys(ys), xs, ys)
    ensures Writes(cs, doc, p, MemberPatches(cs, Spell(p), Sort(cs, xs), Sort(cs, ys)), VObject(Fields(cs, ys)))
    decreases SizeMembers(xs) + 1, 0
  {
    hide Sort, MembersClear, Tidy, Fields, Here, Walk;
    var keys := Keys(xs) + Keys(ys);
    SortTidy(cs, xs);
    SortTidy(cs, ys);
    SizeSort(cs, xs);
    SortWalk(cs, keys, xs, ys);
    NothingKept(Fields(cs, xs));
    NothingKept(Fields(cs, ys));
    FieldsInside(cs, keys, xs);
    MembersWork(cs, doc, p, keys, map[], Sort(cs, xs), Sort(cs, ys));
  }

  lemma NothingKept<K, V>(f: map<K, V>)
    ensures map[] + f == f
  {
  }

  lemma PathEnd(p: Steps, s: Step)
    ensures (p + [s])[..|p + [s]| - 1] == p && (p + [s])[|p + [s]| - 1] == s
  {
  }

  // ---------- arrays

  /** An array that starts with `done` and goes on with what `items` mean. */
  ghost predicate Splits(cs: bool, vs: seq<Val>, done: seq<Val>, items: seq<Json>) {
    vs == done + MeaningItems(cs, items)
  }

  lemma SplitNext(cs: bool, vs: seq<Val>, done: seq<Val>, items: seq<Json>, w: Val)
    requires Splits(cs, vs, done, items) && items != []
    ensures |done| < |vs| && vs[|done|] == M(cs, items[0])
    ensures Splits(cs, vs, done + [M(cs, items[0])], items[1..])
    ensures Splits(cs, RemoveAt(vs, |done|), done, items[1..])
    ensures Splits(cs, vs[|done| := w], done + [w], items[1..])
  {
  }

  /** The array holds `done` and then the items of `xs`; running the patches leaves `ws`, which ends in `ys` instead. */
  lemma {:induction false} ItemsWork(cs: bool, doc: Json, p: Steps, done: seq<Val>, vs: seq<Val>, ws: seq<Val>,
        xs: seq<Json>, ys: seq<Json>)
    requires Ready(cs, doc, p) && Here(cs, doc, p) == Some(VArray(vs)) && Splits(cs, vs, done, xs)
    requires Splits(cs, ws, done, ys)
    requires TidyItems(cs, xs) && TidyItems(cs, ys) && |done| + |ys| <= SIZE_MAX && ItemsClear(cs, xs, ys)
    ensures Writes(cs, doc, p, ItemPatches(cs, Spell(p), xs, ys, |done|), VArray(ws))
    decreases SizeItems(xs), |ys| + 3, 1
  {
    if xs == [] && ys == [] {
      NoPatches(cs, doc, p);
    } else if ys == [] {
      OnlyFromHasItem(cs, doc, p, done, vs, ws, xs);
    } else if xs == [] {
      assert vs == done;
      OnlyToHasItem(cs, doc, p, done, ws, ys);
    } else {
      BothHaveItem(cs, doc, p, done, vs, ws, xs, ys);
    }
  }

  lemma {:induction false} OnlyFromHasItem(cs: bool, doc: Json, p: Steps, done: seq<Val>, vs: seq<Val>, ws: seq<Val>,
        xs: seq<Json>)
    requires Ready(cs, doc, p) && Here(cs, doc, p) == Some(VArray(vs)) && Splits(cs, vs, done, xs)
    requires Splits(cs, ws, done, [])
    requires TidyItems(cs, xs) && |done| <= SIZE_MAX && xs != []
    ensures Writes(cs, doc, p, ItemPatches(cs, Spell(p), xs, [], |done|), VArray(ws))
    decreases SizeItems(xs), 3, 0
  {
    SplitNext(cs, vs, done, xs, VNull);
    var first := [ComposePatch(REMOVE, Spell(p), Some(Decimal(|done|)), None)];
    RemoveItemWorks(cs, doc, p, vs, |done|);
    ApplyOne(cs, doc, first[0]);
    var vs' := RemoveAt(vs, |done|);
    var next := After(cs, doc, p, first, VArray(vs'));
    ItemsWork(cs, next, p, done, vs', ws, xs[1..], []);
    Chain(cs, doc, p, first, VArray(vs'), next, ItemPatches(cs, Spell(p), xs[1..], [], |done|), VArray(ws));
  }

  lemma {:induction false} OnlyToHasItem(cs: bool, doc: Json, p: Steps, done: seq<Val>, ws: seq<Val>, ys: seq<Json>)
    requires Ready(cs, doc, p) && Here(cs, doc, p) == Some(VArray(done)) && Splits(cs, ws, done, ys)
    requires TidyItems(cs, ys) && |done| + |ys| <= SIZE_MAX && ys != []
    ensures Writes(cs, doc, p, ItemPatches(cs, Spell(p), [], ys, |done|), VArray(ws))
    decreases 0, |ys| + 3, 0
  {
    SplitNext(cs, ws, done, ys, VNull);
    var first := [ComposePatch(ADD, Spell(p), Some(DASH), Some(ys[0]))];
    AddItemWorks(cs, doc, p, done, ys[0]);
    ApplyOne(cs, doc, first[0]);
    var done' := done + [M(cs, ys[0])];
    var next := After(cs, doc, p, first, VArray(done'));
    assert Splits(cs, done', done', []);
    ItemsWork(cs, next, p, done', done', ws, [], ys[1..]);
    AppendPatches(cs, Spell(p), ys[1..], |done|, |done'|);
    Chain(cs, doc, p, first, VArray(done'), next, ItemPatches(cs, Spell(p), [], ys[1..], |done'|), VArray(ws));
  }

  lemma {:induction false} BothHaveItem(cs: bool, doc: Json, p: Steps, done: seq<Val>, vs: seq<Val>, ws: seq<Val>,
        xs: seq<Json>, ys: seq<Json>)
    requires Ready(cs, doc, p) && Here(cs, doc, p) == Some(VArray(vs)) && Splits(cs, vs, done, xs)
    requires Splits(cs, ws, done, ys)
    requires TidyItems(cs, xs) && TidyItems(cs, ys) && |done| + |ys| <= SIZE_MAX && xs != [] && ys != []
    requires ItemsClear(cs, xs, ys)
    ensures Writes(cs, doc, p, ItemPatches(cs, Spell(p), xs, ys, |done|), VArray(ws))
    decreases SizeItems(xs), |ys| + 3, 0
  {
    var n, w := |done|, M(cs, ys[0]);
    var done' := done + [w];
    SplitNext(cs, vs, done, xs, w);
    SplitNext(cs, ws, done, ys, w);
    var first := Patches(cs, Spell(p) + [SLASH] + Decimal(n), xs[0], ys[0]);
    ItemWork(cs, doc, p, vs, n, xs[0], ys[0]);
    var vs' := vs[n := w];
    var next := After(cs, doc, p, first, VArray(vs'));
    ItemsWork(cs, next, p, done', vs', ws, xs[1..], ys[1..]);
    Chain(cs, doc, p, first, VArray(vs'), next, ItemPatches(cs, Spell(p), xs[1..], ys[1..], n + 1), VArray(ws));
  }

  lemma {:induction false} ItemWork(cs: bool, doc: Json, p: Steps, vs: seq<Val>, n: nat, x: Json, y: Json)
    requires Ready(cs, doc, p) && Here(cs, doc, p) == Some(VArray(vs)) && n < |vs| && vs[n] == M(cs, x)
    requires Tidy(cs, x) && Tidy(cs, y) && Clear(cs, x, y)
    ensures Writes(cs, doc, p, Patches(cs, Spell(p) + [SLASH] + Decimal(n), x, y), VArray(vs[n := M(cs, y)]))
    decreases Size(x), 2
  {
    hide Here, Written, Clear, Tidy, Patches, Spell, Folded, Meaning;
    var s := Index(n);
    ArrayFits(cs, doc, p, vs);
    WrittenBelow(cs, doc, p, s, M(cs, y));
    SpellSnoc(p, s);
    PathEnd(p, s);
    PatchesWork(cs, doc, p + [s], x, y);
  }

  /** Patches that append do not mention the index. */
  lemma {:induction false} AppendPatches(cs: bool, path: Str, ys: seq<Json>, m: nat, n: nat)
    ensures ItemPatches(cs, path, [], ys, m) == ItemPatches(cs, path, [], ys, n)
    decreases |ys|
  {
    if ys != [] { AppendPatches(cs, path, ys[1..], m, n); }
  }

  // ---------- objects

  lemma SortTidy(cs: bool, ms: Members)
    requires TidyMembers(cs, ms)
    ensures TidyMembers(cs, Sort(cs, ms)) && StrictlySorted(cs, Sort(cs, ms))
    ensures Fields(cs, Sort(cs, ms)) == Fields(cs, ms)
    ensures forall m :: m in Sort(cs, ms) <==> m in ms
  {
    SortStrict(cs, ms);
    SortUnique(cs, ms);
    forall m
      ensures m in Sort(cs, ms) <==> m in ms
    {
      SortMember(cs, ms, m);
    }
    FieldsSameMembers(cs, Sort(cs, ms), ms);
  }

  /** The members of two sorted lists that `create_patches` has yet to walk. */
  ghost predicate Walk(cs: bool, keys: set<Str>, xs: Members, ys: Members) {
    && TidyMembers(cs, xs) && TidyMembers(cs, ys)
    && StrictlySorted(cs, xs) && StrictlySorted(cs, ys)
    && Keys(xs) <= keys && Keys(ys) <= keys && MembersClear(cs, keys, xs, ys)
  }

  lemma SortWalk(cs: bool, keys: set<Str>, xs: Members, ys: Members)
    requires TidyMembers(cs, xs) && TidyMembers(cs, ys) && MembersClear(cs, keys, xs, ys)
    requires Keys(xs) <= keys && Keys(ys) <= keys
    ensures Walk(cs, keys, Sort(cs, xs), Sort(cs, ys))
  {
    SortTidy(cs, xs);
    SortTidy(cs, ys);
    hide Sort;
    SameMembersClear(cs, keys, xs, ys, Sort(cs, xs), Sort(cs, ys));
  }

  lemma SameMembersClear(cs: bool, keys: set<Str>, xs: Members, ys: Members, xs': Members, ys': Members)
    requires MembersClear(cs, keys, xs, ys) && Keys(xs) <= keys && Keys(ys) <= keys
    requires (forall m :: m in xs <==> m in xs') && (forall m :: m in ys <==> m in ys')
    ensures MembersClear(cs, keys, xs', ys') && Keys(xs') <= keys && Keys(ys') <= keys
  {
    SameKeys(cs, xs, xs');
    SameKeys(cs, ys, ys');
  }

  lemma SameKeys(cs: bool, xs: Members, xs': Members)
    requires forall m :: m in xs <==> m in xs'
    ensures Keys(xs') == Keys(xs)
    ensures forall k :: HasKey(cs, xs', k) <==> HasKey(cs, xs, k)
  {
    forall k ensures HasKey(cs, xs', k) <==> HasKey(cs, xs, k) {
    }
  }

  /** The first key of one list is not in the other: the rest is still clear. */
  lemma ClearFrom(cs: bool, keys: set<Str>, xs: Members, ys: Members)
    requires MembersClear(cs, keys, xs, ys) && xs != [] && UniqueKeys(cs, xs) && !HasKey(cs, ys, xs[0].key)
    ensures MembersClear(cs, keys, xs[1..], ys) && Removable(cs, keys, xs[0].key)
  {
    hide Clear, Removable, SurvivesDecoding, Replaced;
    RestKeys(cs, xs);
    var k := xs[0].key;
    forall y | y in ys && !HasKey(cs, xs[1..], y.key) ensures SurvivesDecoding(y.key) {
      assert Fold(cs, y.key) == Fold(cs, k) ==> HasKey(cs, ys, k);
    }
  }

  lemma ClearTo(cs: bool, keys: set<Str>, xs: Members, ys: Members)
    requires MembersClear(cs, keys, xs, ys) && ys != [] && UniqueKeys(cs, ys) && !HasKey(cs, xs, ys[0].key)
    ensures MembersClear(cs, keys, xs, ys[1..]) && SurvivesDecoding(ys[0].key)
  {
    hide Clear, Removable, SurvivesDecoding, Replaced;
    RestKeys(cs, ys);
    var k := ys[0].key;
    forall x | x in xs && !HasKey(cs, ys[1..], x.key) ensures Removable(cs, keys, x.key) {
      assert Fold(cs, x.key) == Fold(cs, k) ==> HasKey(cs, xs, k);
    }
  }

  lemma ClearBoth(cs: bool, keys: set<Str>, xs: Members, ys: Members)
    requires MembersClear(cs, keys, xs, ys) && xs != [] && ys != [] && UniqueKeys(cs, xs) && UniqueKeys(cs, ys)
    requires Fold(cs, xs[0].key) == Fold(cs, ys[0].key)
    ensures MembersClear(cs, keys, xs[1..], ys[1..])
  {
    hide Clear, Removable, SurvivesDecoding, Replaced;
    RestKeys(cs, xs);
    RestKeys(cs, ys);
    forall x | x in xs[1..] && !HasKey(cs, ys[1..], x.key) ensures Removable(cs, keys, x.key) {
      assert !HasKey(cs, ys, x.key);
    }
    forall y | y in ys[1..] && !HasKey(cs, xs[1..], y.key) ensures SurvivesDecoding(y.key) {
      assert !HasKey(cs, xs, y.key);
    }
  }

  lemma RestWalks(cs: bool, keys: set<Str>, ms: Members)
    requires TidyMembers(cs, ms) && StrictlySorted(cs, ms) && Keys(ms) <= keys && ms != []
    ensures TidyMembers(cs, ms[1..]) && StrictlySorted(cs, ms[1..]) && Keys(ms[1..]) <= keys
  {
    assert Keys(ms[1..]) <= Keys(ms);
  }

  lemma WalkFrom(cs: bool, keys: set<Str>, xs: Members, ys: Members)
    requires Walk(cs, keys, xs, ys) && xs != [] && KeyOrder(cs, xs, ys) < 0
    ensures Walk(cs, keys, xs[1..], ys) && Removable(cs, keys, xs[0].key)
  {
    hide MembersClear, Removable, Keys, Tidy;
    KeyNotIn(cs, xs[0].key, ys);
    ClearFrom(cs, keys, xs, ys);
    RestWalks(cs, keys, xs);
  }

  lemma WalkTo(cs: bool, keys: set<Str>, xs: Members, ys: Members)
    requires Walk(cs, keys, xs, ys) && ys != [] && KeyOrder(cs, xs, ys) > 0
    ensures Walk(cs, keys, xs, ys[1..]) && SurvivesDecoding(ys[0].key)
    ensures xs != [] ==> Compare(cs, ys[0].key, xs[0].key) < 0
  {
    hide MembersClear, SurvivesDecoding, Keys, Tidy;
    if xs != [] { CompareOrder(cs, xs[0].key, ys[0].key); }
    KeyNotIn(cs, ys[0].key, xs);
    ClearTo(cs, keys, xs, ys);
    RestWalks(cs, keys, ys);
  }

  lemma FirstNotIn(cs: bool, keys: set<Str>, xs: Members, ys: Members)
    requires Walk(cs, keys, xs, ys) && ys != [] && KeyOrder(cs, xs, ys) > 0
    ensures Fold(cs, ys[0].key) !in Fields(cs, xs)
  {
    if xs != [] { CompareOrder(cs, xs[0].key, ys[0].key); }
    KeyNotIn(cs, ys[0].key, xs);
  }

  lemma WalkBoth(cs: bool, keys: set<Str>, xs: Members, ys: Members)
    requires Walk(cs, keys, xs, ys) && xs != [] && ys != [] && KeyOrder(cs, xs, ys) == 0
    ensures Walk(cs, keys, xs[1..], ys[1..]) && Fold(cs, xs[0].key) == Fold(cs, ys[0].key)
    ensures Clear(cs, xs[0].value, ys[0].value)
    ensures Replaced(xs[0].value, ys[0].value) ==> Removable(cs, keys, xs[0].key)
  {
    hide Clear, Removable, Keys, Tidy, Replaced;
    CompareOrder(cs, xs[0].key, ys[0].key);
    HeadsClear(cs, keys, xs, ys);
    hide MembersClear;
    ClearBoth(cs, keys, xs, ys);
    RestWalks(cs, keys, xs);
    RestWalks(cs, keys, ys);
  }

  lemma HeadsClear(cs: bool, keys: set<Str>, xs: Members, ys: Members)
    requires MembersClear(cs, keys, xs, ys) && xs != [] && ys != [] && Fold(cs, xs[0].key) == Fold(cs, ys[0].key)
    ensures Clear(cs, xs[0].value, ys[0].value)
    ensures Replaced(xs[0].value, ys[0].value) ==> Removable(cs, keys, xs[0].key)
  {
    hide Clear, Removable, Replaced;
    assert xs[0] in xs && ys[0] in ys;
  }

  lemma RestKeys(cs: bool, ms: Members)
    requires ms != [] && UniqueKeys(cs, ms)
    ensures forall m :: m in ms <==> m == ms[0] || m in ms[1..]
    ensures forall m :: m in ms[1..] ==> Fold(cs, m.key) != Fold(cs, ms[0].key)
    ensures forall k {:trigger HasKey(cs, ms[1..], k)} ::
      HasKey(cs, ms[1..], k) <==> HasKey(cs, ms, k) && Fold(cs, k) != Fold(cs, ms[0].key)
  {
    assert ms == [ms[0]] + ms[1..];
    forall k
      ensures HasKey(cs, ms[1..], k) <==> HasKey(cs, ms, k) && Fold(cs, k) != Fold(cs, ms[0].key)
    {
      if HasKey(cs, ms, k) && Fold(cs, k) != Fold(cs, ms[0].key) {
        var m :| m in ms && Fold(cs, m.key) == Fold(cs, k);
        assert m in ms[1..];
      }
    }
  }

  lemma KeyNotIn(cs: bool, k: Str, ms: Members)
    requires StrictlySorted(cs, ms) && (ms != [] ==> Compare(cs, k, ms[0].key) < 0)
    ensures !HasKey(cs, ms, k) && Fold(cs, k) !in Fields(cs, ms)
  {
    FieldsDomain(cs, ms, Fold(cs, k));
    forall i | 0 <= i < |ms| ensures Fold(cs, ms[i].key) != Fold(cs, k) {
      if i > 0 { StrCmpTransitive(Fold(cs, k), Fold(cs, ms[0].key), Fold(cs, ms[i].key)); }
      CompareOrder(cs, k, ms[i].key);
    }
  }

  ghost predicate Apart(cs: bool, kept: map<Str, Val>, ms: Members) {
    kept.Keys !! Fields(cs, ms).Keys
  }

  /** The first member of a list, seen in the map the list means beside what is already kept. */
  lemma FirstField(cs: bool, kept: map<Str, Val>, ms: Members, w: Val)
    requires ms != [] && UniqueKeys(cs, ms) && Apart(cs, kept, ms)
    ensures var k, v := Fold(cs, ms[0].key), M(cs, ms[0].value);
      && k in kept + Fields(cs, ms) && (kept + Fields(cs, ms))[k] == v
      && kept + Fields(cs, ms) == kept[k := v] + Fields(cs, ms[1..])
      && (kept + Fields(cs, ms)) - {k} == kept + Fields(cs, ms[1..])
      && (kept + Fields(cs, ms))[k := w] == kept[k := w] + Fields(cs, ms[1..])
      && Apart(cs, kept, ms[1..]) && Apart(cs, kept[k := w], ms[1..])
  {
    FieldsDomain(cs, ms[1..], Fold(cs, ms[0].key));
    MapLaws(kept, Fields(cs, ms[1..]), Fold(cs, ms[0].key), M(cs, ms[0].value), w);
  }

  lemma MapLaws<K, V>(a: map<K, V>, b: map<K, V>, k: K, v: V, w: V)
    requires k !in b && a.Keys !! b[k := v].Keys
    ensures (a + b[k := v])[k] == v
    ensures a + b[k := v] == a[k := v] + b
    ensures (a + b[k := v]) - {k} == a + b
    ensures (a + b[k := v])[k := w] == a[k := w] + b
    ensures a.Keys !! b.Keys && a[k := w].Keys !! b.Keys
  {
    assert k in b[k := v].Keys;
  }

  /** In the case-sensitive mode, all fields are under keys of the two objects. */
  ghost predicate Inside(cs: bool, keys: set<Str>, fields: map<Str, Val>) {
    cs ==> fields.Keys <= keys
  }

  lemma FieldsInside(cs: bool, keys: set<Str>, ms: Members)
    requires Keys(ms) <= keys
    ensures Inside(cs, keys, Fields(cs, ms))
  {
    if cs {
      forall k | k in Fields(cs, ms) ensures k in keys {
        FieldsDomain(cs, ms, k);
        var i :| 0 <= i < |ms| && Fold(cs, ms[i].key) == k;
        assert ms[i].key in Keys(ms);
      }
    }
  }

  lemma RemovableAlone(cs: bool, keys: set<Str>, fields: map<Str, Val>, k: Str)
    requires Removable(cs, keys, k) && Inside(cs, keys, fields)
    ensures SurvivesDecoding(k) && Alone(cs, fields, k)
  {
  }

  /** The members so far are right, and the rest of the object is still that of `xs`. */
  ghost predicate Halfway(cs: bool, doc: Json, p: Steps, keys: set<Str>, kept: map<Str, Val>, xs: Members,
        ys: Members) {
    Ready(cs, doc, p) && Here(cs, doc, p) == Some(VObject(kept + Fields(cs, xs)))
    && Walk(cs, keys, xs, ys) && Apart(cs, kept, xs) && Apart(cs, kept, ys)
    && Inside(cs, keys, kept + Fields(cs, xs))
  }

  lemma {:induction false} MembersWork(cs: bool, doc: Json, p: Steps, keys: set<Str>, kept: map<Str, Val>,
        xs: Members, ys: Members)
    requires Halfway(cs, doc, p, keys, kept, xs, ys)
    ensures Writes(cs, doc, p, MemberPatches(cs, Spell(p), xs, ys), VObject(kept + Fields(cs, ys)))
    decreases SizeMembers(xs), |ys| + 3, 1
  {
    if xs == [] && ys == [] {
      NoPatches(cs, doc, p);
    } else {
      var order := KeyOrder(cs, xs, ys);
      if order == 0 {
        BothHaveKey(cs, doc, p, keys, kept, xs, ys);
      } else if order < 0 {
        OnlyFromHasKey(cs, doc, p, keys, kept, xs, ys);
      } else {
        OnlyToHasKey(cs, doc, p, keys, kept, xs, ys);
      }
    }
  }

  lemma {:induction false} OnlyFromHasKey(cs: bool, doc: Json, p: Steps, keys: set<Str>, kept: map<Str, Val>,
        xs: Members, ys: Members)
    requires Halfway(cs, doc, p, keys, kept, xs, ys) && xs != [] && KeyOrder(cs, xs, ys) < 0
    ensures Writes(cs, doc, p, MemberPatches(cs, Spell(p), xs, ys), VObject(kept + Fields(cs, ys)))
    decreases SizeMembers(xs), |ys| + 3, 0
  {
    hide Here, Written, Fields, ApplyPatch, Spell, Walk, SurvivesDecoding, Removable;
    var k, fields, fields' := xs[0].key, kept + Fields(cs, xs), kept + Fields(cs, xs[1..]);
    WalkFrom(cs, keys, xs, ys);
    WalkUnique(cs, keys, xs, ys);
    FirstField(cs, kept, xs, VNull);
    RemovableAlone(cs, keys, fields, k);
    var first := [ComposePatch(REMOVE, Spell(p), Some(k), None)];
    RemoveMemberWorks(cs, doc, p, fields, k);
    ApplyOne(cs, doc, first[0]);
    var next := After(cs, doc, p, first, VObject(fields'));
    assert fields'.Keys <= fields.Keys;
    MembersWork(cs, next, p, keys, kept, xs[1..], ys);
    Chain(cs, doc, p, first, VObject(fields'), next, MemberPatches(cs, Spell(p), xs[1..], ys), VObject(kept + Fields(cs, ys)));
  }

  lemma WalkUnique(cs: bool, keys: set<Str>, xs: Members, ys: Members)
    requires Walk(cs, keys, xs, ys)
    ensures UniqueKeys(cs, xs) && UniqueKeys(cs, ys)
    ensures xs != [] ==> Tidy(cs, xs[0].value) && xs[0].key in keys
    ensures ys != [] ==> Tidy(cs, ys[0].value) && ys[0].key in keys
  {
    if xs != [] { assert xs[0].key in Keys(xs); }
    if ys != [] { assert ys[0].key in Keys(ys); }
  }

  lemma {:induction false} OnlyToHasKey(cs: bool, doc: Json, p: Steps, keys: set<Str>, kept: map<Str, Val>,
        xs: Members, ys: Members)
    requires Halfway(cs, doc, p, keys, kept, xs, ys) && ys != [] && KeyOrder(cs, xs, ys) > 0
    ensures Writes(cs, doc, p, MemberPatches(cs, Spell(p), xs, ys), VObject(kept + Fields(cs, ys)))
    decreases SizeMembers(xs), |ys| + 3, 0
  {
    hide Here, Written, Fields, ApplyPatch, Spell, SurvivesDecoding, Removable, MembersClear, Tidy, ComposePatch, StrictlySorted;
    var k, w, fields := ys[0].key, M(cs, ys[0].value), kept + Fields(cs, xs);
    var kept' := kept[Fold(cs, k) := w];
    WalkUnique(cs, keys, xs, ys);
    WalkTo(cs, keys, xs, ys);
    FirstNotIn(cs, keys, xs, ys);
    hide Walk;
    FirstField(cs, kept, ys, w);
    var fields' := kept' + Fields(cs, xs);
    assert fields[Fold(cs, k) := w] == fields';
    var first := [ComposePatch(ADD, Spell(p), Some(k), Some(ys[0].value))];
    AddMemberWorks(cs, doc, p, fields, k, ys[0].value);
    ApplyOne(cs, doc, first[0]);
    var next := After(cs, doc, p, first, VObject(fields'));
    MembersWork(cs, next, p, keys, kept', xs, ys[1..]);
    Chain(cs, doc, p, first, VObject(fields'), next, MemberPatches(cs, Spell(p), xs, ys[1..]), VObject(kept + Fields(cs, ys)));
  }

  lemma {:induction false} BothHaveKey(cs: bool, doc: Json, p: Steps, keys: set<Str>, kept: map<Str, Val>,
        xs: Members, ys: Members)
    requires Halfway(cs, doc, p, keys, kept, xs, ys) && xs != [] && ys != [] && KeyOrder(cs, xs, ys) == 0
    ensures Writes(cs, doc, p, MemberPatches(cs, Spell(p), xs, ys), VObject(kept + Fields(cs, ys)))
    decreases SizeMembers(xs), |ys| + 3, 0
  {
    hide Here, Written, Fields, Patches, Spell, Walk, Clear, Replaced, SurvivesDecoding, Removable;
    var k, w := xs[0].key, M(cs, ys[0].value);
    WalkUnique(cs, keys, xs, ys);
    WalkBoth(cs, keys, xs, ys);
    var kept' := kept[Fold(cs, k) := w];
    FirstField(cs, kept, xs, w);
    FirstField(cs, kept, ys, w);
    var mid := VObject(kept' + Fields(cs, xs[1..]));
    var first := Patches(cs, Spell(p) + [SLASH] + Encode(k), xs[0].value, ys[0].value);
    ChildWork(cs, doc, p, keys, kept, xs, ys[0].value, mid);
    var next := After(cs, doc, p, first, mid);
    assert mid.fields.Keys == (kept + Fields(cs, xs)).Keys;
    MembersWork(cs, next, p, keys, kept', xs[1..], ys[1..]);
    Chain(cs, doc, p, first, mid, next, MemberPatches(cs, Spell(p), xs[1..], ys[1..]), VObject(kept + Fields(cs, ys)));
  }

  lemma {:induction false} ChildWork(cs: bool, doc: Json, p: Steps, keys: set<Str>, kept: map<Str, Val>, xs: Members,
        y: Json, mid: Val)
    requires xs != [] && UniqueKeys(cs, xs) && Tidy(cs, xs[0].value) && Tidy(cs, y) && Apart(cs, kept, xs)
    requires Ready(cs, doc, p) && Here(cs, doc, p) == Some(VObject(kept + Fields(cs, xs)))
    requires mid == VObject((kept + Fields(cs, xs))[Fold(cs, xs[0].key) := M(cs, y)])
    requires Clear(cs, xs[0].value, y) && Inside(cs, keys, kept + Fields(cs, xs))
    requires Replaced(xs[0].value, y) ==> Removable(cs, keys, xs[0].key)
    ensures Writes(cs, doc, p, Patches(cs, Spell(p) + [SLASH] + Encode(xs[0].key), xs[0].value, y), mid)
    decreases Size(xs[0].value), 2
  {
    var k := xs[0].key;
    FirstField(cs, kept, xs, M(cs, y));
    WrittenBelow(cs, doc, p, Key(k), M(cs, y));
    SpellSnoc(p, Key(k));
    PathEnd(p, Key(k));
    hide Clear, Fields;
    if Replaced(xs[0].value, y) { RemovableAlone(cs, keys, kept + Fields(cs, xs), k); }
    PatchesWork(cs, doc, p + [Key(k)], xs[0].value, y);
  }

  /**
   * The round trip: when the generated paths can be followed, applying every generated patch, in order, to a copy of
   * `from` succeeds and leaves a tree equal to `to` up to member order and, ignoring case, the spelling of keys.
   */
  lemma PatchRoundTrip(cs: bool, from: Json, to: Json)
    requires Tidy(cs, from) && Tidy(cs, to) && Clear(cs, from, to)
    ensures var r := ApplyAll(cs, from, Patches(cs, [], from, to));
      r.Done? && Tidy(cs, r.doc) && Meaning(cs, r.doc) == Meaning(cs, to)
  {
    assert Spell([]) == [] && Folded(cs, []) == [];
    PatchesWork(cs, from, [], from, to);
  }
}
