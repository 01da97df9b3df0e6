/** Exactly when generated patches do what they should: for one patch, and for all trees over a set of keys. */
module PatchLimits {
  import opened Text
  import opened Json
  import opened Sorting
  import opened Trees
  import opened Equality
  import opened PointerText
  import opened Pointer
  import opened Locate
  import opened Values
  import opened Patch
  import opened PatchSteps
  import opened PatchRoundTrip
  import opened MergeGenerate

  // ---------- one addition

  lemma AdditionApplied(cs: bool, doc: Json, p: Steps, fields: map<Str, Val>, k: Str, v: Json)
    requires Ready(cs, doc, p) && Here(cs, doc, p) == Some(VObject(fields)) && Tidy(cs, v)
    ensures Reaches(cs, ApplyPatch(cs, doc, ComposePatch(ADD, Spell(p), Some(k), Some(v))),
                    Written(cs, doc, p, VObject(fields[Fold(cs, DecodeInPlace(Encode(k))) := M(cs, v)])))
  {
    hide Spell, ComposePatch, ApplyPatch, Here, Written, AddPath;
    AddPatch(cs, doc, Spell(p), k, v);
    EncodeHasNoSlash(k);
    var position := FindParent(cs, doc, p, Encode(k));
    var ms, d := At(doc, position).members, DecodeInPlace(Encode(k));
    SetMemberMeans(cs, ms, d, v);
    PutAtMeans(cs, doc, p, position, Object(SetMember(cs, ms, d, v)));
  }

  /** Adding a member to any object of any document sets that field, and no other, exactly for keys that survive decoding. */
  lemma AdditionExact(cs: bool, doc: Json, p: Steps, fields: map<Str, Val>, k: Str, v: Json)
    requires Ready(cs, doc, p) && Here(cs, doc, p) == Some(VObject(fields)) && Tidy(cs, v) && Fold(cs, k) !in fields
    ensures var r := ApplyPatch(cs, doc, ComposePatch(ADD, Spell(p), Some(k), Some(v)));
      r.Done? && Tidy(cs, r.doc)
      && (Meaning(cs, r.doc) == Written(cs, doc, p, VObject(fields[Fold(cs, k) := M(cs, v)])) <==> SurvivesDecoding(k))
  {
    var d := Fold(cs, DecodeInPlace(Encode(k)));
    AdditionApplied(cs, doc, p, fields, k, v);
    DecodeFolded(cs, k);
    hide SurvivesDecoding, ApplyPatch, Spell;
    var done, want := VObject(fields[d := M(cs, v)]), VObject(fields[Fold(cs, k) := M(cs, v)]);
    if d != Fold(cs, k) {
      assert Fold(cs, k) !in done.fields && Fold(cs, k) in want.fields;
      WrittenApart(cs, doc, p, done, want);
    }
  }

  lemma WrittenApart(cs: bool, doc: Json, p: Steps, v: Val, w: Val)
    requires Here(cs, doc, p).Some? && v != w
    ensures Written(cs, doc, p, v) != Written(cs, doc, p, w)
  {
    GetPut(M(cs, doc), Folded(cs, p), v);
    GetPut(M(cs, doc), Folded(cs, p), w);
  }

  // ---------- one removal

  /** Ignoring case, the decoded key finds the member meant. */
  ghost predicate Finds(cs: bool, ms: Members, k: Str) {
    var i := IndexOfKey(false, ms, DecodeInPlace(Encode(k)));
    i < |ms| && Fold(cs, ms[i].key) == Fold(cs, k)
  }

  lemma RemovalApplied(cs: bool, doc: Json, p: Steps, position: Position, k: Str)
    requires Ready(cs, doc, p) && LocateTokens(cs, doc, Texts(p)) == Some(position) && At(doc, position).Object?
    ensures var ms, i := At(doc, position).members, IndexOfKey(false, At(doc, position).members, DecodeInPlace(Encode(k)));
      ApplyPatch(cs, doc, ComposePatch(REMOVE, Spell(p), Some(k), None))
      == if i < |ms| then Done(PutAt(doc, position, Object(RemoveAt(ms, i)))) else Failed(13, doc)
  {
    hide Here, Spell, ComposePatch, ApplyPatch, DetachPath;
    RemovePatch(cs, doc, Spell(p), k);
    EncodeHasNoSlash(k);
    var found := FindParent(cs, doc, p, Encode(k));
  }

  /**
   * Removing a member from any object of any document removes that field, and no other, exactly if the first key
   * that agrees ignoring case with what the pointer decodes to is the key meant.
   */
  lemma RemovalExact(cs: bool, doc: Json, p: Steps, position: Position, k: Str)
    requires Ready(cs, doc, p) && LocateTokens(cs, doc, Texts(p)) == Some(position) && At(doc, position).Object?
    requires Fold(cs, k) in Fields(cs, At(doc, position).members)
    ensures Here(cs, doc, p) == Some(VObject(Fields(cs, At(doc, position).members)))
    ensures var ms, r := At(doc, position).members, ApplyPatch(cs, doc, ComposePatch(REMOVE, Spell(p), Some(k), None));
      (r.Done? && Meaning(cs, r.doc) == Written(cs, doc, p, VObject(Fields(cs, ms) - {Fold(cs, k)}))) <==> Finds(cs, ms, k)
  {
    var found := StepsArePosition(cs, doc, p);
    var ms := At(doc, position).members;
    var i := IndexOfKey(false, ms, DecodeInPlace(Encode(k)));
    RemovalApplied(cs, doc, p, position, k);
    hide ApplyPatch, Spell, ComposePatch, Here, Fields;
    if i < |ms| {
      var rest := RemoveAt(ms, i);
      FieldsRemove(cs, ms, i);
      RemovedTidy(cs, ms, i);
      PutAtMeans(cs, doc, p, position, Object(rest));
      FieldsAt(cs, ms, i);
      var done, want := VObject(Fields(cs, rest)), VObject(Fields(cs, ms) - {Fold(cs, k)});
      ObjectMeans(cs, rest);
      if Fold(cs, ms[i].key) != Fold(cs, k) {
        assert Fold(cs, k) in done.fields && Fold(cs, k) !in want.fields;
        WrittenApart(cs, doc, p, done, want);
      }
    }
  }

  lemma ObjectMeans(cs: bool, ms: Members)
    ensures M(cs, Object(ms)) == VObject(Fields(cs, ms))
  {
  }

  lemma RemovedTidy(cs: bool, ms: Members, i: nat)
    requires TidyMembers(cs, ms) && i < |ms|
    ensures TidyMembers(cs, RemoveAt(ms, i))
  {
    RemoveKeepsUnique(cs, ms, i);
  }

  // ---------- all trees over a set of keys

  /** Keys that survive decoding and, in the case-sensitive mode, stay apart when case is ignored. */
  ghost predicate Distinguishable(cs: bool, ks: set<Str>) {
    && (forall k | k in ks :: SurvivesDecoding(k))
    && (cs ==> forall a, b | a in ks && b in ks :: Lower(a) == Lower(b) ==> a == b)
  }

  /** Applying the generated patches to the first tree leaves a tree equal to the second. */
  ghost predicate RoundTrips(cs: bool, from: Json, to: Json) {
    var r := ApplyAll(cs, from, Patches(cs, [], from, to));
    r.Done? && Meaning(cs, r.doc) == Meaning(cs, to)
  }

  ghost predicate Within(ks: set<Str>, cs: bool, from: Json, to: Json) {
    Over(ks, from) && Over(ks, to) && Tidy(cs, from) && Tidy(cs, to)
  }

  lemma {:induction false} OverIsClear(ks: set<Str>, cs: bool, from: Json, to: Json)
    requires Distinguishable(cs, ks) && Over(ks, from) && Over(ks, to)
    ensures Clear(cs, from, to)
    decreases from
  {
    match from {
      case Array(xs) =>
        if to.Array? {
          forall i | 0 <= i < |xs| && i < |to.items| ensures Clear(cs, xs[i], to.items[i]) {
            OverIsClear(ks, cs, xs[i], to.items[i]);
          }
        }
      case Object(ms) =>
        if to.Object? {
          var keys := Keys(ms) + Keys(to.members);
          forall k | k in keys ensures Removable(cs, keys, k) {
          }
          forall x, y | x in ms && y in to.members && Fold(cs, x.key) == Fold(cs, y.key)
            ensures Clear(cs, x.value, y.value)
          {
            OverIsClear(ks, cs, x.value, y.value);
          }
          KeysClear(cs, keys, ms, to.members);
        }
      case _ =>
    }
  }

  lemma KeysClear(cs: bool, keys: set<Str>, xs: Members, ys: Members)
    requires keys == Keys(xs) + Keys(ys) && forall k | k in keys :: Removable(cs, keys, k)
    requires forall x, y | x in xs && y in ys && Fold(cs, x.key) == Fold(cs, y.key) :: Clear(cs, x.value, y.value)
    ensures MembersClear(cs, keys, xs, ys)
  {
    hide Clear, Replaced;
    assert forall x :: x in xs ==> x.key in keys;
    assert forall y :: y in ys ==> y.key in keys;
  }

  /** What generating and applying promise over a key set. */
  ghost predicate Promised(ks: set<Str>, cs: bool) {
    forall from, to :: Within(ks, cs, from, to) ==> RoundTrips(cs, from, to)
  }

  /** The patches for all trees over a key set work exactly if its keys are distinguishable. */
  lemma PatchesExact(ks: set<Str>, cs: bool)
    ensures Promised(ks, cs) <==> Distinguishable(cs, ks)
  {
    hide RoundTrips, Within, SurvivesDecoding;
    if Distinguishable(cs, ks) {
      forall from, to | Within(ks, cs, from, to) ensures RoundTrips(cs, from, to) {
        TripOver(ks, cs, from, to);
      }
    } else if k :| k in ks && !SurvivesDecoding(k) {
      AdditionBreaks(ks, cs, k);
    } else {
      var a, b :| a in ks && b in ks && Lower(a) == Lower(b) && a != b;
      CompareOrder(true, a, b);
      if StrCmp(a, b) < 0 { RemovalBreaks(ks, a, b); } else { RemovalBreaks(ks, b, a); }
    }
  }

  lemma TripOver(ks: set<Str>, cs: bool, from: Json, to: Json)
    requires Distinguishable(cs, ks) && Within(ks, cs, from, to)
    ensures RoundTrips(cs, from, to)
  {
    OverIsClear(ks, cs, from, to);
    PatchRoundTrip.PatchRoundTrip(cs, from, to);
  }

  /** From {} to {k: 1}: the decoded key is another one. */
  lemma AdditionBreaks(ks: set<Str>, cs: bool, k: Str)
    requires k in ks && !SurvivesDecoding(k)
    ensures exists from, to :: Within(ks, cs, from, to) && !RoundTrips(cs, from, to)
  {
    var from, to := Object([]), One(k, Number(1));
    hide SurvivesDecoding, ApplyPatch;
    AdditionPatch(cs, k);
    assert Spell([]) == [] && Folded(cs, []) == [];
    AdditionExact(cs, from, [], map[], k, Number(1));
    ApplyOne(cs, from, ComposePatch(ADD, [], Some(k), Some(Number(1))));
    OneMeans(cs, k, Number(1));
    OneTidy(ks, cs, k);
    assert Within(ks, cs, from, to);
    assert !RoundTrips(cs, from, to);
  }

  lemma AdditionPatch(cs: bool, k: Str)
    ensures Patches(cs, [], Object([]), One(k, Number(1))) == [ComposePatch(ADD, [], Some(k), Some(Number(1)))]
  {
    var ms := [Member(k, Number(1))];
    assert ms[1..] == [];
    assert MemberPatches(cs, [], [], ms) == [ComposePatch(ADD, [], Some(k), Some(Number(1)))] + MemberPatches(cs, [], [], []);
  }

  function Both(a: Str, b: Str): Members {
    [Member(a, Number(1)), Member(b, Number(2))]
  }

  /** Removing b from {a: 1, b: 2}, where the keys agree ignoring case: a is removed. */
  lemma RemovalFails(a: Str, b: Str)
    requires Lower(a) == Lower(b) && a != b && SurvivesDecoding(b)
    ensures var from, r := Object(Both(a, b)), ApplyPatch(true, Object(Both(a, b)), ComposePatch(REMOVE, [], Some(b), None));
      !(r.Done? && Meaning(true, r.doc) == VObject(map[a := VNumber(1)]))
  {
    var ms := Both(a, b);
    var from := Object(ms);
    RemovalMisses(a, b);
    BothTidy({a, b}, a, b);
    BothFields(a, b);
    assert Spell([]) == [] && Folded(true, []) == [];
    assert LocateTokens(true, from, Texts([])) == Some([]);
    assert Fields(true, ms) - {b} == map[a := VNumber(1)];
    hide SurvivesDecoding, ApplyPatch, Finds, Fields, Tidy, ComposePatch, Spell;
    RemovalExact(true, from, [], [], b);
  }

  /** From {a: 1, b: 2} to {a: 1} likewise. */
  lemma RemovalBreaks(ks: set<Str>, a: Str, b: Str)
    requires a in ks && b in ks && Lower(a) == Lower(b) && StrCmp(a, b) < 0 && SurvivesDecoding(b)
    ensures exists from, to :: Within(ks, true, from, to) && !RoundTrips(true, from, to)
  {
    var from, to := Object(Both(a, b)), One(a, Number(1));
    CompareOrder(true, a, b);
    RemovalPatch(a, b);
    BothTidy(ks, a, b);
    OneTidy(ks, true, a);
    OneMeans(true, a, Number(1));
    hide SurvivesDecoding, ApplyPatch, Patches, ComposePatch, Meaning, Tidy, Over;
    RemovalFails(a, b);
    var patch := ComposePatch(REMOVE, [], Some(b), None);
    if ApplyPatch(true, from, patch).Done? { ApplyOne(true, from, patch); }
    assert Within(ks, true, from, to);
    assert !RoundTrips(true, from, to);
  }

  lemma BothFields(a: Str, b: Str)
    requires a != b
    ensures Fields(true, Both(a, b)) == map[a := VNumber(1), b := VNumber(2)]
  {
    var ms := Both(a, b);
    assert ms[1..] == [Member(b, Number(2))] && ms[1..][1..] == [];
    assert Fields(true, ms[1..][1..]) == map[];
    assert Fields(true, ms[1..]) == map[b := VNumber(2)];
    assert Fields(true, ms) == Fields(true, ms[1..])[a := VNumber(1)];
  }

  lemma OneTidy(ks: set<Str>, cs: bool, k: Str)
    requires k in ks
    ensures Over(ks, One(k, Number(1))) && Tidy(cs, One(k, Number(1)))
  {
  }

  lemma BothTidy(ks: set<Str>, a: Str, b: Str)
    requires a in ks && b in ks && a != b
    ensures Over(ks, Object(Both(a, b))) && Tidy(true, Object(Both(a, b)))
  {
    assert UniqueKeys(true, Both(a, b));
  }

  lemma RemovalMisses(a: Str, b: Str)
    requires Lower(a) == Lower(b) && a != b && SurvivesDecoding(b)
    ensures !Finds(true, Both(a, b), b)
  {
    DecodeRoundTrip(b);
    assert IndexOfKey(false, Both(a, b), b) == 0;
  }

  lemma RemovalPatch(a: Str, b: Str)
    requires StrCmp(a, b) < 0
    ensures Patches(true, [], Object(Both(a, b)), One(a, Number(1))) == [ComposePatch(REMOVE, [], Some(b), None)]
  {
    var xs, ys := Both(a, b), [Member(a, Number(1))];
    assert AlreadySorted(true, xs);
    assert Sort(true, xs) == xs && Sort(true, ys) == ys;
    assert xs[1..] == [Member(b, Number(2))] && xs[1..][1..] == [] && ys[1..] == [];
    CompareOrder(true, a, a);
    SizeSort(true, xs);
    assert MemberPatches(true, [], xs[1..], []) == [ComposePatch(REMOVE, [], Some(b), None)] + MemberPatches(true, [], [], []);
    assert Patches(true, [] + [SLASH] + Encode(a), Number(1), Number(1)) == [];
    assert MemberPatches(true, [], xs, ys) == [] + MemberPatches(true, [], xs[1..], []);
  }
}
