/** What one generated patch does to the meaning of a document. */
module PatchSteps {
  import opened Text
  import opened Json
  import opened Sorting
  import opened Trees
  import opened PointerText
  import opened Pointer
  import opened Locate
  import opened Values
  import opened Patch

  /** Unique keys as the mode sees them, and arrays whose indices fit `size_t`. */
  ghost predicate Tidy(cs: bool, j: Json)
    decreases j
  {
    match j
    case Array(items) => |items| <= SIZE_MAX && forall x | x in items :: Tidy(cs, x)
    case Object(ms) => UniqueKeys(cs, ms) && forall m | m in ms :: Tidy(cs, m.value)
    case _ => true
  }

  ghost predicate TidyItems(cs: bool, items: seq<Json>) {
    |items| <= SIZE_MAX && forall x | x in items :: Tidy(cs, x)
  }

  ghost predicate TidyMembers(cs: bool, ms: Members) {
    UniqueKeys(cs, ms) && forall m | m in ms :: Tidy(cs, m.value)
  }

  function M(cs: bool, j: Json): Val {
    Meaning(cs, j)
  }

  function FoldStep(cs: bool, s: Step): Step {
    match s case Key(k) => Key(Fold(cs, k)) case Index(i) => s
  }

  /** A path as the meaning sees it. */
  function Folded(cs: bool, p: Steps): (r: Steps)
    ensures |r| == |p|
    ensures forall i :: 0 <= i < |p| ==> r[i] == FoldStep(cs, p[i])
  {
    seq(|p|, i requires 0 <= i < |p| => FoldStep(cs, p[i]))
  }

  lemma FoldedRest(cs: bool, p: Steps)
    requires p != []
    ensures Folded(cs, p)[0] == FoldStep(cs, p[0]) && Folded(cs, p)[1..] == Folded(cs, p[1..])
  {
  }

  lemma FoldedSnoc(cs: bool, p: Steps, s: Step)
    ensures Folded(cs, p + [s]) == Folded(cs, p) + [FoldStep(cs, s)]
  {
  }

  /** What is at a path of the document. */
  function Here(cs: bool, doc: Json, p: Steps): Option<Val> {
    Get(M(cs, doc), Folded(cs, p))
  }

  /** The meaning of the document with w written at that path. */
  function Written(cs: bool, doc: Json, p: Steps, w: Val): Val
    requires Here(cs, doc, p).Some?
  {
    Put(M(cs, doc), Folded(cs, p), w)
  }

  function TokenText(s: Step): Str {
    match s case Key(k) => Encode(k) case Index(i) => Decimal(i)
  }

  function Texts(p: Steps): (r: seq<Str>)
    ensures |r| == |p|
    ensures forall i :: 0 <= i < |p| ==> r[i] == TokenText(p[i])
  {
    seq(|p|, i requires 0 <= i < |p| => TokenText(p[i]))
  }

  lemma TokenFinds(cs: bool, ms: Members, k: Str)
    ensures FindToken(cs, ms, Encode(k)) == IndexOfKey(cs, ms, k)
  {
    var i, j := FindToken(cs, ms, Encode(k)), IndexOfKey(cs, ms, k);
    if i < |ms| { MatchesEncoded(cs, ms[i].key, k); assert j <= i; }
    if j < |ms| { MatchesEncoded(cs, ms[j].key, k); assert i <= j; }
  }

  /** A step in the meaning is a child in the tree, found by the text of the step. */
  lemma StepIsChild(cs: bool, j: Json, s: Step) returns (i: nat)
    requires Tidy(cs, j) && GetStep(M(cs, j), FoldStep(cs, s)).Some?
    ensures ChildByToken(cs, j, TokenText(s)) == Some(i) && i < Arity(j)
    ensures M(cs, Child(j, i)) == GetStep(M(cs, j), FoldStep(cs, s)).value && Tidy(cs, Child(j, i))
    ensures j.Object? ==> s.Key? && Fold(cs, j.members[i].key) == Fold(cs, s.k)
    ensures j.Array? ==> s.Index? && i == s.i
  {
    match j {
      case Array(items) =>
        i := s.i;
        DecimalIndex(i);
        MeaningItemsAt(cs, items, i);
      case Object(ms) =>
        i := IndexOfKey(cs, ms, s.k);
        TokenFinds(cs, ms, s.k);
        LookupIsField(cs, ms, s.k);
    }
  }

  lemma PutChildMeans(cs: bool, j: Json, i: nat, s: Step, w: Json)
    requires Tidy(cs, j) && Tidy(cs, w) && i < Arity(j) && GetStep(M(cs, j), FoldStep(cs, s)).Some?
    requires j.Object? ==> s.Key? && Fold(cs, j.members[i].key) == Fold(cs, s.k)
    requires j.Array? ==> s.Index? && i == s.i
    ensures Tidy(cs, PutChild(j, i, w))
    ensures M(cs, PutChild(j, i, w)) == PutStep(M(cs, j), FoldStep(cs, s), M(cs, w))
  {
    match j {
      case Array(items) =>
        MeaningItemsUpdate(cs, items, i, w);
      case Object(ms) =>
        UpdateKeepsKeys(cs, ms, i, w);
        FieldsUpdate(cs, ms, i, w);
    }
  }

  /** A path in the meaning is a position in the tree, found through the text of the path. */
  lemma {:induction false} StepsArePosition(cs: bool, j: Json, p: Steps) returns (position: Position)
    requires Tidy(cs, j) && Here(cs, j, p).Some?
    ensures LocateTokens(cs, j, Texts(p)) == Some(position)
    ensures ValidPosition(j, position)
    ensures M(cs, At(j, position)) == Here(cs, j, p).value && Tidy(cs, At(j, position))
    decreases |p|
  {
    if p == [] {
      position := [];
    } else {
      FoldedRest(cs, p);
      var i := StepIsChild(cs, j, p[0]);
      var rest := StepsArePosition(cs, Child(j, i), p[1..]);
      assert Texts(p)[1..] == Texts(p[1..]);
      position := [i] + rest;
    }
  }

  /** Exchanging the node at that position writes at that path. */
  lemma {:induction false} PutAtMeans(cs: bool, j: Json, p: Steps, position: Position, w: Json)
    requires Tidy(cs, j) && Here(cs, j, p).Some? && Tidy(cs, w)
    requires LocateTokens(cs, j, Texts(p)) == Some(position) && ValidPosition(j, position)
    ensures Tidy(cs, PutAt(j, position, w))
    ensures M(cs, PutAt(j, position, w)) == Written(cs, j, p, M(cs, w))
    decreases |p|
  {
    if p != [] {
      FoldedRest(cs, p);
      var i := StepIsChild(cs, j, p[0]);
      assert Texts(p)[1..] == Texts(p[1..]);
      var rest := StepsArePosition(cs, Child(j, i), p[1..]);
      assert position == [i] + rest && position[1..] == rest;
      PutAtMeans(cs, Child(j, i), p[1..], rest, w);
      PutChildMeans(cs, j, i, p[0], PutAt(Child(j, i), rest, w));
    }
  }

  lemma TextsHaveNoSlash(p: Steps)
    ensures NoSlash(Texts(p))
  {
    forall t | t in Texts(p) ensures SLASH !in t {
      var i :| 0 <= i < |p| && Texts(p)[i] == t;
      match p[i] case Key(k) => EncodeHasNoSlash(k); case Index(_) =>
    }
  }

  /** Following the printed path finds the node, whatever its keys. */
  lemma FollowPath(cs: bool, j: Json, p: Steps) returns (position: Position)
    requires Tidy(cs, j) && Here(cs, j, p).Some?
    ensures LocatePointer(cs, j, Join(Texts(p))) == LocateTokens(cs, j, Texts(p)) == Some(position)
    ensures ValidPosition(j, position)
    ensures M(cs, At(j, position)) == Here(cs, j, p).value && Tidy(cs, At(j, position))
  {
    TextsHaveNoSlash(p);
    TokensOfJoin(Texts(p));
    position := StepsArePosition(cs, j, p);
  }

  // ---------- splitting a path at its last "/"

  lemma {:induction false} LastSlashIs(path: Str, i: nat)
    requires i < |path| && path[i] == SLASH && forall k :: i < k < |path| ==> path[k] != SLASH
    ensures LastSlash(path) == Some(i)
    decreases |path|
  {
    if i < |path| - 1 { LastSlashIs(path[..|path| - 1], i); }
  }

  lemma SplitPath(parent: Str, t: Str)
    requires SLASH !in t
    ensures var path := parent + [SLASH] + t;
      LastSlash(path) == Some(|parent|) && path[..|parent|] == parent && path[|parent| + 1..] == t
  {
    var path := parent + [SLASH] + t;
    forall k | |parent| < k < |path|
      ensures path[k] != SLASH
    {
      assert path[k] == t[k - |parent| - 1];
    }
    LastSlashIs(path, |parent|);
  }

  lemma DecimalPlain(n: nat)
    ensures Encode(Decimal(n)) == Decimal(n) == DecodeInPlace(Decimal(n))
    ensures SLASH !in Decimal(n)
    ensures n <= SIZE_MAX ==> IndexText(Decimal(n)) == Some(n)
    ensures Decimal(n) != DASH
  {
    var s := Decimal(n);
    assert SLASH !in s && TILDE !in s;
    DecodeExamples(s);
    DecodeRoundTrip(s);
    TokenEndIs(s, 0, |s|);
    assert s[..|s|] == s;
    if n <= SIZE_MAX { DecimalIndex(n); }
    assert s[0] != DASH[0];
  }

  lemma DashPlain()
    ensures Encode(DASH) == DASH == DecodeInPlace(DASH) && SLASH !in DASH
  {
    DecodeExamples(DASH);
    DecodeRoundTrip(DASH);
  }

  lemma KeyPlain(k: Str)
    requires SurvivesDecoding(k)
    ensures DecodeInPlace(Encode(k)) == k && SLASH !in Encode(k)
  {
    DecodeRoundTrip(k);
    EncodeHasNoSlash(k);
  }

  // ---------- reading a composed patch

  lemma PatchParts(cs: bool, op: Str, path: Str, suffix: Option<Str>, value: Option<Json>)
    ensures var patch := ComposePatch(op, path, suffix, value);
      && Lookup(cs, patch, OP) == Some(String(op))
      && Lookup(cs, patch, PATH) == Some(String(PathOf(path, suffix)))
      && Lookup(cs, patch, VALUE) == value
  {
    var ms := ComposePatch(op, path, suffix, value).members;
    assert |Fold(cs, OP)| == 2 && |Fold(cs, PATH)| == 4 && |Fold(cs, VALUE)| == 5;
    assert ms[0].key == OP && ms[1].key == PATH;
    assert value.Some? ==> ms[2].key == VALUE && ms[2].value == value.value;
    assert value.None? ==> |ms| == 2;
  }

  lemma AddPatch(cs: bool, doc: Json, path: Str, suffix: Str, v: Json)
    ensures ApplyPatch(cs, doc, ComposePatch(ADD, path, Some(suffix), Some(v)))
         == AddPath(cs, doc, path + [SLASH] + Encode(suffix), v)
  {
    PatchParts(cs, ADD, path, Some(suffix), Some(v));
    hide ComposePatch, Lookup, AddPath;
  }

  lemma RemovePatch(cs: bool, doc: Json, path: Str, suffix: Str)
    ensures var without := DetachPath(cs, doc, path + [SLASH] + Encode(suffix));
      ApplyPatch(cs, doc, ComposePatch(REMOVE, path, Some(suffix), None))
      == if without.Some? then Done(without.value) else Failed(13, doc)
  {
    PatchParts(cs, REMOVE, path, Some(suffix), None);
    hide ComposePatch, Lookup, DetachPath;
  }

  // ---------- editing a parent

  /** In an object with these fields, k is the only key that agrees with it ignoring case. */
  ghost predicate Alone(cs: bool, fields: map<Str, Val>, k: Str) {
    cs ==> forall a | a in fields :: Lower(a) == Lower(k) ==> a == k
  }

  /** `detach_path` ignores case; it then finds the member meant. */
  lemma AloneIndex(cs: bool, ms: Members, k: Str)
    requires TidyMembers(cs, ms) && Alone(cs, Fields(cs, ms), k) && Fold(cs, k) in Fields(cs, ms)
    ensures IndexOfKey(false, ms, k) == IndexOfKey(cs, ms, k) < |ms|
  {
    var i, j := IndexOfKey(false, ms, k), IndexOfKey(cs, ms, k);
    LookupIsField(cs, ms, k);
    if cs && i < j { FieldsAt(true, ms, i); }
  }

  lemma WithoutKeyMeans(cs: bool, ms: Members, k: Str)
    requires TidyMembers(cs, ms)
    ensures TidyMembers(cs, WithoutKey(cs, ms, k))
    ensures Fields(cs, WithoutKey(cs, ms, k)) == Fields(cs, ms) - {Fold(cs, k)}
  {
    WithoutKeyFields(cs, ms, k);
  }

  lemma SetMemberMeans(cs: bool, ms: Members, k: Str, v: Json)
    requires TidyMembers(cs, ms) && Tidy(cs, v)
    ensures TidyMembers(cs, SetMember(cs, ms, k, v))
    ensures Fields(cs, SetMember(cs, ms, k, v)) == Fields(cs, ms)[Fold(cs, k) := M(cs, v)]
  {
    WithoutKeyMeans(cs, ms, k);
    FieldsAppend(cs, WithoutKey(cs, ms, k), Member(k, v));
    assert (Fields(cs, ms) - {Fold(cs, k)})[Fold(cs, k) := M(cs, v)] == Fields(cs, ms)[Fold(cs, k) := M(cs, v)];
  }

  lemma RemoveAtEach<T>(s: seq<T>, i: nat)
    requires i < |s|
    ensures |RemoveAt(s, i)| == |s| - 1
    ensures forall k :: 0 <= k < |s| - 1 ==> RemoveAt(s, i)[k] == s[if k < i then k else k + 1]
  {
  }

  lemma RemoveItemMeans(cs: bool, items: seq<Json>, i: nat)
    requires TidyItems(cs, items) && i < |items|
    ensures TidyItems(cs, RemoveAt(items, i))
    ensures MeaningItems(cs, RemoveAt(items, i)) == RemoveAt(MeaningItems(cs, items), i)
  {
    var r := RemoveAt(items, i);
    RemoveAtEach(items, i);
    RemoveAtEach(MeaningItems(cs, items), i);
    assert TidyItems(cs, r);
    hide RemoveAt, MeaningItems, TidyItems;
    forall k | 0 <= k < |r|
      ensures MeaningItems(cs, r)[k] == RemoveAt(MeaningItems(cs, items), i)[k]
    {
      var o := if k < i then k else k + 1;
      assert r[k] == items[o];
      MeaningItemsAt(cs, r, k);
      MeaningItemsAt(cs, items, o);
    }
  }

  lemma InsertAtEach<T>(s: seq<T>, i: nat, x: T)
    requires i <= |s|
    ensures |InsertAt(s, i, x)| == |s| + 1
    ensures forall k :: 0 <= k <= |s| ==> InsertAt(s, i, x)[k] == if k < i then s[k] else if k == i then x else s[k - 1]
  {
  }

  lemma InsertItemMeans(cs: bool, items: seq<Json>, i: nat, v: Json)
    requires TidyItems(cs, items) && |items| < SIZE_MAX && i <= |items| && Tidy(cs, v)
    ensures TidyItems(cs, InsertAt(items, i, v))
    ensures MeaningItems(cs, InsertAt(items, i, v)) == InsertAt(MeaningItems(cs, items), i, M(cs, v))
  {
    var r := InsertAt(items, i, v);
    InsertAtEach(items, i, v);
    InsertAtEach(MeaningItems(cs, items), i, M(cs, v));
    assert TidyItems(cs, r);
    hide InsertAt, MeaningItems, TidyItems;
    forall k | 0 <= k < |r|
      ensures MeaningItems(cs, r)[k] == InsertAt(MeaningItems(cs, items), i, M(cs, v))[k]
    {
      MeaningItemsAt(cs, r, k);
      if k < i { MeaningItemsAt(cs, items, k); }
      if k > i { MeaningItemsAt(cs, items, k - 1); }
    }
  }
}
