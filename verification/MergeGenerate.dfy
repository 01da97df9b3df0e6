/** Generating a merge patch, and the key sets for which merging it back works. */
module MergeGenerate {
  import opened Text
  import opened Json
  import opened Sorting
  import opened Trees
  import opened Equality
  import opened Merge

  // ---------- generate_merge_patch

  /** The generated patch, if any: the lists are sorted in one order and always walked by `strcmp`. */
  function GeneratePatch(cs: bool, before: Json, after: Json): Option<Json>
    decreases Size(before), 1
  {
    if !(before.Object? && after.Object?) then Some(after)
    else
      SizeSort(cs, before.members);
      var ms := GenerateMembers(cs, Sort(cs, before.members), Sort(cs, after.members));
      if ms == [] then None else Some(Object(ms))
  }

  function GenerateMembers(cs: bool, xs: Members, ys: Members): Members
    decreases SizeMembers(xs), |ys| + 3
  {
    if xs == [] && ys == [] then []
    else if KeyOrder(true, xs, ys) < 0 then
      [Member(xs[0].key, Null)] + GenerateMembers(cs, xs[1..], ys)
    else if KeyOrder(true, xs, ys) > 0 then
      [Member(ys[0].key, ys[0].value)] + GenerateMembers(cs, xs, ys[1..])
    else
      BothMember(cs, xs[0].value, ys[0]) + GenerateMembers(cs, xs[1..], ys[1..])
  }

  /** Both objects have the key. Nested patches are generated ignoring case. */
  function BothMember(cs: bool, x: Json, y: Member<Json>): Members
    decreases Size(x), 2
  {
    if Meaning(cs, x) == Meaning(cs, y.value) then []
    else
      match GeneratePatch(false, x, y.value)
      case None => []
      case Some(p) => [Member(y.key, p)]
  }

  /** What is still to be generated with the cursors at i and j. */
  function Remaining(cs: bool, xs: Members, ys: Members, i: nat, j: nat): Members
    requires i <= |xs| && j <= |ys|
  {
    GenerateMembers(cs, xs[i..], ys[j..])
  }

  lemma RemainingStep(cs: bool, xs: Members, ys: Members, i: nat, j: nat, diff: int)
    requires i <= |xs| && j <= |ys| && (i < |xs| || j < |ys|)
    requires diff == if i == |xs| then 1 else if j == |ys| then -1 else Compare(true, xs[i].key, ys[j].key)
    ensures Remaining(cs, xs, ys, i, j) ==
      if diff < 0 then [Member(xs[i].key, Null)] + Remaining(cs, xs, ys, i + 1, j)
      else if diff > 0 then [Member(ys[j].key, ys[j].value)] + Remaining(cs, xs, ys, i, j + 1)
      else BothMember(cs, xs[i].value, ys[j]) + Remaining(cs, xs, ys, i + 1, j + 1)
  {
    assert i < |xs| ==> xs[i..][1..] == xs[i + 1..];
    assert j < |ys| ==> ys[j..][1..] == ys[j + 1..];
  }

  lemma RemainingNone(cs: bool, xs: Members, ys: Members)
    ensures Remaining(cs, xs, ys, |xs|, |ys|) == []
  {
  }

  /** `generate_merge_patch`; with unambiguous keys `compare_json` decides equality. */
  method GenerateMergePatch(before: Json, after: Json, cs: bool) returns (r: Option<Json>)
    ensures UniqueAnyCase(before) && UniqueAnyCase(after) ==> r == GeneratePatch(cs, before, after)
    decreases Size(before), 1
  {
    hide Sort, BothMember, UniqueTree;
    ghost var unique := UniqueAnyCase(before) && UniqueAnyCase(after);
    if !before.Object? || !after.Object? {
      return Some(after);
    }
    var xs, ys := Sort(cs, before.members), Sort(cs, after.members);
    SizeSort(cs, before.members);
    if unique {
      SortAnyCase(cs, before.members);
      SortAnyCase(cs, after.members);
    }
    ghost var all := GenerateMembers(cs, xs, ys);
    assert xs[0..] == xs && ys[0..] == ys;
    var patch: Members := [];
    var i, j := 0, 0;
    hide GenerateMembers;
    while i < |xs| || j < |ys|
      invariant i <= |xs| && j <= |ys|
      invariant unique ==> all == patch + Remaining(cs, xs, ys, i, j)
      decreases |xs| - i + |ys| - j
    {
      ghost var sofar := patch;
      var next;
      next, i, j := GenerateNext(xs, ys, i, j, cs, Size(before));
      if unique { Regroup(sofar, next, Remaining(cs, xs, ys, i, j)); }
      patch := patch + next;
    }
    RemainingNone(cs, xs, ys);
    assert patch + [] == patch;
    r := if patch == [] then None else Some(Object(patch));
  }

  /** One round of its loop. */
  method GenerateNext(xs: Members, ys: Members, i: nat, j: nat, cs: bool, ghost size: nat)
    returns (next: Members, i': nat, j': nat)
    requires i <= |xs| && j <= |ys| && (i < |xs| || j < |ys|) && SizeMembers(xs) < size
    ensures i <= i' <= |xs| && j <= j' <= |ys| && i + j < i' + j'
    ensures (forall m :: m in xs ==> UniqueAnyCase(m.value)) && (forall m :: m in ys ==> UniqueAnyCase(m.value)) ==>
      Remaining(cs, xs, ys, i, j) == next + Remaining(cs, xs, ys, i', j')
    decreases size, 0
  {
    hide BothMember, UniqueTree, UniqueAnyCase, Remaining;
    var diff;
    if i == |xs| {
      diff := 1;
    } else if j == |ys| {
      diff := -1;
    } else {
      diff := CompareStrings(xs[i].key, ys[j].key, true);
    }
    RemainingStep(cs, xs, ys, i, j, diff);
    next, i', j' := [], i, j;
    if diff < 0 {
      next := [Member(xs[i].key, Null)];
      i' := i + 1;
    } else if diff > 0 {
      next := [Member(ys[j].key, ys[j].value)];
      j' := j + 1;
    } else {
      MemberSmaller(xs, i);
      next := GenerateMember(xs[i].value, ys[j], cs);
      i', j' := i + 1, j + 1;
    }
  }

  method GenerateMember(x: Json, y: Member<Json>, cs: bool) returns (r: Members)
    ensures UniqueAnyCase(x) && UniqueAnyCase(y.value) ==> r == BothMember(cs, x, y)
    decreases Size(x), 2
  {
    var identical, _, _ := SortWalkCompare(x, y.value, cs);
    r := [];
    if !identical {
      var p := GenerateMergePatch(x, y.value, false);
      if p.Some? {
        r := [Member(y.key, p.value)];
      }
    }
  }

  ghost predicate UniqueAnyCase(j: Json) {
    UniqueTree(true, j) && UniqueTree(false, j)
  }

  lemma SortAnyCase(cs: bool, ms: Members)
    requires UniqueAnyCase(Object(ms))
    ensures forall m :: m in Sort(cs, ms) ==> UniqueAnyCase(m.value)
  {
    forall m | m in Sort(cs, ms) ensures UniqueAnyCase(m.value) {
      SortMember(cs, ms, m);
    }
  }

  // ---------- keys both orders agree on

  /** All keys of all objects in the tree are from ks. */
  predicate Over(ks: set<Str>, j: Json)
    decreases j
  {
    match j
    case Array(items) => forall x | x in items :: Over(ks, x)
    case Object(ms) => forall m | m in ms :: m.key in ks && Over(ks, m.value)
    case _ => true
  }

  predicate OverMembers(ks: set<Str>, ms: Members) {
    forall m | m in ms :: m.key in ks && Over(ks, m.value)
  }

  /** Keys in the order of their bytes are in the same order in lower case; none are equal there. */
  predicate OrdersAgree(ks: set<Str>) {
    forall a, b | a in ks && b in ks :: StrCmp(a, b) < 0 ==> Compare(false, a, b) < 0
  }

  lemma OrderKept(ks: set<Str>, m: bool, a: Str, b: Str)
    requires OrdersAgree(ks) && a in ks && b in ks
    ensures Fold(m, a) == Fold(m, b) <==> a == b
    ensures Compare(m, a, b) < 0 <==> StrCmp(a, b) < 0
  {
    CompareOrder(true, a, b);
    CompareOrder(false, a, b);
  }

  predicate Clean(ks: set<Str>, j: Json) {
    Over(ks, j) && UniqueTree(true, j)
  }

  predicate CleanMembers(ks: set<Str>, ms: Members) {
    OverMembers(ks, ms) && UniqueMembers(true, ms)
  }

  /** No lookup in either mode is ambiguous. */
  lemma {:induction false} CleanUnique(ks: set<Str>, m: bool, j: Json)
    requires OrdersAgree(ks) && Clean(ks, j)
    ensures UniqueTree(m, j)
    decreases j, 0
  {
    match j {
      case Array(items) => forall x | x in items ensures UniqueTree(m, x) { CleanUnique(ks, m, x); }
      case Object(ms) => CleanMembersUnique(ks, m, ms);
      case _ =>
    }
  }

  lemma {:induction false} CleanMembersUnique(ks: set<Str>, m: bool, ms: Members)
    requires OrdersAgree(ks) && CleanMembers(ks, ms)
    ensures UniqueMembers(m, ms)
    decreases ms, 0
  {
    forall x | x in ms ensures UniqueTree(m, x.value) { CleanUnique(ks, m, x.value); }
    forall i, j | 0 <= i < j < |ms| ensures Fold(m, ms[i].key) != Fold(m, ms[j].key) {
      OrderKept(ks, m, ms[i].key, ms[j].key);
    }
  }

  // ---------- equality does not depend on the mode

  ghost predicate Paired(cs: bool, x: Member<Json>, ys: Members) {
    exists y :: y in ys && Fold(cs, x.key) == Fold(cs, y.key) && Meaning(cs, x.value) == Meaning(cs, y.value)
  }

  ghost predicate AllPaired(cs: bool, xs: Members, ys: Members) {
    forall x :: x in xs ==> Paired(cs, x, ys)
  }

  ghost predicate Submap(f: map<Str, Val>, g: map<Str, Val>) {
    forall k :: k in f ==> k in g && f[k] == g[k]
  }

  lemma FieldsPaired(cs: bool, xs: Members, ys: Members)
    requires UniqueKeys(cs, xs) && UniqueKeys(cs, ys)
    ensures Fields(cs, xs) == Fields(cs, ys) <==> AllPaired(cs, xs, ys) && AllPaired(cs, ys, xs)
  {
    SubsetPaired(cs, xs, ys);
    SubsetPaired(cs, ys, xs);
    hide AllPaired, Fields;
    var f, g := Fields(cs, xs), Fields(cs, ys);
    if Submap(f, g) && Submap(g, f) { assert f == g; }
  }

  lemma SubsetPaired(cs: bool, xs: Members, ys: Members)
    requires UniqueKeys(cs, xs) && UniqueKeys(cs, ys)
    ensures AllPaired(cs, xs, ys) <==> Submap(Fields(cs, xs), Fields(cs, ys))
  {
    hide Fields;
    var f, g := Fields(cs, xs), Fields(cs, ys);
    if AllPaired(cs, xs, ys) {
      forall k | k in f ensures k in g && f[k] == g[k] {
        FieldsPair(cs, xs, k, f[k]);
        FieldsPair(cs, ys, k, f[k]);
      }
    }
    if Submap(f, g) {
      forall x | x in xs ensures Paired(cs, x, ys) {
        FieldsPair(cs, xs, Fold(cs, x.key), Meaning(cs, x.value));
        FieldsPair(cs, ys, Fold(cs, x.key), Meaning(cs, x.value));
      }
    }
  }

  lemma {:induction false} SameInBoth(ks: set<Str>, m: bool, x: Json, y: Json)
    requires OrdersAgree(ks) && Clean(ks, x) && Clean(ks, y)
    ensures Meaning(m, x) == Meaning(m, y) <==> Meaning(true, x) == Meaning(true, y)
    decreases x, 1
  {
    if x.Array? && y.Array? {
      SameItems(ks, m, x.items, y.items);
    } else if x.Object? && y.Object? {
      CleanMembersUnique(ks, m, x.members);
      CleanMembersUnique(ks, m, y.members);
      FieldsPaired(m, x.members, y.members);
      FieldsPaired(true, x.members, y.members);
      forall a | a in x.members ensures Paired(m, a, y.members) <==> Paired(true, a, y.members) {
        SamePairs(ks, m, a, y.members);
      }
      forall b | b in y.members ensures Paired(m, b, x.members) <==> Paired(true, b, x.members) {
        SamePairsBack(ks, m, x.members, b);
      }
    }
  }

  lemma {:induction false} SameItems(ks: set<Str>, m: bool, xs: seq<Json>, ys: seq<Json>)
    requires OrdersAgree(ks) && (forall x | x in xs :: Clean(ks, x)) && (forall y | y in ys :: Clean(ks, y))
    ensures MeaningItems(m, xs) == MeaningItems(m, ys) <==> MeaningItems(true, xs) == MeaningItems(true, ys)
    decreases xs, 0
  {
    if |xs| == |ys| {
      forall i | 0 <= i < |xs|
        ensures MeaningItems(m, xs)[i] == MeaningItems(m, ys)[i] <==> MeaningItems(true, xs)[i] == MeaningItems(true, ys)[i]
      {
        MeaningItemsAt(m, xs, i);
        MeaningItemsAt(m, ys, i);
        MeaningItemsAt(true, xs, i);
        MeaningItemsAt(true, ys, i);
        SameInBoth(ks, m, xs[i], ys[i]);
      }
    }
  }

  lemma {:induction false} SamePairs(ks: set<Str>, m: bool, a: Member<Json>, ys: Members)
    requires OrdersAgree(ks) && CleanMembers(ks, ys) && a.key in ks && Clean(ks, a.value)
    ensures Paired(m, a, ys) <==> Paired(true, a, ys)
    decreases a.value, 2
  {
    forall y | y in ys
      ensures Fold(m, a.key) == Fold(m, y.key) <==> Fold(true, a.key) == Fold(true, y.key)
      ensures Meaning(m, a.value) == Meaning(m, y.value) <==> Meaning(true, a.value) == Meaning(true, y.value)
    {
      OrderKept(ks, m, a.key, y.key);
      SameInBoth(ks, m, a.value, y.value);
    }
  }

  lemma {:induction false} SamePairsBack(ks: set<Str>, m: bool, xs: Members, b: Member<Json>)
    requires OrdersAgree(ks) && CleanMembers(ks, xs) && b.key in ks && Clean(ks, b.value)
    ensures Paired(m, b, xs) <==> Paired(true, b, xs)
    decreases xs, 2
  {
    forall x | x in xs
      ensures Fold(m, b.key) == Fold(m, x.key) <==> Fold(true, b.key) == Fold(true, x.key)
      ensures Meaning(m, b.value) == Meaning(m, x.value) <==> Meaning(true, b.value) == Meaning(true, x.value)
    {
      OrderKept(ks, m, b.key, x.key);
      SameInBoth(ks, m, x.value, b.value);
    }
  }

  // ---------- the generated patch is the difference

  lemma SortClean(ks: set<Str>, cs: bool, m: bool, ms: Members)
    requires OrdersAgree(ks) && CleanMembers(ks, ms)
    ensures CleanMembers(ks, Sort(cs, ms)) && StrictlySorted(true, Sort(cs, ms))
    ensures Fields(m, Sort(cs, ms)) == Fields(m, ms)
  {
    var r := Sort(cs, ms);
    CleanMembersUnique(ks, cs, ms);
    SortStrict(cs, ms);
    forall x ensures x in r <==> x in ms { SortMember(cs, ms, x); }
    assert forall i :: 0 <= i < |r| ==> r[i] in ms;
    forall i, j | 0 <= i < j < |r| ensures Compare(true, r[i].key, r[j].key) < 0 {
      OrderKept(ks, cs, r[i].key, r[j].key);
    }
    StrictIsUnique(true, r);
    CleanMembersUnique(ks, m, r);
    CleanMembersUnique(ks, m, ms);
    FieldsSameMembers(m, r, ms);
  }

  lemma DiffStepFrom(f: map<Str, Val>, t: map<Str, Val>, k: Str, v: Val)
    requires k !in f && k !in t
    ensures DiffFields(f[k := v], t) == DiffFields(f, t)[k := VNull]
    ensures k !in DiffFields(f, t)
  {
    hide DiffVal;
  }

  lemma DiffStepTo(f: map<Str, Val>, t: map<Str, Val>, k: Str, w: Val)
    requires k !in f && k !in t
    ensures DiffFields(f, t[k := w]) == DiffFields(f, t)[k := w]
  {
    hide DiffVal;
  }

  lemma DiffStepBoth(f: map<Str, Val>, t: map<Str, Val>, k: Str, v: Val, w: Val)
    requires k !in f && k !in t
    ensures DiffFields(f[k := v], t[k := w]) == if v == w then DiffFields(f, t) else DiffFields(f, t)[k := DiffVal(v, w)]
  {
    hide DiffVal;
  }

  /** In mode m the patch, when there is one, means the difference; there is none exactly for two equal objects. */
  ghost predicate IsDifference(ks: set<Str>, m: bool, r: Option<Json>, before: Json, after: Json) {
    var b, a := Meaning(m, before), Meaning(m, after);
    && (r == None <==> before.Object? && after.Object? && a == b)
    && (r.Some? ==> Clean(ks, r.value) && Meaning(m, r.value) == DiffVal(b, a))
  }

  /** In both modes, whichever mode it was generated in. */
  lemma {:induction false} GeneratesDifference(ks: set<Str>, m: bool, cs: bool, before: Json, after: Json)
    requires OrdersAgree(ks) && Clean(ks, before) && Clean(ks, after)
    ensures IsDifference(ks, m, GeneratePatch(cs, before, after), before, after)
    decreases Size(before), 1
  {
    hide Fields, DiffFields, GenerateMembers, Sort, OrdersAgree;
    if before.Object? && after.Object? {
      var xs, ys := Sort(cs, before.members), Sort(cs, after.members);
      SizeSort(cs, before.members);
      SortClean(ks, cs, m, before.members);
      SortClean(ks, cs, m, after.members);
      GeneratesMembers(ks, m, cs, xs, ys);
      DiffEmpty(Fields(m, xs), Fields(m, ys));
    }
  }

  ghost predicate Walk(ks: set<Str>, xs: Members, ys: Members) {
    OrdersAgree(ks) && CleanMembers(ks, xs) && CleanMembers(ks, ys) && StrictlySorted(true, xs) && StrictlySorted(true, ys)
  }

  ghost predicate AreDifference(ks: set<Str>, m: bool, r: Members, xs: Members, ys: Members) {
    && CleanMembers(ks, r) && Fields(m, r) == DiffFields(Fields(m, xs), Fields(m, ys))
    && (r == [] <==> Fields(m, r) == map[])
  }

  lemma NoDifference(ks: set<Str>, m: bool)
    ensures AreDifference(ks, m, [], [], [])
  {
  }

  lemma WalkOn(ks: set<Str>, xs: Members, ys: Members)
    requires Walk(ks, xs, ys)
    ensures xs != [] ==> Walk(ks, xs[1..], ys) && OrdersAgree(ks) && Clean(ks, xs[0].value)
    ensures ys != [] ==> Walk(ks, xs, ys[1..]) && Clean(ks, ys[0].value)
    ensures xs != [] && ys != [] ==> Walk(ks, xs[1..], ys[1..])
  {
  }

  lemma {:induction false} GeneratesMembers(ks: set<Str>, m: bool, cs: bool, xs: Members, ys: Members)
    requires Walk(ks, xs, ys)
    ensures AreDifference(ks, m, GenerateMembers(cs, xs, ys), xs, ys)
    decreases SizeMembers(xs), |ys| + 3
  {
    hide AreDifference, IsChange, Walk;
    if xs == [] && ys == [] {
      NoDifference(ks, m);
    } else {
      WalkOn(ks, xs, ys);
      var order := KeyOrder(true, xs, ys);
      if order < 0 {
        GeneratesMembers(ks, m, cs, xs[1..], ys);
        RemovedMember(ks, m, xs, ys, GenerateMembers(cs, xs[1..], ys));
      } else if order > 0 {
        GeneratesMembers(ks, m, cs, xs, ys[1..]);
        AddedMember(ks, m, xs, ys, GenerateMembers(cs, xs, ys[1..]));
      } else {
        GeneratesMembers(ks, m, cs, xs[1..], ys[1..]);
        GeneratesBoth(ks, m, cs, xs[0].value, ys[0]);
        ChangedMember(ks, m, xs, ys, BothMember(cs, xs[0].value, ys[0]), GenerateMembers(cs, xs[1..], ys[1..]));
      }
    }
  }

  /** A key that comes strictly before all of a list is not in it, in either mode. */
  lemma NotThere(ks: set<Str>, m: bool, k: Str, ms: Members)
    requires OrdersAgree(ks) && OverMembers(ks, ms) && k in ks && k !in Fields(true, ms)
    ensures Fold(m, k) !in Fields(m, ms)
  {
    FieldsDomain(true, ms, k);
    FieldsDomain(m, ms, Fold(m, k));
    forall i | 0 <= i < |ms| ensures Fold(m, ms[i].key) != Fold(m, k) {
      OrderKept(ks, m, k, ms[i].key);
    }
  }

  lemma Head(ks: set<Str>, m: bool, ms: Members)
    requires OrdersAgree(ks) && CleanMembers(ks, ms) && ms != []
    ensures Fields(m, ms) == Fields(m, ms[1..])[Fold(m, ms[0].key) := Meaning(m, ms[0].value)]
    ensures Fold(m, ms[0].key) !in Fields(m, ms[1..]) && CleanMembers(ks, ms[1..])
    ensures ms[0].key in ks && Clean(ks, ms[0].value)
  {
    CleanMembersUnique(ks, m, ms);
    HeadField(m, ms);
  }

  lemma RemovedMember(ks: set<Str>, m: bool, xs: Members, ys: Members, rest: Members)
    requires Walk(ks, xs, ys) && xs != [] && KeyOrder(true, xs, ys) < 0 && AreDifference(ks, m, rest, xs[1..], ys)
    ensures AreDifference(ks, m, [Member(xs[0].key, Null)] + rest, xs, ys)
  {
    var k := xs[0].key;
    FirstKeyMissing(true, k, ys);
    NotThere(ks, m, k, ys);
    Head(ks, m, xs);
    DiffStepFrom(Fields(m, xs[1..]), Fields(m, ys), Fold(m, k), Meaning(m, xs[0].value));
    hide Fields, DiffFields, Clean, OrdersAgree;
    ConsField(ks, m, k, Null, rest);
  }

  lemma AddedMember(ks: set<Str>, m: bool, xs: Members, ys: Members, rest: Members)
    requires Walk(ks, xs, ys) && ys != [] && KeyOrder(true, xs, ys) > 0 && AreDifference(ks, m, rest, xs, ys[1..])
    ensures AreDifference(ks, m, [Member(ys[0].key, ys[0].value)] + rest, xs, ys)
  {
    var k := ys[0].key;
    if xs != [] { CompareOrder(true, xs[0].key, k); }
    FirstKeyMissing(true, k, xs);
    NotThere(ks, m, k, xs);
    Head(ks, m, ys);
    DiffStepFrom(Fields(m, xs), Fields(m, ys[1..]), Fold(m, k), VNull);
    DiffStepTo(Fields(m, xs), Fields(m, ys[1..]), Fold(m, k), Meaning(m, ys[0].value));
    hide Fields, DiffFields, Clean, OrdersAgree;
    ConsField(ks, m, k, ys[0].value, rest);
  }

  /** What `BothMember` has to contribute for a key of both objects. */
  ghost predicate IsChange(ks: set<Str>, m: bool, r: Members, x: Json, y: Member<Json>) {
    var b, a := Meaning(m, x), Meaning(m, y.value);
    if b == a then r == []
    else |r| == 1 && r[0].key == y.key && Clean(ks, r[0].value) && Meaning(m, r[0].value) == DiffVal(b, a)
  }

  lemma ChangedMember(ks: set<Str>, m: bool, xs: Members, ys: Members, change: Members, rest: Members)
    requires Walk(ks, xs, ys) && xs != [] && ys != [] && KeyOrder(true, xs, ys) == 0
    requires AreDifference(ks, m, rest, xs[1..], ys[1..]) && IsChange(ks, m, change, xs[0].value, ys[0])
    ensures AreDifference(ks, m, change + rest, xs, ys)
  {
    var k := ys[0].key;
    CompareOrder(true, xs[0].key, k);
    Head(ks, m, xs);
    Head(ks, m, ys);
    var f, t := Fields(m, xs[1..]), Fields(m, ys[1..]);
    DiffStepFrom(f, t, Fold(m, k), VNull);
    DiffStepBoth(f, t, Fold(m, k), Meaning(m, xs[0].value), Meaning(m, ys[0].value));
    hide Fields, DiffFields, Clean, OrdersAgree;
    if change == [] {
      assert change + rest == rest;
    } else {
      ConsField(ks, m, k, change[0].value, rest);
      assert change == [Member(k, change[0].value)];
    }
  }

  lemma {:induction false} GeneratesBoth(ks: set<Str>, m: bool, cs: bool, x: Json, y: Member<Json>)
    requires OrdersAgree(ks) && Clean(ks, x) && Clean(ks, y.value)
    ensures IsChange(ks, m, BothMember(cs, x, y), x, y)
    decreases Size(x), 2
  {
    SameInBoth(ks, m, x, y.value);
    SameInBoth(ks, cs, x, y.value);
    GeneratesDifference(ks, m, false, x, y.value);
  }

  lemma ConsField(ks: set<Str>, m: bool, k: Str, v: Json, ms: Members)
    requires OrdersAgree(ks) && CleanMembers(ks, ms) && Fold(m, k) !in Fields(m, ms) && Clean(ks, v) && k in ks
    ensures CleanMembers(ks, [Member(k, v)] + ms)
    ensures Fields(m, [Member(k, v)] + ms) == Fields(m, ms)[Fold(m, k) := Meaning(m, v)]
  {
    FieldsDomain(m, ms, Fold(m, k));
    forall x | x in ms ensures Fold(true, k) != Fold(true, x.key) {
      var i :| 0 <= i < |ms| && ms[i] == x;
      OrderKept(ks, m, k, x.key);
    }
    UniqueCons(true, Member(k, v), ms);
    assert ([Member(k, v)] + ms)[1..] == ms;
  }

  // ---------- when merging the generated patch works

  /** Merging the generated patch, if there is one, turns `before` into a tree equal to `after`. */
  predicate Reproduces(cs: bool, before: Json, after: Json) {
    match GeneratePatch(cs, before, after)
    case None => Meaning(cs, before) == Meaning(cs, after)
    case Some(p) => Meaning(cs, Merged(cs, Some(before), p)) == Meaning(cs, after)
  }

  /**
   * Over keys both orders agree on, merging the generated patch works exactly when no null member has to be put in
   * place, and there is no patch exactly for two equal objects.
   */
  lemma GeneratedPatchMerges(ks: set<Str>, cs: bool, before: Json, after: Json)
    requires OrdersAgree(ks) && Clean(ks, before) && Clean(ks, after)
    ensures Reproduces(cs, before, after) <==> Expressible(Meaning(cs, before), Meaning(cs, after))
    ensures GeneratePatch(cs, before, after) == None
      <==> before.Object? && after.Object? && Meaning(cs, before) == Meaning(cs, after)
  {
    var b, a := Meaning(cs, before), Meaning(cs, after);
    GeneratesDifference(ks, cs, cs, before, after);
    CleanUnique(ks, cs, before);
    DiffMerges(b, a);
    match GeneratePatch(cs, before, after) {
      case None => EqualIsExpressible(a);
      case Some(p) =>
        CleanUnique(ks, cs, p);
        MergedMeans(cs, Some(before), p);
    }
  }

  lemma EqualIsExpressible(v: Val)
    ensures Expressible(v, v)
  {
  }

  /** Two unambiguous trees over ks, the second without null members. */
  ghost predicate Within(ks: set<Str>, cs: bool, before: Json, after: Json) {
    Over(ks, before) && Over(ks, after) && UniqueAnyCase(before) && UniqueAnyCase(after)
    && NoNullMember(Meaning(cs, after))
  }

  /** What generating promises over a key set. */
  ghost predicate Promised(ks: set<Str>, cs: bool) {
    forall before, after :: Within(ks, cs, before, after) ==> Reproduces(cs, before, after)
  }

  // ---------- keys on which the orders disagree

  function One(k: Str, v: Json): Json {
    Object([Member(k, v)])
  }

  /** The members in the order of the folded keys. */
  function Two(a: Str, b: Str): Json {
    Object([Member(b, Number(1)), Member(a, Number(2))])
  }

  /** a is set, and in the end removed. */
  function SwapPatch(a: Str, b: Str): Json {
    Object([Member(a, Number(2)), Member(b, Null), Member(a, Null)])
  }

  lemma KeysAgree(cs: bool, a: Str, b: Str)
    requires StrCmp(a, b) < 0 < Compare(false, a, b)
    ensures Fold(cs, a) != Fold(cs, b) && Fold(cs, b) != Fold(cs, a)
    ensures Compare(false, b, a) < 0 < Compare(true, b, a) && Compare(true, a, a) == 0
  {
    CompareOrder(true, a, b);
    CompareOrder(false, a, b);
    CompareOrder(cs, a, b);
    CompareOrder(true, a, a);
  }

  /** From {b: 1, a: 2} to {a: 2}, when a comes first by its bytes and b first in lower case. */
  lemma SwapGenerates(a: Str, b: Str)
    requires StrCmp(a, b) < 0 < Compare(false, a, b)
    ensures GeneratePatch(false, Two(a, b), One(a, Number(2))) == Some(SwapPatch(a, b))
  {
    KeysAgree(false, a, b);
    var x, y := Member(b, Number(1)), Member(a, Number(2));
    assert AlreadySorted(false, [x, y]);
    assert Sort(false, [x, y]) == [x, y] && Sort(false, [y]) == [y];
    assert [x, y][1..] == [y] && [y][1..] == [];
    assert GenerateMembers(false, [y], []) == [Member(a, Null)];
    assert GenerateMembers(false, [x, y], []) == [Member(b, Null), Member(a, Null)];
    assert KeyOrder(true, [x, y], [y]) > 0;
    assert GenerateMembers(false, [x, y], [y]) == [y] + GenerateMembers(false, [x, y], []);
    SizeSort(false, [x, y]);
    assert GenerateMembers(false, [x, y], [y]) == [y, Member(b, Null), Member(a, Null)];
  }

  /** Merging it leaves the empty object. */
  lemma SwapMerges(cs: bool, a: Str, b: Str)
    requires StrCmp(a, b) < 0 < Compare(false, a, b)
    ensures Merged(cs, Some(Two(a, b)), SwapPatch(a, b)) == Object([])
  {
    KeysAgree(cs, a, b);
    var x, y := Member(b, Number(1)), Member(a, Number(2));
    var patch := SwapPatch(a, b).members;
    assert patch[1..] == [Member(b, Null), Member(a, Null)] && patch[1..][1..] == [Member(a, Null)];
    assert [Member(a, Null)][1..] == [];
    assert IndexOfKey(cs, [x, y], a) == 1 by { assert [x, y][1..] == [y]; }
    assert WithoutKey(cs, [x, y], a) == [x];
    assert MergedMember(cs, [x, y], a, Number(2)) == [x, y];
    assert WithoutKey(cs, [x, y], b) == [y];
    assert WithoutKey(cs, [y], a) == [];
    assert MergedMembers(cs, [y], [Member(a, Null)]) == [];
    assert MergedMembers(cs, [x, y], patch[1..]) == [];
  }

  lemma OneMeans(cs: bool, k: Str, v: Json)
    ensures Meaning(cs, One(k, v)) == VObject(map[Fold(cs, k) := Meaning(cs, v)])
    ensures Meaning(cs, Object([])) == VObject(map[])
    ensures Meaning(cs, One(k, v)).fields[Fold(cs, k)] == Meaning(cs, v)
  {
    var ms := [Member(k, v)];
    assert ms[1..] == [] && Fields(cs, ms[1..]) == map[];
    assert One(k, v).members == ms;
  }

  /** Two objects with one member each under the same key. */
  lemma OneGenerates(cs: bool, k: Str, x: Json, y: Json)
    ensures GeneratePatch(cs, One(k, x), One(k, y)) ==
      if Meaning(cs, x) == Meaning(cs, y) then None
      else match GeneratePatch(false, x, y) case None => None case Some(p) => Some(One(k, p))
  {
    var xs, ys := [Member(k, x)], [Member(k, y)];
    assert xs[1..] == [] && ys[1..] == [];
    assert Sort(cs, xs) == xs && Sort(cs, ys) == ys;
    CompareOrder(true, k, k);
    SizeSort(cs, xs);
    assert GenerateMembers(cs, [], []) == [];
    assert GenerateMembers(cs, xs, ys) == BothMember(cs, x, ys[0]) + GenerateMembers(cs, xs[1..], ys[1..]);
    var both := BothMember(cs, x, ys[0]);
    assert both + [] == both;
    assert One(k, x).members == xs && One(k, y).members == ys;
    assert GeneratePatch(cs, One(k, x), One(k, y)) == if both == [] then None else Some(Object(both));
  }

  lemma OneMerges(cs: bool, k: Str, x: Json, p: Json)
    requires !p.Null?
    ensures Merged(cs, Some(One(k, x)), One(k, p)) == One(k, Merged(cs, Some(x), p))
  {
    var ms, pm := [Member(k, x)], [Member(k, p)];
    assert pm[1..] == [];
    assert IndexOfKey(cs, ms, k) == 0 && WithoutKey(cs, ms, k) == [];
    assert MergedMember(cs, ms, k, p) == [Member(k, Merged(cs, Some(x), p))];
    assert MergedMembers(cs, ms, pm) == MergedMembers(cs, MergedMember(cs, ms, k, p), pm[1..]);
    assert One(k, x).members == ms && One(k, p).members == pm;
  }

  lemma OneWithin(ks: set<Str>, k: Str, v: Json)
    requires k in ks && Over(ks, v) && UniqueAnyCase(v)
    ensures Over(ks, One(k, v)) && UniqueAnyCase(One(k, v))
  {
  }

  lemma OneNoNull(cs: bool, k: Str, v: Json)
    requires !v.Null? && NoNullMember(Meaning(cs, v))
    ensures NoNullMember(Meaning(cs, One(k, v))) && !One(k, v).Null?
  {
    OneMeans(cs, k, v);
  }

  /** A member set first and removed at last. */
  lemma SwapBreaks(ks: set<Str>, cs: bool, a: Str, b: Str)
    requires a in ks && b in ks && StrCmp(a, b) < 0 < Compare(false, a, b)
    ensures exists before, after :: Within(ks, cs, before, after) && !Reproduces(cs, before, after)
  {
    var before, after := Two(a, b), One(a, Number(2));
    KeysAgree(false, a, b);
    KeysAgree(true, a, b);
    SwapGenerates(a, b);
    SwapMerges(cs, a, b);
    OneMeans(cs, a, Number(2));
    OneWithin(ks, a, Number(2));
    OneNoNull(cs, a, Number(2));
    TwoWithin(ks, a, b);
    hide Merged, GeneratePatch, UniqueTree, Over, Fields;
    if !cs {
      assert Within(ks, cs, before, after) && !Reproduces(cs, before, after);
    } else {
      OneWithin(ks, a, before);
      OneWithin(ks, a, after);
      OneNoNull(cs, a, after);
      TwoDiffers(cs, a, b);
      OneGenerates(cs, a, before, after);
      OneMerges(cs, a, before, SwapPatch(a, b));
      OneMeans(cs, a, after);
      OneMeans(cs, a, Object([]));
      assert Within(ks, cs, One(a, before), One(a, after)) && !Reproduces(cs, One(a, before), One(a, after));
    }
  }

  lemma TwoWithin(ks: set<Str>, a: Str, b: Str)
    requires a in ks && b in ks && StrCmp(a, b) < 0 < Compare(false, a, b)
    ensures Over(ks, Two(a, b)) && UniqueAnyCase(Two(a, b))
  {
    KeysAgree(false, a, b);
    KeysAgree(true, a, b);
    var ms := Two(a, b).members;
    assert ms[0].key == b && ms[1].key == a;
    assert UniqueKeys(true, ms) && UniqueKeys(false, ms);
  }

  lemma TwoDiffers(cs: bool, a: Str, b: Str)
    requires StrCmp(a, b) < 0 < Compare(false, a, b)
    ensures Meaning(cs, Two(a, b)) != Meaning(cs, One(a, Number(2)))
  {
    KeysAgree(cs, a, b);
    OneMeans(cs, a, Number(2));
    FieldsDomain(cs, Two(a, b).members, Fold(cs, b));
    assert Two(a, b).members[0].key == b;
  }

  /** Two keys equal in lower case, the larger one first: the smaller is set and the larger removed. */
  lemma TieGenerates(a: Str, b: Str)
    requires StrCmp(a, b) < 0 == Compare(false, a, b)
    ensures GeneratePatch(false, One(b, Number(1)), One(a, Number(1))) == Some(Object([Member(a, Number(1)), Member(b, Null)]))
  {
    CompareOrder(true, a, b);
    var xs, ys := [Member(b, Number(1))], [Member(a, Number(1))];
    assert xs[1..] == [] && ys[1..] == [];
    assert Sort(false, xs) == xs && Sort(false, ys) == ys;
    SizeSort(false, xs);
    assert GenerateMembers(false, xs, []) == [Member(b, Null)];
    assert GenerateMembers(false, xs, ys) == [ys[0]] + GenerateMembers(false, xs, []);
    assert One(b, Number(1)).members == xs && One(a, Number(1)).members == ys;
    assert GenerateMembers(false, xs, ys) == [Member(a, Number(1)), Member(b, Null)];
  }

  lemma TieMerges(a: Str, b: Str)
    requires StrCmp(a, b) < 0 == Compare(false, a, b)
    ensures Merged(false, Some(One(b, Number(1))), Object([Member(a, Number(1)), Member(b, Null)])) == Object([])
  {
    CompareOrder(false, a, b);
    var xs, ys, patch := [Member(b, Number(1))], [Member(a, Number(1))], [Member(a, Number(1)), Member(b, Null)];
    assert patch[1..] == [Member(b, Null)] && [Member(b, Null)][1..] == [];
    assert WithoutKey(false, xs, a) == [] && WithoutKey(false, ys, b) == [];
    assert MergedMember(false, xs, a, Number(1)) == ys;
    assert MergedMembers(false, ys, patch[1..]) == [];
    assert One(b, Number(1)).members == xs;
  }

  /** Below the top two such keys are taken for one, also by the case-sensitive call. */
  lemma TieHidden(a: Str, b: Str)
    requires StrCmp(a, b) < 0 == Compare(false, a, b)
    ensures !Reproduces(true, One(a, One(a, One(a, Number(1)))), One(a, One(a, One(b, Number(1)))))
  {
    CompareOrder(true, a, b);
    CompareOrder(false, a, b);
    var x, y := One(a, Number(1)), One(b, Number(1));
    hide GeneratePatch, Fields;
    OneMeans(false, a, Number(1));
    OneMeans(false, b, Number(1));
    OneMeans(true, a, Number(1));
    OneMeans(true, b, Number(1));
    assert Fold(true, a) !in Meaning(true, y).fields;
    OneGenerates(false, a, x, y);
    OneMeans(true, a, x);
    OneMeans(true, a, y);
    OneGenerates(true, a, One(a, x), One(a, y));
    OneMeans(true, a, One(a, x));
    OneMeans(true, a, One(a, y));
  }

  lemma TieFails(a: Str, b: Str)
    requires StrCmp(a, b) < 0 == Compare(false, a, b)
    ensures !Reproduces(false, One(b, Number(1)), One(a, Number(1)))
  {
    TieGenerates(a, b);
    TieMerges(a, b);
    OneMeans(false, a, Number(1));
    hide GeneratePatch, Merged, Fields;
  }

  lemma TieBreaks(ks: set<Str>, cs: bool, a: Str, b: Str)
    requires a in ks && b in ks && StrCmp(a, b) < 0 == Compare(false, a, b)
    ensures exists before, after :: Within(ks, cs, before, after) && !Reproduces(cs, before, after)
  {
    hide Reproduces;
    OneWithin(ks, a, Number(1));
    OneWithin(ks, b, Number(1));
    OneNoNull(cs, a, Number(1));
    OneNoNull(cs, b, Number(1));
    if !cs {
      TieFails(a, b);
      assert Within(ks, cs, One(b, Number(1)), One(a, Number(1)));
    } else {
      var x, y := One(a, Number(1)), One(b, Number(1));
      hide Over, UniqueTree, One, Fields;
      OneWithin(ks, a, x);
      OneWithin(ks, a, y);
      OneWithin(ks, a, One(a, x));
      OneWithin(ks, a, One(a, y));
      OneNoNull(cs, a, y);
      OneNoNull(cs, a, One(a, y));
      TieHidden(a, b);
      assert Within(ks, cs, One(a, One(a, x)), One(a, One(a, y)));
    }
  }

  /** It is kept exactly for the key sets on which the order sorted by and the order walked by agree. */
  lemma PromiseExact(ks: set<Str>, cs: bool)
    ensures Promised(ks, cs) <==> OrdersAgree(ks)
  {
    if OrdersAgree(ks) {
      forall before, after | Within(ks, cs, before, after)
        ensures Reproduces(cs, before, after)
      {
        GeneratedPatchMerges(ks, cs, before, after);
        NoNullIsExpressible(Meaning(cs, before), Meaning(cs, after));
      }
    } else {
      var a, b :| a in ks && b in ks && StrCmp(a, b) < 0 && Compare(false, a, b) >= 0;
      hide Reproduces, Within;
      if Compare(false, a, b) > 0 { SwapBreaks(ks, cs, a, b); } else { TieBreaks(ks, cs, a, b); }
    }
  }

  /**
   * Mixed cases: from {"a": 1, "B": 2} to {"B": 2}, ignoring case, the patch sets B and in the end removes it, so
   * that merging it leaves nothing.
   */
  lemma MixedCaseExample()
    ensures var before, after, patch := Two([66], [97]), One([66], Number(2)), SwapPatch([66], [97]);
      GeneratePatch(false, before, after) == Some(patch) && Merged(false, Some(before), patch) == Object([])
      && !Reproduces(false, before, after)
  {
    var upperB: Str, lowerA: Str := [66], [97];
    assert Lower(lowerA) == [97] && Lower(upperB) == [98];
    assert StrCmp(upperB, lowerA) == -31 && StrCmp([98], [97]) == 1;
    SwapGenerates(upperB, lowerA);
    SwapMerges(false, upperB, lowerA);
    OneMeans(false, upperB, Number(2));
  }
}
