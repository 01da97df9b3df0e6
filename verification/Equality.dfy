/** The two equality algorithms: sort-then-walk `compare_json` and double-lookup `cJSON_Compare`. */
module Equality {
  import opened Text
  import opened Json
  import opened Sorting
  import opened Trees

  function Size(j: Json): (n: nat)
    ensures n >= 1
    decreases j
  {
    match j
    case Array(items) => 1 + SizeItems(items)
    case Object(ms) => 1 + SizeMembers(ms)
    case _ => 1
  }

  function SizeItems(items: seq<Json>): nat
    decreases items
  {
    if items == [] then 0 else Size(items[0]) + SizeItems(items[1..])
  }

  function SizeMembers(ms: Members): nat
    decreases ms
  {
    if ms == [] then 0 else Size(ms[0].value) + SizeMembers(ms[1..])
  }

  lemma {:induction false} ItemSmaller(items: seq<Json>, i: nat)
    requires i < |items|
    ensures Size(items[i]) <= SizeItems(items)
  {
    if i > 0 { ItemSmaller(items[1..], i - 1); }
  }

  lemma {:induction false} MemberSmaller(ms: Members, i: nat)
    requires i < |ms|
    ensures Size(ms[i].value) <= SizeMembers(ms)
  {
    if i > 0 { MemberSmaller(ms[1..], i - 1); }
  }

  lemma {:induction false} SizeUpdate(ms: Members, i: nat, m: Member<Json>)
    requires i < |ms|
    ensures SizeMembers(ms[i := m]) == SizeMembers(ms) - Size(ms[i].value) + Size(m.value)
  {
    var r := ms[i := m];
    if i > 0 {
      SizeUpdate(ms[1..], i - 1, m);
      assert r[1..] == ms[1..][i - 1 := m];
    } else {
      assert r[1..] == ms[1..];
    }
  }

  lemma {:induction false} SizeMembersConcat(xs: Members, ys: Members)
    ensures SizeMembers(xs + ys) == SizeMembers(xs) + SizeMembers(ys)
  {
    if xs == [] {
      assert xs + ys == ys;
    } else {
      assert (xs + ys)[1..] == xs[1..] + ys;
      SizeMembersConcat(xs[1..], ys);
    }
  }

  lemma SizeSplit(ms: Members, h: nat)
    requires h <= |ms|
    ensures SizeMembers(ms) == SizeMembers(ms[..h]) + SizeMembers(ms[h..])
  {
    SizeMembersConcat(ms[..h], ms[h..]);
    assert ms == ms[..h] + ms[h..];
  }

  lemma {:induction false} SizeMerge(cs: bool, xs: Members, ys: Members)
    ensures SizeMembers(Merge(cs, xs, ys)) == SizeMembers(xs) + SizeMembers(ys)
  {
    if xs != [] && ys != [] {
      if Compare(cs, xs[0].key, ys[0].key) < 0 {
        SizeMerge(cs, xs[1..], ys);
      } else {
        SizeMerge(cs, xs, ys[1..]);
      }
    }
  }

  lemma {:induction false} SizeSort(cs: bool, ms: Members)
    ensures SizeMembers(Sort(cs, ms)) == SizeMembers(ms)
    decreases |ms|
  {
    if |ms| > 1 && !AlreadySorted(cs, ms) {
      var h := Half(|ms|);
      SizeSort(cs, ms[..h]);
      SizeSort(cs, ms[h..]);
      SizeMerge(cs, Sort(cs, ms[..h]), Sort(cs, ms[h..]));
      SizeSplit(ms, h);
    }
  }

  ghost predicate CoveredBy(cs: bool, xs: Members, n: nat, fields: map<Str, Val>)
    requires n <= |xs|
  {
    forall k :: 0 <= k < n ==>
      Fold(cs, xs[k].key) in fields && fields[Fold(cs, xs[k].key)] == Meaning(cs, xs[k].value)
  }

  lemma MutualCover(cs: bool, xs: Members, ys: Members)
    requires UniqueKeys(cs, xs) && UniqueKeys(cs, ys)
    requires CoveredBy(cs, xs, |xs|, Fields(cs, ys)) && CoveredBy(cs, ys, |ys|, Fields(cs, xs))
    ensures Fields(cs, xs) == Fields(cs, ys)
  {
    forall k
      ensures k in Fields(cs, xs) <==> k in Fields(cs, ys)
      ensures k in Fields(cs, xs) ==> Fields(cs, xs)[k] == Fields(cs, ys)[k]
    {
      FieldsDomain(cs, xs, k);
      FieldsDomain(cs, ys, k);
      if k in Fields(cs, xs) {
        var i :| 0 <= i < |xs| && Fold(cs, xs[i].key) == k;
        FieldsAt(cs, xs, i);
      }
    }
  }

  ghost predicate UniqueItems(cs: bool, items: seq<Json>) {
    forall x | x in items :: UniqueTree(cs, x)
  }

  /** `cJSON_Compare`: look every member up on the other side, both ways round. */
  method DoubleLookupCompare(a: Json, b: Json, cs: bool) returns (r: bool)
    ensures UniqueTree(cs, a) && UniqueTree(cs, b) ==> r == (Meaning(cs, a) == Meaning(cs, b))
    decreases Size(a) + Size(b), 1
  {
    match a {
      case Array(xs) =>
        if b.Array? { r := CompareItems(xs, b.items, cs); } else { r := false; }
      case Object(xs) =>
        if !b.Object? { return false; }
        r := LookupAll(xs, b.members, cs);
        if r {
          r := LookupAll(b.members, xs, cs);
        }
        if r && UniqueMembers(cs, xs) && UniqueMembers(cs, b.members) {
          MutualCover(cs, xs, b.members);
        }
      case _ => r := a == b;
    }
  }

  method CompareItems(xs: seq<Json>, ys: seq<Json>, cs: bool) returns (r: bool)
    ensures UniqueItems(cs, xs) && UniqueItems(cs, ys) ==>
      r == (MeaningItems(cs, xs) == MeaningItems(cs, ys))
    decreases SizeItems(xs) + SizeItems(ys) + 1, 0
  {
    var i := 0;
    while i < |xs| && i < |ys|
      invariant i <= |xs| && i <= |ys|
      invariant UniqueItems(cs, xs) && UniqueItems(cs, ys) ==>
        forall k :: 0 <= k < i ==> MeaningItems(cs, xs)[k] == MeaningItems(cs, ys)[k]
    {
      ItemSmaller(xs, i);
      ItemSmaller(ys, i);
      MeaningItemsAt(cs, xs, i);
      MeaningItemsAt(cs, ys, i);
      var identical := DoubleLookupCompare(xs[i], ys[i], cs);
      if !identical {
        return false;
      }
      i := i + 1;
    }
    return i == |xs| && i == |ys|;
  }

  /** One of the two passes: every member of `xs` has an equal member under its key in `ys`. */
  method LookupAll(xs: Members, ys: Members, cs: bool) returns (r: bool)
    ensures UniqueMembers(cs, xs) && UniqueMembers(cs, ys) ==>
      if r then CoveredBy(cs, xs, |xs|, Fields(cs, ys)) else Fields(cs, xs) != Fields(cs, ys)
    decreases SizeMembers(xs) + SizeMembers(ys) + 1, 0
  {
    ghost var unique := UniqueMembers(cs, xs) && UniqueMembers(cs, ys);
    var i := 0;
    while i < |xs|
      invariant i <= |xs|
      invariant unique ==> CoveredBy(cs, xs, i, Fields(cs, ys))
    {
      var j := GetObjectItem(ys, xs[i].key, cs);
      if unique {
        FieldsAt(cs, xs, i);
        LookupIsField(cs, ys, xs[i].key);
      }
      if j == |ys| {
        return false;
      }
      MemberSmaller(xs, i);
      MemberSmaller(ys, j);
      var identical := DoubleLookupCompare(xs[i].value, ys[j].value, cs);
      if !identical {
        return false;
      }
      i := i + 1;
    }
    return true;
  }

  /** How a child list may change while `compare_json` walks it: reordered, but meaning the same. */
  ghost predicate Reordered(cs: bool, before: Members, after: Members) {
    && SizeMembers(after) == SizeMembers(before)
    && (UniqueMembers(cs, before) ==>
      UniqueMembers(cs, after) && StrictlySorted(cs, after) && Fields(cs, after) == Fields(cs, before))
  }

  ghost predicate ReorderedItems(cs: bool, before: seq<Json>, after: seq<Json>) {
    && |after| == |before|
    && SizeItems(after) == SizeItems(before)
    && (UniqueItems(cs, before) ==>
      UniqueItems(cs, after) && MeaningItems(cs, after) == MeaningItems(cs, before))
  }

  ghost predicate ReorderedTree(cs: bool, before: Json, after: Json) {
    && Size(after) == Size(before)
    && (UniqueTree(cs, before) ==> UniqueTree(cs, after) && Meaning(cs, after) == Meaning(cs, before))
  }

  lemma SortReorders(cs: bool, ms: Members)
    ensures Reordered(cs, ms, Sort(cs, ms))
  {
    SizeSort(cs, ms);
    if UniqueMembers(cs, ms) {
      SortKeepsFields(cs, ms);
      SortStrict(cs, ms);
    }
  }

  lemma ReorderMember(cs: bool, before: Members, after: Members, i: nat, v: Json)
    requires Reordered(cs, before, after) && i < |after| && ReorderedTree(cs, after[i].value, v)
    ensures Reordered(cs, before, after[i := Member(after[i].key, v)])
  {
    hide Fields, Size, SizeMembers, UniqueTree, UniqueKeys, StrictlySorted;
    var m := Member(after[i].key, v);
    SizeUpdate(after, i, m);
    UpdateKeepsKeys(cs, after, i, v);
    if UniqueMembers(cs, before) {
      FieldsUpdate(cs, after, i, v);
      FieldsAt(cs, after, i);
      MemberUpdated(after, i, m);
    }
  }

  lemma MemberUpdated(ms: Members, i: nat, m: Member<Json>)
    requires i < |ms|
    ensures forall x :: x in ms[i := m] ==> x in ms || x == m
  {
  }

  lemma {:induction false} SizeItemsUpdate(items: seq<Json>, i: nat, v: Json)
    requires i < |items|
    ensures SizeItems(items[i := v]) == SizeItems(items) - Size(items[i]) + Size(v)
  {
    var r := items[i := v];
    if i > 0 {
      SizeItemsUpdate(items[1..], i - 1, v);
      assert r[1..] == items[1..][i - 1 := v];
    } else {
      assert r[1..] == items[1..];
    }
  }

  lemma ReorderItem(cs: bool, before: seq<Json>, after: seq<Json>, i: nat, v: Json)
    requires ReorderedItems(cs, before, after) && i < |after| && ReorderedTree(cs, after[i], v)
    ensures ReorderedItems(cs, before, after[i := v])
  {
    SizeItemsUpdate(after, i, v);
    MeaningItemsUpdate(cs, after, i, v);
    MeaningItemsAt(cs, after, i);
  }

  lemma ItemAt(cs: bool, before: seq<Json>, after: seq<Json>, i: nat)
    requires ReorderedItems(cs, before, after) && i < |after|
    ensures Size(after[i]) <= SizeItems(before)
    ensures UniqueItems(cs, before) ==>
      UniqueTree(cs, after[i]) && Meaning(cs, after[i]) == MeaningItems(cs, before)[i]
  {
    ItemSmaller(after, i);
    MeaningItemsAt(cs, after, i);
  }

  ghost predicate SamePrefix(cs: bool, xs: Members, ys: Members, n: nat)
    requires n <= |xs| && n <= |ys|
  {
    forall k :: 0 <= k < n ==>
      Fold(cs, xs[k].key) == Fold(cs, ys[k].key) && Meaning(cs, xs[k].value) == Meaning(cs, ys[k].value)
  }

  /** The key at the first difference of two strictly sorted lists is missing from one of them. */
  lemma MissingKey(cs: bool, xs: Members, ys: Members, n: nat)
    requires StrictlySorted(cs, xs) && StrictlySorted(cs, ys)
    requires n < |xs| && n <= |ys| && SamePrefix(cs, xs, ys, n)
    requires n < |ys| ==> Compare(cs, xs[n].key, ys[n].key) < 0
    ensures Fold(cs, xs[n].key) in Fields(cs, xs) && Fold(cs, xs[n].key) !in Fields(cs, ys)
  {
    var k := Fold(cs, xs[n].key);
    FieldsDomain(cs, xs, k);
    FieldsDomain(cs, ys, k);
    forall j | 0 <= j < |ys|
      ensures Fold(cs, ys[j].key) != k
    {
      if j < n {
        assert Compare(cs, xs[j].key, xs[n].key) < 0;
        CompareOrder(cs, xs[j].key, xs[n].key);
      } else {
        assert j > n ==> Compare(cs, ys[n].key, ys[j].key) < 0;
        CompareOrder(cs, xs[n].key, ys[j].key);
        if j > n { StrCmpTransitive(k, Fold(cs, ys[n].key), Fold(cs, ys[j].key)); }
      }
    }
  }

  lemma WalkDiffers(cs: bool, xs: Members, ys: Members, n: nat)
    requires StrictlySorted(cs, xs) && StrictlySorted(cs, ys)
    requires n <= |xs| && n <= |ys| && SamePrefix(cs, xs, ys, n)
    requires n < |xs| || n < |ys|
    requires n < |xs| && n < |ys| ==> Compare(cs, xs[n].key, ys[n].key) != 0
    ensures Fields(cs, xs) != Fields(cs, ys)
  {
    if n < |xs| && n < |ys| { CompareOrder(cs, xs[n].key, ys[n].key); }
    if n < |xs| && (n == |ys| || Compare(cs, xs[n].key, ys[n].key) < 0) {
      MissingKey(cs, xs, ys, n);
    } else {
      MissingKey(cs, ys, xs, n);
    }
  }

  lemma WalkAgrees(cs: bool, xs: Members, ys: Members)
    requires UniqueKeys(cs, xs) && UniqueKeys(cs, ys)
    requires |xs| == |ys| && SamePrefix(cs, xs, ys, |xs|)
    ensures Fields(cs, xs) == Fields(cs, ys)
  {
    forall k | 0 <= k < |xs|
      ensures Fold(cs, xs[k].key) in Fields(cs, ys) && Fields(cs, ys)[Fold(cs, xs[k].key)] == Meaning(cs, xs[k].value)
      ensures Fold(cs, ys[k].key) in Fields(cs, xs) && Fields(cs, xs)[Fold(cs, ys[k].key)] == Meaning(cs, ys[k].value)
    {
      FieldsAt(cs, xs, k);
      FieldsAt(cs, ys, k);
    }
    MutualCover(cs, xs, ys);
  }

  /** `compare_json`: sort both child lists, then walk them side by side. Also returns the trees as it leaves them. */
  method SortWalkCompare(a: Json, b: Json, cs: bool) returns (r: bool, a': Json, b': Json)
    ensures UniqueTree(cs, a) && UniqueTree(cs, b) ==> r == (Meaning(cs, a) == Meaning(cs, b))
    ensures ReorderedTree(cs, a, a') && ReorderedTree(cs, b, b')
    decreases Size(a) + Size(b), 1
  {
    a', b' := a, b;
    match a {
      case Array(xs) =>
        if !b.Array? { return false, a, b; }
        var xs', ys';
        r, xs', ys' := WalkItems(xs, b.items, cs);
        a', b' := Array(xs'), Array(ys');
      case Object(xs) =>
        if !b.Object? { return false, a, b; }
        var xs', ys';
        r, xs', ys' := WalkMembers(xs, b.members, cs);
        a', b' := Object(xs'), Object(ys');
      case _ => r := a == b;
    }
  }

  method WalkItems(xs: seq<Json>, ys: seq<Json>, cs: bool) returns (r: bool, xs': seq<Json>, ys': seq<Json>)
    ensures UniqueItems(cs, xs) && UniqueItems(cs, ys) ==>
      r == (MeaningItems(cs, xs) == MeaningItems(cs, ys))
    ensures ReorderedItems(cs, xs, xs') && ReorderedItems(cs, ys, ys')
    decreases SizeItems(xs) + SizeItems(ys) + 1, 0
  {
    ghost var vs, ws := MeaningItems(cs, xs), MeaningItems(cs, ys);
    ghost var unique := UniqueItems(cs, xs) && UniqueItems(cs, ys);
    xs', ys' := xs, ys;
    var i := 0;
    while i < |xs| && i < |ys|
      invariant i <= |xs| && i <= |ys|
      invariant ReorderedItems(cs, xs, xs') && ReorderedItems(cs, ys, ys')
      invariant unique ==> vs[..i] == ws[..i]
    {
      ItemAt(cs, xs, xs', i);
      ItemAt(cs, ys, ys', i);
      var identical, x, y := SortWalkCompare(xs'[i], ys'[i], cs);
      ReorderItem(cs, xs, xs', i, x);
      ReorderItem(cs, ys, ys', i, y);
      xs', ys' := xs'[i := x], ys'[i := y];
      if !identical {
        assert unique ==> vs[i] != ws[i];
        return false, xs', ys';
      }
      assert unique ==> vs[..i + 1] == vs[..i] + [vs[i]] && ws[..i + 1] == ws[..i] + [ws[i]];
      i := i + 1;
    }
    r := i == |xs| && i == |ys|;
    assert r ==> vs[..i] == vs && ws[..i] == ws;
  }

  method WalkMembers(xs: Members, ys: Members, cs: bool) returns (r: bool, xs': Members, ys': Members)
    ensures UniqueMembers(cs, xs) && UniqueMembers(cs, ys) ==> r == (Fields(cs, xs) == Fields(cs, ys))
    ensures Reordered(cs, xs, xs') && Reordered(cs, ys, ys')
    decreases SizeMembers(xs) + SizeMembers(ys) + 1, 0
  {
    xs', ys' := Sort(cs, xs), Sort(cs, ys);
    SortReorders(cs, xs);
    SortReorders(cs, ys);
    ghost var unique := UniqueMembers(cs, xs) && UniqueMembers(cs, ys);
    var i := 0;
    while i < |xs'| && i < |ys'|
      invariant i <= |xs'| && i <= |ys'|
      invariant Reordered(cs, xs, xs') && Reordered(cs, ys, ys')
      invariant unique ==> SamePrefix(cs, xs', ys', i)
      decreases |xs'| - i
    {
      var d := CompareStrings(xs'[i].key, ys'[i].key, cs);
      if d != 0 {
        if unique { WalkDiffers(cs, xs', ys', i); }
        return false, xs', ys';
      }
      MemberSmaller(xs', i);
      MemberSmaller(ys', i);
      var identical, x, y := SortWalkCompare(xs'[i].value, ys'[i].value, cs);
      if unique {
        FieldsAt(cs, xs', i);
        FieldsAt(cs, ys', i);
      }
      ReorderMember(cs, xs, xs', i, x);
      ReorderMember(cs, ys, ys', i, y);
      xs', ys' := xs'[i := Member(xs'[i].key, x)], ys'[i := Member(ys'[i].key, y)];
      if !identical {
        return false, xs', ys';
      }
      i := i + 1;
    }
    r := i == |xs'| && i == |ys'|;
    if unique {
      if r { WalkAgrees(cs, xs', ys'); } else { WalkDiffers(cs, xs', ys', i); }
    }
  }
}
