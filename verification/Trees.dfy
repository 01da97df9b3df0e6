/** What member lists mean when no lookup is ambiguous. */
module Trees {
  import opened Text
  import opened Json
  import opened Sorting

  /** Every object in the tree has keys that no lookup confuses. */
  predicate UniqueTree(cs: bool, j: Json)
    decreases j
  {
    match j
    case Array(items) => forall x | x in items :: UniqueTree(cs, x)
    case Object(ms) => UniqueKeys(cs, ms) && forall m | m in ms :: UniqueTree(cs, m.value)
    case _ => true
  }

  predicate UniqueMembers(cs: bool, ms: Members) {
    UniqueKeys(cs, ms) && forall m | m in ms :: UniqueTree(cs, m.value)
  }

  lemma {:induction false} MeaningItemsAt(cs: bool, items: seq<Json>, i: nat)
    requires i < |items|
    ensures MeaningItems(cs, items)[i] == Meaning(cs, items[i])
  {
    if i > 0 {
      MeaningItemsAt(cs, items[1..], i - 1);
    }
  }

  lemma {:induction false} FieldsDomain(cs: bool, ms: Members, k: Str)
    ensures k in Fields(cs, ms) <==> exists i :: 0 <= i < |ms| && Fold(cs, ms[i].key) == k
  {
    if ms != [] {
      FieldsDomain(cs, ms[1..], k);
      if exists i :: 0 <= i < |ms| && Fold(cs, ms[i].key) == k {
        var i :| 0 <= i < |ms| && Fold(cs, ms[i].key) == k;
        assert i > 0 ==> ms[1..][i - 1] == ms[i];
      }
    }
  }

  lemma {:induction false} FieldsAt(cs: bool, ms: Members, i: nat)
    requires UniqueKeys(cs, ms) && i < |ms|
    ensures Fold(cs, ms[i].key) in Fields(cs, ms)
    ensures Fields(cs, ms)[Fold(cs, ms[i].key)] == Meaning(cs, ms[i].value)
  {
    if i > 0 {
      FieldsAt(cs, ms[1..], i - 1);
    }
  }

  /** A member list means the same map whatever the order of its members. */
  lemma FieldsSameMembers(cs: bool, xs: Members, ys: Members)
    requires UniqueKeys(cs, xs) && UniqueKeys(cs, ys)
    requires forall m :: m in xs <==> m in ys
    ensures Fields(cs, xs) == Fields(cs, ys)
  {
    FieldsSubset(cs, xs, ys);
    FieldsSubset(cs, ys, xs);
  }

  lemma FieldsSubset(cs: bool, xs: Members, ys: Members)
    requires UniqueKeys(cs, xs) && UniqueKeys(cs, ys)
    requires forall m :: m in xs ==> m in ys
    ensures forall k :: k in Fields(cs, xs) ==> k in Fields(cs, ys) && Fields(cs, xs)[k] == Fields(cs, ys)[k]
  {
    forall k | k in Fields(cs, xs)
      ensures k in Fields(cs, ys) && Fields(cs, xs)[k] == Fields(cs, ys)[k]
    {
      FieldsDomain(cs, xs, k);
      var i :| 0 <= i < |xs| && Fold(cs, xs[i].key) == k;
      FieldsAt(cs, xs, i);
      assert xs[i] in ys;
      var j :| 0 <= j < |ys| && ys[j] == xs[i];
      FieldsAt(cs, ys, j);
    }
  }

  lemma SortKeepsFields(cs: bool, ms: Members)
    requires UniqueMembers(cs, ms)
    ensures UniqueMembers(cs, Sort(cs, ms))
    ensures Fields(cs, Sort(cs, ms)) == Fields(cs, ms)
  {
    SortUnique(cs, ms);
    forall m
      ensures m in Sort(cs, ms) <==> m in ms
    {
      SortMember(cs, ms, m);
    }
    FieldsSameMembers(cs, Sort(cs, ms), ms);
  }

  lemma UpdateKeepsKeys<T>(cs: bool, ms: seq<Member<T>>, i: nat, v: T)
    requires i < |ms|
    ensures UniqueKeys(cs, ms) ==> UniqueKeys(cs, ms[i := Member(ms[i].key, v)])
    ensures StrictlySorted(cs, ms) ==> StrictlySorted(cs, ms[i := Member(ms[i].key, v)])
  {
    var r := ms[i := Member(ms[i].key, v)];
    assert forall k :: 0 <= k < |ms| ==> r[k].key == ms[k].key;
  }

  /** Replacing one value in place. */
  lemma {:induction false} FieldsUpdate(cs: bool, ms: Members, i: nat, v: Json)
    requires UniqueKeys(cs, ms) && i < |ms|
    ensures Fields(cs, ms[i := Member(ms[i].key, v)]) == Fields(cs, ms)[Fold(cs, ms[i].key) := Meaning(cs, v)]
  {
    var r := ms[i := Member(ms[i].key, v)];
    if i > 0 {
      FieldsUpdate(cs, ms[1..], i - 1, v);
      assert r[1..] == ms[1..][i - 1 := Member(ms[i].key, v)];
    } else {
      assert r[1..] == ms[1..];
    }
  }

  lemma {:induction false} MeaningItemsUpdate(cs: bool, items: seq<Json>, i: nat, v: Json)
    requires i < |items|
    ensures MeaningItems(cs, items[i := v]) == MeaningItems(cs, items)[i := Meaning(cs, v)]
  {
    var r := items[i := v];
    if i > 0 {
      MeaningItemsUpdate(cs, items[1..], i - 1, v);
      assert r[1..] == items[1..][i - 1 := v];
    } else {
      assert r[1..] == items[1..];
    }
  }

  /** The position of the first member a lookup of `key` accepts, or the length of the list. */
  function IndexOfKey(cs: bool, ms: Members, key: Str): (i: nat)
    ensures i <= |ms|
    ensures i < |ms| ==> Fold(cs, ms[i].key) == Fold(cs, key)
    ensures forall j :: 0 <= j < i ==> Fold(cs, ms[j].key) != Fold(cs, key)
  {
    if ms == [] || Fold(cs, ms[0].key) == Fold(cs, key) then 0
    else
      assert forall j :: 0 < j < |ms| ==> ms[j] == ms[1..][j - 1];
      1 + IndexOfKey(cs, ms[1..], key)
  }

  /** The loop of `get_object_item`. */
  method GetObjectItem(ms: Members, name: Str, caseSensitive: bool) returns (i: nat)
    ensures i == IndexOfKey(caseSensitive, ms, name)
  {
    i := 0;
    while i < |ms|
      invariant i <= |ms|
      invariant forall j :: 0 <= j < i ==> Fold(caseSensitive, ms[j].key) != Fold(caseSensitive, name)
    {
      var d := CompareStrings(name, ms[i].key, caseSensitive);
      if d == 0 {
        return;
      }
      i := i + 1;
    }
  }

  /** A lookup in an unambiguous list is a lookup in the map the list means. */
  lemma LookupIsField(cs: bool, ms: Members, key: Str)
    requires UniqueKeys(cs, ms)
    ensures var i := IndexOfKey(cs, ms, key);
            (i < |ms| <==> Fold(cs, key) in Fields(cs, ms))
            && (i < |ms| ==> Fields(cs, ms)[Fold(cs, key)] == Meaning(cs, ms[i].value))
  {
    var i := IndexOfKey(cs, ms, key);
    FieldsDomain(cs, ms, Fold(cs, key));
    if i < |ms| { FieldsAt(cs, ms, i); }
  }

  function RemoveAt<T>(s: seq<T>, i: nat): seq<T>
    requires i < |s|
  {
    s[..i] + s[i + 1..]
  }

  function InsertAt<T>(s: seq<T>, i: nat, x: T): seq<T>
    requires i <= |s|
  {
    s[..i] + [x] + s[i..]
  }

  /** `cJSON_DeleteItemFromObject`: the members without the first one under `key`, if there is one. */
  function WithoutKey(cs: bool, ms: Members, key: Str): Members {
    var i := IndexOfKey(cs, ms, key);
    if i < |ms| then RemoveAt(ms, i) else ms
  }

  lemma RemoveKeepsUnique(cs: bool, ms: Members, i: nat)
    requires UniqueKeys(cs, ms) && i < |ms|
    ensures UniqueKeys(cs, RemoveAt(ms, i))
    ensures forall m :: m in RemoveAt(ms, i) <==> m in ms && Fold(cs, m.key) != Fold(cs, ms[i].key)
  {
    var r := RemoveAt(ms, i);
    assert forall x :: 0 <= x < |r| ==> r[x] == ms[if x < i then x else x + 1];
    forall m | m in ms && Fold(cs, m.key) != Fold(cs, ms[i].key)
      ensures m in r
    {
      var x :| 0 <= x < |ms| && ms[x] == m;
      assert r[if x < i then x else x - 1] == m;
    }
  }

  /** A member list means exactly the pairs it holds. */
  lemma FieldsPair(cs: bool, ms: Members, k: Str, v: Val)
    requires UniqueKeys(cs, ms)
    ensures k in Fields(cs, ms) && Fields(cs, ms)[k] == v
      <==> exists m :: m in ms && Fold(cs, m.key) == k && Meaning(cs, m.value) == v
  {
    FieldsDomain(cs, ms, k);
    if k in Fields(cs, ms) {
      var i :| 0 <= i < |ms| && Fold(cs, ms[i].key) == k;
      FieldsAt(cs, ms, i);
      assert forall m :: m in ms && Fold(cs, m.key) == k ==> m == ms[i];
    }
    forall m | m in ms && Fold(cs, m.key) == k
      ensures k in Fields(cs, ms)
    {
      var i :| 0 <= i < |ms| && ms[i] == m;
      FieldsAt(cs, ms, i);
    }
  }

  lemma FieldsRemove(cs: bool, ms: Members, i: nat)
    requires UniqueKeys(cs, ms) && i < |ms|
    ensures UniqueKeys(cs, RemoveAt(ms, i))
    ensures Fields(cs, RemoveAt(ms, i)) == Fields(cs, ms) - {Fold(cs, ms[i].key)}
  {
    RemoveKeepsUnique(cs, ms, i);
    var f, g := Fields(cs, RemoveAt(ms, i)), Fields(cs, ms) - {Fold(cs, ms[i].key)};
    forall k
      ensures k in f <==> k in g
      ensures k in f ==> f[k] == g[k]
    {
      if k in f { FieldsPair(cs, RemoveAt(ms, i), k, f[k]); FieldsPair(cs, ms, k, f[k]); }
      if k in g { FieldsPair(cs, ms, k, g[k]); FieldsPair(cs, RemoveAt(ms, i), k, g[k]); }
    }
  }

  lemma FieldsAppend(cs: bool, ms: Members, m: Member<Json>)
    requires UniqueKeys(cs, ms) && Fold(cs, m.key) !in Fields(cs, ms)
    ensures UniqueKeys(cs, ms + [m])
    ensures Fields(cs, ms + [m]) == Fields(cs, ms)[Fold(cs, m.key) := Meaning(cs, m.value)]
  {
    FieldsDomain(cs, ms, Fold(cs, m.key));
    var f, g := Fields(cs, ms + [m]), Fields(cs, ms)[Fold(cs, m.key) := Meaning(cs, m.value)];
    forall k
      ensures k in f <==> k in g
      ensures k in f ==> f[k] == g[k]
    {
      if k in f { FieldsPair(cs, ms + [m], k, f[k]); FieldsPair(cs, ms, k, f[k]); }
      if k in g { FieldsPair(cs, ms, k, g[k]); FieldsPair(cs, ms + [m], k, g[k]); }
    }
  }

  lemma WithoutKeyFields(cs: bool, ms: Members, k: Str)
    requires UniqueKeys(cs, ms)
    ensures UniqueKeys(cs, WithoutKey(cs, ms, k))
    ensures forall m :: m in WithoutKey(cs, ms, k) ==> m in ms
    ensures Fields(cs, WithoutKey(cs, ms, k)) == Fields(cs, ms) - {Fold(cs, k)}
  {
    LookupIsField(cs, ms, k);
    var i := IndexOfKey(cs, ms, k);
    if i < |ms| {
      RemoveKeepsUnique(cs, ms, i);
      FieldsRemove(cs, ms, i);
    }
  }

  lemma StrictIsUnique(cs: bool, ms: Members)
    requires StrictlySorted(cs, ms)
    ensures UniqueKeys(true, ms)
  {
    forall i, j | 0 <= i < j < |ms|
      ensures ms[i].key != ms[j].key
    {
      CompareOrder(cs, ms[i].key, ms[j].key);
    }
  }

  /** The key of a member that comes strictly first is not in the other list. */
  lemma FirstKeyMissing(cs: bool, k: Str, ms: Members)
    requires StrictlySorted(cs, ms) && (ms != [] ==> Compare(cs, k, ms[0].key) < 0)
    ensures k !in Fields(true, ms)
  {
    FieldsDomain(true, ms, k);
    forall i | 0 <= i < |ms|
      ensures ms[i].key != k
    {
      if i > 0 { StrCmpTransitive(Fold(cs, k), Fold(cs, ms[0].key), Fold(cs, ms[i].key)); }
      CompareOrder(cs, k, k);
    }
  }
}
