/** The merge sort of `sort_list`, on the sequence of members a child list holds. */
module Sorting {
  import opened Text
  import opened Json

  /** The early exit of `sort_list`: every neighbouring pair is strictly increasing. */
  predicate AlreadySorted<T>(caseSensitive: bool, ms: seq<Member<T>>) {
    forall i :: 0 <= i < |ms| - 1 ==> Compare(caseSensitive, ms[i].key, ms[i + 1].key) < 0
  }

  predicate Sorted<T>(caseSensitive: bool, ms: seq<Member<T>>) {
    forall i, j :: 0 <= i < j < |ms| ==> Compare(caseSensitive, ms[i].key, ms[j].key) <= 0
  }

  predicate StrictlySorted<T>(caseSensitive: bool, ms: seq<Member<T>>) {
    forall i, j :: 0 <= i < j < |ms| ==> Compare(caseSensitive, ms[i].key, ms[j].key) < 0
  }

  /** No two members have keys that a lookup would confuse. */
  predicate UniqueKeys<T>(caseSensitive: bool, ms: seq<Member<T>>) {
    forall i, j :: 0 <= i < j < |ms| ==> Fold(caseSensitive, ms[i].key) != Fold(caseSensitive, ms[j].key)
  }

  /** On a tie the second list goes first. */
  function Merge<T>(caseSensitive: bool, xs: seq<Member<T>>, ys: seq<Member<T>>): (r: seq<Member<T>>)
    ensures |r| == |xs| + |ys|
  {
    if xs == [] then ys
    else if ys == [] then xs
    else if Compare(caseSensitive, xs[0].key, ys[0].key) < 0 then
      [xs[0]] + Merge(caseSensitive, xs[1..], ys)
    else
      [ys[0]] + Merge(caseSensitive, xs, ys[1..])
  }

  /** Where the two walking pointers of `sort_list` split a list of n nodes. */
  function Half(n: nat): nat {
    (n + 1) / 2
  }

  function Sort<T>(caseSensitive: bool, ms: seq<Member<T>>): (r: seq<Member<T>>)
    ensures |r| == |ms|
    decreases |ms|
  {
    if |ms| <= 1 || AlreadySorted(caseSensitive, ms) then ms
    else
      var h := Half(|ms|);
      Merge(caseSensitive, Sort(caseSensitive, ms[..h]), Sort(caseSensitive, ms[h..]))
  }

  lemma Uncons<T>(s: seq<T>)
    requires s != []
    ensures multiset(s) == multiset{s[0]} + multiset(s[1..])
  {
    assert s == [s[0]] + s[1..];
  }

  lemma {:induction false} MergePermutes<T>(cs: bool, xs: seq<Member<T>>, ys: seq<Member<T>>)
    ensures multiset(Merge(cs, xs, ys)) == multiset(xs) + multiset(ys)
  {
    if xs != [] && ys != [] {
      var r := Merge(cs, xs, ys);
      Uncons(r);
      if Compare(cs, xs[0].key, ys[0].key) < 0 {
        MergePermutes(cs, xs[1..], ys);
        Uncons(xs);
        assert r[1..] == Merge(cs, xs[1..], ys);
      } else {
        MergePermutes(cs, xs, ys[1..]);
        Uncons(ys);
        assert r[1..] == Merge(cs, xs, ys[1..]);
      }
    }
  }

  lemma Unsplit<T>(s: seq<T>, h: nat)
    requires h <= |s|
    ensures multiset(s) == multiset(s[..h]) + multiset(s[h..])
  {
    assert s == s[..h] + s[h..];
  }

  /** Sorting keeps exactly the members there were. */
  lemma {:induction false} SortPermutes<T>(cs: bool, ms: seq<Member<T>>)
    ensures multiset(Sort(cs, ms)) == multiset(ms)
    decreases |ms|
  {
    if |ms| > 1 && !AlreadySorted(cs, ms) {
      var h := Half(|ms|);
      SortPermutes(cs, ms[..h]);
      SortPermutes(cs, ms[h..]);
      MergePermutes(cs, Sort(cs, ms[..h]), Sort(cs, ms[h..]));
      Unsplit(ms, h);
    }
  }

  lemma MergeMember<T>(cs: bool, xs: seq<Member<T>>, ys: seq<Member<T>>, m: Member<T>)
    ensures m in Merge(cs, xs, ys) <==> m in xs || m in ys
  {
    MergePermutes(cs, xs, ys);
    assert m in multiset(Merge(cs, xs, ys)) <==> m in multiset(xs) || m in multiset(ys);
  }

  lemma SortMember<T>(cs: bool, ms: seq<Member<T>>, m: Member<T>)
    ensures m in Sort(cs, ms) <==> m in ms
  {
    SortPermutes(cs, ms);
    assert m in multiset(Sort(cs, ms)) <==> m in multiset(ms);
  }

  lemma SortedCons<T>(cs: bool, m: Member<T>, ms: seq<Member<T>>)
    requires Sorted(cs, ms)
    requires forall x :: x in ms ==> Compare(cs, m.key, x.key) <= 0
    ensures Sorted(cs, [m] + ms)
  {
  }

  lemma UniqueCons<T>(cs: bool, m: Member<T>, ms: seq<Member<T>>)
    requires UniqueKeys(cs, ms)
    requires forall x :: x in ms ==> Fold(cs, m.key) != Fold(cs, x.key)
    ensures UniqueKeys(cs, [m] + ms)
  {
  }

  lemma HeadBelow<T>(cs: bool, m: Member<T>, xs: seq<Member<T>>, x: Member<T>)
    requires Sorted(cs, xs) && x in xs
    requires Compare(cs, m.key, xs[0].key) <= 0
    ensures Compare(cs, m.key, x.key) <= 0
  {
    var i :| 0 <= i < |xs| && xs[i] == x;
    if i > 0 { StrCmpTransitive(Fold(cs, m.key), Fold(cs, xs[0].key), Fold(cs, x.key)); }
  }

  lemma {:induction false} MergeSorted<T>(cs: bool, xs: seq<Member<T>>, ys: seq<Member<T>>)
    requires Sorted(cs, xs) && Sorted(cs, ys)
    ensures Sorted(cs, Merge(cs, xs, ys))
  {
    if xs != [] && ys != [] {
      CompareOrder(cs, xs[0].key, ys[0].key);
      var first := Compare(cs, xs[0].key, ys[0].key) < 0;
      var m := if first then xs[0] else ys[0];
      var xs', ys' := if first then xs[1..] else xs, if first then ys else ys[1..];
      MergeSorted(cs, xs', ys');
      forall x | x in Merge(cs, xs', ys')
        ensures Compare(cs, m.key, x.key) <= 0
      {
        MergeMember(cs, xs', ys', x);
        CompareOrder(cs, m.key, m.key);
        if x in xs' { HeadBelow(cs, m, xs, x); } else { HeadBelow(cs, m, ys, x); }
      }
      SortedCons(cs, m, Merge(cs, xs', ys'));
    }
  }

  lemma {:induction false} AlreadySortedIsSorted<T>(cs: bool, ms: seq<Member<T>>)
    requires AlreadySorted(cs, ms)
    ensures StrictlySorted(cs, ms)
  {
    if ms != [] {
      AlreadySortedIsSorted(cs, ms[1..]);
      forall j | 0 < j < |ms|
        ensures Compare(cs, ms[0].key, ms[j].key) < 0
      {
        if j > 1 {
          assert Compare(cs, ms[1..][0].key, ms[1..][j - 1].key) < 0;
          StrCmpTransitive(Fold(cs, ms[0].key), Fold(cs, ms[1].key), Fold(cs, ms[j].key));
        }
      }
      forall i, j | 0 < i < j < |ms|
        ensures Compare(cs, ms[i].key, ms[j].key) < 0
      {
        assert Compare(cs, ms[1..][i - 1].key, ms[1..][j - 1].key) < 0;
      }
    }
  }

  /** `sort_list` puts the keys in non-decreasing order. */
  lemma {:induction false} SortSorts<T>(cs: bool, ms: seq<Member<T>>)
    ensures Sorted(cs, Sort(cs, ms))
    decreases |ms|
  {
    if |ms| <= 1 {
    } else if AlreadySorted(cs, ms) {
      AlreadySortedIsSorted(cs, ms);
    } else {
      var h := Half(|ms|);
      SortSorts(cs, ms[..h]);
      SortSorts(cs, ms[h..]);
      MergeSorted(cs, Sort(cs, ms[..h]), Sort(cs, ms[h..]));
    }
  }

  lemma {:induction false} MergeUnique<T>(cs: bool, xs: seq<Member<T>>, ys: seq<Member<T>>)
    requires UniqueKeys(cs, xs) && UniqueKeys(cs, ys)
    requires forall i, j :: 0 <= i < |xs| && 0 <= j < |ys| ==> Fold(cs, xs[i].key) != Fold(cs, ys[j].key)
    ensures UniqueKeys(cs, Merge(cs, xs, ys))
  {
    if xs != [] && ys != [] {
      var first := Compare(cs, xs[0].key, ys[0].key) < 0;
      var m := if first then xs[0] else ys[0];
      var xs', ys' := if first then xs[1..] else xs, if first then ys else ys[1..];
      MergeUnique(cs, xs', ys');
      forall x | x in Merge(cs, xs', ys')
        ensures Fold(cs, m.key) != Fold(cs, x.key)
      {
        MergeMember(cs, xs', ys', x);
      }
      UniqueCons(cs, m, Merge(cs, xs', ys'));
    }
  }

  /** With keys that all differ, sorting is strict: the order is forced. */
  lemma {:induction false} SortUnique<T>(cs: bool, ms: seq<Member<T>>)
    requires UniqueKeys(cs, ms)
    ensures UniqueKeys(cs, Sort(cs, ms))
    decreases |ms|
  {
    if |ms| > 1 && !AlreadySorted(cs, ms) {
      var h := Half(|ms|);
      var a, b := Sort(cs, ms[..h]), Sort(cs, ms[h..]);
      SortUnique(cs, ms[..h]);
      SortUnique(cs, ms[h..]);
      forall i, j | 0 <= i < |a| && 0 <= j < |b|
        ensures Fold(cs, a[i].key) != Fold(cs, b[j].key)
      {
        SortMember(cs, ms[..h], a[i]);
        SortMember(cs, ms[h..], b[j]);
      }
      MergeUnique(cs, a, b);
    }
  }

  lemma SortStrict<T>(cs: bool, ms: seq<Member<T>>)
    requires UniqueKeys(cs, ms)
    ensures StrictlySorted(cs, Sort(cs, ms))
  {
    SortSorts(cs, ms);
    SortUnique(cs, ms);
    var r := Sort(cs, ms);
    forall i, j | 0 <= i < j < |r|
      ensures Compare(cs, r[i].key, r[j].key) < 0
    {
      CompareOrder(cs, r[i].key, r[j].key);
    }
  }

  /** Being below a key goes through another key, strictly if either step is strict. */
  lemma BelowAll<T>(cs: bool, a: Str, b: Str, ms: seq<Member<T>>, i: nat)
    requires i < |ms| && Compare(cs, a, b) <= 0 && Compare(cs, b, ms[i].key) <= 0
    ensures Compare(cs, a, ms[i].key) <= 0
    ensures Compare(cs, a, b) < 0 || Compare(cs, b, ms[i].key) < 0 ==> Compare(cs, a, ms[i].key) < 0
  {
    StrCmpTransitive(Fold(cs, a), Fold(cs, b), Fold(cs, ms[i].key));
  }

  /** The last of the members with the least key. */
  predicate IsFirst<T>(cs: bool, ms: seq<Member<T>>, i: int) {
    0 <= i < |ms|
    && (forall j :: 0 <= j < |ms| ==> Compare(cs, ms[i].key, ms[j].key) <= 0)
    && (forall j :: i < j < |ms| ==> Compare(cs, ms[i].key, ms[j].key) < 0)
  }

  /** The first of the members with the greatest key. */
  predicate IsLast<T>(cs: bool, ms: seq<Member<T>>, i: int) {
    0 <= i < |ms|
    && (forall j :: 0 <= j < |ms| ==> Compare(cs, ms[j].key, ms[i].key) <= 0)
    && (forall j :: 0 <= j < i ==> Compare(cs, ms[j].key, ms[i].key) < 0)
  }

  lemma FirstOfHalves<T>(cs: bool, xs: seq<Member<T>>, ys: seq<Member<T>>, a: int, b: int)
    requires IsFirst(cs, xs, a) && IsFirst(cs, ys, b)
    ensures IsFirst(cs, xs + ys, if Compare(cs, xs[a].key, ys[b].key) < 0 then a else |xs| + b)
  {
    hide Compare;
    var x, y := xs[a].key, ys[b].key;
    CompareOrder(cs, x, y);
    forall j | 0 <= j < |xs|
      ensures Compare(cs, y, x) <= 0 ==> Compare(cs, y, xs[j].key) <= 0
    {
      if Compare(cs, y, x) <= 0 { BelowAll(cs, y, x, xs, j); }
    }
    forall j | 0 <= j < |ys|
      ensures Compare(cs, x, y) < 0 ==> Compare(cs, x, ys[j].key) < 0
    {
      if Compare(cs, x, y) < 0 { BelowAll(cs, x, y, ys, j); }
    }
  }

  lemma LastOfHalves<T>(cs: bool, xs: seq<Member<T>>, ys: seq<Member<T>>, a: int, b: int)
    requires IsLast(cs, xs, a) && IsLast(cs, ys, b)
    ensures IsLast(cs, xs + ys, if Compare(cs, xs[a].key, ys[b].key) < 0 then |xs| + b else a)
  {
    hide Compare;
    var x, y := xs[a].key, ys[b].key;
    CompareOrder(cs, x, y);
    forall j | 0 <= j < |xs|
      ensures Compare(cs, x, y) < 0 ==> Compare(cs, xs[j].key, y) < 0
    {
      if Compare(cs, x, y) < 0 { BelowAll(cs, xs[j].key, x, ys, b); }
    }
    forall j | 0 <= j < |ys|
      ensures Compare(cs, y, x) <= 0 ==> Compare(cs, ys[j].key, x) <= 0
    {
      if Compare(cs, y, x) <= 0 { BelowAll(cs, ys[j].key, y, xs, a); }
    }
  }

  lemma StrictEnds<T>(cs: bool, ms: seq<Member<T>>)
    requires ms != [] && StrictlySorted(cs, ms)
    ensures IsFirst(cs, ms, 0) && IsLast(cs, ms, |ms| - 1)
  {
    CompareOrder(cs, ms[0].key, ms[0].key);
    CompareOrder(cs, Last(ms).key, Last(ms).key);
  }

  /** One merge of `sort_list`. */
  lemma SortStep<T>(cs: bool, ms: seq<Member<T>>)
    requires |ms| > 1 && !AlreadySorted(cs, ms)
    ensures var h := Half(|ms|);
      0 < h < |ms| && ms == ms[..h] + ms[h..] && Sort(cs, ms) == Merge(cs, Sort(cs, ms[..h]), Sort(cs, ms[h..]))
  {
  }

  /** The sorted list starts with the last of the members with the least key. */
  lemma {:induction false} SortFirst<T>(cs: bool, ms: seq<Member<T>>) returns (i: int)
    requires ms != []
    ensures IsFirst(cs, ms, i) && Sort(cs, ms)[0] == ms[i]
    decreases |ms|
  {
    if |ms| <= 1 || AlreadySorted(cs, ms) {
      AlreadySortedIsSorted(cs, ms);
      StrictEnds(cs, ms);
      i := 0;
    } else {
      SortStep(cs, ms);
      hide Sort, Compare, IsFirst, AlreadySorted;
      var h := Half(|ms|);
      var front, back := ms[..h], ms[h..];
      var a := SortFirst(cs, front);
      var b := SortFirst(cs, back);
      FirstOfHalves(cs, front, back, a, b);
      i := if Compare(cs, front[a].key, back[b].key) < 0 then a else h + b;
    }
  }

  function Last<T>(s: seq<T>): T
    requires s != []
  {
    s[|s| - 1]
  }

  lemma LastOfTail<T>(s: seq<T>)
    requires |s| > 1
    ensures Last(s[1..]) == Last(s)
  {
  }

  lemma SortedTail<T>(cs: bool, ms: seq<Member<T>>)
    requires Sorted(cs, ms) && ms != []
    ensures Sorted(cs, ms[1..]) && Compare(cs, ms[0].key, Last(ms).key) <= 0
  {
    CompareOrder(cs, ms[0].key, ms[0].key);
  }

  lemma MergeStep<T>(cs: bool, xs: seq<Member<T>>, ys: seq<Member<T>>)
    requires xs != [] && ys != []
    ensures |Merge(cs, xs, ys)| == |xs| + |ys|
    ensures Merge(cs, xs, ys)[1..]
         == if Compare(cs, xs[0].key, ys[0].key) < 0 then Merge(cs, xs[1..], ys) else Merge(cs, xs, ys[1..])
  {
  }

  lemma MergeEmpty<T>(cs: bool, ms: seq<Member<T>>)
    ensures Merge(cs, ms, []) == ms == Merge(cs, [], ms)
  {
  }

  /** On a tie the first list goes last. */
  lemma {:induction false} MergeLast<T>(cs: bool, xs: seq<Member<T>>, ys: seq<Member<T>>)
    requires xs != [] && ys != [] && Sorted(cs, xs) && Sorted(cs, ys)
    ensures |Merge(cs, xs, ys)| == |xs| + |ys|
    ensures Last(Merge(cs, xs, ys)) == if Compare(cs, Last(xs).key, Last(ys).key) < 0 then Last(ys) else Last(xs)
  {
    hide Compare, Sorted, Merge;
    SortedTail(cs, xs);
    SortedTail(cs, ys);
    MergeStep(cs, xs, ys);
    LastOfTail(Merge(cs, xs, ys));
    if Compare(cs, xs[0].key, ys[0].key) < 0 {
      if |xs| > 1 {
        LastOfTail(xs);
        MergeLast(cs, xs[1..], ys);
      } else {
        MergeEmpty(cs, ys);
        BelowAll(cs, Last(xs).key, ys[0].key, ys, |ys| - 1);
      }
    } else if |ys| > 1 {
      LastOfTail(ys);
      MergeLast(cs, xs, ys[1..]);
    } else {
      MergeEmpty(cs, xs);
      CompareOrder(cs, xs[0].key, ys[0].key);
      CompareOrder(cs, Last(xs).key, ys[0].key);
      BelowAll(cs, ys[0].key, xs[0].key, xs, |xs| - 1);
    }
  }

  lemma LastOfMerge<T>(cs: bool, xs: seq<Member<T>>, ys: seq<Member<T>>, us: seq<Member<T>>, vs: seq<Member<T>>,
                       a: int, b: int)
    returns (i: int)
    requires IsLast(cs, xs, a) && IsLast(cs, ys, b) && us != [] && vs != [] && Sorted(cs, us) && Sorted(cs, vs)
    requires Last(us) == xs[a] && Last(vs) == ys[b]
    ensures IsLast(cs, xs + ys, i) && Merge(cs, us, vs) != [] && Last(Merge(cs, us, vs)) == (xs + ys)[i]
  {
    hide Merge, Compare, Sorted;
    LastOfHalves(cs, xs, ys, a, b);
    MergeLast(cs, us, vs);
    i := if Compare(cs, xs[a].key, ys[b].key) < 0 then |xs| + b else a;
  }

  /** The sorted list ends with the first of the members with the greatest key. */
  lemma {:induction false} SortLast<T>(cs: bool, ms: seq<Member<T>>) returns (i: int)
    requires ms != []
    ensures IsLast(cs, ms, i) && Last(Sort(cs, ms)) == ms[i]
    decreases |ms|
  {
    if |ms| <= 1 || AlreadySorted(cs, ms) {
      AlreadySortedIsSorted(cs, ms);
      StrictEnds(cs, ms);
      i := |ms| - 1;
    } else {
      hide Sort, Merge, Compare, IsLast, AlreadySorted, Sorted;
      SortStep(cs, ms);
      var h := Half(|ms|);
      var front, back := ms[..h], ms[h..];
      var a := SortLast(cs, front);
      var b := SortLast(cs, back);
      SortSorts(cs, front);
      SortSorts(cs, back);
      i := LastOfMerge(cs, front, back, Sort(cs, front), Sort(cs, back), a, b);
    }
  }

  /** Which of two cursors walking sorted lists side by side is behind; zero when they are at the same key. */
  function KeyOrder<T>(cs: bool, xs: seq<Member<T>>, ys: seq<Member<T>>): int
    requires xs != [] || ys != []
  {
    if xs == [] then 1 else if ys == [] then -1 else Compare(cs, xs[0].key, ys[0].key)
  }
}
