/** The merge sort of `sort_list` as it relinks the nodes of a child list. */
module SortList {
  import opened Text
  import opened Json
  import opened Sorting
  import opened ChildList

  /** The members a chain of nodes stands for. */
  function Pairs(ns: seq<Node>): (ms: seq<Member<Node>>)
    ensures |ms| == |ns|
  {
    seq(|ns|, i requires 0 <= i < |ns| => Member(ns[i].key, ns[i]))
  }

  lemma PairsParts(xs: seq<Node>, ys: seq<Node>)
    ensures Pairs(xs + ys) == Pairs(xs) + Pairs(ys)
  {
  }

  lemma PairsSlices(ns: seq<Node>, h: nat)
    requires h <= |ns|
    ensures Pairs(ns[..h]) == Pairs(ns)[..h] && Pairs(ns[h..]) == Pairs(ns)[h..]
  {
  }

  ghost function Nodes(ns: seq<Node>): set<Node> {
    set n | n in ns
  }

  /** A chain that is still being built: the last node may point anywhere. */
  ghost predicate Open(ns: seq<Node>)
    reads ns
  {
    ns != [] && Distinct(ns)
    && (forall i {:trigger ns[i].next} :: 0 <= i < |ns| - 1 ==> ns[i].next == ns[i + 1])
    && (forall i {:trigger ns[i].prev} :: 0 < i < |ns| ==> ns[i].prev == ns[i - 1])
  }

  ghost predicate Apart(xs: seq<Node>, ys: seq<Node>) {
    forall n :: n in xs ==> n !in ys
  }

  lemma LinkedTail(ns: seq<Node>)
    requires Linked(ns) && ns != []
    ensures Linked(ns[1..]) && ns[0].next == Head(ns[1..])
  {
    LinkAt(ns, 0);
    var rest := ns[1..];
    assert forall i :: 0 <= i < |rest| ==> rest[i] == ns[i + 1];
  }

  /** The smaller node goes behind the tail of the merged list. */
  method Extend(tail: Node, smaller: Node, ghost done: seq<Node>, ghost rest: seq<Node>)
    requires Open(done) && tail == done[|done| - 1]
    requires Linked(rest) && rest != [] && smaller == rest[0] && Apart(done, rest)
    modifies tail`next, smaller`prev
    ensures Open(done + [smaller])
    ensures Linked(rest[1..]) && smaller.next == Head(rest[1..])
  {
    LinkedTail(rest);
    ghost var all := done + [smaller];
    assert forall i :: 0 <= i < |all| ==> all[i] == if i < |done| then done[i] else smaller;
    assert forall i :: 0 <= i < |done| ==> done[i] in done && done[i] !in rest;
    assert forall i :: 0 <= i < |rest[1..]| ==> rest[1..][i] == rest[i + 1] && rest[i + 1] in rest;
    assert Distinct(all);
    tail.next := smaller;
    smaller.prev := tail;
  }

  /** What is left of one list goes behind the tail. */
  method Finish(tail: Node, first: Node, ghost done: seq<Node>, ghost rest: seq<Node>)
    requires Open(done) && tail == done[|done| - 1]
    requires Linked(rest) && rest != [] && first == rest[0] && Apart(done, rest)
    modifies tail`next, first`prev
    ensures Linked(done + rest)
  {
    ghost var all := done + rest;
    assert forall i :: 0 <= i < |all| ==> all[i] == if i < |done| then done[i] else rest[i - |done|];
    assert forall i :: 0 <= i < |done| ==> done[i] in done && done[i] !in rest;
    assert Distinct(all);
    tail.next := first;
    first.prev := tail;
  }

  /** The lists a merge works on: the merged part, and what is left of either list. */
  ghost predicate Merging(result: Node?, tail: Node?, done: seq<Node>, us: seq<Node>, vs: seq<Node>)
    reads done, us, vs
  {
    Linked(us) && Linked(vs) && Apart(done, us) && Apart(done, vs) && Apart(us, vs)
    && result == Head(done) && (done != [] ==> Open(done) && tail == done[|done| - 1])
  }

  lemma MergingSwapped(result: Node?, tail: Node?, done: seq<Node>, us: seq<Node>, vs: seq<Node>)
    requires Merging(result, tail, done, us, vs)
    ensures Merging(result, tail, done, vs, us)
  {
  }

  lemma MergingStart(us: seq<Node>, vs: seq<Node>)
    requires Linked(us) && Linked(vs) && Apart(us, vs)
    ensures Merging(null, null, [], us, vs)
  {
  }

  lemma MergingParts(result: Node?, tail: Node?, done: seq<Node>, us: seq<Node>, vs: seq<Node>)
    requires Merging(result, tail, done, us, vs)
    ensures Linked(us) && Linked(vs) && Apart(done, us) && Apart(done, vs) && result == Head(done)
    ensures done != [] ==> Open(done) && tail == done[|done| - 1]
  {
  }

  /** One round of the merge loop, for the list the smaller node is in. */
  method Take(smaller: Node, result: Node?, tail: Node?, ghost done: seq<Node>, ghost us: seq<Node>,
        ghost vs: seq<Node>)
    returns (result': Node, next: Node?)
    requires Merging(result, tail, done, us, vs) && us != [] && smaller == us[0]
    modifies (if tail == null || done == [] then {} else {tail})`next, smaller`prev
    ensures Merging(result', smaller, done + [smaller], us[1..], vs) && next == Head(us[1..])
    ensures result' == (if result == null then smaller else result) && result'.prev == old(result'.prev)
  {
    LinkedTail(us);
    assert forall n :: n in us[1..] ==> n in us;
    assert forall n :: n in vs ==> n !in us && n !in done;
    assert smaller in us && smaller !in us[1..];
    if result == null {
      result' := smaller;
      assert done + [smaller] == [smaller];
    } else {
      result' := result;
      assert done[0] in done && tail in done;
      assert forall n :: n in vs ==> n != tail && n != smaller;
      Extend(tail, smaller, done, us);
    }
    next := smaller.next;
  }

  /** The nodes of the three lists are those of the two that came in. */
  ghost predicate Same(done: seq<Node>, us: seq<Node>, vs: seq<Node>, xs: seq<Node>, ys: seq<Node>) {
    (forall n :: n in xs ==> n in done || n in us || n in vs)
    && (forall n :: n in ys ==> n in done || n in us || n in vs)
    && (forall n :: n in done ==> n in xs || n in ys)
    && (forall n :: n in us ==> n in xs || n in ys)
    && (forall n :: n in vs ==> n in xs || n in ys)
  }

  lemma SameTake(done: seq<Node>, us: seq<Node>, vs: seq<Node>, xs: seq<Node>, ys: seq<Node>)
    requires Same(done, us, vs, xs, ys)
    ensures us != [] ==> Same(done + [us[0]], us[1..], vs, xs, ys)
    ensures vs != [] ==> Same(done + [vs[0]], us, vs[1..], xs, ys)
  {
  }

  /** What a merge still has to produce. */
  ghost predicate Produces(cs: bool, done: seq<Node>, us: seq<Node>, vs: seq<Node>, all: seq<Member<Node>>) {
    Pairs(done) + Merge(cs, Pairs(us), Pairs(vs)) == all
  }

  lemma ProducesTake(cs: bool, done: seq<Node>, us: seq<Node>, vs: seq<Node>, all: seq<Member<Node>>)
    requires Produces(cs, done, us, vs, all) && us != [] && vs != []
    ensures if Compare(cs, us[0].key, vs[0].key) < 0 then Produces(cs, done + [us[0]], us[1..], vs, all)
            else Produces(cs, done + [vs[0]], us, vs[1..], all)
  {
    hide Compare;
    assert Pairs(us)[1..] == Pairs(us[1..]) && Pairs(vs)[1..] == Pairs(vs[1..]);
    if Compare(cs, us[0].key, vs[0].key) < 0 {
      PairsParts(done, [us[0]]);
      assert Pairs([us[0]]) == [Pairs(us)[0]];
    } else {
      PairsParts(done, [vs[0]]);
      assert Pairs([vs[0]]) == [Pairs(vs)[0]];
    }
  }

  lemma ProducesLast(cs: bool, done: seq<Node>, us: seq<Node>, vs: seq<Node>, all: seq<Member<Node>>)
    requires Produces(cs, done, us, vs, all) && (us == [] || vs == [])
    ensures Pairs(done + us + vs) == all
  {
    PairsParts(done, us);
    PairsParts(done + us, vs);
  }

  /** The loop of `sort_list` that merges two sorted chains, and what follows it. */
  method MergeLists(list: Node, other: Node, cs: bool, ghost xs: seq<Node>, ghost ys: seq<Node>)
    returns (result: Node?, ghost rs: seq<Node>)
    requires Linked(xs) && Linked(ys) && Apart(xs, ys) && xs != [] && ys != [] && list == xs[0] && other == ys[0]
    modifies Nodes(xs)`next, Nodes(xs)`prev, Nodes(ys)`next, Nodes(ys)`prev
    ensures Linked(rs) && result == Head(rs) && Pairs(rs) == Merge(cs, Pairs(xs), Pairs(ys))
    ensures Same(rs, [], [], xs, ys) && |rs| == |xs| + |ys|
    ensures rs != [] && (rs[0] == xs[0] || rs[0] == ys[0]) && rs[0].prev == old(rs[0].prev)
  {
    ghost var all := Merge(cs, Pairs(xs), Pairs(ys));
    var first: Node?, second: Node?, tail: Node? := list, other, null;
    result := null;
    ghost var done: seq<Node>, us, vs := [], xs, ys;
    assert Produces(cs, done, us, vs, all) by { assert Pairs([]) + all == all; }
    assert Same(done, us, vs, xs, ys);
    MergingStart(xs, ys);
    hide Produces, Same, Open, Linked, Pairs, Merge, Compare, Merging;
    while first != null && second != null
      invariant Merging(result, tail, done, us, vs) && first == Head(us) && second == Head(vs)
      invariant us != [] || vs != []
      invariant Same(done, us, vs, xs, ys) && Produces(cs, done, us, vs, all)
      invariant result == Head(done)
      invariant if result == null then us == xs && vs == ys else result == xs[0] || result == ys[0]
      invariant if result == null then xs[0].prev == old(xs[0].prev) && ys[0].prev == old(ys[0].prev)
                else result.prev == old(result.prev)
      decreases |us| + |vs|
    {
      ProducesTake(cs, done, us, vs, all);
      MergingParts(result, tail, done, us, vs);
      SameTake(done, us, vs, xs, ys);
      NodesIn(done, us, vs, xs, ys);
      var smaller;
      if Compare(cs, first.key, second.key) < 0 {
        smaller := first;
        assert smaller in us && (done != [] ==> tail in done);
        result, first := Take(smaller, result, tail, done, us, vs);
        us := us[1..];
      } else {
        smaller := second;
        assert smaller in vs && (done != [] ==> tail in done);
        MergingSwapped(result, tail, done, us, vs);
        result, second := Take(smaller, result, tail, done, vs, us);
        vs := vs[1..];
        MergingSwapped(result, smaller, done + [smaller], vs, us);
      }
      tail := smaller;
      done := done + [smaller];
    }
    NodesIn(done, us, vs, xs, ys);
    ProducesLast(cs, done, us, vs, all);
    SameAll(done, us, vs, xs, ys);
    rs := done + us + vs;
    assert tail != null && done[|done| - 1] in done by { MergingParts(result, tail, done, us, vs); }
    assert (first != null ==> first in us) && (second != null ==> second in vs);
    AppendRest(first, second, result, tail, done, us, vs);
    assert |rs| == |Pairs(rs)| == |Pairs(xs)| + |Pairs(ys)|;
  }

  /** What follows the loop: whatever is left of either list is appended. */
  method AppendRest(first: Node?, second: Node?, result: Node?, tail: Node,
                    ghost done: seq<Node>, ghost us: seq<Node>, ghost vs: seq<Node>)
    requires Merging(result, tail, done, us, vs) && done != [] && first == Head(us) && second == Head(vs)
    requires (us == []) != (vs == [])
    modifies {tail}`next, (if first == null then {} else {first})`prev, (if second == null then {} else {second})`prev
    ensures Linked(done + us + vs) && result == done[0] && result.prev == old(result.prev)
  {
    assert done[0] in done && (us != [] ==> us[0] in us) && (vs != [] ==> vs[0] in vs);
    if first != null {
      assert done + us + vs == done + us;
      Finish(tail, first, done, us);
    }
    if second != null {
      assert done + us + vs == done + vs;
      Finish(tail, second, done, vs);
    }
  }

  lemma NodesIn(done: seq<Node>, us: seq<Node>, vs: seq<Node>, xs: seq<Node>, ys: seq<Node>)
    requires Same(done, us, vs, xs, ys)
    ensures forall n :: n in done ==> n in xs || n in ys
    ensures forall n :: n in us ==> n in xs || n in ys
    ensures forall n :: n in vs ==> n in xs || n in ys
  {
  }

  lemma SameAll(done: seq<Node>, us: seq<Node>, vs: seq<Node>, xs: seq<Node>, ys: seq<Node>)
    requires Same(done, us, vs, xs, ys)
    ensures Same(done + us + vs, [], [], xs, ys)
  {
  }

  /** `list` k steps on. */
  function At(ns: seq<Node>, k: nat): Node? {
    if k < |ns| then ns[k] else null
  }

  lemma AtNext(ns: seq<Node>, k: nat)
    requires Linked(ns) && k < |ns|
    ensures ns[k].next == At(ns, k + 1)
  {
    LinkAt(ns, k);
  }

  /** The first loop of `sort_list`. */
  method IsSorted(list: Node, cs: bool, ghost ns: seq<Node>) returns (sorted: bool)
    requires Linked(ns) && ns != [] && list == ns[0]
    ensures sorted == AlreadySorted(cs, Pairs(ns))
  {
    hide Compare, Linked;
    var current: Node? := list;
    ghost var k := 0;
    AtNext(ns, 0);
    while current != null && current.next != null && Compare(cs, current.key, current.next.key) < 0
      invariant 0 <= k < |ns| && current == ns[k] && ns[k].next == At(ns, k + 1)
      invariant forall i :: 0 <= i < k ==> Compare(cs, Pairs(ns)[i].key, Pairs(ns)[i + 1].key) < 0
      decreases |ns| - k
    {
      AtNext(ns, k + 1);
      current := current.next;
      k := k + 1;
    }
    sorted := current == null || current.next == null;
    if !sorted {
      assert !(Compare(cs, Pairs(ns)[k].key, Pairs(ns)[k + 1].key) < 0);
    }
  }

  /** The second loop: two pointers, one twice as fast, find the middle. */
  method Middle(list: Node, ghost ns: seq<Node>) returns (second: Node?)
    requires Linked(ns) && |ns| > 1 && list == ns[0]
    ensures Half(|ns|) < |ns| && second == ns[Half(|ns|)]
  {
    hide Linked;
    second := list;
    var current: Node? := list;
    ghost var k := 0;
    while current != null
      invariant 0 <= k && 2 * k <= |ns| + 1 && k < |ns| && second == At(ns, k) && current == At(ns, 2 * k)
      decreases |ns| + 1 - 2 * k
    {
      AtNext(ns, k);
      AtNext(ns, 2 * k);
      second := second.next;
      current := current.next;
      if current != null {
        AtNext(ns, 2 * k + 1);
        current := current.next;
      }
      k := k + 1;
    }
  }

  lemma SlicesApart(ns: seq<Node>, h: nat)
    requires Distinct(ns) && h <= |ns|
    ensures Apart(ns[..h], ns[h..]) && Same(ns, [], [], ns[..h], ns[h..])
    ensures forall n :: n in ns[..h] ==> n in ns
    ensures forall n :: n in ns[h..] ==> n in ns
  {
    assert ns == ns[..h] + ns[h..];
  }

  /** Cutting a chain in two. */
  method Split(second: Node, ghost ns: seq<Node>, ghost h: nat)
    requires Linked(ns) && 0 < h < |ns| && second == ns[h]
    modifies {ns[h - 1]}`next, {ns[h]}`prev
    ensures Linked(ns[..h]) && Linked(ns[h..]) && second.prev == null
  {
    LinkAt(ns, h);
    if second.prev != null {
      second.prev.next := null;
      second.prev := null;
    }
    ghost var xs, ys := ns[..h], ns[h..];
    assert forall i :: 0 <= i < |ys| ==> ys[i] == ns[h + i];
  }

  /** The same nodes, in any order. */
  ghost predicate SameNodes(xs: seq<Node>, ys: seq<Node>) {
    |xs| == |ys| && (forall n :: n in xs ==> n in ys) && (forall n :: n in ys ==> n in xs)
  }

  /**
   * `sort_list`: a chain of the same nodes in the order the merge sort on sequences gives. The head's `prev` is not
   * repaired: it is what it was if the head stayed in place, and otherwise NULL.
   */
  method SortChain(list: Node?, cs: bool, ghost ns: seq<Node>) returns (result: Node?, ghost rs: seq<Node>)
    requires Linked(ns) && list == Head(ns)
    modifies Nodes(ns)`next, Nodes(ns)`prev
    ensures Linked(rs) && result == Head(rs) && SameNodes(rs, ns)
    ensures Pairs(rs) == Sort(cs, Pairs(ns))
    ensures ns != [] ==> rs[0].prev == if rs[0] == ns[0] then old(ns[0].prev) else null
    decreases |ns|
  {
    if ns != [] { LinkAt(ns, 0); }
    if list == null || list.next == null {
      return list, ns;
    }
    var sorted := IsSorted(list, cs, ns);
    if sorted {
      return list, ns;
    }
    var second := Middle(list, ns);
    ghost var h := Half(|ns|);
    SlicesApart(ns, h);
    PairsSlices(ns, h);
    Split(second, ns, h);
    result, rs := SortHalves(list, second, cs, ns, h);
  }

  /** The recursive calls and the merge. */
  method SortHalves(list: Node, other: Node, cs: bool, ghost ns: seq<Node>, ghost h: nat)
    returns (result: Node?, ghost rs: seq<Node>)
    requires 0 < h < |ns| && Distinct(ns) && Linked(ns[..h]) && Linked(ns[h..]) && list == ns[0] && other == ns[h]
    requires other.prev == null
    modifies Nodes(ns)`next, Nodes(ns)`prev
    ensures Linked(rs) && result == Head(rs) && SameNodes(rs, ns)
    ensures Pairs(rs) == Merge(cs, Sort(cs, Pairs(ns[..h])), Sort(cs, Pairs(ns[h..])))
    ensures rs[0].prev == if rs[0] == ns[0] then old(ns[0].prev) else null
    decreases |ns|, 0
  {
    hide Sort, Merge, Linked, Pairs;
    SlicesApart(ns, h);
    ghost var xs, ys;
    var first, second;
    first, xs := SortChain(list, cs, ns[..h]);
    HalvesApart(ns, h, xs, ns[h..]);
    second, ys := SortChain(other, cs, ns[h..]);
    HalvesApart(ns, h, xs, ys);
    assert ns[..h][0] == ns[0] && ns[h..][0] == ns[h];
    result, rs := MergeLists(first, second, cs, xs, ys);
    SameNodesAll(ns, h, xs, ys, rs);
  }

  lemma HalvesApart(ns: seq<Node>, h: nat, xs: seq<Node>, ys: seq<Node>)
    requires 0 < h < |ns| && Distinct(ns) && SameNodes(xs, ns[..h]) && SameNodes(ys, ns[h..])
    ensures Apart(xs, ys) && xs[0] in xs && ys[0] in ys && ns[0] !in ys
    ensures forall n :: n in xs ==> n in ns
    ensures forall n :: n in ys ==> n in ns
    ensures forall n :: n in xs ==> n !in ns[h..]
  {
    SlicesApart(ns, h);
    assert ns[..h][0] == ns[0];
    forall n | n in xs ensures n in ns && n !in ys && n !in ns[h..] {
      assert n in ns[..h];
    }
  }

  lemma SameNodesAll(ns: seq<Node>, h: nat, xs: seq<Node>, ys: seq<Node>, rs: seq<Node>)
    requires h <= |ns| && SameNodes(xs, ns[..h]) && SameNodes(ys, ns[h..]) && |rs| == |xs| + |ys|
    requires Same(rs, [], [], xs, ys)
    ensures SameNodes(rs, ns)
  {
    assert ns == ns[..h] + ns[h..];
    forall n | n in rs ensures n in ns {
      assert n in xs || n in ys;
    }
  }

  /** The first key is less than all others. */
  predicate Leads(cs: bool, ns: seq<Node>) {
    forall j :: 0 < j < |ns| ==> Compare(cs, ns[0].key, ns[j].key) < 0
  }

  /** The last key is greater than all others. */
  predicate Trails(cs: bool, ns: seq<Node>) {
    forall j :: 0 <= j < |ns| - 1 ==> Compare(cs, ns[j].key, ns[|ns| - 1].key) < 0
  }

  /** Sorting leaves the ends of a list where they are exactly if their keys are the extremes, and alone so. */
  lemma EndsByKeys(cs: bool, ns: seq<Node>, rs: seq<Node>)
    requires ns != [] && Distinct(ns) && Pairs(rs) == Sort(cs, Pairs(ns))
    ensures |rs| == |ns|
    ensures rs[0] == ns[0] <==> Leads(cs, ns)
    ensures rs[|rs| - 1] == ns[|ns| - 1] <==> Trails(cs, ns)
  {
    hide Sort;
    var ms := Pairs(ns);
    var first := SortFirst(cs, ms);
    var last := SortLast(cs, ms);
    assert Pairs(rs)[0].value == rs[0] == ns[first] && Pairs(rs)[|rs| - 1].value == rs[|rs| - 1] == ns[last];
    assert forall j :: 0 <= j < |ns| ==> ms[j].key == ns[j].key;
    if first > 0 { CompareOrder(cs, ms[first].key, ms[0].key); }
    if last < |ns| - 1 { CompareOrder(cs, ms[last].key, ms[|ns| - 1].key); }
  }

  /**
   * `sort_object`: the list keeps its full shape exactly if its first key was less and its last key greater than all
   * others. The head's `prev` is the old tail while the head keeps its place, and otherwise NULL.
   */
  method SortObject(parent: Node, cs: bool, ghost ns: seq<Node>) returns (ghost rs: seq<Node>)
    requires Shape(parent, ns)
    modifies parent`child, Nodes(ns)`next, Nodes(ns)`prev
    ensures Chain(parent, rs) && SameNodes(rs, ns) && Pairs(rs) == Sort(cs, Pairs(ns))
    ensures Shape(parent, rs) <==> Leads(cs, ns) && Trails(cs, ns)
    ensures ns != [] ==> rs[0].prev == if Leads(cs, ns) then ns[|ns| - 1] else null
    ensures ns != [] ==> (rs[0] == ns[0] <==> Leads(cs, ns)) && (rs[|rs| - 1] == ns[|ns| - 1] <==> Trails(cs, ns))
  {
    hide Sort, Linked, Pairs;
    assert Distinct(ns) by { LinkedDistinct(ns); }
    var sorted;
    sorted, rs := SortChain(parent.child, cs, ns);
    parent.child := sorted;
    if ns != [] { EndsByKeys(cs, ns, rs); }
    hide Leads, Trails;
  }

  lemma EmptyEnds(cs: bool)
    ensures Leads(cs, []) && Trails(cs, [])
  {
  }

  lemma LinkedDistinct(ns: seq<Node>)
    requires Linked(ns)
    ensures Distinct(ns)
  {
  }

  lemma OneChain(parent: Node, xs: seq<Node>, ys: seq<Node>)
    requires Chain(parent, xs) && |xs| != |ys|
    ensures !Chain(parent, ys)
  {
    if Chain(parent, ys) { ChainUnique(xs, ys); }
  }

  /**
   * Adding to an object that has been sorted puts the item at the end exactly if the first key was less and the last
   * key greater than all others. If the first was not, nothing is added; if only the last was not, the item replaces
   * everything behind the old tail.
   */
  method AppendAfterSort(parent: Node, item: Node, cs: bool, ghost ns: seq<Node>)
    returns (ok: bool, ghost rs: seq<Node>)
    requires Shape(parent, ns) && item !in ns && item != parent && item.next == null
    modifies parent`child, Nodes(ns)`next, Nodes(ns)`prev, item`next, item`prev
    ensures ok && SameNodes(rs, ns) && Pairs(rs) == Sort(cs, Pairs(ns))
    ensures Chain(parent, rs + [item]) <==> Leads(cs, ns) && Trails(cs, ns)
    ensures !Leads(cs, ns) ==> Chain(parent, rs)
    ensures forall k {:trigger rs[k]} :: 0 <= k < |rs| == |ns| && Leads(cs, ns) && rs[k] == ns[|ns| - 1] ==>
      Shape(parent, rs[..k + 1] + [item])
  {
    EmptyEnds(cs);
    hide Leads, Trails;
    rs := SortObject(parent, cs, ns);
    hide Sort, Linked, Pairs;
    ghost var last := if rs == [] then null else rs[0].prev;
    assert Distinct(rs) by { LinkedDistinct(rs); }
    ok := Append(parent, item, rs);
    if rs == [] {
      assert rs + [item] == [item];
    } else if last == null {
      OneChain(parent, rs, rs + [item]);
    } else {
      ghost var k :| 0 <= k < |rs| && rs[k] == last;
      if k + 1 == |rs| {
        assert rs[..k + 1] == rs;
      } else {
        OneChain(parent, rs[..k + 1] + [item], rs + [item]);
      }
    }
  }
}
