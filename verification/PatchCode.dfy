/** The patch generator and the patch interpreter as they run: a growing list of patches, and a document edited in place. */
module PatchCode {
  import opened Text
  import opened Json
  import opened Sorting
  import opened Trees
  import opened Equality
  import opened PointerText
  import opened Pointer
  import opened Locate
  import opened Patch

  class PatchList {
    var patches: seq<Json>

    constructor ()
      ensures patches == []
    {
      patches := [];
    }

    method Compose(operation: Str, path: Str, suffix: Option<Str>, value: Option<Json>)
      modifies this
      ensures patches == old(patches) + [ComposePatch(operation, path, suffix, value)]
    {
      var full := path;
      if suffix.Some? {
        var encoded := EncodeStringAsPointer(suffix.value);
        full := path + [SLASH] + encoded;
      }
      var members := [Member(OP, String(operation)), Member(PATH, String(full))];
      if value.Some? {
        members := members + [Member(VALUE, value.value)];
      }
      assert value.None? ==> members == members + [];
      patches := patches + [Object(members)];
    }

    /** `create_patches`. */
    method CreatePatches(path: Str, from: Json, to: Json, cs: bool)
      modifies this
      ensures patches == old(patches) + Patches(cs, path, from, to)
      decreases Size(from), 2
    {
      if !SameKind(from, to) {
        Compose(REPLACE, path, None, Some(to));
        return;
      }
      match from {
        case Number(n) => if n != to.n { Compose(REPLACE, path, None, Some(to)); }
        case String(s) => if s != to.s { Compose(REPLACE, path, None, Some(to)); }
        case Array(items) => CreateItemPatches(path, items, to.items, cs);
        case Object(ms) => CreateMemberPatches(path, ms, to.members, cs);
        case _ =>
      }
    }

    method CreateItemPatches(path: Str, xs: seq<Json>, ys: seq<Json>, cs: bool)
      modifies this
      ensures patches == old(patches) + ItemPatches(cs, path, xs, ys, 0)
      decreases SizeItems(xs) + 1, 1
    {
      ghost var before, all := patches, ItemPatches(cs, path, xs, ys, 0);
      var i := 0;
      while i < |xs| && i < |ys|
        invariant i <= |xs| && i <= |ys|
        invariant before + all == patches + ItemPatches(cs, path, xs[i..], ys[i..], i)
      {
        ItemSmaller(xs, i);
        ghost var now := patches;
        CreatePatches(path + [SLASH] + Decimal(i), xs[i], ys[i], cs);
        assert xs[i..][1..] == xs[i + 1..] && ys[i..][1..] == ys[i + 1..];
        Regroup(now, Patches(cs, path + [SLASH] + Decimal(i), xs[i], ys[i]), ItemPatches(cs, path, xs[i + 1..], ys[i + 1..], i + 1));
        i := i + 1;
      }
      if i < |xs| {
        assert ys[i..] == [];
        RemoveRest(path, xs, i, cs);
      } else {
        assert xs[i..] == [];
        AppendRest(path, ys, i, cs);
      }
    }

    /** The second loop of the array case: what is left of the old array is removed at one index. */
    method RemoveRest(path: Str, xs: seq<Json>, i: nat, ghost cs: bool)
      requires i <= |xs|
      modifies this
      ensures patches == old(patches) + ItemPatches(cs, path, xs[i..], [], i)
    {
      ghost var before, all := patches, ItemPatches(cs, path, xs[i..], [], i);
      var j := i;
      while j < |xs|
        invariant i <= j <= |xs|
        invariant before + all == patches + ItemPatches(cs, path, xs[j..], [], i)
      {
        ghost var now := patches;
        Compose(REMOVE, path, Some(Decimal(i)), None);
        assert xs[j..][1..] == xs[j + 1..];
        Regroup(now, [ComposePatch(REMOVE, path, Some(Decimal(i)), None)], ItemPatches(cs, path, xs[j + 1..], [], i));
        j := j + 1;
      }
      assert xs[j..] == [];
    }

    /** The third loop: what is left of the new array is appended. */
    method AppendRest(path: Str, ys: seq<Json>, i: nat, ghost cs: bool)
      requires i <= |ys|
      modifies this
      ensures patches == old(patches) + ItemPatches(cs, path, [], ys[i..], i)
    {
      ghost var before, all := patches, ItemPatches(cs, path, [], ys[i..], i);
      var k := i;
      while k < |ys|
        invariant i <= k <= |ys|
        invariant before + all == patches + ItemPatches(cs, path, [], ys[k..], i)
      {
        ghost var now := patches;
        Compose(ADD, path, Some(DASH), Some(ys[k]));
        assert ys[k..][1..] == ys[k + 1..];
        Regroup(now, [ComposePatch(ADD, path, Some(DASH), Some(ys[k]))], ItemPatches(cs, path, [], ys[k + 1..], i));
        k := k + 1;
      }
      assert ys[k..] == [];
    }

    method CreateMemberPatches(path: Str, from: Members, to: Members, cs: bool)
      modifies this
      ensures patches == old(patches) + MemberPatches(cs, path, Sort(cs, from), Sort(cs, to))
      decreases SizeMembers(from) + 1, 1
    {
      hide Sort;
      var xs, ys := Sort(cs, from), Sort(cs, to);
      SizeSort(cs, from);
      assert xs[0..] == xs && ys[0..] == ys;
      ghost var before, all := patches, MemberPatches(cs, path, xs, ys);
      var i, j := 0, 0;
      while i < |xs| || j < |ys|
        invariant i <= |xs| && j <= |ys|
        invariant before + all == patches + Remaining(cs, path, xs, ys, i, j)
        decreases |xs| - i + |ys| - j
      {
        hide MemberPatches, ComposePatch;
        ghost var now := patches;
        var diff;
        if i == |xs| {
          diff := 1;
        } else if j == |ys| {
          diff := -1;
        } else {
          diff := CompareStrings(xs[i].key, ys[j].key, cs);
        }
        RemainingStep(cs, path, xs, ys, i, j, diff);
        if diff == 0 {
          MemberSmaller(xs, i);
          var encoded := EncodeStringAsPointer(xs[i].key);
          CreatePatches(path + [SLASH] + encoded, xs[i].value, ys[j].value, cs);
          Regroup(now, Patches(cs, path + [SLASH] + encoded, xs[i].value, ys[j].value), Remaining(cs, path, xs, ys, i + 1, j + 1));
          i, j := i + 1, j + 1;
        } else if diff < 0 {
          Compose(REMOVE, path, Some(xs[i].key), None);
          Regroup(now, [ComposePatch(REMOVE, path, Some(xs[i].key), None)], Remaining(cs, path, xs, ys, i + 1, j));
          i := i + 1;
        } else {
          Compose(ADD, path, Some(ys[j].key), Some(ys[j].value));
          Regroup(now, [ComposePatch(ADD, path, Some(ys[j].key), Some(ys[j].value))], Remaining(cs, path, xs, ys, i, j + 1));
          j := j + 1;
        }
      }
      assert xs[i..] == [] && ys[j..] == [];
    }
  }

  /** What is still to be generated with the cursors at i and j. */
  function Remaining(cs: bool, path: Str, xs: Members, ys: Members, i: nat, j: nat): seq<Json>
    requires i <= |xs| && j <= |ys|
  {
    MemberPatches(cs, path, xs[i..], ys[j..])
  }

  lemma RemainingStep(cs: bool, path: Str, xs: Members, ys: Members, i: nat, j: nat, diff: int)
    requires i <= |xs| && j <= |ys| && (i < |xs| || j < |ys|)
    requires diff == if i == |xs| then 1 else if j == |ys| then -1 else Compare(cs, xs[i].key, ys[j].key)
    ensures Remaining(cs, path, xs, ys, i, j) ==
      if diff == 0 then
        Patches(cs, path + [SLASH] + Encode(xs[i].key), xs[i].value, ys[j].value) + Remaining(cs, path, xs, ys, i + 1, j + 1)
      else if diff < 0 then
        [ComposePatch(REMOVE, path, Some(xs[i].key), None)] + Remaining(cs, path, xs, ys, i + 1, j)
      else
        [ComposePatch(ADD, path, Some(ys[j].key), Some(ys[j].value))] + Remaining(cs, path, xs, ys, i, j + 1)
  {
    assert i < |xs| ==> xs[i..][1..] == xs[i + 1..];
    assert j < |ys| ==> ys[j..][1..] == ys[j + 1..];
    hide ComposePatch, Patches;
  }

  /** A well-formed `test` patch. */
  predicate IsTest(cs: bool, patch: Json) {
    var path, op := Lookup(cs, patch, PATH), Lookup(cs, patch, OP);
    path.Some? && path.value.String? && op.Some? && op.value == String(TEST)
  }

  lemma TestIsOutside(cs: bool, doc: Json, patch: Json)
    ensures IsTest(cs, patch) ==> ApplyPatch(cs, doc, patch) == Outside
  {
  }

  /** There is a node at the path, and it means what the value means. */
  predicate Agrees(cs: bool, doc: Json, path: Str, value: Option<Json>) {
    var position := LocatePointer(cs, doc, path);
    position.Some? && value.Some? && Meaning(cs, At(doc, position.value)) == Meaning(cs, value.value)
  }

  lemma UniqueValue(cs: bool, patch: Json, key: Str)
    ensures Lookup(cs, patch, key).Some? && UniqueTree(cs, patch) ==> UniqueTree(cs, Lookup(cs, patch, key).value)
  {
  }

  /** A node of a tree with unique keys has unique keys; exchanging it for a reordered one reorders the tree. */
  lemma {:induction false} UniqueAt(cs: bool, doc: Json, position: Position, changed: Json)
    requires ValidPosition(doc, position) && ReorderedTree(cs, At(doc, position), changed)
    ensures UniqueTree(cs, doc) ==> UniqueTree(cs, At(doc, position))
    ensures ReorderedTree(cs, doc, PutAt(doc, position, changed))
    decreases |position|
  {
    if position != [] {
      var i := position[0];
      UniqueAt(cs, Child(doc, i), position[1..], changed);
      ReorderedChild(cs, doc, i, PutAt(Child(doc, i), position[1..], changed));
    }
  }

  lemma ReorderedChild(cs: bool, doc: Json, i: nat, changed: Json)
    requires i < Arity(doc) && ReorderedTree(cs, Child(doc, i), changed)
    ensures ReorderedTree(cs, doc, PutChild(doc, i, changed))
  {
    match doc {
      case Array(items) => ReorderedInItems(cs, items, i, changed);
      case Object(ms) => ReorderedInMembers(cs, ms, i, changed);
    }
  }

  lemma ReorderedInItems(cs: bool, items: seq<Json>, i: nat, changed: Json)
    requires i < |items| && ReorderedTree(cs, items[i], changed)
    ensures ReorderedTree(cs, Array(items), Array(items[i := changed]))
  {
    SizeItemsUpdate(items, i, changed);
    MeaningItemsUpdate(cs, items, i, changed);
    MeaningItemsAt(cs, items, i);
    hide SizeItems, MeaningItems;
    assert forall x :: x in items[i := changed] ==> x in items || x == changed;
  }

  lemma ReorderedInMembers(cs: bool, ms: Members, i: nat, changed: Json)
    requires i < |ms| && ReorderedTree(cs, ms[i].value, changed)
    ensures ReorderedTree(cs, Object(ms), Object(ms[i := Member(ms[i].key, changed)]))
  {
    var m := Member(ms[i].key, changed);
    var after := ms[i := m];
    SizeUpdate(ms, i, m);
    UpdateKeepsKeys(cs, ms, i, changed);
    MemberUpdated(ms, i, m);
    hide SizeMembers, Fields, UniqueKeys, StrictlySorted, UniqueTree, Meaning, Size;
    if UniqueMembers(cs, ms) {
      FieldsUpdate(cs, ms, i, changed);
      FieldsAt(cs, ms, i);
    }
    ObjectReordered(cs, ms, after);
  }

  lemma ObjectReordered(cs: bool, before: Members, after: Members)
    requires SizeMembers(after) == SizeMembers(before)
    requires UniqueMembers(cs, before) ==> UniqueMembers(cs, after) && Fields(cs, after) == Fields(cs, before)
    ensures ReorderedTree(cs, Object(before), Object(after))
  {
  }

  class Document {
    var root: Json

    constructor (root: Json)
      ensures this.root == root
    {
      this.root := root;
    }

    /** `detach_path`: the node, if there is one, which the document is then without. */
    method DetachNode(path: Str, cs: bool) returns (item: Option<Json>)
      modifies this
      ensures item == DetachedItem(cs, old(root), path)
      ensures item.Some? <==> DetachPath(cs, old(root), path).Some?
      ensures root == if item.Some? then DetachPath(cs, old(root), path).value else old(root)
    {
      DetachesBoth(cs, root, path);
      var slash := LastSlash(path);
      if slash == None {
        return None;
      }
      var position, parent := GetItemFromPointer(root, path[..slash.value], cs);
      if position == None {
        return None;
      }
      var child := DecodeInPlace(path[slash.value + 1..]);
      match parent.value {
        case Array(items) =>
          var i := DecodeArrayIndex(child, 0);
          if i == None || i.value >= |items| {
            return None;
          }
          item := Some(items[i.value]);
          root := PutAt(root, position.value, Array(RemoveAt(items, i.value)));
        case Object(ms) =>
          var i := GetObjectItem(ms, child, false);
          if i == |ms| {
            return None;
          }
          item := Some(ms[i].value);
          root := PutAt(root, position.value, Object(RemoveAt(ms, i)));
        case _ => return None;
      }
    }

    /** The last part of `apply_patch`. */
    method AddNode(path: Str, v: Json, cs: bool) returns (status: nat)
      modifies this
      ensures status == 0 ==> AddPath(cs, old(root), path, v) == Done(root)
      ensures status != 0 ==> AddPath(cs, old(root), path, v) == Failed(status, root)
    {
      var slash := LastSlash(path);
      if slash == None {
        return 9;
      }
      var position, parent := GetItemFromPointer(root, path[..slash.value], cs);
      if position == None {
        return 9;
      }
      var child := DecodeInPlace(path[slash.value + 1..]);
      match parent.value {
        case Array(items) =>
          if child == DASH {
            root := PutAt(root, position.value, Array(items + [v]));
          } else {
            var i := DecodeArrayIndex(child, 0);
            if i == None {
              return 11;
            }
            if i.value > |items| {
              return 10;
            }
            root := PutAt(root, position.value, Array(InsertAt(items, i.value, v)));
          }
        case Object(ms) =>
          root := PutAt(root, position.value, Object(SetMember(cs, ms, child, v)));
        case _ => return 9;
      }
      return 0;
    }

    /** Finding the value of a `move` or `copy`; a status other than 0 says why there is none. */
    method FetchFrom(from: Option<Json>, move: bool, cs: bool) returns (status: nat, value: Json)
      requires from.Some? && move ==> from.value.String?
      modifies this
      ensures status != 0 ==> forall path :: MoveOrCopy(cs, old(root), path, from, move) == Failed(status, root)
      ensures status == 0 ==> forall path :: MoveOrCopy(cs, old(root), path, from, move) == AddPath(cs, root, path, value)
    {
      value := Null;
      if from == None {
        return 4, value;
      }
      if !from.value.String? {
        return 5, value;
      }
      var item;
      if move {
        item := DetachNode(from.value.s, cs);
      } else {
        var position;
        position, item := GetItemFromPointer(root, from.value.s, cs);
      }
      if item == None {
        return 5, value;
      }
      return 0, item.value;
    }

    /** The comparison of a `test`, which sorts the objects it walks. */
    method RunTest(path: Str, value: Option<Json>, cs: bool) returns (status: nat)
      modifies this
      ensures status <= 1 && ReorderedTree(cs, old(root), root)
      ensures UniqueTree(cs, old(root)) && (value.Some? ==> UniqueTree(cs, value.value)) ==>
        (status == 0 <==> Agrees(cs, old(root), path, value))
    {
      var position, node := GetItemFromPointer(root, path, cs);
      if position == None || value == None {
        return 1;
      }
      var identical, changed, other := SortWalkCompare(node.value, value.value, cs);
      UniqueAt(cs, root, position.value, changed);
      root := PutAt(root, position.value, changed);
      status := if identical then 0 else 1;
    }

    /** `apply_patch`, but for removing the root and moving from something that is no string. */
    method ApplyOne(patch: Json, cs: bool) returns (status: nat)
      requires ApplyPatch(cs, root, patch) != Outside || IsTest(cs, patch)
      modifies this
      ensures !IsTest(cs, patch) ==>
        ApplyPatch(cs, old(root), patch) == if status == 0 then Done(root) else Failed(status, root)
      ensures IsTest(cs, patch) ==> status <= 1 && ReorderedTree(cs, old(root), root)
      ensures IsTest(cs, patch) && UniqueTree(cs, old(root)) && UniqueTree(cs, patch) ==>
        (status == 0 <==> Agrees(cs, old(root), Lookup(cs, patch, PATH).value.s, Lookup(cs, patch, VALUE)))
    {
      var path, op, value := Lookup(cs, patch, PATH), Lookup(cs, patch, OP), Lookup(cs, patch, VALUE);
      if !(path.Some? && path.value.String?) {
        return 2;
      }
      if !(op.Some? && op.value.String? && op.value.s in {ADD, REMOVE, REPLACE, MOVE, COPY, TEST}) {
        return 3;
      }
      if op.value.s == TEST {
        UniqueValue(cs, patch, VALUE);
        status := RunTest(path.value.s, value, cs);
        return;
      }
      if op.value.s in {MOVE, COPY} {
        var v;
        status, v := FetchFrom(Lookup(cs, patch, FROM), op.value.s == MOVE, cs);
        if status == 0 {
          status := AddNode(path.value.s, v, cs);
        }
        return;
      }
      if path.value.s == [] {
        if value == None {
          return 7;
        }
        root := value.value;
        return 0;
      }
      if op.value.s != ADD {
        var item := DetachNode(path.value.s, cs);
        if item == None {
          return 13;
        }
        if op.value.s == REMOVE {
          return 0;
        }
      }
      if value == None {
        return 7;
      }
      status := AddNode(path.value.s, value.value, cs);
    }

    /** `cJSONUtils_ApplyPatches` and its case-sensitive twin. */
    method ApplyPatches(patches: Json, cs: bool) returns (status: nat)
      requires patches.Array? ==> ApplyAll(cs, root, patches.items) != Outside
      modifies this
      ensures !patches.Array? ==> status == 1 && root == old(root)
      ensures patches.Array? && status == 0 ==> ApplyAll(cs, old(root), patches.items) == Done(root)
      ensures patches.Array? && status != 0 ==> ApplyAll(cs, old(root), patches.items) == Failed(status, root)
    {
      if !patches.Array? {
        return 1;
      }
      var items := patches.items;
      ghost var result := ApplyAll(cs, root, items);
      var i := 0;
      while i < |items|
        invariant i <= |items|
        invariant ApplyAll(cs, root, items[i..]) == result
      {
        assert items[i..][1..] == items[i + 1..];
        TestIsOutside(cs, root, items[i]);
        status := ApplyOne(items[i], cs);
        if status != 0 {
          return;
        }
        i := i + 1;
      }
      return 0;
    }
  }
}
