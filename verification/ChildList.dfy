/** The doubly linked child list of an array or object, and the pointer surgery on it. */
module ChildList {
  import opened Text

  class Node {
    var next: Node?
    var prev: Node?
    var child: Node?
    const key: Str

    constructor (key: Str)
      ensures this.key == key && next == null && prev == null && child == null
    {
      this.key := key;
      next, prev, child := null, null, null;
    }
  }

  ghost predicate Distinct(ns: seq<Node>) {
    forall i, j :: 0 <= i < j < |ns| ==> ns[i] != ns[j]
  }

  function Head(ns: seq<Node>): Node? {
    if ns == [] then null else ns[0]
  }

  /** A chain of nodes: `next` ends in NULL, and `prev` mirrors it everywhere but at the head. */
  ghost predicate Linked(ns: seq<Node>)
    reads ns
  {
    Distinct(ns)
    && (forall i {:trigger ns[i].next} :: 0 <= i < |ns| ==> ns[i].next == if i + 1 < |ns| then ns[i + 1] else null)
    && (forall i {:trigger ns[i].prev} :: 0 < i < |ns| ==> ns[i].prev == ns[i - 1])
  }

  /** A parent and its chain of children, whatever the head's `prev`. */
  ghost predicate Chain(parent: Node, ns: seq<Node>)
    reads parent, ns
  {
    parent !in ns && parent.child == Head(ns) && Linked(ns)
  }

  /** The shape of a child list: the head's `prev` is the tail. */
  ghost predicate Shape(parent: Node, ns: seq<Node>)
    reads parent, ns
  {
    Chain(parent, ns) && (ns != [] ==> ns[0].prev == ns[|ns| - 1])
  }

  lemma LinkAt(ns: seq<Node>, k: nat)
    requires Linked(ns) && k < |ns|
    ensures ns[k].next == if k + 1 < |ns| then ns[k + 1] else null
    ensures k > 0 ==> ns[k].prev == ns[k - 1]
  {
  }

  /** The nodes a shape describes are determined by the heap. */
  lemma {:induction false} ChainUnique(ns: seq<Node>, ms: seq<Node>)
    requires Linked(ns) && Linked(ms) && Head(ns) == Head(ms)
    ensures ns == ms
  {
    if |ns| <= |ms| { ChainPrefix(ns, ms, |ns|); } else { ChainPrefix(ms, ns, |ms|); }
  }

  lemma {:induction false} ChainPrefix(ns: seq<Node>, ms: seq<Node>, k: nat)
    requires Linked(ns) && Linked(ms) && Head(ns) == Head(ms) && k <= |ns| <= |ms|
    ensures ns[..k] == ms[..k]
    ensures k == |ns| ==> |ns| == |ms|
  {
    if k > 0 {
      ChainPrefix(ns, ms, k - 1);
      if k > 1 {
        assert ns[k - 2] == ns[..k - 1][k - 2] == ms[..k - 1][k - 2] == ms[k - 2];
        LinkAt(ns, k - 2);
        LinkAt(ms, k - 2);
      }
      assert ns[k - 1] == ms[k - 1];
      LinkAt(ns, k - 1);
      LinkAt(ms, k - 1);
    }
  }

  // ---------------------------------------------------------------- sequence operations

  function Inserted(ns: seq<Node>, k: nat, item: Node): seq<Node>
    requires k <= |ns|
  {
    ns[..k] + [item] + ns[k..]
  }

  function Removed(ns: seq<Node>, k: nat): seq<Node>
    requires k < |ns|
  {
    ns[..k] + ns[k + 1..]
  }

  lemma DistinctAt(ns: seq<Node>, k: nat)
    requires Distinct(ns) && k < |ns|
    ensures forall i :: 0 <= i < |ns| && i != k ==> ns[i] != ns[k]
  {
  }

  lemma InsertedNodes(ns: seq<Node>, k: nat, item: Node)
    requires k <= |ns| && Distinct(ns) && item !in ns
    ensures Distinct(Inserted(ns, k, item))
    ensures var all := Inserted(ns, k, item);
      forall i :: 0 <= i < |all| ==> all[i] == if i < k then ns[i] else if i == k then item else ns[i - 1]
  {
  }

  lemma RemovedNodes(ns: seq<Node>, k: nat)
    requires k < |ns| && Distinct(ns)
    ensures Distinct(Removed(ns, k)) && ns[k] !in Removed(ns, k)
    ensures var all := Removed(ns, k);
      forall i :: 0 <= i < |all| ==> all[i] == if i < k then ns[i] else ns[i + 1]
  {
  }

  // ---------------------------------------------------------------- operations

  /**
   * `add_item_to_array`, on any chain whose head has no `prev` or one within the list, as sorting leaves it. The item
   * is put behind the node the head's `prev` names, whatever stood there before is cut off, and the item's own `next`
   * is left as it is; with no `prev` at the head the call reports success and does nothing.
   */
  method Append(parent: Node, item: Node, ghost ns: seq<Node>) returns (ok: bool)
    requires Chain(parent, ns) && (ns != [] ==> ns[0].prev == null || ns[0].prev in ns)
    requires item !in ns
    modifies parent`child, ns`next, ns`prev, item`next, item`prev
    ensures ok == (parent != item)
    ensures !ok ==> Chain(parent, ns) && old(Shape(parent, ns)) == Shape(parent, ns)
    ensures ok && ns == [] ==> Shape(parent, [item])
    ensures ok && ns != [] && old(ns[0].prev) == null ==> Chain(parent, ns) && ns[0].prev == null
    ensures forall k {:trigger ns[k]} :: ok && 0 <= k < |ns| && old(ns[0].prev) == ns[k] ==>
      (Shape(parent, ns[..k + 1] + [item]) <==> old(item.next) == null)
  {
    if parent == item {
      return false;
    }
    var child := parent.child;
    if child == null {
      parent.child := item;
      item.prev := item;
      item.next := null;
    } else {
      if child.prev != null {
        ghost var k :| 0 <= k < |ns| && ns[k] == child.prev;
        ghost var all := ns[..k + 1] + [item];
        assert forall i :: 0 <= i < |all| ==> all[i] == if i <= k then ns[i] else item;
        LinkAt(ns, k);
        child.prev.next := item;
        item.prev := child.prev;
        parent.child.prev := item;
        if item.next != null {
          assert all[k + 1].next != null;
        } else {
          assert Linked(all);
        }
        assert forall i :: 0 <= i < |ns| && ns[i] == ns[k] ==> i == k;
      }
    }
    return true;
  }

  /** The same on a list in shape: the item, linked to nothing, is put at the end. */
  method AppendToShape(parent: Node, item: Node, ghost ns: seq<Node>)
    requires Shape(parent, ns) && item !in ns && item != parent && (ns == [] || item.next == null)
    modifies parent`child, ns`next, ns`prev, item`next, item`prev
    ensures Shape(parent, ns + [item])
  {
    var ok := Append(parent, item, ns);
    if ns == [] {
      assert ns + [item] == [item];
    } else {
      assert old(ns[0].prev) == ns[|ns| - 1] && ns[..|ns| - 1 + 1] == ns;
    }
  }

  /** The walk of `get_array_item`, `detach_item_from_array` and `insert_item_in_array`. */
  method Walk(parent: Node, which: nat, ghost ns: seq<Node>) returns (c: Node?, left: nat)
    requires Shape(parent, ns)
    ensures c == if which < |ns| then ns[which] else null
    ensures left == if which < |ns| then 0 else which - |ns|
  {
    c, left := parent.child, which;
    ghost var k := 0;
    while c != null && left > 0
      invariant 0 <= k <= |ns| && k + left == which && c == if k < |ns| then ns[k] else null
      decreases left
    {
      c, left := c.next, left - 1;
      k := k + 1;
    }
  }

  /** `cJSON_DetachItemViaPointer`, for an item of the list. */
  method Detach(parent: Node, item: Node, ghost ns: seq<Node>, ghost k: nat)
    requires Shape(parent, ns) && k < |ns| && ns[k] == item
    modifies parent`child, ns`next, ns`prev
    ensures Shape(parent, Removed(ns, k)) && item.next == null && item.prev == null
  {
    LinkAt(ns, k);
    ghost var all := Removed(ns, k);
    RemovedNodes(ns, k);
    if item != parent.child {
      item.prev.next := item.next;
    }
    if item.next != null {
      item.next.prev := item.prev;
    }
    if item == parent.child {
      parent.child := item.next;
    } else if item.next == null {
      parent.child.prev := item.prev;
    }
    item.prev := null;
    item.next := null;
    hide Removed;
    assert Linked(all);
  }

  /** `cJSON_DetachItemFromArray` and `detach_item_from_array`. */
  method DetachAt(parent: Node, which: int, ghost ns: seq<Node>) returns (item: Node?)
    requires Shape(parent, ns)
    modifies parent`child, ns`next, ns`prev
    ensures item == if 0 <= which < |ns| then ns[which] else null
    ensures Shape(parent, if item == null then ns else Removed(ns, which))
    ensures item != null ==> item.next == null && item.prev == null
  {
    if which < 0 {
      return null;
    }
    var left;
    item, left := Walk(parent, which, ns);
    if item != null {
      Detach(parent, item, ns, which);
    }
  }

  /** The relinking shared by `cJSON_InsertItemInArray` and `insert_item_in_array`. */
  method InsertBefore(parent: Node, after: Node, item: Node, ghost ns: seq<Node>, ghost k: nat)
    requires Shape(parent, ns) && k < |ns| && ns[k] == after && item !in ns && item != parent
    modifies parent`child, ns`next, ns`prev, item`next, item`prev
    ensures Shape(parent, Inserted(ns, k, item))
  {
    LinkAt(ns, k);
    DistinctAt(ns, k);
    DistinctAt(ns, if k > 0 then k - 1 else |ns| - 1);
    assert forall i :: 0 <= i < |ns| ==> ns[i] != item;
    hide Distinct;
    item.next := after;
    item.prev := after.prev;
    after.prev := item;
    if after == parent.child {
      parent.child := item;
    } else {
      item.prev.next := item;
    }
    InsertedLinked(ns, k, item);
  }

  /** The links around a new node in front of node k. */
  lemma InsertedLinked(ns: seq<Node>, k: nat, item: Node)
    requires k < |ns| && Distinct(ns) && item !in ns
    requires item.next == ns[k] && ns[k].prev == item && (k > 0 ==> item.prev == ns[k - 1] && ns[k - 1].next == item)
    requires forall i {:trigger ns[i].next} :: 0 <= i < |ns| && i != k - 1 ==>
      ns[i].next == if i + 1 < |ns| then ns[i + 1] else null
    requires forall i {:trigger ns[i].prev} :: 0 < i < |ns| && i != k ==> ns[i].prev == ns[i - 1]
    ensures Linked(Inserted(ns, k, item))
  {
    InsertedNodes(ns, k, item);
    hide Inserted, Distinct;
  }

  /** `cJSON_InsertItemInArray`: a position behind the end appends. */
  method InsertClamped(parent: Node, which: int, item: Node, ghost ns: seq<Node>) returns (ok: bool)
    requires Shape(parent, ns) && item !in ns && item != parent && (which >= |ns| ==> item.next == null)
    modifies parent`child, ns`next, ns`prev, item`next, item`prev
    ensures ok == (which >= 0)
    ensures !ok ==> item.next == old(item.next)
    ensures Shape(parent, if !ok then ns else Inserted(ns, if which < |ns| then which else |ns|, item))
  {
    if which < 0 {
      return false;
    }
    var after, left := Walk(parent, which, ns);
    if after == null {
      assert Inserted(ns, |ns|, item) == ns + [item];
      AppendToShape(parent, item, ns);
      ok := true;
      return;
    }
    InsertBefore(parent, after, item, ns, which);
    return true;
  }

  /** `insert_item_in_array`: a position behind the end is refused, the end itself appends. */
  method InsertAt(parent: Node, which: nat, item: Node, ghost ns: seq<Node>) returns (ok: bool)
    requires Shape(parent, ns) && item !in ns && item != parent && (which >= |ns| ==> item.next == null)
    modifies parent`child, ns`next, ns`prev, item`next, item`prev
    ensures ok == (which <= |ns|)
    ensures Shape(parent, if ok then Inserted(ns, which, item) else ns)
  {
    var child, left := Walk(parent, which, ns);
    if left > 0 {
      return false;
    }
    if child == null {
      assert Inserted(ns, |ns|, item) == ns + [item];
      AppendToShape(parent, item, ns);
      ok := true;
      return;
    }
    InsertBefore(parent, child, item, ns, which);
    return true;
  }

  /** `cJSON_ReplaceItemViaPointer`, up to the deletion of the old item. */
  method Replace(parent: Node, item: Node, replacement: Node, ghost ns: seq<Node>, ghost k: nat) returns (ok: bool)
    requires Shape(parent, ns) && k < |ns| && ns[k] == item
    requires replacement == item || (replacement !in ns && replacement != parent)
    modifies parent`child, ns`next, ns`prev, replacement`next, replacement`prev
    ensures ok && Shape(parent, ns[k := replacement])
    ensures replacement != item ==> item.next == null && item.prev == null
  {
    if replacement == item {
      return true;
    }
    replacement.next := item.next;
    replacement.prev := item.prev;
    if replacement.next != null {
      replacement.next.prev := replacement;
    }
    if parent.child == item {
      if parent.child.prev == parent.child {
        replacement.prev := replacement;
      }
      parent.child := replacement;
    } else {
      if replacement.prev != null {
        replacement.prev.next := replacement;
      }
      if replacement.next == null {
        parent.child.prev := replacement;
      }
    }
    item.next := null;
    item.prev := null;
    return true;
  }

  // ---------------------------------------------------------------- runs

  datatype Op =
    | Add(item: Node)
    | InsertOp(which: int, item: Node)
    | DetachOp(which: int)
    | ReplaceOp(which: int, item: Node)

  /** What one call does to the sequence of children. */
  function Performed(ns: seq<Node>, op: Op): seq<Node> {
    match op
    case Add(item) => ns + [item]
    case InsertOp(which, item) => if which < 0 then ns else Inserted(ns, if which < |ns| then which else |ns|, item)
    case DetachOp(which) => if 0 <= which < |ns| then Removed(ns, which) else ns
    case ReplaceOp(which, item) => if 0 <= which < |ns| then ns[which := item] else ns
  }

  function PerformedAll(ns: seq<Node>, ops: seq<Op>, k: nat): seq<Node>
    requires k <= |ops|
  {
    if k == 0 then ns else Performed(PerformedAll(ns, ops, k - 1), ops[k - 1])
  }

  /** A node is put only where it is not already. */
  ghost predicate Allowed(ns: seq<Node>, op: Op, nodes: set<Node>) {
    !op.DetachOp? ==> op.item in nodes && op.item !in ns
  }

  /** All children are among the known nodes, and a known node that is not a child is linked to nothing. */
  ghost predicate Loose(ns: seq<Node>, nodes: set<Node>)
    reads nodes
  {
    (forall n :: n in ns ==> n in nodes) && (forall n :: n in nodes && n !in ns ==> n.next == null)
  }

  /** One call. */
  method PerformOne(parent: Node, op: Op, ghost ns: seq<Node>, ghost nodes: set<Node>)
    requires parent !in nodes && Shape(parent, ns) && Loose(ns, nodes) && Allowed(ns, op, nodes)
    modifies parent`child, nodes`next, nodes`prev
    ensures Shape(parent, Performed(ns, op)) && Loose(Performed(ns, op), nodes)
  {
    hide Shape, Loose, Performed, Allowed;
    match op
    case Add(_) => PerformAdd(parent, op, ns, nodes);
    case InsertOp(_, _) => PerformInsert(parent, op, ns, nodes);
    case DetachOp(_) => PerformDetach(parent, op, ns, nodes);
    case ReplaceOp(_, _) => PerformReplace(parent, op, ns, nodes);
  }

  method PerformAdd(parent: Node, op: Op, ghost ns: seq<Node>, ghost nodes: set<Node>)
    requires parent !in nodes && Shape(parent, ns) && Loose(ns, nodes) && Allowed(ns, op, nodes) && op.Add?
    modifies parent`child, nodes`next, nodes`prev
    ensures Shape(parent, Performed(ns, op)) && Loose(Performed(ns, op), nodes)
  {
    AppendToShape(parent, op.item, ns);
    hide Shape;
  }

  method PerformInsert(parent: Node, op: Op, ghost ns: seq<Node>, ghost nodes: set<Node>)
    requires parent !in nodes && Shape(parent, ns) && Loose(ns, nodes) && Allowed(ns, op, nodes) && op.InsertOp?
    modifies parent`child, nodes`next, nodes`prev
    ensures Shape(parent, Performed(ns, op)) && Loose(Performed(ns, op), nodes)
  {
    hide Shape, Inserted;
    var ok := InsertClamped(parent, op.which, op.item, ns);
    if ok { InsertedMembers(ns, if op.which < |ns| then op.which else |ns|, op.item); }
  }

  method PerformDetach(parent: Node, op: Op, ghost ns: seq<Node>, ghost nodes: set<Node>)
    requires parent !in nodes && Shape(parent, ns) && Loose(ns, nodes) && Allowed(ns, op, nodes) && op.DetachOp?
    modifies parent`child, nodes`next, nodes`prev
    ensures Shape(parent, Performed(ns, op)) && Loose(Performed(ns, op), nodes)
  {
    hide Removed;
    var item := DetachAt(parent, op.which, ns);
    if item != null {
      RemovedMembers(ns, op.which);
    }
    hide Shape;
  }

  method PerformReplace(parent: Node, op: Op, ghost ns: seq<Node>, ghost nodes: set<Node>)
    requires parent !in nodes && Shape(parent, ns) && Loose(ns, nodes) && Allowed(ns, op, nodes) && op.ReplaceOp?
    modifies parent`child, nodes`next, nodes`prev
    ensures Shape(parent, Performed(ns, op)) && Loose(Performed(ns, op), nodes)
  {
    if op.which >= 0 {
      var present, left := Walk(parent, op.which, ns);
      if present != null {
        var ok := Replace(parent, present, op.item, ns, op.which);
        ReplacedMembers(ns, op.which, op.item);
      }
    }
    hide Shape;
  }

  lemma InsertedMembers(ns: seq<Node>, k: nat, item: Node)
    requires k <= |ns|
    ensures forall n :: n in Inserted(ns, k, item) ==> n in ns || n == item
    ensures forall n :: n in ns || n == item ==> n in Inserted(ns, k, item)
  {
    assert ns == ns[..k] + ns[k..];
  }

  lemma RemovedMembers(ns: seq<Node>, k: nat)
    requires k < |ns|
    ensures forall n :: n in Removed(ns, k) ==> n in ns
    ensures forall n :: n in ns ==> n in Removed(ns, k) || n == ns[k]
  {
    assert ns == ns[..k] + [ns[k]] + ns[k + 1..];
  }

  lemma ReplacedMembers(ns: seq<Node>, k: nat, item: Node)
    requires k < |ns|
    ensures forall n :: n in ns[k := item] ==> n in ns || n == item
    ensures forall n :: n in ns ==> n in ns[k := item] || n == ns[k]
    ensures item in ns[k := item]
  {
    var all := ns[k := item];
    assert all[k] == item;
    forall n | n in ns ensures n in all || n == ns[k] {
      var i :| 0 <= i < |ns| && ns[i] == n;
      assert all[i] == if i == k then item else n;
    }
  }

  /** Over any run of calls the heap keeps the shape and holds exactly the resulting sequence of children. */
  method Perform(parent: Node, ops: seq<Op>, ghost ns: seq<Node>, ghost nodes: set<Node>)
    requires parent !in nodes && Shape(parent, ns) && Loose(ns, nodes)
    requires forall k :: 0 <= k < |ops| ==> Allowed(PerformedAll(ns, ops, k), ops[k], nodes)
    modifies parent`child, nodes`next, nodes`prev
    ensures Shape(parent, PerformedAll(ns, ops, |ops|)) && Loose(PerformedAll(ns, ops, |ops|), nodes)
  {
    hide Shape, Loose, Performed, Allowed;
    for k := 0 to |ops|
      invariant Shape(parent, PerformedAll(ns, ops, k)) && Loose(PerformedAll(ns, ops, k), nodes)
    {
      PerformOne(parent, ops[k], PerformedAll(ns, ops, k), nodes);
    }
  }
}
