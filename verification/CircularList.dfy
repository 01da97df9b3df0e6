/** The intrusive circular list: a head node and the members behind it. */
module CircularList {

  class ListNode {
    var next: ListNode
    var prev: ListNode

    /** `list_init`. */
    constructor ()
      ensures Ring([this])
    {
      next, prev := this, this;
    }
  }

  ghost predicate Distinct(ns: seq<ListNode>) {
    forall i, j :: 0 <= i < j < |ns| ==> ns[i] != ns[j]
  }

  /** The node after position i, round the ring. */
  function After(ns: seq<ListNode>, i: nat): ListNode
    requires i < |ns|
  {
    if i + 1 < |ns| then ns[i + 1] else ns[0]
  }

  function Before(ns: seq<ListNode>, i: nat): ListNode
    requires i < |ns|
  {
    if i > 0 then ns[i - 1] else ns[|ns| - 1]
  }

  /** The head and then the members, linked both ways. */
  ghost predicate Ring(ns: seq<ListNode>)
    reads ns
  {
    ns != [] && Distinct(ns)
    && (forall i: nat {:trigger ns[i].next} :: i < |ns| ==> ns[i].next == After(ns, i))
    && (forall i: nat {:trigger ns[i].prev} :: i < |ns| ==> ns[i].prev == Before(ns, i))
  }

  lemma RingAt(ns: seq<ListNode>, i: nat)
    requires Ring(ns) && i < |ns|
    ensures ns[i].next == After(ns, i) && ns[i].prev == Before(ns, i)
  {
  }

  function Inserted(ns: seq<ListNode>, i: nat, n: ListNode): (r: seq<ListNode>)
    requires i < |ns|
  {
    ns[..i + 1] + [n] + ns[i + 1..]
  }

  function Removed(ns: seq<ListNode>, i: nat): seq<ListNode>
    requires i < |ns|
  {
    ns[..i] + ns[i + 1..]
  }

  lemma InsertedNodes(ns: seq<ListNode>, k: nat, n: ListNode)
    requires k < |ns| && Distinct(ns) && n !in ns
    ensures Distinct(Inserted(ns, k, n))
    ensures var r := Inserted(ns, k, n);
      forall i :: 0 <= i < |r| ==> r[i] == if i <= k then ns[i] else if i == k + 1 then n else ns[i - 1]
  {
  }

  lemma RemovedNodes(ns: seq<ListNode>, k: nat)
    requires k < |ns| && Distinct(ns)
    ensures Distinct(Removed(ns, k))
    ensures var r := Removed(ns, k);
      forall i :: 0 <= i < |r| ==> r[i] == if i < k then ns[i] else ns[i + 1]
  {
  }

  /** The links around a new node behind node k. */
  lemma InsertedRing(ns: seq<ListNode>, k: nat, n: ListNode)
    requires k < |ns| && Distinct(ns) && n !in ns
    requires n.next == After(ns, k) && n.prev == ns[k] && ns[k].next == n && After(ns, k).prev == n
    requires forall i: nat {:trigger ns[i].next} :: i < |ns| && i != k ==> ns[i].next == After(ns, i)
    requires forall i: nat {:trigger ns[i].prev} :: i < |ns| && ns[i] != After(ns, k) ==> ns[i].prev == Before(ns, i)
    ensures Ring(Inserted(ns, k, n))
  {
    InsertedNodes(ns, k, n);
    hide Inserted, Distinct;
  }

  /** Distinct positions hold distinct nodes. */
  lemma OthersKeep(ns: seq<ListNode>, k: nat)
    requires Distinct(ns) && k < |ns|
    ensures forall i: nat :: i < |ns| && i != k ==> ns[i] != ns[k]
  {
  }

  /** `list_add_after`; on the head it is `list_add_head`. */
  method AddAfter(position: ListNode, n: ListNode, ghost ns: seq<ListNode>, ghost k: nat)
    requires Ring(ns) && k < |ns| && ns[k] == position && n !in ns
    modifies {n}, {position}`next, {position.next}`prev
    ensures Ring(Inserted(ns, k, n))
  {
    RingAt(ns, k);
    OthersKeep(ns, k);
    n.next := position.next;
    n.prev := position;
    position.next.prev := n;
    position.next := n;
    InsertedRing(ns, k, n);
  }

  /** `list_add_before`, with k the place before the position; on the head it is `list_add_tail`. */
  method AddBefore(position: ListNode, n: ListNode, ghost ns: seq<ListNode>, ghost k: nat)
    requires Ring(ns) && k < |ns| && position == After(ns, k) && n !in ns
    modifies {n}, {position}`prev, {position.prev}`next
    ensures Ring(Inserted(ns, k, n))
  {
    PositionOfNext(ns, k);
    RingAt(ns, k);
    OthersKeep(ns, k);
    n.next := position;
    n.prev := position.prev;
    position.prev.next := n;
    position.prev := n;
    InsertedRing(ns, k, n);
  }

  lemma PositionOfNext(ns: seq<ListNode>, k: nat)
    requires Ring(ns) && k < |ns|
    ensures After(ns, k).prev == ns[k]
  {
    RingAt(ns, if k + 1 < |ns| then k + 1 else 0);
  }

  /** `list_remove`, of anything but the head. */
  method Remove(n: ListNode, ghost ns: seq<ListNode>, ghost k: nat)
    requires Ring(ns) && 0 < k < |ns| && ns[k] == n
    modifies {n.next}`prev, {n.prev}`next
    ensures Ring(Removed(ns, k))
  {
    RingAt(ns, k);
    RemovedNodes(ns, k);
    n.next.prev := n.prev;
    n.prev.next := n.next;
    hide Removed;
  }
}
