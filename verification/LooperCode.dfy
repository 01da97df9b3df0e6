/** The looper's calls as they relink its list and change its fields. */
module LooperCode {
  import opened Looper
  import opened List = CircularList

  /** The head of a list, and behind it the links of messages. */
  ghost predicate Holds(head: ListNode, ring: seq<ListNode>, items: map<ListNode, Node>) {
    ring != [] && ring[0] == head && forall i :: 0 < i < |ring| ==> ring[i] in items
  }

  /** The messages of a list, front first. */
  ghost function Messages(head: ListNode, ring: seq<ListNode>, items: map<ListNode, Node>): (r: seq<Node>)
    requires Holds(head, ring, items)
    ensures |r| == |ring| - 1
  {
    seq(|ring| - 1, i requires 0 <= i < |ring| - 1 => items[ring[i + 1]])
  }

  ghost function Links(ring: seq<ListNode>): set<ListNode> {
    set n | n in ring
  }

  lemma MessageAt(head: ListNode, ring: seq<ListNode>, items: map<ListNode, Node>, k: nat)
    requires Holds(head, ring, items) && 0 < k < |ring|
    ensures ring[k] in items && Messages(head, ring, items)[k - 1] == items[ring[k]]
  {
  }

  lemma MessagesInserted(head: ListNode, ring: seq<ListNode>, items: map<ListNode, Node>, k: nat, link: ListNode,
                         node: Node)
    requires Holds(head, ring, items) && Distinct(ring) && k < |ring| && link !in ring
    ensures Holds(head, Inserted(ring, k, link), items[link := node])
    ensures Messages(head, Inserted(ring, k, link), items[link := node])
         == Insert(Messages(head, ring, items), k, node)
  {
    InsertedNodes(ring, k, link);
  }

  lemma MessagesRemoved(head: ListNode, ring: seq<ListNode>, items: map<ListNode, Node>, k: nat)
    requires Holds(head, ring, items) && Distinct(ring) && 0 < k < |ring|
    ensures Holds(head, Removed(ring, k), items - {ring[k]})
    ensures var was := Messages(head, ring, items);
      Messages(head, Removed(ring, k), items - {ring[k]}) == was[..k - 1] + was[k..]
  {
    RemovedNodes(ring, k);
  }

  lemma RingFacts(ring: seq<ListNode>, k: nat)
    requires Ring(ring) && k < |ring|
    ensures Distinct(ring) && ring[k].next == After(ring, k) && ring[k].prev == Before(ring, k)
    ensures After(ring, k) in ring && Before(ring, k) in ring
    ensures k > 0 ==> ring[k] != ring[0]
  {
  }

  /** `struct mlooper`, with what its thread is doing and the callbacks run so far. */
  class MessageLooper {
    /** `msg_list`. */
    const head: ListNode
    /** `listnode_to_item`, for the links of the messages in the list. */
    var items: map<ListNode, Node>
    var count: int
    var posted: nat
    const defaultHandler: bool
    ghost var ring: seq<ListNode>
    ghost var phase: Phase
    ghost var log: seq<Event>

    ghost predicate Valid()
      reads this, ring
    {
      Ring(ring) && Holds(head, ring, items)
    }

    ghost function Pending(): (r: seq<Node>)
      reads this
      requires Holds(head, ring, items)
      ensures |r| == |ring| - 1
    {
      Messages(head, ring, items)
    }

    ghost function View(clock: nat): State
      reads this
      requires Holds(head, ring, items)
    {
      State(Pending(), count, phase, posted, log, defaultHandler, clock)
    }

    /** `mlooper_create`. */
    constructor (defaultHandler: bool)
      ensures Valid() && fresh(ring)
      ensures forall clock: nat :: View(clock) == State([], 0, Phase.Idle, 0, [], defaultHandler, clock)
    {
      this.defaultHandler := defaultHandler;
      var list := new ListNode();
      head := list;
      items, count, posted := map[], 0, 0;
      ring, phase, log := [list], Phase.Idle, [];
    }

    /** `list_add_after` on the list, with the message the new link belongs to. */
    method LinkAfter(position: ListNode, node: Node, ghost k: nat)
      requires Valid() && k < |ring| && ring[k] == position
      modifies this`items, this`ring, Links(ring)
      ensures Valid() && Pending() == Insert(old(Pending()), k, node)
      ensures fresh(Links(ring) - old(Links(ring)))
    {
      hide Ring, Holds, Messages;
      var link := new ListNode();
      RingFacts(ring, k);
      MessagesInserted(head, ring, items, k, link, node);
      AddAfter(position, link, ring, k);
      items := items[link := node];
      ring := Inserted(ring, k, link);
    }

    /** `list_remove` on the list; the link goes with its message. */
    method Unlink(link: ListNode, ghost k: nat)
      requires Valid() && 0 < k < |ring| && ring[k] == link
      modifies this`items, this`ring, Links(ring)
      ensures Valid() && Pending() == old(Pending())[..k - 1] + old(Pending())[k..]
      ensures ring == old(Removed(ring, k)) && Links(ring) <= old(Links(ring))
    {
      hide Ring, Holds, Messages;
      RingFacts(ring, k);
      MessagesRemoved(head, ring, items, k);
      List.Remove(link, ring, k);
      items := items - {link};
      ring := Removed(ring, k);
    }

    /** `mlooper_free_msgnode`. */
    method FreeNode(node: Node, state: MessageState)
      modifies this`log
      ensures log == old(log) + FreeLog(node.id, state)
    {
      ghost var was := log;
      if state != HANDLED {
        log := log + [DiscardCall(node.id)];
      }
      log := log + [Free(node.id)];
    }

    /** `mlooper_post_message_delay`. */
    method Post(m: Message, now: nat, msec: nat) returns (code: int)
      requires Valid()
      modifies this, Links(ring)
      ensures Valid() && fresh(Links(ring) - old(Links(ring)))
      ensures forall clock: nat :: (View(clock), code) == PostDelay(old(View(clock)), m, now, msec)
    {
      var node := Node(posted, m.what, m.owner, m.hasHandler, false, now + msec * 1000, 0);
      posted := posted + 1;
      if m.timeoutMs > 0 {
        if m.timeoutMs <= msec {
          FreeNode(node, DISCARDED);
          return -1;
        } else {
          node := node.(timeout := now + m.timeoutMs * 1000);
        }
      }
      InsertByDue(node);
      return 0;
    }

    /** The locked section of `mlooper_post_message_delay`: the walk from the tail. */
    method InsertByDue(node: Node)
      requires Valid()
      modifies this`items, this`ring, this`count, Links(ring)
      ensures Valid() && fresh(Links(ring) - old(Links(ring))) && count == old(count) + 1
      ensures Pending() == Insert(old(Pending()), Place(old(Pending()), |old(Pending())|, node.due), node)
    {
      hide Ring, Holds, Messages, Insert;
      ghost var k := |ring| - 1;
      Ends();
      RingFacts(ring, 0);
      var item := head.prev;
      while item != head
        invariant Valid() && ring == old(ring) && items == old(items) && count == old(count)
        invariant 0 <= k < |ring| && item == ring[k]
        invariant Place(Pending(), k, node.due) == Place(Pending(), |ring| - 1, node.due)
        decreases k
      {
        MessageAt(head, ring, items, k);
        if node.due >= items[item].due {
          LinkAfter(item, node, k);
          count := count + 1;
          break;
        }
        RingFacts(ring, k);
        item := item.prev;
        k := k - 1;
      }
      if item == head {
        LinkAfter(head, node, 0);
        count := count + 1;
      }
    }

    /** `mlooper_post_message_front`. */
    method PostAtFront(m: Message, now: nat) returns (code: int)
      requires Valid()
      modifies this, Links(ring)
      ensures Valid() && fresh(Links(ring) - old(Links(ring)))
      ensures forall clock: nat :: (View(clock), code) == PostFront(old(View(clock)), m, now)
    {
      hide Ring, Holds, Messages;
      var node := Node(posted, m.what, m.owner, m.hasHandler, true, now, 0);
      posted := posted + 1;
      if m.timeoutMs > 0 {
        node := node.(timeout := now + m.timeoutMs * 1000);
      }
      Ends();
      if head != head.next {
        MessageAt(head, ring, items, 1);
        var front := items[head.next];
        node := node.(due := if now < front.due then now else front.due);
      }
      LinkAfter(head, node, 0);
      count := count + 1;
      assert Pending() == [node] + old(Pending());
      return 0;
    }

    /** `list_empty` and `list_head`. */
    lemma Ends()
      requires Valid()
      ensures ring != [] && ring[0] == head && (head == head.next <==> |ring| == 1)
      ensures |ring| > 1 ==> head.next == ring[1]
    {
      RingFacts(ring, 0);
      if |ring| > 1 { RingFacts(ring, 1); }
    }

    /** The loops of the `mlooper_remove_*` calls; `next` is read before a node leaves the list. */
    method RemoveMatching(matches: Node -> bool)
      requires Valid()
      modifies this, Links(ring)
      ensures Valid() && Links(ring) <= old(Links(ring))
      ensures forall clock: nat :: View(clock) == Looper.Remove(old(View(clock)), matches)
    {
      hide FreeLog, Kept, DropLog, Ring, Holds, Messages, Links, Removing;
      ghost var all := Pending();
      RemovingStart(all, matches, log);
      Ends();
      RingFacts(ring, 0);
      ghost var k := 1;
      var item := head.next;
      while item != head
        invariant Valid() && Links(ring) <= old(Links(ring)) && 0 < k <= |ring|
        invariant item == After(ring, k - 1)
        invariant posted == old(posted) && phase == old(phase)
        invariant Removing(all, matches, Pending(), k - 1, old(log), log)
        invariant count == old(count) - (|all| - |Pending()|)
        decreases |ring| - k
      {
        Ends();
        RingFacts(ring, k);
        MessageAt(head, ring, items, k);
        RemovingStep(all, matches, Pending(), k - 1, old(log), log);
        var next := item.next;
        var node := items[item];
        if matches(node) {
          RemovedNodes(ring, k);
          Unlink(item, k);
          FreeNode(node, DISCARDED);
          count := count - 1;
        } else {
          k := k + 1;
        }
        item := next;
      }
      BackAtHead(k);
      RemovingEnd(all, matches, Pending(), old(log), log);
    }

    lemma BackAtHead(k: nat)
      requires Valid() && 0 < k <= |ring| && After(ring, k - 1) == head
      ensures k == |ring|
    {
      if k < |ring| { RingFacts(ring, k); }
    }

    /** `mlooper_clear_msglist`. */
    method ClearList()
      requires Valid() && count == |Pending()|
      modifies this, Links(ring)
      ensures Valid() && Links(ring) <= old(Links(ring))
      ensures forall clock: nat :: View(clock) == Looper.Remove(old(View(clock)), Every())
    {
      hide FreeLog, Ring, Holds, Messages, Links;
      ghost var all := Pending();
      Ends();
      var item := head.next;
      while item != head
        invariant Valid() && Links(ring) <= old(Links(ring)) && item == head.next
        invariant posted == old(posted) && phase == old(phase) && count == |all|
        invariant log + DropLog(Pending(), Every()) == old(log) + DropLog(all, Every())
        invariant Kept(all, Every()) == Kept(Pending(), Every())
        decreases |ring|
      {
        Ends();
        RingFacts(ring, 1);
        MessageAt(head, ring, items, 1);
        var next := item.next;
        var node := items[item];
        ghost var was, rest := log, Pending()[1..];
        KeptHead(Pending(), Every());
        Unlink(item, 1);
        assert Pending() == rest;
        FreeNode(node, DISCARDED);
        assert log + DropLog(Pending(), Every()) == was + (FreeLog(node.id, DISCARDED) + DropLog(Pending(), Every()));
        Ends();
        RingFacts(ring, 0);
        item := next;
      }
      Ends();
      count := 0;
      assert Pending() == [] && log + [] == log;
    }

    /** `mlooper_remove_self_message`: messages of one kind posted by the calling thread. */
    method RemoveSelfMessage(what: int, self: nat)
      requires Valid()
      modifies this, Links(ring)
      ensures Valid() && Links(ring) <= old(Links(ring))
      ensures forall clock: nat :: View(clock) == Looper.Remove(old(View(clock)), SelfMessage(what, self))
      ensures forall n :: n in Pending() <==> n in old(Pending()) && !(n.what == what && n.owner == self)
    {
      ghost var was := View(0);
      RemoveMatching(SelfMessage(what, self));
      forall n ensures n in Pending() <==> n in was.pending && !(n.what == what && n.owner == self) {
        RemovalKeepsOthers(was, SelfMessage(what, self), n);
      }
    }

    /** `mlooper_remove_self_message_if`: messages a callback picks among those of the calling thread. */
    method RemoveSelfMessageIf(onMatch: Node -> bool, self: nat)
      requires Valid()
      modifies this, Links(ring)
      ensures Valid() && Links(ring) <= old(Links(ring))
      ensures forall clock: nat :: View(clock) == Looper.Remove(old(View(clock)), SelfMatch(onMatch, self))
      ensures forall n :: n in Pending() <==> n in old(Pending()) && !(onMatch(n) && n.owner == self)
    {
      ghost var was := View(0);
      RemoveMatching(SelfMatch(onMatch, self));
      forall n ensures n in Pending() <==> n in was.pending && !(onMatch(n) && n.owner == self) {
        RemovalKeepsOthers(was, SelfMatch(onMatch, self), n);
      }
    }

    /** `mlooper_clear_self_message`: all messages of the calling thread. */
    method ClearSelfMessage(self: nat)
      requires Valid()
      modifies this, Links(ring)
      ensures Valid() && Links(ring) <= old(Links(ring))
      ensures forall clock: nat :: View(clock) == Looper.Remove(old(View(clock)), AnySelf(self))
      ensures forall n :: n in Pending() <==> n in old(Pending()) && !(n.owner == self)
    {
      ghost var was := View(0);
      RemoveMatching(AnySelf(self));
      forall n ensures n in Pending() <==> n in was.pending && !(n.owner == self) {
        RemovalKeepsOthers(was, AnySelf(self), n);
      }
    }

    /** `mlooper_remove_message`: messages of one kind, whoever posted them. */
    method RemoveMessage(what: int)
      requires Valid()
      modifies this, Links(ring)
      ensures Valid() && Links(ring) <= old(Links(ring))
      ensures forall clock: nat :: View(clock) == Looper.Remove(old(View(clock)), AnyMessage(what))
      ensures forall n :: n in Pending() <==> n in old(Pending()) && !(n.what == what)
    {
      ghost var was := View(0);
      RemoveMatching(AnyMessage(what));
      forall n ensures n in Pending() <==> n in was.pending && !(n.what == what) {
        RemovalKeepsOthers(was, AnyMessage(what), n);
      }
    }

    /** `mlooper_remove_message_if`: messages a callback picks. */
    method RemoveMessageIf(onMatch: Node -> bool)
      requires Valid()
      modifies this, Links(ring)
      ensures Valid() && Links(ring) <= old(Links(ring))
      ensures forall clock: nat :: View(clock) == Looper.Remove(old(View(clock)), onMatch)
      ensures forall n :: n in Pending() <==> n in old(Pending()) && !(onMatch(n))
    {
      ghost var was := View(0);
      RemoveMatching(onMatch);
      forall n ensures n in Pending() <==> n in was.pending && !(onMatch(n)) {
        RemovalKeepsOthers(was, onMatch, n);
      }
    }

    /** `mlooper_clear_message`: nothing is left. */
    method ClearMessage()
      requires Valid() && count == |Pending()|
      modifies this, Links(ring)
      ensures Valid() && Links(ring) <= old(Links(ring))
      ensures forall clock: nat :: View(clock) == Looper.Remove(old(View(clock)), Every())
      ensures Pending() == []
    {
      ghost var was := View(0);
      ClearList();
      if Pending() != [] { RemovalKeepsOthers(was, Every(), Pending()[0]); }
    }

    /** The looper thread's first critical section, once a message is pending. */
    method TakeFront(now: nat) returns (node: Node, taken: bool)
      requires Valid() && phase.Idle? && Pending() != []
      modifies this, Links(ring)
      ensures Valid() && Links(ring) <= old(Links(ring))
      ensures View(now) == TakeDue(old(View(now)))
      ensures node == old(Pending()[0]) && taken == (node.due <= now)
    {
      hide Ring, Holds, Messages;
      Ends();
      MessageAt(head, ring, items, 1);
      var front := head.next;
      node := items[front];
      if node.due > now {
        return node, false;
      }
      Unlink(front, 1);
      count := count - 1;
      phase := Phase.Taken(node, now);
      return node, true;
    }

    /** What the thread does with a message it has taken, outside the lock. */
    method DispatchTaken(node: Node, now: nat, clock: nat)
      requires Valid() && phase == Phase.Taken(node, now)
      modifies this`log, this`phase
      ensures Valid() && View(clock) == Release(Dispatch(old(View(clock))))
    {
      var state;
      if node.timeout > 0 && node.timeout < now {
        state := TIMEOUT;
        log := log + [TimeoutCall(node.id)];
      } else if node.hasHandler {
        log := log + [HandleCall(node.id)];
        state := HANDLED;
      } else if defaultHandler {
        log := log + [HandleCall(node.id)];
        state := HANDLED;
      } else {
        state := DISCARDED;
      }
      FreeNode(node, state);
      phase := Phase.Idle;
    }
  }

  lemma KeptHead(pending: seq<Node>, matches: Node -> bool)
    requires pending != []
    ensures Kept(pending, matches)
      == (if matches(pending[0]) then [] else [pending[0]]) + Kept(pending[1..], matches)
    ensures DropLog(pending, matches)
      == (if matches(pending[0]) then FreeLog(pending[0].id, DISCARDED) else []) + DropLog(pending[1..], matches)
  {
  }

  /** The loop has passed the first `item` nodes of the list as it is now, and all those it has removed. */
  ghost predicate Removing(all: seq<Node>, matches: Node -> bool, now: seq<Node>, item: nat, was: seq<Event>,
        log: seq<Event>) {
    item <= |now| && now[..item] + Kept(now[item..], matches) == Kept(all, matches)
    && log + DropLog(now[item..], matches) == was + DropLog(all, matches)
  }

  lemma RemovingStart(all: seq<Node>, matches: Node -> bool, log: seq<Event>)
    ensures Removing(all, matches, all, 0, log, log)
  {
    assert all[0..] == all && all[..0] + Kept(all, matches) == Kept(all, matches);
  }

  lemma RemovingStep(all: seq<Node>, matches: Node -> bool, now: seq<Node>, item: nat, was: seq<Event>, log: seq<Event>)
    requires Removing(all, matches, now, item, was, log) && item < |now|
    ensures if matches(now[item]) then
              Removing(all, matches, now[..item] + now[item + 1..], item, was, log + FreeLog(now[item].id, DISCARDED))
            else Removing(all, matches, now, item + 1, was, log)
  {
    hide Kept, DropLog, FreeLog;
    var rest, n := now[item..], now[item];
    KeptHead(rest, matches);
    assert rest[1..] == now[item + 1..];
    var kept, dropped := Kept(rest[1..], matches), DropLog(rest[1..], matches);
    if matches(n) {
      var next := now[..item] + now[item + 1..];
      assert next[item..] == now[item + 1..] && next[..item] == now[..item] && [] + kept == kept;
      assert log + FreeLog(n.id, DISCARDED) + dropped == log + (FreeLog(n.id, DISCARDED) + dropped);
    } else {
      assert now[..item + 1] + kept == now[..item] + ([n] + kept);
      assert [] + dropped == dropped;
    }
  }

  lemma RemovingEnd(all: seq<Node>, matches: Node -> bool, now: seq<Node>, was: seq<Event>, log: seq<Event>)
    requires Removing(all, matches, now, |now|, was, log)
    ensures now == Kept(all, matches) && log == was + DropLog(all, matches)
  {
    assert now[..|now|] + [] == now && log + [] == log;
  }
}
