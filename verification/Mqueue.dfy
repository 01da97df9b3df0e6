/** Bounded message queues and queue sets. */
module Mqueue {
  import opened Text

  /** A queue as its callers see it. */
  datatype Fifo<T> = Fifo(capacity: nat, items: seq<T>)

  /** The outcome of a call: 0 or -1, the queue and its set. */
  datatype Sent<T, H> = Sent(code: int, queue: Fifo<T>, parent: Option<Fifo<H>>)

  function Full<T>(f: Fifo<T>): bool {
    |f.items| >= f.capacity
  }

  function Push<T>(f: Fifo<T>, e: T): Fifo<T> {
    f.(items := f.items + [e])
  }

  /** `mqueue_send`: the message goes into the queue and the queue's handle into its set, or nothing happens. */
  function Send<T, H>(queue: Fifo<T>, parent: Option<Fifo<H>>, message: T, handle: H): Sent<T, H> {
    if Full(queue) then Sent(-1, queue, parent)
    else if parent.None? then Sent(0, Push(queue, message), None)
    else if Full(parent.value) then Sent(-1, queue, parent)
    else Sent(0, Push(queue, message), Some(Push(parent.value, handle)))
  }

  /** A send succeeds exactly if the queue, and its set if it has one, have room; otherwise nothing changes. */
  lemma SendExact<T, H>(queue: Fifo<T>, parent: Option<Fifo<H>>, message: T, handle: H)
    ensures var r := Send(queue, parent, message, handle);
      var room := |queue.items| < queue.capacity
                  && (parent.Some? ==> |parent.value.items| < parent.value.capacity);
      && r.code == (if room then 0 else -1)
      && r.queue == (if room then Fifo(queue.capacity, queue.items + [message]) else queue)
      && r.parent == if room && parent.Some? then Some(Fifo(parent.value.capacity, parent.value.items + [handle]))
                     else parent
  {
  }

  /** What a slot holds: a message, or in a set the handle of a member. */
  datatype Element = Message(data: seq<byte>) | Handle(queue: MQueue)

  /** The slot k places on, in a ring whose pointers stay inside it. */
  function Slot(size: nat, p: nat, k: nat): (i: nat)
    requires p < size && k <= size
    ensures i < size
  {
    if p + k < size then p + k else p + k - size
  }

  ghost function Window<T>(b: seq<T>, p: nat, n: nat): (t: seq<T>)
    requires n <= |b| && (b != [] ==> p < |b|)
    ensures |t| == n
    ensures forall k :: 0 <= k < n ==> t[k] == b[Slot(|b|, p, k)]
  {
    seq(n, k requires 0 <= k < n => b[Slot(|b|, p, k)])
  }

  /** `struct mqueue`, for queues and sets alike; the read and write pointers are slot numbers. */
  class MQueue {
    const slots: array<Element>
    const isSet: bool
    var read: nat
    var write: nat
    var filled: nat
    var parent: MQueue?

    ghost predicate Valid()
      reads this
    {
      filled <= slots.Length && (slots.Length == 0 || (read < slots.Length && write == Slot(slots.Length, read, filled)))
    }

    ghost function Contents(): (items: seq<Element>)
      requires Valid()
      reads this, slots
      ensures |items| == filled
    {
      Window(slots[..], read, filled)
    }

    ghost function View(): Fifo<Element>
      requires Valid()
      reads this, slots
    {
      Fifo(slots.Length, Contents())
    }

    /** `mqueue_create` and `mqueueset_create`. */
    constructor (count: nat, isSet: bool)
      ensures Valid() && fresh(slots) && View() == Fifo(count, []) && this.isSet == isSet && parent == null
    {
      slots := new Element[count](_ => Message([]));
      this.isSet := isSet;
      read, write, filled, parent := 0, 0, 0, null;
    }

    function CountAvailable(): (n: int)
      reads this
    {
      slots.Length - filled
    }

    function CountFilled(): (n: nat)
      reads this
    {
      filled
    }

    /** `mqueue_copy_msg`. */
    method CopyMsg(e: Element)
      requires Valid() && !Full(View())
      modifies this`filled, this`write, slots
      ensures Valid() && View() == Push(old(View()), e)
    {
      slots[write] := e;
      filled := filled + 1;
      write := write + 1;
      if write >= slots.Length {
        write := 0;
      }
    }

    ghost function ParentView(): Option<Fifo<Element>>
      requires parent != null ==> parent.Valid()
      reads this, parent, if parent == null then {} else {parent.slots}
    {
      if parent == null then None else Some(parent.View())
    }

    /** The critical section of `mqueue_send` that decides: after the wait for room, or with no wait at all. */
    method SendNow(message: Element) returns (code: int)
      requires Valid() && (parent != null ==> parent.Valid() && parent != this && parent.slots != slots)
      modifies this`filled, this`write, slots
      modifies (if parent == null then {} else {parent})`filled, (if parent == null then {} else {parent})`write
      modifies if parent == null then {} else {parent.slots}
      ensures parent == old(parent) && Valid() && (parent != null ==> parent.Valid())
      ensures Sent(code, View(), ParentView()) == Send(old(View()), old(ParentView()), message, Handle(this))
    {
      code := -1;
      if CountAvailable() > 0 {
        code := 0;
        if parent != null {
          var s := parent;
          if s.CountAvailable() > 0 {
            CopyMsg(message);
            s.CopyMsg(Handle(this));
          } else {
            code := -1;
          }
        } else {
          CopyMsg(message);
        }
      }
    }

    /** The critical section of `mqueue_receive` that decides: the oldest item, or -1 when there is none. */
    method ReceiveNow() returns (code: int, e: Option<Element>)
      requires Valid()
      modifies this`filled, this`read
      ensures Valid()
      ensures if old(Contents()) == [] then code == -1 && e == None && Contents() == []
              else code == 0 && e.Some? && old(Contents()) == [e.value] + Contents()
    {
      code, e := -1, None;
      if CountFilled() > 0 {
        e := Some(slots[read]);
        filled := filled - 1;
        read := read + 1;
        if read >= slots.Length {
          read := 0;
        }
        code := 0;
      }
    }

    /** `mqueue_reset`. */
    method Reset() returns (code: int)
      requires Valid()
      modifies this`filled, this`read, this`write
      ensures Valid()
      ensures code == if parent != null && old(Contents()) != [] then -1 else 0
      ensures Contents() == if code == 0 then [] else old(Contents())
    {
      if parent != null && CountFilled() > 0 {
        return -1;
      }
      read, write, filled := 0, 0, 0;
      return 0;
    }

    /** `mqueueset_add_queue`, but for the member list. */
    method AddTo(queueSet: MQueue) returns (code: int)
      requires Valid()
      modifies this`parent
      ensures code == if old(parent) != null || isSet || Contents() != [] then -1 else 0
      ensures parent == if code == 0 then queueSet else old(parent)
    {
      if parent != null {
        return -1;
      }
      if isSet {
        return -1;
      }
      if CountFilled() > 0 {
        return -1;
      }
      parent := queueSet;
      return 0;
    }

    /** `mqueueset_remove_queue`, but for the member list. */
    method RemoveFrom(queueSet: MQueue) returns (code: int)
      requires Valid()
      modifies this`parent
      ensures code == if old(parent) != queueSet || Contents() != [] then -1 else 0
      ensures parent == if code == 0 then null else old(parent)
    {
      if parent != queueSet {
        return -1;
      }
      if CountFilled() > 0 {
        return -1;
      }
      parent := null;
      return 0;
    }
  }
}
