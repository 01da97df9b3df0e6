/** Queue sets as a protocol: every call is one step under the locks, and any number of threads make calls. */
module QueueSets {
  import opened Text
  import opened Mqueue

  type Id = nat
  type Bytes = seq<byte>

  /**
   * A queue, its set if it is a member of one, the messages delivered since its creation, and those accepted since then
   * without the ones a reset has discarded.
   */
  datatype Queue = Queue(fifo: Fifo<Bytes>, parent: Option<Id>, accepted: seq<Bytes>, delivered: seq<Bytes>)

  /** A set: its tokens are the handles waiting to be selected. */
  datatype QueueSet = QueueSet(fifo: Fifo<Id>, members: seq<Id>)

  /** All queues and sets, and the handles that have been selected and not yet received from. */
  datatype System = System(queues: map<Id, Queue>, sets: map<Id, QueueSet>, selected: multiset<Id>)

  datatype Call =
    | CreateQueue(q: Id, capacity: nat)
    | CreateSet(p: Id, capacity: nat)
    | SendTo(q: Id, message: Bytes)
    | ReceiveFrom(q: Id)
    | Select(p: Id)
    | ResetQueue(q: Id)
    | AddQueue(p: Id, q: Id)
    | RemoveQueue(p: Id, q: Id)

  /** What a call answers: a status, the message received, or the handle selected. */
  datatype Answer = Answer(code: int, message: Option<Bytes>, handle: Option<Id>)

  const FAILED := Answer(-1, None, None)
  const DONE := Answer(0, None, None)

  /** What the callers owe: live handles, and no receive from a member that has not been selected. */
  predicate Permitted(s: System, c: Call) {
    match c
    case CreateQueue(q, _) => q !in s.queues
    case CreateSet(p, _) => p !in s.sets
    case SendTo(q, _) => q in s.queues && (s.queues[q].parent.Some? ==> s.queues[q].parent.value in s.sets)
    case ReceiveFrom(q) => q in s.queues && (s.queues[q].parent.Some? ==> s.selected[q] > 0)
    case Select(p) => p in s.sets
    case ResetQueue(q) => q in s.queues
    case AddQueue(p, q) => p in s.sets && q in s.queues
    case RemoveQueue(p, q) => p in s.sets && q in s.queues
  }

  function Sending(s: System, q: Id, message: Bytes): (System, Answer)
    requires q in s.queues && (s.queues[q].parent.Some? ==> s.queues[q].parent.value in s.sets)
  {
    var queue := s.queues[q];
    var parent := if queue.parent.None? then None else Some(s.sets[queue.parent.value].fifo);
    var r := Send(queue.fifo, parent, message, q);
    if r.code != 0 then (s, FAILED)
    else
      var queues := s.queues[q := queue.(fifo := r.queue, accepted := queue.accepted + [message])];
      if r.parent.None? then (s.(queues := queues), DONE)
      else
        var p := queue.parent.value;
        (s.(queues := queues, sets := s.sets[p := s.sets[p].(fifo := r.parent.value)]), DONE)
  }

  function Receiving(s: System, q: Id): (System, Answer)
    requires q in s.queues
  {
    var queue := s.queues[q];
    var items := queue.fifo.items;
    if items == [] then (s, FAILED)
    else
      (s.(queues := s.queues[q := queue.(fifo := queue.fifo.(items := items[1..]),
                                         delivered := queue.delivered + [items[0]])],
          selected := s.selected[q := if s.selected[q] > 0 then s.selected[q] - 1 else 0]),
       Answer(0, Some(items[0]), None))
  }

  function Selecting(s: System, p: Id): (System, Answer)
    requires p in s.sets
  {
    var queueSet := s.sets[p];
    var tokens := queueSet.fifo.items;
    if tokens == [] then (s, FAILED)
    else
      (s.(sets := s.sets[p := queueSet.(fifo := queueSet.fifo.(items := tokens[1..]))],
          selected := s.selected[tokens[0] := s.selected[tokens[0]] + 1]),
       Answer(0, None, Some(tokens[0])))
  }

  function Resetting(s: System, q: Id): (System, Answer)
    requires q in s.queues
  {
    var queue := s.queues[q];
    if queue.parent.Some? && queue.fifo.items != [] then (s, FAILED)
    else
      (s.(queues := s.queues[q := queue.(fifo := queue.fifo.(items := []), accepted := queue.delivered)]), DONE)
  }

  function Adding(s: System, p: Id, q: Id): (System, Answer)
    requires p in s.sets && q in s.queues
  {
    var queue := s.queues[q];
    if queue.parent.Some? || queue.fifo.items != [] then (s, FAILED)
    else
      (s.(queues := s.queues[q := queue.(parent := Some(p))],
          sets := s.sets[p := s.sets[p].(members := s.sets[p].members + [q])]),
       DONE)
  }

  function Without(members: seq<Id>, q: Id): seq<Id> {
    if members == [] then []
    else if members[0] == q then members[1..]
    else [members[0]] + Without(members[1..], q)
  }

  function Removing(s: System, p: Id, q: Id): (System, Answer)
    requires p in s.sets && q in s.queues
  {
    var queue := s.queues[q];
    if queue.parent != Some(p) || queue.fifo.items != [] then (s, FAILED)
    else
      (s.(queues := s.queues[q := queue.(parent := None)],
          sets := s.sets[p := s.sets[p].(members := Without(s.sets[p].members, q))]),
       DONE)
  }

  function Step(s: System, c: Call): (System, Answer)
    requires Permitted(s, c)
  {
    match c
    case CreateQueue(q, capacity) => (s.(queues := s.queues[q := Queue(Fifo(capacity, []), None, [], [])]), DONE)
    case CreateSet(p, capacity) => (s.(sets := s.sets[p := QueueSet(Fifo(capacity, []), [])]), DONE)
    case SendTo(q, message) => Sending(s, q, message)
    case ReceiveFrom(q) => Receiving(s, q)
    case Select(p) => Selecting(s, p)
    case ResetQueue(q) => Resetting(s, q)
    case AddQueue(p, q) => Adding(s, p, q)
    case RemoveQueue(p, q) => Removing(s, p, q)
  }

  // ---------------------------------------------------------------- invariant

  /** How many times a handle waits in a set. */
  function Count(tokens: seq<Id>, q: Id): nat {
    multiset(tokens)[q]
  }

  lemma CountPush(tokens: seq<Id>, t: Id, q: Id)
    ensures Count(tokens + [t], q) == Count(tokens, q) + if q == t then 1 else 0
  {
  }

  lemma CountPop(tokens: seq<Id>, q: Id)
    requires tokens != []
    ensures Count(tokens, q) == Count(tokens[1..], q) + if q == tokens[0] then 1 else 0
  {
    assert tokens == [tokens[0]] + tokens[1..];
  }

  /** Messages come out in the order they went in, none lost and none twice. */
  predicate Ordered(queue: Queue) {
    queue.accepted == queue.delivered + queue.fifo.items && |queue.fifo.items| <= queue.fifo.capacity
  }

  /** Every filled slot of a member has exactly one token: waiting in its set, or selected and not yet used. */
  predicate Conserved(s: System, q: Id)
    requires q in s.queues
  {
    match s.queues[q].parent
    case None => s.selected[q] == 0
    case Some(p) =>
      p in s.sets && q in s.sets[p].members
      && Count(s.sets[p].fifo.items, q) + s.selected[q] == |s.queues[q].fifo.items|
  }

  predicate QueueOk(s: System, q: Id)
    requires q in s.queues
  {
    Ordered(s.queues[q]) && Conserved(s, q)
  }

  /** The members of a set are distinct queues that know it as their set, and only they have tokens there. */
  predicate SetOk(s: System, p: Id)
    requires p in s.sets
  {
    Different(s.sets[p].members)
    && (forall q :: q in s.sets[p].members ==> q in s.queues && s.queues[q].parent == Some(p))
    && (forall q :: q in s.sets[p].fifo.items ==> q in s.sets[p].members)
  }

  predicate Inv(s: System) {
    (forall q :: q in s.queues ==> QueueOk(s, q))
    && (forall p :: p in s.sets ==> SetOk(s, p))
    && (forall q :: q in s.selected ==> q in s.queues)
  }

  /** A step that leaves a queue, its parent and its tokens alone. */
  lemma QueueFrame(s: System, s': System, q: Id)
    requires q in s.queues && QueueOk(s, q) && q in s'.queues && s'.queues[q] == s.queues[q]
    requires s'.selected[q] == s.selected[q]
    requires match s.queues[q].parent
             case None => true
             case Some(p) =>
               p in s.sets ==> p in s'.sets && Count(s'.sets[p].fifo.items, q) == Count(s.sets[p].fifo.items, q)
                               && (q in s.sets[p].members ==> q in s'.sets[p].members)
    ensures QueueOk(s', q)
  {
  }

  /** A step that leaves a set and the parents of its members alone. */
  lemma SetFrame(s: System, s': System, p: Id)
    requires p in s.sets && SetOk(s, p) && p in s'.sets && s'.sets[p] == s.sets[p]
    requires forall q :: q in s.sets[p].members && q in s.queues ==>
      q in s'.queues && s'.queues[q].parent == s.queues[q].parent
    ensures SetOk(s', p)
  {
  }

  lemma CreateKeeps(s: System, c: Call)
    requires Inv(s) && Permitted(s, c) && (c.CreateQueue? || c.CreateSet?)
    ensures Inv(Step(s, c).0)
  {
    var s' := Step(s, c).0;
    forall q | q in s'.queues ensures QueueOk(s', q) {
      if q in s.queues { QueueFrame(s, s', q); }
    }
    forall p | p in s'.sets ensures SetOk(s', p) {
      if p in s.sets { SetFrame(s, s', p); }
    }
  }

  lemma SendKeeps(s: System, q: Id, message: Bytes)
    requires Inv(s) && q in s.queues && QueueOk(s, q)
    ensures Inv(Sending(s, q, message).0)
  {
    var s' := Sending(s, q, message).0;
    if s' != s {
      forall r | r in s'.queues ensures QueueOk(s', r) {
        if s.queues[q].parent.Some? { CountPush(s.sets[s.queues[q].parent.value].fifo.items, q, r); }
        if r != q { QueueFrame(s, s', r); } else { SendKeepsQueue(s, q, message); }
      }
      forall p | p in s'.sets ensures SetOk(s', p) {
        hide QueueOk;
        assert SetOk(s, p);
        if s.queues[q].parent != Some(p) { SetFrame(s, s', p); }
      }
    }
  }

  lemma SendKeepsQueue(s: System, q: Id, message: Bytes)
    requires q in s.queues && QueueOk(s, q)
    ensures q in Sending(s, q, message).0.queues && QueueOk(Sending(s, q, message).0, q)
  {
    var queue := s.queues[q];
    if queue.parent.Some? { CountPush(s.sets[queue.parent.value].fifo.items, q, q); }
    assert queue.accepted + [message] == queue.delivered + (queue.fifo.items + [message]) by {
      assert queue.accepted == queue.delivered + queue.fifo.items;
    }
  }

  lemma ReceiveKeeps(s: System, q: Id)
    requires Inv(s) && Permitted(s, ReceiveFrom(q)) && QueueOk(s, q)
    ensures Inv(Receiving(s, q).0)
  {
    var s' := Receiving(s, q).0;
    if s' != s {
      forall r | r in s'.queues ensures QueueOk(s', r) {
        if r != q { QueueFrame(s, s', r); } else { ReceiveKeepsQueue(s, q); }
      }
      forall p | p in s'.sets ensures SetOk(s', p) {
        hide QueueOk;
        assert SetOk(s, p);
        hide SetOk;
        SetFrame(s, s', p);
      }
    }
  }

  lemma ReceiveKeepsQueue(s: System, q: Id)
    requires Permitted(s, ReceiveFrom(q)) && QueueOk(s, q)
    ensures q in Receiving(s, q).0.queues && QueueOk(Receiving(s, q).0, q)
  {
    var items := s.queues[q].fifo.items;
    if items != [] {
      assert s.queues[q].delivered + items == s.queues[q].delivered + [items[0]] + items[1..];
    }
  }

  lemma SelectKeeps(s: System, p: Id)
    requires Inv(s) && p in s.sets && SetOk(s, p)
    ensures Inv(Selecting(s, p).0)
  {
    var s', tokens := Selecting(s, p).0, s.sets[p].fifo.items;
    if tokens != [] {
      var t := tokens[0];
      assert t in tokens;
      forall q | q in s'.queues ensures QueueOk(s', q) {
        CountPop(tokens, q);
        assert QueueOk(s, q);
        if q != t { QueueFrame(s, s', q); }
      }
      forall r | r in s'.sets ensures SetOk(s', r) {
        hide QueueOk;
        assert SetOk(s, r);
        if r != p { SetFrame(s, s', r); }
        else { assert forall q :: q in tokens[1..] ==> q in tokens; }
      }
    }
  }

  lemma ResetKeeps(s: System, q: Id)
    requires Inv(s) && q in s.queues && QueueOk(s, q)
    ensures Inv(Resetting(s, q).0)
  {
    var s' := Resetting(s, q).0;
    if s' != s {
      forall r | r in s'.queues ensures QueueOk(s', r) {
        if r != q { QueueFrame(s, s', r); } else { assert s.queues[q].delivered + [] == s.queues[q].delivered; }
      }
      forall p | p in s'.sets ensures SetOk(s', p) {
        hide QueueOk;
        assert SetOk(s, p);
        hide SetOk;
        SetFrame(s, s', p);
      }
    }
  }

  /** A queue outside every set has no tokens anywhere. */
  lemma NoStrayTokens(s: System, p: Id, q: Id)
    requires p in s.sets && SetOk(s, p) && (q !in s.queues || s.queues[q].parent != Some(p))
    ensures q !in s.sets[p].members && Count(s.sets[p].fifo.items, q) == 0
  {
    assert q !in s.sets[p].members;
    assert q !in multiset(s.sets[p].fifo.items);
  }

  lemma AddKeeps(s: System, p: Id, q: Id)
    requires Inv(s) && p in s.sets && q in s.queues && QueueOk(s, q) && SetOk(s, p)
    ensures Inv(Adding(s, p, q).0)
  {
    var s' := Adding(s, p, q).0;
    if s' != s {
      NoStrayTokens(s, p, q);
      forall r | r in s'.queues ensures QueueOk(s', r) {
        if r != q { QueueFrame(s, s', r); }
      }
      forall r | r in s'.sets ensures SetOk(s', r) {
        hide QueueOk;
        assert SetOk(s, r);
        if r != p {
          NoStrayTokens(s, r, q);
          SetFrame(s, s', r);
        } else {
          AddKeepsSet(s, p, q);
        }
      }
    }
  }

  lemma AddKeepsSet(s: System, p: Id, q: Id)
    requires p in s.sets && q in s.queues && SetOk(s, p) && Adding(s, p, q).0 != s
    ensures p in Adding(s, p, q).0.sets && SetOk(Adding(s, p, q).0, p)
  {
    NoStrayTokens(s, p, q);
  }

  lemma {:induction false} WithoutHas(members: seq<Id>, q: Id, x: Id)
    ensures x in Without(members, q) ==> x in members
    ensures x in members && x != q ==> x in Without(members, q)
  {
    if members != [] {
      assert members == [members[0]] + members[1..];
      if members[0] != q { WithoutHas(members[1..], q, x); }
    }
  }

  predicate Different(members: seq<Id>) {
    forall i, j :: 0 <= i < j < |members| ==> members[i] != members[j]
  }

  lemma DifferentHead(members: seq<Id>)
    requires members != []
    ensures Different(members) <==> members[0] !in members[1..] && Different(members[1..])
  {
    var rest := members[1..];
    assert forall i :: 0 <= i < |rest| ==> rest[i] == members[i + 1];
    if members[0] !in rest && Different(rest) {
      forall i, j | 0 <= i < j < |members| ensures members[i] != members[j] {
        if i > 0 { assert rest[i - 1] != rest[j - 1]; } else { assert rest[j - 1] in rest; }
      }
    }
  }

  lemma {:induction false} WithoutDifferent(members: seq<Id>, q: Id)
    requires Different(members)
    ensures Different(Without(members, q)) && q !in Without(members, q)
  {
    if members != [] {
      DifferentHead(members);
      if members[0] != q {
        hide Different;
        var rest := Without(members[1..], q);
        WithoutDifferent(members[1..], q);
        WithoutHas(members[1..], q, members[0]);
        DifferentHead([members[0]] + rest);
        assert ([members[0]] + rest)[1..] == rest;
      }
    }
  }

  lemma WithoutMember(members: seq<Id>, q: Id)
    requires Different(members)
    ensures var r := Without(members, q);
      Different(r) && (forall x :: x in r ==> x in members && x != q) && (forall x :: x in members && x != q ==> x in r)
  {
    WithoutDifferent(members, q);
    forall x ensures (x in Without(members, q) ==> x in members) && (x in members && x != q ==> x in Without(members, q)) {
      WithoutHas(members, q, x);
    }
  }

  lemma RemoveKeeps(s: System, p: Id, q: Id)
    requires Inv(s) && p in s.sets && q in s.queues && QueueOk(s, q) && SetOk(s, p)
    ensures Inv(Removing(s, p, q).0)
  {
    var s' := Removing(s, p, q).0;
    if s' != s {
      WithoutMember(s.sets[p].members, q);
      forall r | r in s'.queues ensures QueueOk(s', r) {
        if r != q { QueueFrame(s, s', r); }
      }
      forall r | r in s'.sets ensures SetOk(s', r) {
        hide QueueOk;
        assert SetOk(s, r);
        if r != p {
          NoStrayTokens(s, r, q);
          SetFrame(s, s', r);
        } else {
          RemoveKeepsSet(s, p, q);
        }
      }
    }
  }

  lemma RemoveKeepsSet(s: System, p: Id, q: Id)
    requires p in s.sets && q in s.queues && QueueOk(s, q) && SetOk(s, p) && Removing(s, p, q).0 != s
    ensures p in Removing(s, p, q).0.sets && SetOk(Removing(s, p, q).0, p)
  {
    WithoutMember(s.sets[p].members, q);
    assert Count(s.sets[p].fifo.items, q) == 0;
    assert q !in multiset(s.sets[p].fifo.items);
  }

  lemma StepKeeps(s: System, c: Call)
    requires Inv(s) && Permitted(s, c)
    ensures Inv(Step(s, c).0)
  {
    match c
    case CreateQueue(_, _) => CreateKeeps(s, c);
    case CreateSet(_, _) => CreateKeeps(s, c);
    case SendTo(q, message) => SendKeeps(s, q, message);
    case ReceiveFrom(q) => ReceiveKeeps(s, q);
    case Select(p) => SelectKeeps(s, p);
    case ResetQueue(q) => ResetKeeps(s, q);
    case AddQueue(p, q) => AddKeeps(s, p, q);
    case RemoveQueue(p, q) => RemoveKeeps(s, p, q);
  }

  // ---------------------------------------------------------------- runs

  const START := System(map[], map[], multiset{})

  /** Any interleaving of permitted calls from any number of threads. */
  ghost predicate Run(states: seq<System>, calls: seq<Call>) {
    |states| == |calls| + 1 && states[0] == START
    && forall i :: 0 <= i < |calls| ==>
         Permitted(states[i], calls[i]) && states[i + 1] == Step(states[i], calls[i]).0
  }

  lemma {:induction false} RunKeeps(states: seq<System>, calls: seq<Call>, i: nat)
    requires Run(states, calls) && i < |states|
    ensures Inv(states[i])
  {
    hide Inv, Permitted, Step;
    if i == 0 {
      StartOk();
    } else {
      RunKeeps(states, calls, i - 1);
      StepKeeps(states[i - 1], calls[i - 1]);
    }
  }

  lemma StartOk()
    ensures Inv(START)
  {
  }

  /** The permissions speak of the caller's discipline only: a live queue can always be sent to. */
  lemma LiveSend(s: System, q: Id, message: Bytes)
    requires Inv(s) && q in s.queues
    ensures Permitted(s, SendTo(q, message))
  {
    assert QueueOk(s, q);
  }

  /** In every reachable state a member's filled slots are its waiting tokens and its selected ones. */
  lemma Conservation(states: seq<System>, calls: seq<Call>, i: nat, q: Id)
    requires Run(states, calls) && i < |states| && q in states[i].queues
    ensures var s, queue := states[i], states[i].queues[q];
      queue.accepted == queue.delivered + queue.fifo.items && |queue.fifo.items| <= queue.fifo.capacity
      && match queue.parent
         case None => s.selected[q] == 0 && forall p :: p in s.sets ==> Count(s.sets[p].fifo.items, q) == 0
         case Some(p) =>
           p in s.sets && Count(s.sets[p].fifo.items, q) + s.selected[q] == |queue.fifo.items|
           && forall r :: r in s.sets && r != p ==> Count(s.sets[r].fifo.items, q) == 0
  {
    RunKeeps(states, calls, i);
    var s := states[i];
    assert QueueOk(s, q);
    forall r | r in s.sets && s.queues[q].parent != Some(r) ensures Count(s.sets[r].fifo.items, q) == 0 {
      assert SetOk(s, r);
      NoStrayTokens(s, r, q);
    }
  }

  /** After a selection a receive without waiting succeeds, with the oldest message not yet delivered. */
  lemma SelectedReceives(states: seq<System>, calls: seq<Call>, i: nat, q: Id)
    requires Run(states, calls) && i < |states| && q in states[i].queues && states[i].selected[q] > 0
    ensures var s, queue := states[i], states[i].queues[q];
      var answer := Step(s, ReceiveFrom(q)).1;
      |queue.delivered| < |queue.accepted|
      && answer.code == 0 && answer.message == Some(queue.accepted[|queue.delivered|])
  {
    RunKeeps(states, calls, i);
    assert QueueOk(states[i], q);
  }

  /** Selecting from a set with waiting tokens answers with a member that has a message. */
  lemma SelectFinds(states: seq<System>, calls: seq<Call>, i: nat, p: Id)
    requires Run(states, calls) && i < |states| && p in states[i].sets && states[i].sets[p].fifo.items != []
    ensures var s := states[i];
      var (s', answer) := Step(s, Select(p));
      answer.handle.Some? && answer.handle.value in s.sets[p].members && answer.handle.value in s'.queues
      && s'.selected[answer.handle.value] > 0 && s'.queues[answer.handle.value].fifo.items != []
  {
    RunKeeps(states, calls, i);
    var s, t := states[i], states[i].sets[p].fifo.items[0];
    assert SetOk(s, p) && t in s.sets[p].fifo.items;
    assert QueueOk(s, t);
    CountPop(s.sets[p].fifo.items, t);
  }

  // ---------------------------------------------------------------- capacity

  function Slots(s: System, members: seq<Id>): nat
    requires forall q :: q in members ==> q in s.queues
  {
    if members == [] then 0 else s.queues[members[0]].fifo.capacity + Slots(s, members[1..])
  }

  function Waiting(tokens: seq<Id>, members: seq<Id>): nat {
    if members == [] then 0 else Count(tokens, members[0]) + Waiting(tokens, members[1..])
  }

  lemma {:induction false} WaitingNone(members: seq<Id>)
    ensures Waiting([], members) == 0
  {
    if members != [] { WaitingNone(members[1..]); }
  }

  lemma {:induction false} WaitingMore(tokens: seq<Id>, members: seq<Id>)
    requires tokens != [] && Different(members)
    ensures Waiting(tokens, members) == Waiting(tokens[1..], members) + if tokens[0] in members then 1 else 0
  {
    if members != [] {
      DifferentHead(members);
      CountPop(tokens, members[0]);
      WaitingMore(tokens, members[1..]);
      assert members == [members[0]] + members[1..];
    }
  }

  lemma {:induction false} WaitingAll(tokens: seq<Id>, members: seq<Id>)
    requires Different(members) && forall t :: t in tokens ==> t in members
    ensures Waiting(tokens, members) == |tokens|
  {
    if tokens == [] {
      WaitingNone(members);
    } else {
      assert forall t :: t in tokens[1..] ==> t in tokens;
      WaitingMore(tokens, members);
      WaitingAll(tokens[1..], members);
    }
  }

  /** Tokens are at most the members' slots, and fewer when some member has room. */
  lemma {:induction false} WaitingFits(s: System, tokens: seq<Id>, members: seq<Id>, q: Id)
    requires forall r :: r in members ==> r in s.queues && Count(tokens, r) <= s.queues[r].fifo.capacity
    ensures Waiting(tokens, members) <= Slots(s, members)
    ensures q in members && Count(tokens, q) < s.queues[q].fifo.capacity ==> Waiting(tokens, members) < Slots(s, members)
  {
    if members != [] {
      assert members == [members[0]] + members[1..];
      WaitingFits(s, tokens, members[1..], q);
    }
  }

  /** With a set as large as its members together, a send fails only when its own queue is full. */
  lemma EnoughRoom(states: seq<System>, calls: seq<Call>, i: nat, q: Id, message: Bytes)
    requires Run(states, calls) && i < |states| && q in states[i].queues
    requires match states[i].queues[q].parent
             case None => true
             case Some(p) =>
               p in states[i].sets && (forall r :: r in states[i].sets[p].members ==> r in states[i].queues)
               && Slots(states[i], states[i].sets[p].members) <= states[i].sets[p].fifo.capacity
    ensures Permitted(states[i], SendTo(q, message))
    ensures Step(states[i], SendTo(q, message)).1.code == if Full(states[i].queues[q].fifo) then -1 else 0
  {
    RunKeeps(states, calls, i);
    var s := states[i];
    LiveSend(s, q, message);
    if s.queues[q].parent.Some? && !Full(s.queues[q].fifo) {
      var p := s.queues[q].parent.value;
      var tokens, members := s.sets[p].fifo.items, s.sets[p].members;
      assert SetOk(s, p);
      assert QueueOk(s, q);
      forall r | r in members ensures r in s.queues && Count(tokens, r) <= s.queues[r].fifo.capacity {
        assert QueueOk(s, r);
      }
      WaitingAll(tokens, members);
      WaitingFits(s, tokens, members, q);
    }
  }
}
