/** The message looper: a time-ordered list of pending messages and one thread that dispatches them. */
module Looper {

  /** What a caller posts; messages without a handler of their own use the looper's. */
  datatype Message = Message(what: int, owner: nat, hasHandler: bool, timeoutMs: nat)

  /** An accepted message. Ids number all posts in the order they happen. */
  datatype Node = Node(id: nat, what: int, owner: nat, hasHandler: bool, front: bool, due: nat, timeout: nat)

  datatype MessageState = PENDING | HANDLED | TIMEOUT | DISCARDED

  /** Callbacks run and nodes freed. */
  datatype Event = HandleCall(id: nat) | TimeoutCall(id: nat) | DiscardCall(id: nat) | Free(id: nat)

  /** Where the looper's thread is between two critical sections. */
  datatype Phase = Idle | Taken(node: Node, now: nat) | Finished(node: Node, state: MessageState)

  datatype State = State(
    pending: seq<Node>, count: int, phase: Phase, posted: nat, log: seq<Event>, defaultHandler: bool, clock: nat)

  function NodeOf(m: Message, id: nat, front: bool, due: nat, sampled: nat): Node {
    Node(id, m.what, m.owner, m.hasHandler, front, due, if m.timeoutMs > 0 then sampled + m.timeoutMs * 1000 else 0)
  }

  /** `mlooper_free_msgnode`. */
  function FreeLog(id: nat, state: MessageState): seq<Event> {
    (if state != HANDLED then [DiscardCall(id)] else []) + [Free(id)]
  }

  /** Where the walk from the tail stops: behind the last of the first n nodes not due later. */
  function Place(pending: seq<Node>, n: nat, due: nat): (p: nat)
    requires n <= |pending|
    ensures p <= n
  {
    if n == 0 || due >= pending[n - 1].due then n else Place(pending, n - 1, due)
  }

  function Insert(pending: seq<Node>, p: nat, node: Node): seq<Node>
    requires p <= |pending|
  {
    pending[..p] + [node] + pending[p..]
  }

  /** `mlooper_post_message_delay`, with the clock as it was sampled before the lock was taken. */
  function PostDelay(s: State, m: Message, sampled: nat, msec: nat): (State, int) {
    if m.timeoutMs > 0 && m.timeoutMs <= msec then
      (s.(posted := s.posted + 1, log := s.log + FreeLog(s.posted, DISCARDED)), -1)
    else
      var node := NodeOf(m, s.posted, false, sampled + msec * 1000, sampled);
      (s.(posted := s.posted + 1, count := s.count + 1,
          pending := Insert(s.pending, Place(s.pending, |s.pending|, node.due), node)), 0)
  }

  /** `mlooper_post_message_front`. */
  function PostFront(s: State, m: Message, sampled: nat): (State, int) {
    var due := if s.pending != [] && s.pending[0].due <= sampled then s.pending[0].due else sampled;
    (s.(posted := s.posted + 1, count := s.count + 1,
        pending := [NodeOf(m, s.posted, true, due, sampled)] + s.pending), 0)
  }

  /** The critical section of the looper's thread, when a message is pending. */
  function TakeDue(s: State): State
    requires s.pending != []
  {
    if s.pending[0].due > s.clock then s
    else s.(pending := s.pending[1..], count := s.count - 1, phase := Taken(s.pending[0], s.clock))
  }

  /** What becomes of a message that has been taken. */
  function Verdict(node: Node, now: nat, defaultHandler: bool): MessageState {
    if node.timeout > 0 && node.timeout < now then TIMEOUT
    else if node.hasHandler || defaultHandler then HANDLED
    else DISCARDED
  }

  function Dispatch(s: State): State
    requires s.phase.Taken?
  {
    var node := s.phase.node;
    var verdict := Verdict(node, s.phase.now, s.defaultHandler);
    s.(phase := Finished(node, verdict),
       log := s.log + if verdict == TIMEOUT then [TimeoutCall(node.id)]
                      else if verdict == HANDLED then [HandleCall(node.id)] else [])
  }

  function Release(s: State): State
    requires s.phase.Finished?
  {
    s.(phase := Idle, log := s.log + FreeLog(s.phase.node.id, s.phase.state))
  }

  function Kept(pending: seq<Node>, matches: Node -> bool): seq<Node> {
    if pending == [] then [] else (if matches(pending[0]) then [] else [pending[0]]) + Kept(pending[1..], matches)
  }

  function DropLog(pending: seq<Node>, matches: Node -> bool): seq<Event> {
    if pending == [] then []
    else (if matches(pending[0]) then FreeLog(pending[0].id, DISCARDED) else []) + DropLog(pending[1..], matches)
  }

  /** The `mlooper_remove_*` and `mlooper_clear_*` family. */
  function Remove(s: State, matches: Node -> bool): State {
    var kept := Kept(s.pending, matches);
    s.(pending := kept, count := s.count - (|s.pending| - |kept|), log := s.log + DropLog(s.pending, matches))
  }

  function SelfMessage(what: int, self: nat): Node -> bool {
    (n: Node) => n.what == what && n.owner == self
  }

  function SelfMatch(onMatch: Node -> bool, self: nat): Node -> bool {
    (n: Node) => onMatch(n) && n.owner == self
  }

  function AnySelf(self: nat): Node -> bool {
    (n: Node) => n.owner == self
  }

  function AnyMessage(what: int): Node -> bool {
    (n: Node) => n.what == what
  }

  function Every(): Node -> bool {
    _ => true
  }

  datatype Action =
    | Delay(m: Message, sampled: nat, msec: nat)
    | Front(m: Message, sampled: nat)
    | Take
    | Run
    | Finish
    | RemoveIf(matches: Node -> bool)
    | Tick(clock: nat)

  ghost predicate Step(s: State, a: Action, s': State) {
    match a
    case Delay(m, sampled, msec) => sampled <= s.clock && s' == PostDelay(s, m, sampled, msec).0
    case Front(m, sampled) => sampled <= s.clock && s' == PostFront(s, m, sampled).0
    case Take => s.phase.Idle? && s.pending != [] && s' == TakeDue(s)
    case Run => s.phase.Taken? && s' == Dispatch(s)
    case Finish => s.phase.Finished? && s' == Release(s)
    case RemoveIf(matches) => s' == Remove(s, matches)
    case Tick(clock) => s.clock <= clock && s' == s.(clock := clock)
  }

  ghost predicate Runs(states: seq<State>, actions: seq<Action>) {
    |states| == |actions| + 1 && states[0] == State([], 0, Idle, 0, [], states[0].defaultHandler, states[0].clock)
    && forall i :: 0 <= i < |actions| ==> Step(states[i], actions[i], states[i + 1])
  }

  // ---------------------------------------------------------------- invariant

  /** a may stand before b: by due time; delayed posts of equal time in the order posted; front posts before older ones. */
  predicate MayPrecede(a: Node, b: Node) {
    a.due <= b.due
    && (a.due == b.due && !a.front && !b.front ==> a.id < b.id)
    && (b.front ==> b.id < a.id)
  }

  predicate InOrder(pending: seq<Node>) {
    forall i, j :: 0 <= i < j < |pending| ==> MayPrecede(pending[i], pending[j])
  }

  function Ids(pending: seq<Node>): (ids: seq<nat>)
    ensures |ids| == |pending|
  {
    seq(|pending|, i requires 0 <= i < |pending| => pending[i].id)
  }

  function Held(pending: seq<Node>, id: nat): nat {
    multiset(Ids(pending))[id]
  }

  function Times(log: seq<Event>, e: Event): nat {
    multiset(log)[e]
  }

  function InDispatch(phase: Phase, id: nat): nat {
    if !phase.Idle? && phase.node.id == id then 1 else 0
  }

  /** In how many places a message is: pending, in dispatch or freed. */
  function Places(s: State, id: nat): nat {
    Held(s.pending, id) + InDispatch(s.phase, id) + Times(s.log, Free(id))
  }

  function JustHandled(phase: Phase, id: nat): nat {
    if phase.Finished? && phase.state == HANDLED && phase.node.id == id then 1 else 0
  }

  predicate Accounted(s: State, id: nat) {
    Places(s, id) == (if id < s.posted then 1 else 0)
    && Times(s.log, DiscardCall(id)) + Times(s.log, HandleCall(id)) == Times(s.log, Free(id)) + JustHandled(s.phase, id)
  }

  ghost predicate Inv(s: State) {
    s.count == |s.pending| && InOrder(s.pending) && (forall id :: Accounted(s, id))
    && (forall i :: 0 <= i < |s.pending| ==> s.pending[i].timeout == 0 || s.pending[i].timeout > s.pending[i].due)
  }

  lemma IdsParts(a: seq<Node>, b: seq<Node>)
    ensures Ids(a + b) == Ids(a) + Ids(b)
  {
  }

  lemma HeldParts(a: seq<Node>, b: seq<Node>, id: nat)
    ensures Held(a + b, id) == Held(a, id) + Held(b, id)
  {
    IdsParts(a, b);
  }

  lemma HeldOne(n: Node, id: nat)
    ensures Held([n], id) == if n.id == id then 1 else 0
  {
    assert Ids([n]) == [n.id];
  }

  /** Ids of pending messages have been given out. */
  lemma HeldPosted(s: State, i: nat)
    requires Inv(s) && i < |s.pending|
    ensures s.pending[i].id < s.posted
  {
    var id := s.pending[i].id;
    assert Ids(s.pending)[i] == id;
    assert id in multiset(Ids(s.pending));
    assert Accounted(s, id);
  }

  lemma {:induction false} PlaceSplits(pending: seq<Node>, n: nat, due: nat)
    requires InOrder(pending) && n <= |pending|
    ensures var p := Place(pending, n, due);
      (forall i :: 0 <= i < p ==> pending[i].due <= due) && (forall i :: p <= i < n ==> due < pending[i].due)
  {
    if n > 0 && due < pending[n - 1].due { PlaceSplits(pending, n - 1, due); }
  }

  lemma InsertEach(pending: seq<Node>, p: nat, node: Node)
    requires p <= |pending|
    ensures |Insert(pending, p, node)| == |pending| + 1
    ensures forall i :: 0 <= i <= |pending| ==>
      Insert(pending, p, node)[i] == if i < p then pending[i] else if i == p then node else pending[i - 1]
  {
  }

  lemma InsertInOrder(pending: seq<Node>, node: Node)
    requires InOrder(pending) && !node.front
    requires forall i :: 0 <= i < |pending| ==> pending[i].id < node.id
    ensures InOrder(Insert(pending, Place(pending, |pending|, node.due), node))
  {
    var p := Place(pending, |pending|, node.due);
    PlaceSplits(pending, |pending|, node.due);
    hide Place;
    forall i | 0 <= i < p ensures MayPrecede(pending[i], node) {}
    forall i | p <= i < |pending| ensures MayPrecede(node, pending[i]) {}
    BetweenInOrder(pending, p, node);
  }

  lemma BetweenInOrder(pending: seq<Node>, p: nat, node: Node)
    requires InOrder(pending) && p <= |pending|
    requires forall i :: 0 <= i < p ==> MayPrecede(pending[i], node)
    requires forall i :: p <= i < |pending| ==> MayPrecede(node, pending[i])
    ensures InOrder(Insert(pending, p, node))
  {
    var r := Insert(pending, p, node);
    InsertEach(pending, p, node);
    hide MayPrecede, Insert;
    forall i, j | 0 <= i < j < |r| ensures MayPrecede(r[i], r[j]) {}
  }

  lemma FrontInOrder(pending: seq<Node>, node: Node)
    requires InOrder(pending) && node.front && (pending != [] ==> node.due <= pending[0].due)
    requires forall i :: 0 <= i < |pending| ==> pending[i].id < node.id
    ensures InOrder([node] + pending)
  {
    var r := [node] + pending;
    assert forall i :: 0 < i < |r| ==> r[i] == pending[i - 1];
    assert forall i :: 0 <= i < |pending| ==> node.due <= pending[i].due;
  }

  /** Log entries of one message. */
  lemma FreeLogTimes(id: nat, state: MessageState, x: nat)
    ensures Times(FreeLog(id, state), Free(x)) == if id == x then 1 else 0
    ensures Times(FreeLog(id, state), DiscardCall(x)) == if id == x && state != HANDLED then 1 else 0
    ensures Times(FreeLog(id, state), HandleCall(x)) == 0
  {
    if state != HANDLED {
      assert FreeLog(id, state) == [DiscardCall(id), Free(id)];
    } else {
      assert FreeLog(id, state) == [Free(id)];
    }
  }

  lemma TimesParts(a: seq<Event>, b: seq<Event>, e: Event)
    ensures Times(a + b, e) == Times(a, e) + Times(b, e)
  {
  }

  lemma LogTimes(a: seq<Event>, b: seq<Event>, x: nat)
    ensures Times(a + b, Free(x)) == Times(a, Free(x)) + Times(b, Free(x))
    ensures Times(a + b, DiscardCall(x)) == Times(a, DiscardCall(x)) + Times(b, DiscardCall(x))
    ensures Times(a + b, HandleCall(x)) == Times(a, HandleCall(x)) + Times(b, HandleCall(x))
  {
    TimesParts(a, b, Free(x));
    TimesParts(a, b, DiscardCall(x));
    TimesParts(a, b, HandleCall(x));
  }

  lemma DelayKeeps(s: State, m: Message, sampled: nat, msec: nat)
    requires Inv(s)
    ensures Inv(PostDelay(s, m, sampled, msec).0)
  {
    if m.timeoutMs > 0 && m.timeoutMs <= msec {
      RefusalKeeps(s);
    } else {
      InsertionKeeps(s, NodeOf(m, s.posted, false, sampled + msec * 1000, sampled));
    }
  }

  lemma RefusalKeeps(s: State)
    requires Inv(s)
    ensures Inv(s.(posted := s.posted + 1, log := s.log + FreeLog(s.posted, DISCARDED)))
  {
    var s' := s.(posted := s.posted + 1, log := s.log + FreeLog(s.posted, DISCARDED));
    forall id ensures Accounted(s', id) {
      assert Accounted(s, id);
      FreeLogTimes(s.posted, DISCARDED, id);
      LogTimes(s.log, FreeLog(s.posted, DISCARDED), id);
      hide Times, FreeLog, Held;
    }
    hide Accounted;
  }

  lemma InsertionKeeps(s: State, node: Node)
    requires Inv(s) && node.id == s.posted && !node.front && (node.timeout == 0 || node.timeout > node.due)
    ensures var p := Place(s.pending, |s.pending|, node.due);
      Inv(s.(posted := s.posted + 1, count := s.count + 1, pending := Insert(s.pending, p, node)))
  {
    var p := Place(s.pending, |s.pending|, node.due);
    var s' := s.(posted := s.posted + 1, count := s.count + 1, pending := Insert(s.pending, p, node));
    forall i | 0 <= i < |s.pending| ensures s.pending[i].id < s.posted { HeldPosted(s, i); }
    InsertInOrder(s.pending, node);
    forall id ensures Accounted(s', id) {
      assert Accounted(s, id);
      InsertHeld(s.pending, p, node, id);
      hide Times, Held, Insert, Place;
    }
    hide Accounted, InOrder, Insert, Place;
    InsertEach(s.pending, p, node);
  }

  lemma InsertHeld(pending: seq<Node>, p: nat, node: Node, id: nat)
    requires p <= |pending|
    ensures Held(Insert(pending, p, node), id) == Held(pending, id) + if node.id == id then 1 else 0
  {
    HeldParts(pending[..p] + [node], pending[p..], id);
    HeldParts(pending[..p], [node], id);
    HeldOne(node, id);
    HeldParts(pending[..p], pending[p..], id);
    assert pending == pending[..p] + pending[p..];
  }

  lemma FrontKeeps(s: State, m: Message, sampled: nat)
    requires Inv(s)
    ensures Inv(PostFront(s, m, sampled).0)
  {
    var s' := PostFront(s, m, sampled).0;
    var node := s'.pending[0];
    forall i | 0 <= i < |s.pending| ensures s.pending[i].id < s.posted { HeldPosted(s, i); }
    FrontInOrder(s.pending, node);
    forall id ensures Accounted(s', id) {
      assert Accounted(s, id);
      HeldParts([node], s.pending, id);
      HeldOne(node, id);
      hide Times, Held;
    }
  }

  lemma TakeKeeps(s: State)
    requires Inv(s) && s.phase.Idle? && s.pending != []
    ensures Inv(TakeDue(s))
  {
    var s' := TakeDue(s);
    if s' != s {
      assert s.pending == [s.pending[0]] + s.pending[1..];
      forall id ensures Accounted(s', id) {
        assert Accounted(s, id);
        HeldParts([s.pending[0]], s.pending[1..], id);
        HeldOne(s.pending[0], id);
        hide Times, Held;
      }
    }
  }

  lemma RunKeeps(s: State)
    requires Inv(s) && s.phase.Taken?
    ensures Inv(Dispatch(s))
  {
    var s' := Dispatch(s);
    var more := s'.log[|s.log|..];
    assert s'.log == s.log + more;
    forall id ensures Accounted(s', id) {
      assert Accounted(s, id);
      LogTimes(s.log, more, id);
      assert Times(more, Free(id)) == 0 && Times(more, DiscardCall(id)) == 0;
      assert Times(more, HandleCall(id)) == JustHandled(s'.phase, id);
      hide Times, Held;
    }
  }

  lemma FinishKeeps(s: State)
    requires Inv(s) && s.phase.Finished?
    ensures Inv(Release(s))
  {
    var s' := Release(s);
    var more := FreeLog(s.phase.node.id, s.phase.state);
    forall id ensures Accounted(s', id) {
      assert Accounted(s, id);
      LogTimes(s.log, more, id);
      FreeLogTimes(s.phase.node.id, s.phase.state, id);
      hide Times, Held, FreeLog;
    }
  }

  lemma {:induction false} KeptHeld(pending: seq<Node>, matches: Node -> bool, id: nat)
    ensures Held(Kept(pending, matches), id) + Times(DropLog(pending, matches), Free(id)) == Held(pending, id)
    ensures Times(DropLog(pending, matches), DiscardCall(id)) == Times(DropLog(pending, matches), Free(id))
    ensures Times(DropLog(pending, matches), HandleCall(id)) == 0
  {
    if pending != [] {
      var first, rest := pending[0], pending[1..];
      KeptHeld(rest, matches, id);
      assert pending == [first] + rest;
      HeldParts([first], rest, id);
      HeldOne(first, id);
      HeldParts([first], Kept(rest, matches), id);
      LogTimes(FreeLog(first.id, DISCARDED), DropLog(rest, matches), id);
      FreeLogTimes(first.id, DISCARDED, id);
      hide Held, Times, FreeLog;
      assert [] + Kept(rest, matches) == Kept(rest, matches) && [] + DropLog(rest, matches) == DropLog(rest, matches);
    }
  }

  lemma {:induction false} KeptSome(pending: seq<Node>, matches: Node -> bool, n: Node)
    ensures n in Kept(pending, matches) <==> n in pending && !matches(n)
  {
    if pending != [] {
      KeptSome(pending[1..], matches, n);
      assert pending == [pending[0]] + pending[1..];
    }
  }

  lemma {:induction false} KeptInOrder(pending: seq<Node>, matches: Node -> bool)
    requires InOrder(pending)
    ensures InOrder(Kept(pending, matches)) && |Kept(pending, matches)| <= |pending|
  {
    if pending != [] {
      var first, kept := pending[0], Kept(pending[1..], matches);
      KeptInOrder(pending[1..], matches);
      forall j | 0 <= j < |kept| ensures MayPrecede(first, kept[j]) {
        assert kept[j] in kept;
        KeptSome(pending[1..], matches, kept[j]);
      }
      hide Kept;
      hide MayPrecede;
      KeptStep(pending, matches);
    }
  }

  lemma KeptStep(pending: seq<Node>, matches: Node -> bool)
    requires pending != []
    ensures Kept(pending, matches)
      == if matches(pending[0]) then Kept(pending[1..], matches) else [pending[0]] + Kept(pending[1..], matches)
  {
  }

  lemma RemoveKeeps(s: State, matches: Node -> bool)
    requires Inv(s)
    ensures Inv(Remove(s, matches))
  {
    var s' := Remove(s, matches);
    KeptInOrder(s.pending, matches);
    forall id ensures Accounted(s', id) {
      assert Accounted(s, id);
      KeptHeld(s.pending, matches, id);
      LogTimes(s.log, DropLog(s.pending, matches), id);
      hide Held, Times, Kept, DropLog;
    }
    forall i | 0 <= i < |s'.pending| ensures s'.pending[i].timeout == 0 || s'.pending[i].timeout > s'.pending[i].due {
      KeptSome(s.pending, matches, s'.pending[i]);
    }
  }

  lemma StepKeeps(s: State, a: Action, s': State)
    requires Inv(s) && Step(s, a, s')
    ensures Inv(s')
  {
    hide PostDelay, PostFront, TakeDue, Dispatch, Release, Remove, Held, Times, InOrder;
    match a
    case Delay(m, sampled, msec) => DelayKeeps(s, m, sampled, msec);
    case Front(m, sampled) => FrontKeeps(s, m, sampled);
    case Take => TakeKeeps(s);
    case Run => RunKeeps(s);
    case Finish => FinishKeeps(s);
    case RemoveIf(matches) => RemoveKeeps(s, matches);
    case Tick(clock) => forall id ensures Accounted(s', id) { assert Accounted(s, id); }
  }

  lemma {:induction false} RunsKeep(states: seq<State>, actions: seq<Action>, i: nat)
    requires Runs(states, actions) && i < |states|
    ensures Inv(states[i])
  {
    if i == 0 {
    } else {
      hide Inv, Step;
      RunsKeep(states, actions, i - 1);
      StepKeeps(states[i - 1], actions[i - 1], states[i]);
    }
  }

  // ---------------------------------------------------------------- what every run shows

  /** Only the head is dispatched, only when it is due, and nothing pending is due earlier. */
  lemma DispatchesDue(states: seq<State>, actions: seq<Action>, i: nat)
    requires Runs(states, actions) && i < |actions| && actions[i].Take?
    requires states[i + 1].phase.Taken? && states[i].pending != []
    ensures var s, s' := states[i], states[i + 1];
      s'.phase.node == s.pending[0] && s'.phase.node.due <= s.clock == s'.phase.now
      && s'.pending == s.pending[1..]
      && forall k :: 0 <= k < |s'.pending| ==> MayPrecede(s'.phase.node, s'.pending[k])
  {
    RunsKeep(states, actions, i);
    assert Step(states[i], actions[i], states[i + 1]);
  }

  /** The pending list is sorted, its length is the count, and delayed posts of one due time are in posting order. */
  lemma PendingOrder(states: seq<State>, actions: seq<Action>, i: nat, j: nat, k: nat)
    requires Runs(states, actions) && i < |states| && j < |states[i].pending| && k < |states[i].pending|
    ensures states[i].count == |states[i].pending|
    ensures var a, b := states[i].pending[j], states[i].pending[k];
      (j < k ==> a.due <= b.due) && (!a.front && !b.front && a.id < b.id && a.due <= b.due ==> j < k)
      && (a.front && b.id < a.id ==> j < k)
  {
    RunsKeep(states, actions, i);
    var pending := states[i].pending;
    if k < j { assert MayPrecede(pending[k], pending[j]); }
    if j < k { assert MayPrecede(pending[j], pending[k]); }
  }

  /** Every posted message is pending, in dispatch or freed, once; a freed one was handled or discarded, once. */
  lemma ExactlyOnce(states: seq<State>, actions: seq<Action>, i: nat, id: nat)
    requires Runs(states, actions) && i < |states|
    ensures var s := states[i];
      Places(s, id) == (if id < s.posted then 1 else 0)
      && Times(s.log, Free(id)) <= 1
      && (InDispatch(s.phase, id) == 0 ==>
            Times(s.log, DiscardCall(id)) == Times(s.log, Free(id)) - Times(s.log, HandleCall(id)))
      && (s.pending == [] && s.phase.Idle? && id < s.posted ==>
            Times(s.log, Free(id)) == 1 && Times(s.log, DiscardCall(id)) + Times(s.log, HandleCall(id)) == 1)
  {
    RunsKeep(states, actions, i);
    hide Times;
    assert Accounted(states[i], id);
    if states[i].pending == [] { assert Ids([]) == []; }
  }

  /** A delayed post whose timeout would come first is refused: discarded and freed at once, and never pending. */
  lemma RefusedPost(states: seq<State>, actions: seq<Action>, i: nat, m: Message, sampled: nat, msec: nat)
    requires Runs(states, actions) && i < |states|
    ensures var s := states[i];
      var (s', code) := PostDelay(s, m, sampled, msec);
      (code == -1 <==> 0 < m.timeoutMs <= msec)
      && (code == -1 ==> s'.pending == s.pending && Times(s'.log, Free(s.posted)) == Times(s'.log, DiscardCall(s.posted)) == 1)
      && (code == 0 ==> Held(s'.pending, s.posted) == 1)
  {
    RunsKeep(states, actions, i);
    var s := states[i];
    var s' := PostDelay(s, m, sampled, msec).0;
    DelayKeeps(s, m, sampled, msec);
    assert Accounted(s, s.posted) && Accounted(s', s.posted);
    LogTimes(s.log, FreeLog(s.posted, DISCARDED), s.posted);
    FreeLogTimes(s.posted, DISCARDED, s.posted);
    if m.timeoutMs == 0 || m.timeoutMs > msec {
      hide Times, PostDelay;
      PostedNotFreed(s);
      assert s'.log == s.log && s'.phase == s.phase && s'.posted == s.posted + 1 by { AcceptedState(s, m, sampled, msec); }
    }
  }

  lemma PostedNotFreed(s: State)
    requires Accounted(s, s.posted)
    ensures Times(s.log, Free(s.posted)) == InDispatch(s.phase, s.posted) == 0
  {
  }

  lemma AcceptedState(s: State, m: Message, sampled: nat, msec: nat)
    requires m.timeoutMs == 0 || m.timeoutMs > msec
    ensures var s' := PostDelay(s, m, sampled, msec).0;
      s'.log == s.log && s'.phase == s.phase && s'.posted == s.posted + 1
  {
  }

  /** A message is only ever timed out when it is taken after its timeout, which is after it was due. */
  lemma TimeoutsAreLate(states: seq<State>, actions: seq<Action>, i: nat)
    requires Runs(states, actions) && i < |states| && states[i].phase.Taken? && i > 0 && actions[i - 1].Take?
    requires Verdict(states[i].phase.node, states[i].phase.now, states[i].defaultHandler) == TIMEOUT
    ensures states[i].phase.node.due < states[i].phase.node.timeout < states[i].phase.now
  {
    RunsKeep(states, actions, i - 1);
    assert Step(states[i - 1], actions[i - 1], states[i]);
  }

  /** What the `remove` family leaves: exactly the messages that do not match, in order. */
  lemma RemovalKeepsOthers(s: State, matches: Node -> bool, n: Node)
    ensures n in Remove(s, matches).pending <==> n in s.pending && !matches(n)
  {
    KeptSome(s.pending, matches, n);
  }
}
