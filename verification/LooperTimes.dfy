/** When the looper dispatches a message, told from the call that posted it. */
module LooperTimes {
  import opened Looper

  /** Whatever the looper still holds of a message is this node. */
  ghost predicate Carries(s: State, node: Node) {
    && node.id < s.posted
    && (forall n :: n in s.pending && n.id == node.id ==> n == node)
    && (!s.phase.Idle? && s.phase.node.id == node.id ==> s.phase.node == node)
  }

  lemma FreshId(s: State)
    requires Inv(s)
    ensures forall n :: n in s.pending ==> n.id < s.posted
    ensures !s.phase.Idle? ==> s.phase.node.id < s.posted
  {
    forall n | n in s.pending ensures n.id < s.posted {
      var i :| 0 <= i < |s.pending| && s.pending[i] == n;
      HeldPosted(s, i);
    }
    if !s.phase.Idle? { assert Accounted(s, s.phase.node.id); }
  }

  /** The node of a delayed post that is not refused. */
  function DelayedNode(id: nat, m: Message, sampled: nat, msec: nat): (n: Node)
    ensures n.id == id && n.due == sampled + 1000 * msec && !n.front && n.hasHandler == m.hasHandler
    ensures n.timeout == if m.timeoutMs == 0 then 0 else sampled + 1000 * m.timeoutMs
  {
    Node(id, m.what, m.owner, m.hasHandler, false, sampled + 1000 * msec,
         if m.timeoutMs == 0 then 0 else sampled + 1000 * m.timeoutMs)
  }

  lemma InsertedIn(pending: seq<Node>, p: nat, node: Node)
    requires p <= |pending|
    ensures forall n :: n in Insert(pending, p, node) <==> n == node || n in pending
  {
    assert pending == pending[..p] + pending[p..];
  }

  lemma DelayCarries(s: State, m: Message, sampled: nat, msec: nat)
    requires Inv(s) && (m.timeoutMs == 0 || m.timeoutMs > msec)
    ensures Carries(PostDelay(s, m, sampled, msec).0, DelayedNode(s.posted, m, sampled, msec))
    ensures DelayedNode(s.posted, m, sampled, msec) in PostDelay(s, m, sampled, msec).0.pending
  {
    FreshId(s);
    var node := DelayedNode(s.posted, m, sampled, msec);
    InsertedIn(s.pending, Place(s.pending, |s.pending|, node.due), node);
    hide Place, Insert, Inv;
  }

  lemma StepCarries(s: State, a: Action, s': State, node: Node)
    requires Carries(s, node) && Step(s, a, s')
    ensures Carries(s', node)
  {
    match a
    case Delay(m, sampled, msec) =>
      var due := sampled + msec * 1000;
      InsertedIn(s.pending, Place(s.pending, |s.pending|, due), NodeOf(m, s.posted, false, due, sampled));
      hide Insert, Place;
    case RemoveIf(matches) =>
      forall n ensures n in Kept(s.pending, matches) <==> n in s.pending && !matches(n) {
        KeptSome(s.pending, matches, n);
      }
      hide Kept;
    case _ =>
  }

  lemma StepOf(states: seq<State>, actions: seq<Action>, k: nat)
    requires Runs(states, actions) && k < |actions|
    ensures k + 1 < |states| && Step(states[k], actions[k], states[k + 1])
  {
  }

  lemma RunLength(states: seq<State>, actions: seq<Action>)
    requires Runs(states, actions)
    ensures |states| == |actions| + 1 && TimeoutsCounted(states[0])
  {
  }

  lemma {:induction false} RunCarries(states: seq<State>, actions: seq<Action>, i: nat, j: nat, node: Node)
    requires Runs(states, actions) && i <= j < |states| && Carries(states[i], node)
    ensures Carries(states[j], node)
  {
    if i < j {
      hide Carries, Step, Runs;
      RunLength(states, actions);
      RunCarries(states, actions, i, j - 1, node);
      StepOf(states, actions, j - 1);
      StepCarries(states[j - 1], actions[j - 1], states[j], node);
    }
  }

  /** Step i posts m with a delay, and is not refused. */
  ghost predicate Posts(states: seq<State>, actions: seq<Action>, i: nat, m: Message, sampled: nat, msec: nat) {
    Runs(states, actions) && i < |actions| && actions[i] == Delay(m, sampled, msec)
    && (m.timeoutMs == 0 || m.timeoutMs > msec)
  }

  lemma PostedNode(states: seq<State>, actions: seq<Action>, i: nat, j: nat, m: Message, sampled: nat, msec: nat)
    requires Posts(states, actions, i, m, sampled, msec) && i < j < |states|
    ensures Carries(states[j], DelayedNode(states[i].posted, m, sampled, msec))
    ensures Inv(states[j])
  {
    hide Inv, Carries;
    RunsKeep(states, actions, i);
    RunsKeep(states, actions, j);
    assert Step(states[i], actions[i], states[i + 1]);
    DelayCarries(states[i], m, sampled, msec);
    RunCarries(states, actions, i + 1, j, DelayedNode(states[i].posted, m, sampled, msec));
  }

  /**
   * A delayed message is never taken before its delay, counted from the clock the post sampled, has passed; and when it
   * is at the head and the delay has passed, the next critical section of the looper's thread takes it.
   */
  lemma TakenOnTime(states: seq<State>, actions: seq<Action>, i: nat, j: nat, m: Message, sampled: nat, msec: nat)
    requires Posts(states, actions, i, m, sampled, msec) && i < j < |actions| && actions[j].Take?
    ensures var s, phase, id := states[j], states[j + 1].phase, states[i].posted;
      (phase.Taken? && phase.node.id == id) <==> (s.pending[0].id == id && s.clock >= sampled + 1000 * msec)
  {
    PostedNode(states, actions, i, j, m, sampled, msec);
    hide Inv;
    assert Step(states[j], actions[j], states[j + 1]);
    assert states[j].pending[0] in states[j].pending;
  }

  // ---------------------------------------------------------------- posts to the front

  /** The node of a post to the front: due when it was posted, or with the head if that is due earlier. */
  function FrontNode(s: State, m: Message, sampled: nat): (n: Node)
    ensures n.id == s.posted && n.due <= sampled && n.front && n.hasHandler == m.hasHandler
    ensures s.pending != [] ==> n.due <= s.pending[0].due
    ensures n.due == sampled || (s.pending != [] && n.due == s.pending[0].due)
    ensures n.timeout == if m.timeoutMs == 0 then 0 else sampled + 1000 * m.timeoutMs
  {
    Node(s.posted, m.what, m.owner, m.hasHandler, true,
         if s.pending != [] && s.pending[0].due < sampled then s.pending[0].due else sampled,
         if m.timeoutMs == 0 then 0 else sampled + 1000 * m.timeoutMs)
  }

  /** A message posted to the front is at the head at once, and due no later than it was posted. */
  lemma FrontIsHead(states: seq<State>, actions: seq<Action>, i: nat, m: Message, sampled: nat)
    requires Runs(states, actions) && i < |actions| && actions[i] == Front(m, sampled)
    ensures var node := FrontNode(states[i], m, sampled);
      && states[i + 1].pending == [node] + states[i].pending
      && node.due <= sampled <= states[i + 1].clock && Carries(states[i + 1], node)
  {
    RunsKeep(states, actions, i);
    FreshId(states[i]);
    hide Inv;
    assert Step(states[i], actions[i], states[i + 1]);
  }

  // ---------------------------------------------------------------- what becomes of a message

  /** A node taken at the clock `now`: too late, handled, or without anyone to handle it. */
  function Outcome(node: Node, now: nat, defaultHandler: bool): MessageState {
    if node.timeout != 0 && now > node.timeout then TIMEOUT
    else if !node.hasHandler && !defaultHandler then DISCARDED
    else HANDLED
  }

  function One(b: bool): nat {
    if b then 1 else 0
  }

  /** The timeout callback of a message belongs to its discarding. */
  ghost predicate TimeoutsCounted(s: State) {
    forall id :: Times(s.log, TimeoutCall(id))
              <= Times(s.log, DiscardCall(id))
               + One(s.phase.Finished? && s.phase.state == TIMEOUT && s.phase.node.id == id)
  }

  /** The step runs the message with this id, which ends as v. */
  predicate RunsAs(s: State, a: Action, s': State, id: nat, v: MessageState) {
    a.Run? && s.phase.Taken? && s.phase.node.id == id && s'.phase == Finished(s.phase.node, v)
  }

  /** The step frees the message with this id, not having handled it. */
  predicate Discards(s: State, a: Action, id: nat) {
    a.Finish? && s.phase.Finished? && s.phase.node.id == id && s.phase.state != HANDLED
  }

  /** The events a step adds to the log. */
  ghost predicate Adds(s: State, a: Action, s': State, more: seq<Event>) {
    && s'.log == s.log + more
    && (forall id :: Times(more, TimeoutCall(id)) == One(RunsAs(s, a, s', id, TIMEOUT)))
    && (forall id :: Times(more, HandleCall(id)) == One(RunsAs(s, a, s', id, HANDLED)))
    && (forall id :: Times(more, DiscardCall(id)) >= One(Discards(s, a, id)))
    && (forall id :: a.Finish? && s.phase.Finished? && s.phase.node.id == id ==> Times(more, Free(id)) == 1)
  }

  lemma Added(s: State, a: Action, s': State) returns (more: seq<Event>)
    requires Step(s, a, s')
    ensures Adds(s, a, s', more)
  {
    more := [];
    match a
    case Delay(m, sampled, msec) =>
      if m.timeoutMs > 0 && m.timeoutMs <= msec {
        more := FreeLog(s.posted, DISCARDED);
        assert more == [DiscardCall(s.posted), Free(s.posted)];
      }
    case Run => more := RunAdds(s, s');
    case Finish => more := FinishAdds(s, s');
    case RemoveIf(matches) => more := RemovalAdds(s, matches, s');
    case _ =>
  }

  lemma RunAdds(s: State, s': State) returns (more: seq<Event>)
    requires Step(s, Run, s')
    ensures Adds(s, Run, s', more)
  {
    more := if s'.phase.state == TIMEOUT then [TimeoutCall(s.phase.node.id)]
            else if s'.phase.state == HANDLED then [HandleCall(s.phase.node.id)] else [];
  }

  lemma FinishAdds(s: State, s': State) returns (more: seq<Event>)
    requires Step(s, Finish, s')
    ensures Adds(s, Finish, s', more)
  {
    more := FreeLog(s.phase.node.id, s.phase.state);
    forall id
      ensures Times(more, TimeoutCall(id)) == Times(more, HandleCall(id)) == 0
      ensures Times(more, DiscardCall(id)) == One(Discards(s, Finish, id))
      ensures s.phase.node.id == id ==> Times(more, Free(id)) == 1
    {
      FreeLogTimes(s.phase.node.id, s.phase.state, id);
    }
    hide Times, FreeLog;
  }

  lemma RemovalAdds(s: State, matches: Node -> bool, s': State) returns (more: seq<Event>)
    requires Step(s, RemoveIf(matches), s')
    ensures Adds(s, RemoveIf(matches), s', more)
  {
    more := DropLog(s.pending, matches);
    forall id ensures Times(more, TimeoutCall(id)) == Times(more, HandleCall(id)) == 0 {
      DroppedNoTimeout(s.pending, matches, id);
      KeptHeld(s.pending, matches, id);
    }
    hide Times, DropLog, Kept;
  }

  lemma {:induction false} DroppedNoTimeout(pending: seq<Node>, matches: Node -> bool, id: nat)
    ensures Times(DropLog(pending, matches), TimeoutCall(id)) == 0
  {
    if pending != [] {
      DroppedNoTimeout(pending[1..], matches, id);
      TimesParts(if matches(pending[0]) then FreeLog(pending[0].id, DISCARDED) else [], DropLog(pending[1..], matches),
                 TimeoutCall(id));
    }
  }

  lemma CountsKept(s: State, a: Action, s': State)
    requires TimeoutsCounted(s) && Step(s, a, s')
    ensures TimeoutsCounted(s')
  {
    var more := Added(s, a, s');
    forall id ensures Times(s'.log, TimeoutCall(id)) <= Times(s'.log, DiscardCall(id))
      + One(s'.phase.Finished? && s'.phase.state == TIMEOUT && s'.phase.node.id == id)
    {
      TimesParts(s.log, more, TimeoutCall(id));
      TimesParts(s.log, more, DiscardCall(id));
      hide Times;
      CountKept(s, a, s', more, id);
    }
  }

  lemma CountKept(s: State, a: Action, s': State, more: seq<Event>, id: nat)
    requires Step(s, a, s') && Adds(s, a, s', more)
    ensures Times(more, TimeoutCall(id)) + One(s.phase.Finished? && s.phase.state == TIMEOUT && s.phase.node.id == id)
      <= Times(more, DiscardCall(id)) + One(s'.phase.Finished? && s'.phase.state == TIMEOUT && s'.phase.node.id == id)
  {
    assert Discards(s, a, id) || !Discards(s, a, id);
    hide Times, PostDelay, PostFront, Remove, Verdict;
    if !a.Take? && !a.Run? && !a.Finish? { PhaseKept(s, a, s'); }
  }

  lemma PhaseKept(s: State, a: Action, s': State)
    requires Step(s, a, s') && !a.Take? && !a.Run? && !a.Finish?
    ensures s'.phase == s.phase
  {
  }

  lemma {:induction false} RunsCount(states: seq<State>, actions: seq<Action>, i: nat)
    requires Runs(states, actions) && i < |states|
    ensures TimeoutsCounted(states[i])
  {
    hide Step, TimeoutsCounted, Runs;
    RunLength(states, actions);
    if i > 0 {
      RunsCount(states, actions, i - 1);
      StepOf(states, actions, i - 1);
      CountsKept(states[i - 1], actions[i - 1], states[i]);
    }
  }

  /** A node that has been taken at the clock `now` and is to end as v: not run yet, or run and ended as v. */
  ghost predicate Ends(s: State, node: Node, now: nat, v: MessageState) {
    if s.phase == Taken(node, now) then
      Times(s.log, TimeoutCall(node.id)) == 0 && Times(s.log, HandleCall(node.id)) == 0
    else
      (s.phase == Finished(node, v) || Times(s.log, Free(node.id)) == 1)
      && Times(s.log, TimeoutCall(node.id)) == One(v == TIMEOUT) && Times(s.log, HandleCall(node.id)) == One(v == HANDLED)
  }

  /** Between two sections of the thread, and once freed, a message is not in dispatch. */
  lemma NotInDispatch(s: State, id: nat)
    requires Inv(s) && Times(s.log, Free(id)) == 1 && !s.phase.Idle?
    ensures s.phase.node.id != id
  {
    assert Accounted(s, id);
    hide Times, Held;
  }

  lemma CountsAfter(s: State, a: Action, s': State, id: nat)
    requires Inv(s') && Step(s, a, s')
    ensures Times(s'.log, TimeoutCall(id)) == Times(s.log, TimeoutCall(id)) + One(RunsAs(s, a, s', id, TIMEOUT))
    ensures Times(s'.log, HandleCall(id)) == Times(s.log, HandleCall(id)) + One(RunsAs(s, a, s', id, HANDLED))
    ensures Times(s.log, Free(id)) <= Times(s'.log, Free(id)) <= 1
    ensures a.Finish? && s.phase.Finished? && s.phase.node.id == id ==> Times(s'.log, Free(id)) == 1
  {
    var more := Added(s, a, s');
    TimesParts(s.log, more, TimeoutCall(id));
    TimesParts(s.log, more, HandleCall(id));
    TimesParts(s.log, more, Free(id));
    FreedOnce(s', id);
    hide Times, Inv, Step, RunsAs;
  }

  /** How the phase of a message in dispatch goes on. */
  lemma PhaseNext(s: State, a: Action, s': State)
    requires Step(s, a, s')
    ensures s.phase.Taken? ==>
      s'.phase == if a.Run? then Finished(s.phase.node, Outcome(s.phase.node, s.phase.now, s.defaultHandler)) else s.phase
    ensures s.phase.Finished? && !a.Finish? ==> s'.phase == s.phase
    ensures a.Run? ==> s.phase.Taken?
  {
    hide PostDelay, PostFront, Remove;
    if !a.Take? && !a.Run? && !a.Finish? { PhaseKept(s, a, s'); }
  }

  lemma StepEnds(s: State, a: Action, s': State, node: Node, now: nat, v: MessageState)
    requires Inv(s) && Inv(s') && Step(s, a, s') && Ends(s, node, now, v) && v == Outcome(node, now, s.defaultHandler)
    ensures Ends(s', node, now, v)
  {
    CountsAfter(s, a, s', node.id);
    PhaseNext(s, a, s');
    if Times(s.log, Free(node.id)) == 1 {
      if !s.phase.Idle? { NotInDispatch(s, node.id); }
      if !s'.phase.Idle? { NotInDispatch(s', node.id); }
    }
    hide Times, Inv, Step, Outcome;
  }

  lemma FreedOnce(s: State, id: nat)
    requires Inv(s)
    ensures Times(s.log, Free(id)) <= 1
  {
    assert Accounted(s, id);
    hide Times, Held;
  }

  lemma HandlerKept(states: seq<State>, actions: seq<Action>, i: nat, j: nat)
    requires Runs(states, actions) && i <= j < |states|
    ensures states[j].defaultHandler == states[i].defaultHandler
  {
    if i < j {
      HandlerKept(states, actions, i, j - 1);
      assert Step(states[j - 1], actions[j - 1], states[j]);
    }
  }

  lemma NextEnds(states: seq<State>, actions: seq<Action>, j: nat, node: Node, now: nat, v: MessageState)
    requires Runs(states, actions) && j < |actions| && Ends(states[j], node, now, v)
    requires v == Outcome(node, now, states[j].defaultHandler)
    ensures Ends(states[j + 1], node, now, v)
  {
    hide Ends, Step, Inv, Outcome, Runs;
    RunLength(states, actions);
    RunsKeep(states, actions, j);
    RunsKeep(states, actions, j + 1);
    StepOf(states, actions, j);
    StepEnds(states[j], actions[j], states[j + 1], node, now, v);
  }

  lemma {:induction false} RunEnds(states: seq<State>, actions: seq<Action>, i: nat, j: nat, node: Node, now: nat,
                                   v: MessageState)
    requires Runs(states, actions) && i <= j < |states| && Ends(states[i], node, now, v)
    requires v == Outcome(node, now, states[i].defaultHandler)
    ensures Ends(states[j], node, now, v)
  {
    hide Ends, Outcome, Runs;
    RunLength(states, actions);
    if i < j {
      RunEnds(states, actions, i, j - 1, node, now, v);
      HandlerKept(states, actions, i, j - 1);
      NextEnds(states, actions, j - 1, node, now, v);
    }
  }

  /** A message that has just been taken has been neither handled nor timed out. */
  lemma TakenFresh(states: seq<State>, actions: seq<Action>, j: nat, node: Node)
    requires Runs(states, actions) && j < |states| && states[j].phase.Taken? && states[j].phase.node == node
    ensures Times(states[j].log, TimeoutCall(node.id)) == Times(states[j].log, HandleCall(node.id)) == 0
  {
    RunsKeep(states, actions, j);
    RunsCount(states, actions, j);
    assert Accounted(states[j], node.id);
    hide Times, Held;
  }

  /** Step j takes the node with this id. */
  ghost predicate Takes(states: seq<State>, actions: seq<Action>, j: nat, id: nat) {
    j < |actions| && j + 1 < |states| && actions[j].Take? && states[j + 1].phase.Taken? && states[j + 1].phase.node.id == id
  }

  /** What has become of a message by the time it is freed. */
  ghost predicate EndedAs(s: State, id: nat, v: MessageState) {
    && Times(s.log, TimeoutCall(id)) <= One(v == TIMEOUT) && Times(s.log, HandleCall(id)) <= One(v == HANDLED)
    && (Times(s.log, Free(id)) == 1 ==>
          && Times(s.log, TimeoutCall(id)) == One(v == TIMEOUT) && Times(s.log, HandleCall(id)) == One(v == HANDLED)
          && Times(s.log, DiscardCall(id)) == One(v != HANDLED))
  }

  lemma TakenEnds(states: seq<State>, actions: seq<Action>, j: nat, k: nat, node: Node)
    requires Runs(states, actions) && Takes(states, actions, j, node.id) && j < k < |states|
    requires Carries(states[j + 1], node)
    ensures EndedAs(states[k], node.id, Outcome(node, states[j].clock, states[0].defaultHandler))
  {
    var now := states[j].clock;
    var v := Outcome(node, now, states[0].defaultHandler);
    assert Step(states[j], actions[j], states[j + 1]);
    assert states[j + 1].phase == Taken(node, now);
    TakenFresh(states, actions, j + 1, node);
    HandlerKept(states, actions, 0, j + 1);
    RunEnds(states, actions, j + 1, k, node, now, v);
    RunsKeep(states, actions, k);
    assert Accounted(states[k], node.id);
    hide Times, Held, Runs, Step, Outcome;
  }

  /**
   * A delayed message taken at a clock beyond its timeout, which counts from the clock its post sampled, is timed out
   * and discarded and never handled; any other is handled once, if it has a handler or the looper has one, and never
   * timed out.
   */
  lemma DelayedOutcome(states: seq<State>, actions: seq<Action>, i: nat, j: nat, k: nat,
                       m: Message, sampled: nat, msec: nat)
    requires Posts(states, actions, i, m, sampled, msec) && i < j < k < |states|
    requires Takes(states, actions, j, states[i].posted)
    ensures EndedAs(states[k], states[i].posted,
                    if m.timeoutMs > 0 && states[j].clock > sampled + 1000 * m.timeoutMs then TIMEOUT
                    else if m.hasHandler || states[0].defaultHandler then HANDLED else DISCARDED)
  {
    PostedNode(states, actions, i, j + 1, m, sampled, msec);
    TakenEnds(states, actions, j, k, DelayedNode(states[i].posted, m, sampled, msec));
    hide EndedAs, Inv, Carries;
  }

  /** The same for a post to the front. */
  lemma FrontOutcome(states: seq<State>, actions: seq<Action>, i: nat, j: nat, k: nat, m: Message, sampled: nat)
    requires Runs(states, actions) && i < j < k < |states| && i < |actions| && actions[i] == Front(m, sampled)
    requires Takes(states, actions, j, states[i].posted)
    ensures EndedAs(states[k], states[i].posted,
                    if m.timeoutMs > 0 && states[j].clock > sampled + 1000 * m.timeoutMs then TIMEOUT
                    else if m.hasHandler || states[0].defaultHandler then HANDLED else DISCARDED)
  {
    FrontIsHead(states, actions, i, m, sampled);
    var node := FrontNode(states[i], m, sampled);
    RunCarries(states, actions, i + 1, j + 1, node);
    TakenEnds(states, actions, j, k, node);
    hide EndedAs, Inv, Carries;
  }
}
