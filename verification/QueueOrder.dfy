/** In which order a queue set hands out its members. */
module QueueOrder {
  import opened Text
  import opened QueueSets

  /** The queue call i has sent to while it was a member of p, if the call is such a send and succeeds. */
  ghost function SentInto(s: System, c: Call, p: Id): seq<Id>
    requires Permitted(s, c)
  {
    match c
    case SendTo(q, _) => if s.queues[q].parent == Some(p) && Step(s, c).1.code == 0 then [q] else []
    case _ => []
  }

  /** The member a selection from p has answered with. */
  ghost function SelectedFrom(s: System, c: Call, p: Id): seq<Id>
    requires Permitted(s, c)
  {
    if c == Select(p) && Step(s, c).1.handle.Some? then [Step(s, c).1.handle.value] else []
  }

  /** The members of p sent to during the first i calls, one entry for each message. */
  ghost function Arrivals(states: seq<System>, calls: seq<Call>, p: Id, i: nat): seq<Id>
    requires Run(states, calls) && i < |states|
  {
    if i == 0 then [] else Arrivals(states, calls, p, i - 1) + SentInto(states[i - 1], calls[i - 1], p)
  }

  /** The members selected from p during them. */
  ghost function Selections(states: seq<System>, calls: seq<Call>, p: Id, i: nat): seq<Id>
    requires Run(states, calls) && i < |states|
  {
    if i == 0 then [] else Selections(states, calls, p, i - 1) + SelectedFrom(states[i - 1], calls[i - 1], p)
  }

  function Tokens(s: System, p: Id): seq<Id> {
    if p in s.sets then s.sets[p].fifo.items else []
  }

  /** One call adds at the end of a set's tokens what was sent, and takes from their front what is selected. */
  lemma TokensMove(s: System, c: Call, p: Id)
    requires Permitted(s, c)
    ensures Tokens(s, p) + SentInto(s, c, p) == SelectedFrom(s, c, p) + Tokens(Step(s, c).0, p)
  {
    match c
    case Select(r) =>
      if r == p && Tokens(s, p) != [] { assert Tokens(s, p) == [Tokens(s, p)[0]] + Tokens(s, p)[1..]; }
    case _ =>
  }

  lemma StepOf(states: seq<System>, calls: seq<Call>, i: nat)
    requires Run(states, calls) && 0 < i < |states|
    ensures i - 1 < |calls| && Permitted(states[i - 1], calls[i - 1])
    ensures states[i] == Step(states[i - 1], calls[i - 1]).0
  {
  }

  lemma Shift<T>(a: seq<T>, b: seq<T>, c: seq<T>, d: seq<T>, e: seq<T>)
    requires b + c == d + e
    ensures a + b + c == a + d + e
  {
    assert a + b + c == a + (b + c) && a + d + e == a + (d + e);
  }

  /**
   * Selections come in the order in which the messages were sent: over every run the members selected from a set are
   * the first of those sent to, and the others are its waiting tokens.
   */
  lemma {:induction false} SelectionsInOrder(states: seq<System>, calls: seq<Call>, p: Id, i: nat)
    requires Run(states, calls) && i < |states|
    ensures Arrivals(states, calls, p, i) == Selections(states, calls, p, i) + Tokens(states[i], p)
  {
    if i > 0 {
      StepOf(states, calls, i);
      hide Permitted, Step, SentInto, SelectedFrom, Tokens, Run;
      SelectionsInOrder(states, calls, p, i - 1);
      var s, c := states[i - 1], calls[i - 1];
      TokensMove(s, c, p);
      Shift(Selections(states, calls, p, i - 1), Tokens(s, p), SentInto(s, c, p), SelectedFrom(s, c, p), Tokens(states[i], p));
    }
  }
}
