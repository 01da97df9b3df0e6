/** Which waiting threads of the blocking ring could go on although nobody has signalled them. */
module BlockingWakes {
  import opened Text
  import opened BlockingRing
  import opened BlockingChunks

  predicate ReaderAsleep(s: State) {
    s.reader.ReaderWaits? && !s.reader.signalled
  }

  predicate WriterAsleep(s: State) {
    s.writer.WriterWaits? && !s.writer.signalled
  }

  /** Woken now, the reader would take bytes or return. */
  predicate ReaderWouldGoOn(s: State)
    requires s.reader.ReaderWaits? && Fits(s)
  {
    var result := ReadOf(s.(reader := Asking(s.reader.length, s.reader.total, s.reader.chunk)));
    result.taken != [] || !result.verdict.Waits?
  }

  /** Woken now, the writer would store bytes or return. */
  predicate WriterWouldGoOn(s: State)
    requires s.writer.WriterWaits? && Fits(s)
  {
    var result := WriteOf(s.(writer := Offering(s.writer.data, s.writer.total, s.writer.chunk)));
    result.written > 0 || !result.verdict.Waits?
  }

  // ---------------------------------------------------------------- the writer

  /** A writer asleep lacks room, and no abort has come since it looked. */
  predicate WriterBlocked(s: State) {
    WriterAsleep(s) ==>
      WriterJustified(s) && !s.ring.abortWrite
      && if s.writer.chunk then |s.writer.data| <= s.ring.size else s.writer.data != []
  }

  lemma WriteBlocks(s: State)
    requires Inv(s) && s.writer.Offering? && s.ring.size > 0
    ensures WriterBlocked(WriteSection(s))
  {
    WriteAwake(s);
    WriteWaits(s);
    hide Writing, ChunkWriting;
  }

  lemma WriteWaits(s: State)
    requires s.writer.Offering? && Fits(s)
    ensures WriteOf(s).ring.size == s.ring.size && WriteOf(s).ring.abortWrite == s.ring.abortWrite
    ensures WriteOf(s).verdict.Waits? ==> !s.ring.abortWrite && !s.ring.doneWrite
    ensures WriteOf(s).verdict.Waits? && s.writer.chunk ==> |s.writer.data| <= s.ring.size && WriteOf(s).written == 0
    ensures WriteOf(s).verdict.Waits? && !s.writer.chunk ==> WriteOf(s).written < |s.writer.data|
  {
    if !s.writer.chunk { WritingWaits(s.ring, s.writer.data); }
    hide Writing;
  }

  lemma {:induction false} WritingWaits(r: Ring, data: seq<byte>)
    ensures Writing(r, data).verdict.Waits? ==> !r.abortWrite && !r.doneWrite
    decreases |data|
  {
    if data != [] && !NoRoom(r) {
      var n := Arithmetic.Min(r.size - |r.stored|, |data|);
      WritingWaits(WithPiece(r, data[..n]), data[n..]);
    }
  }

  lemma WriterStep(s: State, a: Action, s': State)
    requires Inv(s) && Step(s, a, s') && s.ring.size > 0 && WriterBlocked(s)
    ensures WriterBlocked(s')
  {
    StepKeeps(s, a, s');
    if a.RunWrite? { WriteBlocks(s); }
    hide WriteSection, Reading, ChunkReading;
  }

  lemma {:induction false} WriterRun(states: seq<State>, actions: seq<Action>, i: nat)
    requires Run(states, actions) && i < |states| && states[0].ring.size > 0
    ensures WriterBlocked(states[i])
  {
    if i > 0 {
      hide Inv, Step, WriterBlocked;
      RunKeeps(states, actions, i - 1);
      WriterRun(states, actions, i - 1);
      WriterStep(states[i - 1], actions[i - 1], states[i]);
    }
  }

  /** In every run, a writer nobody has signalled could go on exactly if writing has been declared done. */
  lemma WriterLeftAsleep(states: seq<State>, actions: seq<Action>, i: nat)
    requires Run(states, actions) && i < |states| && states[0].ring.size > 0 && WriterAsleep(states[i])
    ensures Fits(states[i]) && (WriterWouldGoOn(states[i]) <==> states[i].ring.doneWrite)
  {
    RunKeeps(states, actions, i);
    WriterRun(states, actions, i);
    var s := states[i];
    WritingEnds(s.ring, s.writer.data);
    hide Writing;
  }

  // ---------------------------------------------------------------- the reader

  /** A reader asleep lacks bytes unless writing is done; no abort and no forced timeout has come since it looked. */
  predicate ReaderBlocked(s: State) {
    ReaderAsleep(s) ==>
      (s.ring.doneWrite || ReaderJustified(s)) && !s.ring.abortRead && !s.ring.unblockReader
      && if s.reader.chunk then s.reader.length <= s.ring.size else s.reader.length > 0
  }

  lemma ReadWaits(s: State)
    requires s.reader.Asking? && Fits(s) && ReadOf(s).verdict.Waits?
    ensures !s.ring.doneWrite && !s.ring.abortRead && !s.ring.unblockReader
    ensures s.reader.chunk ==> s.reader.length <= s.ring.size && ReadOf(s).taken == []
    ensures !s.reader.chunk ==> |ReadOf(s).taken| < s.reader.length
    ensures if s.reader.chunk then NoChunk(ReadOf(s).ring, s.reader.length) else NothingToRead(ReadOf(s).ring)
  {
    if !s.reader.chunk { ReadingWaits(s.ring, s.reader.length); }
    hide Reading;
    assert ReadOf(s).taken == [] ==> ReadOf(s).ring.stored == s.ring.stored;
  }

  lemma {:induction false} ReadingWaits(r: Ring, length: nat)
    ensures Reading(r, length).verdict.Waits? ==> !r.doneWrite && !r.abortRead && !r.unblockReader
    decreases length
  {
    if length > 0 && !NothingToRead(r) {
      var n := Arithmetic.Min(|r.stored|, length);
      ReadingWaits(r.(stored := r.stored[n..]), length - n);
    }
  }

  lemma ReadBlocks(s: State)
    requires s.reader.Asking? && Fits(s)
    ensures ReaderBlocked(ReadSection(s))
  {
    if ReadOf(s).verdict.Waits? { ReadWaits(s); }
    hide Reading, ChunkReading, ReadOf;
  }

  /** A chunk write refused for its size finds the latch set or the ring empty. */
  predicate Harmless(s: State) {
    s.writer.Out? || !s.writer.chunk || |s.writer.data| <= s.ring.size || s.ring.latch || s.ring.stored == []
  }

  /** Storing nothing sets the latch only where a sleeping reader could not go on anyway. */
  lemma WriteKeepsReader(s: State)
    requires Inv(s) && s.writer.Offering? && s.ring.size > 0 && Harmless(s)
    requires ReaderBlocked(s) && (s.ring.abortWrite ==> s.ring.abortRead)
    ensures ReaderBlocked(WriteSection(s))
  {
    if !s.writer.chunk { WritingLatches(s.ring, s.writer.data); }
    hide Writing;
    var result := WriteOf(s);
    assert result.written == 0 ==> result.ring.stored == s.ring.stored;
  }

  lemma ReaderStep(s: State, a: Action, s': State)
    requires Inv(s) && Step(s, a, s') && s.ring.size > 0 && Harmless(s)
    requires ReaderBlocked(s) && (s.ring.abortWrite ==> s.ring.abortRead)
    ensures ReaderBlocked(s')
  {
    if a.RunRead? { ReadBlocks(s); }
    if a.RunWrite? { WriteKeepsReader(s); }
    hide ReadSection, WriteSection;
  }

  /** The threshold is set once, chunk writes have one size, writing is aborted after reading, as `rb_abort` does. */
  ghost predicate Orderly(states: seq<State>, actions: seq<Action>, p: Setup) {
    FixedRun(states, actions, p)
    && (forall i :: 0 <= i < |actions| && actions[i].CallWriteChunk? ==> |actions[i].data| == p.writeChunk)
    && (forall i :: 0 <= i < |actions| && actions[i].AbortWrite? ==> states[i].ring.abortRead)
  }

  /** Every chunk fits, or the first byte stored already sets the latch. */
  predicate Safe(p: Setup) {
    p.writeChunk <= p.size || Bound(p) <= 1
  }

  /** What an orderly run keeps beside. */
  predicate Ordered(s: State, p: Setup) {
    (!s.writer.Out? && s.writer.chunk ==> |s.writer.data| == p.writeChunk)
    && (s.ring.abortWrite ==> s.ring.abortRead)
  }

  lemma OrderedStep(s: State, a: Action, s': State, p: Setup)
    requires Ordered(s, p) && Step(s, a, s')
    requires a.CallWriteChunk? ==> |a.data| == p.writeChunk
    requires a.AbortWrite? ==> s.ring.abortRead
    ensures Ordered(s', p)
  {
    if a.RunWrite? { WriteWaits(s); }
    hide Writing, Reading, ChunkReading;
  }

  lemma {:induction false} OrderedRun(states: seq<State>, actions: seq<Action>, p: Setup, i: nat)
    requires Orderly(states, actions, p) && i < |states|
    ensures Ordered(states[i], p)
  {
    if i > 0 {
      OrderedRun(states, actions, p, i - 1);
      hide Step, Ordered;
      OrderedStep(states[i - 1], actions[i - 1], states[i], p);
    }
  }

  lemma IsHarmless(states: seq<State>, actions: seq<Action>, p: Setup, i: nat)
    requires Orderly(states, actions, p) && i < |states| && Safe(p)
    ensures Harmless(states[i])
  {
    OrderedRun(states, actions, p, i);
    if i > 0 { RunUnlatched(states, actions, p, i); }
  }

  lemma {:induction false} ReaderRun(states: seq<State>, actions: seq<Action>, p: Setup, i: nat)
    requires Orderly(states, actions, p) && i < |states| && p.size > 0 && Safe(p)
    ensures Inv(states[i]) && ReaderBlocked(states[i])
  {
    RunKeeps(states, actions, i);
    if i > 0 {
      RunKeeps(states, actions, i - 1);
      ReaderRun(states, actions, p, i - 1);
      IsHarmless(states, actions, p, i - 1);
      OrderedRun(states, actions, p, i - 1);
      hide Inv, Step, ReaderBlocked, Harmless, Safe;
      ReaderStep(states[i - 1], actions[i - 1], states[i]);
    }
  }

  /** A sleeping reader could go on exactly if writing has been declared done. */
  predicate ReaderJudged(s: State) {
    ReaderAsleep(s) ==> Fits(s) && (ReaderWouldGoOn(s) <==> s.ring.doneWrite)
  }

  lemma BlockedIsJudged(s: State)
    requires Inv(s) && ReaderBlocked(s)
    ensures ReaderJudged(s)
  {
  }

  // ---------------------------------------------------------------- two runs

  /** With stored bytes nobody has read and the threshold still 0. */
  function Holding(size: nat, n: nat): State {
    var bytes := seq(n, i => 0);
    State(Ring(size, bytes, 0, n > 0, false, false, false, false), Reader.Out, Writer.Out, bytes, [], false)
  }

  lemma HoldingStep(size: nat, n: nat)
    requires 0 < n <= size
    ensures Start(Holding(size, 0))
    ensures Step(Holding(size, 0).(writer := Offering(seq(n, i => 0), 0, true)), RunWrite, Holding(size, n))
  {
    var data: seq<byte> := seq(n, i => 0);
    assert Holding(size, 0).ring.stored == [];
    assert [] + data[..n] == data;
  }

  function Done(s: State): State {
    s.(ring := s.ring.(doneWrite := true))
  }

  /** `rb_done_write` does not signal a writer, which could store part of its chunk and return. */
  lemma LeftByDoneWrite(size: nat) returns (states: seq<State>, actions: seq<Action>)
    requires size >= 2
    ensures Run(states, actions) && states[0].ring.size == size
    ensures var s := states[|actions|]; Fits(s) && WriterAsleep(s) && WriterWouldGoOn(s) && !s.silent
  {
    var first: seq<byte>, second: seq<byte> := seq(size - 1, i => 0), [0, 0];
    var full := Holding(size, size - 1);
    var waits := full.(writer := WriterWaits(second, 0, true, false));
    HoldingStep(size, size - 1);
    assert second[0..] == second && full.accepted + second[..0] == full.accepted;
    states := [Holding(size, 0), Holding(size, 0).(writer := Offering(first, 0, true)), full,
               full.(writer := Offering(second, 0, true)), waits, Done(waits)];
    actions := [CallWriteChunk(first), RunWrite, CallWriteChunk(second), RunWrite, DoneWrite];
    assert Step(states[3], RunWrite, waits);
    hide Holding;
  }

  /** `rb_done_read` does not signal a reader, which could take the bytes there are and return. */
  lemma LeftByDoneRead(size: nat) returns (states: seq<State>, actions: seq<Action>)
    requires size >= 2
    ensures Run(states, actions) && states[0].ring.size == size
    ensures var s := states[|actions|]; Fits(s) && ReaderAsleep(s) && ReaderWouldGoOn(s) && !s.silent
  {
    var first: seq<byte> := seq(1, i => 0);
    var holds := Holding(size, 1);
    var waits := holds.(reader := ReaderWaits(2, 0, true, false));
    HoldingStep(size, 1);
    assert holds.delivered + [] == holds.delivered;
    states := [Holding(size, 0), Holding(size, 0).(writer := Offering(first, 0, true)), holds,
               holds.(reader := Asking(2, 0, true)), waits, Done(waits)];
    actions := [CallWriteChunk(first), RunWrite, CallReadChunk(2), RunRead, DoneRead];
    assert Step(states[3], RunRead, waits);
    hide Holding;
  }

  // ---------------------------------------------------------------- exact conditions

  predicate SetsFlag(a: Action) {
    a.DoneWrite? || a.DoneRead? || a.AbortRead? || a.AbortWrite? || a.UnblockReader?
  }

  ghost predicate NoFlags(actions: seq<Action>) {
    forall i :: 0 <= i < |actions| ==> !SetsFlag(actions[i])
  }

  /** Without any flag, a reader is left asleep beside the bytes it waits for. */
  ghost predicate LosesWakeUp(p: Setup) {
    exists states, actions ::
      Orderly(states, actions, p) && NoFlags(actions)
      && ReaderAsleep(states[|actions|]) && !ReaderJustified(states[|actions|])
  }

  lemma {:induction false} FlaglessRun(states: seq<State>, actions: seq<Action>, i: nat)
    requires Run(states, actions) && NoFlags(actions) && i < |states|
    ensures Flagless(states[i].ring)
  {
    if i > 0 {
      FlaglessRun(states, actions, i - 1);
      FlaglessStep(states[i - 1], actions[i - 1], states[i]);
    }
  }

  lemma FlaglessStep(s: State, a: Action, s': State)
    requires Flagless(s.ring) && Step(s, a, s') && !SetsFlag(a)
    ensures Flagless(s'.ring)
  {
    hide Reading, Writing;
  }

  /** A byte below the threshold, the reader waiting for it, and the chunk that is refused. */
  function Sleeping(p: Setup, latch: bool, writer: Writer): State {
    var s := Filled(p, 1);
    s.(ring := s.ring.(latch := latch), reader := ReaderWaits(1, 0, false, false), writer := writer, silent := latch)
  }

  lemma SleepingSteps(p: Setup, data: seq<byte>)
    requires p.size > 0 && !Safe(p) && |data| == p.writeChunk
    ensures Step(Filled(p, 1), CallRead(1), Filled(p, 1).(reader := Asking(1, 0, false)))
    ensures Step(Filled(p, 1).(reader := Asking(1, 0, false)), RunRead, Sleeping(p, false, Writer.Out))
    ensures Step(Sleeping(p, false, Writer.Out), CallWriteChunk(data), Sleeping(p, false, Offering(data, 0, true)))
    ensures Step(Sleeping(p, false, Offering(data, 0, true)), RunWrite, Sleeping(p, true, Writer.Out))
  {
    var s := Sleeping(p, false, Offering(data, 0, true));
    assert s.accepted + data[..0] == s.accepted;
  }

  function Offered(p: Setup): State {
    Filled(p, 0).(writer := Offering(seq(1, i => 0), 0, false))
  }

  function Reads(p: Setup): State {
    Filled(p, 1).(reader := Asking(1, 0, false))
  }

  /** The calls and sections of that run. */
  function LosingActions(p: Setup): seq<Action> {
    [SetThreshold(p.threshold), CallWrite(seq(1, i => 0)), RunWrite, CallRead(1), RunRead,
     CallWriteChunk(seq(p.writeChunk, i => 0)), RunWrite]
  }

  function LosingStates(p: Setup): seq<State> {
    [StartState(p), Filled(p, 0), Offered(p), Filled(p, 1), Reads(p), Sleeping(p, false, Writer.Out),
     Sleeping(p, false, Offering(seq(p.writeChunk, i => 0), 0, true)), Sleeping(p, true, Writer.Out)]
  }

  lemma LosingStep(p: Setup, i: nat)
    requires p.size > 0 && !Safe(p) && i < 7
    ensures Step(LosingStates(p)[i], LosingActions(p)[i], LosingStates(p)[i + 1])
  {
    FirstSteps(p, 1);
    FillStep(p, 1);
    SleepingSteps(p, seq(p.writeChunk, i => 0));
    var states, actions := LosingStates(p), LosingActions(p);
    hide Step, Filled, Sleeping, StartState, Safe, Bound;
    if i == 0 {
    } else if i == 1 {
    } else if i == 2 {
    } else if i == 3 {
    } else if i == 4 {
    } else if i == 5 {
    } else {
      assert states[i] == states[6] && actions[i] == actions[6];
    }
  }

  lemma LosingRun(p: Setup)
    requires p.size > 0 && !Safe(p)
    ensures LosesWakeUp(p)
  {
    var states, actions := LosingStates(p), LosingActions(p);
    var last := states[|actions|];
    assert ReaderAsleep(last) && !ReaderJustified(last);
    FirstSteps(p, 1);
    hide Step, LosingStates, Start, StartState, Filled, Sleeping;
    forall i | 0 <= i < |actions| ensures Step(states[i], actions[i], states[i + 1]) {
      LosingStep(p, i);
    }
    assert Orderly(states, actions, p) && NoFlags(actions);
  }

  /**
   * Without any flag set, some run leaves a reader asleep beside the bytes it waits for exactly when the chunk writes
   * are larger than the ring, so that they are refused and set the latch, and a threshold of at least two bytes lets
   * a reader wait with a byte in the ring.
   */
  lemma LostWakeUpExact(p: Setup)
    requires p.size > 0
    ensures LosesWakeUp(p) <==> p.writeChunk > p.size && Bound(p) >= 2
  {
    if LosesWakeUp(p) {
      var states, actions :|
        Orderly(states, actions, p) && NoFlags(actions)
        && ReaderAsleep(states[|actions|]) && !ReaderJustified(states[|actions|]);
      FlaglessRun(states, actions, |actions|);
      if Safe(p) { ReaderRun(states, actions, p, |actions|); }
    }
    if !Safe(p) { LosingRun(p); }
  }

  ghost predicate AlwaysJudged(p: Setup) {
    forall states, actions :: Orderly(states, actions, p) ==> ReaderJudged(states[|actions|])
  }

  /**
   * With the flags: under the same condition on chunks and threshold, and only then, a reader nobody has signalled
   * could go on exactly if writing has been declared done, in every orderly run.
   */
  lemma ReaderLeftAsleep(p: Setup)
    requires p.size > 0
    ensures AlwaysJudged(p) <==> p.writeChunk <= p.size || Bound(p) <= 1
  {
    if Safe(p) {
      forall states, actions | Orderly(states, actions, p) ensures ReaderJudged(states[|actions|]) {
        ReaderRun(states, actions, p, |actions|);
        BlockedIsJudged(states[|actions|]);
      }
    } else {
      LosingRun(p);
      var states, actions :|
        Orderly(states, actions, p) && NoFlags(actions)
        && ReaderAsleep(states[|actions|]) && !ReaderJustified(states[|actions|]);
      FlaglessRun(states, actions, |actions|);
      WouldRead(states, actions);
    }
  }

  lemma WouldRead(states: seq<State>, actions: seq<Action>)
    requires Run(states, actions) && states[0].ring.size > 0
    requires ReaderAsleep(states[|actions|]) && !ReaderJustified(states[|actions|])
    ensures Fits(states[|actions|])
    ensures states[|actions|].reader.length > 0 ==> ReaderWouldGoOn(states[|actions|])
  {
    RunKeeps(states, actions, |actions|);
  }
}
