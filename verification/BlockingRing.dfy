/** The blocking ring buffer: one reader and one writer that release the lock at each wait. */
module BlockingRing {
  import opened Text
  import opened Arithmetic

  const RB_FAIL := -1
  const RB_DONE := -2
  const RB_ABORT := -3
  const RB_TIMEOUT := -4

  /** The fields the lock protects; the stored bytes stand for the ring and its two pointers. */
  datatype Ring = Ring(
    size: nat,
    stored: seq<byte>,
    threshold: int,
    latch: bool,
    doneWrite: bool,
    abortRead: bool,
    abortWrite: bool,
    unblockReader: bool
  )

  /** How the loop of a call ends within one critical section. */
  datatype Verdict = Returns(code: int) | Waits

  datatype ReadResult = ReadResult(ring: Ring, taken: seq<byte>, verdict: Verdict)
  datatype WriteResult = WriteResult(ring: Ring, written: nat, verdict: Verdict)

  /** The reader finds nothing it may take. */
  predicate NothingToRead(r: Ring) {
    r.stored == [] || !r.latch
  }

  predicate NoRoom(r: Ring) {
    |r.stored| >= r.size
  }

  /** The loop of `rb_read` from taking the lock to releasing it. */
  function Reading(r: Ring, length: nat): (result: ReadResult)
    ensures |result.taken| <= length && r.stored == result.taken + result.ring.stored
    ensures result.ring == r.(stored := result.ring.stored)
    ensures result.verdict.Waits? ==> NothingToRead(result.ring) && |result.taken| < length
    decreases length
  {
    if length == 0 then ReadResult(r, [], Returns(0))
    else if NothingToRead(r) then
      ReadResult(r, [], if r.doneWrite then Returns(RB_DONE) else if r.abortRead then Returns(RB_ABORT)
                        else if r.unblockReader then Returns(RB_TIMEOUT) else Waits)
    else
      var n := Min(|r.stored|, length);
      var rest := Reading(r.(stored := r.stored[n..]), length - n);
      rest.(taken := r.stored[..n] + rest.taken)
  }

  /** What one round of the loop of `rb_write` stores. */
  function WithPiece(r: Ring, piece: seq<byte>): Ring {
    var stored := r.stored + piece;
    r.(stored := stored, latch := r.latch || |stored| >= r.threshold)
  }

  /** The loop of `rb_write` likewise. */
  function Writing(r: Ring, data: seq<byte>): (result: WriteResult)
    ensures result.written <= |data| && result.ring.stored == r.stored + data[..result.written]
    ensures result.ring == r.(stored := result.ring.stored, latch := result.ring.latch)
    ensures result.verdict.Waits? ==> NoRoom(result.ring) && result.written < |data|
    decreases |data|
  {
    if data == [] then WriteResult(r, 0, Returns(0))
    else if NoRoom(r) then
      if r.doneWrite then WriteResult(r.(latch := true), 0, Returns(RB_DONE))
      else if r.abortWrite then WriteResult(r.(latch := true), 0, Returns(RB_ABORT))
      else WriteResult(r, 0, Waits)
    else
      var n := Min(r.size - |r.stored|, |data|);
      var rest := Writing(WithPiece(r, data[..n]), data[n..]);
      rest.(written := n + rest.written)
  }

  lemma WritingStep(r: Ring, data: seq<byte>)
    requires data != [] && !NoRoom(r)
    ensures var n := Min(r.size - |r.stored|, |data|);
      var rest := Writing(WithPiece(r, data[..n]), data[n..]);
      Writing(r, data) == rest.(written := n + rest.written)
  {
    hide WithPiece;
  }

  lemma WritingEnds(r: Ring, data: seq<byte>)
    ensures data == [] ==> Writing(r, data) == WriteResult(r, 0, Returns(0))
    ensures data != [] && NoRoom(r) ==>
      (Writing(r, data) == if r.doneWrite then WriteResult(r.(latch := true), 0, Returns(RB_DONE))
                           else if r.abortWrite then WriteResult(r.(latch := true), 0, Returns(RB_ABORT))
                           else WriteResult(r, 0, Waits))
  {
  }

  /** What keeps `rb_read_chunk` waiting as long as no flag is set. */
  predicate NoChunk(r: Ring, size: nat) {
    |r.stored| < size || size == 0 || !r.latch
  }

  /** What keeps `rb_write_chunk` waiting as long as no flag is set. */
  predicate NoChunkRoom(r: Ring, size: nat) {
    |r.stored| + size > r.size || size == 0
  }

  /** `rb_read_chunk` from taking the lock to releasing it: all of the chunk, or what is left once writing is done. */
  function ChunkReading(r: Ring, size: nat): (result: ReadResult)
    requires |r.stored| <= r.size
    ensures |result.taken| <= size && r.stored == result.taken + result.ring.stored
    ensures result.ring == r.(stored := result.ring.stored)
    ensures result.verdict.Waits? ==> NoChunk(r, size) && result.taken == []
    ensures !NoChunk(r, size) ==> |result.taken| == size
  {
    var n := if |r.stored| < size then if r.doneWrite then |r.stored| else 0 else size;
    if n == 0 || !r.latch then
      ReadResult(r, [], if r.doneWrite then Returns(RB_DONE) else if r.abortRead then Returns(RB_ABORT)
                        else if r.unblockReader then Returns(RB_TIMEOUT)
                        else if size > r.size then Returns(RB_FAIL) else Waits)
    else ReadResult(r.(stored := r.stored[n..]), r.stored[..n], Returns(0))
  }

  /** `rb_write_chunk` likewise. A chunk it refuses sets the latch. */
  function ChunkWriting(r: Ring, data: seq<byte>): (result: WriteResult)
    requires |r.stored| <= r.size
    ensures result.written <= |data| && result.ring.stored == r.stored + data[..result.written]
    ensures result.ring == r.(stored := result.ring.stored, latch := result.ring.latch)
    ensures result.verdict.Waits? ==> NoChunkRoom(r, |data|) && result.written == 0 && result.ring == r
    ensures !NoChunkRoom(r, |data|) ==> result.written == |data|
  {
    var room := r.size - |r.stored|;
    var n := if room < |data| then if r.doneWrite then room else 0 else |data|;
    if n == 0 then
      if r.doneWrite then WriteResult(r.(latch := true), 0, Returns(RB_DONE))
      else if r.abortWrite then WriteResult(r.(latch := true), 0, Returns(RB_ABORT))
      else if |data| > r.size then WriteResult(r.(latch := true), 0, Returns(RB_FAIL))
      else WriteResult(r, 0, Waits)
    else
      WriteResult(WithPiece(r, data[..n]), n, Returns(0))
  }

  // ---------------------------------------------------------------- two threads

  /**
   * A thread outside a call, inside one without the lock, or waiting; a wait ends by signal, time or chance. The call
   * is one of the stream calls `rb_read` and `rb_write`, or for a whole chunk.
   */
  datatype Reader =
    | Out
    | Asking(length: nat, total: nat, chunk: bool)
    | ReaderWaits(length: nat, total: nat, chunk: bool, signalled: bool)
  datatype Writer =
    | Out
    | Offering(data: seq<byte>, total: nat, chunk: bool)
    | WriterWaits(data: seq<byte>, total: nat, chunk: bool, signalled: bool)

  /** `silent`: a refused chunk has set the latch, which signals nobody. */
  datatype State = State(
    ring: Ring,
    reader: Reader,
    writer: Writer,
    accepted: seq<byte>,
    delivered: seq<byte>,
    silent: bool
  )

  predicate Fits(s: State) {
    |s.ring.stored| <= s.ring.size
  }

  function ReadOf(s: State): ReadResult
    requires s.reader.Asking? && Fits(s)
  {
    if s.reader.chunk then ChunkReading(s.ring, s.reader.length) else Reading(s.ring, s.reader.length)
  }

  function WriteOf(s: State): WriteResult
    requires s.writer.Offering? && Fits(s)
  {
    if s.writer.chunk then ChunkWriting(s.ring, s.writer.data) else Writing(s.ring, s.writer.data)
  }

  function SignalReader(r: Reader): Reader {
    if r.ReaderWaits? then r.(signalled := true) else r
  }

  function SignalWriter(w: Writer): Writer {
    if w.WriterWaits? then w.(signalled := true) else w
  }

  /** One critical section of `rb_read` or `rb_read_chunk`. */
  function ReadSection(s: State): State
    requires s.reader.Asking? && Fits(s)
  {
    var result := ReadOf(s);
    var total := s.reader.total + |result.taken|;
    var moved := s.(ring := result.ring, delivered := s.delivered + result.taken);
    if result.verdict.Waits? then
      moved.(reader := ReaderWaits(s.reader.length - |result.taken|, total, s.reader.chunk, false), writer := SignalWriter(s.writer))
    else
      moved.(reader := Reader.Out, writer := if total > 0 then SignalWriter(s.writer) else s.writer)
  }

  /** One critical section of `rb_write` or `rb_write_chunk`. */
  function WriteSection(s: State): State
    requires s.writer.Offering? && Fits(s)
  {
    var result := WriteOf(s);
    var total := s.writer.total + result.written;
    var moved := s.(ring := result.ring, accepted := s.accepted + s.writer.data[..result.written],
                    silent := s.silent || (result.written == 0 && result.ring.latch && !s.ring.latch));
    if result.verdict.Waits? then
      moved.(writer := WriterWaits(s.writer.data[result.written..], total, s.writer.chunk, false),
             reader := SignalReader(s.reader))
    else
      moved.(writer := Writer.Out, reader := if result.ring.latch && total > 0 then SignalReader(s.reader) else s.reader)
  }

  /** Steps: calls, critical sections, wake-ups for any reason, and the other calls that set a field. */
  datatype Action =
    | CallRead(length: nat)
    | CallReadChunk(length: nat)
    | RunRead
    | WakeReader
    | TimeOutReader
    | CallWrite(data: seq<byte>)
    | CallWriteChunk(data: seq<byte>)
    | RunWrite
    | WakeWriter
    | TimeOutWriter
    | DoneWrite
    | DoneRead
    | AbortRead
    | AbortWrite
    | UnblockReader
    | SetThreshold(threshold: int)

  ghost predicate Step(s: State, a: Action, s': State) {
    match a
    case CallRead(length) => s.reader.Out? && s' == s.(reader := Asking(length, 0, false))
    case CallReadChunk(length) => s.reader.Out? && s' == s.(reader := Asking(length, 0, true))
    case RunRead => s.reader.Asking? && Fits(s) && s' == ReadSection(s)
    case WakeReader =>
      s.reader.ReaderWaits? && s' == s.(reader := Asking(s.reader.length, s.reader.total, s.reader.chunk))
    case TimeOutReader =>
      s.reader.ReaderWaits?
      && s' == s.(reader := Reader.Out, writer := if s.reader.total > 0 then SignalWriter(s.writer) else s.writer)
    case CallWrite(data) => s.writer.Out? && s' == s.(writer := Offering(data, 0, false))
    case CallWriteChunk(data) => s.writer.Out? && s' == s.(writer := Offering(data, 0, true))
    case RunWrite => s.writer.Offering? && Fits(s) && s' == WriteSection(s)
    case WakeWriter =>
      s.writer.WriterWaits? && s' == s.(writer := Offering(s.writer.data, s.writer.total, s.writer.chunk))
    case TimeOutWriter =>
      s.writer.WriterWaits?
      && s' == s.(writer := Writer.Out,
                  reader := if s.ring.latch && s.writer.total > 0 then SignalReader(s.reader) else s.reader)
    case DoneWrite => s' == s.(ring := s.ring.(doneWrite := true), reader := SignalReader(s.reader))
    case DoneRead => s' == s.(ring := s.ring.(doneWrite := true), writer := SignalWriter(s.writer))
    case AbortRead => s' == s.(ring := s.ring.(abortRead := true), reader := SignalReader(s.reader))
    case AbortWrite => s' == s.(ring := s.ring.(abortWrite := true), writer := SignalWriter(s.writer))
    case UnblockReader => s' == s.(ring := s.ring.(unblockReader := true), reader := SignalReader(s.reader))
    case SetThreshold(t) =>
      s' == s.(ring := s.ring.(threshold := if t <= s.ring.size then t else s.ring.size))
  }

  /** `rb_create`. */
  predicate Start(s: State) {
    s.ring == Ring(s.ring.size, [], 0, false, false, false, false, false)
    && s.reader.Out? && s.writer.Out? && s.accepted == s.delivered == [] && !s.silent
  }

  /** Any interleaving of one reader and one writer. */
  ghost predicate Run(states: seq<State>, actions: seq<Action>) {
    |states| == |actions| + 1 && Start(states[0])
    && forall i :: 0 <= i < |actions| ==> Step(states[i], actions[i], states[i + 1])
  }

  // ---------------------------------------------------------------- invariant

  /** The waiting reader has nothing it may take. */
  predicate ReaderJustified(s: State)
    requires s.reader.ReaderWaits?
  {
    if s.reader.chunk then NoChunk(s.ring, s.reader.length) else NothingToRead(s.ring)
  }

  /** The waiting writer has no room for what it must put. */
  predicate WriterJustified(s: State)
    requires s.writer.WriterWaits?
  {
    if s.writer.chunk then NoChunkRoom(s.ring, |s.writer.data|) else NoRoom(s.ring)
  }

  /** Bytes go through in order; a full ring has its latch set. */
  predicate Sound(s: State) {
    s.accepted == s.delivered + s.ring.stored && Fits(s) && s.ring.threshold <= s.ring.size
    && (NoRoom(s.ring) && s.ring.size > 0 ==> s.ring.latch)
  }

  /**
   * A wait without a signal is still justified, for the writer always, for the reader unless the latch was set
   * silently; and of two waiting threads one has been signalled.
   */
  predicate Awake(s: State) {
    (s.reader.ReaderWaits? && !s.reader.signalled && !s.silent ==> ReaderJustified(s))
    && (s.writer.WriterWaits? && !s.writer.signalled ==> WriterJustified(s))
    && (s.reader.ReaderWaits? && s.writer.WriterWaits? ==> s.reader.signalled || s.writer.signalled)
  }

  predicate Inv(s: State) {
    Sound(s) && Awake(s)
  }

  lemma {:induction false} WritingLatches(r: Ring, data: seq<byte>)
    requires |r.stored| <= r.size && r.threshold <= r.size && (NoRoom(r) && r.size > 0 ==> r.latch)
    ensures var result := Writing(r, data);
      |result.ring.stored| <= r.size && (NoRoom(result.ring) && r.size > 0 ==> result.ring.latch)
      && (result.written == 0 && r.size > 0 ==> result.ring.latch == r.latch)
      && (r.latch ==> result.ring.latch)
    decreases |data|
  {
    if data != [] && !NoRoom(r) {
      var n := Min(r.size - |r.stored|, |data|);
      WritingLatches(WithPiece(r, data[..n]), data[n..]);
    }
  }

  lemma ReadSound(s: State)
    requires Sound(s) && s.reader.Asking? && s.ring.size > 0
    ensures Sound(ReadSection(s)) && ReadSection(s).ring.size == s.ring.size
  {
    hide Reading, ChunkReading;
    var result := ReadOf(s);
    Regroup(s.delivered, result.taken, result.ring.stored);
    hide ReadOf;
  }

  lemma ReadAwake(s: State)
    requires Inv(s) && s.reader.Asking? && s.ring.size > 0
    ensures Awake(ReadSection(s))
  {
    hide Reading, ChunkReading;
    var result := ReadOf(s);
    if result.taken == [] { assert result.ring == s.ring; }
  }

  lemma WriteSound(s: State)
    requires Sound(s) && s.writer.Offering? && s.ring.size > 0
    ensures Sound(WriteSection(s)) && WriteSection(s).ring.size == s.ring.size
  {
    hide Writing;
    var result := WriteOf(s);
    if !s.writer.chunk { WritingLatches(s.ring, s.writer.data); }
    Regroup(s.delivered, s.ring.stored, s.writer.data[..result.written]);
    hide ReadOf;
  }

  lemma WriteAwake(s: State)
    requires Inv(s) && s.writer.Offering? && s.ring.size > 0
    ensures Awake(WriteSection(s))
  {
    hide Writing;
    var result := WriteOf(s);
    if !s.writer.chunk { WritingLatches(s.ring, s.writer.data); }
    if result.written == 0 { assert result.ring.stored == s.ring.stored; }
  }

  lemma StepKeeps(s: State, a: Action, s': State)
    requires Inv(s) && Step(s, a, s') && s.ring.size > 0
    ensures Inv(s') && s'.ring.size == s.ring.size
  {
    hide ReadSection, WriteSection;
    if a.RunRead? {
      ReadSound(s);
      ReadAwake(s);
    } else if a.RunWrite? {
      WriteSound(s);
      WriteAwake(s);
    }
  }

  lemma {:induction false} RunKeeps(states: seq<State>, actions: seq<Action>, i: nat)
    requires Run(states, actions) && i < |states| && states[0].ring.size > 0
    ensures Inv(states[i]) && states[i].ring.size == states[0].ring.size
  {
    if i > 0 {
      hide Inv, Step;
      RunKeeps(states, actions, i - 1);
      StepKeeps(states[i - 1], actions[i - 1], states[i]);
    }
  }

  // ---------------------------------------------------------------- what every run shows

  /** Bytes delivered are a prefix of bytes accepted, and the ring holds the rest. */
  lemma DeliveredIsPrefix(states: seq<State>, actions: seq<Action>, i: nat)
    requires Run(states, actions) && i < |states| && states[0].ring.size > 0
    ensures states[i].delivered <= states[i].accepted
    ensures states[i].accepted == states[i].delivered + states[i].ring.stored
    ensures |states[i].ring.stored| <= states[i].ring.size
  {
    RunKeeps(states, actions, i);
  }

  /** The conditions on which `rb_read` and `rb_write` wait never hold together. */
  lemma NeverBothWait(states: seq<State>, actions: seq<Action>, i: nat)
    requires Run(states, actions) && i < |states| && states[0].ring.size > 0
    ensures !(NothingToRead(states[i].ring) && NoRoom(states[i].ring))
  {
    RunKeeps(states, actions, i);
  }

  /** When both threads wait, at least one of them has been signalled. */
  lemma NoDeadlock(states: seq<State>, actions: seq<Action>, i: nat)
    requires Run(states, actions) && i < |states| && states[0].ring.size > 0
    requires states[i].reader.ReaderWaits? && states[i].writer.WriterWaits?
    ensures states[i].reader.signalled || states[i].writer.signalled
  {
    RunKeeps(states, actions, i);
  }

  /** Through a ring without a byte of storage nothing ever passes, whatever is called. */
  lemma {:induction false} EmptyRingBlocks(states: seq<State>, actions: seq<Action>, i: nat)
    requires Run(states, actions) && i < |states| && states[0].ring.size == 0
    ensures NothingMoved(states[i])
  {
    if i > 0 {
      hide Step, NothingMoved;
      EmptyRingBlocks(states, actions, i - 1);
      EmptyRingStep(states[i - 1], actions[i - 1], states[i]);
    }
  }

  predicate NothingMoved(s: State) {
    s.accepted == [] && s.delivered == [] && s.ring.size == 0 && s.ring.stored == []
  }

  lemma EmptyRingStep(s: State, a: Action, s': State)
    requires NothingMoved(s) && Step(s, a, s')
    ensures NothingMoved(s')
  {
    hide ReadSection, WriteSection;
    if a.RunRead? {
      EmptyRead(s);
    } else if a.RunWrite? {
      EmptyWrite(s);
    }
  }

  lemma EmptyRead(s: State)
    requires NothingMoved(s) && s.reader.Asking?
    ensures NothingMoved(ReadSection(s))
  {
    hide Reading, ChunkReading;
    var result := ReadOf(s);
    assert |result.taken + result.ring.stored| == |result.taken| + |result.ring.stored| == 0;
  }

  lemma EmptyWrite(s: State)
    requires NothingMoved(s) && s.writer.Offering?
    ensures NothingMoved(WriteSection(s))
  {
    assert s.writer.data[..0] == [];
  }

  /**
   * A thread that waits without having been signalled lacks the bytes or the room it waits for; for the reader this
   * needs that no refused chunk has set the latch. The flags are another reason to go on, which this leaves out.
   */
  lemma WaitsJustified(states: seq<State>, actions: seq<Action>, i: nat)
    requires Run(states, actions) && i < |states| && states[0].ring.size > 0
    ensures var s := states[i];
      (s.writer.WriterWaits? && !s.writer.signalled ==> WriterJustified(s))
      && (s.reader.ReaderWaits? && !s.reader.signalled && !s.silent ==> ReaderJustified(s))
  {
    RunKeeps(states, actions, i);
  }

  /** The stream calls alone never set the latch silently. */
  lemma {:induction false} StreamsAreNotSilent(states: seq<State>, actions: seq<Action>, i: nat)
    requires Run(states, actions) && i < |states| && states[0].ring.size > 0
    requires forall k :: 0 <= k < |actions| ==> !actions[k].CallWriteChunk?
    ensures !states[i].silent && (states[i].writer.Out? || !states[i].writer.chunk)
  {
    if i > 0 {
      hide Inv, Step;
      StreamsAreNotSilent(states, actions, i - 1);
      RunKeeps(states, actions, i - 1);
      StreamStep(states[i - 1], actions[i - 1], states[i]);
    }
  }

  lemma StreamStep(s: State, a: Action, s': State)
    requires Inv(s) && s.ring.size > 0 && Step(s, a, s') && !a.CallWriteChunk?
    requires !s.silent && (s.writer.Out? || !s.writer.chunk)
    ensures !s'.silent && (s'.writer.Out? || !s'.writer.chunk)
  {
    hide Writing, ReadOf, Awake;
    if a.RunWrite? { WritingLatches(s.ring, s.writer.data); }
  }
}
